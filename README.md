# ZWeb core, modelled in Dafny

ZWeb gives web hosts a second name under the private top-level domain `.zwb`.
There are three pieces of logic behind it, and this project models each with its
input and output replaced by values:

- **The hostname rewriter** (`dns.py`):
  - It normalises a hostname or URL and derives three strings: the zone, the node
    and the name.
  - GitHub Pages hosts (`<owner>.github.io[/<project>]`) are aliased to a sanitised
    `<label>.zwb`.
  - It builds the HTML error page shown when a lookup fails.
- **The resolution helper** (`zweb_socket_server.py`):
  - It builds the server directory.
  - It answers one request line: blank, `PING`, `SERVERS`, or a lookup.
  - It reads a connection until a newline and decodes it as UTF-8.
  - It parses the `--extra-server` arguments.
- **The site cache** (`zweb_p2p.py`):
  - `P2PManager` keeps an ordered registry of cached sites keyed by alias.
  - It stores downloads in a cache directory and a data directory, and persists the
    registry to `data/sites.json`.
  - It starts and stops a peer server and scrubs the cache on exit.
  - The reply a peer receives is modelled too.

Modules:

| file | module | models |
|---|---|---|
| `text.dfy` | `Text` | the `str` methods the core uses (`strip`, `lower`, `upper`, `split`, `join`, `in`), ASCII only |
| `utf8.dfy` | `Utf8` | strict UTF-8 decoding, decoding with `errors="ignore"`, and encoding (RFC 3629) |
| `urlparse.dfy` | `UrlParse` | the part of `urllib.parse.urlparse` and its `hostname` property that `dns.py` reads |
| `dns.dfy` | `Dns` | `dns.py` |
| `resolution_server.dfy` | `ResolutionServer` | `_RequestProcessor`, the read loop of `serve`, and the `--extra-server` handling of `main` |
| `peer_cache.dfy` | `PeerCache` | `CachedSite`, `P2PManager` as the class `Manager`, and the peer reply |

How the source's imperative code is modelled:

- The loops of the source are methods with loop invariants. Each is proved to
  compute a specification function:
  - `Dns.SanitiseLabel`;
  - `ResolutionServer.NewProcessor`, `ResolutionServer.ReadRequest` and
    `ResolutionServer.ParseExtraServers`;
  - `PeerCache.Manager.LoadMetadata` and `PeerCache.Manager.CleanupOnExit`.
- `P2PManager` is a class:
  - its fields `cached_sites`, `_server`, `public_ip` and the disk are updated in place;
  - the directories are constants.

The filesystem is a value `Disk`:

- a set of directory paths;
- a map from file path to contents;
- a map from the paths where a write or a removal raises `OSError` to the error text;
- the set of paths where a read raises `OSError`.

Reading and writing fail independently, so a read-only `sites.json` loads its
sites while every later write of it fails.

The download and the socket bind are oracles passed in by the caller.

Where the code and its documentation differ, the model follows the code:

- `name(domain, suffix)` of a GitHub Pages host uses `suffix`, not `.zwb`.
  The docstring at `dns.py:30-34` says the alias is preferred "regardless of
  suffix", but `dns.py:213-215` builds `<label>.<suffix>`.
- `describe` can fail even when the best-effort hostname is not empty.
  - Its non-alias branch splits the bare hostname again (`dns.py:234-236`).
  - For `http://  /x` the hostname is two spaces. The second split gives `""`.
  - So `name` raises `domain must not be empty`.
  - `Dns.DescribeOf` states the exact failure condition.
- `describe` computes zone and node from the hostname with the path dropped. So a
  GitHub Pages project whose project label sanitises to nothing (`hello.github.io/---`)
  still gets the owner alias `hello.zwb` from the second split.
- `_load_metadata` does not remove duplicate aliases. Alias uniqueness is
  preserved by registering and marking (`PeerCache.RegisterKeepsUnique`,
  `PeerCache.MarkKeepsUnique`), not restored by loading.
- `_load_metadata` catches `JSONDecodeError` and `OSError` but not the
  `UnicodeDecodeError` of `read_text("utf-8")`. A `sites.json` that is not UTF-8
  therefore makes `P2PManager(...)` raise, as `PeerCache.Manager.Open` states.
- `start_server` sets `public_ip` before it binds. A failed start therefore still
  changes `public_ip`, as `PeerCache.Manager.StartServer` states.

## Model

| member | source | states |
|---|---|---|
| `Dns.ParseInput` | dns.py:61-83 | blank input fails with `a hostname or URL is required`; a parsed hostname has no trailing dot and no upper-case letter before any `%`; every path segment is non-empty and free of `/` |
| `Dns.HostOf` | dns.py:77-83 | a hostname taken from a parsed URL has no trailing dot and is lower-cased; its path segments are non-empty and free of `/` |
| `Dns.ParsePlainInput` | dns.py:70-83 | a bare host followed by a path is read as if behind `http://`: the host is the hostname and the non-empty pieces of the path are the segments |
| `Dns.SplitPlainHost` | dns.py:128-135 | a bare hostname splits into itself and no path |
| `Dns.SplitBestEffort` | dns.py:128-135 | agrees with `_parse_input` when that succeeds, and otherwise gives no path; the hostname never ends with a dot |
| `Dns.SanitiseLabel` | dns.py:93-107 | the loop that collapses non-alphanumeric runs into one `-` and strips dashes computes `Sanitised(word)` |
| `Dns.SanitisedShape` | dns.py:93-107 | the result holds only lower-case letters, digits and `-`; when non-empty it neither starts nor ends with `-` and holds no `--`; it keeps every letter and digit of the lower-cased input, in order |
| `Dns.SanitisedEmpty` | dns.py:93-107 | the result is empty exactly when the input has no letter or digit |
| `Dns.SanitisedIdempotent` | dns.py:93-107 | sanitising a sanitised label changes nothing |
| `Dns.SanitisedOfLabel` | dns.py:93-107 | a well-formed DNS label is its own sanitised form |
| `Dns.PagesAlias` | dns.py:110-125 | no alias unless the hostname ends with `.github.io`; raises exactly for such a hostname with a suffix empty after stripping dots; otherwise the alias is the sanitised first path segment (else owner) plus `.` and the suffix, and is absent exactly when that label sanitises to nothing |
| `Dns.OwnerOfPages` | dns.py:116 | the owner of `<owner>.github.io` is `<owner>` |
| `Dns.AliasOfLabel` | dns.py:110-125 | a GitHub Pages host whose label source is a DNS label is aliased to `<label>.zwb` |
| `Dns.ReplaceSuffix` | dns.py:138-156 | fails with `domain must not be empty` without labels and otherwise exactly when the suffix is empty after stripping dots; succeeds with all labels but the last (the only one, if single), joined by dots, then `.` and the stripped suffix |
| `Dns.ReplaceSuffixLabels` | dns.py:138-156 | the result ends with `.` plus the stripped suffix; for a dot-free suffix its labels are the kept labels plus the suffix, so two or more labels keep their count |
| `Dns.ReplaceSuffixOfLabel` | dns.py:154-155 | a single label gets `.suffix` appended |
| `Dns.ReplaceSuffixOfPair` | dns.py:146-156 | of two labels only the first is kept |
| `Dns.LabelsOfHostname` | dns.py:146-148 | a hostname without trailing dots has labels exactly when it is not empty |
| `Dns.GenericZone` | dns.py:174-179 | no labels give `""`; one label gives `<label>.zwb`; more give `<second-to-last>.zwb` |
| `Dns.ZoneOf` | dns.py:159-179 | the zone is empty exactly when the hostname is, and otherwise ends with `.zwb`; a GitHub Pages host with an alias has that alias as its zone |
| `Dns.Zone` | dns.py:159-179 | `zone(domain)` is empty exactly when the best-effort hostname is, and is the GitHub Pages alias of that split when there is one |
| `Dns.ZoneOfHost` | dns.py:174-179 | the zone of a bare non-GitHub hostname is its second-to-last label (or only label) plus `.zwb` |
| `Dns.NodeOfHost` | dns.py:200-203 | the node of a bare non-GitHub hostname is its first label when it has at most two, else all labels but the last two |
| `Dns.NameOf` | dns.py:206-218 | fails with `domain must not be empty` on an empty hostname and otherwise exactly when the stripped suffix is empty; a result ends with `.` plus the stripped suffix; a GitHub Pages host with an alias gets that alias built with the given suffix, and any other host gets `_replace_suffix` of its hostname |
| `Dns.ReplacedName` | dns.py:217-218 | the name of a hostname that is not a GitHub Pages alias is `_replace_suffix(hostname, suffix)`: its labels but the last, then `.` and the stripped suffix; it fails exactly when the stripped suffix is empty |
| `Dns.Name` | dns.py:206-218 | `name(domain, suffix)` fails exactly when the best-effort hostname or the stripped suffix is empty; otherwise it is the GitHub Pages alias built with `suffix` when the split has one, and else `_replace_suffix` of the split hostname |
| `Dns.NameOfHost` | dns.py:217-218 | the name of a bare non-GitHub hostname is its labels with the last replaced by `zwb` |
| `Dns.DescribeOf` | dns.py:221-236 | fails on an empty hostname, and otherwise exactly when there is no alias and the second split of the hostname is empty; a result keeps the hostname, and its zone and name end with `.zwb`; with an alias zone and name coincide and are a DNS label plus `.zwb` |
| `Dns.AliasParts` | dns.py:228-232 | for a GitHub Pages alias, zone and name are both the alias, which is a DNS label plus `.zwb`; the node is the sanitised owner for a project page and empty otherwise |
| `Dns.DescribeAgain` | dns.py:234-236 | without an alias the parts come from the hostname split again; they fail exactly when that split is empty, and keep the hostname |
| `Dns.Describe` | dns.py:239-243 | an empty best-effort hostname fails with `a hostname or URL is required`; a result reports the best-effort hostname |
| `Dns.DescribeSplitHost` | dns.py:224-236 | for a bare non-GitHub hostname `describe` takes the non-alias branch |
| `Dns.PartsOfHost` | dns.py:234-236 | the non-alias parts of a bare hostname are its zone, node and name |
| `Dns.DescribeBlank` | dns.py:224-226 | blank input fails with `a hostname or URL is required` |
| `Dns.DescribePlainHost` | dns.py:159-236 | a bare non-GitHub hostname has zone `<second-to-last>.zwb`, node = the labels before the zone (or the first label), name = labels with the last replaced by `zwb`; with three or more labels node, `.` and zone spell the name, and with at most two zone equals name |
| `Dns.DescribeOfLabel` | dns.py:228-232 | for a GitHub Pages host whose label source is a DNS label, zone and name are `<label>.zwb` and the node is the owner exactly for a project page |
| `Dns.DescribePagesUser` | dns.py:11-14 | `<owner>.github.io` has zone = name = `<owner>.zwb` and an empty node |
| `Dns.DescribePagesProject` | dns.py:24-28 | `<owner>.github.io/<project>` has zone = name = `<project>.zwb` and node `<owner>` |
| `Dns.BuildErrorPage` | dns.py:246-261 | the page holds the stripped request (or `(empty request)`) inside `<code>` and the stripped message (or `Lookup failed`) after `Reason:` |
| `UrlParse.Hostname` | dns.py:78-81 | a hostname is non-empty and lower-cased up to its first `%` |
| `UrlParse.ParsePlain` | dns.py:77 | an `http://` URL built from a bare host and path parses back into that scheme, host and path |
| `Text.WithHttpScheme` | dns.py:74-75 | a candidate without `://` gets `http://` in front, so it always holds `://` |
| `Text.StripEmptyIffBlank` | dns.py:70-72 | stripping gives the empty string exactly for blank input |
| `ResolutionServer.ExtraEntry` | zweb_socket_server.py:65-71 | an extra server is recorded exactly when it has a non-empty address; a missing or empty name becomes `Peer` |
| `ResolutionServer.ExtraEntries` | zweb_socket_server.py:65-71 | every recorded extra server has a name and an address |
| `ResolutionServer.ExtraEntriesAppend` | zweb_socket_server.py:65-71 | extra servers are recorded in input order |
| `ResolutionServer.DirectoryShape` | zweb_socket_server.py:59-71 | the directory starts with `Domain server` at the configured address and `Local helper` at `127.0.0.1:65432`; every entry has a name, and every entry has an address except a `Domain server` configured as the empty string |
| `ResolutionServer.NewProcessor` | zweb_socket_server.py:59-71 | the loop builds the fixed entries followed by the recorded extra servers |
| `ResolutionServer.Field` | zweb_socket_server.py:79-108 | a response has a text field for each of its keys but `servers`, and none for any other key; the status of a failure or undecodable request is `error`, else `ok` |
| `ResolutionServer.ErrorPayload` | zweb_socket_server.py:102-108 | an error payload has status `error`, the given message, and a page naming the request and that message |
| `ResolutionServer.Handle` | zweb_socket_server.py:73-100 | blank requests give the `no domain provided` error; `PING` and `SERVERS` in any case are answered before lookup; otherwise the answer is the lookup exactly when `describe` succeeds, and else the error payload carrying `describe`'s message and the stripped request |
| `ResolutionServer.BlankRequest` | zweb_socket_server.py:74-76 | a whitespace-only request gives status `error`, message `no domain provided`, the domain server, and a page naming `(empty request)` |
| `ResolutionServer.ErrorFields` | zweb_socket_server.py:102-108 | an error payload's `message` field is the given message and its `domain_server` field is the processor's domain server |
| `ResolutionServer.EmptyRequestPage` | dns.py:246-261 | the error page for a blank request shows `<code>(empty request)</code>` |
| `ResolutionServer.PingAnyCase` | zweb_socket_server.py:77-80 | `ping` in any letter case, with any surrounding white space, gets `pong` |
| `Text.UpperOfPing` | zweb_socket_server.py:77-78 | a word that lower-cases to `ping` upper-cases to `PING` |
| `ResolutionServer.ReadRequest` | zweb_socket_server.py:131-138 | the read loop returns the chunks up to the first empty chunk or the first chunk that leaves the data ending in `\n` |
| `ResolutionServer.ReceivedIsPrefix` | zweb_socket_server.py:131-138 | what is read is a prefix of what was sent |
| `ResolutionServer.ReceivedLine` | zweb_socket_server.py:131-138 | one line ending in its only `\n`, split into any non-empty chunks, is read whole |
| `ResolutionServer.Respond` | zweb_socket_server.py:140-148 | bytes that are not UTF-8 get the `request was not valid UTF-8` error; decoded text is handled |
| `ResolutionServer.ServeConnection` | zweb_socket_server.py:131-148 | a connection is answered with the response to what the read loop collected |
| `ResolutionServer.OneLine` | zweb_socket_server.py:131-148 | a client that sends one line of text in any non-empty chunks gets the answer for that text |
| `Utf8.DecodeEncode` | zweb_socket_server.py:140-141 | every string survives a UTF-8 encode and decode |
| `Utf8.EncodeDecode` | zweb_socket_server.py:140-141 | strict UTF-8 decoding is one-to-one: only the encoding of a string decodes to it |
| `ResolutionServer.ParseExtraServer` | zweb_socket_server.py:177-184 | every parsed value has exactly the keys `name` and `address` |
| `ResolutionServer.ExtraServerBare` | zweb_socket_server.py:179-181 | without `=` the name is `Peer` and the stripped value is the address |
| `ResolutionServer.ExtraServerNamed` | zweb_socket_server.py:182-184 | a value `NAME=ADDRESS` whose `NAME` holds no `=` gives the stripped `NAME` as name and the stripped `ADDRESS` (which may hold more `=`) as address |
| `ResolutionServer.FirstSeparator` | zweb_socket_server.py:182-183 | every value holding `=` is such a `NAME=ADDRESS`, split at its first `=` |
| `ResolutionServer.ParseExtraServers` | zweb_socket_server.py:177-184 | each argument is parsed in order |
| `ResolutionServer.ExtraServerEntry` | zweb_socket_server.py:177-184 | an argument gets a directory entry exactly when its address part is not blank; a bare address becomes a `Peer` entry |
| `PeerCache.PathRoundTrip` | zweb_p2p.py:154-155 | reading back the text of a path gives the same path, and that text is never empty |
| `PeerCache.Child` | zweb_p2p.py:172 | joining a component appends it, except that `.` leaves the path as it is |
| `PeerCache.SafeAlias` | zweb_p2p.py:171 | every `/` becomes `-` and every other character is kept; an empty alias becomes `unknown`; the result is non-empty and free of `/` |
| `PeerCache.CachePathFor` | zweb_p2p.py:170-172 | the cache path of an alias is the cache directory with the safe alias as one more component, or the cache directory itself when the safe alias is `.` |
| `PeerCache.DataPathFor` | zweb_p2p.py:174-176 | the data path of an alias is the data directory with the safe alias as one more component, or the data directory itself when the safe alias is `.` |
| `PeerCache.CachePathText` | zweb_p2p.py:170-172 | the cache path of an alias is the cache directory, `/`, and the safe alias, except that the alias `.` names the cache directory itself |
| `PeerCache.SlashAndDashCollide` | zweb_p2p.py:170-176 | aliases that differ only by `/` against `-` share one cache path |
| `PeerCache.CacheAndDataApart` | zweb_p2p.py:170-176 | with distinct directories the cache and data paths of an alias differ, unless the alias is `.` |
| `PeerCache.ToDict` | zweb_p2p.py:61-68 | a site's dictionary has exactly the five keys `alias`, `source`, `hostname`, `cache_path`, `data_path` |
| `PeerCache.SiteOf` | zweb_p2p.py:141-157 | an entry is read exactly when all five fields are present and non-empty, and then keeps its alias |
| `PeerCache.Decoded` | zweb_p2p.py:140-158 | the sites read from a table are at most as many as its entries and all complete |
| `PeerCache.DecodedIsKept` | zweb_p2p.py:140-158 | reading a table keeps, in order, exactly the sites that `SiteOf` reads from its entries |
| `PeerCache.DecodedAppend` | zweb_p2p.py:140-158 | entries are read in order: the sites of a table followed by another are the sites of the first followed by those of the second |
| `PeerCache.DecodedKeeps` | zweb_p2p.py:141-157 | an entry with all five fields non-empty is kept |
| `PeerCache.DecodedOnly` | zweb_p2p.py:141-157 | every site read comes from an entry with all five fields non-empty; an entry missing any field is skipped |
| `PeerCache.SiteOfToDict` | zweb_p2p.py:141-157 | a site's dictionary reads back as that site exactly when its alias, source and hostname are non-empty |
| `PeerCache.ReloadKeepsComplete` | zweb_p2p.py:129-163 | writing the registry and reading it back keeps exactly its complete sites, in order |
| `PeerCache.Loaded` | zweb_p2p.py:129-158 | loading fails exactly when the metadata file exists, is readable and is not UTF-8 (the uncaught `UnicodeDecodeError`); a missing or unreadable file, or one that is not a site table, gives an empty registry; every loaded site is complete |
| `PeerCache.ReadOnlyMetadata` | zweb_p2p.py:129-165 | a metadata file that is readable but not writable loads its complete entries, and writing it silently changes nothing |
| `PeerCache.WriteThenLoad` | zweb_p2p.py:160-165 | a registry written where writing succeeds loads back, without error, as its complete sites |
| `PeerCache.Persisted` | zweb_p2p.py:160-165 | writing the registry stores its table at the metadata file; a write that raises leaves the disk unchanged; directories and faults never change |
| `PeerCache.Without` | zweb_p2p.py:220 | filtering by alias leaves no site with that alias and only sites of the input |
| `PeerCache.Registered` | zweb_p2p.py:219-221 | the registered site comes last, and every site before it is an earlier site with another alias |
| `PeerCache.Marked` | zweb_p2p.py:224-234 | after marking the alias is present; the list is extended by at most one site, and it is unchanged exactly when the alias was already present |
| `PeerCache.RegisteredShape` | zweb_p2p.py:219-222 | after registering, the site is last and the only one with its alias; the other sites are all kept, in their relative order |
| `PeerCache.RegisterKeepsUnique` | zweb_p2p.py:219-222 | registering keeps aliases unique |
| `PeerCache.MarkedShape` | zweb_p2p.py:231-233 | after marking, the alias is present, earlier entries are unchanged, and the list grew exactly when the alias was absent |
| `PeerCache.MarkKeepsUnique` | zweb_p2p.py:224-234 | marking keeps aliases unique |
| `PeerCache.MarkTwice` | zweb_p2p.py:224-234 | marking an alias twice has the effect of marking it once, on the registry and on the disk |
| `PeerCache.ReloadDropsPlaceholder` | zweb_p2p.py:147-148 | a placeholder added by marking is dropped on reload |
| `PeerCache.MakeDirs` | zweb_p2p.py:47-48 | the path and all its ancestors become directories, every new directory is one of them, and the files and faults do not change |
| `PeerCache.MakeDirsTwice` | zweb_p2p.py:47-48 | making a directory that was already made changes nothing |
| `PeerCache.WriteFile` | zweb_p2p.py:203-207 | a write raises exactly at a faulty path and otherwise stores the contents there and changes nothing else |
| `PeerCache.NormalisedHasScheme` | zweb_p2p.py:186-188 | the normalised source always holds `://`; without one the stripped source is put behind `http://` |
| `PeerCache.Bind` | zweb_p2p.py:258-271 | the first address tried is the requested one if `inet_aton` takes it, else `0.0.0.0`; when it binds the server listens there; a refused specific address falls back to `0.0.0.0`; the start fails exactly when the first address and `0.0.0.0` are both refused; a failure is a `RuntimeError` (`unable to start P2P server: …`) exactly when the first address was `0.0.0.0`, and otherwise the fallback's `OSError` |
| `PeerCache.Children` | zweb_p2p.py:240 | `glob("*")` lists exactly the directories and files that are immediate entries of the directory |
| `PeerCache.Removal` | zweb_p2p.py:241-247 | removing an entry takes away exactly the directories and files within it, and a removal that raises changes nothing; no contents change |
| `PeerCache.ScrubStep` | zweb_p2p.py:240-247 | removing one more entry of the cache directory removes everything within it, unless the removal raises |
| `PeerCache.ScrubKeepsOutside` | zweb_p2p.py:236-247 | nothing outside the cache directory is touched |
| `PeerCache.DataDirUntouched` | zweb_p2p.py:236-247 | a data directory neither inside nor around the cache directory keeps everything within it |
| `PeerCache.CleanupEmptiesCache` | zweb_p2p.py:240-247 | after cleanup, what remains below the cache directory lies within an entry whose removal raised |
| `PeerCache.PeerResponse` | zweb_p2p.py:81-89 | any reply but the pong carries the public IP and one five-key dictionary per cached site, in list order |
| `PeerCache.PeerPing` | zweb_p2p.py:81-83 | `ping` in any case and with any surrounding white space, sent as UTF-8, gets the pong |
| `PeerCache.PeerSummary` | zweb_p2p.py:84-89 | any other text gets the summary, whose dictionaries read back as the complete cached sites |
| `Utf8.IgnoringAgrees` | zweb_p2p.py:81 | on valid UTF-8 the lenient decoder agrees with the strict one |
| `PeerCache.Manager.constructor` | zweb_p2p.py:106-116 | the dataclass fields: the two directories, `sites.json` in the data directory, an empty registry, no server and the public IP `1.1.1.1` |
| `PeerCache.Manager.Open` | zweb_p2p.py:119-124 | `P2PManager(...)` raises exactly when `sites.json` holds bytes that are not UTF-8; otherwise both directories are made, the registry is the one `Loaded` reads, no server runs, and the public IP is `1.1.1.1` |
| `PeerCache.Manager.PostInit` | zweb_p2p.py:119-124 | both directories are made, then the registry is loaded, or the decode error is raised and the registry left as it was |
| `PeerCache.Manager.LoadMetadata` | zweb_p2p.py:129-158 | the loop reads the registry that `Loaded` specifies, or raises the decode error exactly when `Loaded` fails, and changes nothing else |
| `PeerCache.Manager.WriteMetadata` | zweb_p2p.py:160-165 | the registry is written to `sites.json`, and a failed write is ignored |
| `PeerCache.Manager.RegisterSite` | zweb_p2p.py:219-222 | the registry becomes the registered list and is persisted |
| `PeerCache.Manager.EnsureSiteDirs` | zweb_p2p.py:190-193 | the cache and data paths of the alias and all their ancestors are made directories; nothing else changes |
| `PeerCache.Manager.MarkSiteCached` | zweb_p2p.py:224-234 | both directories are made; a placeholder is appended and persisted only when the alias is absent |
| `PeerCache.Manager.InstallSite` | zweb_p2p.py:178-217 | both directories are always made. A failed download raises `failed to download site: …`. A failed write raises `unable to store site cache: …`, and the cache copy stays when only the data write fails. In both failure cases the registry is unchanged. On success the same bytes are in both `site.html` files, and the site (alias, normalised source, hostname, both paths) is registered and persisted. |
| `PeerCache.Manager.StoreSite` | zweb_p2p.py:203-217 | a fault at the cache file raises `unable to store site cache: …` and changes nothing; a fault at the data file raises it after the cache file is written; otherwise both files hold the bytes and the site is registered and persisted; the registry changes only on success |
| `PeerCache.Manager.StartServer` | zweb_p2p.py:252-276 | a running server raises `P2P server is already running` and nothing changes. Otherwise the public IP is set, then the server listens where the bind succeeds or the bind's error is raised. |
| `PeerCache.Manager.StopServer` | zweb_p2p.py:278-284 | no server runs afterwards and nothing else changes |
| `PeerCache.Manager.CleanupOnExit` | zweb_p2p.py:236-247 | the server is stopped, every child of the cache directory is removed unless its removal raises, and the registry is untouched |

## Left out

- Sockets, threads, `atexit`, printing and the JSON text of requests and replies are
  not modelled. This covers `bind`, `listen`, `accept` and `sendall` in both servers,
  as well as `socketserver` and `threading`. Replies are records, and the trailing
  newline after each JSON document is not modelled.
- The Qt browser front-end and the installer script are not part of this model.
- `lru_cache` on `describe` is not modelled: caching does not change results, so
  `describe` is a function.
- `str.isalnum`, `str.lower`, `str.upper` and `str.isspace` are modelled on ASCII
  only. Letters outside ASCII count as neither letters nor digits.
- `urlparse` is simplified:
  - the netloc check for non-ASCII characters is left out;
  - the validation of bracketed IPv6 hosts is left out;
  - port parsing is left out, since `hostname` never reads the port;
  - of the bracket checks, only the unmatched-bracket `ValueError` is kept.
- Dns.Describe: the docstring's examples (`www.example.com`, `hello.github.io`,
  `hello.github.io/hi`) are stated for every host of their shape rather than on
  the literal strings. These are `Dns.DescribePlainHost`, `Dns.DescribePagesUser`
  and `Dns.DescribePagesProject`.
- Dns.NodeOf and Dns.Node carry no contract of their own. Their results are stated
  by `Dns.NodeOfHost`, `Dns.AliasParts` and `Dns.DescribePlainHost`.
- The `ValueError` that `describe` may raise is the only exception modelled in the
  resolution helper. Other exceptions are not modelled.
- Socket errors while reading are not modelled. A connection is the sequence of
  chunks its peer sends before closing.
- The peer handler's single `recv(1024)` is modelled as the bytes it returned,
  passed in. How many bytes a peer's message arrives in is not modelled.
- `urlopen` is an oracle that returns either the payload or the text of a
  `URLError`. Exceptions of other kinds (a `ValueError` for a malformed URL, a
  failing `read`) are not modelled.
- `socket.inet_aton` is an input that says whether it accepts the address. The
  bind is an oracle that returns the `OSError` text, if any.
- The `_thread` field is not modelled: it is set and cleared together with
  `_server`.
- The metadata file's JSON is modelled as the table `_write_metadata` produces.
  Any other contents are bytes. Bytes that are not UTF-8 make `read_text` raise
  `UnicodeDecodeError`, which `_load_metadata` does not catch. Bytes that are UTF-8
  read as unparsable (`JSONDecodeError`) and give an empty registry. Three things
  are not modelled:
  - the text of the `UnicodeDecodeError` (the offending byte and its position);
  - a JSON document that parses but is not a list of objects, which makes the
    source raise;
  - JSON values that are not strings, which the source converts with `str`.
- PeerCache.Manager.Open: when the construction raises, the two directories made
  before the raise are not handed back, because the disk is held by the manager the
  caller never receives.
- The dataclass defaults `cache` and `data` for the two directories are not
  modelled: the caller passes both.
- Paths are modelled by their text only:
  - `..` is not resolved;
  - a leading `//` is treated like `/`.
- The disk is simplified:
  - `mkdir` is assumed to succeed;
  - a write whose parent directory is missing is not modelled;
  - a path with contents and also a directory is not excluded.
- `rmtree` is modelled as all or nothing per entry. An entry whose removal raises is
  kept whole, whereas `shutil.rmtree` may already have removed part of it.
- `cleanup_on_exit` removes entries in `glob` order. The model removes them in any
  order, which does not change the resulting disk.
