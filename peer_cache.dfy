/**
 * The site cache of `zweb_p2p.py` with its I/O replaced by values: `pathlib` paths,
 * a disk of directories and files, the registry of cached sites kept by `P2PManager`,
 * the peer server's running/stopped state and the reply a peer receives.
 * The download (`urlopen`) and the socket bind are oracles passed in by the caller.
 */
module PeerCache {
  import opened Text
  import Utf8

  const DefaultPublicIp := "1.1.1.1"
  const DefaultPort: nat := 6881

  /** The wildcard address the server falls back to. */
  const AnyAddress := "0.0.0.0"

  // ---------------------------------------------------------------------------
  // Paths
  // ---------------------------------------------------------------------------

  /** A component `pathlib` keeps: not empty, not `.`, no `/`. */
  predicate IsPart(x: string) { x != "" && x != "." && '/' !in x }

  predicate ValidParts(parts: seq<string>)
  {
    forall i :: 0 <= i < |parts| ==> IsPart(parts[i])
  }

  datatype PathValue = PathValue(absolute: bool, parts: seq<string>)

  /** A normalised `PurePosixPath`: a root flag and its components. */
  type Path = p: PathValue | ValidParts(p.parts) witness PathValue(false, [])

  /** `str(p)`. */
  function PathText(p: Path): string
  {
    if p.absolute then "/" + Join(p.parts, '/')
    else if p.parts == [] then "."
    else Join(p.parts, '/')
  }

  /** The components `pathlib` keeps from the pieces of a split path text. */
  function Components(pieces: seq<string>): (r: seq<string>)
    ensures ValidParts(r)
  {
    if pieces == [] then []
    else (if IsPart(pieces[0]) then [pieces[0]] else []) + Components(pieces[1..])
  }

  /** `Path(s)`: empty components and `.` components are dropped. */
  function ParsePath(s: string): Path
  {
    PathValue(StartsWith(s, "/"), Components(Split(s, '/')))
  }

  /** `p / name` for a single component; `.` leaves the path as it is. */
  function Child(p: Path, name: string): (r: Path)
    requires name != "" && '/' !in name
    ensures name == "." ==> r == p
    ensures name != "." ==> r.absolute == p.absolute && r.parts == p.parts + [name]
  {
    if name == "." then p else PathValue(p.absolute, p.parts + [name])
  }

  /** The first `k` components of `p`. */
  function Prefix(p: Path, k: nat): (r: Path)
    requires k <= |p.parts|
    ensures r.absolute == p.absolute && |r.parts| == k
  {
    PathValue(p.absolute, p.parts[..k])
  }

  /** `q` is `e` or lies below it. */
  predicate Within(q: Path, e: Path)
  {
    q.absolute == e.absolute && |e.parts| <= |q.parts| && q.parts[..|e.parts|] == e.parts
  }

  predicate StrictlyUnder(q: Path, c: Path)
  {
    Within(q, c) && |q.parts| > |c.parts|
  }

  /** `q` is an immediate child of `c`. */
  predicate IsEntry(q: Path, c: Path)
  {
    Within(q, c) && |q.parts| == |c.parts| + 1
  }

  /** The child of `c` under which `q` lies. */
  function EntryOf(q: Path, c: Path): (r: Path)
    requires StrictlyUnder(q, c)
    ensures IsEntry(r, c) && Within(q, r)
  {
    Prefix(q, |c.parts| + 1)
  }

  lemma {:induction false} ComponentsOfValid(parts: seq<string>)
    requires ValidParts(parts)
    ensures Components(parts) == parts
  {
    if parts != [] {
      ComponentsOfValid(parts[1..]);
      assert [parts[0]] + parts[1..] == parts;
    }
  }

  /** The text of a path with at least one component is not `.` and is not empty. */
  lemma JoinedParts(parts: seq<string>)
    requires parts != [] && ValidParts(parts)
    ensures var t := Join(parts, '/'); t != [] && t[0] != '/' && t != "."
  {
    if |parts| > 1 {
      assert Join(parts, '/')[..|parts[0]|] == parts[0];
      assert Join(parts, '/')[|parts[0]|] == '/';
    }
  }

  /** The components read back from the joined text of valid parts are those parts. */
  lemma JoinedComponents(parts: seq<string>)
    requires ValidParts(parts)
    ensures Components(Split(Join(parts, '/'), '/')) == parts
  {
    if parts == [] {
      assert Split("", '/') == [""];
    } else {
      SplitJoin(parts, '/');
      ComponentsOfValid(parts);
    }
  }

  /** The text `/` followed by the joined parts reads back as those parts. */
  lemma RootedComponents(parts: seq<string>)
    requires ValidParts(parts)
    ensures Components(Split("/" + Join(parts, '/'), '/')) == parts
  {
    var j := Join(parts, '/');
    SplitAfter("", j, '/');
    assert "" + ['/'] + j == "/" + j;
    var pieces := Split(j, '/');
    assert ([""] + pieces)[1..] == pieces;
    assert Components([""] + pieces) == Components(pieces);
    JoinedComponents(parts);
  }

  /** `Path(str(p)) == p`: the text of a path reads back as the same path. */
  lemma PathRoundTrip(p: Path)
    ensures PathText(p) != ""
    ensures ParsePath(PathText(p)) == p
  {
    if p.absolute {
      RootedComponents(p.parts);
    } else if p.parts == [] {
      SplitNoSep(".", '/');
    } else {
      JoinedParts(p.parts);
      JoinedComponents(p.parts);
    }
  }

  // ---------------------------------------------------------------------------
  // Aliases and the paths derived from them
  // ---------------------------------------------------------------------------

  /** `alias.replace("/", "-") or "unknown"`. */
  function SafeAlias(alias: string): (r: string)
    ensures r != "" && '/' !in r
    ensures alias != "" ==> |r| == |alias|
    ensures forall i :: 0 <= i < |alias| && alias[i] != '/' ==> r[i] == alias[i]
    ensures forall i :: 0 <= i < |alias| && alias[i] == '/' ==> r[i] == '-'
    ensures alias == "" ==> r == "unknown"
  {
    var replaced := seq(|alias|, i requires 0 <= i < |alias| => if alias[i] == '/' then '-' else alias[i]);
    if replaced == "" then "unknown" else replaced
  }

  /** `_cache_path_for(alias)`. */
  function CachePathFor(cacheDir: Path, alias: string): (r: Path)
    ensures SafeAlias(alias) == "." ==> r == cacheDir
    ensures SafeAlias(alias) != "." ==> r.absolute == cacheDir.absolute && r.parts == cacheDir.parts + [SafeAlias(alias)]
  {
    Child(cacheDir, SafeAlias(alias))
  }

  /** `_data_path_for(alias)`. */
  function DataPathFor(dataDir: Path, alias: string): (r: Path)
    ensures SafeAlias(alias) == "." ==> r == dataDir
    ensures SafeAlias(alias) != "." ==> r.absolute == dataDir.absolute && r.parts == dataDir.parts + [SafeAlias(alias)]
  {
    Child(dataDir, SafeAlias(alias))
  }

  /** The file `metadata_file` names. */
  function MetadataFile(dataDir: Path): Path
  {
    Child(dataDir, "sites.json")
  }

  /** Below a named directory the cache path's text is the directory's text, `/`, and the
      safe alias; the alias `.` names the cache directory itself. */
  lemma CachePathText(cacheDir: Path, alias: string)
    requires cacheDir.parts != []
    ensures SafeAlias(alias) != "." ==>
      PathText(CachePathFor(cacheDir, alias)) == PathText(cacheDir) + "/" + SafeAlias(alias)
    ensures SafeAlias(alias) == "." ==> CachePathFor(cacheDir, alias) == cacheDir
  {
    var s := SafeAlias(alias);
    if s != "." {
      JoinLast(cacheDir.parts, s, '/');
    }
  }

  /** Aliases that differ only by `/` against `-` share one cache entry. */
  lemma SlashAndDashCollide(cacheDir: Path, a: string, b: string)
    requires |a| == |b|
    requires forall i :: 0 <= i < |a| ==> a[i] == b[i] || (a[i] in {'/', '-'} && b[i] in {'/', '-'})
    ensures CachePathFor(cacheDir, a) == CachePathFor(cacheDir, b)
  {
    assert SafeAlias(a) == SafeAlias(b);
  }

  /** Distinct base directories give distinct paths for the same alias, except for the
      alias `.`. */
  lemma CacheAndDataApart(cacheDir: Path, dataDir: Path, alias: string)
    requires cacheDir != dataDir && SafeAlias(alias) != "."
    ensures CachePathFor(cacheDir, alias) != DataPathFor(dataDir, alias)
  {
    var cachePath := CachePathFor(cacheDir, alias);
    var dataPath := DataPathFor(dataDir, alias);
    assert cachePath.parts[..|cacheDir.parts|] == cacheDir.parts;
    assert dataPath.parts[..|dataDir.parts|] == dataDir.parts;
  }

  // ---------------------------------------------------------------------------
  // Cached sites and their dictionaries
  // ---------------------------------------------------------------------------

  datatype CachedSite = CachedSite(alias: string, source: string, hostname: string, cachePath: Path, dataPath: Path)

  const SiteKeys: set<string> := {"alias", "source", "hostname", "cache_path", "data_path"}

  /** `CachedSite.to_dict`. */
  function ToDict(s: CachedSite): (m: map<string, string>)
    ensures m.Keys == SiteKeys
  {
    map["alias" := s.alias, "source" := s.source, "hostname" := s.hostname,
        "cache_path" := PathText(s.cachePath), "data_path" := PathText(s.dataPath)]
  }

  function ToDicts(sites: seq<CachedSite>): (r: seq<map<string, string>>)
    ensures |r| == |sites|
  {
    seq(|sites|, i requires 0 <= i < |sites| => ToDict(sites[i]))
  }

  /** A site whose three text fields are all non-empty. */
  predicate IsComplete(s: CachedSite)
  {
    s.alias != "" && s.source != "" && s.hostname != ""
  }

  /** The complete sites of `sites`, in order. */
  function Complete(sites: seq<CachedSite>): (r: seq<CachedSite>)
    ensures |r| <= |sites|
  {
    if sites == [] then []
    else Complete(sites[..|sites| - 1]) + (if IsComplete(sites[|sites| - 1]) then [sites[|sites| - 1]] else [])
  }

  /** `entry.get(key)`, with a missing key read as the falsy empty string. */
  function Get(entry: map<string, string>, key: string): string
  {
    if key in entry then entry[key] else ""
  }

  /** One entry of the metadata file read back: skipped unless all five fields are non-empty. */
  function SiteOf(entry: map<string, string>): (r: Option<CachedSite>)
    ensures r.Some? <==> forall k :: k in SiteKeys ==> Get(entry, k) != ""
    ensures r.Some? ==> IsComplete(r.value) && r.value.alias == entry["alias"]
  {
    var alias := Get(entry, "alias");
    var source := Get(entry, "source");
    var hostname := Get(entry, "hostname");
    var cachePath := Get(entry, "cache_path");
    var dataPath := Get(entry, "data_path");
    if alias == "" || source == "" || hostname == "" || cachePath == "" || dataPath == "" then None
    else Some(CachedSite(alias, source, hostname, ParsePath(cachePath), ParsePath(dataPath)))
  }

  /** The sites read from a metadata table, in order. */
  function Decoded(entries: seq<map<string, string>>): (r: seq<CachedSite>)
    ensures |r| <= |entries|
    ensures forall i :: 0 <= i < |r| ==> IsComplete(r[i])
  {
    if entries == [] then []
    else
      var last := entries[|entries| - 1];
      Decoded(entries[..|entries| - 1]) + (match SiteOf(last) case Some(s) => [s] case None => [])
  }

  /** The values `f` gives to the elements of `xs`, in order, skipping those it gives none. */
  function Kept<A, B>(f: A -> Option<B>, xs: seq<A>): (r: seq<B>)
    ensures |r| <= |xs|
  {
    if xs == [] then []
    else Kept(f, xs[..|xs| - 1]) + (match f(xs[|xs| - 1]) case Some(y) => [y] case None => [])
  }

  lemma {:induction false} KeptAppend<A, B>(f: A -> Option<B>, a: seq<A>, b: seq<A>)
    ensures Kept(f, a + b) == Kept(f, a) + Kept(f, b)
    decreases |b|
  {
    if b == [] {
      assert a + b == a;
    } else {
      var ab := a + b;
      assert ab[..|ab| - 1] == a + b[..|b| - 1];
      KeptAppend(f, a, b[..|b| - 1]);
    }
  }

  lemma KeptHas<A, B>(f: A -> Option<B>, xs: seq<A>, i: nat)
    requires i < |xs| && f(xs[i]).Some?
    ensures f(xs[i]).value in Kept(f, xs)
  {
    assert xs == xs[..i] + [xs[i]] + xs[i + 1..];
    KeptAppend(f, xs[..i] + [xs[i]], xs[i + 1..]);
    KeptAppend(f, xs[..i], [xs[i]]);
    assert [xs[i]][..0] == [];
  }

  lemma {:induction false} KeptOnly<A, B>(f: A -> Option<B>, xs: seq<A>, y: B)
    requires y in Kept(f, xs)
    ensures exists i :: 0 <= i < |xs| && f(xs[i]) == Some(y)
  {
    var init := xs[..|xs| - 1];
    if y in Kept(f, init) {
      KeptOnly(f, init, y);
      var i :| 0 <= i < |init| && f(init[i]) == Some(y);
      assert xs[i] == init[i];
    }
  }

  /** `Decoded` keeps, in order, the sites `SiteOf` reads. */
  lemma {:induction false} DecodedIsKept(entries: seq<map<string, string>>)
    ensures Decoded(entries) == Kept(SiteOf, entries)
  {
    if entries != [] {
      DecodedIsKept(entries[..|entries| - 1]);
    }
  }

  /** Reading two tables one after the other reads their entries in order. */
  lemma DecodedAppend(a: seq<map<string, string>>, b: seq<map<string, string>>)
    ensures Decoded(a + b) == Decoded(a) + Decoded(b)
  {
    DecodedIsKept(a + b);
    DecodedIsKept(a);
    DecodedIsKept(b);
    KeptAppend(SiteOf, a, b);
  }

  /** An entry with all five fields is kept. */
  lemma DecodedKeeps(entries: seq<map<string, string>>, i: nat)
    requires i < |entries| && SiteOf(entries[i]).Some?
    ensures SiteOf(entries[i]).value in Decoded(entries)
  {
    DecodedIsKept(entries);
    KeptHas(SiteOf, entries, i);
  }

  /** Every site read comes from an entry with all five fields. */
  lemma DecodedOnly(entries: seq<map<string, string>>, s: CachedSite)
    requires s in Decoded(entries)
    ensures exists i :: 0 <= i < |entries| && SiteOf(entries[i]) == Some(s)
  {
    DecodedIsKept(entries);
    KeptOnly(SiteOf, entries, s);
  }

  /** Reading a site's dictionary gives the site back exactly when it is complete. */
  lemma SiteOfToDict(s: CachedSite)
    ensures SiteOf(ToDict(s)) == if IsComplete(s) then Some(s) else None
  {
    PathRoundTrip(s.cachePath);
    PathRoundTrip(s.dataPath);
    var m := ToDict(s);
    assert Get(m, "alias") == s.alias && Get(m, "source") == s.source && Get(m, "hostname") == s.hostname;
    assert Get(m, "cache_path") == PathText(s.cachePath) && Get(m, "data_path") == PathText(s.dataPath);
  }

  /** Writing the registry and reading it back keeps the complete sites, in order, and
      drops the rest (the placeholders of `mark_site_cached`). */
  lemma {:induction false} ReloadKeepsComplete(sites: seq<CachedSite>)
    ensures Decoded(ToDicts(sites)) == Complete(sites)
  {
    if sites != [] {
      var n := |sites|;
      assert ToDicts(sites)[..n - 1] == ToDicts(sites[..n - 1]);
      ReloadKeepsComplete(sites[..n - 1]);
      SiteOfToDict(sites[n - 1]);
    }
  }

  // ---------------------------------------------------------------------------
  // The registry (`_register_site`, `mark_site_cached`)
  // ---------------------------------------------------------------------------

  predicate HasAlias(sites: seq<CachedSite>, alias: string)
  {
    exists i :: 0 <= i < |sites| && sites[i].alias == alias
  }

  predicate UniqueAliases(sites: seq<CachedSite>)
  {
    forall i, j :: 0 <= i < j < |sites| ==> sites[i].alias != sites[j].alias
  }

  /** The sites whose alias is not `alias`, in order. */
  function Without(sites: seq<CachedSite>, alias: string): (r: seq<CachedSite>)
    ensures |r| <= |sites|
    ensures !HasAlias(r, alias)
    ensures forall i :: 0 <= i < |r| ==> r[i] in sites
  {
    if sites == [] then []
    else
      var rest := Without(sites[..|sites| - 1], alias);
      var last := sites[|sites| - 1];
      if last.alias == alias then rest else rest + [last]
  }

  /** The list after `_register_site(site)`. */
  function Registered(sites: seq<CachedSite>, site: CachedSite): (r: seq<CachedSite>)
    ensures r != [] && r[|r| - 1] == site && |r| <= |sites| + 1
    ensures forall i :: 0 <= i < |r| - 1 ==> r[i] in sites && r[i].alias != site.alias
  {
    Without(sites, site.alias) + [site]
  }

  /** The placeholder `mark_site_cached` records for an alias it has not seen. */
  function Placeholder(cacheDir: Path, dataDir: Path, alias: string): CachedSite
  {
    CachedSite(alias, "", "", CachePathFor(cacheDir, alias), DataPathFor(dataDir, alias))
  }

  /** The list after `mark_site_cached(alias)`. */
  function Marked(sites: seq<CachedSite>, cacheDir: Path, dataDir: Path, alias: string): (r: seq<CachedSite>)
    ensures HasAlias(r, alias) && sites <= r && |r| <= |sites| + 1
    ensures r == sites <==> HasAlias(sites, alias)
  {
    if HasAlias(sites, alias) then sites
    else
      var r := sites + [Placeholder(cacheDir, dataDir, alias)];
      assert r[|sites|].alias == alias;
      r
  }

  lemma {:induction false} WithoutKeeps(sites: seq<CachedSite>, alias: string, s: CachedSite)
    requires s in sites && s.alias != alias
    ensures s in Without(sites, alias)
  {
    var n := |sites|;
    if sites[n - 1] != s {
      assert s in sites[..n - 1];
      WithoutKeeps(sites[..n - 1], alias, s);
    }
  }

  /** Removing the same alias twice removes nothing more. */
  lemma {:induction false} WithoutTwice(sites: seq<CachedSite>, alias: string)
    ensures Without(Without(sites, alias), alias) == Without(sites, alias)
  {
    var r := Without(sites, alias);
    if r != [] {
      assert r[..|r| - 1] + [r[|r| - 1]] == r;
      WithoutAbsent(r, alias);
    }
  }

  /** `Without` leaves a list that lacks the alias alone. */
  lemma {:induction false} WithoutAbsent(sites: seq<CachedSite>, alias: string)
    requires !HasAlias(sites, alias)
    ensures Without(sites, alias) == sites
  {
    if sites != [] {
      var n := |sites|;
      WithoutAbsent(sites[..n - 1], alias);
      assert sites[..n - 1] + [sites[n - 1]] == sites;
    }
  }

  /** After registering, the site is the last entry and the only one with its alias; every
      other entry is kept, in its relative order. */
  lemma RegisteredShape(sites: seq<CachedSite>, site: CachedSite)
    ensures var r := Registered(sites, site);
      && r != [] && r[|r| - 1] == site
      && (forall i :: 0 <= i < |r| - 1 ==> r[i].alias != site.alias)
      && Without(r, site.alias) == Without(sites, site.alias)
      && (forall s :: s in sites && s.alias != site.alias ==> s in r)
  {
    var w := Without(sites, site.alias);
    var r := w + [site];
    assert r[..|r| - 1] == w;
    WithoutTwice(sites, site.alias);
    forall i | 0 <= i < |r| - 1 ensures r[i].alias != site.alias {
      assert r[i] == w[i];
    }
    forall s | s in sites && s.alias != site.alias ensures s in r {
      WithoutKeeps(sites, site.alias, s);
    }
  }

  lemma {:induction false} WithoutUnique(sites: seq<CachedSite>, alias: string)
    requires UniqueAliases(sites)
    ensures UniqueAliases(Without(sites, alias))
  {
    if sites != [] {
      var n := |sites|;
      var rest := Without(sites[..n - 1], alias);
      WithoutUnique(sites[..n - 1], alias);
      forall i | 0 <= i < |rest| ensures rest[i].alias != sites[n - 1].alias {
        var k :| 0 <= k < n - 1 && sites[..n - 1][k] == rest[i];
      }
    }
  }

  /** Registering keeps aliases unique. */
  lemma RegisterKeepsUnique(sites: seq<CachedSite>, site: CachedSite)
    requires UniqueAliases(sites)
    ensures UniqueAliases(Registered(sites, site))
  {
    WithoutUnique(sites, site.alias);
    var w := Without(sites, site.alias);
    var r := w + [site];
    forall i | 0 <= i < |w| ensures r[i].alias != site.alias {
      assert r[i] == w[i];
    }
  }

  /** Marking keeps aliases unique. */
  lemma MarkKeepsUnique(sites: seq<CachedSite>, cacheDir: Path, dataDir: Path, alias: string)
    requires UniqueAliases(sites)
    ensures UniqueAliases(Marked(sites, cacheDir, dataDir, alias))
  {
  }

  /** After marking, the alias is present and every earlier entry is where it was. */
  lemma MarkedShape(sites: seq<CachedSite>, cacheDir: Path, dataDir: Path, alias: string)
    ensures var r := Marked(sites, cacheDir, dataDir, alias);
      && HasAlias(r, alias)
      && r[..|sites|] == sites
      && (|r| == |sites| <==> HasAlias(sites, alias))
  {
    var r := Marked(sites, cacheDir, dataDir, alias);
    if !HasAlias(sites, alias) {
      assert r[|sites|].alias == alias;
    }
  }

  /** A placeholder is never complete, so a reload does not bring it back. */
  lemma ReloadDropsPlaceholder(sites: seq<CachedSite>, cacheDir: Path, dataDir: Path, alias: string)
    ensures Complete(Marked(sites, cacheDir, dataDir, alias)) == Complete(sites)
  {
    var r := Marked(sites, cacheDir, dataDir, alias);
    if r != sites {
      assert r[..|r| - 1] == sites;
    }
  }

  // ---------------------------------------------------------------------------
  // The disk
  // ---------------------------------------------------------------------------

  /** What a file holds: raw bytes, or the table `_write_metadata` serialises. */
  datatype FileBody = Bytes(content: seq<Utf8.byte>) | SiteTable(entries: seq<map<string, string>>)

  /** Directories, files, the paths whose write or removal raises `OSError` with the
      given text, and the paths whose read raises `OSError`. */
  datatype Disk = Disk(dirs: set<Path>, files: map<Path, FileBody>, faults: map<Path, string>, unreadable: set<Path>)

  /** Every file and directory has all of its ancestors as directories. */
  predicate Closed(d: Disk)
  {
    && (forall q, k :: q in d.dirs && 0 <= k < |q.parts| ==> Prefix(q, k) in d.dirs)
    && (forall q, k :: q in d.files && 0 <= k < |q.parts| ==> Prefix(q, k) in d.dirs)
  }

  /** `_ensure_directory(p)`: `p` and every ancestor become directories. */
  function MakeDirs(d: Disk, p: Path): (r: Disk)
    ensures p in r.dirs && d.dirs <= r.dirs
    ensures r.files == d.files && r.faults == d.faults && r.unreadable == d.unreadable
    ensures forall k :: 0 <= k <= |p.parts| ==> Prefix(p, k) in r.dirs
    ensures forall q :: q in r.dirs ==> q in d.dirs || exists k :: 0 <= k <= |p.parts| && q == Prefix(p, k)
  {
    assert Prefix(p, |p.parts|) == p;
    d.(dirs := d.dirs + (set k | 0 <= k <= |p.parts| :: Prefix(p, k)))
  }

  lemma MakeDirsTwice(d: Disk, p: Path, q: Path)
    ensures MakeDirs(MakeDirs(MakeDirs(d, p), q), p) == MakeDirs(MakeDirs(d, p), q)
  {
  }

  /** Writing `body` at `p`: the fault text when the write raises, else the new disk. */
  function WriteFile(d: Disk, p: Path, body: FileBody): (r: Result<Disk>)
    ensures r.Err? <==> p in d.faults
    ensures r.Ok? ==> r.value.files == d.files[p := body] && r.value.dirs == d.dirs && r.value.faults == d.faults
    ensures r.Ok? ==> r.value.unreadable == d.unreadable
  {
    if p in d.faults then Err(d.faults[p]) else Ok(d.(files := d.files[p := body]))
  }

  /** The disk after `_write_metadata`: a failed write leaves it unchanged. */
  function Persisted(d: Disk, file: Path, sites: seq<CachedSite>): (r: Disk)
    ensures file in d.faults ==> r == d
    ensures file !in d.faults ==> r.files == d.files[file := SiteTable(ToDicts(sites))]
    ensures r.dirs == d.dirs && r.faults == d.faults && r.unreadable == d.unreadable
  {
    match WriteFile(d, file, SiteTable(ToDicts(sites)))
    case Ok(written) => written
    case Err(_) => d
  }

  /** The text of the `UnicodeDecodeError` `read_text("utf-8")` raises. */
  const UndecodableText := "'utf-8' codec can't decode bytes"

  /** The registry `_load_metadata` reads: empty when the file is missing or unreadable or
      does not hold a site table, and an error when its bytes are not UTF-8, which
      the source does not catch. */
  function Loaded(d: Disk, file: Path): (r: Result<seq<CachedSite>>)
    ensures r.Err? <==>
      file in d.files && file !in d.unreadable && d.files[file].Bytes? && Utf8.Decode(d.files[file].content).None?
    ensures file !in d.files || file in d.unreadable ==> r == Ok([])
    ensures file in d.files && d.files[file].Bytes? && r.Ok? ==> r.value == []
    ensures r.Ok? ==> forall i :: 0 <= i < |r.value| ==> IsComplete(r.value[i])
  {
    if file !in d.files || file in d.unreadable then Ok([])
    else match d.files[file]
      case Bytes(b) => if Utf8.Decode(b).None? then Err(UndecodableText) else Ok([])
      case SiteTable(entries) => Ok(Decoded(entries))
  }

  /** A registry written successfully reads back as its complete sites. */
  lemma WriteThenLoad(d: Disk, file: Path, sites: seq<CachedSite>)
    requires file !in d.faults && file !in d.unreadable
    ensures Loaded(Persisted(d, file, sites), file) == Ok(Complete(sites))
  {
    ReloadKeepsComplete(sites);
  }

  /** A metadata file that can be read but not written still loads its sites, and the
      failed `_write_metadata` leaves it as it was. */
  lemma ReadOnlyMetadata(d: Disk, file: Path, entries: seq<map<string, string>>, sites: seq<CachedSite>)
    requires file in d.files && d.files[file] == SiteTable(entries)
    requires file in d.faults && file !in d.unreadable
    ensures Persisted(d, file, sites) == d
    ensures Loaded(Persisted(d, file, sites), file) == Ok(Decoded(entries))
  {
  }

  /** The disk after the entry `e` is removed (`unlink` or `rmtree`), or unchanged when that
      raises. */
  function Removal(d: Disk, e: Path): (r: Disk)
    ensures r.faults == d.faults
    ensures e in d.faults ==> r == d
    ensures e !in d.faults ==> forall q :: q in r.dirs <==> q in d.dirs && !Within(q, e)
    ensures e !in d.faults ==> forall q :: q in r.files <==> q in d.files && !Within(q, e)
    ensures forall q :: q in r.files ==> q in d.files && r.files[q] == d.files[q]
  {
    if e in d.faults then d
    else d.(dirs := (set q | q in d.dirs && !Within(q, e)),
            files := map q | q in d.files && !Within(q, e) :: d.files[q])
  }

  /** The immediate children of `c`, as `c.glob("*")` lists them. */
  function Children(d: Disk, c: Path): (r: set<Path>)
    ensures forall q :: q in r ==> IsEntry(q, c) && (q in d.dirs || q in d.files)
    ensures forall q :: IsEntry(q, c) && (q in d.dirs || q in d.files) ==> q in r
  {
    set q | q in d.dirs + d.files.Keys && IsEntry(q, c)
  }

  /** `q` goes once the entries in `done` have been removed from `c`. */
  predicate Doomed(q: Path, c: Path, done: set<Path>, faults: map<Path, string>)
  {
    StrictlyUnder(q, c) && EntryOf(q, c) in done && EntryOf(q, c) !in faults
  }

  /** The disk after the entries `done` of `c` have each been removed. */
  function Scrubbed(d: Disk, c: Path, done: set<Path>): (r: Disk)
    ensures r.faults == d.faults
  {
    d.(dirs := (set q | q in d.dirs && !Doomed(q, c, done, d.faults)),
       files := map q | q in d.files && !Doomed(q, c, done, d.faults) :: d.files[q])
  }

  /** For an entry `e` of `c`, lying below `c` with entry `e` is lying within `e`. */
  lemma EntryWithin(q: Path, c: Path, e: Path)
    requires IsEntry(e, c)
    ensures (StrictlyUnder(q, c) && EntryOf(q, c) == e) <==> Within(q, e)
  {
    var n := |c.parts|;
    if Within(q, e) {
      assert q.parts[..|e.parts|][..n] == q.parts[..n];
      assert e.parts[..n] == c.parts;
      assert q.parts[..n + 1] == e.parts;
    }
    if StrictlyUnder(q, c) && EntryOf(q, c) == e {
      assert q.parts[..n + 1] == e.parts;
    }
  }

  lemma ScrubbedNone(d: Disk, c: Path)
    ensures Scrubbed(d, c, {}) == d
  {
    var r := Scrubbed(d, c, {});
    assert r.dirs == d.dirs;
    assert r.files == d.files;
  }

  /** Removing one more entry extends the set of removed entries by it. */
  lemma ScrubStep(d: Disk, c: Path, done: set<Path>, e: Path)
    requires IsEntry(e, c)
    ensures Removal(Scrubbed(d, c, done), e) == Scrubbed(d, c, done + {e})
  {
    var s := Scrubbed(d, c, done);
    var t := Scrubbed(d, c, done + {e});
    var r := Removal(s, e);
    forall q ensures (StrictlyUnder(q, c) && EntryOf(q, c) == e) <==> Within(q, e) {
      EntryWithin(q, c, e);
    }
    assert r.dirs == t.dirs;
    assert r.files.Keys == t.files.Keys;
    assert r.files == t.files;
  }

  /** Nothing outside `c` is touched by scrubbing it. */
  lemma ScrubKeepsOutside(d: Disk, c: Path, done: set<Path>, q: Path)
    requires !StrictlyUnder(q, c)
    ensures var r := Scrubbed(d, c, done);
      && (q in r.dirs <==> q in d.dirs)
      && (q in r.files <==> q in d.files)
      && (q in r.files ==> r.files[q] == d.files[q])
  {
  }

  /** Two paths that both contain `q` are nested one in the other. */
  lemma Nested(q: Path, a: Path, c: Path)
    requires Within(q, a) && Within(q, c)
    ensures Within(a, c) || Within(c, a)
  {
    if |a.parts| <= |c.parts| {
      assert q.parts[..|c.parts|][..|a.parts|] == q.parts[..|a.parts|];
    } else {
      assert q.parts[..|a.parts|][..|c.parts|] == q.parts[..|c.parts|];
    }
  }

  /** Scrubbing the cache directory leaves a data directory that is neither inside it nor
      around it exactly as it was, with everything below it. */
  lemma DataDirUntouched(d: Disk, cacheDir: Path, dataDir: Path, done: set<Path>)
    requires !Within(cacheDir, dataDir) && !Within(dataDir, cacheDir)
    ensures var r := Scrubbed(d, cacheDir, done);
      forall q :: Within(q, dataDir) ==>
        && (q in r.dirs <==> q in d.dirs)
        && (q in r.files <==> q in d.files)
        && (q in r.files ==> r.files[q] == d.files[q])
  {
    forall q | Within(q, dataDir) ensures !StrictlyUnder(q, cacheDir) {
      if StrictlyUnder(q, cacheDir) {
        Nested(q, dataDir, cacheDir);
      }
    }
  }

  /** On a disk whose entries have their ancestors, removing every child of `c` leaves
      below `c` only what lies within an entry whose removal raised. */
  lemma CleanupEmptiesCache(d: Disk, c: Path)
    requires Closed(d)
    ensures var r := Scrubbed(d, c, Children(d, c));
      forall q :: q in r.dirs + r.files.Keys && StrictlyUnder(q, c) ==> EntryOf(q, c) in d.faults
  {
    var r := Scrubbed(d, c, Children(d, c));
    forall q | q in r.dirs + r.files.Keys && StrictlyUnder(q, c) ensures EntryOf(q, c) in d.faults {
      var e := EntryOf(q, c);
      if |q.parts| == |c.parts| + 1 {
        assert q.parts[..|q.parts|] == q.parts;
        assert e == q;
      } else {
        assert e == Prefix(q, |c.parts| + 1);
      }
      assert e in d.dirs + d.files.Keys;
      assert e in Children(d, c);
    }
  }

  // ---------------------------------------------------------------------------
  // Oracles and outcomes
  // ---------------------------------------------------------------------------

  /** What `urlopen(url).read()` gives: the payload, or the text of the `URLError`. */
  datatype Fetched = Content(bytes: seq<Utf8.byte>) | Unreachable(reason: string)

  /** The exception a server start raises. */
  datatype Raised = RuntimeError(message: string) | OSError(message: string)

  /** A bound listening socket. */
  datatype Listener = Listener(host: string, port: nat)

  datatype Launch = Listening(listener: Listener) | Refused(error: Raised)

  /** `source.strip()`, behind `http://` unless it holds `://`. */
  function NormalisedSource(source: string): string
  {
    WithHttp(Strip(source))
  }

  /** The normalised source always names a scheme; without one, `http` is assumed. */
  lemma NormalisedHasScheme(source: string)
    ensures HasInfix(NormalisedSource(source), "://")
    ensures HasInfix(Strip(source), "://") || NormalisedSource(source) == "http://" + Strip(source)
  {
    WithHttpScheme(Strip(source));
  }

  /** Binding the listener: the requested address when `inet_aton` accepts it, else the
      wildcard; a refused specific address is retried on the wildcard, whose refusal then
      propagates as `OSError`. `bindError(host)` is the text of the `OSError` a bind to
      `host` raises, if any. */
  function Bind(ip: string, port: nat, ipAccepted: bool, bindError: string -> Option<string>): (r: Launch)
    ensures r.Listening? ==> r.listener.port == port && bindError(r.listener.host).None?
    ensures r.Listening? ==> r.listener.host == (if ipAccepted then ip else AnyAddress) || r.listener.host == AnyAddress
    ensures r.Refused? <==> bindError(if ipAccepted then ip else AnyAddress).Some? && bindError(AnyAddress).Some?
    ensures r.Refused? && r.error.RuntimeError? ==> (if ipAccepted then ip else AnyAddress) == AnyAddress
    ensures bindError(if ipAccepted then ip else AnyAddress).None? ==>
      r == Listening(Listener(if ipAccepted then ip else AnyAddress, port))
    ensures r.Refused? ==> (r.error.RuntimeError? <==> (if ipAccepted then ip else AnyAddress) == AnyAddress)
    ensures r.Refused? && r.error.RuntimeError? ==>
      r.error.message == "unable to start P2P server: " + bindError(AnyAddress).value
    ensures r.Refused? && r.error.OSError? ==> Some(r.error.message) == bindError(AnyAddress)
  {
    var host := if ipAccepted then ip else AnyAddress;
    match bindError(host)
    case None => Listening(Listener(host, port))
    case Some(e) =>
      if host != AnyAddress then
        match bindError(AnyAddress)
        case None => Listening(Listener(AnyAddress, port))
        case Some(e2) => Refused(OSError(e2))
      else Refused(RuntimeError("unable to start P2P server: " + e))
  }

  // ---------------------------------------------------------------------------
  // The peer reply (`_PeerRequestHandler.handle`)
  // ---------------------------------------------------------------------------

  datatype PeerReply = Pong | Summary(publicIp: string, sites: seq<map<string, string>>)

  /** The keys of the JSON object sent for `r`. */
  function ReplyKeys(r: PeerReply): set<string>
  {
    if r.Pong? then {"status", "message"} else {"status", "public_ip", "sites"}
  }

  /** The reply to the bytes one `recv(1024)` returned. */
  function PeerResponse(raw: seq<Utf8.byte>, publicIp: string, sites: seq<CachedSite>): (r: PeerReply)
    ensures r.Summary? ==> r.publicIp == publicIp && |r.sites| == |sites|
    ensures r.Summary? ==> forall i :: 0 <= i < |sites| ==>
      r.sites[i].Keys == SiteKeys && r.sites[i]["alias"] == sites[i].alias
  {
    if Upper(Strip(Utf8.DecodeIgnoring(raw))) == "PING" then Pong
    else Summary(publicIp, ToDicts(sites))
  }

  /** A `ping` in any case and with any surrounding blanks, sent as UTF-8, gets the pong. */
  lemma PeerPing(s: string, publicIp: string, sites: seq<CachedSite>)
    requires Lower(Strip(s)) == "ping"
    ensures PeerResponse(Utf8.Encode(s), publicIp, sites) == Pong
  {
    Utf8.DecodeEncode(s);
    Utf8.IgnoringAgrees(Utf8.Encode(s));
    UpperOfPing(Strip(s));
  }

  /** Any other text gets the summary, whose site dictionaries read back as the complete
      cached sites. */
  lemma PeerSummary(s: string, publicIp: string, sites: seq<CachedSite>)
    requires Upper(Strip(s)) != "PING"
    ensures PeerResponse(Utf8.Encode(s), publicIp, sites) == Summary(publicIp, ToDicts(sites))
    ensures Decoded(ToDicts(sites)) == Complete(sites)
  {
    Utf8.DecodeEncode(s);
    Utf8.IgnoringAgrees(Utf8.Encode(s));
    ReloadKeepsComplete(sites);
  }

  // ---------------------------------------------------------------------------
  // The manager (`P2PManager`)
  // ---------------------------------------------------------------------------

  class Manager {
    const cacheDir: Path
    const dataDir: Path
    const metadataFile: Path
    var server: Option<Listener>
    var publicIp: string
    var cachedSites: seq<CachedSite>
    var disk: Disk

    /** The dataclass fields of `P2PManager(cache_dir, data_dir)` over `disk`, before
        `__post_init__` runs: no server, the default public IP and an empty registry. */
    constructor (cacheDir: Path, dataDir: Path, disk: Disk)
      ensures this.cacheDir == cacheDir && this.dataDir == dataDir
      ensures metadataFile == MetadataFile(dataDir)
      ensures this.disk == disk && cachedSites == []
      ensures server == None && publicIp == DefaultPublicIp
    {
      this.cacheDir := cacheDir;
      this.dataDir := dataDir;
      metadataFile := MetadataFile(dataDir);
      this.disk := disk;
      server := None;
      publicIp := DefaultPublicIp;
      cachedSites := [];
    }

    /** `P2PManager(cache_dir, data_dir)`: the fields, then `__post_init__`. Both directories
        are made and the registry is read from `data_dir/sites.json`; the construction
        raises when that file's bytes are not UTF-8. */
    static method Open(cacheDir: Path, dataDir: Path, disk: Disk) returns (r: Result<Manager>)
      ensures r.Err? <==> Loaded(MakeDirs(MakeDirs(disk, cacheDir), dataDir), MetadataFile(dataDir)).Err?
      ensures r.Err? ==> r.message == UndecodableText
      ensures r.Ok? ==> fresh(r.value) && r.value.cacheDir == cacheDir && r.value.dataDir == dataDir
      ensures r.Ok? ==> r.value.metadataFile == MetadataFile(dataDir)
      ensures r.Ok? ==> r.value.disk == MakeDirs(MakeDirs(disk, cacheDir), dataDir)
      ensures r.Ok? ==> Ok(r.value.cachedSites) == Loaded(r.value.disk, r.value.metadataFile)
      ensures r.Ok? ==> r.value.server == None && r.value.publicIp == DefaultPublicIp
    {
      var m := new Manager(cacheDir, dataDir, disk);
      var raised := m.PostInit();
      match raised
      case Some(e) =>
        r := Err(e);
      case None =>
        r := Ok(m);
    }

    /** `__post_init__`: both directories are made, then the registry is loaded. */
    method PostInit() returns (raised: Option<string>)
      modifies this
      ensures disk == MakeDirs(MakeDirs(old(disk), cacheDir), dataDir)
      ensures raised.Some? <==> Loaded(disk, metadataFile).Err?
      ensures raised.Some? ==> raised.value == UndecodableText && cachedSites == old(cachedSites)
      ensures raised.None? ==> Ok(cachedSites) == Loaded(disk, metadataFile)
      ensures server == old(server) && publicIp == old(publicIp)
    {
      disk := MakeDirs(MakeDirs(disk, cacheDir), dataDir);
      raised := LoadMetadata();
    }

    /** `_load_metadata`: the registry, or the decode error it lets through. */
    method LoadMetadata() returns (raised: Option<string>)
      modifies this
      ensures raised.Some? <==> Loaded(disk, metadataFile).Err?
      ensures raised.Some? ==> raised.value == UndecodableText && cachedSites == old(cachedSites)
      ensures raised.None? ==> Ok(cachedSites) == Loaded(disk, metadataFile)
      ensures disk == old(disk) && server == old(server) && publicIp == old(publicIp)
    {
      raised := None;
      if metadataFile !in disk.files || metadataFile in disk.unreadable {
        cachedSites := [];
        return;
      }
      match disk.files[metadataFile]
      case Bytes(b) =>
        if Utf8.Decode(b).None? {
          raised := Some(UndecodableText);
        } else {
          cachedSites := [];
        }
      case SiteTable(entries) =>
        var sites := [];
        for i := 0 to |entries|
          invariant sites == Decoded(entries[..i])
        {
          assert entries[..i + 1][..i] == entries[..i];
          match SiteOf(entries[i])
          case Some(s) =>
            sites := sites + [s];
          case None =>
        }
        assert entries[..|entries|] == entries;
        cachedSites := sites;
    }

    /** `_write_metadata`: a failed write is ignored. */
    method WriteMetadata()
      modifies this
      ensures disk == Persisted(old(disk), metadataFile, cachedSites)
      ensures cachedSites == old(cachedSites) && server == old(server) && publicIp == old(publicIp)
    {
      var written := WriteFile(disk, metadataFile, SiteTable(ToDicts(cachedSites)));
      if written.Ok? {
        disk := written.value;
      }
    }

    /** `_register_site`. */
    method RegisterSite(site: CachedSite)
      modifies this
      ensures cachedSites == Registered(old(cachedSites), site)
      ensures disk == Persisted(old(disk), metadataFile, cachedSites)
      ensures server == old(server) && publicIp == old(publicIp)
    {
      cachedSites := Without(cachedSites, site.alias);
      cachedSites := cachedSites + [site];
      WriteMetadata();
    }

    /** The two `_ensure_directory` calls for the cache and data paths of `alias`. */
    method EnsureSiteDirs(alias: string) returns (cachePath: Path, dataPath: Path)
      modifies this
      ensures cachePath == CachePathFor(cacheDir, alias) && dataPath == DataPathFor(dataDir, alias)
      ensures disk == MakeDirs(MakeDirs(old(disk), cachePath), dataPath)
      ensures cachedSites == old(cachedSites) && server == old(server) && publicIp == old(publicIp)
    {
      cachePath := CachePathFor(cacheDir, alias);
      dataPath := DataPathFor(dataDir, alias);
      disk := MakeDirs(disk, cachePath);
      disk := MakeDirs(disk, dataPath);
    }

    /** `mark_site_cached`. */
    method MarkSiteCached(alias: string)
      modifies this
      ensures var dirs := MakeDirs(MakeDirs(old(disk), CachePathFor(cacheDir, alias)), DataPathFor(dataDir, alias));
        && cachedSites == Marked(old(cachedSites), cacheDir, dataDir, alias)
        && disk == (if HasAlias(old(cachedSites), alias) then dirs else Persisted(dirs, metadataFile, cachedSites))
      ensures server == old(server) && publicIp == old(publicIp)
    {
      var cachePath, dataPath := EnsureSiteDirs(alias);
      if !HasAlias(cachedSites, alias) {
        cachedSites := cachedSites + [Placeholder(cacheDir, dataDir, alias)];
        WriteMetadata();
      }
    }

    /** `install_site`: `fetch` stands for `urlopen`. */
    method InstallSite(source: string, alias: string, hostname: string, fetch: string -> Fetched)
      returns (r: Result<CachedSite>)
      modifies this
      ensures var cachePath := CachePathFor(cacheDir, alias);
        var dataPath := DataPathFor(dataDir, alias);
        var dirs := MakeDirs(MakeDirs(old(disk), cachePath), dataPath);
        var cacheFile := Child(cachePath, "site.html");
        var dataFile := Child(dataPath, "site.html");
        match fetch(NormalisedSource(source))
        case Unreachable(reason) =>
          r == Err("failed to download site: " + reason) && disk == dirs
        case Content(bytes) =>
          if cacheFile in dirs.faults then
            r == Err("unable to store site cache: " + dirs.faults[cacheFile]) && disk == dirs
          else if dataFile in dirs.faults then
            r == Err("unable to store site cache: " + dirs.faults[dataFile])
            && disk == dirs.(files := dirs.files[cacheFile := Bytes(bytes)])
          else
            && r == Ok(CachedSite(alias, NormalisedSource(source), hostname, cachePath, dataPath))
            && disk == Persisted(dirs.(files := dirs.files[cacheFile := Bytes(bytes)][dataFile := Bytes(bytes)]),
                                 metadataFile, cachedSites)
      ensures r.Err? ==> cachedSites == old(cachedSites)
      ensures r.Ok? ==> cachedSites == Registered(old(cachedSites), r.value)
      ensures server == old(server) && publicIp == old(publicIp)
    {
      var normalised := NormalisedSource(source);
      var cachePath, dataPath := EnsureSiteDirs(alias);
      match fetch(normalised)
      case Unreachable(reason) =>
        return Err("failed to download site: " + reason);
      case Content(bytes) =>
        r := StoreSite(CachedSite(alias, normalised, hostname, cachePath, dataPath), bytes);
    }

    /** The rest of `install_site` once `bytes` are downloaded: both `site.html` files are
        written, then the site is registered. */
    method StoreSite(site: CachedSite, bytes: seq<Utf8.byte>) returns (r: Result<CachedSite>)
      modifies this
      ensures var cacheFile := Child(site.cachePath, "site.html");
        var dataFile := Child(site.dataPath, "site.html");
        if cacheFile in old(disk).faults then
          r == Err("unable to store site cache: " + old(disk).faults[cacheFile]) && disk == old(disk)
        else if dataFile in old(disk).faults then
          r == Err("unable to store site cache: " + old(disk).faults[dataFile])
          && disk == old(disk).(files := old(disk).files[cacheFile := Bytes(bytes)])
        else
          && r == Ok(site)
          && disk == Persisted(old(disk).(files := old(disk).files[cacheFile := Bytes(bytes)][dataFile := Bytes(bytes)]),
                               metadataFile, cachedSites)
      ensures r.Err? ==> cachedSites == old(cachedSites)
      ensures r.Ok? ==> cachedSites == Registered(old(cachedSites), site)
      ensures server == old(server) && publicIp == old(publicIp)
    {
      var cacheFile := Child(site.cachePath, "site.html");
      var dataFile := Child(site.dataPath, "site.html");
      var first := WriteFile(disk, cacheFile, Bytes(bytes));
      if first.Err? {
        return Err("unable to store site cache: " + first.message);
      }
      disk := first.value;
      var second := WriteFile(disk, dataFile, Bytes(bytes));
      if second.Err? {
        return Err("unable to store site cache: " + second.message);
      }
      disk := second.value;
      RegisterSite(site);
      return Ok(site);
    }

    /** `stop_server`. */
    method StopServer()
      modifies this
      ensures server == None
      ensures disk == old(disk) && cachedSites == old(cachedSites) && publicIp == old(publicIp)
    {
      if server.None? {
        return;
      }
      server := None;
    }

    /** `start_server(ip, port)`: `ipAccepted` is whether `inet_aton` takes `ip`, and
        `bindError` the failure a bind to an address raises. */
    method StartServer(ip: string, port: nat, ipAccepted: bool, bindError: string -> Option<string>)
      returns (error: Option<Raised>)
      modifies this
      ensures old(server).Some? ==>
        && error == Some(RuntimeError("P2P server is already running"))
        && server == old(server) && publicIp == old(publicIp)
      ensures old(server).None? ==> publicIp == ip
      ensures old(server).None? ==> match Bind(ip, port, ipAccepted, bindError)
        case Listening(l) => error.None? && server == Some(l)
        case Refused(e) => error == Some(e) && server.None?
      ensures disk == old(disk) && cachedSites == old(cachedSites)
    {
      if server.Some? {
        return Some(RuntimeError("P2P server is already running"));
      }
      publicIp := ip;
      match Bind(ip, port, ipAccepted, bindError)
      case Listening(l) =>
        server := Some(l);
        return None;
      case Refused(e) =>
        return Some(e);
    }

    /** `cleanup_on_exit`: stops the server, then removes each child of the cache
        directory, going on past the ones whose removal raises. */
    method CleanupOnExit()
      modifies this
      ensures server == None
      ensures disk == Scrubbed(old(disk), cacheDir, Children(old(disk), cacheDir))
      ensures cachedSites == old(cachedSites) && publicIp == old(publicIp)
    {
      StopServer();
      var current := disk;
      ghost var start := current;
      ghost var done: set<Path> := {};
      var remaining := Children(current, cacheDir);
      ScrubbedNone(start, cacheDir);
      while remaining != {}
        invariant forall e :: e in remaining ==> IsEntry(e, cacheDir)
        invariant done + remaining == Children(start, cacheDir)
        invariant current == Scrubbed(start, cacheDir, done)
        invariant server == None && cachedSites == old(cachedSites) && publicIp == old(publicIp)
        decreases |remaining|
      {
        var e :| e in remaining;
        ScrubStep(start, cacheDir, done, e);
        current := Removal(current, e);
        done := done + {e};
        remaining := remaining - {e};
      }
      disk := current;
    }
  }

  /** Marking the same alias twice has the effect of marking it once. */
  lemma MarkTwice(sites: seq<CachedSite>, d: Disk, cacheDir: Path, dataDir: Path, file: Path, alias: string)
    ensures var once := Marked(sites, cacheDir, dataDir, alias);
      && Marked(once, cacheDir, dataDir, alias) == once
      && var dirs := MakeDirs(MakeDirs(d, CachePathFor(cacheDir, alias)), DataPathFor(dataDir, alias));
         var disk1 := if HasAlias(sites, alias) then dirs else Persisted(dirs, file, once);
         MakeDirs(MakeDirs(disk1, CachePathFor(cacheDir, alias)), DataPathFor(dataDir, alias)) == disk1
  {
    MarkedShape(sites, cacheDir, dataDir, alias);
  }
}
