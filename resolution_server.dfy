/**
 * The TCP bridge of `zweb_socket_server.py` without its sockets: the server directory,
 * the dispatch of one request line to a response record, the read-until-newline framing
 * of a connection, the UTF-8 decode of what was read, and the `--extra-server` arguments.
 */
module ResolutionServer {
  import opened Text
  import Utf8
  import Dns

  const Host := "127.0.0.1"
  const Port: nat := 65432
  const DefaultDomainServer := "1.1.1.1"

  /** The byte value of `\n`. */
  const Newline: Utf8.byte := 10

  /** One entry of the server directory (`_ServerEntry`). */
  datatype ServerEntry = ServerEntry(name: string, address: string, description: string)

  /** A `_RequestProcessor`: the configured domain server and the directory built from it. */
  datatype Processor = Processor(domainServer: string, servers: seq<ServerEntry>)

  /** The response records the server sends back, one per connection. */
  datatype Response =
    | Failure(message: string, domainServer: string, errorPage: string)
    | Pong(domainServer: string)
    | ServerList(domainServer: string, servers: seq<ServerEntry>)
    | Resolved(parts: Dns.DomainParts, domainServer: string)
    | NotUtf8

  /** The `status` field. */
  function Status(r: Response): string
  {
    if r.Failure? || r.NotUtf8? then "error" else "ok"
  }

  /** The keys of the JSON object sent for `r`. */
  function Keys(r: Response): set<string>
  {
    match r
    case Failure(_, _, _) => {"status", "message", "domain_server", "error_page"}
    case Pong(_) => {"status", "message", "domain_server"}
    case ServerList(_, _) => {"status", "domain_server", "servers"}
    case Resolved(_, _) => {"status", "hostname", "zone", "node", "name", "domain_server"}
    case NotUtf8 => {"status", "message"}
  }

  /** The value of a text field of the JSON object sent for `r`, if it has that field. */
  function Field(r: Response, key: string): (v: Option<string>)
    ensures v.Some? ==> key in Keys(r)
    ensures key in Keys(r) && key != "servers" ==> v.Some?
    ensures key == "status" ==> v == Some(Status(r))
  {
    if key == "status" then Some(Status(r))
    else match r
      case Failure(m, ds, page) =>
        if key == "message" then Some(m)
        else if key == "domain_server" then Some(ds)
        else if key == "error_page" then Some(page)
        else None
      case Pong(ds) =>
        if key == "message" then Some("pong")
        else if key == "domain_server" then Some(ds)
        else None
      case ServerList(ds, _) =>
        if key == "domain_server" then Some(ds) else None
      case Resolved(parts, ds) =>
        if key == "hostname" then Some(parts.hostname)
        else if key == "zone" then Some(parts.zone)
        else if key == "node" then Some(parts.node)
        else if key == "name" then Some(parts.name)
        else if key == "domain_server" then Some(ds)
        else None
      case NotUtf8 =>
        if key == "message" then Some("request was not valid UTF-8") else None
  }

  // ---------------------------------------------------------------------------
  // The server directory (`_RequestProcessor.__init__`)
  // ---------------------------------------------------------------------------

  /** `f"{HOST}:{PORT}"`. */
  function LocalHelperAddress(): string
  {
    Host + ":" + Decimal(Port)
  }

  /** The two entries every directory starts with. */
  function FixedEntries(domainServer: string): seq<ServerEntry>
  {
    [ServerEntry("Domain server", domainServer, "Primary DNS authority"),
     ServerEntry("Local helper", LocalHelperAddress(), "Bundled lookup helper")]
  }

  /** The entry recorded for one extra server, if any: a missing or empty name becomes
      `Peer`, a missing description the empty one, and an entry without an address is skipped. */
  function ExtraEntry(entry: map<string, string>): (e: Option<ServerEntry>)
    ensures e.Some? <==> "address" in entry && entry["address"] != ""
    ensures e.Some? ==> e.value.name != "" && e.value.address == entry["address"]
    ensures e.Some? && "name" in entry && entry["name"] != "" ==> e.value.name == entry["name"]
    ensures e.Some? && !("name" in entry && entry["name"] != "") ==> e.value.name == "Peer"
  {
    var name := if "name" in entry && entry["name"] != "" then entry["name"] else "Peer";
    var address := if "address" in entry then entry["address"] else "";
    var description := if "description" in entry then entry["description"] else "";
    if address == "" then None else Some(ServerEntry(name, address, description))
  }

  /** The entries recorded for the extra servers, in input order. */
  function ExtraEntries(extras: seq<map<string, string>>): (r: seq<ServerEntry>)
    ensures |r| <= |extras|
    ensures forall i :: 0 <= i < |r| ==> r[i].name != "" && r[i].address != ""
  {
    if extras == [] then []
    else
      var init := ExtraEntries(extras[..|extras| - 1]);
      match ExtraEntry(extras[|extras| - 1])
      case None => init
      case Some(e) => init + [e]
  }

  /** The whole directory. */
  function Directory(domainServer: string, extras: seq<map<string, string>>): seq<ServerEntry>
  {
    FixedEntries(domainServer) + ExtraEntries(extras)
  }

  /** Extra servers are recorded in input order: the entries of two lists of extras are
      the entries of the first followed by those of the second. */
  lemma {:induction false} ExtraEntriesAppend(a: seq<map<string, string>>, b: seq<map<string, string>>)
    ensures ExtraEntries(a + b) == ExtraEntries(a) + ExtraEntries(b)
    decreases |b|
  {
    if b != [] {
      var ab := a + b;
      assert ab[..|ab| - 1] == a + b[..|b| - 1];
      assert ab[|ab| - 1] == b[|b| - 1];
      ExtraEntriesAppend(a, b[..|b| - 1]);
    } else {
      assert a + b == a;
    }
  }

  /** The directory always starts with the domain server and the local helper, every entry
      in it has a name, and every entry has an address unless it is an empty domain server. */
  lemma DirectoryShape(domainServer: string, extras: seq<map<string, string>>)
    ensures var d := Directory(domainServer, extras);
      && |d| >= 2
      && d[0] == ServerEntry("Domain server", domainServer, "Primary DNS authority")
      && d[1] == ServerEntry("Local helper", "127.0.0.1:65432", "Bundled lookup helper")
      && forall i :: 0 <= i < |d| ==> d[i].name != "" && (i > 0 || domainServer != "" ==> d[i].address != "")
  {
    assert Decimal(Port) == "65432";
    var d := Directory(domainServer, extras);
    forall i | 0 <= i < |d| ensures d[i].name != "" && (i > 0 || domainServer != "" ==> d[i].address != "") {
      if i >= 2 {
        assert d[i] == ExtraEntries(extras)[i - 2];
      }
    }
  }

  /** `_RequestProcessor(domain_server, extra_servers)`: the fixed entries, then one entry per
      extra server with an address, appended in a loop. */
  method NewProcessor(domainServer: string, extras: seq<map<string, string>>) returns (p: Processor)
    ensures p.domainServer == domainServer
    ensures p.servers == FixedEntries(domainServer) + ExtraEntries(extras)
  {
    var servers := FixedEntries(domainServer);
    for i := 0 to |extras|
      invariant servers == FixedEntries(domainServer) + ExtraEntries(extras[..i])
    {
      assert extras[..i + 1][..i] == extras[..i];
      var entry := extras[i];
      var name := if "name" in entry && entry["name"] != "" then entry["name"] else "Peer";
      var address := if "address" in entry then entry["address"] else "";
      var description := if "description" in entry then entry["description"] else "";
      if address != "" {
        servers := servers + [ServerEntry(name, address, description)];
      }
    }
    assert extras[..|extras|] == extras;
    p := Processor(domainServer, servers);
  }

  // ---------------------------------------------------------------------------
  // Dispatch (`handle`, `_error_payload`)
  // ---------------------------------------------------------------------------

  /** `_error_payload(message, request)`: the message, the domain server and an error page
      built from the same message and request. */
  function ErrorPayload(p: Processor, message: string, request: string): (r: Response)
    ensures r.Failure? && Status(r) == "error" && r.message == message
    ensures HasInfix(r.errorPage, "<code>" + Dns.Shown(request, "(empty request)") + "</code>")
    ensures HasInfix(r.errorPage, "<strong>Reason:</strong> " + Dns.Shown(message, "Lookup failed") + "</p>")
  {
    Failure(message, p.domainServer, Dns.BuildErrorPage(message, request))
  }

  /** `handle(raw)`: a blank request is an error; `PING` and `SERVERS`, in any case and
      with any surrounding white space, are answered before any lookup; anything else is
      looked up with `describe`, whose failure message becomes the error message. */
  function Handle(p: Processor, raw: string): (r: Response)
    ensures Strip(raw) == "" ==> r == ErrorPayload(p, "no domain provided", "")
    ensures Strip(raw) != "" && Upper(Strip(raw)) == "PING" ==> r == Pong(p.domainServer)
    ensures Strip(raw) != "" && Upper(Strip(raw)) == "SERVERS" ==> r == ServerList(p.domainServer, p.servers)
    ensures r.Resolved? ==> Dns.Describe(Strip(raw)) == Ok(r.parts) && r.domainServer == p.domainServer
    ensures Strip(raw) != "" && Upper(Strip(raw)) !in {"PING", "SERVERS"} ==>
      (r.Resolved? <==> Dns.Describe(Strip(raw)).Ok?)
    ensures Strip(raw) != "" && Upper(Strip(raw)) !in {"PING", "SERVERS"} && Dns.Describe(Strip(raw)).Err? ==>
      r == ErrorPayload(p, Dns.Describe(Strip(raw)).message, Strip(raw))
  {
    var request := Strip(raw);
    if request == "" then ErrorPayload(p, "no domain provided", request)
    else
      var command := Upper(request);
      if command == "PING" then Pong(p.domainServer)
      else if command == "SERVERS" then ServerList(p.domainServer, p.servers)
      else match Dns.Describe(request)
        case Err(m) => ErrorPayload(p, m, request)
        case Ok(parts) => Resolved(parts, p.domainServer)
  }

  /** A blank request's error page names `(empty request)` and the reason `no domain provided`. */
  lemma BlankRequest(p: Processor, raw: string)
    requires forall i :: 0 <= i < |raw| ==> raw[i] in Whitespace
    ensures Status(Handle(p, raw)) == "error"
    ensures Field(Handle(p, raw), "message") == Some("no domain provided")
    ensures Field(Handle(p, raw), "domain_server") == Some(p.domainServer)
    ensures HasInfix(Handle(p, raw).errorPage, "<code>" + "(empty request)" + "</code>")
  {
    StripEmptyIffBlank(raw);
    assert Handle(p, raw) == ErrorPayload(p, "no domain provided", "");
    ErrorFields(p, "no domain provided", "");
    EmptyRequestPage("no domain provided");
  }

  /** An error payload carries its message and the processor's domain server. */
  lemma ErrorFields(p: Processor, message: string, request: string)
    ensures Field(ErrorPayload(p, message, request), "message") == Some(message)
    ensures Field(ErrorPayload(p, message, request), "domain_server") == Some(p.domainServer)
  {
  }

  /** The page for a blank request shows the `(empty request)` placeholder. */
  lemma EmptyRequestPage(message: string)
    ensures HasInfix(Dns.BuildErrorPage(message, ""), "<code>" + "(empty request)" + "</code>")
  {
    StripEmptyIffBlank("");
    assert Dns.Shown("", "(empty request)") == "(empty request)";
  }

  /** `ping`, `Ping` and `PING` get the same answer. */
  lemma PingAnyCase(p: Processor, raw: string)
    requires Strip(raw) != "" && Lower(Strip(raw)) == "ping"
    ensures Handle(p, raw) == Pong(p.domainServer)
  {
    UpperOfPing(Strip(raw));
  }

  // ---------------------------------------------------------------------------
  // Framing and decoding (`serve`)
  // ---------------------------------------------------------------------------

  /** What the server reads from a connection whose peer sends `chunks` (one per `recv`)
      and then closes: chunks accumulate until one is empty or the data ends with `\n`. */
  function Received(chunks: seq<seq<Utf8.byte>>): seq<Utf8.byte>
  {
    if chunks == [] || chunks[0] == [] then []
    else if chunks[0][|chunks[0]| - 1] == Newline then chunks[0]
    else chunks[0] + Received(chunks[1..])
  }

  /** The bytes of all chunks, in order. */
  function Flatten(chunks: seq<seq<Utf8.byte>>): seq<Utf8.byte>
  {
    if chunks == [] then [] else chunks[0] + Flatten(chunks[1..])
  }

  /** The read loop of `serve`: `recv` yields the next chunk, or nothing once the peer has
      sent them all. */
  method ReadRequest(chunks: seq<seq<Utf8.byte>>) returns (data: seq<Utf8.byte>)
    ensures data == Received(chunks)
  {
    data := [];
    var i := 0;
    while true
      invariant 0 <= i <= |chunks|
      invariant data + Received(chunks[i..]) == Received(chunks)
      invariant data != [] ==> data[|data| - 1] != Newline
      decreases |chunks| - i
    {
      var chunk := if i < |chunks| then chunks[i] else [];
      if chunk == [] {
        break;
      }
      data := data + chunk;
      i := i + 1;
      if data[|data| - 1] == Newline {
        break;
      }
    }
  }

  /** The server reads a prefix of what was sent. */
  lemma {:induction false} ReceivedIsPrefix(chunks: seq<seq<Utf8.byte>>)
    ensures |Received(chunks)| <= |Flatten(chunks)|
    ensures Received(chunks) == Flatten(chunks)[..|Received(chunks)|]
  {
    if chunks != [] && chunks[0] != [] && chunks[0][|chunks[0]| - 1] != Newline {
      ReceivedIsPrefix(chunks[1..]);
    }
  }

  /** However the peer splits one line into non-empty chunks, the server reads exactly that
      line, up to and including its only `\n`. */
  lemma {:induction false} ReceivedLine(chunks: seq<seq<Utf8.byte>>)
    requires forall i :: 0 <= i < |chunks| ==> chunks[i] != []
    requires Flatten(chunks) != [] && Flatten(chunks)[|Flatten(chunks)| - 1] == Newline
    requires Newline !in Flatten(chunks)[..|Flatten(chunks)| - 1]
    ensures Received(chunks) == Flatten(chunks)
  {
    var b := Flatten(chunks);
    var c := chunks[0];
    var rest := Flatten(chunks[1..]);
    assert b == c + rest;
    if c[|c| - 1] == Newline {
      if rest != [] {
        InPrefix(b, |c| - 1);
        assert false;
      }
    } else {
      if rest == [] {
        assert false;
      }
      assert rest[..|rest| - 1] == b[..|b| - 1][|c|..];
      ReceivedLine(chunks[1..]);
    }
  }

  lemma InPrefix(b: seq<Utf8.byte>, k: nat)
    requires k < |b| - 1
    ensures b[k] in b[..|b| - 1]
  {
    assert b[..|b| - 1][k] == b[k];
  }

  /** What the server answers to the bytes it read: an error when they are not UTF-8. */
  function Respond(p: Processor, data: seq<Utf8.byte>): (r: Response)
    ensures Utf8.Decode(data).None? <==> r == NotUtf8
    ensures Utf8.Decode(data).Some? ==> r == Handle(p, Utf8.Decode(data).value)
  {
    match Utf8.Decode(data)
    case None => NotUtf8
    case Some(request) => Handle(p, request)
  }

  /** One connection: read, decode, answer. */
  method ServeConnection(p: Processor, chunks: seq<seq<Utf8.byte>>) returns (r: Response)
    ensures r == Respond(p, Received(chunks))
  {
    var data := ReadRequest(chunks);
    r := Respond(p, data);
  }

  /** The UTF-8 encoding of text without a line break holds no `\n` byte. */
  lemma {:induction false} EncodeNoNewline(s: string)
    requires '\n' !in s
    ensures Newline !in Utf8.Encode(s)
  {
    if s != [] {
      EncodeNoNewline(s[1..]);
      var n := s[0] as int;
      assert n != 10;
      assert Utf8.Encode(s) == Utf8.EncodeChar(s[0]) + Utf8.Encode(s[1..]);
    }
  }

  /** A client that sends one line of text, split into any non-empty chunks, gets the
      answer `handle` gives for that text. */
  lemma OneLine(p: Processor, s: string, chunks: seq<seq<Utf8.byte>>)
    requires '\n' !in s
    requires forall i :: 0 <= i < |chunks| ==> chunks[i] != []
    requires Flatten(chunks) == Utf8.Encode(s + "\n")
    ensures Respond(p, Received(chunks)) == Handle(p, s)
  {
    EncodeLine(s);
    ReceivedLine(chunks);
    Utf8.DecodeEncode(s + "\n");
    StripTrailing(s, '\n');
  }

  lemma EncodeLine(s: string)
    requires '\n' !in s
    ensures var b := Utf8.Encode(s + "\n");
      b != [] && b[|b| - 1] == Newline && Newline !in b[..|b| - 1]
  {
    EncodeNoNewline(s);
    EncodeAppend(s, "\n");
    var b := Utf8.Encode(s + "\n");
    assert Utf8.Encode("\n") == [Newline];
    assert b[..|b| - 1] == Utf8.Encode(s);
  }

  lemma {:induction false} EncodeAppend(a: string, b: string)
    ensures Utf8.Encode(a + b) == Utf8.Encode(a) + Utf8.Encode(b)
  {
    if a != [] {
      assert (a + b)[1..] == a[1..] + b;
      EncodeAppend(a[1..], b);
    } else {
      assert a + b == b;
    }
  }

  /** `strip` ignores a trailing white-space character. */
  lemma StripTrailing(s: string, c: char)
    requires c in Whitespace
    ensures Strip(s + [c]) == Strip(s)
  {
    assert (s + [c])[..|s + [c]| - 1] == s;
  }

  // ---------------------------------------------------------------------------
  // `--extra-server NAME=ADDRESS` (`main`)
  // ---------------------------------------------------------------------------

  /** One `--extra-server` value: without `=` it is the address of a server named `Peer`;
      otherwise it is split at its first `=` into name and address, both stripped. */
  function ParseExtraServer(arg: string): (m: map<string, string>)
    ensures m.Keys == {"name", "address"}
  {
    var (name, address) := ExtraServerFields(arg);
    ServerArg(name, address)
  }

  /** The name and the address an `--extra-server` value gives. */
  function ExtraServerFields(arg: string): (string, string)
  {
    if '=' !in arg then ("Peer", Strip(arg))
    else
      var k := FirstIndex(arg, {'='});
      (Strip(arg[..k]), Strip(arg[k + 1..]))
  }

  /** A value without `=` is the address of a server named `Peer`. */
  lemma ExtraServerBare(arg: string)
    requires '=' !in arg
    ensures ParseExtraServer(arg)["name"] == "Peer"
    ensures ParseExtraServer(arg)["address"] == Strip(arg)
  {
    assert ExtraServerFields(arg) == ("Peer", Strip(arg));
  }

  /** A value with `=` is split at its first `=`: the stripped text before it is the name and
      the stripped text after it the address. */
  lemma ExtraServerNamed(name: string, address: string)
    requires '=' !in name
    ensures ParseExtraServer(name + "=" + address)["name"] == Strip(name)
    ensures ParseExtraServer(name + "=" + address)["address"] == Strip(address)
  {
    var arg := name + "=" + address;
    FirstAfter(name, '=', address);
    assert arg[|name|] == '=';
    assert arg[..|name|] == name && arg[|name| + 1..] == address;
    assert ExtraServerFields(arg) == (Strip(name), Strip(address));
  }

  /** In `a + [c] + b` with no `c` in `a`, the first `c` is the one after `a`. */
  lemma {:induction false} FirstAfter(a: string, c: char, b: string)
    requires c !in a
    ensures FirstIndex(a + [c] + b, {c}) == |a|
  {
    if a != [] {
      FirstAfter(a[1..], c, b);
      assert (a + [c] + b)[1..] == a[1..] + [c] + b;
    }
  }

  /** The first `c` of a string holding `c` is inside the string. */
  lemma SeparatorFound(s: string, c: char)
    requires c in s
    ensures FirstIndex(s, {c}) < |s|
  {
    var j :| 0 <= j < |s| && s[j] == c;
    assert FirstIndex(s, {c}) <= j;
  }

  /** A string holding `c` is the text before its first `c`, that `c`, and the rest. */
  lemma FirstSeparator(s: string, c: char)
    requires c in s
    ensures var k := FirstIndex(s, {c});
      k < |s| && s == s[..k] + [c] + s[k + 1..] && c !in s[..k]
  {
    var k := FirstIndex(s, {c});
    SeparatorFound(s, c);
    assert s[k] == c;
    SplitAround(s, k);
  }

  /** `{"name": name, "address": address}`. */
  function ServerArg(name: string, address: string): (m: map<string, string>)
    ensures m.Keys == {"name", "address"} && m["name"] == name && m["address"] == address
  {
    assert "name" != "address";
    map["name" := name, "address" := address]
  }

  /** All `--extra-server` values, in order, collected in a loop. */
  method ParseExtraServers(args: seq<string>) returns (extras: seq<map<string, string>>)
    ensures |extras| == |args|
    ensures forall i :: 0 <= i < |args| ==> extras[i] == ParseExtraServer(args[i])
  {
    extras := [];
    for i := 0 to |args|
      invariant extras == Applied(ParseExtraServer, args[..i])
    {
      assert args[..i + 1][..i] == args[..i];
      extras := extras + [ParseExtraServer(args[i])];
    }
    assert args[..|args|] == args;
  }

  /** `[f(x) for x in xs]`. */
  function Applied<A, B>(f: A -> B, xs: seq<A>): (r: seq<B>)
    ensures |r| == |xs|
    ensures forall i :: 0 <= i < |xs| ==> r[i] == f(xs[i])
  {
    if xs == [] then [] else Applied(f, xs[..|xs| - 1]) + [f(xs[|xs| - 1])]
  }

  /** An `--extra-server` value gets a directory entry exactly when its address part is not
      blank, and that entry is never nameless. */
  lemma ExtraServerEntry(arg: string)
    ensures ExtraEntry(ParseExtraServer(arg)).Some? <==> ParseExtraServer(arg)["address"] != ""
    ensures '=' !in arg && Strip(arg) != "" ==>
      ExtraEntry(ParseExtraServer(arg)) == Some(ServerEntry("Peer", Strip(arg), ""))
  {
  }
}
