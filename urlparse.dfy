/**
 * The part of CPython's `urllib.parse.urlparse` (3.11 and later) that `dns.py` reads:
 * the scheme, the network location, the path and the `hostname` property.
 * Query, fragment, `;params` and port are split off and dropped.
 */
module UrlParse {
  import opened Text

  datatype ParsedUrl = ParsedUrl(scheme: string, netloc: string, path: string)

  /** Schemes for which `urlparse` splits `;params` off the last path segment. */
  const UsesParams: set<string> :=
    {"", "ftp", "hdl", "prospero", "http", "imap", "https", "shttp", "rtsp",
     "rtsps", "rtspu", "sip", "sips", "mms", "sftp", "tel"}

  /** Characters that `urlsplit` deletes wherever they occur. */
  const Unsafe: set<char> := {'\t', '\r', '\n'}

  predicate IsSchemeChar(c: char) { IsAlnum(c) || c == '+' || c == '-' || c == '.' }

  /** `s.lstrip(_WHATWG_C0_CONTROL_OR_SPACE)`: drops leading code points up to U+0020. */
  function StripLeadingControls(s: string): (r: string)
    ensures |r| <= |s| && r == s[|s| - |r|..]
    ensures r != [] ==> r[0] as int > 32
  {
    if s != [] && s[0] as int <= 32 then StripLeadingControls(s[1..]) else s
  }

  /** `_splitparams`: cuts the path at the first `;` after its last `/`. */
  function SplitParams(path: string): (r: string)
    ensures |r| <= |path| && r == path[..|r|]
    ensures ';' !in path ==> r == path
  {
    match LastIndex(path, '/')
    case Some(j) => path[..j + FirstIndex(path[j..], {';'})]
    case None => path[..FirstIndex(path, {';'})]
  }

  predicate IsScheme(s: string)
  {
    s != [] && IsAlpha(s[0]) && forall j :: 0 <= j < |s| ==> IsSchemeChar(s[j])
  }

  /** Splits a scheme off at the first `:` when what precedes it is a valid scheme. */
  function SplitScheme(u: string): (string, string)
  {
    var i := FirstIndex(u, {':'});
    if i < |u| && IsScheme(u[..i]) then (Lower(u[..i]), u[i + 1..]) else ("", u)
  }

  /** `_splitnetloc(url, 2)` when `url` starts with `//`: the network location runs up to
      the first `/`, `?` or `#`. */
  function SplitNetloc(rest: string): (string, string)
  {
    if StartsWith(rest, "//") then
      var k := FirstIndex(rest[2..], {'/', '?', '#'});
      (rest[2..][..k], rest[2..][k..])
    else ("", rest)
  }

  /** The path: what precedes the fragment and the query, without `;params` for the
      schemes that use them. */
  function PathOf(scheme: string, tail: string): string
  {
    var noFragment := tail[..FirstIndex(tail, {'#'})];
    var path := noFragment[..FirstIndex(noFragment, {'?'})];
    if scheme in UsesParams && ';' in path then SplitParams(path) else path
  }

  /** `urlparse(url)`, reduced to scheme, network location and path; fails as `urlsplit`
      does on a network location with an unmatched bracket. */
  function Parse(url: string): Result<ParsedUrl>
  {
    var sr := SplitScheme(RemoveAll(StripLeadingControls(url), Unsafe));
    ParseAfterScheme(sr.0, sr.1)
  }

  /** The rest of `urlparse` once the scheme is split off. */
  function ParseAfterScheme(scheme: string, rest: string): Result<ParsedUrl>
  {
    var nt := SplitNetloc(rest);
    if ('[' in nt.0) != (']' in nt.0) then Err("Invalid IPv6 URL")
    else Ok(ParsedUrl(scheme, nt.0, PathOf(scheme, nt.1)))
  }

  /** No ASCII upper-case letter before the first `%` (the zone of a scoped address keeps its case). */
  predicate LoweredHost(h: string)
  {
    forall i :: 0 <= i < FirstIndex(h, {'%'}) ==> !IsUpper(h[i])
  }

  lemma LowerThenRest(a: string, b: string)
    requires '%' !in a && (b != [] ==> b[0] == '%')
    ensures LoweredHost(Lower(a) + b)
  {
    var s := Lower(a) + b;
    var p := FirstIndex(s, {'%'});
    forall i | 0 <= i < |a|
      ensures s[i] == LowerChar(a[i]) && s[i] != '%' && !IsUpper(s[i])
    {
    }
    if b != [] {
      assert s[|a|] == '%';
    }
  }

  /** The `hostname` property: the host part of the network location, lower-cased up to
      its first `%`, or `None` when that part is empty. */
  function Hostname(netloc: string): (r: Option<string>)
    ensures r.Some? ==> r.value != "" && LoweredHost(r.value)
  {
    var hostinfo := match LastIndex(netloc, '@')
      case Some(j) => netloc[j + 1..]
      case None => netloc;
    var host :=
      if '[' in hostinfo then
        var bracketed := hostinfo[FirstIndex(hostinfo, {'['}) + 1..];
        bracketed[..FirstIndex(bracketed, {']'})]
      else hostinfo[..FirstIndex(hostinfo, {':'})];
    if host == "" then None
    else
      var p := FirstIndex(host, {'%'});
      LowerThenRest(host[..p], host[p..]);
      Some(Lower(host[..p]) + host[p..])
  }

  /** Characters of a host written without user, port or brackets. */
  predicate IsPlainHostChar(c: char) { IsLowerLetter(c) || IsDigit(c) || c == '-' || c == '.' }

  /** Characters of a path without query, fragment, parameters or control characters. */
  predicate IsPlainPathChar(c: char) { IsAlnum(c) || c == '-' || c == '.' || c == '_' || c == '/' }

  predicate IsPlainHost(h: string) { h != "" && forall i :: 0 <= i < |h| ==> IsPlainHostChar(h[i]) }

  predicate IsPlainPath(p: string)
  {
    (p != [] ==> p[0] == '/') && forall i :: 0 <= i < |p| ==> IsPlainPathChar(p[i])
  }

  lemma FirstIndexIs(s: string, stops: set<char>, i: nat)
    requires i <= |s| && (i < |s| ==> s[i] in stops)
    requires forall j :: 0 <= j < i ==> s[j] !in stops
    ensures FirstIndex(s, stops) == i
  {
  }

  /** A URL made of a plain host and path has nothing for `urlsplit` to clean away. */
  lemma CleanPlainUrl(h: string, path: string)
    requires IsPlainHost(h) && IsPlainPath(path)
    ensures RemoveAll(StripLeadingControls("http://" + h + path), Unsafe) == "http://" + h + path
  {
    var url := "http://" + h + path;
    assert url[0] == 'h';
    forall i | 0 <= i < |url|
      ensures url[i] !in Unsafe
    {
      if 7 <= i < 7 + |h| {
        assert url[i] == h[i - 7];
      } else if 7 + |h| <= i {
        assert url[i] == path[i - 7 - |h|];
      }
    }
  }

  /** `http:` in front of anything is read as the `http` scheme. */
  lemma SchemeOfHttp(rest: string)
    ensures SplitScheme("http:" + rest) == ("http", rest)
  {
    var u := "http:" + rest;
    FirstIndexIs(u, {':'}, 4);
    assert u[..4] == "http";
    assert IsScheme("http");
    assert Lower("http") == "http";
    assert u[5..] == rest;
  }

  /** After `//`, a plain host runs up to the path, which starts with `/`. */
  lemma NetlocOfPlain(h: string, path: string)
    requires IsPlainHost(h) && IsPlainPath(path)
    ensures SplitNetloc("//" + h + path) == (h, path)
  {
    var rest := "//" + h + path;
    assert rest[2..] == h + path;
    FirstIndexIs(h + path, {'/', '?', '#'}, |h|);
    assert (h + path)[..|h|] == h && (h + path)[|h|..] == path;
  }

  /** A plain path has no fragment, query or parameters to drop. */
  lemma PathOfPlain(path: string)
    requires IsPlainPath(path)
    ensures PathOf("http", path) == path
  {
    FirstIndexIs(path, {'#'}, |path|);
    FirstIndexIs(path, {'?'}, |path|);
    assert path[..|path|] == path;
    assert ';' !in path;
  }

  /** A plain host is its own `hostname`. */
  lemma HostnameOfPlain(h: string)
    requires IsPlainHost(h)
    ensures Hostname(h) == Some(h)
  {
    assert '[' !in h && '@' !in h;
    FirstIndexIs(h, {':'}, |h|);
    FirstIndexIs(h, {'%'}, |h|);
    assert h[..|h|] == h && h[|h|..] == "";
    assert forall i :: 0 <= i < |h| ==> LowerChar(h[i]) == h[i];
    assert Lower(h) == h;
    assert Lower(h) + "" == h;
  }

  /** An `http://` URL built from a plain host and path parses back into exactly those. */
  lemma ParsePlain(h: string, path: string)
    requires IsPlainHost(h) && IsPlainPath(path)
    ensures Parse("http://" + h + path) == Ok(ParsedUrl("http", h, path))
  {
    var url := "http://" + h + path;
    var rest := "//" + h + path;
    CleanPlainUrl(h, path);
    HttpSlashes(h, path);
    SchemeOfHttp(rest);
    ParseRestPlain(h, path);
  }

  lemma HttpSlashes(h: string, path: string)
    ensures "http://" + h + path == "http:" + ("//" + h + path)
  {
    assert "http://" == "http:" + "//";
  }

  lemma ParseRestPlain(h: string, path: string)
    requires IsPlainHost(h) && IsPlainPath(path)
    ensures ParseAfterScheme("http", "//" + h + path) == Ok(ParsedUrl("http", h, path))
  {
    NetlocOfPlain(h, path);
    PathOfPlain(path);
    assert '[' !in h && ']' !in h;
  }
}
