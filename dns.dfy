/**
 * The hostname rewriter of `dns.py`: it normalises a hostname or URL and derives
 * its zone, node and renamed name, with the `.zwb` alias for GitHub Pages hosts.
 */
module Dns {
  import opened Text
  import UrlParse

  /** What `describe` reports for one input. */
  datatype DomainParts = DomainParts(hostname: string, zone: string, node: string, name: string)

  /** A hostname with the non-empty path segments that followed it. */
  datatype Host = Host(hostname: string, path: seq<string>)

  const PagesSuffix := ".github.io"
  const Zwb := "zwb"

  /** The `.zwb` suffix has no dots to strip. */
  lemma ZwbTrimmed()
    ensures Trim(Zwb, {'.'}) == Zwb && "." + Zwb == ".zwb"
  {
    TrimUntouched(Zwb, {'.'});
  }

  /** `[label for label in h.split(".") if label]`. */
  function Labels(h: string): seq<string>
  {
    NonEmpty(Split(h, '.'))
  }

  predicate NoTrailingDot(h: string) { h == [] || h[|h| - 1] != '.' }

  lemma LoweredPrefix(h: string, t: string)
    requires UrlParse.LoweredHost(h) && |t| <= |h| && t == h[..|t|]
    ensures UrlParse.LoweredHost(t)
  {
    var p := FirstIndex(h, {'%'});
    if p < |t| {
      assert t[p] == '%';
    }
  }

  // ---------------------------------------------------------------------------
  // Parsing (`_parse_input`, `_split_hostname_and_path`)
  // ---------------------------------------------------------------------------

  /** `_parse_input`: the hostname (lower-cased, trailing dots removed) and the non-empty
      path segments of `raw`, read as a URL with `http://` assumed when no scheme is given. */
  function ParseInput(raw: string): (r: Result<Host>)
    ensures Strip(raw) == "" ==> r == Err("a hostname or URL is required")
    ensures r.Ok? ==> NoTrailingDot(r.value.hostname) && UrlParse.LoweredHost(r.value.hostname)
    ensures r.Ok? ==> forall i :: 0 <= i < |r.value.path| ==> r.value.path[i] != "" && '/' !in r.value.path[i]
  {
    var candidate := Strip(raw);
    if candidate == "" then Err("a hostname or URL is required")
    else HostOf(raw, UrlParse.Parse(WithHttp(candidate)))
  }

  /** `_split_hostname_and_path`: never fails; when parsing does, the stripped input
      without trailing dots is taken as the hostname and there is no path. */
  function SplitBestEffort(raw: string): (r: Host)
    ensures NoTrailingDot(r.hostname)
    ensures ParseInput(raw).Ok? ==> r == ParseInput(raw).value
    ensures ParseInput(raw).Err? ==> r.path == []
  {
    match ParseInput(raw)
    case Ok(host) => host
    case Err(_) => Host(TrimRight(Strip(raw), {'.'}), [])
  }

  // ---------------------------------------------------------------------------
  // `_sanitise_label`
  // ---------------------------------------------------------------------------

  /** The characters `_sanitise_label` collects before its final `strip("-")`: letters and
      digits as they are, and one `-` for each run of other characters. */
  function Collapse(s: string): string
  {
    if s == [] then []
    else
      var p := Collapse(s[..|s| - 1]);
      var c := s[|s| - 1];
      if IsAlnum(c) then p + [c]
      else if p != [] && p[|p| - 1] == '-' then p
      else p + ['-']
  }

  /** `_sanitise_label(word)`. */
  function Sanitised(word: string): string
  {
    Trim(Collapse(Lower(word)), {'-'})
  }

  /** `_sanitise_label`, written as the loop it is in the source. */
  method SanitiseLabel(word: string) returns (r: string)
    ensures r == Sanitised(word)
  {
    var lowered := Lower(word);
    var cleaned: string := [];
    var previousDash := false;
    for i := 0 to |lowered|
      invariant cleaned == Collapse(lowered[..i])
      invariant previousDash <==> cleaned != [] && cleaned[|cleaned| - 1] == '-'
    {
      var c := lowered[i];
      assert lowered[..i + 1][..i] == lowered[..i];
      if IsAlnum(c) {
        cleaned := cleaned + [c];
        previousDash := false;
      } else {
        if !previousDash {
          cleaned := cleaned + ['-'];
        }
        previousDash := true;
      }
    }
    assert lowered[..|lowered|] == lowered;
    r := Trim(cleaned, {'-'});
  }

  /** The letters and digits of `s`, in order. */
  function Alnums(s: string): string
  {
    if s == [] then [] else Alnums(s[..|s| - 1]) + (if IsAlnum(s[|s| - 1]) then [s[|s| - 1]] else [])
  }

  lemma {:induction false} AlnumsAppend(a: string, b: string)
    ensures Alnums(a + b) == Alnums(a) + Alnums(b)
  {
    if b != [] {
      var ab := a + b;
      var last := if IsAlnum(b[|b| - 1]) then [b[|b| - 1]] else [];
      assert ab[..|ab| - 1] == a + b[..|b| - 1];
      assert ab[|ab| - 1] == b[|b| - 1];
      AlnumsAppend(a, b[..|b| - 1]);
      assert Alnums(ab) == Alnums(a) + Alnums(b[..|b| - 1]) + last;
      assert Alnums(b) == Alnums(b[..|b| - 1]) + last;
    } else {
      assert a + b == a;
    }
  }

  lemma {:induction false} AlnumsEmpty(s: string)
    ensures Alnums(s) == [] <==> forall i :: 0 <= i < |s| ==> !IsAlnum(s[i])
  {
    if s != [] {
      AlnumsEmpty(s[..|s| - 1]);
      assert forall i :: 0 <= i < |s| - 1 ==> s[..|s| - 1][i] == s[i];
    }
  }

  /** Only lower-case letters, digits and `-`. */
  predicate LabelChars(s: string)
  {
    forall i :: 0 <= i < |s| ==> IsLowerLetter(s[i]) || IsDigit(s[i]) || s[i] == '-'
  }

  /** No `--` anywhere. */
  predicate NoDoubleDash(s: string)
  {
    forall i :: 0 <= i < |s| - 1 ==> !(s[i] == '-' && s[i + 1] == '-')
  }

  /** A well-formed DNS label as `_sanitise_label` produces it. */
  predicate IsDnsLabel(l: string)
  {
    l != [] && LabelChars(l) && l[0] != '-' && l[|l| - 1] != '-' && NoDoubleDash(l)
  }

  /** What `Collapse` builds from a string with no upper-case letters. */
  lemma {:induction false} CollapseShape(s: string)
    requires forall i :: 0 <= i < |s| ==> !IsUpper(s[i])
    ensures LabelChars(Collapse(s)) && NoDoubleDash(Collapse(s))
    ensures Alnums(Collapse(s)) == Alnums(s)
  {
    if s != [] {
      var t := s[..|s| - 1];
      CollapseShape(t);
      var p := Collapse(t);
      var ch := s[|s| - 1];
      if IsAlnum(ch) {
        AppendLabelChar(p, ch);
        AlnumsAppend(p, [ch]);
      } else if !(p != [] && p[|p| - 1] == '-') {
        AppendLabelChar(p, '-');
        AlnumsAppend(p, ['-']);
      }
    }
  }

  /** Appending a lower-case letter, a digit, or a `-` after a non-`-` keeps a label's
      character set and its lack of `--`. */
  lemma AppendLabelChar(p: string, c: char)
    requires LabelChars(p) && NoDoubleDash(p)
    requires IsLowerLetter(c) || IsDigit(c) || (c == '-' && !(p != [] && p[|p| - 1] == '-'))
    ensures LabelChars(p + [c]) && NoDoubleDash(p + [c])
  {
    var q := p + [c];
    assert forall i :: 0 <= i < |p| ==> q[i] == p[i];
  }

  /** A slice of collapsed text is made of the same characters and has no `--` either. */
  lemma SliceShape(c: string, k: nat, r: string)
    requires LabelChars(c) && NoDoubleDash(c)
    requires k + |r| <= |c| && r == c[k..k + |r|]
    ensures LabelChars(r) && NoDoubleDash(r)
  {
    assert forall i :: 0 <= i < |r| ==> r[i] == c[k + i];
  }

  /** Stripping dashes drops no letter or digit. */
  lemma TrimDashesAlnums(c: string)
    ensures Alnums(Trim(c, {'-'})) == Alnums(c)
  {
    TrimRightAlnums(c);
    TrimLeftAlnums(TrimRight(c, {'-'}));
  }

  lemma {:induction false} TrimRightAlnums(s: string)
    ensures Alnums(TrimRight(s, {'-'})) == Alnums(s)
  {
    if s != [] && s[|s| - 1] == '-' {
      TrimRightAlnums(s[..|s| - 1]);
    }
  }

  lemma AlnumsOfDash()
    ensures Alnums("-") == []
  {
    assert "-"[..0] == [];
  }

  lemma {:induction false} TrimLeftAlnums(s: string)
    ensures Alnums(TrimLeft(s, {'-'})) == Alnums(s)
  {
    if s != [] && s[0] == '-' {
      var t := s[1..];
      assert TrimLeft(s, {'-'}) == TrimLeft(t, {'-'});
      TrimLeftAlnums(t);
      assert s == "-" + t;
      AlnumsAppend("-", t);
      AlnumsOfDash();
    }
  }

  /** Stripping the dashes off the ends of collapsed text leaves a DNS label or nothing. */
  lemma TrimDashes(c: string)
    requires LabelChars(c) && NoDoubleDash(c)
    ensures LabelChars(Trim(c, {'-'})) && Alnums(Trim(c, {'-'})) == Alnums(c)
    ensures Trim(c, {'-'}) != [] ==> IsDnsLabel(Trim(c, {'-'}))
  {
    var right := TrimRight(c, {'-'});
    var r := TrimLeft(right, {'-'});
    var k := |right| - |r|;
    assert r == c[k..k + |r|];
    SliceShape(c, k, r);
    TrimDashesAlnums(c);
    if r != [] {
      assert r[|r| - 1] == right[|right| - 1];
    }
  }

  lemma LowerChars(s: string)
    ensures forall i :: 0 <= i < |Lower(s)| ==> !IsUpper(Lower(s)[i])
    ensures forall i :: 0 <= i < |s| ==> (IsAlnum(Lower(s)[i]) <==> IsAlnum(s[i]))
  {
  }

  /** `_sanitise_label` yields a DNS label or nothing: only lower-case letters, digits and
      `-`, never at an end or twice in a row, and it keeps every letter and digit of the
      input, lower-cased and in order. */
  lemma SanitisedShape(word: string)
    ensures LabelChars(Sanitised(word))
    ensures Sanitised(word) != [] ==> IsDnsLabel(Sanitised(word))
    ensures Alnums(Sanitised(word)) == Alnums(Lower(word))
  {
    LowerChars(word);
    CollapseShape(Lower(word));
    TrimDashes(Collapse(Lower(word)));
  }

  /** `_sanitise_label` gives the empty string exactly when the input has no letter or digit. */
  lemma SanitisedEmpty(word: string)
    ensures Sanitised(word) == [] <==> forall i :: 0 <= i < |word| ==> !IsAlnum(word[i])
  {
    var r := Sanitised(word);
    SanitisedShape(word);
    LowerChars(word);
    AlnumsEmpty(Lower(word));
    AlnumsEmpty(r);
    if r != [] {
      assert IsAlnum(r[0]);
    }
  }

  /** A DNS label is left as it is: sanitising is idempotent. */
  lemma SanitisedIdempotent(word: string)
    ensures Sanitised(Sanitised(word)) == Sanitised(word)
  {
    var r := Sanitised(word);
    SanitisedShape(word);
    if r != [] {
      SanitisedOfLabel(r);
    }
  }

  lemma {:induction false} CollapseOfLabelPrefix(l: string)
    requires LabelChars(l) && NoDoubleDash(l) && (l != [] ==> l[0] != '-')
    ensures Collapse(l) == l
  {
    if l != [] {
      CollapseOfLabelPrefix(l[..|l| - 1]);
      assert l == l[..|l| - 1] + [l[|l| - 1]];
    }
  }

  /** A DNS label is its own sanitised form. */
  lemma SanitisedOfLabel(l: string)
    requires IsDnsLabel(l)
    ensures Sanitised(l) == l
  {
    assert forall i :: 0 <= i < |l| ==> LowerChar(l[i]) == l[i];
    assert Lower(l) == l;
    CollapseOfLabelPrefix(l);
    TrimUntouched(l, {'-'});
  }

  // ---------------------------------------------------------------------------
  // `_github_pages_alias`
  // ---------------------------------------------------------------------------

  /** The owner part of a GitHub Pages hostname: what precedes `.github.io`, without dots at its ends. */
  function Owner(hostname: string): string
    requires EndsWith(hostname, PagesSuffix)
  {
    Trim(hostname[..|hostname| - |PagesSuffix|], {'.'})
  }

  /** The text the alias label is made from: the first path segment, else the owner. */
  function LabelSource(hostname: string, path: seq<string>): string
    requires EndsWith(hostname, PagesSuffix)
  {
    if path != [] then path[0] else Owner(hostname)
  }

  /** `_github_pages_alias(hostname, path, suffix)`. */
  function PagesAlias(hostname: string, path: seq<string>, suffix: string): (r: Result<Option<string>>)
    ensures !EndsWith(hostname, PagesSuffix) ==> r == Ok(None)
    ensures r.Err? <==> EndsWith(hostname, PagesSuffix) && Trim(suffix, {'.'}) == ""
    ensures r.Ok? && r.value.Some? ==>
      && EndsWith(hostname, PagesSuffix)
      && r.value.value == Sanitised(LabelSource(hostname, path)) + "." + Trim(suffix, {'.'})
      && EndsWith(r.value.value, "." + Trim(suffix, {'.'}))
    ensures r.Ok? && EndsWith(hostname, PagesSuffix) ==>
      (r.value.None? <==> Sanitised(LabelSource(hostname, path)) == "")
  {
    if !EndsWith(hostname, PagesSuffix) then Ok(None)
    else
      var s := Trim(suffix, {'.'});
      if s == "" then Err("suffix must not be empty")
      else
        var candidate := Sanitised(LabelSource(hostname, path));
        if candidate == "" then Ok(None)
        else
          EndsWithConcat(candidate, "." + s);
          assert candidate + "." + s == candidate + ("." + s);
          Ok(Some(candidate + "." + s))
  }

  // ---------------------------------------------------------------------------
  // `_replace_suffix`
  // ---------------------------------------------------------------------------

  /** The labels `_replace_suffix` keeps: all but the last, or the only one. */
  function KeptLabels(labels: seq<string>): seq<string>
    requires labels != []
  {
    if |labels| == 1 then labels else labels[..|labels| - 1]
  }

  /** `_replace_suffix(domain, suffix)`: replaces the last label of `domain` by `suffix`
      stripped of dots, or appends it to a single label. */
  function ReplaceSuffix(domain: string, suffix: string): (r: Result<string>)
    ensures Labels(domain) == [] ==> r == Err("domain must not be empty")
    ensures r.Err? <==> Labels(domain) == [] || Trim(suffix, {'.'}) == ""
    ensures r.Ok? ==> r.value == Join(KeptLabels(Labels(domain)), '.') + "." + Trim(suffix, {'.'})
  {
    var labels := Labels(domain);
    if labels == [] then Err("domain must not be empty")
    else
      var s := Trim(suffix, {'.'});
      if s == "" then Err("suffix must not be empty")
      else if |labels| == 1 then Ok(labels[0] + "." + s)
      else
        JoinLast(labels[..|labels| - 1], s, '.');
        Ok(Join(labels[..|labels| - 1] + [s], '.'))
  }

  lemma LabelsHaveNoDot(h: string)
    ensures forall i :: 0 <= i < |Labels(h)| ==> Labels(h)[i] != "" && '.' !in Labels(h)[i]
  {
    var pieces := Split(h, '.');
    forall i | 0 <= i < |Labels(h)| ensures '.' !in Labels(h)[i] {
      var x := Labels(h)[i];
      assert x in pieces;
      var j :| 0 <= j < |pieces| && pieces[j] == x;
    }
  }

  /** A successful `_replace_suffix` ends with `"." + suffix.strip(".")`; when the suffix is a
      single label, the result's labels are the kept labels and then the suffix, so a
      domain of two or more labels keeps its label count. */
  lemma ReplaceSuffixLabels(domain: string, suffix: string)
    requires ReplaceSuffix(domain, suffix).Ok?
    ensures EndsWith(ReplaceSuffix(domain, suffix).value, "." + Trim(suffix, {'.'}))
    ensures '.' !in Trim(suffix, {'.'}) ==>
      Split(ReplaceSuffix(domain, suffix).value, '.') == KeptLabels(Labels(domain)) + [Trim(suffix, {'.'})]
    ensures '.' !in Trim(suffix, {'.'}) && |Labels(domain)| >= 2 ==>
      |Split(ReplaceSuffix(domain, suffix).value, '.')| == |Labels(domain)|
  {
    var s := Trim(suffix, {'.'});
    var kept := KeptLabels(Labels(domain));
    var r := ReplaceSuffix(domain, suffix).value;
    assert r == Join(kept, '.') + ("." + s);
    EndsWithConcat(Join(kept, '.'), "." + s);
    if '.' !in s {
      KeptHaveNoDot(domain);
      JoinLast(kept, s, '.');
      assert Join(kept, '.') + ['.'] + s == r;
      SplitJoin(kept + [s], '.');
    }
  }

  /** The labels `_replace_suffix` keeps are not empty and hold no dot. */
  lemma KeptHaveNoDot(domain: string)
    requires Labels(domain) != []
    ensures KeptLabels(Labels(domain)) != []
    ensures forall i :: 0 <= i < |KeptLabels(Labels(domain))| ==> '.' !in KeptLabels(Labels(domain))[i]
  {
    LabelsHaveNoDot(domain);
  }

  // ---------------------------------------------------------------------------
  // `zone`, `node`, `name`
  // ---------------------------------------------------------------------------

  /** A hostname without trailing dots has labels exactly when it is not empty. */
  lemma LabelsOfHostname(h: string)
    requires NoTrailingDot(h)
    ensures Labels(h) != [] <==> h != ""
  {
    if h != "" {
      SplitLastPiece(h, '.');
      NonEmptyLast(Split(h, '.'));
    } else {
      assert Split(h, '.') == [""];
    }
  }

  /** `_replace_suffix` of a single label. */
  lemma ReplaceSuffixOfLabel(l: string, suffix: string)
    requires l != "" && '.' !in l && Trim(suffix, {'.'}) != ""
    ensures ReplaceSuffix(l, suffix) == Ok(l + "." + Trim(suffix, {'.'}))
  {
    SplitNoSep(l, '.');
    assert Labels(l) == [l];
  }

  /** `_replace_suffix` of two labels keeps the first one. */
  lemma ReplaceSuffixOfPair(a: string, b: string, suffix: string)
    requires a != "" && '.' !in a && b != "" && '.' !in b && Trim(suffix, {'.'}) != ""
    ensures ReplaceSuffix(a + "." + b, suffix) == Ok(a + "." + Trim(suffix, {'.'}))
  {
    SplitJoin([a, b], '.');
    assert Join([a, b], '.') == a + "." + b;
    assert NonEmpty([a, b]) == [a, b] by { NonEmptyOfNonEmpty([a, b]); }
    assert [a, b][..1] == [a];
  }

  /** The zone of a hostname that is not a GitHub Pages alias: its second-to-last label,
      else its only one, followed by `.zwb`. */
  function GenericZone(labels: seq<string>): (r: string)
    requires forall i :: 0 <= i < |labels| ==> labels[i] != "" && '.' !in labels[i]
    ensures labels == [] ==> r == ""
    ensures labels != [] ==> r == labels[if |labels| < 2 then 0 else |labels| - 2] + ".zwb"
  {
    ZwbTrimmed();
    if labels == [] then ""
    else if |labels| < 2 then
      ReplaceSuffixOfLabel(labels[0], Zwb);
      ReplaceSuffix(labels[0], Zwb).value
    else
      var n := |labels|;
      ReplaceSuffixOfPair(labels[n - 2], labels[n - 1], Zwb);
      ReplaceSuffix(labels[n - 2] + "." + labels[n - 1], Zwb).value
  }

  /** `zone` once the input is split: the GitHub Pages alias, or the second-to-last label
      (else the only one) followed by `.zwb`; empty exactly when the hostname is. */
  function ZoneOf(h: Host): (r: string)
    requires NoTrailingDot(h.hostname)
    ensures r == "" <==> h.hostname == ""
    ensures r != "" ==> EndsWith(r, ".zwb")
    ensures h.hostname != "" && PagesAlias(h.hostname, h.path, Zwb).Ok? && PagesAlias(h.hostname, h.path, Zwb).value.Some? ==>
      r == PagesAlias(h.hostname, h.path, Zwb).value.value
  {
    if h.hostname == "" then ""
    else
      ZwbTrimmed();
      match PagesAlias(h.hostname, h.path, Zwb).value
      case Some(alias) => alias
      case None =>
        LabelsHaveNoDot(h.hostname);
        LabelsOfHostname(h.hostname);
        var labels := Labels(h.hostname);
        EndsWithConcat(labels[if |labels| < 2 then 0 else |labels| - 2], ".zwb");
        GenericZone(labels)
  }

  /** `zone(domain)`. */
  function Zone(domain: string): (r: string)
    ensures r == "" <==> SplitBestEffort(domain).hostname == ""
    ensures var h := SplitBestEffort(domain);
      h.hostname != "" && PagesAlias(h.hostname, h.path, Zwb).Ok? && PagesAlias(h.hostname, h.path, Zwb).value.Some? ==>
        r == PagesAlias(h.hostname, h.path, Zwb).value.value
  {
    ZoneOf(SplitBestEffort(domain))
  }

  /** `node` once the input is split: for a GitHub Pages project the sanitised owner, for a
      bare GitHub Pages site nothing, else the labels before the last two (else the first). */
  function NodeOf(h: Host): string
  {
    if h.hostname == "" then ""
    else
      match PagesAlias(h.hostname, h.path, Zwb).value
      case Some(_) => if h.path != [] then Sanitised(Owner(h.hostname)) else ""
      case None =>
        var labels := Labels(h.hostname);
        if |labels| <= 2 then (if labels != [] then labels[0] else "")
        else Join(labels[..|labels| - 2], '.')
  }

  /** `node(domain)`. */
  function Node(domain: string): string
  {
    NodeOf(SplitBestEffort(domain))
  }

  /** `name` once the input is split: fails exactly when the hostname or the dot-stripped
      suffix is empty, and otherwise ends with `"." + suffix.strip(".")`. */
  function NameOf(h: Host, suffix: string): (r: Result<string>)
    requires NoTrailingDot(h.hostname)
    ensures h.hostname == "" ==> r == Err("domain must not be empty")
    ensures r.Err? <==> h.hostname == "" || Trim(suffix, {'.'}) == ""
    ensures r.Ok? ==> EndsWith(r.value, "." + Trim(suffix, {'.'}))
    ensures h.hostname != "" && PagesAlias(h.hostname, h.path, suffix).Ok? && PagesAlias(h.hostname, h.path, suffix).value.Some? ==>
      r == Ok(PagesAlias(h.hostname, h.path, suffix).value.value)
    ensures h.hostname != "" && PagesAlias(h.hostname, h.path, suffix) == Ok(None) ==>
      r == ReplaceSuffix(h.hostname, suffix)
  {
    if h.hostname == "" then Err("domain must not be empty")
    else
      match PagesAlias(h.hostname, h.path, suffix)
      case Err(m) => Err(m)
      case Ok(Some(alias)) => Ok(alias)
      case Ok(None) => ReplacedName(h.hostname, suffix)
  }

  /** `name` of a hostname that is not a GitHub Pages alias: its last label replaced. */
  function ReplacedName(hostname: string, suffix: string): (r: Result<string>)
    requires hostname != "" && NoTrailingDot(hostname)
    ensures r.Err? <==> Trim(suffix, {'.'}) == ""
    ensures r.Ok? ==> EndsWith(r.value, "." + Trim(suffix, {'.'}))
    ensures r == ReplaceSuffix(hostname, suffix)
  {
    var trimmed := TrimRight(hostname, {'.'});
    assert trimmed == hostname;
    LabelsOfHostname(hostname);
    var r := ReplaceSuffix(trimmed, suffix);
    if r.Ok? then ReplaceSuffixLabels(trimmed, suffix); r else r
  }

  /** `name(domain, suffix)`. */
  function Name(domain: string, suffix: string): (r: Result<string>)
    ensures r.Err? <==> SplitBestEffort(domain).hostname == "" || Trim(suffix, {'.'}) == ""
    ensures var h := SplitBestEffort(domain);
      h.hostname != "" && PagesAlias(h.hostname, h.path, suffix).Ok? && PagesAlias(h.hostname, h.path, suffix).value.Some? ==>
        r == Ok(PagesAlias(h.hostname, h.path, suffix).value.value)
    ensures var h := SplitBestEffort(domain);
      h.hostname != "" && PagesAlias(h.hostname, h.path, suffix) == Ok(None) ==>
        r == ReplaceSuffix(h.hostname, suffix)
  {
    NameOf(SplitBestEffort(domain), suffix)
  }

  // ---------------------------------------------------------------------------
  // `describe` and `build_error_page`
  // ---------------------------------------------------------------------------

  /** `_describe_uncached` once the input is split. A GitHub Pages alias is reported as
      both zone and name; any other hostname goes through `zone`, `node` and `name` again,
      which re-parse it and fail when it has no usable text left. */
  function DescribeOf(h: Host): (r: Result<DomainParts>)
    requires NoTrailingDot(h.hostname)
    ensures h.hostname == "" ==> r == Err("a hostname or URL is required")
    ensures r.Err? <==> (h.hostname == "" ||
      (PagesAlias(h.hostname, h.path, Zwb) == Ok(None) && SplitBestEffort(h.hostname).hostname == ""))
    ensures r.Ok? ==> r.value.hostname == h.hostname
    ensures r.Ok? ==> EndsWith(r.value.zone, ".zwb") && EndsWith(r.value.name, ".zwb")
    ensures r.Ok? && PagesAlias(h.hostname, h.path, Zwb) != Ok(None) ==>
      r.value.zone == r.value.name && IsDnsLabel(r.value.zone[..|r.value.zone| - 4])
  {
    if h.hostname == "" then Err("a hostname or URL is required")
    else
      match PagesAlias(h.hostname, h.path, Zwb).value
      case Some(alias) => Ok(AliasParts(h, alias))
      case None => DescribeAgain(h.hostname, SplitBestEffort(h.hostname))
  }

  /** The parts of a GitHub Pages hostname: the alias is both zone and name, and the node
      is the sanitised owner for a project page and empty for a user page. */
  function AliasParts(h: Host, alias: string): (r: DomainParts)
    requires PagesAlias(h.hostname, h.path, Zwb) == Ok(Some(alias))
    ensures r.hostname == h.hostname && r.zone == alias && r.name == alias
    ensures EndsWith(alias, ".zwb") && IsDnsLabel(alias[..|alias| - 4])
    ensures r.node == (if h.path != [] then Sanitised(Owner(h.hostname)) else "")
  {
    PagesAliasLabel(h.hostname, h.path, alias);
    var owner := Sanitised(Owner(h.hostname));
    DomainParts(h.hostname, alias, if h.path != [] then owner else "", alias)
  }

  /** A GitHub Pages alias under `zwb` is a DNS label followed by `.zwb`. */
  lemma PagesAliasLabel(hostname: string, path: seq<string>, alias: string)
    requires PagesAlias(hostname, path, Zwb) == Ok(Some(alias))
    ensures EndsWith(hostname, PagesSuffix)
    ensures EndsWith(alias, ".zwb") && IsDnsLabel(alias[..|alias| - 4])
  {
    ZwbTrimmed();
    var word := Sanitised(LabelSource(hostname, path));
    assert alias == word + ".zwb";
    SanitisedShape(LabelSource(hostname, path));
    assert alias[..|alias| - 4] == word;
  }

  /** The parts of a hostname that is not a GitHub Pages alias, from `again`, the split of
      the hostname itself: `zone`, `node` and `name` each re-parse it. */
  function DescribeAgain(hostname: string, again: Host): (r: Result<DomainParts>)
    requires NoTrailingDot(again.hostname)
    ensures r.Err? <==> again.hostname == ""
    ensures r.Ok? ==> r.value.hostname == hostname
    ensures r.Ok? ==> EndsWith(r.value.zone, ".zwb") && EndsWith(r.value.name, ".zwb")
  {
    ZwbTrimmed();
    match NameOf(again, Zwb)
    case Err(m) => Err(m)
    case Ok(name) => Ok(DomainParts(hostname, ZoneOf(again), NodeOf(again), name))
  }

  /** `describe(raw)`; the `lru_cache` in front of it does not change results. */
  function Describe(raw: string): (r: Result<DomainParts>)
    ensures SplitBestEffort(raw).hostname == "" ==> r == Err("a hostname or URL is required")
    ensures r.Ok? ==> r.value.hostname == SplitBestEffort(raw).hostname
  {
    DescribeOf(SplitBestEffort(raw))
  }

  /** The text shown for a request or message: stripped, or `fallback` when blank. */
  function Shown(s: string, fallback: string): string
  {
    if Strip(s) == "" then fallback else Strip(s)
  }

  /** The fixed text of the error page before the request, between request and reason, and
      after the reason. */
  const PageHead: string := "<html><head><title>DNS Lookup Error</title>"
    + "<style>body{font-family:Arial,Helvetica,sans-serif;margin:2em;}"
    + "h1{color:#b00;}code{background:#f5f5f5;padding:0.2em 0.4em;}"
    + "</style></head><body>"
    + "<h1>Domain lookup failed</h1>"
    + "<p>The DNS helper was unable to resolve "
  const PageMiddle: string := ".</p><p>"
  const PageTail: string := "<p>Please verify the address and try again or choose a different server.</p>"
    + "</body></html>"

  /** `build_error_page(message, request)`: a small HTML page that names the request inside
      `<code>` and the reason after `Reason:`, with placeholders for blank ones. */
  function BuildErrorPage(message: string, request: string): (page: string)
    ensures HasInfix(page, "<code>" + Shown(request, "(empty request)") + "</code>")
    ensures HasInfix(page, "<strong>Reason:</strong> " + Shown(message, "Lookup failed") + "</p>")
  {
    var req := "<code>" + Shown(request, "(empty request)") + "</code>";
    var reason := "<strong>Reason:</strong> " + Shown(message, "Lookup failed") + "</p>";
    InfixesOfFive(PageHead, req, PageMiddle, reason, PageTail);
    PageHead + req + PageMiddle + reason + PageTail
  }

  /** The second and fourth of five concatenated strings occur in the concatenation. */
  lemma InfixesOfFive(a: string, b: string, c: string, d: string, e: string)
    ensures HasInfix(a + b + c + d + e, b) && HasInfix(a + b + c + d + e, d)
  {
    InfixOfConcat(a, b, c + d + e);
    assert a + b + c + d + e == a + b + (c + d + e);
    InfixOfConcat(a + b + c, d, e);
  }

  // ---------------------------------------------------------------------------
  // What `describe` reports for plain hostnames and GitHub Pages addresses
  // ---------------------------------------------------------------------------

  /** Blank input is rejected. */
  lemma DescribeBlank(raw: string)
    requires Strip(raw) == ""
    ensures Describe(raw) == Err("a hostname or URL is required")
  {
  }

  /** A plain hostname and path need no stripping and get the `http` scheme. */
  lemma PlainCandidate(h: string, path: string)
    requires UrlParse.IsPlainHost(h) && UrlParse.IsPlainPath(path)
    ensures Strip(h + path) == h + path
    ensures WithHttp(Strip(h + path)) == "http://" + h + path
  {
    var raw := h + path;
    PlainUntouched(h, path);
    NoInfixWithout(raw, "://", ':');
    assert "http://" + raw == "http://" + h + path;
  }

  /** A plain hostname and path have no white space at the ends and no `:`. */
  lemma PlainUntouched(h: string, path: string)
    requires UrlParse.IsPlainHost(h) && UrlParse.IsPlainPath(path)
    ensures Strip(h + path) == h + path && ':' !in h + path
  {
    var raw := h + path;
    assert raw[0] == h[0];
    if path == [] {
      assert raw[|raw| - 1] == h[|h| - 1];
    } else {
      assert raw[|raw| - 1] == path[|path| - 1];
    }
    TrimUntouched(raw, Whitespace);
    forall i | 0 <= i < |raw|
      ensures raw[i] != ':'
    {
      if i < |h| {
        assert raw[i] == h[i];
      } else {
        assert raw[i] == path[i - |h|];
      }
    }
  }

  /** What `_parse_input` does with a parsed URL. */
  function HostOf(raw: string, parsed: Result<UrlParse.ParsedUrl>): (r: Result<Host>)
    ensures r.Ok? ==> NoTrailingDot(r.value.hostname) && UrlParse.LoweredHost(r.value.hostname)
    ensures r.Ok? ==> forall i :: 0 <= i < |r.value.path| ==> r.value.path[i] != "" && '/' !in r.value.path[i]
  {
    match parsed
    case Err(m) => Err(m)
    case Ok(url) =>
      match UrlParse.Hostname(url.netloc)
      case None => Err("unable to determine hostname from '" + raw + "'")
      case Some(h) =>
        var hostname := TrimRight(h, {'.'});
        LoweredPrefix(h, hostname);
        Ok(Host(hostname, NonEmpty(Split(url.path, '/'))))
  }

  /** A plain hostname followed by a plain path is read as the host behind `http://`: the
      hostname is kept as written and the path gives its non-empty segments. */
  lemma ParsePlainInput(h: string, path: string)
    requires UrlParse.IsPlainHost(h) && NoTrailingDot(h) && UrlParse.IsPlainPath(path)
    ensures ParseInput(h + path) == Ok(Host(h, NonEmpty(Split(path, '/'))))
  {
    var raw := h + path;
    PlainCandidate(h, path);
    UrlParse.ParsePlain(h, path);
    var parsed := UrlParse.Parse(WithHttp(Strip(raw)));
    assert parsed == Ok(UrlParse.ParsedUrl("http", h, path));
    HostOfPlain(raw, h, path);
  }

  lemma HostOfPlain(raw: string, h: string, path: string)
    requires UrlParse.IsPlainHost(h) && NoTrailingDot(h)
    ensures HostOf(raw, Ok(UrlParse.ParsedUrl("http", h, path))) == Ok(Host(h, NonEmpty(Split(path, '/'))))
  {
    UrlParse.HostnameOfPlain(h);
  }

  /** The hostname of a plain host written without a path. */
  lemma SplitPlainHost(h: string)
    requires UrlParse.IsPlainHost(h) && NoTrailingDot(h)
    ensures SplitBestEffort(h) == Host(h, [])
  {
    ParsePlainInput(h, "");
    assert h + "" == h;
    assert Split("", '/') == [""];
  }

  /** The three parts of a plain hostname that is not a GitHub Pages address: the zone is
      the second-to-last label (or the only one) with `.zwb`, the node the labels before
      the last two (or the first), the name every label but the last with `.zwb`; with three
      or more labels, node and zone together spell the name. */
  lemma DescribePlainHost(h: string)
    requires UrlParse.IsPlainHost(h) && NoTrailingDot(h) && !EndsWith(h, PagesSuffix)
    ensures Labels(h) != [] && Describe(h).Ok?
    ensures var l, p := Labels(h), Describe(h).value;
      && p.hostname == h
      && p.zone == l[if |l| < 2 then 0 else |l| - 2] + ".zwb"
      && p.node == (if |l| <= 2 then l[0] else Join(l[..|l| - 2], '.'))
      && p.name == Join(KeptLabels(l), '.') + ".zwb"
      && (|l| >= 3 ==> p.node + "." + p.zone == p.name)
      && (|l| <= 2 ==> p.zone == p.name)
  {
    SplitPlainHost(h);
    DescribeSplitHost(h);
    PartsOfHost(h);
    NodeZoneName(Labels(h));
  }

  lemma DescribeSplitHost(h: string)
    requires NoTrailingDot(h) && h != "" && !EndsWith(h, PagesSuffix)
    requires SplitBestEffort(h) == Host(h, [])
    ensures Describe(h) == DescribeAgain(h, Host(h, []))
  {
    assert Describe(h) == DescribeOf(Host(h, []));
  }

  /** The parts `describe` computes from a hostname with no path that is not a GitHub Pages address. */
  lemma PartsOfHost(h: string)
    requires NoTrailingDot(h) && h != "" && !EndsWith(h, PagesSuffix)
    ensures Labels(h) != [] && DescribeAgain(h, Host(h, [])).Ok?
    ensures var l, p := Labels(h), DescribeAgain(h, Host(h, [])).value;
      && p.hostname == h
      && p.zone == l[if |l| < 2 then 0 else |l| - 2] + ".zwb"
      && p.node == (if |l| <= 2 then l[0] else Join(l[..|l| - 2], '.'))
      && p.name == Join(KeptLabels(l), '.') + ".zwb"
  {
    NameOfHost(h);
    ZoneOfHost(h);
    NodeOfHost(h);
  }

  /** With three or more labels, the labels before the zone, the zone and `.zwb` spell the
      name; with fewer, zone and name coincide. */
  lemma NodeZoneName(l: seq<string>)
    requires l != []
    ensures |l| >= 3 ==>
      Join(l[..|l| - 2], '.') + "." + (l[|l| - 2] + ".zwb") == Join(KeptLabels(l), '.') + ".zwb"
    ensures |l| <= 2 ==> l[if |l| < 2 then 0 else |l| - 2] + ".zwb" == Join(KeptLabels(l), '.') + ".zwb"
  {
    var n := |l|;
    if n >= 3 {
      JoinLast(l[..n - 2], l[n - 2], '.');
      assert l[..n - 2] + [l[n - 2]] == l[..n - 1];
    } else if n == 2 {
      assert l[..1] == [l[0]];
    }
  }

  lemma ZoneOfHost(h: string)
    requires NoTrailingDot(h) && h != "" && !EndsWith(h, PagesSuffix)
    ensures Labels(h) != []
    ensures ZoneOf(Host(h, [])) == Labels(h)[if |Labels(h)| < 2 then 0 else |Labels(h)| - 2] + ".zwb"
  {
    LabelsOfHostname(h);
    LabelsHaveNoDot(h);
  }

  lemma NodeOfHost(h: string)
    requires NoTrailingDot(h) && h != "" && !EndsWith(h, PagesSuffix)
    ensures Labels(h) != []
    ensures NodeOf(Host(h, [])) == if |Labels(h)| <= 2 then Labels(h)[0] else Join(Labels(h)[..|Labels(h)| - 2], '.')
  {
    LabelsOfHostname(h);
    assert PagesAlias(h, [], Zwb) == Ok(None);
  }

  lemma NameOfHost(h: string)
    requires NoTrailingDot(h) && h != "" && !EndsWith(h, PagesSuffix)
    ensures Labels(h) != []
    ensures NameOf(Host(h, []), Zwb) == Ok(Join(KeptLabels(Labels(h)), '.') + ".zwb")
  {
    LabelsOfHostname(h);
    ZwbTrimmed();
    assert TrimRight(h, {'.'}) == h;
    var x := Join(KeptLabels(Labels(h)), '.');
    assert ReplaceSuffix(h, Zwb) == Ok(x + "." + Zwb);
    assert x + "." + Zwb == x + ".zwb";
  }

  /** `describe` of anything is `describe` of its best-effort split. */
  lemma DescribeSplit(raw: string, host: Host)
    requires SplitBestEffort(raw) == host
    ensures Describe(raw) == DescribeOf(host)
  {
  }

  /** The owner of `<owner>.github.io`. */
  lemma OwnerOfPages(owner: string)
    requires IsDnsLabel(owner)
    ensures EndsWith(owner + PagesSuffix, PagesSuffix) && Owner(owner + PagesSuffix) == owner
    ensures UrlParse.IsPlainHost(owner + PagesSuffix) && NoTrailingDot(owner + PagesSuffix)
  {
    var h := owner + PagesSuffix;
    EndsWithConcat(owner, PagesSuffix);
    assert h[..|h| - |PagesSuffix|] == owner;
    TrimUntouched(owner, {'.'});
    assert h[|h| - 1] == 'o';
  }

  /** The alias of a GitHub Pages host whose label source is already a DNS label. */
  lemma AliasOfLabel(owner: string, path: seq<string>, source: string)
    requires IsDnsLabel(owner) && IsDnsLabel(source)
    requires path == [] ==> source == owner
    requires path != [] ==> path[0] == source
    ensures PagesAlias(owner + PagesSuffix, path, Zwb) == Ok(Some(source + ".zwb"))
  {
    var h := owner + PagesSuffix;
    OwnerOfPages(owner);
    assert LabelSource(h, path) == source;
    SanitisedOfLabel(source);
    ZwbTrimmed();
    assert source + "." + Zwb == source + ".zwb";
  }

  /** What `describe` reports for a GitHub Pages host whose label source is already a DNS label. */
  lemma DescribeOfLabel(owner: string, path: seq<string>, source: string)
    requires IsDnsLabel(owner) && IsDnsLabel(source)
    requires path == [] ==> source == owner
    requires path != [] ==> path[0] == source
    ensures DescribeOf(Host(owner + PagesSuffix, path)) ==
      Ok(DomainParts(owner + PagesSuffix, source + ".zwb", if path != [] then owner else "", source + ".zwb"))
  {
    var h := Host(owner + PagesSuffix, path);
    AliasOfLabel(owner, path, source);
    OwnerOfPages(owner);
    SanitisedOfLabel(owner);
    assert DescribeOf(h) == Ok(AliasParts(h, source + ".zwb"));
  }

  /** `hello.github.io`: a user page is aliased to its owner, with no node. */
  lemma DescribePagesUser(owner: string)
    requires IsDnsLabel(owner)
    ensures Describe(owner + PagesSuffix) ==
      Ok(DomainParts(owner + PagesSuffix, owner + ".zwb", "", owner + ".zwb"))
  {
    OwnerOfPages(owner);
    SplitPlainHost(owner + PagesSuffix);
    DescribeSplit(owner + PagesSuffix, Host(owner + PagesSuffix, []));
    DescribeOfLabel(owner, [], owner);
  }

  /** `hello.github.io/hi`: a project page is aliased to the project, and the owner is its node. */
  lemma DescribePagesProject(owner: string, project: string)
    requires IsDnsLabel(owner) && IsDnsLabel(project)
    ensures Describe(owner + PagesSuffix + "/" + project) ==
      Ok(DomainParts(owner + PagesSuffix, project + ".zwb", owner, project + ".zwb"))
  {
    var h := owner + PagesSuffix;
    var path := "/" + project;
    OwnerOfPages(owner);
    ProjectPath(project);
    SplitPlainPath(h, path);
    assert h + "/" + project == h + path;
    DescribeSplit(h + path, Host(h, [project]));
    DescribeOfLabel(owner, [project], project);
  }

  /** The best-effort split of a plain host followed by a plain path. */
  lemma SplitPlainPath(h: string, path: string)
    requires UrlParse.IsPlainHost(h) && NoTrailingDot(h) && UrlParse.IsPlainPath(path)
    ensures SplitBestEffort(h + path) == Host(h, NonEmpty(Split(path, '/')))
  {
    ParsePlainInput(h, path);
  }

  /** The path `/<project>` is a plain path with the single segment `project`. */
  lemma ProjectPath(project: string)
    requires IsDnsLabel(project)
    ensures UrlParse.IsPlainPath("/" + project)
    ensures NonEmpty(Split("/" + project, '/')) == [project]
  {
    var path := "/" + project;
    assert forall i :: 1 <= i < |path| ==> path[i] == project[i - 1];
    SplitAfter("", project, '/');
    assert "" + ['/'] + project == path;
    SplitNoSep(project, '/');
    assert Split(path, '/') == ["", project];
  }
}
