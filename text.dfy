/**
 * String helpers with the meaning of the Python `str` methods the core uses,
 * restricted to ASCII: `strip`, `rstrip(chars)`, `lower`, `upper`, `isalnum`,
 * `split(sep)`, `sep.join`, `endswith`, `in` and `find`.
 */
module Text {

  datatype Option<T> = None | Some(value: T)

  /** An operation that either yields a value or raises with a message. */
  datatype Result<T> = Ok(value: T) | Err(message: string)

  /** The ASCII characters for which `str.isspace` holds. */
  const Whitespace: set<char> := {' ', '\t', '\n', '\U{0B}', '\U{0C}', '\r', '\U{1C}', '\U{1D}', '\U{1E}', '\U{1F}'}

  predicate IsUpper(c: char) { 'A' <= c <= 'Z' }
  predicate IsLowerLetter(c: char) { 'a' <= c <= 'z' }
  predicate IsDigit(c: char) { '0' <= c <= '9' }
  predicate IsAlpha(c: char) { IsUpper(c) || IsLowerLetter(c) }
  predicate IsAlnum(c: char) { IsAlpha(c) || IsDigit(c) }

  function LowerChar(c: char): char { if IsUpper(c) then (c as int + 32) as char else c }
  function UpperChar(c: char): char { if IsLowerLetter(c) then (c as int - 32) as char else c }

  function Lower(s: string): (r: string)
    ensures |r| == |s|
  {
    seq(|s|, i requires 0 <= i < |s| => LowerChar(s[i]))
  }

  function Upper(s: string): (r: string)
    ensures |r| == |s|
  {
    seq(|s|, i requires 0 <= i < |s| => UpperChar(s[i]))
  }

  /** `s.lstrip(chars)`: the longest suffix of `s` that does not start with one of `chars`. */
  function TrimLeft(s: string, chars: set<char>): (r: string)
    ensures |r| <= |s| && r == s[|s| - |r|..]
    ensures forall i :: 0 <= i < |s| - |r| ==> s[i] in chars
    ensures r != [] ==> r[0] !in chars
  {
    if s != [] && s[0] in chars then TrimLeft(s[1..], chars) else s
  }

  /** `s.rstrip(chars)`: the longest prefix of `s` that does not end with one of `chars`. */
  function TrimRight(s: string, chars: set<char>): (r: string)
    ensures |r| <= |s| && r == s[..|r|]
    ensures forall i :: |r| <= i < |s| ==> s[i] in chars
    ensures r != [] ==> r[|r| - 1] !in chars
  {
    if s != [] && s[|s| - 1] in chars then TrimRight(s[..|s| - 1], chars) else s
  }

  /** `s.strip(chars)`. */
  function Trim(s: string, chars: set<char>): string
  {
    TrimLeft(TrimRight(s, chars), chars)
  }

  /** `s.strip()` with no argument. */
  function Strip(s: string): string
  {
    Trim(s, Whitespace)
  }

  /** Stripping removes exactly the blank strings. */
  lemma StripEmptyIffBlank(s: string)
    ensures Strip(s) == [] <==> forall i :: 0 <= i < |s| ==> s[i] in Whitespace
  {
    var t := TrimRight(s, Whitespace);
    if t != [] {
      assert t[|t| - 1] !in Whitespace;
      assert TrimLeft(t, Whitespace) != [];
    }
  }

  /** A string whose ends are not in `chars` is left alone by `Trim`. */
  lemma TrimUntouched(s: string, chars: set<char>)
    requires s != [] ==> s[0] !in chars && s[|s| - 1] !in chars
    ensures Trim(s, chars) == s
  {
  }

  /** Index of the first character of `s` that is in `stops`, or `|s|` when there is none. */
  function FirstIndex(s: string, stops: set<char>): (i: nat)
    ensures i <= |s|
    ensures forall j :: 0 <= j < i ==> s[j] !in stops
    ensures i < |s| ==> s[i] in stops
  {
    if s == [] then 0 else if s[0] in stops then 0 else 1 + FirstIndex(s[1..], stops)
  }

  /** Index of the last occurrence of `c` in `s`, if any. */
  function LastIndex(s: string, c: char): (r: Option<nat>)
    ensures r.None? <==> c !in s
    ensures r.Some? ==> r.value < |s| && s[r.value] == c && c !in s[r.value + 1..]
  {
    if s == [] then None
    else if s[|s| - 1] == c then Some(|s| - 1)
    else LastIndex(s[..|s| - 1], c)
  }

  /** `s.replace(c, "")` for every `c` in `chars`. */
  function RemoveAll(s: string, chars: set<char>): (r: string)
    ensures forall i :: 0 <= i < |r| ==> r[i] !in chars
    ensures (forall i :: 0 <= i < |s| ==> s[i] !in chars) ==> r == s
  {
    if s == [] then []
    else if s[0] in chars then RemoveAll(s[1..], chars)
    else [s[0]] + RemoveAll(s[1..], chars)
  }

  predicate StartsWith(s: string, t: string)
  {
    |t| <= |s| && s[..|t|] == t
  }

  /** `t in s` for strings: `t` starts at some position of `s`. */
  predicate HasInfix(s: string, t: string)
  {
    StartsWith(s, t) || (s != [] && HasInfix(s[1..], t))
  }

  /** A string without `c` has no infix that starts with `c`. */
  lemma {:induction false} NoInfixWithout(s: string, t: string, c: char)
    requires t != [] && t[0] == c && c !in s
    ensures !HasInfix(s, t)
  {
    if s != [] {
      NoInfixWithout(s[1..], t, c);
    }
  }

  predicate EndsWith(s: string, t: string)
  {
    |t| <= |s| && s[|s| - |t|..] == t
  }

  /** `sep.join(parts)`. */
  function Join(parts: seq<string>, sep: char): string
  {
    if |parts| == 0 then ""
    else if |parts| == 1 then parts[0]
    else parts[0] + [sep] + Join(parts[1..], sep)
  }

  /** `s.split(sep)`: never empty, no piece holds `sep`, and joining the pieces gives `s` back. */
  function Split(s: string, sep: char): (r: seq<string>)
    ensures |r| >= 1
    ensures forall i :: 0 <= i < |r| ==> sep !in r[i]
    ensures Join(r, sep) == s
  {
    if s == [] then [""]
    else
      var rest := Split(s[1..], sep);
      if s[0] == sep then
        assert s == [sep] + s[1..];
        [""] + rest
      else
        assert s == [s[0]] + s[1..];
        [[s[0]] + rest[0]] + rest[1..]
  }

  /** Splitting a string that does not contain the separator gives just that string. */
  lemma {:induction false} SplitNoSep(a: string, sep: char)
    requires sep !in a
    ensures Split(a, sep) == [a]
  {
    if a != [] {
      SplitNoSep(a[1..], sep);
    }
  }

  /** Splitting `a + sep + b` with `sep` not in `a` peels `a` off as the first piece. */
  lemma {:induction false} SplitAfter(a: string, b: string, sep: char)
    requires sep !in a
    ensures Split(a + [sep] + b, sep) == [a] + Split(b, sep)
  {
    if a == [] {
      assert a + [sep] + b == [sep] + b;
      assert ([sep] + b)[1..] == b;
    } else {
      assert (a + [sep] + b)[1..] == a[1..] + [sep] + b;
      SplitAfter(a[1..], b, sep);
      assert [a[0]] + a[1..] == a;
    }
  }

  /** `split` undoes `join` when no part holds the separator. */
  lemma {:induction false} SplitJoin(parts: seq<string>, sep: char)
    requires |parts| >= 1
    requires forall i :: 0 <= i < |parts| ==> sep !in parts[i]
    ensures Split(Join(parts, sep), sep) == parts
  {
    if |parts| == 1 {
      SplitNoSep(parts[0], sep);
    } else {
      SplitJoin(parts[1..], sep);
      SplitAfter(parts[0], Join(parts[1..], sep), sep);
      assert [parts[0]] + parts[1..] == parts;
    }
  }

  /** The non-empty elements of `xs`, in order (`[x for x in xs if x]`). */
  function NonEmpty(xs: seq<string>): (r: seq<string>)
    ensures |r| <= |xs|
    ensures forall i :: 0 <= i < |r| ==> r[i] != "" && r[i] in xs
  {
    if xs == [] then []
    else if xs[0] == "" then NonEmpty(xs[1..])
    else [xs[0]] + NonEmpty(xs[1..])
  }

  lemma {:induction false} NonEmptyOfNonEmpty(xs: seq<string>)
    requires forall i :: 0 <= i < |xs| ==> xs[i] != ""
    ensures NonEmpty(xs) == xs
  {
    if xs != [] {
      NonEmptyOfNonEmpty(xs[1..]);
    }
  }

  /** Decimal text of a natural number, as `str(n)`. */
  function Decimal(n: nat): (r: string)
    ensures r != [] && forall i :: 0 <= i < |r| ==> IsDigit(r[i])
  {
    var d := ['0' + (n % 10) as char];
    if n < 10 then d else Decimal(n / 10) + d
  }

  /** `s` if it already holds `://`, else `s` behind an `http://` scheme. */
  function WithHttp(s: string): string
  {
    if HasInfix(s, "://") then s else "http://" + s
  }

  /** `WithHttp` always yields a string holding `://`. */
  lemma WithHttpScheme(s: string)
    ensures HasInfix(WithHttp(s), "://")
    ensures HasInfix(s, "://") || WithHttp(s) == "http://" + s
  {
    if !HasInfix(s, "://") {
      InfixOfConcat("http", "://", s);
      assert "http" + "://" + s == "http://" + s;
    }
  }

  /** A string occurs inside any concatenation that places it between two others. */
  lemma {:induction false} InfixOfConcat(a: string, t: string, b: string)
    ensures HasInfix(a + t + b, t)
  {
    if a == [] {
      assert (a + t + b)[..|t|] == t;
    } else {
      InfixOfConcat(a[1..], t, b);
      assert (a + t + b)[1..] == a[1..] + t + b;
    }
  }

  /** Joining with one more part appends the separator and that part. */
  lemma {:induction false} JoinLast(parts: seq<string>, last: string, sep: char)
    requires |parts| >= 1
    ensures Join(parts + [last], sep) == Join(parts, sep) + [sep] + last
  {
    if |parts| > 1 {
      JoinLast(parts[1..], last, sep);
      assert (parts + [last])[1..] == parts[1..] + [last];
    }
  }

  /** The last piece of a split is non-empty when the string does not end with the separator. */
  lemma {:induction false} SplitLastPiece(s: string, sep: char)
    requires s != [] && s[|s| - 1] != sep
    ensures var r := Split(s, sep); r[|r| - 1] != ""
  {
    if |s| > 1 {
      SplitLastPiece(s[1..], sep);
    }
  }

  /** Dropping the empty strings keeps a non-empty last element. */
  lemma {:induction false} NonEmptyLast(xs: seq<string>)
    requires xs != [] && xs[|xs| - 1] != ""
    ensures NonEmpty(xs) != [] && NonEmpty(xs)[|NonEmpty(xs)| - 1] == xs[|xs| - 1]
  {
    if |xs| > 1 {
      NonEmptyLast(xs[1..]);
    }
  }

  /** A concatenation ends with its last part. */
  lemma EndsWithConcat(a: string, b: string)
    ensures EndsWith(a + b, b)
  {
    assert (a + b)[|a|..] == b;
  }

  /** A string is the text before position `k`, the character there, and the rest. */
  lemma SplitAround(s: string, k: nat)
    requires k < |s|
    ensures s == s[..k] + [s[k]] + s[k + 1..]
  {
  }

  /** A word that lower-cases to `ping` upper-cases to `PING`. */
  lemma UpperOfPing(s: string)
    requires Lower(s) == "ping"
    ensures Upper(s) == "PING"
  {
    assert |s| == 4;
    forall i | 0 <= i < 4 ensures Upper(s)[i] == "PING"[i] {
      assert LowerChar(s[i]) == "ping"[i];
    }
  }
}
