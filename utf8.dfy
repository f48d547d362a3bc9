/**
 * UTF-8 as Python's codec reads and writes it (RFC 3629): `bytes.decode("utf-8")`
 * rejects overlong forms, surrogates and code points above U+10FFFF;
 * `bytes.decode("utf-8", "ignore")` drops each maximal invalid subpart and goes on.
 */
module Utf8 {
  import opened Text

  type byte = b: int | 0 <= b < 256

  /** What one decoding step finds at the head of a byte string. */
  datatype Step = Char(c: char, len: nat) | Bad(skip: nat)

  predicate IsCont(b: byte) { 0x80 <= b <= 0xBF }

  /** Decodes the first character of `b`, or says how many bytes form the invalid subpart. */
  function Head(b: seq<byte>): (r: Step)
    requires |b| > 0
    ensures r.Char? ==> 1 <= r.len <= |b| && r.len <= 4
    ensures r.Bad? ==> 1 <= r.skip <= |b| && r.skip <= 3
  {
    var b0 := b[0] as int;
    if b0 < 0x80 then Char(b0 as char, 1)
    else if 0xC2 <= b0 <= 0xDF then
      if |b| < 2 || !IsCont(b[1]) then Bad(1)
      else Char(((b0 - 0xC0) * 64 + (b[1] as int - 0x80)) as char, 2)
    else if 0xE0 <= b0 <= 0xEF then
      var lo := if b0 == 0xE0 then 0xA0 else 0x80;
      var hi := if b0 == 0xED then 0x9F else 0xBF;
      if |b| < 2 || !(lo <= b[1] <= hi) then Bad(1)
      else if |b| < 3 || !IsCont(b[2]) then Bad(2)
      else Char(((b0 - 0xE0) * 4096 + (b[1] as int - 0x80) * 64 + (b[2] as int - 0x80)) as char, 3)
    else if 0xF0 <= b0 <= 0xF4 then
      var lo := if b0 == 0xF0 then 0x90 else 0x80;
      var hi := if b0 == 0xF4 then 0x8F else 0xBF;
      if |b| < 2 || !(lo <= b[1] <= hi) then Bad(1)
      else if |b| < 3 || !IsCont(b[2]) then Bad(2)
      else if |b| < 4 || !IsCont(b[3]) then Bad(3)
      else Char(((b0 - 0xF0) * 262144 + (b[1] as int - 0x80) * 4096 + (b[2] as int - 0x80) * 64 + (b[3] as int - 0x80)) as char, 4)
    else Bad(1)
  }

  /** `b.decode("utf-8")`: `None` stands for `UnicodeDecodeError`. */
  function Decode(b: seq<byte>): Option<string>
    decreases |b|
  {
    if b == [] then Some("")
    else match Head(b)
      case Bad(_) => None
      case Char(c, n) =>
        match Decode(b[n..])
        case None => None
        case Some(rest) => Some([c] + rest)
  }

  /** `b.decode("utf-8", "ignore")`. */
  function DecodeIgnoring(b: seq<byte>): string
    decreases |b|
  {
    if b == [] then ""
    else match Head(b)
      case Bad(k) => DecodeIgnoring(b[k..])
      case Char(c, n) => [c] + DecodeIgnoring(b[n..])
  }

  function EncodeChar(c: char): (r: seq<byte>)
    ensures 1 <= |r| <= 4
  {
    var n := c as int;
    if n < 0x80 then [n]
    else if n < 0x800 then [0xC0 + n / 64, 0x80 + n % 64]
    else if n < 0x10000 then [0xE0 + n / 4096, 0x80 + (n / 64) % 64, 0x80 + n % 64]
    else [0xF0 + n / 262144, 0x80 + (n / 4096) % 64, 0x80 + (n / 64) % 64, 0x80 + n % 64]
  }

  /** `s.encode("utf-8")`. */
  function Encode(s: string): seq<byte>
  {
    if s == [] then [] else EncodeChar(s[0]) + Encode(s[1..])
  }

  /** Base-64 digits of a code point, as the encoder lays them out. */
  lemma Digits(n: nat)
    ensures n == (n / 262144) * 262144 + ((n / 4096) % 64) * 4096 + ((n / 64) % 64) * 64 + n % 64
    ensures n < 0x10000 ==> n == (n / 4096) * 4096 + ((n / 64) % 64) * 64 + n % 64
    ensures n < 0x800 ==> n == (n / 64) * 64 + n % 64
  {
    var q := n / 64;
    var p := q / 64;
    assert n == q * 64 + n % 64;
    assert q == p * 64 + q % 64;
    assert p == n / 4096;
    assert p == (p / 64) * 64 + p % 64;
    assert p / 64 == n / 262144;
  }

  /** Decoding the head of an encoded character gives the character back. */
  lemma HeadOfEncoded(c: char, rest: seq<byte>)
    ensures Head(EncodeChar(c) + rest) == Char(c, |EncodeChar(c)|)
  {
    var n := c as int;
    var e := EncodeChar(c);
    var b := e + rest;
    Digits(n);
    assert b[..|e|] == e;
    if n < 0x80 {
    } else if n < 0x800 {
      assert (e[0] as int - 0xC0) * 64 + (e[1] as int - 0x80) == n;
    } else if n < 0x10000 {
      assert (e[0] as int - 0xE0) * 4096 + (e[1] as int - 0x80) * 64 + (e[2] as int - 0x80) == n;
    } else {
      assert (e[0] as int - 0xF0) * 262144 + (e[1] as int - 0x80) * 4096 + (e[2] as int - 0x80) * 64 + (e[3] as int - 0x80) == n;
    }
  }

  /** Every string survives a UTF-8 round trip. */
  lemma {:induction false} DecodeEncode(s: string)
    ensures Decode(Encode(s)) == Some(s)
  {
    if s != [] {
      var e := EncodeChar(s[0]);
      HeadOfEncoded(s[0], Encode(s[1..]));
      assert (e + Encode(s[1..]))[|e|..] == Encode(s[1..]);
      DecodeEncode(s[1..]);
      assert [s[0]] + s[1..] == s;
    }
  }

  lemma By64(q: nat, r: nat)
    requires r < 64
    ensures (q * 64 + r) / 64 == q && (q * 64 + r) % 64 == r
  {
  }

  lemma By4096(q: nat, r: nat)
    requires r < 4096
    ensures (q * 4096 + r) / 4096 == q
  {
  }

  lemma By262144(q: nat, r: nat)
    requires r < 262144
    ensures (q * 262144 + r) / 262144 == q
  {
  }

  /** A valid two-byte sequence is the encoding of the character it decodes to. */
  lemma EncodeTwo(b0: byte, b1: byte)
    requires 0xC2 <= b0 <= 0xDF && IsCont(b1)
    ensures EncodeChar(((b0 - 0xC0) * 64 + (b1 - 0x80)) as char) == [b0, b1]
  {
    By64(b0 - 0xC0, b1 - 0x80);
  }

  /** A valid three-byte sequence is the encoding of the character it decodes to. */
  lemma EncodeThree(b0: byte, b1: byte, b2: byte)
    requires 0xE0 <= b0 <= 0xEF && IsCont(b1) && IsCont(b2)
    requires b0 == 0xE0 ==> b1 >= 0xA0
    requires b0 == 0xED ==> b1 <= 0x9F
    ensures var n := (b0 - 0xE0) * 4096 + (b1 - 0x80) * 64 + (b2 - 0x80);
      (n < 0xD800 || 0xE000 <= n) && EncodeChar(n as char) == [b0, b1, b2]
  {
    var q := (b0 - 0xE0) * 64 + (b1 - 0x80);
    var n := q * 64 + (b2 - 0x80);
    By64(q, b2 - 0x80);
    By64(b0 - 0xE0, b1 - 0x80);
    By4096(b0 - 0xE0, (b1 - 0x80) * 64 + (b2 - 0x80));
    assert n == (b0 - 0xE0) * 4096 + (b1 - 0x80) * 64 + (b2 - 0x80);
  }

  /** A valid four-byte sequence is the encoding of the character it decodes to. */
  lemma EncodeFour(b0: byte, b1: byte, b2: byte, b3: byte)
    requires 0xF0 <= b0 <= 0xF4 && IsCont(b1) && IsCont(b2) && IsCont(b3)
    requires b0 == 0xF0 ==> b1 >= 0x90
    requires b0 == 0xF4 ==> b1 <= 0x8F
    ensures var n := (b0 - 0xF0) * 262144 + (b1 - 0x80) * 4096 + (b2 - 0x80) * 64 + (b3 - 0x80);
      n <= 0x10FFFF && EncodeChar(n as char) == [b0, b1, b2, b3]
  {
    var p := (b0 - 0xF0) * 64 + (b1 - 0x80);
    var q := p * 64 + (b2 - 0x80);
    var n := q * 64 + (b3 - 0x80);
    assert n == (b0 - 0xF0) * 262144 + (b1 - 0x80) * 4096 + (b2 - 0x80) * 64 + (b3 - 0x80);
    By64(q, b3 - 0x80);
    By64(p, b2 - 0x80);
    By64(b0 - 0xF0, b1 - 0x80);
    By4096(p, (b2 - 0x80) * 64 + (b3 - 0x80));
    By262144(b0 - 0xF0, (b1 - 0x80) * 4096 + (b2 - 0x80) * 64 + (b3 - 0x80));
  }

  /** A decoded head is the encoding of the character it yields. */
  lemma EncodedHead(b: seq<byte>)
    requires |b| > 0 && Head(b).Char?
    ensures b[..Head(b).len] == EncodeChar(Head(b).c)
  {
    var b0 := b[0];
    if 0xC2 <= b0 <= 0xDF {
      EncodeTwo(b0, b[1]);
      assert b[..2] == [b0, b[1]];
    } else if 0xE0 <= b0 <= 0xEF {
      EncodeThree(b0, b[1], b[2]);
      assert b[..3] == [b0, b[1], b[2]];
    } else if 0xF0 <= b0 <= 0xF4 {
      EncodeFour(b0, b[1], b[2], b[3]);
      assert b[..4] == [b0, b[1], b[2], b[3]];
    }
  }

  /** A successful decode starts with a decoded character. */
  lemma DecodeStep(b: seq<byte>)
    requires b != [] && Decode(b).Some?
    ensures Head(b).Char? && Decode(b[Head(b).len..]).Some?
    ensures Decode(b).value == [Head(b).c] + Decode(b[Head(b).len..]).value
  {
  }

  /** A strictly decodable string splits into the encoding of its first character and a
      decodable rest. */
  lemma DecodeSplit(b: seq<byte>)
    requires b != [] && Decode(b).Some?
    ensures exists n, c ::
              0 < n <= |b| && Decode(b[n..]).Some? && b[..n] == EncodeChar(c)
              && Decode(b).value == [c] + Decode(b[n..]).value
  {
    DecodeStep(b);
    EncodedHead(b);
    var n, c := Head(b).len, Head(b).c;
    assert 0 < n <= |b| && Decode(b[n..]).Some? && b[..n] == EncodeChar(c)
      && Decode(b).value == [c] + Decode(b[n..]).value;
  }

  lemma EncodeCons(c: char, s: string)
    ensures Encode([c] + s) == EncodeChar(c) + Encode(s)
  {
    assert ([c] + s)[1..] == s;
  }

  /** Only the encoding of a string decodes to it: strict UTF-8 is one-to-one. */
  lemma {:induction false} EncodeDecode(b: seq<byte>)
    requires Decode(b).Some?
    ensures Encode(Decode(b).value) == b
    decreases |b|
  {
    if b != [] {
      DecodeSplit(b);
      var n, c :| 0 < n <= |b| && Decode(b[n..]).Some? && b[..n] == EncodeChar(c)
        && Decode(b).value == [c] + Decode(b[n..]).value;
      EncodeDecode(b[n..]);
      EncodeCons(c, Decode(b[n..]).value);
      assert b == b[..n] + b[n..];
    }
  }

  /** On valid input the lenient decoder agrees with the strict one. */
  lemma {:induction false} IgnoringAgrees(b: seq<byte>)
    requires Decode(b).Some?
    ensures DecodeIgnoring(b) == Decode(b).value
    decreases |b|
  {
    if b != [] {
      IgnoringAgrees(b[Head(b).len..]);
    }
  }
}
