/**
 * The two codecs the decoder relies on, as far as they decide between a str and a
 * UnicodeDecodeError: UTF-16 (code units and surrogate pairs) and UTF-8 (the well-formed
 * byte sequences of table 3-7 of the Unicode Standard, which Python's utf-8 codec accepts).
 * A Dafny char is a Unicode scalar value, so a decoded str is a string.
 */
module Unicode {
  import opened BigEndian

  predicate IsHighSurrogate(u: int) { 0xD800 <= u < 0xDC00 }
  predicate IsLowSurrogate(u: int) { 0xDC00 <= u < 0xE000 }

  /** A Unicode scalar value: a code point that is not a surrogate. */
  predicate IsScalar(c: int) { 0 <= c < 0x11_0000 && !(0xD800 <= c < 0xE000) }

  // ---------------------------------------------------------------------------------------
  // UTF-16

  /** How many code units the character starting u takes: two for a high surrogate. */
  function Utf16Width(u: seq<int>): nat
    requires u != []
  {
    if IsHighSurrogate(u[0]) then 2 else 1
  }

  /** One character's code units: a unit that is no surrogate, or a high then a low surrogate. */
  predicate Utf16Char(c: seq<int>)
  {
    || (|c| == 1 && 0 <= c[0] < 0x1_0000 && !IsHighSurrogate(c[0]) && !IsLowSurrogate(c[0]))
    || (|c| == 2 && IsHighSurrogate(c[0]) && IsLowSurrogate(c[1]))
  }

  /** The code point of one character's code units. */
  function Utf16CodePoint(c: seq<int>): (cp: int)
    requires Utf16Char(c)
    ensures IsScalar(cp)
  {
    if |c| == 1 then c[0] else 0x1_0000 + (c[0] - 0xD800) * 0x400 + (c[1] - 0xDC00)
  }

  /** Code units the utf-16 codecs decode: every high surrogate is followed by a low one, and no low surrogate stands alone. */
  predicate WellFormedUtf16(u: seq<int>)
    decreases |u|
  {
    u == [] ||
    (Utf16Width(u) <= |u| && Utf16Char(u[..Utf16Width(u)]) && WellFormedUtf16(u[Utf16Width(u)..]))
  }

  /** The str a well-formed sequence of code units stands for. */
  function Utf16Decode(u: seq<int>): (s: string)
    requires WellFormedUtf16(u)
    decreases |u|
  {
    if u == [] then ""
    else [Utf16CodePoint(u[..Utf16Width(u)]) as char] + Utf16Decode(u[Utf16Width(u)..])
  }

  /** The code units of one character: itself, or a surrogate pair above U+FFFF. */
  function Utf16Unit(c: char): (u: seq<int>)
    ensures Utf16Char(u) && Utf16CodePoint(u) == c as int
  {
    var x := c as int;
    if x < 0x1_0000 then [x]
    else [0xD800 + (x - 0x1_0000) / 0x400, 0xDC00 + (x - 0x1_0000) % 0x400]
  }

  function Utf16Encode(s: string): (u: seq<int>)
    ensures |u| >= |s|
    ensures forall i :: 0 <= i < |u| ==> 0 <= u[i] < 0x1_0000
  {
    if s == "" then [] else Utf16Unit(s[0]) + Utf16Encode(s[1..])
  }

  /** One step of the decoder: the first character, then the rest. */
  lemma Utf16DecodeStep(u: seq<int>)
    requires WellFormedUtf16(u) && u != []
    ensures Utf16Width(u) <= |u| && Utf16Char(u[..Utf16Width(u)]) && WellFormedUtf16(u[Utf16Width(u)..])
    ensures Utf16Decode(u) == [Utf16CodePoint(u[..Utf16Width(u)]) as char] + Utf16Decode(u[Utf16Width(u)..])
  {
  }

  /** One character's code units in front of a well-formed sequence: decoded first. */
  lemma Utf16Prepend(c: seq<int>, u: seq<int>)
    requires Utf16Char(c) && WellFormedUtf16(u)
    ensures WellFormedUtf16(c + u)
    ensures Utf16Decode(c + u) == [Utf16CodePoint(c) as char] + Utf16Decode(u)
  {
    var w := c + u;
    assert w[0] == c[0];
    assert w[..|c|] == c;
    assert w[|c|..] == u;
  }

  /** Encoding a str gives well-formed code units that decode back to it. */
  lemma {:induction false} Utf16RoundTrip(s: string)
    ensures WellFormedUtf16(Utf16Encode(s))
    ensures Utf16Decode(Utf16Encode(s)) == s
  {
    if s != "" {
      Utf16RoundTrip(s[1..]);
      Utf16Prepend(Utf16Unit(s[0]), Utf16Encode(s[1..]));
    }
  }

  /** A character's code units are the encoding of its code point. */
  lemma Utf16UnitOfCodePoint(c: seq<int>)
    requires Utf16Char(c)
    ensures Utf16Unit(Utf16CodePoint(c) as char) == c
  {
    if |c| == 2 {
      var hi := c[0] - 0xD800;
      var lo := c[1] - 0xDC00;
      var x := hi * 0x400 + lo;
      assert x / 0x400 == hi && x % 0x400 == lo;
      assert c == [c[0], c[1]];
    }
  }

  /** Decoding well-formed code units and encoding the str again gives the same units. */
  lemma {:induction false} Utf16EncodeDecode(u: seq<int>)
    requires WellFormedUtf16(u)
    ensures Utf16Encode(Utf16Decode(u)) == u
    decreases |u|
  {
    if u != [] {
      hide Utf16Decode, WellFormedUtf16;
      var n := Utf16Width(u);
      Utf16DecodeStep(u);
      var c := Utf16CodePoint(u[..n]) as char;
      var t := Utf16Decode(u[n..]);
      var s := Utf16Decode(u);
      assert s == [c] + t;
      assert s != "" && s[0] == c && s[1..] == t;
      Utf16EncodeDecode(u[n..]);
      Utf16UnitOfCodePoint(u[..n]);
      assert Utf16Encode(s) == Utf16Unit(c) + Utf16Encode(t);
      assert u == u[..n] + u[n..];
    }
  }

  /** Well-formed code units are 16-bit values. */
  lemma {:induction false} Utf16InRange(u: seq<int>)
    requires WellFormedUtf16(u)
    ensures forall i :: 0 <= i < |u| ==> 0 <= u[i] < 0x1_0000
    decreases |u|
  {
    if u != [] {
      var n := Utf16Width(u);
      Utf16DecodeStep(u);
      Utf16InRange(u[n..]);
      forall i | 0 <= i < |u|
        ensures 0 <= u[i] < 0x1_0000
      {
        if i >= n { assert u[i] == u[n..][i - n]; } else { assert u[i] == u[..n][i]; }
      }
    }
  }

  /** The UTF-16 encoding of s has NUL as its last unit exactly when s ends with NUL. */
  lemma {:induction false} Utf16EncodeLast(s: string)
    requires s != ""
    ensures var u := Utf16Encode(s); u != [] && (u[|u| - 1] == 0 <==> s[|s| - 1] == '\0')
  {
    if |s| > 1 {
      Utf16EncodeLast(s[1..]);
      assert s[1..][|s[1..]| - 1] == s[|s| - 1];
    } else {
      assert s[1..] == "";
    }
  }

  /** Encoding two strs one after the other. */
  lemma {:induction false} Utf16EncodeAppend(s: string, t: string)
    ensures Utf16Encode(s + t) == Utf16Encode(s) + Utf16Encode(t)
  {
    if s == "" {
      assert s + t == t;
    } else {
      assert (s + t)[0] == s[0];
      assert (s + t)[1..] == s[1..] + t;
      Utf16EncodeAppend(s[1..], t);
    }
  }

  // ---------------------------------------------------------------------------------------
  // UTF-8

  predicate IsContinuation(b: byte) { 0x80 <= b < 0xC0 }

  /**
   * The length of the well-formed byte sequence b starts with, or 0 when it starts with none
   * (a stray continuation byte, an overlong form, a surrogate, a value above U+10FFFF or a
   * truncated sequence).
   */
  function Utf8Width(b: seq<byte>): (n: nat)
    requires |b| > 0
    ensures n <= |b| && n <= 4
  {
    var b0 := b[0];
    if b0 < 0x80 then 1
    else if 0xC2 <= b0 < 0xE0 then
      if |b| >= 2 && IsContinuation(b[1]) then 2 else 0
    else if 0xE0 <= b0 < 0xF0 then
      var lo := if b0 == 0xE0 then 0xA0 else 0x80;
      var hi := if b0 == 0xED then 0xA0 else 0xC0;
      if |b| >= 3 && lo <= b[1] < hi && IsContinuation(b[2]) then 3 else 0
    else if 0xF0 <= b0 < 0xF5 then
      var lo := if b0 == 0xF0 then 0x90 else 0x80;
      var hi := if b0 == 0xF4 then 0x90 else 0xC0;
      if |b| >= 4 && lo <= b[1] < hi && IsContinuation(b[2]) && IsContinuation(b[3]) then 4 else 0
    else 0
  }

  /** Bytes bytes.decode('utf-8') accepts: a run of well-formed sequences. */
  predicate ValidUtf8(b: seq<byte>)
    decreases |b|
  {
    b == [] || (Utf8Width(b) > 0 && ValidUtf8(b[Utf8Width(b)..]))
  }

  /** The code point of one well-formed sequence. */
  function Utf8CodePoint(b: seq<byte>): (cp: int)
    requires |b| > 0 && Utf8Width(b) == |b|
    ensures IsScalar(cp)
  {
    var b0: int := b[0];
    if |b| == 1 then b0
    else if |b| == 2 then (b0 - 0xC0) * 0x40 + (b[1] as int - 0x80)
    else if |b| == 3 then (b0 - 0xE0) * 0x1000 + (b[1] as int - 0x80) * 0x40 + (b[2] as int - 0x80)
    else (b0 - 0xF0) * 0x4_0000 + (b[1] as int - 0x80) * 0x1000 + (b[2] as int - 0x80) * 0x40
         + (b[3] as int - 0x80)
  }

  /** The str valid UTF-8 bytes stand for. */
  function Utf8Decode(b: seq<byte>): string
    requires ValidUtf8(b)
    decreases |b|
  {
    if b == [] then ""
    else
      var n := Utf8Width(b);
      [Utf8CodePoint(b[..n]) as char] + Utf8Decode(b[n..])
  }

  /** The UTF-8 bytes of one character. */
  function Utf8Char(c: char): (b: seq<byte>)
    ensures 1 <= |b| <= 4 && Utf8Width(b) == |b| && Utf8CodePoint(b) == c as int
  {
    var x := c as int;
    if x < 0x80 then [x]
    else if x < 0x800 then Utf8Two(x)
    else if x < 0x1_0000 then Utf8Three(x)
    else Utf8Four(x)
  }

  function Utf8Two(x: int): (b: seq<byte>)
    requires 0x80 <= x < 0x800
    ensures |b| == 2 && Utf8Width(b) == 2 && Utf8CodePoint(b) == x
  {
    var q, r := x / 0x40, x % 0x40;
    assert x == q * 0x40 + r && 2 <= q < 0x20;
    [0xC0 + q, 0x80 + r]
  }

  function Utf8Three(x: int): (b: seq<byte>)
    requires 0x800 <= x < 0x1_0000 && IsScalar(x)
    ensures |b| == 3 && Utf8Width(b) == 3 && Utf8CodePoint(b) == x
  {
    var q2, m := x / 0x1000, x % 0x1000;
    var q1, r := m / 0x40, m % 0x40;
    assert x == q2 * 0x1000 + m && m == q1 * 0x40 + r && q2 < 0x10 && q1 < 0x40;
    assert q2 == 0 ==> q1 >= 0x20;
    assert q2 == 0xD ==> q1 < 0x20;
    [0xE0 + q2, 0x80 + q1, 0x80 + r]
  }

  function Utf8Four(x: int): (b: seq<byte>)
    requires 0x1_0000 <= x < 0x11_0000
    ensures |b| == 4 && Utf8Width(b) == 4 && Utf8CodePoint(b) == x
  {
    var q3, m := x / 0x4_0000, x % 0x4_0000;
    var q2, m2 := m / 0x1000, m % 0x1000;
    var q1, r := m2 / 0x40, m2 % 0x40;
    assert x == q3 * 0x4_0000 + m && m == q2 * 0x1000 + m2 && m2 == q1 * 0x40 + r;
    assert q3 <= 4 && q2 < 0x40 && q1 < 0x40;
    assert q3 == 0 ==> q2 >= 0x10;
    assert q3 == 4 ==> q2 < 0x10;
    [0xF0 + q3, 0x80 + q2, 0x80 + q1, 0x80 + r]
  }

  function Utf8Encode(s: string): seq<byte>
  {
    if s == "" then [] else Utf8Char(s[0]) + Utf8Encode(s[1..])
  }

  /** One well-formed sequence in front of valid bytes: valid, and decoded first. */
  lemma Utf8Prepend(a: seq<byte>, rest: seq<byte>)
    requires |a| > 0 && Utf8Width(a) == |a| && ValidUtf8(rest)
    ensures ValidUtf8(a + rest)
    ensures Utf8Decode(a + rest) == [Utf8CodePoint(a) as char] + Utf8Decode(rest)
  {
    var b := a + rest;
    assert b[..|a|] == a;
    assert Utf8Width(b) == |a|;
    assert b[|a|..] == rest;
  }

  /** Encoding a str gives valid UTF-8 that decodes back to it. */
  lemma {:induction false} Utf8RoundTrip(s: string)
    ensures ValidUtf8(Utf8Encode(s))
    ensures Utf8Decode(Utf8Encode(s)) == s
  {
    if s != "" {
      Utf8RoundTrip(s[1..]);
      Utf8Prepend(Utf8Char(s[0]), Utf8Encode(s[1..]));
    }
  }

  /** The UTF-8 encoding of s starts and ends with a NUL byte exactly when s starts and ends with NUL. */
  lemma {:induction false} Utf8EncodeEnds(s: string)
    requires s != ""
    ensures var b := Utf8Encode(s); b != [] && (b[0] == 0 <==> s[0] == '\0')
    ensures var b := Utf8Encode(s); b != [] && (b[|b| - 1] == 0 <==> s[|s| - 1] == '\0')
  {
    if |s| > 1 {
      Utf8EncodeEnds(s[1..]);
      assert s[1..][|s[1..]| - 1] == s[|s| - 1];
    } else {
      assert s[1..] == "";
    }
  }

  /** Bytes below 0x80 (ASCII) are valid UTF-8, each standing for itself. */
  lemma {:induction false} AsciiValid(b: seq<byte>)
    requires forall i :: 0 <= i < |b| ==> b[i] < 0x80
    ensures ValidUtf8(b)
    ensures |Utf8Decode(b)| == |b|
    ensures forall i :: 0 <= i < |b| ==> Utf8Decode(b)[i] as int == b[i]
    decreases |b|
  {
    if b != [] {
      AsciiValid(b[1..]);
      assert b[..1] == [b[0]];
    }
  }

  /** The encoded surrogate U+D800, the overlong NUL and a truncated sequence are rejected. */
  lemma Utf8Rejects()
    ensures !ValidUtf8([0xED, 0xA0, 0x80])
    ensures !ValidUtf8([0xC0, 0x80])
    ensures !ValidUtf8([0xE4, 0xB8])
  {
  }
}
