/**
 * Decoded values and the coercion of a parameter's raw bytes by its MIME-like type tag
 * (CelFile.format_value and CelFile.parse_2byte_string).
 */
module Values {
  import opened Results
  import opened BigEndian
  import opened Unicode

  /** A decoded Python value: one constructor per Python type the decoder produces. */
  datatype Value =
    | Null                        // None
    | Int(i: int)                 // int unpacked by struct from an integer format
    | Float32(bits: seq<byte>)    // float unpacked by '>f': its four big-endian IEEE 754 bytes
    | Bytes(b: seq<byte>)         // bytes, kept as read
    | Float64(bits: seq<byte>)    // float unpacked by '>d': its eight big-endian IEEE 754 bytes
    | Str(s: string)              // str

  /** A length-prefixed byte string as Python sees it: None, or bytes. */
  function OfBytes(raw: Option<seq<byte>>): Value
  {
    match raw
    case None => Null
    case Some(b) => Bytes(b)
  }

  /** A length-prefixed wide string as Python sees it: None, or str. */
  function OfWide(w: Option<string>): Value
  {
    match w
    case None => Null
    case Some(s) => Str(s)
  }

  const TextPlain := "text/plain"
  const TextAscii := "text/ascii"
  const CalvinFloat := "text/x-calvin-float"

  /** Width in bytes and signedness of the struct format an integer tag selects. */
  datatype IntFormat = IntFormat(width: nat, signed: bool)

  function IntegerTag(tag: string): (f: Option<IntFormat>)
    ensures f.Some? ==> f.value.width in {1, 2, 4}
  {
    if tag == "text/x-calvin-integer-8" then Some(IntFormat(1, true))
    else if tag == "text/x-calvin-unsigned-integer-8" then Some(IntFormat(1, false))
    else if tag == "text/x-calvin-integer-16" then Some(IntFormat(2, true))
    else if tag == "text/x-calvin-unsigned-integer-16" then Some(IntFormat(2, false))
    else if tag == "text/x-calvin-integer-32" then Some(IntFormat(4, true))
    else if tag == "text/x-calvin-unsigned-integer-32" then Some(IntFormat(4, false))
    else None
  }

  /** The tags format_value decodes; any other tag makes it print a notice and keep the value. */
  predicate KnownTag(tag: Option<string>)
  {
    tag.Some? && (tag.value in {TextPlain, TextAscii, CalvinFloat} || IntegerTag(tag.value).Some?)
  }

  /** value[:width] handed to struct.unpack: None cannot be sliced, a short slice cannot be unpacked. */
  function Leading(raw: Option<seq<byte>>, width: nat): Result<seq<byte>>
  {
    match raw
    case None => Err(TypeError)
    case Some(b) => if |b| >= width then Ok(b[..width]) else Err(StructError)
  }

  /** The integer struct.unpack returns for the bytes of an integer format. */
  function Unpack(f: IntFormat, b: seq<byte>): int
    requires |b| > 0
  {
    if f.signed then Signed(b) else Unsigned(b)
  }

  /** s without its trailing run of z (bytes.rstrip, or the same on code units). */
  function RStrip<T(==)>(s: seq<T>, z: T): (r: seq<T>)
    ensures |r| <= |s| && r == s[..|r|]
    ensures r == [] || r[|r| - 1] != z
    ensures forall i :: |r| <= i < |s| ==> s[i] == z
  {
    if s == [] || s[|s| - 1] != z then s else RStrip(s[..|s| - 1], z)
  }

  /** k copies of z: the padding run the strip functions remove. */
  function Padding<T>(z: T, k: nat): (p: seq<T>)
    ensures |p| == k && forall i :: 0 <= i < k ==> p[i] == z
  {
    seq(k, _ => z)
  }

  /** s without its leading run of z. */
  function LStrip<T(==)>(s: seq<T>, z: T): (r: seq<T>)
    ensures |r| <= |s| && r == s[|s| - |r|..]
    ensures r == [] || r[0] != z
    ensures forall i :: 0 <= i < |s| - |r| ==> s[i] == z
  {
    if s == [] || s[0] != z then s else LStrip(s[1..], z)
  }

  /** bytes.strip(b'\x00'): NULs removed from both ends. */
  function StripNul(b: seq<byte>): seq<byte>
  {
    RStrip(LStrip(b, 0), 0)
  }

  /** The big-endian 16-bit code units of an even-length buffer. */
  function Units(b: seq<byte>): (u: seq<int>)
    requires |b| % 2 == 0
    ensures |u| == |b| / 2
  {
    if b == [] then [] else [b[0] as int * 256 + b[1] as int] + Units(b[2..])
  }

  /** The UTF-16BE buffer of a sequence of code units. */
  function UnitBytes(u: seq<int>): (b: seq<byte>)
    requires forall i :: 0 <= i < |u| ==> 0 <= u[i] < 0x1_0000
    ensures |b| == 2 * |u|
  {
    if u == [] then [] else [u[0] / 256, u[0] % 256] + UnitBytes(u[1..])
  }

  /** The last byte of a UTF-16BE buffer is the low byte of its last code unit. */
  lemma {:induction false} UnitBytesLast(u: seq<int>)
    requires forall i :: 0 <= i < |u| ==> 0 <= u[i] < 0x1_0000
    requires u != []
    ensures var b := UnitBytes(u); b[|b| - 1] == u[|u| - 1] % 256
  {
    var rest := UnitBytes(u[1..]);
    assert UnitBytes(u) == [u[0] / 256, u[0] % 256] + rest;
    if |u| > 1 {
      UnitBytesLast(u[1..]);
      assert u[1..][|u[1..]| - 1] == u[|u| - 1];
    } else {
      assert rest == [];
    }
  }

  lemma {:induction false} UnitsOfUnitBytes(u: seq<int>)
    requires forall i :: 0 <= i < |u| ==> 0 <= u[i] < 0x1_0000
    ensures Units(UnitBytes(u)) == u
  {
    if u != [] {
      var b := UnitBytes(u);
      var rest := UnitBytes(u[1..]);
      assert b == [u[0] / 256, u[0] % 256] + rest;
      assert b[2..] == rest;
      UnitsOfUnitBytes(u[1..]);
      assert b[0] as int * 256 + b[1] as int == u[0];
      assert Units(b) == [u[0]] + Units(rest);
      assert u == [u[0]] + u[1..];
    }
  }

  /**
   * parse_2byte_string as the code is written: a falsy value (None or b'') is returned as it is;
   * otherwise trailing zero BYTES are stripped and what is left is decoded as UTF-16BE, which
   * fails on an odd number of bytes and on a lone surrogate.
   */
  function ParsePlainAsWritten(raw: Option<seq<byte>>): (r: Result<Value>)
    ensures raw.None? ==> r == Ok(Null)
    ensures raw.Some? && raw.value != [] && r.Ok? ==> r.value.Str? && 2 * |r.value.s| <= |raw.value|
  {
    match raw
    case None => Ok(Null)
    case Some(b) =>
      if b == [] then Ok(Bytes([]))
      else
        var s := RStrip(b, 0);
        if |s| % 2 == 1 || !WellFormedUtf16(Units(s)) then Err(UnicodeDecodeError)
        else
          Utf16EncodeDecode(Units(s));
          Ok(Str(Utf16Decode(Units(s))))
  }

  /**
   * parse_2byte_string as evidently intended: the NUL characters padding the end of the
   * buffer (zero code units, two zero bytes each) are removed before decoding. This is the
   * code's rstrip of zero bytes, with the zero byte that belongs to the last character put
   * back when the strip cut that character in half.
   */
  function ParsePlain(raw: Option<seq<byte>>): (r: Result<Value>)
    ensures raw.None? ==> r == Ok(Null)
    ensures raw == Some([]) ==> r == Ok(Bytes([]))
    ensures ParsePlainAsWritten(raw).Ok? ==> r == ParsePlainAsWritten(raw)
    ensures r != ParsePlainAsWritten(raw) ==>
      raw.Some? && |RStrip(raw.value, 0)| % 2 == 1 && ParsePlainAsWritten(raw) == Err(UnicodeDecodeError)
  {
    match raw
    case None => Ok(Null)
    case Some(b) =>
      if b == [] then Ok(Bytes([]))
      else
        var s := RStrip(b, 0);
        var t := if |s| % 2 == 1 then s + [0] else s;
        if !WellFormedUtf16(Units(t)) then Err(UnicodeDecodeError)
        else Ok(Str(Utf16Decode(Units(t))))
  }

  /** bytes.decode('utf-8'). */
  function DecodeUtf8(b: seq<byte>): Result<string>
  {
    if ValidUtf8(b) then Ok(Utf8Decode(b)) else Err(UnicodeDecodeError)
  }

  /** format_value: coerce the raw bytes of a parameter according to its type tag. */
  function FormatValue(raw: Option<seq<byte>>, tag: Option<string>): (r: Result<Value>)
    ensures !KnownTag(tag) ==> r == Ok(OfBytes(raw))
    ensures raw.None? ==> (r.Ok? <==> tag == Some(TextPlain) || !KnownTag(tag)) && (r.Ok? ==> r.value == Null)
    ensures raw.None? && r.Err? ==> r.error == (if tag == Some(TextAscii) then AttributeError else TypeError)
    ensures tag == Some(CalvinFloat) ==> (r.Ok? <==> raw.Some? && |raw.value| >= 4)
    ensures tag == Some(CalvinFloat) && r.Ok? ==> r == Ok(Float32(raw.value[..4]))
    ensures r.Ok? && tag == Some(TextAscii) ==> r.value.Str?
    ensures r.Ok? && tag == Some(TextPlain) && raw != Some([]) ==> r.value.Str? || r.value.Null?
    ensures r.Err? ==> KnownTag(tag) && r.error in {TypeError, StructError, AttributeError, UnicodeDecodeError}
  {
    if tag == Some(TextPlain) then ParsePlain(raw)
    else if tag == Some(CalvinFloat) then
      var b :- Leading(raw, 4);
      Ok(Float32(b))
    else if tag.Some? && IntegerTag(tag.value).Some? then
      var f := IntegerTag(tag.value).value;
      var b :- Leading(raw, f.width);
      Ok(Int(Unpack(f, b)))
    else if tag == Some(TextAscii) then
      match raw
      case None => Err(AttributeError)
      case Some(b) =>
        var s :- DecodeUtf8(StripNul(b));
        Ok(Str(s))
    else
      Ok(OfBytes(raw))
  }

  // ---------------------------------------------------------------------------------------
  // Properties of format_value

  /** Values that fit an integer format. */
  predicate Fits(f: IntFormat, x: int)
  {
    f.width > 0 &&
    if f.signed then -(Pow256(f.width) / 2) <= x < Pow256(f.width) / 2 else 0 <= x < Pow256(f.width)
  }

  /** struct.pack for an integer format. */
  function Pack(f: IntFormat, x: int): (b: seq<byte>)
    requires Fits(f, x)
    ensures |b| == f.width
  {
    if f.signed then EncodeSigned(x, f.width) else EncodeUnsigned(x, f.width)
  }

  /**
   * An integer tag decodes only the leading bytes of the value, with the tag's width and
   * signedness: it fails on None and on a value shorter than the width, and any bytes
   * after the width are ignored.
   */
  lemma FormatIntegerTag(tag: string, raw: Option<seq<byte>>)
    requires IntegerTag(tag).Some?
    ensures var f := IntegerTag(tag).value;
      var r := FormatValue(raw, Some(tag));
      && (raw.None? ==> r == Err(TypeError))
      && (raw.Some? && |raw.value| < f.width ==> r == Err(StructError))
      && (raw.Some? && |raw.value| >= f.width ==>
            r == FormatValue(Some(raw.value[..f.width]), Some(tag)) && r.Ok? && r.value.Int? &&
            Fits(f, r.value.i))
  {
    var f := IntegerTag(tag).value;
    assert tag != TextPlain && tag != CalvinFloat;
    if raw.Some? && |raw.value| >= f.width {
      var b := raw.value[..f.width];
      assert b[..f.width] == b;
    }
  }

  /** An integer packed with the tag's format, followed by any bytes, decodes back to itself. */
  lemma FormatIntegerRoundTrip(tag: string, x: int, pad: seq<byte>)
    requires IntegerTag(tag).Some? && Fits(IntegerTag(tag).value, x)
    ensures FormatValue(Some(Pack(IntegerTag(tag).value, x) + pad), Some(tag)) == Ok(Int(x))
  {
    var f := IntegerTag(tag).value;
    var b := Pack(f, x) + pad;
    assert b[..f.width] == Pack(f, x);
    assert tag != TextPlain && tag != CalvinFloat;
    if f.signed { SignedOfEncode(x, f.width); } else { UnsignedOfEncode(x, f.width); }
  }

  /** A tag format_value does not recognise leaves the value as it was read. */
  lemma FormatUnknownTag(tag: Option<string>, raw: Option<seq<byte>>)
    requires !KnownTag(tag)
    ensures FormatValue(raw, tag) == Ok(OfBytes(raw))
  {
  }

  /** Stripping removes exactly a trailing padding run from a sequence that does not end with it. */
  lemma {:induction false} RStripPadding<T>(s: seq<T>, z: T, k: nat)
    requires s == [] || s[|s| - 1] != z
    ensures RStrip(s + Padding(z, k), z) == s
  {
    var t := s + Padding(z, k);
    if k == 0 {
      assert t == s;
    } else {
      assert t[|t| - 1] == z;
      assert t[..|t| - 1] == s + Padding(z, k - 1);
      RStripPadding(s, z, k - 1);
    }
  }

  /** Stripping removes exactly a leading padding run from a sequence that does not start with it. */
  lemma {:induction false} LStripPadding<T>(s: seq<T>, z: T, k: nat)
    requires s == [] || s[0] != z
    ensures LStrip(Padding(z, k) + s, z) == s
  {
    var t := Padding(z, k) + s;
    if k == 0 {
      assert t == s;
    } else {
      assert t[0] == z;
      assert t[1..] == Padding(z, k - 1) + s;
      LStripPadding(s, z, k - 1);
    }
  }

  /** text/plain is parse_2byte_string. */
  lemma FormatPlain(raw: Option<seq<byte>>)
    ensures FormatValue(raw, Some(TextPlain)) == ParsePlain(raw)
  {
  }

  /** The UTF-16BE buffer of a concatenation of code units is the concatenation of their buffers. */
  lemma {:induction false} UnitBytesAppend(u: seq<int>, v: seq<int>)
    requires forall i :: 0 <= i < |u| ==> 0 <= u[i] < 0x1_0000
    requires forall i :: 0 <= i < |v| ==> 0 <= v[i] < 0x1_0000
    ensures UnitBytes(u + v) == UnitBytes(u) + UnitBytes(v)
  {
    if u == [] {
      assert u + v == v;
    } else {
      assert (u + v)[1..] == u[1..] + v;
      UnitBytesAppend(u[1..], v);
    }
  }

  /** k NUL characters are k zero code units, which are 2k zero bytes. */
  lemma {:induction false} NulPaddingBytes(k: nat)
    ensures Utf16Encode(Padding('\0', k)) == Padding<int>(0, k)
    ensures UnitBytes(Padding<int>(0, k)) == Padding<byte>(0, 2 * k)
  {
    if k > 0 {
      NulPaddingBytes(k - 1);
      assert Padding('\0', k)[1..] == Padding('\0', k - 1);
      assert Padding<int>(0, k)[1..] == Padding<int>(0, k - 1);
      assert Padding<int>(0, k) == [0] + Padding<int>(0, k - 1);
      assert Padding<byte>(0, 2 * k) == [0, 0] + Padding<byte>(0, 2 * (k - 1));
    }
  }

  /** The last two bytes of a UTF-16BE buffer are the high and low byte of its last code unit. */
  lemma UnitBytesLastTwo(u: seq<int>)
    requires forall i :: 0 <= i < |u| ==> 0 <= u[i] < 0x1_0000
    requires u != []
    ensures var l := u[|u| - 1]; UnitBytes(u) == UnitBytes(u[..|u| - 1]) + [l / 256, l % 256]
  {
    hide UnitBytes;
    var l := u[|u| - 1];
    assert u == u[..|u| - 1] + [l];
    UnitBytesAppend(u[..|u| - 1], [l]);
    UnitBytesOne(l);
  }

  lemma UnitBytesOne(l: int)
    requires 0 <= l < 0x1_0000
    ensures UnitBytes([l]) == [l / 256, l % 256]
  {
    assert UnitBytes([l]) == [l / 256, l % 256] + UnitBytes([]);
  }

  lemma EmptyUnits()
    ensures Utf16Encode("") == [] && UnitBytes([]) == []
  {
  }

  /** One step of the corrected parse, on a non-empty buffer. */
  lemma ParsePlainStep(b: seq<byte>)
    requires b != []
    ensures var st := RStrip(b, 0); var t := if |st| % 2 == 1 then st + [0] else st;
      ParsePlain(Some(b)) == if !WellFormedUtf16(Units(t)) then Err(UnicodeDecodeError) else Ok(Str(Utf16Decode(Units(t))))
  {
  }

  /**
   * Stripping the zero bytes of a str padded with NUL characters: the padding goes, and so
   * does the low byte of the last character when that byte is zero (its high byte is not).
   */
  lemma StripPadded(s: string, k: nat)
    requires s == "" || s[|s| - 1] != '\0'
    ensures var b := UnitBytes(Utf16Encode(s));
      UnitBytes(Utf16Encode(s + Padding('\0', k))) == b + Padding<byte>(0, 2 * k)
    ensures var b := UnitBytes(Utf16Encode(s)); var st := RStrip(b + Padding<byte>(0, 2 * k), 0);
      (b == [] || b[|b| - 1] != 0 ==> st == b) &&
      (b != [] && b[|b| - 1] == 0 ==> |b| >= 2 && st == b[..|b| - 1])
  {
    hide Utf16Encode, UnitBytes, RStrip, Padding;
    EmptyUnits();
    var u := Utf16Encode(s);
    var b := UnitBytes(u);
    var pad := Padding<byte>(0, 2 * k);
    Utf16EncodeAppend(s, Padding('\0', k));
    NulPaddingBytes(k);
    UnitBytesAppend(u, Padding<int>(0, k));
    if b == [] || b[|b| - 1] != 0 {
      RStripPadding(b, 0, 2 * k);
    } else {
      Utf16EncodeLast(s);
      UnitBytesLastTwo(u);
      var l := u[|u| - 1];
      var c := b[..|b| - 1];
      assert c[|c| - 1] == l / 256 && l != 0;
      assert b + pad == c + Padding<byte>(0, 2 * k + 1);
      RStripPadding(c, 0, 2 * k + 1);
    }
  }

  /**
   * The corrected parse of a buffer whose strip leaves the UTF-16BE buffer of some well-formed
   * code units, or that buffer short of its zero last byte, decodes those units.
   */
  lemma ParsePlainOfStrip(u: seq<int>, whole: seq<byte>)
    requires forall i :: 0 <= i < |u| ==> 0 <= u[i] < 0x1_0000
    requires WellFormedUtf16(u) && whole != []
    requires var b := UnitBytes(u); var st := RStrip(whole, 0);
      (b == [] || b[|b| - 1] != 0 ==> st == b) &&
      (b != [] && b[|b| - 1] == 0 ==> st == b[..|b| - 1])
    ensures ParsePlain(Some(whole)) == Ok(Str(Utf16Decode(u)))
  {
    hide UnitBytes, Units, Utf16Decode, WellFormedUtf16, RStrip, ParsePlain, ParsePlainAsWritten;
    var b := UnitBytes(u);
    var st := RStrip(whole, 0);
    UnitsOfUnitBytes(u);
    if b != [] && b[|b| - 1] == 0 {
      assert st + [0] == b;
    }
    ParsePlainStep(whole);
  }

  /** The UTF-16BE encoding of a str padded with NUL characters decodes to exactly that str. */
  lemma ParsePlainRoundTrip(s: string, k: nat)
    requires s == "" || s[|s| - 1] != '\0'
    requires |s| + k > 0
    ensures ParsePlain(Some(UnitBytes(Utf16Encode(s + Padding('\0', k))))) == Ok(Str(s))
  {
    hide Utf16Encode, UnitBytes, Units, Utf16Decode, WellFormedUtf16, RStrip, Padding, ParsePlain,
      ParsePlainAsWritten;
    var u := Utf16Encode(s);
    var b := UnitBytes(u);
    var whole := b + Padding<byte>(0, 2 * k);
    StripPadded(s, k);
    Utf16RoundTrip(s);
    assert |whole| == 2 * |u| + 2 * k;
    ParsePlainOfStrip(u, whole);
  }

  /**
   * The code as written gets the same str back when the low byte of its last code unit is not
   * zero: then only the padding is stripped.
   */
  lemma ParsePlainAsWrittenRoundTrip(s: string, k: nat)
    requires s == "" || Utf16Encode(s)[|Utf16Encode(s)| - 1] % 256 != 0
    requires |s| + k > 0
    ensures ParsePlainAsWritten(Some(UnitBytes(Utf16Encode(s + Padding('\0', k))))) == Ok(Str(s))
  {
    hide Utf16Encode, UnitBytes, Units, Utf16Decode, WellFormedUtf16, RStrip, Padding, ParsePlain;
    var u := Utf16Encode(s);
    var b := UnitBytes(u);
    EmptyUnits();
    if s != "" {
      Utf16EncodeLast(s);
      UnitBytesLast(u);
    }
    StripPadded(s, k);
    ParsePlainRoundTrip(s, k);
    var whole := b + Padding<byte>(0, 2 * k);
    assert RStrip(whole, 0) == b;
    assert |b| % 2 == 0;
  }

  /**
   * text/plain: the UTF-16BE encoding of a str padded with NUL characters decodes to exactly
   * that str; None and b'' are returned as they are.
   */
  lemma FormatPlainRoundTrip(s: string, k: nat)
    requires s == "" || s[|s| - 1] != '\0'
    requires |s| + k > 0
    ensures FormatValue(Some(UnitBytes(Utf16Encode(s + Padding('\0', k)))), Some(TextPlain)) == Ok(Str(s))
    ensures FormatValue(None, Some(TextPlain)) == Ok(Null)
    ensures FormatValue(Some([]), Some(TextPlain)) == Ok(Bytes([]))
  {
    hide FormatValue, ParsePlain, ParsePlainAsWritten, Utf16Encode, UnitBytes, Padding;
    var raw := Some(UnitBytes(Utf16Encode(s + Padding('\0', k))));
    FormatPlain(raw);
    FormatPlain(None);
    FormatPlain(Some([]));
    ParsePlainRoundTrip(s, k);
  }

  /**
   * text/ascii: the UTF-8 encoding of a str that neither starts nor ends with NUL, padded with
   * NUL bytes on both sides, decodes to exactly that str; None has no strip method.
   */
  lemma FormatAsciiRoundTrip(s: string, a: nat, c: nat)
    requires s == "" || (s[0] != '\0' && s[|s| - 1] != '\0')
    ensures FormatValue(Some(Padding(0, a) + Utf8Encode(s) + Padding(0, c)), Some(TextAscii)) == Ok(Str(s))
    ensures FormatValue(None, Some(TextAscii)) == Err(AttributeError)
  {
    hide FormatValue, StripNul, Padding, Utf8Decode, ValidUtf8, ParsePlain;
    var e := Utf8Encode(s);
    if s != "" {
      Utf8EncodeEnds(s);
    }
    StripNulPadding(e, a, c);
    Utf8RoundTrip(s);
    FormatAscii(Some(Padding(0, a) + e + Padding(0, c)));
    FormatAscii(None);
  }

  lemma StripNulPadding(s: seq<byte>, a: nat, c: nat)
    requires s == [] || (s[0] != 0 && s[|s| - 1] != 0)
    ensures StripNul(Padding(0, a) + s + Padding(0, c)) == s
  {
    var pa: seq<byte> := Padding(0, a);
    var pc: seq<byte> := Padding(0, c);
    var t := pa + s + pc;
    if s == [] {
      assert t == Padding(0, a + c) + [];
      LStripPadding([], 0, a + c);
      assert LStrip(t, 0) == [];
    } else {
      var rest := s + pc;
      assert rest[0] == s[0];
      LStripPadding(rest, 0, a);
      assert t == pa + rest;
      assert LStrip(t, 0) == rest;
      RStripPadding(s, 0, c);
      assert RStrip(rest, 0) == s;
    }
  }

  /** text/ascii strips NUL bytes from both ends and decodes the rest as UTF-8. */
  lemma FormatAscii(raw: Option<seq<byte>>)
    ensures FormatValue(raw, Some(TextAscii))
            == if raw.None? then Err(AttributeError)
               else if ValidUtf8(StripNul(raw.value)) then Ok(Str(Utf8Decode(StripNul(raw.value))))
               else Err(UnicodeDecodeError)
  {
    hide ParsePlain, Leading, Unpack, StripNul, Utf8Decode, ValidUtf8;
    assert TextAscii != TextPlain && TextAscii != CalvinFloat;
    assert IntegerTag(TextAscii).None?;
  }

  /** The last code unit of the UTF-16 encoding of a str is the last unit of its last character. */
  lemma Utf16EncodeLastUnit(s: string)
    requires s != ""
    ensures var u := Utf16Encode(s); var l := Utf16Unit(s[|s| - 1]);
      u != [] && u[|u| - 1] == l[|l| - 1]
  {
    var init := s[..|s| - 1];
    assert s == init + [s[|s| - 1]];
    Utf16EncodeAppend(init, [s[|s| - 1]]);
    assert [s[|s| - 1]][1..] == "";
  }

  /** Fewer code units than the encoding of s cannot decode to s. */
  lemma ShorterDoesNotDecode(t: seq<byte>, s: string)
    requires |t| % 2 == 0 && |t| < |UnitBytes(Utf16Encode(s))|
    ensures !(WellFormedUtf16(Units(t)) && Utf16Decode(Units(t)) == s)
  {
    if WellFormedUtf16(Units(t)) && Utf16Decode(Units(t)) == s {
      Utf16EncodeDecode(Units(t));
    }
  }

  /** The UTF-16BE bytes of a str whose last character has a zero low byte end with a zero byte. */
  lemma LastByteZero(s: string)
    requires s != "" && s[|s| - 1] as int < 0x1_0000 && s[|s| - 1] as int % 256 == 0
    ensures var b := UnitBytes(Utf16Encode(s)); b != [] && b[|b| - 1] == 0
  {
    var u := Utf16Encode(s);
    Utf16EncodeLastUnit(s);
    UnitBytesLast(u);
  }

  /**
   * Finding: parse_2byte_string strips zero BYTES before decoding, so a str whose last
   * character has a zero low byte (U+0100, U+4E00, ...) loses that byte and is not decoded
   * back; stripping NUL characters after decoding keeps it.
   */
  lemma ParsePlainAsWrittenLosesUnit(s: string)
    requires s != "" && s[|s| - 1] != '\0'
    requires s[|s| - 1] as int < 0x1_0000 && s[|s| - 1] as int % 256 == 0
    ensures ParsePlainAsWritten(Some(UnitBytes(Utf16Encode(s)))) != Ok(Str(s))
    ensures ParsePlain(Some(UnitBytes(Utf16Encode(s)))) == Ok(Str(s))
  {
    hide Utf16Encode, UnitBytes, Utf16Decode, WellFormedUtf16;
    var b := UnitBytes(Utf16Encode(s));
    LastByteZero(s);
    var t := RStrip(b, 0);
    assert |t| < |b|;
    if |t| % 2 == 0 {
      ShorterDoesNotDecode(t, s);
    }
    ParsePlainRoundTrip(s, 0);
    assert s + Padding('\0', 0) == s;
  }

  /** The smallest instance: U+4E00 is the two bytes 4E 00, of which the code as written strips the second. */
  lemma ParsePlainAsWrittenExample()
    ensures ParsePlainAsWritten(Some([0x4E, 0x00])) == Err(UnicodeDecodeError)
  {
    var b: seq<byte> := [0x4E, 0x00];
    assert b == [0x4E] + Padding(0, 1);
    RStripPadding([0x4E], 0, 1);
  }

  /** ... while stripping NUL characters after decoding keeps U+4E00. */
  lemma ParsePlainExample()
    ensures ParsePlain(Some([0x4E, 0x00])) == Ok(Str("\U{4E00}"))
  {
    hide ParsePlain, Utf16Decode, WellFormedUtf16;
    ParsePlainAsWrittenLosesUnit("\U{4E00}");
    assert Utf16Encode("\U{4E00}") == [0x4E00];
    assert UnitBytes([0x4E00]) == [0x4E, 0x00];
  }
}
