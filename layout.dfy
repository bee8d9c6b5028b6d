/**
 * The Calvin generic data file layout as cel_file.py reads it: one pure function per
 * read_* method, from the byte source and the cursor position to the decoded value and
 * the cursor position after it (or the exception the read raises).
 */
module Layout {
  import opened Results
  import opened BigEndian
  import opened Values

  /** A decoded value and the file position after it. */
  datatype Parsed<+T> = Parsed(value: T, next: nat)

  /** The number of iterations of Python's range(k): a negative count means none. */
  function Count(k: int): nat
  {
    if k < 0 then 0 else k
  }

  /** Puts xs in front of a successfully read list; an exception passes through. */
  function Prepend<T>(xs: seq<T>, r: Result<Parsed<seq<T>>>): Result<Parsed<seq<T>>>
  {
    match r
    case Ok(p) => Ok(Parsed(xs + p.value, p.next))
    case Err(e) => Err(e)
  }

  lemma PrependNothing<T>(r: Result<Parsed<seq<T>>>)
    ensures Prepend([], r) == r
  {
    if r.Ok? { assert [] + r.value.value == r.value.value; }
  }

  lemma PrependTwice<T>(xs: seq<T>, ys: seq<T>, r: Result<Parsed<seq<T>>>)
    ensures Prepend(xs, Prepend(ys, r)) == Prepend(xs + ys, r)
  {
    if r.Ok? { assert xs + (ys + r.value.value) == (xs + ys) + r.value.value; }
  }

  // ---------------------------------------------------------------------------------------
  // Primitive reads

  /**
   * fp.read(n) at position p for a length the buffered reader accepts (n >= -1): at most n
   * bytes (all remaining ones for -1), fewer near the end of the file, none at or past it;
   * the position moves past what was read. A length below -1 raises ValueError instead
   * (see DataValueAt, the one read whose length comes from the file).
   */
  function ReadAt(data: seq<byte>, p: nat, n: int): (r: Parsed<seq<byte>>)
    requires n >= -1
    ensures r.next == p + |r.value|
    ensures n >= 0 ==> |r.value| <= n
    ensures 0 <= n && p + n <= |data| ==> r.value == data[p..p + n]
    ensures n == -1 && p <= |data| ==> r == Parsed(data[p..|data|], |data|)
  {
    var start := if p < |data| then p else |data|;
    var stop := if n < 0 || start + n > |data| then |data| else start + n;
    Parsed(data[start..stop], p + (stop - start))
  }

  /** struct.unpack of fp.read(n): fails with struct.error unless all n bytes were there. */
  function FixedAt(data: seq<byte>, p: nat, n: nat): (r: Result<Parsed<seq<byte>>>)
    requires n > 0
    ensures r.Ok? <==> p + n <= |data|
    ensures r.Ok? ==> r.value == Parsed(data[p..p + n], p + n)
  {
    if p + n <= |data| then Ok(Parsed(data[p..p + n], p + n)) else Err(StructError)
  }

  /** FixedAt is struct.unpack applied to what fp.read(n) returns. */
  lemma FixedAtReads(data: seq<byte>, p: nat, n: nat)
    requires n > 0
    ensures var b := ReadAt(data, p, n);
      FixedAt(data, p, n) == if |b.value| == n then Ok(b) else Err(StructError)
  {
  }

  function UnsignedAt(data: seq<byte>, p: nat, width: nat): (r: Result<Parsed<int>>)
    requires width > 0
    ensures r.Ok? <==> p + width <= |data|
    ensures r.Ok? ==> r.value.next == p + width && 0 <= r.value.value < Pow256(width)
  {
    var b :- FixedAt(data, p, width);
    Ok(Parsed(Unsigned(b.value), b.next))
  }

  function SignedAt(data: seq<byte>, p: nat, width: nat): (r: Result<Parsed<int>>)
    requires width > 0
    ensures r.Ok? <==> p + width <= |data|
    ensures r.Ok? ==> r.value.next == p + width
    ensures r.Ok? ==> -(Pow256(width) / 2) <= r.value.value < Pow256(width) / 2
  {
    var b :- FixedAt(data, p, width);
    Ok(Parsed(Signed(b.value), b.next))
  }

  /** read_ubyte: struct format 'B'. */
  function UByteAt(data: seq<byte>, p: nat): (r: Result<Parsed<int>>)
    ensures r.Ok? <==> p + 1 <= |data|
    ensures r.Ok? ==> r.value.next == p + 1 && 0 <= r.value.value <= 0xFF
  {
    Pow256Widths();
    UnsignedAt(data, p, 1)
  }

  /** read_byte: struct format 'b'. */
  function ByteAt(data: seq<byte>, p: nat): (r: Result<Parsed<int>>)
    ensures r.Ok? <==> p + 1 <= |data|
    ensures r.Ok? ==> r.value.next == p + 1 && -0x80 <= r.value.value <= 0x7F
  {
    Pow256Widths();
    SignedAt(data, p, 1)
  }

  /** read_ushort: struct format '>H'. */
  function UShortAt(data: seq<byte>, p: nat): (r: Result<Parsed<int>>)
    ensures r.Ok? <==> p + 2 <= |data|
    ensures r.Ok? ==> r.value.next == p + 2 && 0 <= r.value.value <= 0xFFFF
  {
    Pow256Widths();
    UnsignedAt(data, p, 2)
  }

  /** read_short: struct format '>h'. */
  function ShortAt(data: seq<byte>, p: nat): (r: Result<Parsed<int>>)
    ensures r.Ok? <==> p + 2 <= |data|
    ensures r.Ok? ==> r.value.next == p + 2 && -0x8000 <= r.value.value <= 0x7FFF
  {
    Pow256Widths();
    SignedAt(data, p, 2)
  }

  /** read_uint: struct format '>I'. */
  function UIntAt(data: seq<byte>, p: nat): (r: Result<Parsed<int>>)
    ensures r.Ok? <==> p + 4 <= |data|
    ensures r.Ok? ==> r.value.next == p + 4 && 0 <= r.value.value <= 0xFFFF_FFFF
  {
    Pow256Widths();
    UnsignedAt(data, p, 4)
  }

  /** read_int: struct format '>i'. */
  function IntAt(data: seq<byte>, p: nat): (r: Result<Parsed<int>>)
    ensures r.Ok? <==> p + 4 <= |data|
    ensures r.Ok? ==> r.value.next == p + 4 && -0x8000_0000 <= r.value.value <= 0x7FFF_FFFF
  {
    Pow256Widths();
    SignedAt(data, p, 4)
  }

  /** read_float: struct format '>f', kept as its four bytes. */
  function FloatAt(data: seq<byte>, p: nat): (r: Result<Parsed<Value>>)
    ensures r.Ok? <==> p + 4 <= |data|
    ensures r.Ok? ==> r.value == Parsed(Float32(data[p..p + 4]), p + 4)
    ensures r.Err? ==> r.error == StructError
  {
    var b :- FixedAt(data, p, 4);
    Ok(Parsed(Float32(b.value), b.next))
  }

  /**
   * read_double as written: the four bytes fp.read(4) returns go to the eight-byte format
   * '>d', which struct.unpack refuses whatever the file holds.
   */
  function DoubleAtAsWritten(data: seq<byte>, p: nat): (r: Result<Parsed<Value>>)
    ensures r == Err(StructError)
  {
    var b := ReadAt(data, p, 4);
    if |b.value| == 8 then Ok(Parsed(Float64(b.value), b.next)) else Err(StructError)
  }

  /** read_double as evidently intended: struct format '>d' on eight bytes, kept as those bytes. */
  function DoubleAt(data: seq<byte>, p: nat): (r: Result<Parsed<Value>>)
    ensures r.Ok? <==> p + 8 <= |data|
    ensures r.Ok? ==> r.value == Parsed(Float64(data[p..p + 8]), p + 8)
    ensures r.Err? ==> r.error == StructError
  {
    var b :- FixedAt(data, p, 8);
    Ok(Parsed(Float64(b.value), b.next))
  }

  /**
   * Finding: read_double as written fails on every input, even one that holds a whole double;
   * the eight-byte read returns that double's bytes and moves past them.
   */
  lemma DoubleAtFinding(data: seq<byte>, p: nat)
    ensures DoubleAtAsWritten(data, p) == Err(StructError)
    ensures DoubleAt(data, p).Ok? <==> p + 8 <= |data|
    ensures p + 8 <= |data| ==> DoubleAt(data, p) == Ok(Parsed(Float64(data[p..p + 8]), p + 8))
  {
  }

  // ---------------------------------------------------------------------------------------
  // Length-prefixed strings

  /**
   * read_string: an i32 count, then that many single bytes. A zero count is None; a
   * negative count reads nothing and gives b''.
   */
  function ByteStringAt(data: seq<byte>, p: nat): (r: Result<Parsed<Option<seq<byte>>>>)
    ensures r.Err? <==> p + 4 > |data| || p + 4 + IntAt(data, p).value.value > |data|
    ensures r.Err? ==> r.error == StructError
    ensures r.Ok? ==> var n := IntAt(data, p).value.value;
      && (n == 0 ==> r.value == Parsed(None, p + 4))
      && (n < 0 ==> r.value == Parsed(Some([]), p + 4))
      && (n > 0 ==> r.value == Parsed(Some(data[p + 4..p + 4 + n]), p + 4 + n))
  {
    var size :- IntAt(data, p);
    if size.value == 0 then Ok(Parsed(None, size.next))
    else if size.value < 0 then Ok(Parsed(Some([]), size.next))
    else
      var s :- FixedAt(data, size.next, size.value);
      Ok(Parsed(Some(s.value), s.next))
  }

  /**
   * read_wchar: two bytes decoded on their own as UTF-16BE. At the end of the file the
   * read is empty and decodes to ''; a single byte, or a surrogate code unit, is rejected.
   */
  function WCharAt(data: seq<byte>, p: nat): (r: Result<Parsed<string>>)
    ensures r.Ok? ==> |r.value.value| <= 1 && r.value.next == p + 2 * |r.value.value|
  {
    if p + 2 <= |data| then
      Pow256Widths();
      var u := Unsigned(data[p..p + 2]);
      if 0xD800 <= u < 0xE000 then Err(UnicodeDecodeError)
      else Ok(Parsed([u as char], p + 2))
    else if p + 1 == |data| then Err(UnicodeDecodeError)
    else Ok(Parsed("", p))
  }

  /** WCharAt decodes what fp.read(2) returns: nothing is '', one byte is an error. */
  lemma WCharAtReads(data: seq<byte>, p: nat)
    ensures var b := ReadAt(data, p, 2);
      WCharAt(data, p) ==
        if |b.value| == 0 then Ok(Parsed("", b.next))
        else if |b.value| == 1 then Err(UnicodeDecodeError)
        else if 0xD800 <= Unsigned(b.value) < 0xE000 then Err(UnicodeDecodeError)
        else Ok(Parsed([Unsigned(b.value) as char], b.next))
  {
    Pow256Widths();
  }

  /** The k read_wchar calls of read_wstring, joined. */
  function WCharsFrom(data: seq<byte>, p: nat, k: int): (r: Result<Parsed<string>>)
    ensures r.Ok? ==> r.value.next == p + 2 * |r.value.value| && |r.value.value| <= Count(k)
    ensures r.Ok? && |r.value.value| < Count(k) ==> r.value.next >= |data|
    ensures r.Err? ==> r.error == UnicodeDecodeError
    decreases k
  {
    if k <= 0 then Ok(Parsed("", p))
    else
      var c :- WCharAt(data, p);
      Prepend(c.value, WCharsFrom(data, c.next, k - 1))
  }

  /** read_wstring: an i32 count of UTF-16 code units, then the units. A zero count is None. */
  function WStringAt(data: seq<byte>, p: nat): (r: Result<Parsed<Option<string>>>)
    ensures p + 4 > |data| ==> r == Err(StructError)
    ensures p + 4 <= |data| && r.Err? ==> r.error == UnicodeDecodeError
    ensures r.Ok? ==> (r.value.value.None? <==> IntAt(data, p).value.value == 0)
    ensures r.Ok? && r.value.value.None? ==> r.value.next == p + 4
    ensures r.Ok? && r.value.value.Some? ==>
      && r.value.next == p + 4 + 2 * |r.value.value.value|
      && |r.value.value.value| <= Count(IntAt(data, p).value.value)
  {
    var size :- IntAt(data, p);
    if size.value == 0 then Ok(Parsed(None, size.next))
    else
      var s :- WCharsFrom(data, size.next, size.value);
      Ok(Parsed(Some(s.value), s.next))
  }

  // ---------------------------------------------------------------------------------------
  // Parameters

  /** One (name, type, value) triple of read_parameter, the value already formatted. */
  datatype Parameter = Parameter(name: Option<string>, tag: Option<string>, value: Value)

  /** The {'type': ..., 'value': ...} entry a parameter name maps to. */
  datatype TypedValue = TypedValue(tag: Option<string>, value: Value)

  type Parameters = map<Option<string>, TypedValue>

  /** read_parameter: wide-string name, byte-string value, wide-string type, then format_value. */
  function ParameterAt(data: seq<byte>, p: nat): (r: Result<Parsed<Parameter>>)
    ensures r.Ok? ==> r.value.next >= p + 12
    ensures r.Ok? && !KnownTag(r.value.value.tag) ==> r.value.value.value.Null? || r.value.value.value.Bytes?
    ensures r.Err? ==> r.error in {StructError, UnicodeDecodeError, TypeError, AttributeError}
  {
    var name :- WStringAt(data, p);
    var raw :- ByteStringAt(data, name.next);
    var tag :- WStringAt(data, raw.next);
    var v :- FormatValue(raw.value, tag.value);
    Ok(Parsed(Parameter(name.value, tag.value, v), tag.next))
  }

  /** The loop of read_parameters: k parameters in file order. */
  function ParameterListFrom(data: seq<byte>, p: nat, k: int): (r: Result<Parsed<seq<Parameter>>>)
    ensures r.Ok? ==> |r.value.value| == Count(k)
    ensures r.Ok? ==> r.value.next >= p + 12 * Count(k)
    ensures r.Err? ==> r.error in {StructError, UnicodeDecodeError, TypeError, AttributeError}
    decreases k
  {
    if k <= 0 then Ok(Parsed([], p))
    else
      var x :- ParameterAt(data, p);
      Prepend([x.value], ParameterListFrom(data, x.next, k - 1))
  }

  /** The dict comprehension of read_parameters: later entries overwrite earlier ones. */
  function ParamMap(ps: seq<Parameter>): (r: Parameters)
    ensures |r| <= |ps|
    ensures ps != [] ==> ps[|ps| - 1].name in r
  {
    if ps == [] then map[]
    else
      var last := ps[|ps| - 1];
      ParamMap(ps[..|ps| - 1])[last.name := TypedValue(last.tag, last.value)]
  }

  /** read_parameters: an i32 count, then that many parameters, keyed by name. */
  function ParametersAt(data: seq<byte>, p: nat): (r: Result<Parsed<Parameters>>)
    ensures p + 4 > |data| ==> r == Err(StructError)
    ensures r.Ok? ==> |r.value.value| <= Count(IntAt(data, p).value.value)
    ensures r.Ok? ==> r.value.next >= p + 4 + 12 * |r.value.value|
    ensures r.Err? ==> r.error in {StructError, UnicodeDecodeError, TypeError, AttributeError}
  {
    var count :- IntAt(data, p);
    var ps :- ParameterListFrom(data, count.next, count.value);
    Ok(Parsed(ParamMap(ps.value), ps.next))
  }

  // ---------------------------------------------------------------------------------------
  // Generic headers and the file header

  /** The dict read_data_header builds. */
  datatype Header = Header(
    uid: Value, guid: Value, datetime: Option<string>, locale: Option<string>,
    parameters: Parameters)

  /** `if x: x = x.decode('utf-8')` on a byte string: None and b'' stay as they are. */
  function DecodeIfTruthy(raw: Option<seq<byte>>): (r: Result<Value>)
  {
    match raw
    case None => Ok(Null)
    case Some(b) =>
      if b == [] then Ok(Bytes([]))
      else
        var s :- DecodeUtf8(b);
        Ok(Str(s))
  }

  /**
   * `if x: x = x.decode('utf-8')` on the datetime, as written: read_wstring already gave a
   * str, which has no decode method, so any non-empty datetime raises AttributeError.
   */
  function DecodeDatetimeAsWritten(dt: Option<string>): (r: Result<Option<string>>)
  {
    if dt.Some? && dt.value != "" then Err(AttributeError) else Ok(dt)
  }

  /**
   * read_data_header as written: uid, guid and datetime are read, the three are decoded in
   * that order (the datetime raising AttributeError unless empty), then locale and parameters.
   */
  function HeaderAtAsWritten(data: seq<byte>, p: nat): (r: Result<Parsed<Header>>)
    ensures r.Ok? ==> r == HeaderAt(data, p) && r.value.value.datetime in {None, Some("")}
    ensures HeaderAt(data, p).Ok? ==>
      r == if HeaderAt(data, p).value.value.datetime in {None, Some("")} then HeaderAt(data, p) else Err(AttributeError)
  {
    var uid :- ByteStringAt(data, p);
    var guid :- ByteStringAt(data, uid.next);
    var dt :- WStringAt(data, guid.next);
    var u :- DecodeIfTruthy(uid.value);
    var g :- DecodeIfTruthy(guid.value);
    var datetime :- DecodeDatetimeAsWritten(dt.value);
    var locale :- WStringAt(data, dt.next);
    var params :- ParametersAt(data, locale.next);
    Ok(Parsed(Header(u, g, datetime, locale.value, params.value), params.next))
  }

  /**
   * read_data_header as evidently intended: the same reads and decodes, the datetime kept as
   * the str read_wstring returned.
   */
  function HeaderAt(data: seq<byte>, p: nat): (r: Result<Parsed<Header>>)
    ensures p + 4 > |data| ==> r == Err(StructError)
    ensures r.Ok? ==> r.value.next >= p + 20
    ensures r.Ok? ==> var h := r.value.value;
      && (h.uid.Null? || h.uid.Str? || h.uid == Bytes([]))
      && (h.guid.Null? || h.guid.Str? || h.guid == Bytes([]))
    ensures r.Err? ==> r.error in {StructError, UnicodeDecodeError, TypeError, AttributeError}
  {
    var uid :- ByteStringAt(data, p);
    var guid :- ByteStringAt(data, uid.next);
    var dt :- WStringAt(data, guid.next);
    var u :- DecodeIfTruthy(uid.value);
    var g :- DecodeIfTruthy(guid.value);
    var locale :- WStringAt(data, dt.next);
    var params :- ParametersAt(data, locale.next);
    Ok(Parsed(Header(u, g, dt.value, locale.value, params.value), params.next))
  }

  /** The loop of read_parent_header and read_extra: k headers in file order. */
  function HeadersFrom(data: seq<byte>, p: nat, k: int): (r: Result<Parsed<seq<Header>>>)
    ensures r.Ok? ==> |r.value.value| == Count(k)
    ensures r.Ok? ==> r.value.next >= p + 20 * Count(k)
    decreases k
  {
    if k <= 0 then Ok(Parsed([], p))
    else
      var h :- HeaderAt(data, p);
      Prepend([h.value], HeadersFrom(data, h.next, k - 1))
  }

  /** read_parent_header and read_extra: an i32 count, then that many headers. */
  function HeaderBlockAt(data: seq<byte>, p: nat): (r: Result<Parsed<seq<Header>>>)
    ensures p + 4 > |data| ==> r == Err(StructError)
    ensures r.Ok? ==> |r.value.value| == Count(IntAt(data, p).value.value)
    ensures r.Ok? ==> r.value.next >= p + 4 + 20 * |r.value.value|
  {
    var count :- IntAt(data, p);
    HeadersFrom(data, count.next, count.value)
  }

  /** The fields read_file_header sets. */
  datatype FileHeader = FileHeader(magic: int, version: int, groupNum: int, groupPos: int)

  /** read_file_header: from offset 0, ubyte magic, ubyte version, i32 group count, u32 offset. */
  function FileHeaderAt(data: seq<byte>): (r: Result<Parsed<FileHeader>>)
    ensures r.Ok? <==> |data| >= 10
    ensures r.Err? ==> r.error == StructError
    ensures r.Ok? ==> var h := r.value.value;
      && r.value.next == 10
      && 0 <= h.magic <= 0xFF && 0 <= h.version <= 0xFF
      && -0x8000_0000 <= h.groupNum <= 0x7FFF_FFFF && 0 <= h.groupPos <= 0xFFFF_FFFF
  {
    var magic :- UByteAt(data, 0);
    var version :- UByteAt(data, magic.next);
    var num :- IntAt(data, version.next);
    var pos :- UIntAt(data, num.next);
    Ok(Parsed(FileHeader(magic.value, version.value, num.value, pos.value), pos.next))
  }

  /** Everything CelFile.__init__ reads. */
  datatype Preamble = Preamble(file: FileHeader, header: Header, parents: seq<Header>, extra: seq<Header>)

  function PreambleAt(data: seq<byte>): (r: Result<Parsed<Preamble>>)
    ensures |data| < 10 ==> r == Err(StructError)
    ensures r.Ok? ==> FileHeaderAt(data).Ok? && r.value.value.file == FileHeaderAt(data).value.value
    ensures r.Ok? ==> r.value.next >= 38 + 20 * (|r.value.value.parents| + |r.value.value.extra|)
  {
    var file :- FileHeaderAt(data);
    var header :- HeaderAt(data, file.next);
    var parents :- HeaderBlockAt(data, header.next);
    var extra :- HeaderBlockAt(data, parents.next);
    Ok(Parsed(Preamble(file.value, header.value, parents.value, extra.value), extra.next))
  }

  // ---------------------------------------------------------------------------------------
  // Data values and tables

  /** One entry of col_format: wide-string name, signed byte type code, i32 size. */
  datatype ColumnSpec = ColumnSpec(name: Option<string>, typeCode: int, size: int)

  function ColumnAt(data: seq<byte>, p: nat): (r: Result<Parsed<ColumnSpec>>)
    ensures r.Ok? ==> r.value.next >= p + 9
    ensures r.Ok? ==> -0x80 <= r.value.value.typeCode <= 0x7F && -0x8000_0000 <= r.value.value.size <= 0x7FFF_FFFF
    ensures r.Err? ==> r.error in {StructError, UnicodeDecodeError}
  {
    var name :- WStringAt(data, p);
    var t :- ByteAt(data, name.next);
    var size :- IntAt(data, t.next);
    Ok(Parsed(ColumnSpec(name.value, t.value, size.value), size.next))
  }

  /** The col_format loop of read_data_set. */
  function ColumnsFrom(data: seq<byte>, p: nat, k: int): (r: Result<Parsed<seq<ColumnSpec>>>)
    ensures r.Ok? ==> |r.value.value| == Count(k)
    ensures r.Err? ==> r.error in {StructError, UnicodeDecodeError}
    decreases k
  {
    if k <= 0 then Ok(Parsed([], p))
    else
      var c :- ColumnAt(data, p);
      Prepend([c.value], ColumnsFrom(data, c.next, k - 1))
  }

  /** Bytes a cell of a fixed-width type code occupies; byte and wide strings have no fixed width. */
  function FixedWidth(typeCode: int): Option<nat>
  {
    if typeCode == 0 || typeCode == 1 then Some(1)
    else if typeCode == 2 || typeCode == 3 then Some(2)
    else if typeCode == 4 || typeCode == 5 || typeCode == 6 then Some(4)
    else None
  }

  /** The range of the integers type codes 0 to 5 decode to. */
  predicate CellInRange(typeCode: int, v: Value)
  {
    match typeCode
    case 0 => v.Int? && -0x80 <= v.i <= 0x7F
    case 1 => v.Int? && 0 <= v.i <= 0xFF
    case 2 => v.Int? && -0x8000 <= v.i <= 0x7FFF
    case 3 => v.Int? && 0 <= v.i <= 0xFFFF
    case 4 => v.Int? && -0x8000_0000 <= v.i <= 0x7FFF_FFFF
    case 5 => v.Int? && 0 <= v.i <= 0xFFFF_FFFF
    case 6 => v.Float32? && |v.bits| == 4
    case _ => true
  }

  /**
   * read_data_value: type codes 0 to 8 are int8, uint8, int16, uint16, int32, uint32, float32,
   * byte string and wide string; any other code reads `size` raw bytes, where a size below -1
   * makes fp.read raise ValueError and -1 reads the rest of the file.
   */
  function DataValueAt(data: seq<byte>, p: nat, typeCode: int, size: int): (r: Result<Parsed<Value>>)
    ensures FixedWidth(typeCode).Some? ==>
      (r.Ok? <==> p + FixedWidth(typeCode).value <= |data|) &&
      (r.Ok? ==> r.value.next == p + FixedWidth(typeCode).value && CellInRange(typeCode, r.value.value))
    ensures !(0 <= typeCode <= 8) && 0 <= size && p + size <= |data| ==>
      r == Ok(Parsed(Bytes(data[p..p + size]), p + size))
    ensures !(0 <= typeCode <= 8) && size == -1 && p <= |data| ==>
      r == Ok(Parsed(Bytes(data[p..|data|]), |data|))
    ensures !(0 <= typeCode <= 8) ==> (r.Err? <==> size < -1) && (r.Err? ==> r.error == ValueError)
    ensures r.Err? ==> r.error in {StructError, UnicodeDecodeError, ValueError}
  {
    if typeCode == 0 then var v :- ByteAt(data, p); Ok(Parsed(Int(v.value), v.next))
    else if typeCode == 1 then var v :- UByteAt(data, p); Ok(Parsed(Int(v.value), v.next))
    else if typeCode == 2 then var v :- ShortAt(data, p); Ok(Parsed(Int(v.value), v.next))
    else if typeCode == 3 then var v :- UShortAt(data, p); Ok(Parsed(Int(v.value), v.next))
    else if typeCode == 4 then var v :- IntAt(data, p); Ok(Parsed(Int(v.value), v.next))
    else if typeCode == 5 then var v :- UIntAt(data, p); Ok(Parsed(Int(v.value), v.next))
    else if typeCode == 6 then FloatAt(data, p)
    else if typeCode == 7 then var s :- ByteStringAt(data, p); Ok(Parsed(OfBytes(s.value), s.next))
    else if typeCode == 8 then var s :- WStringAt(data, p); Ok(Parsed(OfWide(s.value), s.next))
    else if size < -1 then Err(ValueError)
    else var b := ReadAt(data, p, size); Ok(Parsed(Bytes(b.value), b.next))
  }

  /** The inner loop of read_data: one cell per column, in column order. */
  function RowFrom(data: seq<byte>, p: nat, cols: seq<ColumnSpec>): (r: Result<Parsed<seq<Value>>>)
    ensures r.Ok? ==> |r.value.value| == |cols|
    ensures r.Err? ==> r.error in {StructError, UnicodeDecodeError, ValueError}
    decreases |cols|
  {
    if cols == [] then Ok(Parsed([], p))
    else
      var v :- DataValueAt(data, p, cols[0].typeCode, cols[0].size);
      Prepend([v.value], RowFrom(data, v.next, cols[1..]))
  }

  /** The outer loop of read_data: k rows, row after row. */
  function RowsFrom(data: seq<byte>, p: nat, cols: seq<ColumnSpec>, k: int): (r: Result<Parsed<seq<seq<Value>>>>)
    ensures r.Ok? ==> |r.value.value| == Count(k)
    ensures r.Ok? ==> forall i :: 0 <= i < |r.value.value| ==> |r.value.value[i]| == |cols|
    ensures r.Err? ==> r.error in {StructError, UnicodeDecodeError, ValueError}
    decreases k
  {
    if k <= 0 then Ok(Parsed([], p))
    else
      var row :- RowFrom(data, p, cols);
      Prepend([row.value], RowsFrom(data, row.next, cols, k - 1))
  }

  /** The dict of read_data: column name to the list of that column's cells. */
  type Table = map<Option<string>, seq<Value>>

  /** `data[name] = []` for every column. */
  function EmptyColumns(cols: seq<ColumnSpec>): (r: Table)
    ensures forall j :: 0 <= j < |cols| ==> cols[j].name in r
  {
    if cols == [] then map[]
    else EmptyColumns(cols[..|cols| - 1])[cols[|cols| - 1].name := []]
  }

  /** `data[name].append(value)` for each column of one row, in column order. */
  function AppendRow(t: Table, cols: seq<ColumnSpec>, row: seq<Value>): (r: Table)
    requires |row| == |cols|
    ensures t.Keys <= r.Keys
    ensures forall j :: 0 <= j < |cols| ==> cols[j].name in r
  {
    if cols == [] then t
    else
      var u := AppendRow(t, cols[..|cols| - 1], row[..|row| - 1]);
      var name := cols[|cols| - 1].name;
      u[name := (if name in u then u[name] else []) + [row[|row| - 1]]]
  }

  /** The dict read_data returns after appending the given rows. */
  function TableOf(cols: seq<ColumnSpec>, rows: seq<seq<Value>>): (r: Table)
    requires forall i :: 0 <= i < |rows| ==> |rows[i]| == |cols|
    ensures forall j :: 0 <= j < |cols| ==> cols[j].name in r
  {
    if rows == [] then EmptyColumns(cols)
    else AppendRow(TableOf(cols, rows[..|rows| - 1]), cols, rows[|rows| - 1])
  }

  /** read_data: seek to the first element, read k rows of the columns, and tabulate them. */
  function DataAt(data: seq<byte>, elePos: nat, cols: seq<ColumnSpec>, k: int): (r: Result<Parsed<Table>>)
    ensures r.Ok? <==> RowsFrom(data, elePos, cols, k).Ok?
    ensures r.Err? ==> r.error == RowsFrom(data, elePos, cols, k).error
    ensures r.Ok? ==> forall j :: 0 <= j < |cols| ==> cols[j].name in r.value.value
  {
    var rows :- RowsFrom(data, elePos, cols, k);
    Ok(Parsed(TableOf(cols, rows.value), rows.next))
  }

  /** A pass of the row loop that reads a row: the rest of the loop starts after it. */
  lemma RowsNext(data: seq<byte>, start: nat, cols: seq<ColumnSpec>, k: int, rows: seq<seq<Value>>, p: nat, left: int)
    requires left > 0
    requires RowsFrom(data, start, cols, k) == Prepend(rows, RowsFrom(data, p, cols, left))
    requires RowFrom(data, p, cols).Ok?
    ensures RowsFrom(data, start, cols, k)
      == Prepend(rows + [RowFrom(data, p, cols).value.value], RowsFrom(data, RowFrom(data, p, cols).value.next, cols, left - 1))
  {
    var row := RowFrom(data, p, cols).value;
    PrependTwice(rows, [row.value], RowsFrom(data, row.next, cols, left - 1));
  }

  /** A pass of the row loop whose row fails: the whole loop fails with that error. */
  lemma RowsFail(data: seq<byte>, start: nat, cols: seq<ColumnSpec>, k: int, rows: seq<seq<Value>>, p: nat, left: int)
    requires left > 0
    requires RowsFrom(data, start, cols, k) == Prepend(rows, RowsFrom(data, p, cols, left))
    requires RowFrom(data, p, cols).Err?
    ensures RowsFrom(data, start, cols, k) == Err(RowFrom(data, p, cols).error)
  {
  }

  /** The row loop after its last pass: the rows read so far. */
  lemma RowsDone(data: seq<byte>, start: nat, cols: seq<ColumnSpec>, k: int, rows: seq<seq<Value>>, p: nat, left: int)
    requires left <= 0
    requires RowsFrom(data, start, cols, k) == Prepend(rows, RowsFrom(data, p, cols, left))
    ensures RowsFrom(data, start, cols, k) == Ok(Parsed(rows, p))
  {
    assert rows + [] == rows;
  }

  /** One more row appends one cell to every column. */
  lemma TableOfAppend(cols: seq<ColumnSpec>, rows: seq<seq<Value>>, row: seq<Value>)
    requires forall i :: 0 <= i < |rows| ==> |rows[i]| == |cols|
    requires |row| == |cols|
    ensures TableOf(cols, rows + [row]) == AppendRow(TableOf(cols, rows), cols, row)
  {
    assert (rows + [row])[..|rows|] == rows;
  }

  // ---------------------------------------------------------------------------------------
  // Data sets and data groups

  /** The file position and the two offsets CelFile keeps: fp, group_pos and data_set_pos. */
  datatype Cursor = Cursor(pos: nat, groupPos: nat, dataSetPos: nat)

  /** A decoded value and the cursor state after it. */
  datatype Moved<+T> = Moved(value: T, cur: Cursor)

  function PrependMoved<T>(xs: seq<T>, r: Result<Moved<seq<T>>>): Result<Moved<seq<T>>>
  {
    match r
    case Ok(m) => Ok(Moved(xs + m.value, m.cur))
    case Err(e) => Err(e)
  }

  lemma PrependMovedNothing<T>(r: Result<Moved<seq<T>>>)
    ensures PrependMoved([], r) == r
  {
    if r.Ok? { assert [] + r.value.value == r.value.value; }
  }

  lemma PrependMovedTwice<T>(xs: seq<T>, ys: seq<T>, r: Result<Moved<seq<T>>>)
    ensures PrependMoved(xs, PrependMoved(ys, r)) == PrependMoved(xs + ys, r)
  {
    if r.Ok? { assert xs + (ys + r.value.value) == (xs + ys) + r.value.value; }
  }

  /** The dict read_data_set builds. */
  datatype DataSet = DataSet(
    name: Option<string>, params: Parameters, col: nat, colFormat: seq<ColumnSpec>,
    row: nat, data: Table)

  /** The dict read_data_group builds. */
  datatype Group = Group(dataSetCount: int, name: Option<string>, dataSets: seq<DataSet>)

  /**
   * read_data_set: seek to data_set_pos; read the first-element offset and the next data-set
   * offset (which becomes data_set_pos), the name, the parameters, the u32 column count, the
   * columns and the u32 row count; then read the cells at the first-element offset.
   */
  function DataSetAt(data: seq<byte>, c: Cursor): (r: Result<Moved<DataSet>>)
    ensures c.dataSetPos + 8 > |data| ==> r == Err(StructError)
    ensures r.Ok? ==> var d := r.value.value;
      && |d.colFormat| == d.col && d.col <= 0xFFFF_FFFF && d.row <= 0xFFFF_FFFF
      && (forall j :: 0 <= j < |d.colFormat| ==> d.colFormat[j].name in d.data)
    ensures r.Err? ==> r.error in {StructError, UnicodeDecodeError, TypeError, AttributeError, ValueError}
  {
    var ele :- UIntAt(data, c.dataSetPos);
    var nxt :- UIntAt(data, ele.next);
    var name :- WStringAt(data, nxt.next);
    var params :- ParametersAt(data, name.next);
    var col :- UIntAt(data, params.next);
    var fmt :- ColumnsFrom(data, col.next, col.value);
    var row :- UIntAt(data, fmt.next);
    var cells :- DataAt(data, ele.value, fmt.value, row.value);
    Ok(Moved(DataSet(name.value, params.value, col.value, fmt.value, row.value, cells.value),
             Cursor(cells.next, c.groupPos, nxt.value)))
  }

  /** The data-set loop of read_data_group: k data sets, each at the offset the previous one stored. */
  function DataSetsFrom(data: seq<byte>, c: Cursor, k: int): (r: Result<Moved<seq<DataSet>>>)
    ensures r.Ok? ==> |r.value.value| == Count(k)
    decreases k
  {
    if k <= 0 then Ok(Moved([], c))
    else
      var d :- DataSetAt(data, c);
      PrependMoved([d.value], DataSetsFrom(data, d.cur, k - 1))
  }

  /**
   * read_data_group: at the current position, the next-group offset (stored in group_pos,
   * never used for a seek), the first data-set offset (stored in data_set_pos), the i32
   * data-set count and the name; then that many data sets.
   */
  function GroupAt(data: seq<byte>, c: Cursor): (r: Result<Moved<Group>>)
    ensures c.pos + 12 > |data| ==> r == Err(StructError)
    ensures r.Ok? ==> var g := r.value.value;
      |g.dataSets| == Count(g.dataSetCount) && -0x8000_0000 <= g.dataSetCount <= 0x7FFF_FFFF
  {
    var gp :- UIntAt(data, c.pos);
    var dp :- UIntAt(data, gp.next);
    var count :- IntAt(data, dp.next);
    var name :- WStringAt(data, count.next);
    var sets :- DataSetsFrom(data, Cursor(name.next, gp.value, dp.value), count.value);
    Ok(Moved(Group(count.value, name.value, sets.value), sets.cur))
  }

  /** The group loop of read_data_groups: k groups, each read from where the previous one left the file. */
  function GroupsFrom(data: seq<byte>, c: Cursor, k: int): (r: Result<Moved<seq<Group>>>)
    ensures r.Ok? ==> |r.value.value| == Count(k)
    decreases k
  {
    if k <= 0 then Ok(Moved([], c))
    else
      var g :- GroupAt(data, c);
      PrependMoved([g.value], GroupsFrom(data, g.cur, k - 1))
  }

  /**
   * A pass of the data-set loop that reads a data set: the rest of the loop starts where it
   * left the cursor. The loop lemmas below count the passes left, as the methods do.
   */
  lemma DataSetsNext(data: seq<byte>, start: Cursor, k: int, sets: seq<DataSet>, c: Cursor, left: int)
    requires left > 0
    requires DataSetsFrom(data, start, k) == PrependMoved(sets, DataSetsFrom(data, c, left))
    requires DataSetAt(data, c).Ok?
    ensures DataSetsFrom(data, start, k)
      == PrependMoved(sets + [DataSetAt(data, c).value.value], DataSetsFrom(data, DataSetAt(data, c).value.cur, left - 1))
  {
    var d := DataSetAt(data, c).value;
    PrependMovedTwice(sets, [d.value], DataSetsFrom(data, d.cur, left - 1));
  }

  /** A pass of the data-set loop whose data set fails: the whole loop fails the same way. */
  lemma DataSetsFail(data: seq<byte>, start: Cursor, k: int, sets: seq<DataSet>, c: Cursor, left: int)
    requires left > 0
    requires DataSetsFrom(data, start, k) == PrependMoved(sets, DataSetsFrom(data, c, left))
    requires DataSetAt(data, c).Err?
    ensures DataSetsFrom(data, start, k) == Err(DataSetAt(data, c).error)
  {
  }

  /** The data-set loop after its last pass. */
  lemma DataSetsDone(data: seq<byte>, start: Cursor, k: int, sets: seq<DataSet>, c: Cursor, left: int)
    requires left <= 0
    requires DataSetsFrom(data, start, k) == PrependMoved(sets, DataSetsFrom(data, c, left))
    ensures DataSetsFrom(data, start, k) == Ok(Moved(sets, c))
  {
    assert sets + [] == sets;
  }

  /** A pass of the group loop that reads a group. */
  lemma GroupsNext(data: seq<byte>, start: Cursor, k: int, groups: seq<Group>, c: Cursor, left: int)
    requires left > 0
    requires GroupsFrom(data, start, k) == PrependMoved(groups, GroupsFrom(data, c, left))
    requires GroupAt(data, c).Ok?
    ensures GroupsFrom(data, start, k)
      == PrependMoved(groups + [GroupAt(data, c).value.value], GroupsFrom(data, GroupAt(data, c).value.cur, left - 1))
  {
    var g := GroupAt(data, c).value;
    PrependMovedTwice(groups, [g.value], GroupsFrom(data, g.cur, left - 1));
  }

  /** A pass of the group loop whose group fails. */
  lemma GroupsFail(data: seq<byte>, start: Cursor, k: int, groups: seq<Group>, c: Cursor, left: int)
    requires left > 0
    requires GroupsFrom(data, start, k) == PrependMoved(groups, GroupsFrom(data, c, left))
    requires GroupAt(data, c).Err?
    ensures GroupsFrom(data, start, k) == Err(GroupAt(data, c).error)
  {
  }

  /** The group loop after its last pass. */
  lemma GroupsDone(data: seq<byte>, start: Cursor, k: int, groups: seq<Group>, c: Cursor, left: int)
    requires left <= 0
    requires GroupsFrom(data, start, k) == PrependMoved(groups, GroupsFrom(data, c, left))
    ensures GroupsFrom(data, start, k) == Ok(Moved(groups, c))
  {
    assert groups + [] == groups;
  }

  /** read_data_groups: seek once to group_pos, then read group_num groups. */
  function DataGroupsAt(data: seq<byte>, c: Cursor, groupNum: int): (r: Result<Moved<seq<Group>>>)
    ensures r.Ok? ==> |r.value.value| == Count(groupNum)
    ensures groupNum <= 0 ==> r == Ok(Moved([], c.(pos := c.groupPos)))
  {
    GroupsFrom(data, c.(pos := c.groupPos), groupNum)
  }
}
