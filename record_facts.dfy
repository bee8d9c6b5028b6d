/**
 * Round trips for the records cel_file.py reads field by field: the file header, a parameter,
 * a column description, an integer cell, and the header blocks of read_parent_header and
 * read_extra. Each states what a writer must store for the read to give the record back.
 */
module RecordFacts {
  import opened Results
  import opened BigEndian
  import opened Unicode
  import opened Values
  import opened Layout
  import opened LayoutFacts

  // ---------------------------------------------------------------------------------------
  // The file header

  /** The ranges of the four fields of the file header: two bytes, an i32 and a u32. */
  predicate StorableFileHeader(h: FileHeader)
  {
    && 0 <= h.magic < 0x100 && 0 <= h.version < 0x100
    && -0x8000_0000 <= h.groupNum < 0x8000_0000 && 0 <= h.groupPos < 0x1_0000_0000
  }

  /** How a writer stores the file header at offset 0. */
  function FileHeaderBytes(h: FileHeader): (b: seq<byte>)
    requires StorableFileHeader(h)
    ensures |b| == 10
  {
    Pow256Widths();
    EncodeUnsigned(h.magic, 1) + EncodeUnsigned(h.version, 1)
      + EncodeSigned(h.groupNum, 4) + EncodeUnsigned(h.groupPos, 4)
  }

  /** read_file_header gives the four stored fields back and leaves the file at offset 10. */
  lemma FileHeaderAtEncoded(data: seq<byte>, h: FileHeader)
    requires StorableFileHeader(h)
    requires HoldsAt(data, 0, FileHeaderBytes(h))
    ensures FileHeaderAt(data) == Ok(Parsed(h, 10))
  {
    Pow256Widths();
    var a, b := EncodeUnsigned(h.magic, 1), EncodeUnsigned(h.version, 1);
    var c, d := EncodeSigned(h.groupNum, 4), EncodeUnsigned(h.groupPos, 4);
    assert FileHeaderBytes(h) == a + b + c + d;
    hide FileHeaderBytes, EncodeUnsigned, EncodeSigned, HoldsAt, UnsignedAt, SignedAt;
    HoldsSplit(data, 0, a + b + c, d);
    HoldsSplit(data, 0, a + b, c);
    HoldsSplit(data, 0, a, b);
    UnsignedAtEncoded(data, 0, 1, h.magic);
    UnsignedAtEncoded(data, 1, 1, h.version);
    SignedAtEncoded(data, 2, 4, h.groupNum);
    UnsignedAtEncoded(data, 6, 4, h.groupPos);
  }

  // ---------------------------------------------------------------------------------------
  // Parameters

  /** The lengths a writer can store for the name, raw value and type tag of a parameter. */
  predicate StorableParameter(name: string, raw: seq<byte>, tag: string)
  {
    |Utf16Encode(name)| < 0x8000_0000 && |raw| < 0x8000_0000 && |Utf16Encode(tag)| < 0x8000_0000
  }

  /** How a writer stores a parameter: its name, its raw value bytes and its type tag. */
  function ParameterBytes(name: string, raw: seq<byte>, tag: string): (b: seq<byte>)
    requires StorableParameter(name, raw, tag)
    ensures |b| == 8 + 2 * |Utf16Encode(name)| + 4 + |raw| + 2 * |Utf16Encode(tag)|
  {
    WStringBytes(name) + ByteStringBytes(raw) + WStringBytes(tag)
  }

  lemma ParameterBytesFields(name: string, raw: seq<byte>, tag: string)
    requires StorableParameter(name, raw, tag)
    ensures ParameterBytes(name, raw, tag) == WStringBytes(name) + ByteStringBytes(raw) + WStringBytes(tag)
  {
  }

  /** The raw value of a parameter as read_value gives it: b'' is read as None. */
  function RawOrNone(raw: seq<byte>): Option<seq<byte>>
  {
    if raw == [] then None else Some(raw)
  }

  /** A stored str in the Basic Multilingual Plane reads back through read_wstring, '' as None. */
  lemma WStringAtStored(data: seq<byte>, p: nat, s: string)
    requires |Utf16Encode(s)| < 0x8000_0000 && Bmp(s)
    requires HoldsAt(data, p, WStringBytes(s))
    ensures WStringAt(data, p) == Ok(Parsed(WideOrNone(s), p + |WStringBytes(s)|))
  {
    hide WStringAt, WStringBytes, HoldsAt, Bmp;
    WStringAtEncoded(data, p, s);
    BmpUnitCount(s);
  }

  /** read_parameter over fields that each read as given. */
  lemma ParameterAtFields(data: seq<byte>, p: nat, p1: nat, p2: nat, p3: nat,
                          name: Option<string>, raw: Option<seq<byte>>, tag: Option<string>)
    requires WStringAt(data, p) == Ok(Parsed(name, p1))
    requires ByteStringAt(data, p1) == Ok(Parsed(raw, p2))
    requires WStringAt(data, p2) == Ok(Parsed(tag, p3))
    ensures var v := FormatValue(raw, tag);
      ParameterAt(data, p) == if v.Err? then Err(v.error) else Ok(Parsed(Parameter(name, tag, v.value), p3))
  {
  }

  /**
   * read_parameter reads a stored parameter back, its name and type tag in the Basic
   * Multilingual Plane: the name, the tag, and the raw value as format_value coerces it by
   * that tag (its exception when the coercion fails).
   */
  lemma ParameterAtEncoded(data: seq<byte>, p: nat, name: string, raw: seq<byte>, tag: string)
    requires StorableParameter(name, raw, tag) && Bmp(name) && Bmp(tag)
    requires HoldsAt(data, p, ParameterBytes(name, raw, tag))
    ensures var v := FormatValue(RawOrNone(raw), WideOrNone(tag));
      ParameterAt(data, p) ==
        if v.Err? then Err(v.error)
        else Ok(Parsed(Parameter(WideOrNone(name), WideOrNone(tag), v.value), p + |ParameterBytes(name, raw, tag)|))
  {
    hide ParameterBytes, WStringBytes, ByteStringBytes, HoldsAt, Utf16Encode, Bmp, WStringAt,
      ByteStringAt, ParameterAt, FormatValue, KnownTag, IntegerTag, IntAt;
    var a, b, c := WStringBytes(name), ByteStringBytes(raw), WStringBytes(tag);
    ParameterBytesFields(name, raw, tag);
    BmpUnitCount(name);
    BmpUnitCount(tag);
    HoldsSplit(data, p, a + b, c);
    HoldsSplit(data, p, a, b);
    WStringAtStored(data, p, name);
    ByteStringAtEncoded(data, p + |a|, raw);
    WStringAtStored(data, p + |a| + |b|, tag);
    var end := p + |ParameterBytes(name, raw, tag)|;
    assert end == p + |a| + |b| + |c|;
    ParameterAtFields(data, p, p + |a|, p + |a| + |b|, end, WideOrNone(name), RawOrNone(raw), WideOrNone(tag));
  }

  // ---------------------------------------------------------------------------------------
  // Column descriptions and integer cells

  /** The ranges of the fields of a column description: a signed byte and an i32. */
  predicate StorableColumn(name: string, typeCode: int, size: int)
  {
    |Utf16Encode(name)| < 0x8000_0000 && -0x80 <= typeCode < 0x80 && -0x8000_0000 <= size < 0x8000_0000
  }

  /** How a writer stores one entry of col_format: the name, the type code and the size. */
  function ColumnBytes(name: string, typeCode: int, size: int): (b: seq<byte>)
    requires StorableColumn(name, typeCode, size)
    ensures |b| == 9 + 2 * |Utf16Encode(name)|
  {
    Pow256Widths();
    WStringBytes(name) + EncodeSigned(typeCode, 1) + EncodeSigned(size, 4)
  }

  lemma ColumnBytesFields(name: string, typeCode: int, size: int)
    requires StorableColumn(name, typeCode, size)
    ensures Pow256(1) == 0x100 && Pow256(4) == 0x1_0000_0000
    ensures ColumnBytes(name, typeCode, size) == WStringBytes(name) + EncodeSigned(typeCode, 1) + EncodeSigned(size, 4)
  {
    Pow256Widths();
  }

  /** read_data_set reads a stored column description back, its name in the Basic Multilingual Plane. */
  lemma ColumnAtEncoded(data: seq<byte>, p: nat, name: string, typeCode: int, size: int)
    requires StorableColumn(name, typeCode, size) && Bmp(name)
    requires HoldsAt(data, p, ColumnBytes(name, typeCode, size))
    ensures ColumnAt(data, p)
      == Ok(Parsed(ColumnSpec(WideOrNone(name), typeCode, size), p + |ColumnBytes(name, typeCode, size)|))
  {
    Pow256Widths();
    hide ColumnBytes, WStringBytes, EncodeSigned, HoldsAt, Utf16Encode, Bmp, WStringAt, SignedAt;
    var a, b, c := WStringBytes(name), EncodeSigned(typeCode, 1), EncodeSigned(size, 4);
    ColumnBytesFields(name, typeCode, size);
    BmpUnitCount(name);
    HoldsSplit(data, p, a + b, c);
    HoldsSplit(data, p, a, b);
    WStringAtEncoded(data, p, name);
    SignedAtEncoded(data, p + |a|, 1, typeCode);
    SignedAtEncoded(data, p + |a| + 1, 4, size);
    assert WStringAt(data, p) == Ok(Parsed(WideOrNone(name), p + |a|));
  }

  /** How a writer stores an integer cell of type code 0 to 5: big-endian in the code's width and signedness. */
  function CellBytes(typeCode: int, x: int): (b: seq<byte>)
    requires 0 <= typeCode <= 5 && CellInRange(typeCode, Int(x))
    ensures FixedWidth(typeCode).Some? && |b| == FixedWidth(typeCode).value
  {
    Pow256Widths();
    match typeCode
    case 0 => EncodeSigned(x, 1)
    case 1 => EncodeUnsigned(x, 1)
    case 2 => EncodeSigned(x, 2)
    case 3 => EncodeUnsigned(x, 2)
    case 4 => EncodeSigned(x, 4)
    case 5 => EncodeUnsigned(x, 4)
  }

  /** read_data_value reads a stored integer cell back, whatever the column's size says. */
  lemma DataValueAtEncoded(data: seq<byte>, p: nat, typeCode: int, size: int, x: int)
    requires 0 <= typeCode <= 5 && CellInRange(typeCode, Int(x))
    requires HoldsAt(data, p, CellBytes(typeCode, x))
    ensures DataValueAt(data, p, typeCode, size) == Ok(Parsed(Int(x), p + FixedWidth(typeCode).value))
  {
    Pow256Widths();
    match typeCode
    case 0 => SignedAtEncoded(data, p, 1, x);
    case 1 => UnsignedAtEncoded(data, p, 1, x);
    case 2 => SignedAtEncoded(data, p, 2, x);
    case 3 => UnsignedAtEncoded(data, p, 2, x);
    case 4 => SignedAtEncoded(data, p, 4, x);
    case 5 => UnsignedAtEncoded(data, p, 4, x);
  }

  // ---------------------------------------------------------------------------------------
  // Parameter lists

  /** A parameter as a writer gives it: name, raw value bytes and type tag. */
  datatype ParamText = ParamText(name: string, raw: seq<byte>, tag: string)

  /**
   * A parameter read_parameter gives back: lengths a writer can store, name and tag in the
   * Basic Multilingual Plane, and a raw value format_value accepts under its tag.
   */
  predicate ReadableParam(x: ParamText)
  {
    && StorableParameter(x.name, x.raw, x.tag) && Bmp(x.name) && Bmp(x.tag)
    && FormatValue(RawOrNone(x.raw), WideOrNone(x.tag)).Ok?
  }

  predicate AllReadableParams(ps: seq<ParamText>)
  {
    forall i :: 0 <= i < |ps| ==> ReadableParam(ps[i])
  }

  /** The parameters stored one after the other. */
  function ParamListBytes(ps: seq<ParamText>): seq<byte>
    requires AllReadableParams(ps)
  {
    if ps == [] then [] else ParameterBytes(ps[0].name, ps[0].raw, ps[0].tag) + ParamListBytes(ps[1..])
  }

  /** The (name, type, value) triple read_parameter gives for a stored parameter format_value accepts. */
  function StoredParam(x: ParamText): Parameter
  {
    var v := FormatValue(RawOrNone(x.raw), WideOrNone(x.tag));
    Parameter(WideOrNone(x.name), WideOrNone(x.tag), if v.Ok? then v.value else Null)
  }

  function StoredParams(ps: seq<ParamText>): (r: seq<Parameter>)
    ensures |r| == |ps|
  {
    if ps == [] then [] else [StoredParam(ps[0])] + StoredParams(ps[1..])
  }

  /** The i-th parameter read back is the i-th one stored. */
  lemma {:induction false} StoredParamsAt(ps: seq<ParamText>, i: nat)
    requires AllReadableParams(ps) && i < |ps|
    ensures StoredParams(ps)[i] == StoredParam(ps[i])
  {
    hide StoredParams, StoredParam, ReadableParam, AllReadableParams;
    if i > 0 {
      StoredParamsFront(ps);
      StoredParamsAt(ps[1..], i - 1);
      assert ps[1..][i - 1] == ps[i];
    } else {
      StoredParamsFront(ps);
    }
  }

  /** A parameter read back keeps its stored name and type tag. */
  lemma StoredParamNames(x: ParamText)
    requires ReadableParam(x)
    ensures StoredParam(x).name == WideOrNone(x.name) && StoredParam(x).tag == WideOrNone(x.tag)
  {
  }

  /** One pass of the loop of read_parameters. */
  lemma ParameterListStep(data: seq<byte>, p: nat, k: int)
    requires k > 0
    ensures var x := ParameterAt(data, p);
      ParameterListFrom(data, p, k) ==
        if x.Err? then Err(x.error) else Prepend([x.value.value], ParameterListFrom(data, x.value.next, k - 1))
  {
  }

  /** The loop of read_parameters reads stored parameters back in order. */
  lemma {:induction false} ParameterListFromEncoded(data: seq<byte>, p: nat, ps: seq<ParamText>)
    requires AllReadableParams(ps)
    requires HoldsAt(data, p, ParamListBytes(ps))
    ensures ParameterListFrom(data, p, |ps|) == Ok(Parsed(StoredParams(ps), p + |ParamListBytes(ps)|))
    decreases ps
  {
    hide ParameterListFrom, ParameterAt, ParamListBytes, ParameterBytes, StoredParams, HoldsAt, FormatValue,
      StoredParam, KnownTag, IntegerTag;
    if ps == [] {
      ParameterListNone(data, p);
      ParamListBytesEmpty();
    } else {
      ParamListBytesFront(ps);
      var x := ps[0];
      var a := ParameterBytes(x.name, x.raw, x.tag);
      HoldsSplit(data, p, a, ParamListBytes(ps[1..]));
      ParameterAtEncoded(data, p, x.name, x.raw, x.tag);
      StoredParamValue(x);
      assert ParameterAt(data, p) == Ok(Parsed(StoredParam(x), p + |a|));
      ParameterListFromEncoded(data, p + |a|, ps[1..]);
      var rest := ParamListBytes(ps[1..]);
      ParameterListCons(data, p, |ps|, StoredParam(x), p + |a|, StoredParams(ps[1..]), p + |a| + |rest|);
      StoredParamsFront(ps);
      assert p + |a| + |rest| == p + |ParamListBytes(ps)|;
    }
  }

  /** A pass of the loop of read_parameters that reads a parameter, followed by the rest of the loop. */
  lemma ParameterListCons(data: seq<byte>, p: nat, k: int, x: Parameter, q: nat, xs: seq<Parameter>, e: nat)
    requires k > 0
    requires ParameterAt(data, p) == Ok(Parsed(x, q))
    requires ParameterListFrom(data, q, k - 1) == Ok(Parsed(xs, e))
    ensures ParameterListFrom(data, p, k) == Ok(Parsed([x] + xs, e))
  {
    hide ParameterAt;
    ParameterListStep(data, p, k);
  }

  lemma ParameterListNone(data: seq<byte>, p: nat)
    ensures ParameterListFrom(data, p, 0) == Ok(Parsed([], p))
  {
  }

  lemma ParamListBytesEmpty()
    ensures ParamListBytes([]) == []
  {
  }

  lemma ParamListBytesFront(ps: seq<ParamText>)
    requires AllReadableParams(ps) && ps != []
    ensures ReadableParam(ps[0]) && AllReadableParams(ps[1..])
    ensures ParamListBytes(ps) == ParameterBytes(ps[0].name, ps[0].raw, ps[0].tag) + ParamListBytes(ps[1..])
  {
  }

  lemma StoredParamValue(x: ParamText)
    requires ReadableParam(x)
    ensures var v := FormatValue(RawOrNone(x.raw), WideOrNone(x.tag));
      v.Ok? && StoredParam(x) == Parameter(WideOrNone(x.name), WideOrNone(x.tag), v.value)
  {
  }

  lemma StoredParamsFront(ps: seq<ParamText>)
    requires AllReadableParams(ps) && ps != []
    ensures AllReadableParams(ps[1..])
    ensures StoredParams(ps) == [StoredParam(ps[0])] + StoredParams(ps[1..])
  {
  }

  /** How a writer stores the parameters of a header or data set: their count, then each of them. */
  function ParamsBytes(ps: seq<ParamText>): seq<byte>
    requires AllReadableParams(ps) && |ps| < 0x8000_0000
  {
    LengthPrefix(|ps|) + ParamListBytes(ps)
  }

  lemma ParamsBytesFields(ps: seq<ParamText>)
    requires AllReadableParams(ps) && |ps| < 0x8000_0000
    ensures ParamsBytes(ps) == LengthPrefix(|ps|) + ParamListBytes(ps)
  {
  }

  /**
   * read_parameters reads a stored parameter list back as the dict of its triples, later
   * names overwriting earlier ones (see ParamMapKeys and ParamMapLastWins).
   */
  lemma ParametersAtEncoded(data: seq<byte>, p: nat, ps: seq<ParamText>)
    requires AllReadableParams(ps) && |ps| < 0x8000_0000
    requires HoldsAt(data, p, ParamsBytes(ps))
    ensures ParametersAt(data, p) == Ok(Parsed(ParamMap(StoredParams(ps)), p + |ParamsBytes(ps)|))
  {
    hide ParameterListFrom, ParamListBytes, StoredParams, HoldsAt, LengthPrefix, IntAt, ParamMap, ParamsBytes;
    ParamsBytesFields(ps);
    HoldsSplit(data, p, LengthPrefix(|ps|), ParamListBytes(ps));
    IntAtPrefix(data, p, |ps|);
    ParameterListFromEncoded(data, p + 4, ps);
  }

  // ---------------------------------------------------------------------------------------
  // Generic headers

  /** A generic data header as a writer gives it. */
  datatype HeaderText = HeaderText(uid: string, guid: string, datetime: string, locale: string, params: seq<ParamText>)

  /**
   * A header read_data_header gives back: lengths a writer can store, datetime and locale in
   * the Basic Multilingual Plane (read_wchar fails on any other, see WStringAtEncoded), and
   * parameters read_parameter gives back.
   */
  predicate ReadableHeader(h: HeaderText)
  {
    && |Utf8Encode(h.uid)| < 0x8000_0000 && |Utf8Encode(h.guid)| < 0x8000_0000
    && |Utf16Encode(h.datetime)| < 0x8000_0000 && |Utf16Encode(h.locale)| < 0x8000_0000
    && Bmp(h.datetime) && Bmp(h.locale)
    && AllReadableParams(h.params) && |h.params| < 0x8000_0000
  }

  /**
   * How a writer stores a header: uid and guid as UTF-8 byte strings, datetime and locale as
   * wide strings, then the parameters.
   */
  function HeaderBytes(h: HeaderText): seq<byte>
    requires ReadableHeader(h)
  {
    ByteStringBytes(Utf8Encode(h.uid)) + ByteStringBytes(Utf8Encode(h.guid))
      + WStringBytes(h.datetime) + WStringBytes(h.locale) + ParamsBytes(h.params)
  }

  /** A str read back through read_string and a truthy decode: '' is stored as b'' and read as None. */
  function TextOrNull(s: string): Value
  {
    if s == "" then Null else Str(s)
  }

  /** A str read back through read_wstring: '' is read as None. */
  function WideOrNone(s: string): Option<string>
  {
    if s == "" then None else Some(s)
  }

  /** The header dict read_data_header gives for a stored header. */
  function StoredHeader(h: HeaderText): Header
  {
    Header(TextOrNull(h.uid), TextOrNull(h.guid), WideOrNone(h.datetime), WideOrNone(h.locale),
           ParamMap(StoredParams(h.params)))
  }

  /** The parameters of a header read back are the dict of its stored parameters. */
  lemma StoredHeaderParams(h: HeaderText)
    requires ReadableHeader(h)
    ensures AllReadableParams(h.params)
    ensures StoredHeader(h).parameters == ParamMap(StoredParams(h.params))
  {
  }

  /** The UTF-8 bytes of a str, read back by read_string and decoded when truthy, give the str back. */
  lemma DecodeStored(s: string)
    requires |Utf8Encode(s)| < 0x8000_0000
    ensures var b := Utf8Encode(s);
      DecodeIfTruthy(if b == [] then None else Some(b)) == Ok(TextOrNull(s))
  {
    Utf8RoundTrip(s);
    if s != "" {
      Utf8EncodeEnds(s);
    } else {
      assert Utf8Encode(s) == [];
    }
  }

  /** read_data_header over fields that each read as given. */
  lemma HeaderAtFields(data: seq<byte>, p: nat, p1: nat, p2: nat, p3: nat, p4: nat, p5: nat,
                       ou: Option<seq<byte>>, og: Option<seq<byte>>, odt: Option<string>,
                       oloc: Option<string>, params: Parameters, vu: Value, vg: Value)
    requires ByteStringAt(data, p) == Ok(Parsed(ou, p1))
    requires ByteStringAt(data, p1) == Ok(Parsed(og, p2))
    requires WStringAt(data, p2) == Ok(Parsed(odt, p3))
    requires WStringAt(data, p3) == Ok(Parsed(oloc, p4))
    requires ParametersAt(data, p4) == Ok(Parsed(params, p5))
    requires DecodeIfTruthy(ou) == Ok(vu) && DecodeIfTruthy(og) == Ok(vg)
    ensures HeaderAt(data, p) == Ok(Parsed(Header(vu, vg, odt, oloc, params), p5))
    ensures HeaderAtAsWritten(data, p)
      == if odt.Some? && odt.value != "" then Err(AttributeError) else HeaderAt(data, p)
  {
  }

  lemma HeaderBytesFields(h: HeaderText)
    requires ReadableHeader(h)
    ensures HeaderBytes(h)
      == ByteStringBytes(Utf8Encode(h.uid)) + ByteStringBytes(Utf8Encode(h.guid))
        + WStringBytes(h.datetime) + WStringBytes(h.locale) + ParamsBytes(h.params)
  {
  }

  /**
   * read_data_header, as evidently intended, gives a stored header back; as written, it raises
   * AttributeError for every non-empty datetime.
   */
  lemma HeaderAtEncoded(data: seq<byte>, p: nat, h: HeaderText)
    requires ReadableHeader(h)
    requires HoldsAt(data, p, HeaderBytes(h))
    ensures HeaderAt(data, p) == Ok(Parsed(StoredHeader(h), p + |HeaderBytes(h)|))
    ensures HeaderAtAsWritten(data, p) == if h.datetime == "" then HeaderAt(data, p) else Err(AttributeError)
  {
    hide HeaderBytes, ByteStringBytes, WStringBytes, ParamsBytes, HoldsAt, Utf8Encode, Utf16Encode,
      Bmp, ByteStringAt, WStringAt, ParametersAt, DecodeIfTruthy, HeaderAt, HeaderAtAsWritten,
      AllReadableParams, StoredParams, ParamMap, FormatValue, KnownTag, IntegerTag, IntAt,
      ParameterListFrom, DecodeUtf8, WCharsFrom;
    var u, g := Utf8Encode(h.uid), Utf8Encode(h.guid);
    var a, b := ByteStringBytes(u), ByteStringBytes(g);
    var c, d, e := WStringBytes(h.datetime), WStringBytes(h.locale), ParamsBytes(h.params);
    HeaderBytesFields(h);
    BmpUnitCount(h.datetime);
    BmpUnitCount(h.locale);
    HoldsSplit(data, p, a + b + c + d, e);
    HoldsSplit(data, p, a + b + c, d);
    HoldsSplit(data, p, a + b, c);
    HoldsSplit(data, p, a, b);
    var p1 := p + |a|;
    var p2 := p1 + |b|;
    var p3 := p2 + |c|;
    var p4 := p3 + |d|;
    ByteStringAtEncoded(data, p, u);
    ByteStringAtEncoded(data, p1, g);
    WStringAtStored(data, p2, h.datetime);
    WStringAtStored(data, p3, h.locale);
    ParametersAtEncoded(data, p4, h.params);
    DecodeStored(h.uid);
    DecodeStored(h.guid);
    var end := p + |HeaderBytes(h)|;
    assert end == p4 + |e|;
    HeaderAtFields(data, p, p1, p2, p3, p4, end,
      if u == [] then None else Some(u), if g == [] then None else Some(g),
      WideOrNone(h.datetime), WideOrNone(h.locale), ParamMap(StoredParams(h.params)),
      TextOrNull(h.uid), TextOrNull(h.guid));
  }

  lemma HoldsWhole(data: seq<byte>)
    ensures HoldsAt(data, 0, data)
  {
    assert data[0..|data|] == data;
  }

  /** The stored fields of the header of DatetimeExample. */
  lemma DatetimeExampleFields()
    ensures Utf8Encode("") == [] && Utf16Encode("") == [] && Utf16Encode("A") == [0x41]
    ensures ReadableHeader(HeaderText("", "", "A", "", []))
    ensures ByteStringBytes([]) == [0, 0, 0, 0] && ParamsBytes([]) == [0, 0, 0, 0]
    ensures WStringBytes("") == [0, 0, 0, 0] && WStringBytes("A") == [0, 0, 0, 1, 0, 0x41]
    ensures ParamMap(StoredParams([])) == map[]
  {
    Pow256Widths();
    assert LengthPrefix(0) == [0, 0, 0, 0];
    assert LengthPrefix(1) == [0, 0, 0, 1];
    assert UnitBytes([0x41]) == [0, 0x41];
    assert ParamListBytes([]) == [];
  }

  /**
   * The smallest header the datetime decode rejects: empty uid, guid and locale, the datetime
   * "A", and no parameters.
   */
  lemma DatetimeExample()
    ensures HeaderAtAsWritten([0, 0, 0, 0, 0, 0, 0, 0, 0, 0, 0, 1, 0, 0x41, 0, 0, 0, 0, 0, 0, 0, 0], 0)
      == Err(AttributeError)
    ensures HeaderAt([0, 0, 0, 0, 0, 0, 0, 0, 0, 0, 0, 1, 0, 0x41, 0, 0, 0, 0, 0, 0, 0, 0], 0)
      == Ok(Parsed(Header(Null, Null, Some("A"), None, map[]), 22))
  {
    hide HeaderAtAsWritten, HeaderAt, HeaderBytes, ByteStringBytes, WStringBytes, ParamsBytes,
      Utf8Encode, Utf16Encode, ReadableHeader, Bmp, HoldsAt, StoredParams, ParamMap;
    var data: seq<byte> := [0, 0, 0, 0, 0, 0, 0, 0, 0, 0, 0, 1, 0, 0x41, 0, 0, 0, 0, 0, 0, 0, 0];
    var h := HeaderText("", "", "A", "", []);
    DatetimeExampleFields();
    HeaderBytesFields(h);
    assert HeaderBytes(h) == data;
    HoldsWhole(data);
    HeaderAtEncoded(data, 0, h);
    assert StoredHeader(h) == Header(Null, Null, Some("A"), None, map[]);
  }

  // ---------------------------------------------------------------------------------------
  // Header blocks and everything __init__ reads

  predicate AllReadableHeaders(hs: seq<HeaderText>)
  {
    forall i :: 0 <= i < |hs| ==> ReadableHeader(hs[i])
  }

  /** The headers stored one after the other. */
  function HeaderListBytes(hs: seq<HeaderText>): seq<byte>
    requires AllReadableHeaders(hs)
  {
    if hs == [] then [] else HeaderBytes(hs[0]) + HeaderListBytes(hs[1..])
  }

  function StoredHeaders(hs: seq<HeaderText>): (r: seq<Header>)
    ensures |r| == |hs|
  {
    if hs == [] then [] else [StoredHeader(hs[0])] + StoredHeaders(hs[1..])
  }

  /** How a writer stores the headers of read_parent_header or read_extra: their count, then each of them. */
  function HeaderBlockBytes(hs: seq<HeaderText>): seq<byte>
    requires AllReadableHeaders(hs) && |hs| < 0x8000_0000
  {
    LengthPrefix(|hs|) + HeaderListBytes(hs)
  }

  lemma HeadersStep(data: seq<byte>, p: nat, k: int)
    requires k > 0
    ensures var h := HeaderAt(data, p);
      HeadersFrom(data, p, k) ==
        if h.Err? then Err(h.error) else Prepend([h.value.value], HeadersFrom(data, h.value.next, k - 1))
  {
  }

  lemma HeadersNone(data: seq<byte>, p: nat)
    ensures HeadersFrom(data, p, 0) == Ok(Parsed([], p))
  {
  }

  lemma HeaderListEmpty()
    ensures HeaderListBytes([]) == [] && StoredHeaders([]) == []
  {
  }

  lemma HeaderListFront(hs: seq<HeaderText>)
    requires AllReadableHeaders(hs) && hs != []
    ensures ReadableHeader(hs[0]) && AllReadableHeaders(hs[1..])
    ensures HeaderListBytes(hs) == HeaderBytes(hs[0]) + HeaderListBytes(hs[1..])
    ensures StoredHeaders(hs) == [StoredHeader(hs[0])] + StoredHeaders(hs[1..])
  {
  }

  /** The header loop of read_parent_header and read_extra reads stored headers back in order. */
  lemma {:induction false} HeadersFromEncoded(data: seq<byte>, p: nat, hs: seq<HeaderText>)
    requires AllReadableHeaders(hs)
    requires HoldsAt(data, p, HeaderListBytes(hs))
    ensures HeadersFrom(data, p, |hs|) == Ok(Parsed(StoredHeaders(hs), p + |HeaderListBytes(hs)|))
    decreases hs
  {
    hide HeadersFrom, HeaderAt, HeaderAtAsWritten, HeaderListBytes, HeaderBytes, StoredHeaders,
      StoredHeader, HoldsAt, AllReadableHeaders, ReadableHeader;
    if hs == [] {
      HeaderListEmpty();
      HeadersNone(data, p);
    } else {
      HeaderListFront(hs);
      var h, tail := hs[0], hs[1..];
      var a, b := HeaderBytes(h), HeaderListBytes(tail);
      var q := p + |a|;
      HoldsSplit(data, p, a, b);
      HeaderAtEncoded(data, p, h);
      HeadersStep(data, p, |hs|);
      HeadersFromEncoded(data, q, tail);
      var rest := HeadersFrom(data, q, |tail|);
      assert HeadersFrom(data, p, |hs|) == Prepend([StoredHeader(h)], rest);
    }
  }

  /** read_parent_header and read_extra read a stored header block back. */
  lemma HeaderBlockAtEncoded(data: seq<byte>, p: nat, hs: seq<HeaderText>)
    requires AllReadableHeaders(hs) && |hs| < 0x8000_0000
    requires HoldsAt(data, p, HeaderBlockBytes(hs))
    ensures HeaderBlockAt(data, p) == Ok(Parsed(StoredHeaders(hs), p + |HeaderBlockBytes(hs)|))
  {
    hide HeadersFrom, HeaderListBytes, StoredHeaders, HoldsAt, LengthPrefix, IntAt, HeaderBlockBytes,
      AllReadableHeaders;
    HeaderBlockFields(hs);
    HoldsSplit(data, p, LengthPrefix(|hs|), HeaderListBytes(hs));
    IntAtPrefix(data, p, |hs|);
    HeadersFromEncoded(data, p + 4, hs);
  }

  lemma HeaderBlockFields(hs: seq<HeaderText>)
    requires AllReadableHeaders(hs) && |hs| < 0x8000_0000
    ensures HeaderBlockBytes(hs) == LengthPrefix(|hs|) + HeaderListBytes(hs)
  {
  }

  /** Everything a writer stores before the data groups: the file header, the header, the parents and the extra block. */
  predicate ReadablePreamble(file: FileHeader, header: HeaderText, parents: seq<HeaderText>, extra: seq<HeaderText>)
  {
    && StorableFileHeader(file) && ReadableHeader(header)
    && AllReadableHeaders(parents) && |parents| < 0x8000_0000
    && AllReadableHeaders(extra) && |extra| < 0x8000_0000
  }

  function PreambleBytes(file: FileHeader, header: HeaderText, parents: seq<HeaderText>, extra: seq<HeaderText>): seq<byte>
    requires ReadablePreamble(file, header, parents, extra)
  {
    FileHeaderBytes(file) + HeaderBytes(header) + HeaderBlockBytes(parents) + HeaderBlockBytes(extra)
  }

  lemma PreambleBytesFields(file: FileHeader, header: HeaderText, parents: seq<HeaderText>, extra: seq<HeaderText>)
    requires ReadablePreamble(file, header, parents, extra)
    ensures StorableFileHeader(file) && ReadableHeader(header)
    ensures AllReadableHeaders(parents) && |parents| < 0x8000_0000
    ensures AllReadableHeaders(extra) && |extra| < 0x8000_0000
    ensures PreambleBytes(file, header, parents, extra)
      == FileHeaderBytes(file) + HeaderBytes(header) + HeaderBlockBytes(parents) + HeaderBlockBytes(extra)
  {
  }

  /**
   * The reads of __init__ give back everything stored before the data groups, and stop right
   * after it; Open then holds these values in its fields.
   */
  lemma PreambleAtEncoded(data: seq<byte>, file: FileHeader, header: HeaderText, parents: seq<HeaderText>, extra: seq<HeaderText>)
    requires ReadablePreamble(file, header, parents, extra)
    requires HoldsAt(data, 0, PreambleBytes(file, header, parents, extra))
    ensures PreambleAt(data) == Ok(Parsed(
      Preamble(file, StoredHeader(header), StoredHeaders(parents), StoredHeaders(extra)),
      |PreambleBytes(file, header, parents, extra)|))
  {
    hide PreambleBytes, FileHeaderBytes, HeaderBytes, HeaderBlockBytes, HoldsAt, FileHeaderAt, HeaderAt,
      HeaderAtAsWritten, HeaderBlockAt, PreambleAt, ReadablePreamble, StorableFileHeader, ReadableHeader,
      AllReadableHeaders, StoredHeader, StoredHeaders;
    PreambleBytesFields(file, header, parents, extra);
    var a, b := FileHeaderBytes(file), HeaderBytes(header);
    var c, d := HeaderBlockBytes(parents), HeaderBlockBytes(extra);
    HoldsSplit(data, 0, a + b + c, d);
    HoldsSplit(data, 0, a + b, c);
    HoldsSplit(data, 0, a, b);
    var p1 := |a|;
    var p2 := p1 + |b|;
    var p3 := p2 + |c|;
    FileHeaderAtEncoded(data, file);
    HeaderAtEncoded(data, p1, header);
    HeaderBlockAtEncoded(data, p2, parents);
    HeaderBlockAtEncoded(data, p3, extra);
    assert |a| == 10;
    PreambleAtFields(data, p1, p2, p3, p3 + |d|, file, StoredHeader(header), StoredHeaders(parents), StoredHeaders(extra));
  }

  /** The reads of __init__ over parts that each read as given. */
  lemma PreambleAtFields(data: seq<byte>, p1: nat, p2: nat, p3: nat, p4: nat,
                         file: FileHeader, header: Header, parents: seq<Header>, extra: seq<Header>)
    requires FileHeaderAt(data) == Ok(Parsed(file, p1))
    requires HeaderAt(data, p1) == Ok(Parsed(header, p2))
    requires HeaderBlockAt(data, p2) == Ok(Parsed(parents, p3))
    requires HeaderBlockAt(data, p3) == Ok(Parsed(extra, p4))
    ensures PreambleAt(data) == Ok(Parsed(Preamble(file, header, parents, extra), p4))
  {
  }
}
