/**
 * The CelFile class of cel_file.py: one cursor over the bytes of a Calvin generic data file,
 * and the read_* methods that advance it. Every method is proved to compute what the
 * corresponding function of module Layout specifies.
 */
module CelFileModel {
  import opened Results
  import opened BigEndian
  import opened Values
  import opened Layout
  import LayoutFacts
  import RecordFacts

  /** A method's result and new position are those its specification function gives. */
  predicate Agrees<T(==)>(r: Result<T>, spec: Result<Parsed<T>>, pos: nat)
  {
    match spec
    case Ok(p) => r == Ok(p.value) && pos == p.next
    case Err(e) => r == Err(e)
  }

  /** The same for the reads that also set group_pos and data_set_pos. */
  predicate AgreesMoved<T(==)>(r: Result<T>, spec: Result<Moved<T>>, cur: Cursor)
  {
    match spec
    case Ok(m) => r == Ok(m.value) && cur == m.cur
    case Err(e) => r == Err(e)
  }

  const ArrayIdKey := "affymetrix-array-id"
  const BarcodeKey := "affymetrix-array-barcode"

  /**
   * extra[0].get('parameters').get(key).get('value'): an empty extra block raises IndexError,
   * a missing key gives None, whose get raises AttributeError.
   */
  function ExtraParameter(extra: seq<Header>, key: string): (r: Result<Value>)
    ensures r.Ok? <==> |extra| > 0 && Some(key) in extra[0].parameters
    ensures r.Ok? ==> r.value == extra[0].parameters[Some(key)].value
    ensures r.Err? ==> r.error == if |extra| == 0 then IndexError else AttributeError
  {
    if |extra| == 0 then Err(IndexError)
    else if Some(key) in extra[0].parameters then Ok(extra[0].parameters[Some(key)].value)
    else Err(AttributeError)
  }

  /**
   * When the parameters of the first extra header were read from the list ps, the lookup
   * succeeds exactly when some parameter carries the key as its name, and gives the value of
   * the last one that does.
   */
  lemma ExtraParameterOfList(extra: seq<Header>, key: string, ps: seq<Parameter>, i: nat)
    requires |extra| > 0 && extra[0].parameters == ParamMap(ps)
    ensures ExtraParameter(extra, key).Ok? <==> exists j :: 0 <= j < |ps| && ps[j].name == Some(key)
    ensures i < |ps| && ps[i].name == Some(key) && (forall j :: i < j < |ps| ==> ps[j].name != Some(key)) ==>
      ExtraParameter(extra, key) == Ok(ps[i].value)
  {
    LayoutFacts.ParamMapKeys(ps);
    if i < |ps| && ps[i].name == Some(key) && (forall j :: i < j < |ps| ==> ps[j].name != Some(key)) {
      LayoutFacts.ParamMapLastWins(ps, i);
    }
  }

  /**
   * The lookup of array_id and barcode in a file whose extra headers a writer stored: it
   * succeeds exactly when the first extra header has a parameter of that name, and gives the
   * value format_value made of the last such parameter.
   */
  lemma ExtraParameterStored(extra: seq<RecordFacts.HeaderText>, key: string, i: nat)
    requires RecordFacts.AllReadableHeaders(extra) && |extra| > 0 && key != ""
    ensures var ps := extra[0].params;
      ExtraParameter(RecordFacts.StoredHeaders(extra), key).Ok? <==> exists j :: 0 <= j < |ps| && ps[j].name == key
    ensures var ps := extra[0].params;
      i < |ps| && ps[i].name == key && (forall j :: i < j < |ps| ==> ps[j].name != key) ==>
        RecordFacts.ReadableParam(ps[i]) &&
        ExtraParameter(RecordFacts.StoredHeaders(extra), key) == Ok(RecordFacts.StoredParam(ps[i]).value)
  {
    hide RecordFacts.StoredHeaders, RecordFacts.StoredHeader, RecordFacts.StoredParams,
      RecordFacts.StoredParam, RecordFacts.ReadableParam, RecordFacts.ReadableHeader,
      RecordFacts.AllReadableHeaders, RecordFacts.AllReadableParams, ParamMap, ExtraParameter,
      FormatValue, KnownTag, IntegerTag;
    RecordFacts.HeaderListFront(extra);
    RecordFacts.StoredHeaderParams(extra[0]);
    var ps := extra[0].params;
    var stored := RecordFacts.StoredParams(ps);
    var h := RecordFacts.StoredHeaders(extra);
    assert |h| > 0 && h[0].parameters == ParamMap(stored);
    forall j | 0 <= j < |ps|
      ensures stored[j].name == Some(key) <==> ps[j].name == key
    {
      RecordFacts.StoredParamsAt(ps, j);
      RecordFacts.StoredParamNames(ps[j]);
    }
    if i < |ps| && ps[i].name == key && (forall j :: i < j < |ps| ==> ps[j].name != key) {
      assert forall j :: i < j < |stored| ==> stored[j].name != Some(key);
      RecordFacts.StoredParamsAt(ps, i);
      ExtraParameterOfList(h, key, stored, i);
    } else {
      ExtraParameterOfList(h, key, stored, 0);
    }
  }

  class CelFile {
    /** The bytes of the opened file. */
    const data: seq<byte>
    /** The position of the file object fp. */
    var pos: nat

    var magicNumber: int
    var version: int
    var groupNum: int
    var groupPos: nat
    var dataSetPos: nat

    var header: Header
    var parents: seq<Header>
    var extra: seq<Header>
    var dataGroups: seq<Group>

    /** The three positions the traversal of the data groups reads and sets. */
    function Cur(): Cursor
      reads this
    {
      Cursor(pos, groupPos, dataSetPos)
    }

    /** The attribute values __init__ gives before it reads anything (None modelled as 0 and empty). */
    constructor (bytes: seq<byte>)
      ensures data == bytes && pos == 0
      ensures magicNumber == 0 && version == 0 && groupNum == 0 && groupPos == 0 && dataSetPos == 0
      ensures header == Header(Null, Null, None, None, map[]) && parents == [] && extra == []
      ensures dataGroups == []
    {
      data := bytes;
      pos := 0;
      magicNumber, version, groupNum := 0, 0, 0;
      groupPos, dataSetPos := 0, 0;
      header := Header(Null, Null, None, None, map[]);
      parents, extra := [], [];
      dataGroups := [];
    }

    /** array_id: the value of the affymetrix-array-id parameter of the first extra header. */
    function ArrayId(): (r: Result<Value>)
      reads this
      ensures r.Ok? <==> |extra| > 0 && Some(ArrayIdKey) in extra[0].parameters
    {
      ExtraParameter(extra, ArrayIdKey)
    }

    /** barcode: the value of the affymetrix-array-barcode parameter of the first extra header. */
    function Barcode(): (r: Result<Value>)
      reads this
      ensures r.Ok? <==> |extra| > 0 && Some(BarcodeKey) in extra[0].parameters
    {
      ExtraParameter(extra, BarcodeKey)
    }

    // -------------------------------------------------------------------------------------
    // Primitive reads

    /** fp.read(n) for a length the buffered reader accepts; ReadDataValue raises for the others. */
    method Read(n: int) returns (b: seq<byte>)
      requires n >= -1
      modifies this`pos
      ensures ReadAt(data, old(pos), n) == Parsed(b, pos)
    {
      var start := if pos < |data| then pos else |data|;
      var stop := if n < 0 || start + n > |data| then |data| else start + n;
      b := data[start..stop];
      pos := pos + (stop - start);
    }

    method ReadInt() returns (r: Result<int>)
      modifies this`pos
      ensures Agrees(r, IntAt(data, old(pos)), pos)
    {
      FixedAtReads(data, pos, 4);
      var b := Read(4);
      if |b| != 4 { return Err(StructError); }
      return Ok(Signed(b));
    }

    method ReadUInt() returns (r: Result<int>)
      modifies this`pos
      ensures Agrees(r, UIntAt(data, old(pos)), pos)
    {
      FixedAtReads(data, pos, 4);
      var b := Read(4);
      if |b| != 4 { return Err(StructError); }
      return Ok(Unsigned(b));
    }

    method ReadByte() returns (r: Result<int>)
      modifies this`pos
      ensures Agrees(r, ByteAt(data, old(pos)), pos)
    {
      FixedAtReads(data, pos, 1);
      var b := Read(1);
      if |b| != 1 { return Err(StructError); }
      return Ok(Signed(b));
    }

    method ReadUByte() returns (r: Result<int>)
      modifies this`pos
      ensures Agrees(r, UByteAt(data, old(pos)), pos)
    {
      FixedAtReads(data, pos, 1);
      var b := Read(1);
      if |b| != 1 { return Err(StructError); }
      return Ok(Unsigned(b));
    }

    method ReadChar() returns (r: Result<seq<byte>>)
      modifies this`pos
      ensures Agrees(r, FixedAt(data, old(pos), 1), pos)
    {
      FixedAtReads(data, pos, 1);
      var b := Read(1);
      if |b| != 1 { return Err(StructError); }
      return Ok(b);
    }

    method ReadShort() returns (r: Result<int>)
      modifies this`pos
      ensures Agrees(r, ShortAt(data, old(pos)), pos)
    {
      FixedAtReads(data, pos, 2);
      var b := Read(2);
      if |b| != 2 { return Err(StructError); }
      return Ok(Signed(b));
    }

    method ReadUShort() returns (r: Result<int>)
      modifies this`pos
      ensures Agrees(r, UShortAt(data, old(pos)), pos)
    {
      FixedAtReads(data, pos, 2);
      var b := Read(2);
      if |b| != 2 { return Err(StructError); }
      return Ok(Unsigned(b));
    }

    method ReadFloat() returns (r: Result<Value>)
      modifies this`pos
      ensures Agrees(r, FloatAt(data, old(pos)), pos)
    {
      FixedAtReads(data, pos, 4);
      var b := Read(4);
      if |b| != 4 { return Err(StructError); }
      return Ok(Float32(b));
    }

    /** read_double, as evidently intended: see Layout.DoubleAtAsWritten for the code as written. */
    method ReadDouble() returns (r: Result<Value>)
      modifies this`pos
      ensures Agrees(r, DoubleAt(data, old(pos)), pos)
    {
      FixedAtReads(data, pos, 8);
      var b := Read(8);
      if |b| != 8 { return Err(StructError); }
      return Ok(Float64(b));
    }

    // -------------------------------------------------------------------------------------
    // Strings

    /** read_string: the count, then one read_char per byte. */
    method ReadString() returns (r: Result<Option<seq<byte>>>)
      modifies this`pos
      ensures Agrees(r, ByteStringAt(data, old(pos)), pos)
    {
      var size :- ReadInt();
      if size == 0 {
        return Ok(None);
      }
      ghost var start := pos;
      var s: seq<byte> := [];
      var x := 0;
      while x < size
        invariant 0 <= x <= Count(size)
        invariant pos == start + x <= |data|
        invariant s == data[start..pos]
      {
        var b :- ReadChar();
        s := s + b;
        x := x + 1;
      }
      assert IntAt(data, old(pos)) == Ok(Parsed(size, start));
      if size < 0 {
      } else {
        assert x == size;
        assert FixedAt(data, start, size) == Ok(Parsed(s, pos));
      }
      return Ok(Some(s));
    }

    method ReadWChar() returns (r: Result<string>)
      modifies this`pos
      ensures Agrees(r, WCharAt(data, old(pos)), pos)
    {
      WCharAtReads(data, pos);
      var chrs := Read(2);
      if |chrs| == 0 {
        return Ok("");
      } else if |chrs| == 1 {
        return Err(UnicodeDecodeError);
      }
      Pow256Widths();
      var u := Unsigned(chrs);
      if 0xD800 <= u < 0xE000 {
        return Err(UnicodeDecodeError);
      }
      return Ok([u as char]);
    }

    /** read_wstring: the count, then one read_wchar per code unit. */
    method ReadWString() returns (r: Result<Option<string>>)
      modifies this`pos
      ensures Agrees(r, WStringAt(data, old(pos)), pos)
    {
      hide WCharAt;
      var size :- ReadInt();
      if size == 0 {
        return Ok(None);
      }
      ghost var start := pos;
      var s := "";
      var x := 0;
      PrependNothing(WCharsFrom(data, start, size));
      while x < size
        invariant 0 <= x && (size > 0 ==> x <= size)
        invariant WCharsFrom(data, start, size) == Prepend(s, WCharsFrom(data, pos, size - x))
      {
        ghost var here := pos;
        var cr := ReadWChar();
        if cr.Err? {
          assert WCharsFrom(data, here, size - x) == Err(cr.error);
          return Err(cr.error);
        }
        var c := cr.value;
        assert WCharsFrom(data, here, size - x) == Prepend(c, WCharsFrom(data, pos, size - x - 1));
        PrependTwice(s, c, WCharsFrom(data, pos, size - x - 1));
        s := s + c;
        x := x + 1;
      }
      assert WCharsFrom(data, pos, size - x) == Ok(Parsed("", pos));
      assert s + "" == s;
      assert IntAt(data, old(pos)) == Ok(Parsed(size, start));
      return Ok(Some(s));
    }

    /** read_guid: a byte string. */
    method ReadGuid() returns (r: Result<Option<seq<byte>>>)
      modifies this`pos
      ensures Agrees(r, ByteStringAt(data, old(pos)), pos)
    {
      r := ReadString();
    }

    /** read_datetime: a wide string. */
    method ReadDatetime() returns (r: Result<Option<string>>)
      modifies this`pos
      ensures Agrees(r, WStringAt(data, old(pos)), pos)
    {
      r := ReadWString();
    }

    /** read_locale: a wide string. */
    method ReadLocale() returns (r: Result<Option<string>>)
      modifies this`pos
      ensures Agrees(r, WStringAt(data, old(pos)), pos)
    {
      r := ReadWString();
    }

    /** read_value with its default raw=True: a byte string. */
    method ReadValue() returns (r: Result<Option<seq<byte>>>)
      modifies this`pos
      ensures Agrees(r, ByteStringAt(data, old(pos)), pos)
    {
      r := ReadString();
    }

    /** read_type: a wide string. */
    method ReadType() returns (r: Result<Option<string>>)
      modifies this`pos
      ensures Agrees(r, WStringAt(data, old(pos)), pos)
    {
      r := ReadWString();
    }

    // -------------------------------------------------------------------------------------
    // Parameters and headers

    method ReadParameter() returns (r: Result<Parameter>)
      modifies this`pos
      ensures Agrees(r, ParameterAt(data, old(pos)), pos)
    {
      var name :- ReadWString();
      var value :- ReadValue();
      var t :- ReadType();
      var v :- FormatValue(value, t);
      return Ok(Parameter(name, t, v));
    }

    method ReadParameters() returns (r: Result<Parameters>)
      modifies this`pos
      ensures Agrees(r, ParametersAt(data, old(pos)), pos)
    {
      hide ParameterAt;
      var count :- ReadInt();
      ghost var start := pos;
      var pList: seq<Parameter> := [];
      var x := 0;
      PrependNothing(ParameterListFrom(data, start, count));
      while x < count
        invariant 0 <= x && (count > 0 ==> x <= count)
        invariant ParameterListFrom(data, start, count) == Prepend(pList, ParameterListFrom(data, pos, count - x))
      {
        ghost var here := pos;
        var pr := ReadParameter();
        if pr.Err? {
          assert ParameterListFrom(data, here, count - x) == Err(pr.error);
          return Err(pr.error);
        }
        var p := pr.value;
        assert ParameterListFrom(data, here, count - x) == Prepend([p], ParameterListFrom(data, pos, count - x - 1));
        PrependTwice(pList, [p], ParameterListFrom(data, pos, count - x - 1));
        pList := pList + [p];
        x := x + 1;
      }
      assert ParameterListFrom(data, pos, count - x) == Ok(Parsed([], pos));
      assert pList + [] == pList;
      return Ok(ParamMap(pList));
    }

    /**
     * read_data_header. As written, line 48 calls decode on the str read_wstring returned for
     * the datetime and raises for any non-empty datetime (DecodeDatetimeAsWritten); this
     * method keeps the datetime as read.
     */
    method ReadDataHeader() returns (r: Result<Header>)
      modifies this`pos
      ensures Agrees(r, HeaderAt(data, old(pos)), pos)
    {
      var uid :- ReadString();
      var guid :- ReadGuid();
      var datetime :- ReadDatetime();
      var u :- DecodeIfTruthy(uid);
      var g :- DecodeIfTruthy(guid);
      var locale :- ReadLocale();
      var params :- ReadParameters();
      return Ok(Header(u, g, datetime, locale, params));
    }

    /** The loop read_parent_header and read_extra share: an i32 count, then that many headers. */
    method ReadHeaderBlock() returns (r: Result<seq<Header>>)
      modifies this`pos
      ensures Agrees(r, HeaderBlockAt(data, old(pos)), pos)
    {
      hide HeaderAt;
      var count :- ReadInt();
      ghost var start := pos;
      var headers: seq<Header> := [];
      var x := 0;
      PrependNothing(HeadersFrom(data, start, count));
      while x < count
        invariant 0 <= x && (count > 0 ==> x <= count)
        invariant HeadersFrom(data, start, count) == Prepend(headers, HeadersFrom(data, pos, count - x))
      {
        ghost var here := pos;
        var hr := ReadDataHeader();
        if hr.Err? {
          assert HeadersFrom(data, here, count - x) == Err(hr.error);
          return Err(hr.error);
        }
        var h := hr.value;
        assert HeadersFrom(data, here, count - x) == Prepend([h], HeadersFrom(data, pos, count - x - 1));
        PrependTwice(headers, [h], HeadersFrom(data, pos, count - x - 1));
        headers := headers + [h];
        x := x + 1;
      }
      assert HeadersFrom(data, pos, count - x) == Ok(Parsed([], pos));
      assert headers + [] == headers;
      assert IntAt(data, old(pos)) == Ok(Parsed(count, start));
      return Ok(headers);
    }

    method ReadParentHeader() returns (r: Result<seq<Header>>)
      modifies this`pos
      ensures Agrees(r, HeaderBlockAt(data, old(pos)), pos)
    {
      r := ReadHeaderBlock();
    }

    method ReadExtra() returns (r: Result<seq<Header>>)
      modifies this`pos
      ensures Agrees(r, HeaderBlockAt(data, old(pos)), pos)
    {
      r := ReadHeaderBlock();
    }

    /** read_file_header: seek to 0 and set magic_number, version, group_num and group_pos. */
    method ReadFileHeader() returns (r: Result<()>)
      modifies this`pos, this`magicNumber, this`version, this`groupNum, this`groupPos
      ensures r.Ok? <==> FileHeaderAt(data).Ok?
      ensures r.Ok? ==>
        FileHeaderAt(data) == Ok(Parsed(FileHeader(magicNumber, version, groupNum, groupPos), pos))
      ensures r.Err? ==> r.error == FileHeaderAt(data).error
    {
      pos := 0;
      var magic :- ReadUByte();
      magicNumber := magic;
      var v :- ReadUByte();
      version := v;
      var num :- ReadInt();
      groupNum := num;
      var gp :- ReadUInt();
      groupPos := gp;
      return Ok(());
    }

    /** Lines 16 to 19 of __init__: the file header, the header, the parents and the extra block. */
    method ReadPreamble() returns (r: Result<()>)
      modifies this`pos, this`magicNumber, this`version, this`groupNum, this`groupPos
      modifies this`header, this`parents, this`extra
      ensures r.Ok? <==> PreambleAt(data).Ok?
      ensures r.Ok? ==> PreambleAt(data) == Ok(Parsed(Preamble(
        FileHeader(magicNumber, version, groupNum, groupPos), header, parents, extra), pos))
      ensures r.Err? ==> r.error == PreambleAt(data).error
    {
      hide FileHeaderAt, HeaderAt, HeaderBlockAt;
      var _ :- ReadFileHeader();
      var h :- ReadDataHeader();
      header := h;
      var ps :- ReadParentHeader();
      parents := ps;
      var ex :- ReadExtra();
      extra := ex;
      return Ok(());
    }

    // -------------------------------------------------------------------------------------
    // Data groups, data sets and their values

    method ReadDataValue(typeCode: int, size: int) returns (r: Result<Value>)
      modifies this`pos
      ensures Agrees(r, DataValueAt(data, old(pos), typeCode, size), pos)
    {
      if typeCode == 0 {
        var v :- ReadByte();
        r := Ok(Int(v));
      } else if typeCode == 1 {
        var v :- ReadUByte();
        r := Ok(Int(v));
      } else if typeCode == 2 {
        var v :- ReadShort();
        r := Ok(Int(v));
      } else if typeCode == 3 {
        var v :- ReadUShort();
        r := Ok(Int(v));
      } else if typeCode == 4 {
        var v :- ReadInt();
        r := Ok(Int(v));
      } else if typeCode == 5 {
        var v :- ReadUInt();
        r := Ok(Int(v));
      } else if typeCode == 6 {
        r := ReadFloat();
      } else if typeCode == 7 {
        var s :- ReadString();
        r := Ok(OfBytes(s));
      } else if typeCode == 8 {
        var s :- ReadWString();
        r := Ok(OfWide(s));
      } else if size < -1 {
        r := Err(ValueError);
      } else {
        var b := Read(size);
        r := Ok(Bytes(b));
      }
    }

    /** read_data: seek to the first element, then rows × columns cells, rows outer. */
    method ReadData(elePos: nat, rown: int, colFormat: seq<ColumnSpec>) returns (r: Result<Table>)
      modifies this`pos
      ensures Agrees(r, DataAt(data, elePos, colFormat, rown), pos)
    {
      hide RowsFrom, RowFrom, AppendRow, DataValueAt;
      pos := elePos;
      var d := EmptyTable(colFormat);
      ghost var rows: seq<seq<Value>> := [];
      var left := rown;
      PrependNothing(RowsFrom(data, elePos, colFormat, rown));
      while left > 0
        invariant forall i :: 0 <= i < |rows| ==> |rows[i]| == |colFormat|
        invariant RowsFrom(data, elePos, colFormat, rown) == Prepend(rows, RowsFrom(data, pos, colFormat, left))
        invariant d == TableOf(colFormat, rows)
        invariant forall i :: 0 <= i < |colFormat| ==> colFormat[i].name in d
      {
        ghost var here := pos;
        var cr := ReadRow(colFormat, d, rows);
        if cr.Err? {
          RowsFail(data, elePos, colFormat, rown, rows, here, left);
          return Err(cr.error);
        }
        ghost var cells := RowFrom(data, here, colFormat).value.value;
        RowsNext(data, elePos, colFormat, rown, rows, here, left);
        TableOfAppend(colFormat, rows, cells);
        d := cr.value;
        rows := rows + [cells];
        left := left - 1;
      }
      RowsDone(data, elePos, colFormat, rown, rows, pos, left);
      return Ok(d);
    }

    /** The first loop of read_data: an empty list for every column name. */
    static method EmptyTable(colFormat: seq<ColumnSpec>) returns (d: Table)
      ensures d == EmptyColumns(colFormat)
      ensures forall i :: 0 <= i < |colFormat| ==> colFormat[i].name in d
    {
      d := map[];
      var j := 0;
      while j < |colFormat|
        invariant 0 <= j <= |colFormat|
        invariant d == EmptyColumns(colFormat[..j])
        invariant forall i :: 0 <= i < j ==> colFormat[i].name in d
      {
        assert colFormat[..j + 1][..j] == colFormat[..j];
        d := d[colFormat[j].name := []];
        j := j + 1;
      }
      assert colFormat[..|colFormat|] == colFormat;
    }

    /** One pass of the inner loop of read_data: a cell per column, appended to its column's list. */
    method ReadRow(colFormat: seq<ColumnSpec>, t: Table, ghost rows: seq<seq<Value>>) returns (r: Result<Table>)
      requires forall i :: 0 <= i < |rows| ==> |rows[i]| == |colFormat|
      requires t == TableOf(colFormat, rows)
      requires forall i :: 0 <= i < |colFormat| ==> colFormat[i].name in t
      modifies this`pos
      ensures r.Ok? <==> RowFrom(data, old(pos), colFormat).Ok?
      ensures r.Ok? ==> pos == RowFrom(data, old(pos), colFormat).value.next
      ensures r.Ok? ==> r.value == AppendRow(t, colFormat, RowFrom(data, old(pos), colFormat).value.value)
      ensures r.Ok? ==> forall i :: 0 <= i < |colFormat| ==> colFormat[i].name in r.value
      ensures r.Err? ==> r.error == RowFrom(data, old(pos), colFormat).error
    {
      hide DataValueAt, RowFrom, AppendRow, TableOf;
      ghost var rowStart := pos;
      var d := t;
      ghost var cells: seq<Value> := [];
      var y := 0;
      assert colFormat[0..] == colFormat;
      assert colFormat[..0] == [];
      PrependNothing(RowFrom(data, rowStart, colFormat));
      LayoutFacts.AppendRowNone(t);
      while y < |colFormat|
        invariant 0 <= y <= |colFormat| && |cells| == y
        invariant RowFrom(data, rowStart, colFormat) == Prepend(cells, RowFrom(data, pos, colFormat[y..]))
        invariant d == AppendRow(t, colFormat[..y], cells)
        invariant forall i :: 0 <= i < |colFormat| ==> colFormat[i].name in d
      {
        ghost var here := pos;
        assert colFormat[y..][1..] == colFormat[y + 1..];
        LayoutFacts.RowStep(data, here, colFormat[y..]);
        var vr := ReadDataValue(colFormat[y].typeCode, colFormat[y].size);
        if vr.Err? {
          return Err(vr.error);
        }
        var v := vr.value;
        PrependTwice(cells, [v], RowFrom(data, pos, colFormat[y + 1..]));
        var name := colFormat[y].name;
        ghost var full := cells + [v] + seq(|colFormat| - y - 1, _ => Null);
        assert full[..y] == cells && full[..y + 1] == cells + [v];
        LayoutFacts.AppendRowStep(t, colFormat, full, y);
        d := d[name := d[name] + [v]];
        cells := cells + [v];
        y := y + 1;
      }
      assert colFormat[y..] == [];
      assert colFormat[..y] == colFormat;
      assert cells + [] == cells;
      LayoutFacts.RowNone(data, pos);
      return Ok(d);
    }

    /** The column loop of read_data_set: per column a wide-string name, an i8 type code and an i32 size. */
    method ReadColumns(col: int) returns (r: Result<seq<ColumnSpec>>)
      modifies this`pos
      ensures Agrees(r, ColumnsFrom(data, old(pos), col), pos)
    {
      hide ColumnAt;
      ghost var start := pos;
      var colFormat: seq<ColumnSpec> := [];
      var x := 0;
      PrependNothing(ColumnsFrom(data, start, col));
      while x < col
        invariant 0 <= x <= Count(col)
        invariant ColumnsFrom(data, start, col) == Prepend(colFormat, ColumnsFrom(data, pos, col - x))
      {
        ghost var here := pos;
        var cr := ReadColumn();
        if cr.Err? {
          assert ColumnsFrom(data, here, col - x) == Err(cr.error);
          return Err(cr.error);
        }
        var c := cr.value;
        assert ColumnsFrom(data, here, col - x) == Prepend([c], ColumnsFrom(data, pos, col - x - 1));
        PrependTwice(colFormat, [c], ColumnsFrom(data, pos, col - x - 1));
        colFormat := colFormat + [c];
        x := x + 1;
      }
      assert ColumnsFrom(data, pos, col - x) == Ok(Parsed([], pos));
      assert colFormat + [] == colFormat;
      return Ok(colFormat);
    }

    /** One column description of read_data_set. */
    method ReadColumn() returns (r: Result<ColumnSpec>)
      modifies this`pos
      ensures Agrees(r, ColumnAt(data, old(pos)), pos)
    {
      var cname :- ReadWString();
      var t :- ReadByte();
      var size :- ReadInt();
      return Ok(ColumnSpec(cname, t, size));
    }

    /** read_data_set: see Layout.DataSetAt. */
    method ReadDataSet() returns (r: Result<DataSet>)
      modifies this`pos, this`dataSetPos
      ensures AgreesMoved(r, DataSetAt(data, old(Cur())), Cur())
    {
      hide WStringAt, ParametersAt, ColumnsFrom, DataAt, UIntAt, RowsFrom, TableOf, IntAt;
      pos := dataSetPos;
      var elePos :- ReadUInt();
      var nxt :- ReadUInt();
      dataSetPos := nxt;
      var name :- ReadWString();
      var params :- ReadParameters();
      var col :- ReadUInt();
      var colFormat :- ReadColumns(col);
      var row :- ReadUInt();
      var cells :- ReadData(elePos, row, colFormat);
      return Ok(DataSet(name, params, col, colFormat, row, cells));
    }

    /** read_data_group: see Layout.GroupAt. */
    method ReadDataGroup() returns (r: Result<Group>)
      modifies this`pos, this`groupPos, this`dataSetPos
      ensures AgreesMoved(r, GroupAt(data, old(Cur())), Cur())
    {
      hide WStringAt, DataSetsFrom;
      var gp :- ReadUInt();
      groupPos := gp;
      var dp :- ReadUInt();
      dataSetPos := dp;
      var count :- ReadInt();
      var name :- ReadWString();
      var sets :- ReadDataSets(count);
      return Ok(Group(count, name, sets));
    }

    /** The data-set loop of read_data_group: count data sets, each from data_set_pos. */
    method ReadDataSets(count: int) returns (r: Result<seq<DataSet>>)
      modifies this`pos, this`dataSetPos
      ensures AgreesMoved(r, DataSetsFrom(data, old(Cur()), count), Cur())
    {
      hide DataSetAt;
      ghost var start := Cur();
      var sets: seq<DataSet> := [];
      var left := count;
      PrependMovedNothing(DataSetsFrom(data, start, left));
      while left > 0
        invariant DataSetsFrom(data, start, count) == PrependMoved(sets, DataSetsFrom(data, Cur(), left))
      {
        ghost var here := Cur();
        var dr := ReadDataSet();
        if dr.Err? {
          DataSetsFail(data, start, count, sets, here, left);
          return Err(dr.error);
        }
        DataSetsNext(data, start, count, sets, here, left);
        sets := sets + [dr.value];
        left := left - 1;
      }
      DataSetsDone(data, start, count, sets, Cur(), left);
      return Ok(sets);
    }

    /**
     * read_data_groups: seek once to group_pos and append group_num groups to data_groups.
     * When a group fails, the groups read before it stay appended.
     */
    method ReadDataGroups() returns (r: Result<()>)
      modifies this`pos, this`groupPos, this`dataSetPos, this`dataGroups
      ensures old(dataGroups) <= dataGroups
      ensures r.Ok? <==> DataGroupsAt(data, old(Cur()), groupNum).Ok?
      ensures r.Ok? ==> DataGroupsAt(data, old(Cur()), groupNum)
                        == Ok(Moved(dataGroups[|old(dataGroups)|..], Cur()))
      ensures r.Err? ==> r.error == DataGroupsAt(data, old(Cur()), groupNum).error
    {
      hide GroupAt;
      pos := groupPos;
      ghost var start := Cur();
      ghost var read: seq<Group> := [];
      var left := groupNum;
      PrependMovedNothing(GroupsFrom(data, start, left));
      while left > 0
        invariant dataGroups == old(dataGroups) + read
        invariant GroupsFrom(data, start, groupNum) == PrependMoved(read, GroupsFrom(data, Cur(), left))
      {
        ghost var here := Cur();
        var gr := ReadDataGroup();
        if gr.Err? {
          GroupsFail(data, start, groupNum, read, here, left);
          return Err(gr.error);
        }
        GroupsNext(data, start, groupNum, read, here, left);
        dataGroups := dataGroups + [gr.value];
        read := read + [gr.value];
        left := left - 1;
      }
      GroupsDone(data, start, groupNum, read, Cur(), left);
      assert dataGroups[|old(dataGroups)|..] == read;
      return Ok(());
    }
  }

  /** CelFile(path) on the file's bytes: the object, or the exception __init__ raises. */
  method Open(bytes: seq<byte>) returns (r: Result<CelFile>)
    ensures r.Ok? <==> PreambleAt(bytes).Ok?
    ensures r.Ok? ==> fresh(r.value) && r.value.data == bytes && r.value.dataGroups == []
    ensures r.Ok? ==> PreambleAt(bytes) == Ok(Parsed(Preamble(
      FileHeader(r.value.magicNumber, r.value.version, r.value.groupNum, r.value.groupPos),
      r.value.header, r.value.parents, r.value.extra), r.value.pos))
    ensures r.Err? ==> r.error == PreambleAt(bytes).error
  {
    var f := new CelFile(bytes);
    var _ :- f.ReadPreamble();
    return Ok(f);
  }
}
