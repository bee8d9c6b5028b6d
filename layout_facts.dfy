/**
 * Properties of the Calvin layout as cel_file.py reads it: what a writer must put in the
 * file for each read to give a value back, what the parameter dict and the data tables
 * hold, how many bytes fixed-width tables take, and which stored offsets the traversal
 * of data groups and data sets follows.
 */
module LayoutFacts {
  import opened Results
  import opened BigEndian
  import opened Unicode
  import opened Values
  import opened Layout

  /** The bytes of data starting at p are exactly e. */
  predicate HoldsAt(data: seq<byte>, p: nat, e: seq<byte>)
  {
    p + |e| <= |data| && data[p..p + |e|] == e
  }

  /** Bytes that hold a + b hold a, and b right after it. */
  lemma HoldsSplit(data: seq<byte>, p: nat, a: seq<byte>, b: seq<byte>)
    requires HoldsAt(data, p, a + b)
    ensures HoldsAt(data, p, a) && HoldsAt(data, p + |a|, b)
  {
    assert data[p..p + |a|] == (a + b)[..|a|];
    assert data[p + |a|..p + |a| + |b|] == (a + b)[|a|..];
  }

  // ---------------------------------------------------------------------------------------
  // Integers

  /** A width-byte two's-complement integer reads back as itself (read_int, read_short, read_byte). */
  lemma SignedAtEncoded(data: seq<byte>, p: nat, width: nat, x: int)
    requires width > 0 && -(Pow256(width) / 2) <= x < Pow256(width) / 2
    requires HoldsAt(data, p, EncodeSigned(x, width))
    ensures SignedAt(data, p, width) == Ok(Parsed(x, p + width))
  {
    SignedOfEncode(x, width);
  }

  /** A width-byte unsigned integer reads back as itself (read_uint, read_ushort, read_ubyte). */
  lemma UnsignedAtEncoded(data: seq<byte>, p: nat, width: nat, x: nat)
    requires width > 0 && x < Pow256(width)
    requires HoldsAt(data, p, EncodeUnsigned(x, width))
    ensures UnsignedAt(data, p, width) == Ok(Parsed(x, p + width))
  {
    UnsignedOfEncode(x, width);
  }

  /** The i32 length prefix of read_string and read_wstring. */
  function LengthPrefix(n: nat): (b: seq<byte>)
    requires n < 0x8000_0000
    ensures |b| == 4
  {
    Pow256Widths();
    EncodeSigned(n, 4)
  }

  lemma IntAtPrefix(data: seq<byte>, p: nat, n: nat)
    requires n < 0x8000_0000
    requires HoldsAt(data, p, LengthPrefix(n))
    ensures IntAt(data, p) == Ok(Parsed(n, p + 4))
  {
    Pow256Widths();
    SignedAtEncoded(data, p, 4, n);
  }

  // ---------------------------------------------------------------------------------------
  // Byte strings

  /** How a writer stores a byte string for read_string: its length as an i32, then its bytes. */
  function ByteStringBytes(s: seq<byte>): (b: seq<byte>)
    requires |s| < 0x8000_0000
    ensures |b| == 4 + |s|
  {
    LengthPrefix(|s|) + s
  }

  /** read_string gives a stored byte string back, except that b'' comes back as None. */
  lemma ByteStringAtEncoded(data: seq<byte>, p: nat, s: seq<byte>)
    requires |s| < 0x8000_0000
    requires HoldsAt(data, p, ByteStringBytes(s))
    ensures ByteStringAt(data, p) == Ok(Parsed(if s == [] then None else Some(s), p + 4 + |s|))
  {
    HoldsSplit(data, p, LengthPrefix(|s|), s);
    IntAtPrefix(data, p, |s|);
  }

  // ---------------------------------------------------------------------------------------
  // Wide strings

  /** A str of characters in the Basic Multilingual Plane: each is one UTF-16 code unit. */
  predicate Bmp(s: string)
  {
    forall i :: 0 <= i < |s| ==> s[i] as int < 0x1_0000
  }

  /** The two bytes of a code unit decode to it. */
  lemma UnitOfBytes(u: int)
    requires 0 <= u < 0x1_0000
    ensures Unsigned([u / 256, u % 256]) == u
  {
    var b: seq<byte> := [u / 256, u % 256];
    assert b[..1] == [u / 256];
    assert b[..1][..0] == [];
  }

  /** read_wchar on the two bytes of a code unit: the character, unless the unit is a surrogate. */
  lemma WCharAtUnit(data: seq<byte>, p: nat, u: int)
    requires 0 <= u < 0x1_0000
    requires HoldsAt(data, p, [u / 256, u % 256])
    ensures WCharAt(data, p) ==
      if 0xD800 <= u < 0xE000 then Err(UnicodeDecodeError) else Ok(Parsed([u as char], p + 2))
  {
    Pow256Widths();
    UnitOfBytes(u);
  }

  /** The code units of a str whose first character is in the Basic Multilingual Plane. */
  lemma Utf16EncodeBmpFront(s: string)
    requires s != "" && s[0] as int < 0x1_0000
    ensures var x := s[0] as int;
      && |Utf16Encode(s)| == 1 + |Utf16Encode(s[1..])|
      && UnitBytes(Utf16Encode(s)) == [x / 256, x % 256] + UnitBytes(Utf16Encode(s[1..]))
  {
    var u := Utf16Encode(s);
    assert u == [s[0] as int] + Utf16Encode(s[1..]);
    assert u[1..] == Utf16Encode(s[1..]);
  }

  /** The code units of a str whose first character lies above U+FFFF start with a high surrogate. */
  lemma Utf16EncodeHighFront(s: string)
    requires s != "" && s[0] as int >= 0x1_0000
    ensures var u := Utf16Encode(s);
      && |u| >= 2 && IsHighSurrogate(u[0])
      && UnitBytes(u) == [u[0] / 256, u[0] % 256] + UnitBytes(u[1..])
  {
    var u := Utf16Encode(s);
    assert u == Utf16Unit(s[0]) + Utf16Encode(s[1..]);
  }

  /** A str lies in the Basic Multilingual Plane when its first character and the rest do. */
  lemma BmpFront(s: string)
    requires s != ""
    ensures Bmp(s) <==> s[0] as int < 0x1_0000 && Bmp(s[1..])
  {
    if s[0] as int < 0x1_0000 && Bmp(s[1..]) {
      forall i | 0 <= i < |s| ensures s[i] as int < 0x1_0000 {
        if i > 0 { assert s[i] == s[1..][i - 1]; }
      }
    }
  }

  /** One pass of the loop of read_wstring. */
  lemma WCharsStep(data: seq<byte>, p: nat, k: int)
    requires k > 0
    ensures var c := WCharAt(data, p);
      WCharsFrom(data, p, k) ==
        if c.Err? then Err(c.error) else Prepend(c.value.value, WCharsFrom(data, c.value.next, k - 1))
  {
  }

  /** Reading the units of a str whose first character is one unit: that character, then the rest. */
  lemma WCharsBmpStep(data: seq<byte>, p: nat, s: string)
    requires s != "" && s[0] as int < 0x1_0000
    requires HoldsAt(data, p, UnitBytes(Utf16Encode(s)))
    ensures HoldsAt(data, p + 2, UnitBytes(Utf16Encode(s[1..])))
    ensures WCharsFrom(data, p, |Utf16Encode(s)|)
      == Prepend([s[0]], WCharsFrom(data, p + 2, |Utf16Encode(s[1..])|))
  {
    hide Utf16Encode, UnitBytes, WCharAt, HoldsAt, WCharsFrom;
    var x := s[0] as int;
    Utf16EncodeBmpFront(s);
    HoldsSplit(data, p, [x / 256, x % 256], UnitBytes(Utf16Encode(s[1..])));
    WCharAtUnit(data, p, x);
    assert WCharAt(data, p) == Ok(Parsed([s[0]], p + 2));
    WCharsStep(data, p, |Utf16Encode(s)|);
  }

  /** Reading the units of a str whose first character is a surrogate pair fails. */
  lemma WCharsHighStep(data: seq<byte>, p: nat, s: string)
    requires s != "" && s[0] as int >= 0x1_0000
    requires HoldsAt(data, p, UnitBytes(Utf16Encode(s)))
    ensures WCharsFrom(data, p, |Utf16Encode(s)|) == Err(UnicodeDecodeError)
  {
    hide Utf16Encode, UnitBytes, WCharAt, HoldsAt, WCharsFrom;
    Utf16EncodeHighFront(s);
    var u := Utf16Encode(s);
    HoldsSplit(data, p, [u[0] / 256, u[0] % 256], UnitBytes(u[1..]));
    WCharAtUnit(data, p, u[0]);
    WCharsStep(data, p, |u|);
  }

  /**
   * read_wchar decodes each two-byte unit on its own, so the UTF-16BE units of a str read
   * back as that str exactly when it lies in the Basic Multilingual Plane; the high
   * surrogate of any other character is rejected.
   */
  lemma {:induction false} WCharsFromUtf16(data: seq<byte>, p: nat, s: string)
    requires HoldsAt(data, p, UnitBytes(Utf16Encode(s)))
    ensures WCharsFrom(data, p, |Utf16Encode(s)|) ==
      if Bmp(s) then Ok(Parsed(s, p + 2 * |s|)) else Err(UnicodeDecodeError)
    decreases s, 1
  {
    if s == "" {
      assert Utf16Encode(s) == [];
    } else if s[0] as int < 0x1_0000 {
      WCharsFromUtf16Bmp(data, p, s);
    } else {
      BmpFront(s);
      WCharsHighStep(data, p, s);
    }
  }

  /** The case of WCharsFromUtf16 whose first character is one code unit. */
  lemma {:induction false} WCharsFromUtf16Bmp(data: seq<byte>, p: nat, s: string)
    requires s != "" && s[0] as int < 0x1_0000
    requires HoldsAt(data, p, UnitBytes(Utf16Encode(s)))
    ensures WCharsFrom(data, p, |Utf16Encode(s)|) ==
      if Bmp(s) then Ok(Parsed(s, p + 2 * |s|)) else Err(UnicodeDecodeError)
    decreases s, 0
  {
    hide Bmp, Utf16Encode, UnitBytes, WCharAt, HoldsAt, WCharsFrom;
    BmpFront(s);
    WCharsBmpStep(data, p, s);
    WCharsFromUtf16(data, p + 2, s[1..]);
    assert [s[0]] + s[1..] == s;
  }

  /** A str in the Basic Multilingual Plane has one UTF-16 code unit per character. */
  lemma {:induction false} BmpUnitCount(s: string)
    requires Bmp(s)
    ensures |Utf16Encode(s)| == |s|
  {
    if s != "" {
      BmpFront(s);
      Utf16EncodeBmpFront(s);
      BmpUnitCount(s[1..]);
    }
  }

  /** How a writer stores a str for read_wstring: its UTF-16 unit count as an i32, then the units big-endian. */
  function WStringBytes(s: string): (b: seq<byte>)
    requires |Utf16Encode(s)| < 0x8000_0000
    ensures |b| == 4 + 2 * |Utf16Encode(s)|
  {
    LengthPrefix(|Utf16Encode(s)|) + UnitBytes(Utf16Encode(s))
  }

  lemma WStringBytesFields(s: string)
    requires |Utf16Encode(s)| < 0x8000_0000
    ensures s == "" <==> |Utf16Encode(s)| == 0
    ensures WStringBytes(s) == LengthPrefix(|Utf16Encode(s)|) + UnitBytes(Utf16Encode(s))
  {
  }

  /** read_wstring once its count has been read. */
  lemma WStringAtFields(data: seq<byte>, p: nat, n: int)
    requires IntAt(data, p) == Ok(Parsed(n, p + 4))
    ensures var r := WCharsFrom(data, p + 4, n);
      WStringAt(data, p) ==
        if n == 0 then Ok(Parsed(None, p + 4))
        else if r.Err? then Err(r.error)
        else Ok(Parsed(Some(r.value.value), r.value.next))
  {
  }

  /**
   * read_wstring gives a stored str back when it lies in the Basic Multilingual Plane ('' comes
   * back as None), and raises UnicodeDecodeError on any other.
   */
  lemma WStringAtEncoded(data: seq<byte>, p: nat, s: string)
    requires |Utf16Encode(s)| < 0x8000_0000
    requires HoldsAt(data, p, WStringBytes(s))
    ensures WStringAt(data, p) ==
      if s == "" then Ok(Parsed(None, p + 4))
      else if Bmp(s) then Ok(Parsed(Some(s), p + 4 + 2 * |s|))
      else Err(UnicodeDecodeError)
  {
    hide WCharsFrom, UnitBytes, Utf16Encode, HoldsAt, WStringBytes, LengthPrefix, Bmp, IntAt, WStringAt;
    var n := |Utf16Encode(s)|;
    WStringBytesFields(s);
    HoldsSplit(data, p, LengthPrefix(n), UnitBytes(Utf16Encode(s)));
    IntAtPrefix(data, p, n);
    WCharsFromUtf16(data, p + 4, s);
    WStringAtFields(data, p, n);
  }

  // ---------------------------------------------------------------------------------------
  // Parameters

  /** The keys of the dict read_parameters returns are exactly the names of the parameters read. */
  lemma {:induction false} ParamMapKeys(ps: seq<Parameter>)
    ensures forall n :: n in ParamMap(ps) <==> exists i :: 0 <= i < |ps| && ps[i].name == n
  {
    if ps != [] {
      var init := ps[..|ps| - 1];
      ParamMapKeys(init);
      forall n ensures n in ParamMap(ps) <==> exists i :: 0 <= i < |ps| && ps[i].name == n {
        if n in ParamMap(init) {
          var i :| 0 <= i < |init| && init[i].name == n;
          assert ps[i].name == n;
        }
        if exists i :: 0 <= i < |ps| && ps[i].name == n {
          var i :| 0 <= i < |ps| && ps[i].name == n;
          if i < |ps| - 1 {
            assert init[i].name == n;
          }
        }
      }
    }
  }

  /** A later parameter of the same name overwrites an earlier one: each name keeps its last type and value. */
  lemma {:induction false} ParamMapLastWins(ps: seq<Parameter>, i: nat)
    requires i < |ps|
    requires forall j :: i < j < |ps| ==> ps[j].name != ps[i].name
    ensures ps[i].name in ParamMap(ps)
    ensures ParamMap(ps)[ps[i].name] == TypedValue(ps[i].tag, ps[i].value)
  {
    if i < |ps| - 1 {
      var init := ps[..|ps| - 1];
      forall j | i < j < |init| ensures init[j].name != init[i].name {
        assert init[j] == ps[j];
      }
      ParamMapLastWins(init, i);
      assert init[i] == ps[i];
    }
  }

  // ---------------------------------------------------------------------------------------
  // Data tables

  /** Columns with pairwise different names: read_data then keeps one list per column. */
  predicate DistinctNames(cols: seq<ColumnSpec>)
  {
    forall i, j :: 0 <= i < j < |cols| ==> cols[i].name != cols[j].name
  }

  /** n is no column's name. */
  predicate NotAName(cols: seq<ColumnSpec>, n: Option<string>)
  {
    forall j :: 0 <= j < |cols| ==> cols[j].name != n
  }

  /** Column j of a list of rows: its cells from the first row to the last. */
  function ColumnOf(rows: seq<seq<Value>>, j: nat): (c: seq<Value>)
    requires forall i :: 0 <= i < |rows| ==> j < |rows[i]|
    ensures |c| == |rows|
    ensures forall i :: 0 <= i < |rows| ==> c[i] == rows[i][j]
  {
    if rows == [] then [] else ColumnOf(rows[..|rows| - 1], j) + [rows[|rows| - 1][j]]
  }

  /** The first loop of read_data maps every column name, and nothing else, to an empty list. */
  lemma {:induction false} EmptyColumnsKeys(cols: seq<ColumnSpec>)
    ensures forall n :: n in EmptyColumns(cols) <==> exists j :: 0 <= j < |cols| && cols[j].name == n
    ensures forall n :: n in EmptyColumns(cols) ==> EmptyColumns(cols)[n] == []
  {
    if cols != [] {
      var init := cols[..|cols| - 1];
      EmptyColumnsKeys(init);
      forall n ensures n in EmptyColumns(cols) <==> exists j :: 0 <= j < |cols| && cols[j].name == n {
        if n in EmptyColumns(init) {
          var j :| 0 <= j < |init| && init[j].name == n;
          assert cols[j].name == n;
        }
        if exists j :: 0 <= j < |cols| && cols[j].name == n {
          var j :| 0 <= j < |cols| && cols[j].name == n;
          if j < |cols| - 1 {
            assert init[j].name == n;
          }
        }
      }
    }
  }

  /** Appending a row with distinct column names adds one cell to each column's list and changes nothing else. */
  lemma {:induction false} AppendRowColumns(t: Table, cols: seq<ColumnSpec>, row: seq<Value>)
    requires |row| == |cols| && DistinctNames(cols)
    requires forall j :: 0 <= j < |cols| ==> cols[j].name in t
    ensures forall n :: n in AppendRow(t, cols, row) <==> n in t
    ensures forall j :: 0 <= j < |cols| ==> AppendRow(t, cols, row)[cols[j].name] == t[cols[j].name] + [row[j]]
    ensures forall n :: n in t && NotAName(cols, n) ==> AppendRow(t, cols, row)[n] == t[n]
  {
    if cols != [] {
      var k := |cols| - 1;
      var init := cols[..k];
      var cells := row[..k];
      assert DistinctNames(init) by {
        forall i, j | 0 <= i < j < |init| ensures init[i].name != init[j].name {
          assert init[i] == cols[i] && init[j] == cols[j];
        }
      }
      AppendRowColumns(t, init, cells);
      var u := AppendRow(t, init, cells);
      var last := cols[k].name;
      assert NotAName(init, last) by {
        forall j | 0 <= j < |init| ensures init[j].name != last {
          assert init[j] == cols[j];
        }
      }
      assert u[last] == t[last];
      var r := AppendRow(t, cols, row);
      assert r == u[last := u[last] + [row[k]]];
      forall j | 0 <= j < |cols| ensures r[cols[j].name] == t[cols[j].name] + [row[j]] {
        if j < k {
          assert init[j] == cols[j] && cells[j] == row[j];
        }
      }
      forall n | n in t && NotAName(cols, n) ensures r[n] == t[n] {
        assert NotAName(init, n) by {
          forall j | 0 <= j < |init| ensures init[j].name != n {
            assert init[j] == cols[j];
          }
        }
      }
    }
  }

  /**
   * With distinct column names, the dict read_data builds maps each column's name, and only
   * those names, to the list of that column's cells in row order.
   */
  lemma {:induction false} TableOfColumns(cols: seq<ColumnSpec>, rows: seq<seq<Value>>)
    requires forall i :: 0 <= i < |rows| ==> |rows[i]| == |cols|
    requires DistinctNames(cols)
    ensures forall n :: n in TableOf(cols, rows) <==> exists j :: 0 <= j < |cols| && cols[j].name == n
    ensures forall j :: 0 <= j < |cols| ==> TableOf(cols, rows)[cols[j].name] == ColumnOf(rows, j)
  {
    if rows == [] {
      EmptyColumnsKeys(cols);
      forall j | 0 <= j < |cols| ensures EmptyColumns(cols)[cols[j].name] == [] {
        assert cols[j].name in EmptyColumns(cols);
      }
    } else {
      var init := rows[..|rows| - 1];
      var last := rows[|rows| - 1];
      TableOfColumns(cols, init);
      var t := TableOf(cols, init);
      forall j | 0 <= j < |cols| ensures cols[j].name in t {
      }
      AppendRowColumns(t, cols, last);
      assert TableOf(cols, rows) == AppendRow(t, cols, last);
    }
  }

  /** Every column's list in a table read with distinct column names holds one cell per row. */
  lemma DataAtColumns(data: seq<byte>, elePos: nat, cols: seq<ColumnSpec>, k: int)
    requires DistinctNames(cols)
    requires DataAt(data, elePos, cols, k).Ok?
    ensures var t := DataAt(data, elePos, cols, k).value.value;
      && (forall n :: n in t <==> exists j :: 0 <= j < |cols| && cols[j].name == n)
      && (forall j :: 0 <= j < |cols| ==> |t[cols[j].name]| == Count(k))
  {
    var rows := RowsFrom(data, elePos, cols, k).value.value;
    TableOfColumns(cols, rows);
  }

  // ---------------------------------------------------------------------------------------
  // Fixed-width tables

  /** Every column has a fixed-width type code (0 to 6). */
  predicate AllFixed(cols: seq<ColumnSpec>)
  {
    forall i :: 0 <= i < |cols| ==> FixedWidth(cols[i].typeCode).Some?
  }

  /** The bytes one row of fixed-width columns takes. */
  function RowWidth(cols: seq<ColumnSpec>): nat
    requires AllFixed(cols)
  {
    if cols == [] then 0 else FixedWidth(cols[0].typeCode).value + RowWidth(cols[1..])
  }

  /** One pass of the row loop of read_data. */
  lemma RowsStep(data: seq<byte>, p: nat, cols: seq<ColumnSpec>, k: int)
    requires k > 0
    ensures var row := RowFrom(data, p, cols);
      RowsFrom(data, p, cols, k) ==
        if row.Err? then Err(row.error) else Prepend([row.value.value], RowsFrom(data, row.value.next, cols, k - 1))
  {
  }

  /** The cell loop of read_data after its last column. */
  lemma RowNone(data: seq<byte>, p: nat)
    ensures RowFrom(data, p, []) == Ok(Parsed([], p))
  {
  }

  /** Appending the cells of no column changes nothing. */
  lemma AppendRowNone(t: Table)
    ensures AppendRow(t, [], []) == t
  {
  }

  /** Appending the cells of one more column: that column's list gets the cell. */
  lemma AppendRowStep(t: Table, cols: seq<ColumnSpec>, row: seq<Value>, y: nat)
    requires |row| == |cols| && y < |cols|
    ensures var u := AppendRow(t, cols[..y], row[..y]); var name := cols[y].name;
      AppendRow(t, cols[..y + 1], row[..y + 1]) == u[name := (if name in u then u[name] else []) + [row[y]]]
  {
    assert cols[..y + 1][..y] == cols[..y];
    assert row[..y + 1][..y] == row[..y];
  }

  /** One pass of the cell loop of read_data. */
  lemma RowStep(data: seq<byte>, p: nat, cols: seq<ColumnSpec>)
    requires cols != []
    ensures var v := DataValueAt(data, p, cols[0].typeCode, cols[0].size);
      RowFrom(data, p, cols) ==
        if v.Err? then Err(v.error) else Prepend([v.value.value], RowFrom(data, v.value.next, cols[1..]))
  {
  }

  /** The columns after the first of fixed-width columns are fixed-width, and take the rest of the row. */
  lemma RowWidthFront(cols: seq<ColumnSpec>)
    requires AllFixed(cols) && cols != []
    ensures AllFixed(cols[1..])
    ensures RowWidth(cols) == FixedWidth(cols[0].typeCode).value + RowWidth(cols[1..])
  {
    var rest := cols[1..];
    forall i | 0 <= i < |rest| ensures FixedWidth(rest[i].typeCode).Some? {
      assert rest[i] == cols[i + 1];
    }
  }

  /**
   * A row of fixed-width cells, read from inside the file, is read whole exactly when its bytes
   * are all there, and takes RowWidth bytes.
   */
  lemma {:induction false} RowFromFixed(data: seq<byte>, p: nat, cols: seq<ColumnSpec>)
    requires AllFixed(cols) && p <= |data|
    ensures RowFrom(data, p, cols).Ok? <==> p + RowWidth(cols) <= |data|
    ensures RowFrom(data, p, cols).Ok? ==> RowFrom(data, p, cols).value.next == p + RowWidth(cols)
    decreases |cols|
  {
    if cols != [] {
      hide DataValueAt, RowFrom, RowWidth, AllFixed;
      RowWidthFront(cols);
      RowStep(data, p, cols);
      var w := FixedWidth(cols[0].typeCode).value;
      var v := DataValueAt(data, p, cols[0].typeCode, cols[0].size);
      if v.Ok? {
        RowFromFixed(data, p + w, cols[1..]);
      }
    }
  }

  lemma MulStep(k: nat, w: nat)
    requires k > 0
    ensures k * w == w + (k - 1) * w && (k - 1) * w >= 0
  {
  }

  /** read_data with no rows left reads nothing. */
  lemma RowsNone(data: seq<byte>, p: nat, cols: seq<ColumnSpec>, k: int)
    requires k <= 0
    ensures RowsFrom(data, p, cols, k) == Ok(Parsed([], p))
  {
  }

  /** k rows of fixed-width cells are read whole exactly when k times RowWidth bytes are there, and take them all. */
  lemma {:induction false} RowsFromFixed(data: seq<byte>, p: nat, cols: seq<ColumnSpec>, k: nat)
    requires AllFixed(cols) && p <= |data|
    ensures RowsFrom(data, p, cols, k).Ok? <==> p + k * RowWidth(cols) <= |data|
    ensures RowsFrom(data, p, cols, k).Ok? ==> RowsFrom(data, p, cols, k).value.next == p + k * RowWidth(cols)
    decreases k
  {
    hide RowFrom, RowsFrom, RowWidth, AllFixed;
    var w := RowWidth(cols);
    var whole := RowsFrom(data, p, cols, k);
    if k == 0 {
      RowsNone(data, p, cols, k);
      assert whole == Ok(Parsed([], p));
    } else {
      RowFromFixed(data, p, cols);
      RowsStep(data, p, cols, k);
      MulStep(k, w);
      var row := RowFrom(data, p, cols);
      if row.Ok? {
        RowsFromFixed(data, p + w, cols, k - 1);
        var rest := RowsFrom(data, p + w, cols, k - 1);
        assert whole == Prepend([row.value.value], rest);
        if rest.Ok? {
          assert whole.Ok? && whole.value.next == rest.value.next;
        } else {
          assert whole.Err?;
        }
      } else {
        assert whole == Err(row.error);
        assert p + k * w > |data|;
      }
    }
  }

  // ---------------------------------------------------------------------------------------
  // Data sets and data groups

  /**
   * What read_data_set returns: col_format has the column count entries, and when the column
   * names differ the data dict holds one list of row-count cells per column.
   */
  lemma DataSetShape(data: seq<byte>, c: Cursor)
    requires DataSetAt(data, c).Ok?
    ensures var d := DataSetAt(data, c).value.value;
      && |d.colFormat| == d.col
      && (DistinctNames(d.colFormat) ==>
            (forall n :: n in d.data <==> exists j :: 0 <= j < |d.colFormat| && d.colFormat[j].name == n)
            && (forall j :: 0 <= j < |d.colFormat| ==> |d.data[d.colFormat[j].name]| == d.row))
  {
    var ele := UIntAt(data, c.dataSetPos).value;
    var nxt := UIntAt(data, ele.next).value;
    var name := WStringAt(data, nxt.next).value;
    var params := ParametersAt(data, name.next).value;
    var col := UIntAt(data, params.next).value;
    var fmt := ColumnsFrom(data, col.next, col.value).value;
    var row := UIntAt(data, fmt.next).value;
    var d := DataSetAt(data, c).value.value;
    assert d.colFormat == fmt.value && d.col == col.value && d.row == row.value;
    assert d.data == DataAt(data, ele.value, fmt.value, row.value).value.value;
    if DistinctNames(d.colFormat) {
      DataAtColumns(data, ele.value, fmt.value, row.value);
    }
  }

  /** read_data_set seeks to data_set_pos, so where the file object stood does not matter. */
  lemma DataSetAtSeeks(data: seq<byte>, c: Cursor, pos: nat)
    ensures DataSetAt(data, c.(pos := pos)) == DataSetAt(data, c)
  {
    hide UIntAt, WStringAt, ParametersAt, ColumnsFrom, DataAt;
  }

  /**
   * read_data_set leaves data_set_pos at the next-data-set offset stored four bytes into the
   * data set, and group_pos as it was.
   */
  lemma DataSetAtCursor(data: seq<byte>, c: Cursor)
    requires DataSetAt(data, c).Ok?
    ensures UIntAt(data, c.dataSetPos + 4).Ok?
    ensures DataSetAt(data, c).value.cur.groupPos == c.groupPos
    ensures DataSetAt(data, c).value.cur.dataSetPos == UIntAt(data, c.dataSetPos + 4).value.value
  {
    hide UIntAt, WStringAt, ParametersAt, ColumnsFrom, DataAt;
    var ele := UIntAt(data, c.dataSetPos).value;
    var nxt := UIntAt(data, ele.next).value;
    assert ele.next == c.dataSetPos + 4;
    assert DataSetAt(data, c).value.cur.dataSetPos == nxt.value;
  }

  /** One pass of the data-set loop of read_data_group. */
  lemma DataSetsStep(data: seq<byte>, c: Cursor, k: int)
    requires k > 0
    ensures var d := DataSetAt(data, c);
      DataSetsFrom(data, c, k) ==
        if d.Err? then Err(d.error) else PrependMoved([d.value.value], DataSetsFrom(data, d.value.cur, k - 1))
  {
  }

  /** The data-set loop with no passes left. */
  lemma DataSetsNone(data: seq<byte>, c: Cursor, k: int)
    requires k <= 0
    ensures DataSetsFrom(data, c, k) == Ok(Moved([], c))
  {
  }

  /** The data sets of a group never change group_pos. */
  lemma {:induction false} DataSetsKeepGroupPos(data: seq<byte>, c: Cursor, k: int)
    requires DataSetsFrom(data, c, k).Ok?
    ensures DataSetsFrom(data, c, k).value.cur.groupPos == c.groupPos
    decreases k
  {
    hide DataSetAt, DataSetsFrom;
    if k > 0 {
      DataSetsStep(data, c, k);
      var d := DataSetAt(data, c);
      assert d.Ok?;
      DataSetAtCursor(data, c);
      DataSetsKeepGroupPos(data, d.value.cur, k - 1);
      assert DataSetsFrom(data, c, k).value.cur == DataSetsFrom(data, d.value.cur, k - 1).value.cur;
    } else {
      DataSetsNone(data, c, k);
    }
  }

  /**
   * read_data_group reads at the current position, whatever group_pos and data_set_pos held, and
   * leaves group_pos at the next-group offset it read first.
   */
  lemma GroupAtCursor(data: seq<byte>, c: Cursor, groupPos: nat, dataSetPos: nat)
    ensures GroupAt(data, Cursor(c.pos, groupPos, dataSetPos)) == GroupAt(data, c)
    ensures GroupAt(data, c).Ok? ==>
      && UIntAt(data, c.pos).Ok?
      && GroupAt(data, c).value.cur.groupPos == UIntAt(data, c.pos).value.value
  {
    var r := GroupAt(data, c);
    if r.Ok? {
      var gp := UIntAt(data, c.pos).value;
      var dp := UIntAt(data, gp.next).value;
      var count := IntAt(data, dp.next).value;
      var name := WStringAt(data, count.next).value;
      DataSetsKeepGroupPos(data, Cursor(name.next, gp.value, dp.value), count.value);
    }
  }

  /**
   * read_data_groups seeks once, to group_pos, and then reads each group where the previous one
   * left the file: the next-group offsets it stores are never followed.
   */
  lemma {:induction false} DataGroupsBackToBack(data: seq<byte>, c: Cursor, groupNum: int)
    requires groupNum > 0
    ensures DataGroupsAt(data, c, groupNum) == GroupsFrom(data, Cursor(c.groupPos, 0, 0), groupNum)
    ensures var g := GroupAt(data, Cursor(c.groupPos, 0, 0));
      g.Ok? && groupNum > 1 ==>
        DataGroupsAt(data, c, groupNum)
          == PrependMoved([g.value.value], GroupsFrom(data, Cursor(g.value.cur.pos, 0, 0), groupNum - 1))
  {
    var start := Cursor(c.groupPos, 0, 0);
    GroupAtCursor(data, c.(pos := c.groupPos), 0, 0);
    var g := GroupAt(data, start);
    if g.Ok? && groupNum > 1 {
      GroupAtCursor(data, g.value.cur, 0, 0);
    }
  }
}
