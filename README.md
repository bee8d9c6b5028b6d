# Calvin CEL file reader, modelled in Dafny

This project models the `CelFile` reader of `cel_file.py`. The reader decodes an
Affymetrix "Command Console" (Calvin) CEL file. It reads big-endian integers,
length-prefixed byte strings and UTF-16 strings from an open file. From them it builds:

- the file header (magic number, version, group count, first group position);
- the generic data header;
- the parent headers;
- the extra headers, where `array_id` and `barcode` are looked up;
- on request, the data groups. Each group holds data sets, and each data set holds a
  parameter map, column formats and a column-major table of values.

The model has three layers.

- **Specification functions** (`Layout`). Each `read_*` method is a pure function of the
  file bytes and the position it starts from. It returns the value read and the next
  position, or the Python exception the code raises:
  - `struct.error` on a short read;
  - `UnicodeDecodeError`;
  - `TypeError` and `AttributeError` where the code calls a method on `None` or on a `str`;
  - `IndexError`;
  - `ValueError` when `fp.read` is given a length below -1.

  Short reads are modelled exactly. `fp.read(n)` returns at most `n` bytes, or the rest of
  the file for -1, and `unpack` fails when fewer bytes come back. Seeking past the end is
  allowed. Every length the code passes to `fp.read` is a constant, except for the raw cell
  of `read_data_value` (line 123), whose size comes from the file. A size below -1 there
  raises `ValueError`, and `Layout.DataValueAt` and `CelFile.ReadDataValue` return that
  error.

  The data-group walk seeks to positions stored in the file, so its functions take a
  `Cursor`: the file position plus the `group_pos` and `data_set_pos` attributes it reads
  and updates.
- **The class** (`CelFileModel.CelFile`). It keeps the file's bytes and the position of
  `fp` as fields. Each method, with its loops, is proved to return what the specification
  function gives and to leave the position (and the attributes it sets) where that function
  says.
- **Properties of the format** (`BigEndian`, `Unicode`, `Values`, `LayoutFacts`,
  `RecordFacts`):
  - round trips for integers, UTF-16 and UTF-8;
  - what `format_value` gives for each type tag;
  - round trips from the bytes a writer stores to what the reader returns, for every kind
    of record;
  - which column names a data table has, and what each column holds;
  - how far a row of fixed-width cells advances the position;
  - how the data-group walk threads `group_pos` and `data_set_pos`;
  - when `array_id` and `barcode` succeed, and which value they give.

Three reads do not do what the code evidently intends (see "Findings"). For each, the
model has a member that follows the code as written and a corrected definition.

- `text/plain` values (`parse_2byte_string`, line 216). `Values.ParsePlainAsWritten` strips
  zero bytes and decodes, as the code does. `Values.ParsePlain` is the corrected parse. It
  gives the same result wherever the code succeeds. It differs only where the stripped
  bytes have odd length: the code raises `UnicodeDecodeError` there, and the corrected parse
  puts back the zero low byte of the last character.
- The datetime of `read_data_header` (lines 47-48). `Layout.HeaderAtAsWritten` raises
  `AttributeError` for a non-empty datetime, as the code does. `Layout.HeaderAt` keeps the
  str.
- `read_double` (line 163). `Layout.DoubleAtAsWritten` always raises `struct.error`, and
  `Layout.DoubleAtFinding` states it. `Layout.DoubleAt` reads eight bytes.

`Values.FormatValue` uses `ParsePlain`. Every header reader uses `HeaderAt`, and
`CelFile.ReadDouble` uses `DoubleAt`. So the readers of parameters, headers, the preamble,
data sets and data groups, and the class methods built on them, follow the corrected
definitions. "Left out" lists these readers.

`read_wchar` decodes each two-byte unit on its own. A character outside the Basic
Multilingual Plane is stored as a surrogate pair, and reading it raises
`UnicodeDecodeError` (`LayoutFacts.WCharsFromUtf16`). The string round trips therefore hold
for BMP strings.

## Model

| member | source | states |
|---|---|---|
| `BigEndian.Unsigned` | cel_file.py:141-142 | an unsigned big-endian number of n bytes lies in [0, 256^n) |
| `BigEndian.Signed` | cel_file.py:138-139 | a two's-complement big-endian number lies in [-256^n/2, 256^n/2), is negative exactly when the top bit is set, and differs from the unsigned reading by 0 or 256^n |
| `BigEndian.SignBit` | cel_file.py:144-145 | the first byte is at least 0x80 exactly when the unsigned reading is at least half the range |
| `BigEndian.UnsignedOfEncode` | cel_file.py:141-142 | decoding the big-endian encoding of x gives x back |
| `BigEndian.EncodeOfUnsigned` | cel_file.py:141-142 | encoding the decoded value of any byte string gives the same bytes back |
| `BigEndian.SignedOfEncode` | cel_file.py:138-139 | signed decoding inverts signed encoding on the representable range |
| `BigEndian.EncodeOfSigned` | cel_file.py:138-139 | signed encoding inverts signed decoding on every non-empty byte string |
| `Unicode.Utf16RoundTrip` | cel_file.py:184-186 | the UTF-16 encoding of any str is well formed and decodes back to the str |
| `Unicode.Utf16EncodeDecode` | cel_file.py:184-186 | encoding the decoding of well-formed UTF-16 gives the same units back |
| `Unicode.Utf16InRange` | cel_file.py:184-186 | every unit of well-formed UTF-16 is a 16-bit value |
| `Unicode.Utf16EncodeAppend` | cel_file.py:174-182 | the UTF-16 encoding of a concatenation is the concatenation of the encodings |
| `Unicode.Utf16EncodeLast` | cel_file.py:216 | the last unit of an encoding is 0 exactly when the last character is NUL |
| `Unicode.Utf8RoundTrip` | cel_file.py:43-46 | the UTF-8 encoding of any str is valid and decodes back to the str |
| `Unicode.Utf8EncodeEnds` | cel_file.py:236 | the first and last bytes of a UTF-8 encoding are 0 exactly when the first and last characters are NUL |
| `Unicode.AsciiValid` | cel_file.py:236 | bytes below 0x80 are valid UTF-8 and decode to the characters with those codes |
| `Unicode.Utf8Rejects` | cel_file.py:43-46 | an encoded surrogate, an overlong encoding and a truncated sequence are not valid UTF-8 |
| `Values.RStrip` | cel_file.py:216 | rstrip removes exactly the trailing run of the given element and keeps a prefix |
| `Values.LStrip` | cel_file.py:236 | lstrip removes exactly the leading run of the given element and keeps a suffix |
| `Values.RStripPadding` | cel_file.py:216 | rstrip undoes appended padding on a sequence that does not end in the pad element |
| `Values.LStripPadding` | cel_file.py:236 | lstrip undoes prepended padding on a sequence that does not start with the pad element |
| `Values.StripNulPadding` | cel_file.py:236 | strip(b'\x00') undoes NUL padding on both ends |
| `Values.UnitsOfUnitBytes` | cel_file.py:186 | splitting the big-endian bytes of 16-bit units into pairs gives the units back |
| `Values.IntegerTag` | cel_file.py:223-234 | the six integer tags name formats of width 1, 2 or 4 |
| `Values.FormatIntegerTag` | cel_file.py:223-234 | an integer tag fails with TypeError on None and with struct.error on a short value; otherwise it reads only the leading width bytes and gives an integer in the format's range |
| `Values.FormatIntegerRoundTrip` | cel_file.py:223-234 | an integer packed in the tag's format, followed by any bytes, formats back to itself |
| `Values.FormatUnknownTag` | cel_file.py:237-239 | an unrecognised tag returns the raw value unchanged |
| `Values.ParsePlainAsWritten` | cel_file.py:211-216 | parse_2byte_string as written returns None as it is; a non-empty value that decodes gives a str of at most half as many characters as bytes |
| `Values.ParsePlain` | cel_file.py:211-216 | the corrected parse returns None and b'' as they are, equals the as-written parse wherever that succeeds, and differs only where the as-written parse raises UnicodeDecodeError on an odd-length stripped buffer |
| `Values.ParsePlainAsWrittenRoundTrip` | cel_file.py:211-216 | as written, a str padded with NUL characters parses back to the str when the low byte of its last code unit is not zero |
| `Values.FormatValue` | cel_file.py:218-239 | an unrecognised tag returns the value unchanged; on None only text/plain and unrecognised tags succeed (giving None), text/ascii raises AttributeError and the other tags TypeError; text/x-calvin-float succeeds exactly when 4 bytes are there and gives them; text/ascii gives a str; only recognised tags fail, and only with TypeError, struct.error, AttributeError or UnicodeDecodeError |
| `Values.FormatPlain` | cel_file.py:219-220 | format_value on text/plain is the corrected parse_2byte_string (ParsePlain), which agrees with the code wherever the code succeeds |
| `Values.ParsePlainRoundTrip` | cel_file.py:211-216 | a str stored as UTF-16-BE with trailing NUL characters parses back to the str |
| `Values.FormatPlainRoundTrip` | cel_file.py:219-220 | the same through format_value; None gives None and an empty value is returned as it is |
| `Values.FormatAscii` | cel_file.py:235-236 | text/ascii raises AttributeError on None, otherwise strips NUL bytes from both ends and decodes as UTF-8 or raises UnicodeDecodeError |
| `Values.FormatAsciiRoundTrip` | cel_file.py:235-236 | a str stored as UTF-8 with NUL padding on both sides formats back to the str |
| `Values.ParsePlainAsWrittenLosesUnit` | cel_file.py:216 | for every str whose last character has a zero low byte, the as-written parse does not give the str back, while the corrected parse does |
| `Values.ParsePlainAsWrittenExample` | cel_file.py:216 | the as-written parse of 4E 00 raises UnicodeDecodeError |
| `Values.ParsePlainExample` | cel_file.py:216 | the corrected parse of 4E 00 gives U+4E00 |
| `Layout.ReadAt` | cel_file.py:185 | fp.read(n), for the lengths it accepts (n >= -1), returns at most n bytes, exactly data[p..p+n] when they exist, the rest of the file for -1, and advances by what it returned |
| `Layout.FixedAt` | cel_file.py:150-151 | unpack of a fixed-size read succeeds exactly when enough bytes remain, and gives those bytes |
| `Layout.UnsignedAt` | cel_file.py:141-142 | an unsigned read succeeds exactly when width bytes remain and gives a value in [0, 256^width) |
| `Layout.SignedAt` | cel_file.py:138-139 | a signed read succeeds exactly when width bytes remain and gives a value in the two's-complement range |
| `Layout.UByteAt` | cel_file.py:147-148 | read_ubyte gives 0..255 and advances 1, or struct.error at end of file |
| `Layout.ByteAt` | cel_file.py:144-145 | read_byte gives -128..127 and advances 1, or struct.error |
| `Layout.UShortAt` | cel_file.py:156-157 | read_ushort gives 0..65535 and advances 2, or struct.error |
| `Layout.ShortAt` | cel_file.py:153-154 | read_short gives -32768..32767 and advances 2, or struct.error |
| `Layout.UIntAt` | cel_file.py:141-142 | read_uint gives 0..2^32-1 and advances 4, or struct.error |
| `Layout.IntAt` | cel_file.py:138-139 | read_int gives -2^31..2^31-1 and advances 4, or struct.error |
| `Layout.FloatAt` | cel_file.py:159-160 | read_float succeeds exactly when 4 bytes remain, gives those bytes and advances 4; otherwise struct.error |
| `Layout.DoubleAtAsWritten` | cel_file.py:162-163 | read_double as written raises struct.error on every input |
| `Layout.DoubleAt` | cel_file.py:162-163 | the corrected read_double succeeds exactly when 8 bytes remain, gives those bytes and advances 8; otherwise struct.error |
| `Layout.DoubleAtFinding` | cel_file.py:162-163 | the as-written read_double always raises struct.error; the corrected one succeeds exactly when 8 bytes remain and returns them |
| `Layout.ByteStringAt` | cel_file.py:126-134 | read_string fails (struct.error) exactly when the count or the counted bytes are missing; a count of 0 gives None, a negative count gives b'' and reads nothing more, a positive count n gives the next n bytes |
| `Layout.WCharAt` | cel_file.py:184-186 | read_wchar returns at most one character and advances two bytes per character returned |
| `Layout.WCharsFrom` | cel_file.py:180-182 | the character loop advances two bytes per character, returns at most count characters and fewer only at the end of the file, and fails only with UnicodeDecodeError |
| `Layout.WStringAt` | cel_file.py:174-182 | read_wstring raises struct.error when the count is missing and otherwise fails only with UnicodeDecodeError; it gives None exactly for a zero count, else a str of at most count characters, two bytes each |
| `Layout.ParameterAt` | cel_file.py:202-209 | read_parameter reads at least 12 bytes; under an unrecognised type tag the value stays None or bytes; it fails only with struct.error, UnicodeDecodeError, TypeError or AttributeError |
| `Layout.ParamMap` | cel_file.py:200 | the dict has at most one entry per parameter and holds the name of the last one |
| `Layout.ParametersAt` | cel_file.py:195-200 | read_parameters raises struct.error without a count, holds at most count names, reads at least 4 + 12 bytes per name, and fails only with the errors of read_parameter |
| `Layout.ParameterListFrom` | cel_file.py:195-199 | a successful parameter loop returns one parameter per iteration (none for a negative count) and reads at least 12 bytes for each; it fails only with the errors of read_parameter |
| `Layout.HeaderAt` | cel_file.py:38-51 | the corrected read_data_header raises struct.error without a uid count, reads at least 20 bytes, leaves uid and guid as None, b'' or a decoded str, and fails only with struct.error, UnicodeDecodeError, TypeError or AttributeError |
| `Layout.HeaderAtAsWritten` | cel_file.py:38-51 | read_data_header as written succeeds only with the corrected header and an empty or absent datetime; where the corrected read succeeds, it gives the same header when the datetime is empty or None and AttributeError otherwise |
| `Layout.HeaderBlockAt` | cel_file.py:241-246 | read_parent_header and read_extra raise struct.error without a count, return count headers (none for a negative count), and read at least 4 + 20 bytes per header |
| `Layout.FileHeaderAt` | cel_file.py:31-36 | read_file_header succeeds exactly when the file has 10 bytes, ends at byte 10, and gives a magic number and version in 0..255, a group count in the i32 range and a group position in the u32 range; otherwise struct.error |
| `Layout.PreambleAt` | cel_file.py:16-19 | the constructor's reads raise struct.error on a file shorter than 10 bytes, keep read_file_header's fields, and read at least 38 bytes plus 20 per parent and extra header |
| `Layout.HeadersFrom` | cel_file.py:241-246 | a successful header loop returns one header per iteration and reads at least 20 bytes for each |
| `Layout.ColumnAt` | cel_file.py:86 | a column format takes at least 9 bytes, has a type code in -128..127 and a size in the i32 range, and fails only with struct.error or UnicodeDecodeError |
| `Layout.ColumnsFrom` | cel_file.py:85-86 | a successful column loop returns one column format per iteration, and fails only with struct.error or UnicodeDecodeError |
| `Layout.DataValueAt` | cel_file.py:103-124 | each numeric type code reads its fixed width and gives a value in its range; any other type code reads at most size bytes, exactly those when they exist, the rest of the file for -1, and raises ValueError exactly when size is below -1; the only errors are struct.error, UnicodeDecodeError and ValueError |
| `Layout.RowFrom` | cel_file.py:98-100 | a successful row has one value per column; a failing one fails with an error of read_data_value |
| `Layout.RowsFrom` | cel_file.py:97-100 | a successful row loop returns one row per iteration, each with one value per column; a failing one fails with an error of read_data_value |
| `Layout.DataSetsFrom` | cel_file.py:72-73 | a successful data-set loop returns one data set per iteration |
| `Layout.GroupsFrom` | cel_file.py:62-63 | a successful group loop returns one group per iteration |
| `Layout.EmptyColumns` | cel_file.py:94-96 | the first loop of read_data maps every column name |
| `Layout.AppendRow` | cel_file.py:98-100 | appending a row keeps every key and maps every column name |
| `Layout.TableOf` | cel_file.py:93-100 | the table maps every column name |
| `Layout.DataAt` | cel_file.py:91-101 | read_data succeeds exactly when the row loop does, fails with its error, and maps every column name |
| `Layout.DataSetAt` | cel_file.py:76-89 | read_data_set raises struct.error when the two offsets at data_set_pos are missing; it gives col column formats, u32 column and row counts and a table with every column name; it fails only with struct.error, UnicodeDecodeError, TypeError, AttributeError or ValueError |
| `Layout.GroupAt` | cel_file.py:65-74 | read_data_group raises struct.error when its three numbers are missing, and gives one data set per iteration of its i32 count |
| `Layout.DataGroupsAt` | cel_file.py:60-63 | read_data_groups gives group_num groups, and for a count of zero or less none, leaving the file at group_pos |
| `Layout.TableOfAppend` | cel_file.py:97-100 | appending a row to the table of the earlier rows gives the table of all the rows |
| `LayoutFacts.HoldsSplit` | cel_file.py:126-134 | bytes that hold a concatenation hold each part in turn |
| `LayoutFacts.SignedAtEncoded` | cel_file.py:138-139 | a signed read of an encoded integer gives it back and advances by the width |
| `LayoutFacts.UnsignedAtEncoded` | cel_file.py:141-142 | an unsigned read of an encoded integer gives it back and advances by the width |
| `LayoutFacts.IntAtPrefix` | cel_file.py:127 | a stored length prefix reads back as the length |
| `LayoutFacts.ByteStringAtEncoded` | cel_file.py:126-134 | a stored byte string reads back as itself (None when empty) and advances past it |
| `LayoutFacts.WCharAtUnit` | cel_file.py:184-186 | read_wchar of a stored 16-bit unit gives the character, or UnicodeDecodeError for a surrogate |
| `LayoutFacts.BmpFront` | cel_file.py:180-181 | a str is in the BMP exactly when its first character is and the rest is |
| `LayoutFacts.WCharsFromUtf16` | cel_file.py:180-182 | reading the units of a stored str one at a time gives the str if it is in the BMP, and UnicodeDecodeError otherwise |
| `LayoutFacts.BmpUnitCount` | cel_file.py:175 | a BMP str has one UTF-16 unit per character, so the stored count is its length |
| `LayoutFacts.WStringAtEncoded` | cel_file.py:174-182 | a stored wide string reads back as itself (None when empty) or raises UnicodeDecodeError outside the BMP, and advances past it |
| `LayoutFacts.ParamMapKeys` | cel_file.py:200 | the keys of the parameter dict are exactly the names read |
| `LayoutFacts.ParamMapLastWins` | cel_file.py:200 | for a repeated name the dict keeps the type and value of the last parameter |
| `LayoutFacts.ColumnOf` | cel_file.py:100 | a column holds the j-th value of each row, in row order |
| `LayoutFacts.EmptyColumnsKeys` | cel_file.py:94-96 | the initial table has one empty list per column name |
| `LayoutFacts.AppendRowColumns` | cel_file.py:98-100 | with distinct names, a row appends its j-th value to column j and changes nothing else |
| `LayoutFacts.TableOfColumns` | cel_file.py:91-101 | with distinct names, the table's keys are the column names and column j holds the j-th value of every row |
| `LayoutFacts.DataAtColumns` | cel_file.py:91-101 | the same for the table read_data returns |
| `LayoutFacts.RowWidthFront` | cel_file.py:98-100 | the width of a row of fixed-width columns is the sum of the column widths |
| `LayoutFacts.RowFromFixed` | cel_file.py:98-100 | a row of fixed-width columns succeeds exactly when its width fits, and advances by its width |
| `LayoutFacts.RowsFromFixed` | cel_file.py:97-100 | k such rows succeed exactly when k times the row width fits, and advance by that much |
| `LayoutFacts.DataSetShape` | cel_file.py:83-88 | a data set read has col column formats and, with distinct names, one column of row values per column name |
| `LayoutFacts.DataSetAtSeeks` | cel_file.py:77 | read_data_set does not depend on the position it is called at, since it seeks first |
| `LayoutFacts.DataSetAtCursor` | cel_file.py:79-80 | after a data set, data_set_pos is the second uint of that data set and group_pos is unchanged |
| `LayoutFacts.DataSetsKeepGroupPos` | cel_file.py:72-73 | reading the data sets of a group never changes group_pos |
| `LayoutFacts.GroupAtCursor` | cel_file.py:67-68 | read_data_group does not depend on the stored positions, and sets group_pos to the first uint it reads |
| `LayoutFacts.DataGroupsBackToBack` | cel_file.py:60-63 | read_data_groups seeks to the first group once, and each later group is read where the previous one stopped, not at the stored next-group position |
| `RecordFacts.FileHeaderAtEncoded` | cel_file.py:31-36 | a stored file header reads back as itself and ends at byte 10 |
| `RecordFacts.ParameterAtEncoded` | cel_file.py:202-209 | a stored parameter reads back as its name, its type and format_value of its value, or format_value's exception |
| `RecordFacts.ColumnAtEncoded` | cel_file.py:86 | a stored column format reads back as its name, type code and size |
| `RecordFacts.DataValueAtEncoded` | cel_file.py:103-115 | a stored integer cell of type 0..5 reads back as itself, whatever the size field says |
| `RecordFacts.StoredParamsAt` | cel_file.py:197-199 | the i-th parameter read is the i-th parameter stored |
| `RecordFacts.StoredParamNames` | cel_file.py:205-209 | a stored parameter's name and type come back as written, None when empty |
| `RecordFacts.ParameterListFromEncoded` | cel_file.py:197-199 | a stored parameter list reads back parameter by parameter and advances past it |
| `RecordFacts.ParametersAtEncoded` | cel_file.py:195-200 | a stored parameter block reads back as the dict of its parameters |
| `RecordFacts.StoredHeaderParams` | cel_file.py:50 | the parameters of a stored header come back as the dict of its stored parameters |
| `RecordFacts.DecodeStored` | cel_file.py:43-46 | a stored UTF-8 uid or guid decodes back to itself, and the empty one stays None |
| `RecordFacts.HeaderAtEncoded` | cel_file.py:38-51 | a stored data header reads back as itself; as written, it raises AttributeError exactly when the datetime is not empty |
| `RecordFacts.DatetimeExample` | cel_file.py:47-48 | the 22-byte header with datetime "A" raises AttributeError as written, and reads as the corrected header |
| `RecordFacts.HeadersFromEncoded` | cel_file.py:243-245 | a stored list of headers reads back header by header |
| `RecordFacts.HeaderBlockAtEncoded` | cel_file.py:241-246 | a stored counted header block reads back as its headers |
| `RecordFacts.PreambleAtEncoded` | cel_file.py:16-19 | a stored file header, header, parent block and extra block read back as themselves |
| `CelFileModel.ExtraParameter` | cel_file.py:24-29 | the lookup succeeds exactly when there is an extra header whose parameters hold the key; otherwise IndexError for no extra header, AttributeError for a missing key |
| `CelFileModel.ExtraParameterOfList` | cel_file.py:25 | over the parameters read, the lookup succeeds exactly when some parameter has the key as its name, and gives the last such value |
| `CelFileModel.ExtraParameterStored` | cel_file.py:23-29 | for stored extra headers, the lookup succeeds exactly when the first one stores a parameter of that name, and gives format_value of the last such parameter |
| `CelFileModel.CelFile.constructor` | cel_file.py:10-14 | the attributes start at their initial values, with the file position at 0 |
| `CelFileModel.CelFile.ArrayId` | cel_file.py:23-25 | array_id succeeds exactly when the first extra header has the affymetrix-array-id key |
| `CelFileModel.CelFile.Barcode` | cel_file.py:27-29 | barcode succeeds exactly when the first extra header has the affymetrix-array-barcode key |
| `CelFileModel.CelFile.Read` | cel_file.py:185 | fp.read, for a length of -1 or more, returns what ReadAt gives and moves the position to its end |
| `CelFileModel.CelFile.ReadInt` | cel_file.py:138-139 | returns IntAt's value and position, or its error |
| `CelFileModel.CelFile.ReadUInt` | cel_file.py:141-142 | returns UIntAt's value and position, or its error |
| `CelFileModel.CelFile.ReadByte` | cel_file.py:144-145 | returns ByteAt's value and position, or its error |
| `CelFileModel.CelFile.ReadUByte` | cel_file.py:147-148 | returns UByteAt's value and position, or its error |
| `CelFileModel.CelFile.ReadChar` | cel_file.py:150-151 | returns the next byte, or struct.error at end of file |
| `CelFileModel.CelFile.ReadShort` | cel_file.py:153-154 | returns ShortAt's value and position, or its error |
| `CelFileModel.CelFile.ReadUShort` | cel_file.py:156-157 | returns UShortAt's value and position, or its error |
| `CelFileModel.CelFile.ReadFloat` | cel_file.py:159-160 | returns the four bytes of the float, or struct.error |
| `CelFileModel.CelFile.ReadDouble` | cel_file.py:162-163 | the corrected read_double returns eight bytes, or struct.error |
| `CelFileModel.CelFile.ReadString` | cel_file.py:126-134 | the character loop returns ByteStringAt's value and position, or its error |
| `CelFileModel.CelFile.ReadWChar` | cel_file.py:184-186 | returns WCharAt's character and position, or its error |
| `CelFileModel.CelFile.ReadWString` | cel_file.py:174-182 | the character loop returns WStringAt's value and position, or its error |
| `CelFileModel.CelFile.ReadGuid` | cel_file.py:165-166 | read_guid is read_string |
| `CelFileModel.CelFile.ReadDatetime` | cel_file.py:168-169 | read_datetime is read_wstring |
| `CelFileModel.CelFile.ReadLocale` | cel_file.py:171-172 | read_locale is read_wstring |
| `CelFileModel.CelFile.ReadValue` | cel_file.py:188-190 | read_value is read_string |
| `CelFileModel.CelFile.ReadType` | cel_file.py:192-193 | read_type is read_wstring |
| `CelFileModel.CelFile.ReadParameter` | cel_file.py:202-209 | returns ParameterAt's parameter and position, or its error |
| `CelFileModel.CelFile.ReadParameters` | cel_file.py:195-200 | the parameter loop returns ParametersAt's dict and position, or its error |
| `CelFileModel.CelFile.ReadDataHeader` | cel_file.py:38-51 | returns the corrected HeaderAt's header and position, or its error |
| `CelFileModel.CelFile.ReadHeaderBlock` | cel_file.py:241-246 | the header loop returns HeaderBlockAt's headers and position, or its error |
| `CelFileModel.CelFile.ReadParentHeader` | cel_file.py:241-246 | read_parent_header reads a counted header block |
| `CelFileModel.CelFile.ReadExtra` | cel_file.py:53-58 | read_extra reads a counted header block |
| `CelFileModel.CelFile.ReadFileHeader` | cel_file.py:31-36 | seeks to 0 and sets magic_number, version, group_num and group_pos to FileHeaderAt's fields, or raises its error |
| `CelFileModel.CelFile.ReadPreamble` | cel_file.py:16-19 | sets the file header, header, parents and extra to PreambleAt's parts, or raises its error |
| `CelFileModel.CelFile.ReadDataValue` | cel_file.py:103-124 | returns DataValueAt's value and position, or its error (ValueError for a raw cell whose size is below -1) |
| `CelFileModel.CelFile.ReadData` | cel_file.py:91-101 | seeks to ele_pos and returns DataAt's table and position, or its error |
| `CelFileModel.CelFile.ReadRow` | cel_file.py:98-100 | appends one row's values to their columns, keeping every column name present |
| `CelFileModel.CelFile.ReadColumns` | cel_file.py:85-86 | the column loop returns ColumnsFrom's formats and position, or its error |
| `CelFileModel.CelFile.ReadColumn` | cel_file.py:86 | returns ColumnAt's format and position, or its error |
| `CelFileModel.CelFile.ReadDataSet` | cel_file.py:76-89 | returns DataSetAt's data set and sets the position and data_set_pos to its cursor, or raises its error |
| `CelFileModel.CelFile.ReadDataGroup` | cel_file.py:65-74 | returns GroupAt's group and sets the position, group_pos and data_set_pos to its cursor, or raises its error |
| `CelFileModel.CelFile.ReadDataSets` | cel_file.py:72-73 | the data-set loop returns DataSetsFrom's data sets and cursor, or its error |
| `CelFileModel.CelFile.ReadDataGroups` | cel_file.py:60-63 | appends DataGroupsAt's groups to data_groups and leaves the cursor where it ends, or raises its error; data_groups only ever grows |
| `CelFileModel.Open` | cel_file.py:6-21 | CelFile(path) on the file's bytes gives an object whose attributes are PreambleAt's parts, or PreambleAt's error |

## Left out

- Opening the file by path (lines 7-8): the model starts from the file's bytes. I/O errors of `open` are not modelled.
- Floating point: `read_float`, `text/x-calvin-float` and the corrected `read_double` keep the 4 or 8 bytes of the number (`Float32`, `Float64`) instead of an IEEE value.
- The `print` for an unrecognised type tag (line 238) is output only; the value returned is modelled.
- `make_table` and `parameters_table` (lines 248-257) only format text for display and are not part of this model.
- Python dicts keep insertion order; the model's `map` does not, so the order of parameter names and column names is not modelled. Keys and values are.
- `data_set_pos` starts as `None` (line 14). The model starts it at 0, because `read_data_set` runs only after `read_data_group` sets it.
- When a method raises, the attributes it already set keep their new values. The class methods return the error and say nothing about the state left behind, except `ReadDataGroups`, which keeps the groups appended before the error.
- The unused `pos=None` parameters of `read_string`, `read_int`, `read_uint` and `read_byte` are left out.
- The magic number and version are read but not checked, and negative counts make a loop run zero times, as in the code.
- RecordFacts.ParameterAtEncoded, RecordFacts.ColumnAtEncoded and RecordFacts.HeaderAtEncoded: the string round trips are stated for BMP strings only, because `read_wchar` rejects the surrogate pairs of other characters (`LayoutFacts.WStringAtEncoded` states that rejection).
- RecordFacts.DataValueAtEncoded: the cell round trip covers integer cells (types 0-5). Float, string and raw cells are read by the functions already covered above.
- RecordFacts.StoredParam: the `Null` value it puts in place of a `format_value` exception is never read. The round trips require every stored parameter to be one `format_value` accepts.
- Integers are unbounded in the model; every fixed-width read states its range explicitly.
- Values.FormatValue / Values.FormatPlain: text/plain values are decoded by the corrected parse (`Values.ParsePlain`), not by the code as written (`Values.ParsePlainAsWritten`). These readers inherit the correction: `Layout.ParameterAt`, `ParameterListFrom`, `ParametersAt`, `HeaderAt`, `HeadersFrom`, `HeaderBlockAt`, `PreambleAt`, `DataSetAt`, `DataSetsFrom`, `GroupAt`, `GroupsFrom`, `DataGroupsAt`, `CelFileModel.ExtraParameter`, and `CelFile.ReadParameter`, `ReadParameters`, `ReadDataHeader`, `ReadHeaderBlock`, `ReadParentHeader`, `ReadExtra`, `ReadPreamble`, `ReadDataSet`, `ReadDataSets`, `ReadDataGroup`, `ReadDataGroups`, `ArrayId`, `Barcode` and `Open`. They differ from the code only on a non-empty text/plain value whose bytes, with trailing zero bytes stripped, have odd length, such as 4E 00. The code raises UnicodeDecodeError there; the model decodes the value with the zero byte put back.
- Layout.HeaderAt: every header reader above uses the corrected datetime handling. `Layout.HeaderAtAsWritten` states how the code as written differs: AttributeError for every non-empty datetime.
- CelFileModel.CelFile.ReadDouble: returns the eight bytes of the corrected read; the code as written always raises struct.error (`Layout.DoubleAtAsWritten`).
- CelFileModel.CelFile.Read: requires a length of -1 or more, because `fp.read` raises ValueError below that. The one read whose length comes from the file, the raw cell of `ReadDataValue`, returns that ValueError itself and does not call `Read` with such a length.

## Findings

| source | as written | input that shows it | evidently intended | confidence | as-written member | corrected member |
|---|---|---|---|---|---|---|
| cel_file.py:216 | `rstrip(b'\x00')` strips zero BYTES before decoding UTF-16-BE, so a final character whose low byte is 0 loses that byte | value bytes 4E 00 (U+4E00) with tag text/plain | strip zero code units (NUL characters), keeping the last character's zero low byte | not executed | `Values.ParsePlainAsWrittenLosesUnit` | `Values.ParsePlainRoundTrip` |
| cel_file.py:47-48 | `read_datetime` already returns a str, and `str.decode` raises AttributeError whenever the datetime is not empty | the 22-byte header 00000000 00000000 00000001 0041 00000000 00000000 | keep the str as it is | not executed | `RecordFacts.DatetimeExample` | `RecordFacts.HeaderAtEncoded` |
| cel_file.py:162-163 | `unpack('>d', ...)` is given `fp.read(4)`, four bytes for an eight-byte format, so it always raises struct.error | any file position | read 8 bytes | not executed | `Layout.DoubleAtFinding` | `CelFileModel.CelFile.ReadDouble` |
