# TENS codec in Dafny

This project models the core of the `tens-wasm` crate and proves properties of
that model. TENS is a canonical serialisation of JSON values with two encodings.

- **Canonicalisation** (`canonicalize`). Object keys are sorted. Strings are
  NFKC-normalised and then have trailing whitespace stripped line by line.
  NaN and the infinities become `null`, and `-0.0` becomes `0`.
- **TENS v2 binary.** The layout is:
  - the five-byte header `TENS\x02`;
  - a dictionary, built by the `StringTable` interner, written as a LEB128 count and then length-prefixed UTF-8 entries;
  - an opcode tree: `NULL`, `TRUE`, `FALSE`, `INT8`, `INT32`, `FLOAT64`, `STRING_REF`, `ARRAY_START`, `OBJECT_START`.

  `TensEncoder` makes two passes: `scan_strings`, then `encode_value`.
  `TensDecoder` is a cursor-driven recursive parser with typed errors.
- **TENS-Text.** A line format made of four parts:
  - directives `@version`, `@encoding`, `@schema` and an optional `@dict`;
  - a blank line;
  - one block per record: the schema name `data`, then two-space-indented `field value` lines.

  The encoder also covers type inference, the quoting predicate, escaping, and
  the text dictionary (strings occurring at least twice). The decoder is a
  line-by-line state machine.
- **`SchemaRegistry`.** It deduplicates key sets into sequential ids.
- **LEB128 varints.** These are `encode_varint` and `decode_varint` in `utils.rs`, in the unsigned LEB128 scheme of section 7.6 of DWARF v4.
- **`hex_encode`.**

## How the code is modelled

**Values and code that only computes**
- JSON values are the datatype `Values.Value`. Objects are sequences of (key, value) pairs whose keys are strictly ascending. This is the `BTreeMap` behind `serde_json::Map` without the `preserve_order` feature. `Map::insert` is modelled as a sorted insert (`Values.Insert`).
- Floats are 64-bit IEEE-754 bit patterns (`Float64.F64Bits`). NaN, infinity, the sign and integrality are read from the bits. The `i64 as f64` cast is defined exactly, rounding half to even.
- Pure code becomes functions: `canonicalize`, `infer_type`, `needs_quoting`, `format_tens_text_value`, `parse_tens_text_value` and `hex_encode`.

**Code that changes state**
- Classes:
  - `StringTable`, with an `entries` sequence and an `ids` map;
  - `TensEncoder`, which owns a `StringTable`;
  - `TensDecoder`, with a `dictionary` field;
  - `SchemaRegistry`, with the maps `lookup` and `schemas` and the counter `nextId`.
- Methods with loops: the varint routines, the text encoder's counting and writing loops, the `parse_dict_line` character loop, the unescaping loop, and the `decode_tens_text` line loop.
- Each method is proved equal to a specification function, and the lemmas are stated about those functions.

**Arithmetic casts**
- `usize as u32` keeps the low 32 bits (`Base.U32`).
- `decode_varint` keeps the low 32 bits of what it accumulates.
- On a sixth varint byte `decode_varint` shifts a `u32` by 35 bits. The source never reports this as an error: with overflow checks on the shift panics, and in a release build it is masked to 3 bits and decoding goes on. The model instead stops with the outcome `ShiftOverflow`, which `decode` turns into the error `VarintShiftOverflow` (see "## Left out").

**Panics**
- Slicing the one-character token `"` panics in `parse_tens_text_value`. The model returns `None` there, and `decode_tens_text` returns `None` when any line does.

**Foreign routines are parameters**
- `nfkc`: NFKC normalisation.
- `Foreign.parseF64`: `str::parse::<f64>`.
- `Foreign.display`: `f64` Display.
- `Foreign.toJson`: `serde_json::to_string`.

Unicode `char::is_whitespace` is written out as the `White_Space` code point list (`Canonical.IsWhitespace`).

**Where the code differs from its own comments** (the model follows the code)
- The `canonicalize` doc comment (`encoder.rs`, lines 62-67) promises strings with trailing whitespace stripped per line. The code rebuilds them with `str::lines`, which also drops one final empty line on each application, so `canonicalize` is not idempotent on strings: `"a\n\n"` gives `"a\n"`, which then gives `"a"` (`Canonical.CanonStringNotIdempotent`).
- A float with zero fractional part becomes an integer opcode only when `|f| < i32::MAX`, a strict bound. The integers ±2147483647.0 and -2147483648.0 stay `FLOAT64`.
- The text dictionary counts only strings held directly under a field name. Array items are not counted.
- `needs_quoting` recognises `@N` and `#N` through `parse::<u32>`, which accepts a leading `+` and rejects values above `u32::MAX`. It does not match a plain run of digits.
- A missing or truncated varint in the binary input is not an error: `decode_varint` returns the partial value.
- `decode` ignores bytes after the value tree.
- Text decoding can panic, on the lone token `"`.
- The text decoder never fails otherwise: every other input gives a value.

## Model

| member | source | states |
|---|---|---|
| Varint.Leb128 | packages/tens-wasm/src/utils.rs:22-36 | the encoding is never empty, and it is a single byte exactly when the value is below 128 |
| Varint.ReadLeb128 | packages/tens-wasm/src/utils.rs:39-56 | a successful read consumes at most the bytes given; empty input reads as value 0 with 0 bytes consumed |
| Varint.EncodeVarint | packages/tens-wasm/src/utils.rs:22-36 | the shifting loop emits exactly the LEB128 encoding of the `u32` |
| Varint.DecodeVarint | packages/tens-wasm/src/utils.rs:39-56 | the accumulating loop returns the value and consumed count of the specification read, overflow included |
| Varint.Leb128Examples | packages/tens-wasm/src/utils.rs:25-33 | 0, 127, 128 and 300 encode as `[0]`, `[127]`, `[0x80,0x01]`, `[0xAC,0x02]` |
| Varint.Leb128Shape | packages/tens-wasm/src/utils.rs:25-30 | every byte but the last carries the continuation bit 0x80 and the last does not |
| Varint.PayloadOfLeb128 | packages/tens-wasm/src/utils.rs:22-36 | the seven-bit groups of the encoding, little end first, add up to the value encoded |
| Varint.Leb128AtMostFive | packages/tens-wasm/src/utils.rs:24-34 | a `u32` never needs more than five bytes |
| Varint.Leb128RoundTrip | packages/tens-wasm/src/utils.rs:22-56 | decoding the encoding of any `u32`, whatever follows it, gives the value back and consumes exactly the encoding |
| Varint.ScanLengthIsFirstTerminator | packages/tens-wasm/src/utils.rs:43-52 | the decoder stops at and consumes the first byte with the high bit clear, or consumes everything when there is none |
| Varint.ReadLeb128Overflow | packages/tens-wasm/src/utils.rs:48-53 | the shift overflows exactly when the first five bytes all continue and a sixth byte exists |
| Values.LookupFound | packages/tens-wasm/src/encoder.rs:180 | `obj.get` finds a value exactly when the key is one of the object's keys |
| Values.InsertLookup | packages/tens-wasm/src/encoder.rs:108 | `insert` maps the key to the new value and leaves every other key's value alone |
| Values.InsertKeys | packages/tens-wasm/src/encoder.rs:108 | `insert` adds exactly its key to the key set |
| Values.InsertSorted | packages/tens-wasm/src/encoder.rs:104-110 | `insert` keeps the keys strictly ascending |
| Values.InsertAllSorted | packages/tens-wasm/src/encoder.rs:104-109 | inserting the fields of a strictly sorted list in order rebuilds that list |
| Utf8.DecodeEncode | packages/tens-wasm/src/encoder.rs:149-151 | `String::from_utf8` of a string's `as_bytes` gives the string back |
| Float64.FromLeBytes | packages/tens-wasm/src/encoder.rs:341 | reading the little-endian bytes of an n-byte integer gives the integer back |
| Canonical.TrimEnd | packages/tens-wasm/src/encoder.rs:92 | the result is a prefix of the input with no whitespace at its end, and only whitespace was cut |
| Canonical.CanonFloat | packages/tens-wasm/src/encoder.rs:72-86 | a float becomes null exactly when it is NaN or infinite, becomes the integer 0 exactly when it is -0.0, and is otherwise unchanged |
| Canonical.Canonicalize | packages/tens-wasm/src/encoder.rs:68-113 | arrays, objects and strings stay arrays, objects and strings; an array keeps its length and each item is canonicalised in place, nulls included |
| Canonical.CanonPairs | packages/tens-wasm/src/encoder.rs:101-106 | the pairs fed to the new map keep the object's keys, in order, each with its canonicalised value |
| Canonical.CanonicalizeIsCanonical | packages/tens-wasm/src/encoder.rs:68-113 | the output has strictly sorted keys at every depth and only finite floats that are not -0.0 |
| Canonical.CanonicalizeSortedObject | packages/tens-wasm/src/encoder.rs:99-111 | an object whose keys are already sorted keeps its keys in place, each value canonicalised |
| Canonical.CanonicalizeObjectLookup | packages/tens-wasm/src/encoder.rs:99-111 | each key of an object keeps its canonicalised value, and no key is added |
| Canonical.CanonicalizeSortsKeys | packages/tens-wasm/src/encoder.rs:99-111 | `{"c":3,"a":1,"b":2}` comes out with keys a, b, c |
| Canonical.StripCanonString | packages/tens-wasm/src/encoder.rs:87-95 | string canonicalisation removes whitespace only: all other characters survive, in order |
| Canonical.CanonStringLinesTrimmed | packages/tens-wasm/src/encoder.rs:90-94 | no line of a canonical string ends in whitespace |
| Canonical.CanonStringNotIdempotent | packages/tens-wasm/src/encoder.rs:90-94 | `"a\n\n"` canonicalises to `"a\n"`, which canonicalises to `"a"`: a second pass can change a string |
| StringTables.StringTable.constructor | packages/tens-wasm/src/encoder.rs:33-38 | a new table is empty and consistent |
| StringTables.StringTable.Add | packages/tens-wasm/src/encoder.rs:41-49 | a known string returns its id and changes nothing; a new string gets the old length as id and is appended; the id is always the string's position |
| StringTables.AddAllExtends | packages/tens-wasm/src/encoder.rs:41-49 | adding strings only appends to the table |
| StringTables.AddAllDistinct | packages/tens-wasm/src/encoder.rs:41-49 | the table never holds a string twice |
| StringTables.AddAllMembers | packages/tens-wasm/src/encoder.rs:41-49 | the table holds exactly its earlier strings and the strings added |
| StringTables.AddAllRepeated | packages/tens-wasm/src/encoder.rs:41-49 | a string added k >= 1 times takes one entry |
| StringTables.AddAllFirstSeen | packages/tens-wasm/src/encoder.rs:41-49 | ids follow first-seen order: the string first seen earlier gets the lower id |
| BinaryFormat.SignedByte | packages/tens-wasm/src/encoder.rs:333 | `b as i8` is the value in [-128, 127] congruent to the byte modulo 256 |
| BinaryFormat.SignedI32 | packages/tens-wasm/src/encoder.rs:341 | `i32::from_le_bytes` is the `i32` congruent to the unsigned reading modulo 2^32 |
| BinaryFormat.FromF64 | packages/tens-wasm/src/encoder.rs:353 | `json!(f)` is a number exactly when `f` is finite, and then carries `f` unchanged |
| BinaryFormat.DecodeValue | packages/tens-wasm/src/encoder.rs:314-397 | a decoded value takes at least one byte and no more than the input holds |
| BinaryFormat.ScanCovers | packages/tens-wasm/src/encoder.rs:137-138 | after the scan every string and key of the value has an id, and the dictionary has no repeats, so `encode_value` never grows the table |
| BinaryFormat.EncodeNull | packages/tens-wasm/src/encoder.rs:132-158 | `encode(null)` is exactly the seven bytes `54 45 4E 53 02 00 00` |
| BinaryFormat.EncodeStartsWithHeader | packages/tens-wasm/src/encoder.rs:144-147 | every encoding opens with `TENS\x02` and then the varint dictionary count |
| BinaryFormat.SortedKeysDictionary | packages/tens-wasm/src/encoder.rs:172-178 | the keys of `{"b":2,"a":1}` enter the dictionary as `["a","b"]` |
| BinaryFormat.RepeatedStringOneEntry | packages/tens-wasm/src/encoder.rs:164-170 | a string repeated k >= 1 times in an array takes exactly one dictionary entry |
| BinaryFormat.Int8Opcode | packages/tens-wasm/src/encoder.rs:200-202 | an integer in [-128, 127] is `INT8` and one two's-complement byte that reads back as the integer |
| BinaryFormat.Int32Opcode | packages/tens-wasm/src/encoder.rs:203-205 | any other `i32` is `INT32` and the four little-endian bytes of its two's-complement pattern |
| BinaryFormat.Float64Opcode | packages/tens-wasm/src/encoder.rs:206-210 | an `i64` outside the `i32` range is `FLOAT64` and the eight bytes of the nearest `f64` |
| BinaryFormat.DecodeHeaderErrors | packages/tens-wasm/src/encoder.rs:279-287 | fewer than five bytes, a wrong magic and a version other than 2 give their errors, in that order |
| BinaryFormat.DecodeHeaderOnly | packages/tens-wasm/src/encoder.rs:289-317 | a header with an empty dictionary and no value tree is the unexpected-end error |
| BinaryFormat.DecodeValueErrors | packages/tens-wasm/src/encoder.rs:315-317 | an empty value section is an error, and so is every byte that is not an opcode (0x04 included) |
| BinaryFormat.DecodeStringRefError | packages/tens-wasm/src/encoder.rs:356-362 | for every buffer starting with `STRING_REF`, whatever follows the id: the id read at or past the dictionary's length gives the out-of-bounds error carrying that id, and an id in range gives its dictionary string and ends after the id |
| BinaryFormat.DecodeKeyRefError | packages/tens-wasm/src/encoder.rs:381-386 | a key id at or past the dictionary's length is the key error carrying that id, at any position in the input, with any number of fields left, any fields read before and whatever follows |
| BinaryFormat.DecodeEntryPastEnd | packages/tens-wasm/src/encoder.rs:296-302 | a dictionary entry whose declared length runs past the input ends the dictionary loop with `EntryPastEnd`, whichever entry it is, with any count left and any entries read before |
| BinaryFormat.DecodeDictionaryError | packages/tens-wasm/src/encoder.rs:295-304 | an error while reading the dictionary is the error `decode` returns |
| BinaryFormat.DecodeFirstEntryPastEnd | packages/tens-wasm/src/encoder.rs:291-302 | a header, a count of one and an entry length longer than the rest of the input make `decode` fail with `EntryPastEnd` |
| BinaryCodec.TensEncoder.constructor | packages/tens-wasm/src/encoder.rs:123-128 | the encoder starts with a fresh, empty string table |
| BinaryCodec.TensEncoder.Encode | packages/tens-wasm/src/encoder.rs:132-158 | the bytes are the specified encoding of the canonical value, and the table is rebuilt to hold exactly that value's dictionary |
| BinaryCodec.TensEncoder.ScanStrings | packages/tens-wasm/src/encoder.rs:162-187 | the table gains the value's strings in depth-first order, each object's keys before its values |
| BinaryCodec.TensEncoder.ScanArray | packages/tens-wasm/src/encoder.rs:167-171 | the items' strings are added item by item |
| BinaryCodec.TensEncoder.ScanObject | packages/tens-wasm/src/encoder.rs:172-184 | all keys are added first, then each value's strings |
| BinaryCodec.TensEncoder.AddKeys | packages/tens-wasm/src/encoder.rs:176-178 | the keys are added in order |
| BinaryCodec.TensEncoder.EncodeValue | packages/tens-wasm/src/encoder.rs:190-256 | the value's bytes are appended to the output and the table is left unchanged |
| BinaryCodec.TensEncoder.EncodeArray | packages/tens-wasm/src/encoder.rs:233-239 | the array's opcode, count and items are appended and the table is unchanged |
| BinaryCodec.TensEncoder.EncodeObject | packages/tens-wasm/src/encoder.rs:240-254 | the object's opcode, count, key ids and values are appended and the table is unchanged |
| BinaryCodec.TensDecoder.constructor | packages/tens-wasm/src/encoder.rs:271-275 | the decoder starts with an empty dictionary |
| BinaryCodec.TensDecoder.Decode | packages/tens-wasm/src/encoder.rs:278-312 | the result is the specified decoding; the dictionary is replaced by the one read, and left alone when the header or count fails |
| BinaryCodec.TensDecoder.ReadEntries | packages/tens-wasm/src/encoder.rs:295-307 | the entry loop leaves the dictionary and the position or error that the specified read gives |
| BinaryCodec.TensDecoder.DecodeValue | packages/tens-wasm/src/encoder.rs:314-397 | the cursor parser returns the specified value and byte count, or error |
| BinaryCodec.TensDecoder.DecodeArray | packages/tens-wasm/src/encoder.rs:365-375 | the array arm reads a count and that many values |
| BinaryCodec.TensDecoder.DecodeObject | packages/tens-wasm/src/encoder.rs:377-393 | the object arm inserts each key and value into a new map |
| BinaryCodec.TensDecoder.DecodeField | packages/tens-wasm/src/encoder.rs:382-389 | one field is a checked key id and then a value |
| BinaryRoundTrip.RoundTrip | packages/tens-wasm/src/encoder.rs:132-397 | `decode(encode(v) ++ rest)` is the canonical form of `v`, with numbers as their opcodes read them back |
| BinaryRoundTrip.PlainRoundTrip | packages/tens-wasm/src/encoder.rs:132-397 | for a value without floats whose integers fit an `i32`, `decode(encode(v))` is exactly `canonicalize(v)` |
| BinaryRoundTrip.BufferRoundTrip | packages/tens-wasm/src/encoder.rs:278-312 | a header, a dictionary and an encoded value tree, whatever follows, decode to the value |
| BinaryRoundTrip.DictionaryRoundTrip | packages/tens-wasm/src/encoder.rs:146-152 | the dictionary written reads back entry for entry, and the value tree starts where it ends |
| BinaryRoundTrip.ValueRoundTrip | packages/tens-wasm/src/encoder.rs:190-256 | `decode_value` reads back every value `encode_value` writes, ending exactly where it ended |
| BinaryRoundTrip.SmallIntRoundTrip | packages/tens-wasm/src/encoder.rs:329-343 | `INT8` and `INT32` read back the integer written |
| BinaryRoundTrip.IntRoundTrip | packages/tens-wasm/src/encoder.rs:199-210 | every integer reads back as its opcode reclassifies it |
| BinaryRoundTrip.FloatRoundTrip | packages/tens-wasm/src/encoder.rs:211-225 | a float reads back as an integer when it took an integer opcode, otherwise as itself |
| BinaryRoundTrip.Float64RoundTrip | packages/tens-wasm/src/encoder.rs:345-354 | `FLOAT64` reads back its eight bytes, as null when they are not finite |
| BinaryRoundTrip.StringRoundTrip | packages/tens-wasm/src/encoder.rs:356-363 | a string reference reads back the dictionary string |
| BinaryRoundTrip.ArrayRoundTrip | packages/tens-wasm/src/encoder.rs:365-375 | an encoded array reads back item for item |
| BinaryRoundTrip.ObjectRoundTrip | packages/tens-wasm/src/encoder.rs:377-393 | an encoded sorted object reads back field for field |
| BinaryRoundTrip.InsertNextField | packages/tens-wasm/src/encoder.rs:390 | inserting the next field of a sorted object appends it |
| BinaryRoundTrip.CanonicalizePlain | packages/tens-wasm/src/encoder.rs:68-113 | canonicalisation brings in no float and changes no integer |
| Decimal.ParseI64IntString | packages/tens-wasm/src/encoder.rs:792 | `parse::<i64>` reads back `i.to_string()` for every `i64` |
| Decimal.ParseUnsignedDecimal | packages/tens-wasm/src/encoder.rs:759 | `parse::<usize>` reads back the decimal text of an index below the limit |
| Decimal.IntStringStart | packages/tens-wasm/src/encoder.rs:462 | `to_string` of an integer starts with a digit or `-` |
| Decimal.ParseRejectsNonDigit | packages/tens-wasm/src/encoder.rs:792 | an integer parse rejects text holding a character that is neither a digit nor a sign |
| Sorting.SortByOrdered | packages/tens-wasm/src/schema.rs:42 | `sort_by` on the key returns its input reordered, in ascending order |
| Sorting.SortSorted | packages/tens-wasm/src/encoder.rs:174-175 | sorting keys that are already ascending changes nothing |
| Sorting.SortedUnique | packages/tens-wasm/src/encoder.rs:553 | two sorted sequences with the same elements, repetitions counted, are equal |
| Sorting.SortByKeys | packages/tens-wasm/src/schema.rs:42-44 | sorting pairs by key and taking the keys is sorting the keys |
| TextQuoting.NeedsQuoting | packages/tens-wasm/src/encoder.rs:415-434 | `""`, `_`, `true` and `false` need quoting; a string left bare is non-empty, does not parse as a float, and has no whitespace or special character |
| TextQuoting.QuoteString | packages/tens-wasm/src/encoder.rs:437-452 | the loop writes the quoted, escaped form |
| TextQuoting.QuoteShape | packages/tens-wasm/src/encoder.rs:437-452 | the quoted form opens and closes with `"` and holds the escaped string between them |
| TextQuoting.UnescapeLoop | packages/tens-wasm/src/encoder.rs:769-783 | the unescaping loop computes the unescaping of the text |
| TextQuoting.UnescapeEscape | packages/tens-wasm/src/encoder.rs:437-452 | unescaping undoes escaping exactly |
| TextQuoting.TokenEscape | packages/tens-wasm/src/encoder.rs:718-738 | a quoted `@dict` token reads back the string quoted and ends just after its closing quote |
| TextQuoting.EscapeNoLineBreak | packages/tens-wasm/src/encoder.rs:444-445 | the escaped form holds no newline or carriage return |
| TextLines.TrimStart | packages/tens-wasm/src/encoder.rs:627 | the result is a suffix that does not start with whitespace, and only whitespace was cut |
| TextLines.WordEnd | packages/tens-wasm/src/encoder.rs:742 | the first whitespace position, or the length, with no whitespace before it |
| TextLines.LinesOfLines | packages/tens-wasm/src/encoder.rs:626 | `lines` of newline-terminated lines gives those lines back |
| TextLines.TrimNoEdges | packages/tens-wasm/src/encoder.rs:627 | text without whitespace at either end is its own `trim` |
| TextValues.InferType | packages/tens-wasm/src/encoder.rs:403-412 | `str[]` exactly for arrays, `num` exactly for numbers, `str` exactly for strings and objects |
| TextValues.ParseTextValue | packages/tens-wasm/src/encoder.rs:753-801 | the method, with its unescaping loop, gives the specified parse |
| TextValues.FormatParseRoundTrip | packages/tens-wasm/src/encoder.rs:455-491 | null, booleans, `i64`s and strings (by dictionary index, quoted or bare) read back as themselves |
| TextValues.NonFiniteReadsAsString | packages/tens-wasm/src/encoder.rs:463-471 | NaN and the infinities are written as quoted words that read back as strings, not numbers |
| TextValues.QuotedReadsBack | packages/tens-wasm/src/encoder.rs:766-788 | a quoted token reads back as the string quoted |
| TextValues.NegativeZeroReadsAsZero | packages/tens-wasm/src/encoder.rs:472-473 | -0.0 is written as `-0`, which reads back as the integer 0 |
| TextValues.ContainerReadsAsJson | packages/tens-wasm/src/encoder.rs:492-496 | an array or object at field level reads back as its JSON text |
| TextValues.PanicsOnlyOnLoneQuote | packages/tens-wasm/src/encoder.rs:766-768 | parsing fails (panics) exactly on the one-character token `"` |
| TextValues.DictRefFallback | packages/tens-wasm/src/encoder.rs:758-765 | an `@` token that is not a number, or is past the dictionary, is kept as a literal string |
| TextEncoder.FieldTypes | packages/tens-wasm/src/encoder.rs:520-522 | one type label per field name |
| TextEncoder.ArrayFlags | packages/tens-wasm/src/encoder.rs:525-534 | one array flag per field name |
| TextEncoder.EncodeTensText | packages/tens-wasm/src/encoder.rs:501-615 | the method writes the specified text or error |
| TextEncoder.EncodeRecords | packages/tens-wasm/src/encoder.rs:513-614 | the text of a record list opening with an object is its document lines |
| TextEncoder.WriteHeader | packages/tens-wasm/src/encoder.rs:565-568 | the version line and, when an encoding is given, the encoding line |
| TextEncoder.ArrayFieldFlags | packages/tens-wasm/src/encoder.rs:525-534 | a field is flagged exactly when some object record holds an array under it |
| TextEncoder.CountStrings | packages/tens-wasm/src/encoder.rs:537-546 | each string's count is its number of occurrences as a direct field value |
| TextEncoder.CountRecord | packages/tens-wasm/src/encoder.rs:539-545 | one record's direct string values are counted |
| TextEncoder.BumpCounts | packages/tens-wasm/src/encoder.rs:542 | counting strings adds their occurrences to each count |
| TextEncoder.FrequentStrings | packages/tens-wasm/src/encoder.rs:548-552 | the strings collected are distinct and are exactly those counted at least twice |
| TextEncoder.DictFromCounts | packages/tens-wasm/src/encoder.rs:548-553 | the frequent strings, sorted, are the `@dict` entries whatever order the map was walked in |
| TextEncoder.WriteSchema | packages/tens-wasm/src/encoder.rs:571-578 | the schema line and its newline are appended |
| TextEncoder.WriteDict | packages/tens-wasm/src/encoder.rs:581-591 | the `@dict` line is appended when there are entries |
| TextEncoder.WriteDictTokens | packages/tens-wasm/src/encoder.rs:583-589 | each entry is appended after a space |
| TextEncoder.WriteDictToken | packages/tens-wasm/src/encoder.rs:584-588 | an entry is quoted exactly when it needs quoting |
| TextEncoder.WriteRecords | packages/tens-wasm/src/encoder.rs:594-612 | the lines of every record are appended |
| TextEncoder.WriteNextRecord | packages/tens-wasm/src/encoder.rs:595-611 | an object record is appended and any other record skipped |
| TextEncoder.WriteRecord | packages/tens-wasm/src/encoder.rs:596-610 | the schema name and then the record's field lines are appended |
| TextEncoder.WriteField | packages/tens-wasm/src/encoder.rs:599-609 | one field's lines are appended: none when absent, one per item when it is an array field |
| TextEncoder.WriteItems | packages/tens-wasm/src/encoder.rs:601-605 | a line per item of an array field |
| TextEncoder.NoStringsOutsideObjects | packages/tens-wasm/src/encoder.rs:539 | a record that is not an object contributes no string to the counts |
| TextEncoder.DocumentText | packages/tens-wasm/src/encoder.rs:561-614 | the text is the header, schema and dictionary lines, a blank line, then the records |
| TextEncoderProperties.EncodedTextOutcome | packages/tens-wasm/src/encoder.rs:501-515 | a root that is neither array nor object is an error; `[]` gives `"@version 1\n"`; a first record that is not an object is an error; otherwise the text opens with the version line |
| TextEncoderProperties.DictEntriesExact | packages/tens-wasm/src/encoder.rs:536-553 | the `@dict` entries are strictly ascending and are exactly the strings occurring at least twice as direct field values |
| TextEncoderProperties.StringValuesDirect | packages/tens-wasm/src/encoder.rs:538-546 | a string is counted exactly when some record holds it directly under a field name |
| TextEncoderProperties.FieldKeysOfObject | packages/tens-wasm/src/encoder.rs:514-517 | the field names are the first record's keys, in order |
| TextEncoderProperties.RecordLinesOnlyKeys | packages/tens-wasm/src/encoder.rs:595-610 | a record's lines depend only on its values under the first record's field names; other keys are dropped |
| TextEncoderProperties.TrailingNonObjectSkipped | packages/tens-wasm/src/encoder.rs:595-596 | appending a record that is not an object leaves the text as it was |
| TextDecoder.SkipFrom | packages/tens-wasm/src/encoder.rs:711-713 | the first non-whitespace position from `i` on, or the end |
| TextDecoder.WordEndFrom | packages/tens-wasm/src/encoder.rs:742-744 | the first whitespace position from `i` on, or the end |
| TextDecoder.ParseDictLine | packages/tens-wasm/src/encoder.rs:704-750 | the method returns the specified entries of the line |
| TextDecoder.ReadTokens | packages/tens-wasm/src/encoder.rs:709-747 | the character loop reads every token of the content |
| TextDecoder.ReadToken | packages/tens-wasm/src/encoder.rs:709-746 | one turn reads the next token and moves past it, or finds only whitespace left |
| TextDecoder.SkipWhitespace | packages/tens-wasm/src/encoder.rs:711-713 | the loop stops at the first non-whitespace position |
| TextDecoder.QuotedToken | packages/tens-wasm/src/encoder.rs:718-738 | a quoted token is read through its escapes up to its closing quote or the end |
| TextDecoder.QuotedChar | packages/tens-wasm/src/encoder.rs:723-735 | one character or escape pair of a quoted token, and whether it closed it |
| TextDecoder.BareToken | packages/tens-wasm/src/encoder.rs:740-746 | a bare token runs up to the next whitespace |
| TextDecoder.Classify | packages/tens-wasm/src/encoder.rs:671 | a line is a field line only while a record is open |
| TextDecoder.RunStep | packages/tens-wasm/src/encoder.rs:626-689 | the state after each line is the step from the state before it |
| TextDecoder.DecodeTensText | packages/tens-wasm/src/encoder.rs:618-701 | the line loop gives the specified result |
| TextDecoder.DecodeLine | packages/tens-wasm/src/encoder.rs:627-688 | one turn of the line loop is the specified step |
| TextDecoder.ReadSchema | packages/tens-wasm/src/encoder.rs:638-655 | the `@schema` branch sets the record name and the array fields |
| TextDecoder.ReadField | packages/tens-wasm/src/encoder.rs:671-688 | the field branch overwrites or appends the parsed value |
| TextDecoder.PanicStays | packages/tens-wasm/src/encoder.rs:626-689 | once a line panics, the whole decode panics |
| TextDecoderProperties.DecodedShape | packages/tens-wasm/src/encoder.rs:691-700 | the records are objects; the result is an object exactly when there is one record, and otherwise the array of records |
| TextDecoderProperties.RunObjects | packages/tens-wasm/src/encoder.rs:626-689 | every record collected is an object |
| TextDecoderProperties.StepObjects | packages/tens-wasm/src/encoder.rs:662-668 | a line never adds a record that is not an object |
| TextDecoderProperties.FieldStepRecords | packages/tens-wasm/src/encoder.rs:671-688 | a field line leaves the finished records alone |
| TextDecoderProperties.StepPanicsOnlyOnLoneQuote | packages/tens-wasm/src/encoder.rs:671-675 | a line panics only when it is an indented field line in an open record whose value is the lone `"` |
| TextDecoderProperties.LoneQuoteFieldPanics | packages/tens-wasm/src/encoder.rs:766-768 | such a line does panic |
| TextDecoderProperties.EmptyDocument | packages/tens-wasm/src/encoder.rs:696-700 | `"@version 1\n"` decodes to the empty array |
| TextDecoderProperties.VersionLineIgnored | packages/tens-wasm/src/encoder.rs:632-634 | the version line changes nothing |
| TextRoundTrip.TokenRead | packages/tens-wasm/src/encoder.rs:709-746 | the token written for an entry reads back as that entry and ends where it was written |
| TextRoundTrip.TokensCons | packages/tens-wasm/src/encoder.rs:583-589 | an entry written after a space reads back, and reading goes on where it ends |
| TextRoundTrip.SpacedRoundTrip | packages/tens-wasm/src/encoder.rs:583-589 | every entry written reads back, in order |
| TextRoundTrip.DictLineRoundTrip | packages/tens-wasm/src/encoder.rs:704-750 | `parse_dict_line` of the `@dict` line written for a dictionary gives that dictionary back |
| TextRoundTrip.DictLineStep | packages/tens-wasm/src/encoder.rs:656-659 | the decoder takes up exactly the dictionary the encoder wrote, changing nothing else |
| Schemas.Zip | packages/tens-wasm/src/schema.rs:37-41 | as many pairs as the shorter sequence, each pairing equal positions |
| Schemas.SchemaRegistry.constructor | packages/tens-wasm/src/schema.rs:26-32 | nothing registered and the next id is 1 |
| Schemas.SchemaRegistry.GetOrRegister | packages/tens-wasm/src/schema.rs:36-66 | a key set already registered returns its id, not new, with nothing changed; a new one takes the next id, which moves on by one, and is stored sorted with its types |
| Schemas.SchemaRegistry.Get | packages/tens-wasm/src/schema.rs:68-70 | a schema exactly for ids 1 to next-1, carrying its id and found under its keys |
| Schemas.SchemaRegistry.All | packages/tens-wasm/src/schema.rs:72-74 | every schema, by ascending id |
| Schemas.SchemaRegistry.Below | packages/tens-wasm/src/schema.rs:72-74 | the schemas below an id, by ascending id |
| Schemas.RegisterKeeps | packages/tens-wasm/src/schema.rs:53-65 | registering a new sorted key set under the next id keeps ids dense and the two maps consistent |
| Schemas.RegisteredShape | packages/tens-wasm/src/schema.rs:37-45 | stored keys are sorted; keys and types number min(\|keys\|, \|types\|); the stored pairs are the zipped pairs reordered |
| Schemas.SameKeysAnyOrder | packages/tens-wasm/src/schema.rs:42-50 | the same keys in any order, with enough types, are stored and found under the same key sequence |
| Schemas.FirstRegistration | packages/tens-wasm/src/schema.rs:26-54 | the first registration in a new registry is id 1 and new |
| Schemas.RegisterTwice | packages/tens-wasm/src/schema.rs:36-66 | the same keys in another order, with other types, get the same id and are not new |
| Hex.HexEncodeShape | packages/tens-wasm/src/encoder.rs:815-817 | the text is twice as long as the bytes and holds only lower-case hex digits |
| Hex.HexRoundTrip | packages/tens-wasm/src/encoder.rs:815-817 | decoding the hex text gives the bytes back |
| Hex.HexEncodeInjective | packages/tens-wasm/src/encoder.rs:815-817 | different bytes give different text |
| Hex.ByteHexRoundTrip | packages/tens-wasm/src/encoder.rs:816 | a byte's two digits are lower-case hex and read back as the byte, high nibble first |

## Left out

- NFKC normalisation, `f64` Display, `str::parse::<f64>` and `serde_json::to_string` are foreign libraries. They are function parameters, and the proofs hold for any such function.
- `hash_tens_binary` is SHA-256 from the `sha2` crate, a foreign library. Only the hex rendering (`hex_encode`) is modelled.
- `lib.rs` is not part of this model. It is wasm-bindgen host glue.
- `log`, `console_log` and `set_panic_hook` in `utils.rs` are not part of this model. They are console and panic I/O.
- `StringTable::entries`, `StringTable::len` and `TensEncoder::string_table_entries` are plain accessors. The model reads the `entries` field directly.
- The `registry` field of `TensEncoder` is never read by `encode`, so the encoder class does not hold one.
- `schema_fields` in `decode_tens_text` is written but never read. The state keeps the schema name and the array fields only.
- The full text round trip is not proved. Proved parts:
  - the `@dict` line round trip;
  - the value-token round trips for null, bools, integers and strings;
  - the shape of the decoder's result;
  - the empty document.

  Floats printed by `f64` Display depend on the foreign formatter.
- Schemas.SchemaRegistry.GetOrRegister: `calculate_hash` is taken to be injective on sorted key sequences, so `lookup` is keyed by the sequence itself. Hash collisions are not modelled.
- Schemas.SchemaRegistry.GetOrRegister: `next_id` is an unbounded `nat`. The `u32` overflow after 2^32 - 1 registrations is not modelled.
- Schemas.SameKeysAnyOrder: stated for calls passing at least as many types as keys. With fewer types, `zip` drops keys depending on their input order, so the same key set can be stored differently.
- BinaryRoundTrip.RoundTrip: assumes every array, object and dictionary fits a `u32` count. Past 2^32 elements, `len() as u32` wraps and the round trip fails.
- `usize` is taken to be 32 bits wide, as on wasm32. `pos + str_len` in `decode` is not checked for overflow.
- Iteration over the `string_counts` `HashMap` is unordered. `TextEncoder.FrequentStrings` picks any key not yet visited, and `TextEncoder.DictFromCounts` shows the order does not matter after `sort`.
- TextEncoderProperties.TrailingNonObjectSkipped: stated for a non-object record at the end. A non-object record between object records is skipped by the same branch (`TextEncoder.WriteNextRecord`).
- TextQuoting.NeedsQuoting: the contract gives the four fixed words and what a bare string must satisfy. The `@N`/`#N` branch is in the body and in `TextValues.FormatParseRoundTrip`.
- Varint.ReadLeb128: a sixth continuation byte is not decoded as the source does it. A release build masks the shift (35 & 31 = 3), ors a corrupted group into the value and keeps reading; a build with overflow checks panics. The model stops with `ShiftOverflow` instead, and `decode` reports `VarintShiftOverflow`, an error the source never returns.
- Decode error messages are modelled as error kinds without their text.
- Memory exhaustion from `Vec::with_capacity` on a huge declared count is not modelled.
- Recursion depth is not modelled.
