/**
 * The TENS v2 binary format as functions: the order in which `scan_strings`
 * meets strings, the bytes `encode` writes, and the value `decode` reads
 * back, with every error the decoder reports. The classes of
 * binary_codec.dfy are proved to compute exactly these.
 *
 * Layout: the header `TENS` 0x02; a varint count of dictionary entries,
 * each a varint byte length and that many UTF-8 bytes; then the value tree,
 * one opcode per value, strings and object keys as varint dictionary ids.
 */
module BinaryFormat {
  import opened Base
  import opened Float64
  import opened Values
  import opened Varint
  import Utf8
  import opened Canonical
  import opened StringTables

  const OP_NULL: byte := 0x00
  const OP_TRUE: byte := 0x01
  const OP_FALSE: byte := 0x02
  const OP_INT8: byte := 0x03
  const OP_INT32: byte := 0x05
  const OP_FLOAT64: byte := 0x06
  const OP_STRING_REF: byte := 0x07
  const OP_ARRAY_START: byte := 0x08
  const OP_OBJECT_START: byte := 0x09

  /** "TENS" */
  const MAGIC: seq<byte> := [0x54, 0x45, 0x4E, 0x53]
  const VERSION: byte := 0x02
  const HEADER: seq<byte> := MAGIC + [VERSION]

  const I32_MIN: int := -0x8000_0000

  // ---------------------------------------------------------------------------
  // The strings of a value, in scanning order

  /**
   * The strings `scan_strings` adds, in order: a string itself; the items
   * of an array one after another; for an object, all its keys in ascending
   * order first and then the strings of its values.
   */
  function Strings(v: Value): seq<string>
    decreases v, 1, 0
  {
    match v
    case Str(s) => [s]
    case Arr(items) => ItemStrings(items, 0)
    case Obj(fields) => KeysOf(fields) + FieldStrings(fields, 0)
    case _ => []
  }

  function ItemStrings(items: seq<Value>, k: nat): seq<string>
    requires k <= |items|
    decreases Arr(items), 0, |items| - k
  {
    if k == |items| then [] else Strings(items[k]) + ItemStrings(items, k + 1)
  }

  function FieldStrings(fields: seq<(string, Value)>, k: nat): seq<string>
    requires k <= |fields|
    decreases Obj(fields), 0, |fields| - k
  {
    if k == |fields| then [] else Strings(fields[k].1) + FieldStrings(fields, k + 1)
  }

  /** The dictionary `encode` writes for the canonical value `c`: its strings, each once, first-seen first. */
  function Dictionary(c: Value): seq<string>
  {
    AddAll([], Strings(c))
  }

  /** Every string and key of `v` is in `dict`: the condition under which `encode_value` adds nothing. */
  predicate Covered(v: Value, dict: seq<string>)
  {
    match v
    case Str(s) => s in dict
    case Arr(items) => forall i :: 0 <= i < |items| ==> Covered(items[i], dict)
    case Obj(fields) => forall i :: 0 <= i < |fields| ==> fields[i].0 in dict && Covered(fields[i].1, dict)
    case _ => true
  }

  // ---------------------------------------------------------------------------
  // Encoding

  /** An integer known to fit an `i32`: `INT8` with `i as i8 as u8` when it fits a byte, else `INT32` little-endian. */
  function SmallIntBytes(i: int): (r: seq<byte>)
    requires I32_MIN <= i <= I32_MAX
  {
    if -128 <= i <= 127 then [OP_INT8, i % 256]
    else [OP_INT32] + LeBytes(i % U32_LIMIT, 4)
  }

  /** The `as_i64` branch: an `i64` that does not fit an `i32` is written as the nearest `f64`. */
  function IntBytes(i: int): (r: seq<byte>)
    requires -TWO_63 <= i < TWO_63
  {
    if I32_MIN <= i <= I32_MAX then SmallIntBytes(i)
    else [OP_FLOAT64] + LeBytes(IntToF64(i), 8)
  }

  /**
   * The `as_f64` branch: a float with no fractional part and magnitude
   * strictly below `i32::MAX` is written as an integer, anything else
   * (NaN and the infinities included) as its eight bytes.
   */
  function FloatBytes(f: F64Bits): (r: seq<byte>)
  {
    if SmallIntegral(f) then SmallIntBytes(IntegralValue(f).value)
    else [OP_FLOAT64] + LeBytes(f, 8)
  }

  /** The bytes `encode_value` appends for `v`, given the finished dictionary. */
  function ValueBytes(v: Value, dict: seq<string>): seq<byte>
    requires Covered(v, dict)
    decreases v, 1, 0
  {
    match v
    case Null => [OP_NULL]
    case Bool(b) => [if b then OP_TRUE else OP_FALSE]
    case Int(i) => if i < TWO_63 then IntBytes(i) else FloatBytes(IntToF64(i))
    case Float(f) => FloatBytes(f)
    case Str(s) => [OP_STRING_REF] + Leb128(U32(Position(dict, s)))
    case Arr(items) => [OP_ARRAY_START] + Leb128(U32(|items|)) + ItemsBytes(items, 0, dict)
    case Obj(fields) => [OP_OBJECT_START] + Leb128(U32(|fields|)) + FieldsBytes(fields, 0, dict)
  }

  function ItemsBytes(items: seq<Value>, k: nat, dict: seq<string>): seq<byte>
    requires k <= |items| && forall i :: 0 <= i < |items| ==> Covered(items[i], dict)
    decreases Arr(items), 0, |items| - k
  {
    if k == |items| then [] else ValueBytes(items[k], dict) + ItemsBytes(items, k + 1, dict)
  }

  /** Each field as the varint id of its key followed by its value. */
  function FieldsBytes(fields: seq<(string, Value)>, k: nat, dict: seq<string>): seq<byte>
    requires k <= |fields| && forall i :: 0 <= i < |fields| ==> fields[i].0 in dict && Covered(fields[i].1, dict)
    decreases Obj(fields), 0, |fields| - k
  {
    if k == |fields| then [] else FieldBytes(fields[k].0, fields[k].1, dict) + FieldsBytes(fields, k + 1, dict)
  }

  /** One field: the varint id of its key, then its value. */
  function FieldBytes(key: string, value: Value, dict: seq<string>): seq<byte>
    requires key in dict && Covered(value, dict)
    decreases value, 2
  {
    Leb128(U32(Position(dict, key))) + ValueBytes(value, dict)
  }

  /** The dictionary entries from the `k`-th on, each as a varint UTF-8 length and the UTF-8 bytes. */
  function EntriesBytes(dict: seq<string>, k: nat): seq<byte>
    requires k <= |dict|
    decreases |dict| - k
  {
    if k == |dict| then []
    else Leb128(U32(|Utf8.Encode(dict[k])|)) + Utf8.Encode(dict[k]) + EntriesBytes(dict, k + 1)
  }

  /** `TensEncoder::encode`: header, dictionary, value tree of the canonical form. */
  function Encode(v: Value, nfkc: string -> string): seq<byte>
  {
    var c := Canonicalize(v, nfkc);
    ScanCovers(c);
    var dict := Dictionary(c);
    HEADER + Leb128(U32(|dict|)) + EntriesBytes(dict, 0) + ValueBytes(c, dict)
  }

  // ---------------------------------------------------------------------------
  // Decoding

  /**
   * What `decode` reports. `VarintShiftOverflow` is not an `Err` of the
   * source: it is a varint with a sixth continuation byte, where
   * `decode_varint` panics on the overflowing shift when overflow checks
   * are on and otherwise goes on with a masked shift.
   */
  datatype DecodeError =
    | TooShortForHeader
    | BadMagic
    | UnsupportedVersion(version: byte)
    | EntryPastEnd
    | EntryNotUtf8
    | UnexpectedEnd
    | Int8MissingByte
    | Int32TooShort
    | Float64TooShort
    | StringRefOutOfBounds(id: u32)
    | KeyRefOutOfBounds(id: u32)
    | UnknownOpcode(opcode: byte)
    | VarintShiftOverflow

  /** `b as i8 as i64`. */
  function SignedByte(b: byte): (i: int)
    ensures -128 <= i <= 127 && i % 256 == b
  {
    if b >= 128 then b - 256 else b
  }

  /** `i32::from_le_bytes(..) as i64` on the unsigned reading `x` of four bytes. */
  function SignedI32(x: int): (i: int)
    requires 0 <= x < U32_LIMIT
    ensures I32_MIN <= i <= I32_MAX && i % U32_LIMIT == x
  {
    if x > I32_MAX then x - U32_LIMIT else x
  }

  /** `serde_json::json!(f)` for an `f64`: a number when finite, null otherwise. */
  function FromF64(f: F64Bits): (r: Value)
    ensures r.Float? <==> IsFinite(f)
    ensures r.Float? ==> r.bits == f
  {
    if IsFinite(f) then Float(f) else Null
  }

  /** `TensDecoder::decode_value` on the slice `bs`: the value and the number of bytes it took. */
  function DecodeValue(bs: seq<byte>, dict: seq<string>): (r: Result<(Value, nat), DecodeError>)
    ensures r.Ok? ==> 1 <= r.value.1 <= |bs|
    decreases |bs|, 2
  {
    if bs == [] then Err(UnexpectedEnd)
    else
      var op := bs[0];
      if op == OP_NULL then Ok((Null, 1))
      else if op == OP_TRUE then Ok((Bool(true), 1))
      else if op == OP_FALSE then Ok((Bool(false), 1))
      else if op == OP_INT8 || op == OP_INT32 || op == OP_FLOAT64 then DecodeNumber(bs)
      else if op == OP_STRING_REF then DecodeStringRef(bs, dict)
      else if op == OP_ARRAY_START then DecodeArray(bs, dict)
      else if op == OP_OBJECT_START then DecodeObject(bs, dict)
      else Err(UnknownOpcode(op))
  }

  /** `INT8`, `INT32` and `FLOAT64`: a fixed number of bytes after the opcode. */
  function DecodeNumber(bs: seq<byte>): (r: Result<(Value, nat), DecodeError>)
    requires bs != [] && (bs[0] == OP_INT8 || bs[0] == OP_INT32 || bs[0] == OP_FLOAT64)
    ensures r.Ok? ==> 1 <= r.value.1 <= |bs|
  {
    if bs[0] == OP_INT8 then
      if |bs| < 2 then Err(Int8MissingByte) else Ok((Int(SignedByte(bs[1])), 2))
    else if bs[0] == OP_INT32 then
      if |bs| < 5 then Err(Int32TooShort)
      else
        FromLeBound(bs[1..5]);
        Pow2Sixty();
        Ok((Int(SignedI32(FromLe(bs[1..5]))), 5))
    else
      if |bs| < 9 then Err(Float64TooShort)
      else
        FromLeBound(bs[1..9]);
        Pow2Sixty();
        Ok((FromF64(FromLe(bs[1..9])), 9))
  }

  /** `STRING_REF`: a varint dictionary id. */
  function DecodeStringRef(bs: seq<byte>, dict: seq<string>): (r: Result<(Value, nat), DecodeError>)
    requires bs != []
    ensures r.Ok? ==> 1 <= r.value.1 <= |bs|
  {
    match ReadLeb128(bs[1..])
    case ShiftOverflow => Err(VarintShiftOverflow)
    case Read(id, n) =>
      if id >= |dict| then Err(StringRefOutOfBounds(id)) else Ok((Str(dict[id]), 1 + n))
  }

  /** `ARRAY_START`: a varint count, then that many values. */
  function DecodeArray(bs: seq<byte>, dict: seq<string>): (r: Result<(Value, nat), DecodeError>)
    requires bs != []
    ensures r.Ok? ==> 1 <= r.value.1 <= |bs|
    decreases |bs|, 1
  {
    match ReadLeb128(bs[1..])
    case ShiftOverflow => Err(VarintShiftOverflow)
    case Read(count, n) =>
      match DecodeItems(bs, 1 + n, count, [], dict)
      case Err(e) => Err(e)
      case Ok((items, end)) => Ok((Arr(items), end))
  }

  /** `OBJECT_START`: a varint count, then that many key ids, each followed by a value. */
  function DecodeObject(bs: seq<byte>, dict: seq<string>): (r: Result<(Value, nat), DecodeError>)
    requires bs != []
    ensures r.Ok? ==> 1 <= r.value.1 <= |bs|
    decreases |bs|, 1
  {
    match ReadLeb128(bs[1..])
    case ShiftOverflow => Err(VarintShiftOverflow)
    case Read(count, n) =>
      match DecodeFields(bs, 1 + n, count, [], dict)
      case Err(e) => Err(e)
      case Ok((fields, end)) => Ok((Obj(fields), end))
  }

  /** The loop over `count` array items from position `pos`, with the items read so far in `acc`. */
  function DecodeItems(bs: seq<byte>, pos: nat, count: nat, acc: seq<Value>, dict: seq<string>)
    : (r: Result<(seq<Value>, nat), DecodeError>)
    requires 1 <= pos <= |bs|
    ensures r.Ok? ==> pos <= r.value.1 <= |bs|
    decreases |bs| - pos, 3
  {
    if count == 0 then Ok((acc, pos))
    else
      match DecodeValue(bs[pos..], dict)
      case Err(e) => Err(e)
      case Ok((v, n)) => DecodeItems(bs, pos + n, count - 1, acc + [v], dict)
  }

  /** The loop over `count` object fields from position `pos`, inserting each into the map `acc`. */
  function DecodeFields(bs: seq<byte>, pos: nat, count: nat, acc: seq<(string, Value)>, dict: seq<string>)
    : (r: Result<(seq<(string, Value)>, nat), DecodeError>)
    requires 1 <= pos <= |bs|
    ensures r.Ok? ==> pos <= r.value.1 <= |bs|
    decreases |bs| - pos, 4
  {
    if count == 0 then Ok((acc, pos))
    else
      match DecodeField(bs, pos, dict)
      case Err(e) => Err(e)
      case Ok((k, v, next)) => DecodeFields(bs, next, count - 1, Insert(acc, k, v), dict)
  }

  /** One turn of the object loop: a varint key id, its dictionary entry, then a value; and where the next field starts. */
  function DecodeField(bs: seq<byte>, pos: nat, dict: seq<string>): (r: Result<(string, Value, nat), DecodeError>)
    requires 1 <= pos <= |bs|
    ensures r.Ok? ==> pos < r.value.2 <= |bs|
    decreases |bs| - pos, 3
  {
    match ReadLeb128(bs[pos..])
    case ShiftOverflow => Err(VarintShiftOverflow)
    case Read(keyId, m) =>
      if keyId >= |dict| then Err(KeyRefOutOfBounds(keyId))
      else
        match DecodeValue(bs[pos + m..], dict)
        case Err(e) => Err(e)
        case Ok((v, n)) => Ok((dict[keyId], v, pos + m + n))
  }

  /** The entries read so far, and where the dictionary ends or why reading it failed. */
  datatype DictRead = DictRead(entries: seq<string>, outcome: Result<nat, DecodeError>)

  /** The dictionary loop: `count` more entries from position `pos`. */
  function DecodeEntries(bs: seq<byte>, pos: nat, count: nat, acc: seq<string>): (r: DictRead)
    requires pos <= |bs|
    ensures r.outcome.Ok? ==> pos <= r.outcome.value <= |bs|
    decreases count, 1
  {
    if count == 0 then DictRead(acc, Ok(pos)) else DecodeEntry(bs, pos, count, acc)
  }

  /**
   * One turn of the dictionary loop, then the rest of it: a varint byte
   * length, that many bytes of UTF-8, and the remaining `count - 1` entries.
   */
  function DecodeEntry(bs: seq<byte>, pos: nat, count: nat, acc: seq<string>): (r: DictRead)
    requires pos <= |bs| && count > 0
    ensures r.outcome.Ok? ==> pos <= r.outcome.value <= |bs|
    decreases count, 0
  {
    match ReadLeb128(bs[pos..])
    case ShiftOverflow => DictRead(acc, Err(VarintShiftOverflow))
    case Read(len, n) =>
      var start := pos + n;
      if start + len > |bs| then DictRead(acc, Err(EntryPastEnd))
      else
        match Utf8.Decode(bs[start..start + len])
        case None => DictRead(acc, Err(EntryNotUtf8))
        case Some(s) => DecodeEntries(bs, start + len, count - 1, acc + [s])
  }

  /** Whether the first five bytes are a TENS v2 header, and if not, which error `decode` returns. */
  function CheckHeader(bs: seq<byte>): Option<DecodeError>
  {
    if |bs| < 5 then Some(TooShortForHeader)
    else if bs[..4] != MAGIC then Some(BadMagic)
    else if bs[4] != VERSION then Some(UnsupportedVersion(bs[4]))
    else None
  }

  /** The dictionary `decode` reads from a buffer with a valid header. */
  function ReadDictionary(bs: seq<byte>): DictRead
    requires CheckHeader(bs).None?
  {
    match ReadLeb128(bs[5..])
    case ShiftOverflow => DictRead([], Err(VarintShiftOverflow))
    case Read(count, n) => DecodeEntries(bs, 5 + n, count, [])
  }

  /** `TensDecoder::decode`. Bytes after the value tree are ignored. */
  function Decode(bs: seq<byte>): Result<Value, DecodeError>
  {
    match CheckHeader(bs)
    case Some(e) => Err(e)
    case None =>
      var d := ReadDictionary(bs);
      match d.outcome
      case Err(e) => Err(e)
      case Ok(pos) =>
        match DecodeValue(bs[pos..], d.entries)
        case Err(e) => Err(e)
        case Ok((v, _)) => Ok(v)
  }

  // ---------------------------------------------------------------------------
  // Properties of the scan

  lemma {:induction false} StringsCovered(v: Value, dict: seq<string>)
    requires forall s :: s in Strings(v) ==> s in dict
    ensures Covered(v, dict)
    decreases v, 1, 0
  {
    match v
    case Arr(items) =>
      forall i | 0 <= i < |items|
        ensures Covered(items[i], dict)
      {
        ItemStringsContain(items, 0, i);
        StringsCovered(items[i], dict);
      }
    case Obj(fields) =>
      forall i | 0 <= i < |fields|
        ensures fields[i].0 in dict && Covered(fields[i].1, dict)
      {
        assert KeysOf(fields)[i] == fields[i].0;
        FieldStringsContain(fields, 0, i);
        StringsCovered(fields[i].1, dict);
      }
    case _ =>
  }

  lemma {:induction false} ItemStringsContain(items: seq<Value>, k: nat, i: nat)
    requires k <= i < |items|
    ensures forall s :: s in Strings(items[i]) ==> s in ItemStrings(items, k)
    decreases i - k
  {
    if k < i {
      ItemStringsContain(items, k + 1, i);
    }
  }

  lemma {:induction false} FieldStringsContain(fields: seq<(string, Value)>, k: nat, i: nat)
    requires k <= i < |fields|
    ensures forall s :: s in Strings(fields[i].1) ==> s in FieldStrings(fields, k)
    decreases i - k
  {
    if k < i {
      FieldStringsContain(fields, k + 1, i);
    }
  }

  /** After the scan every string of the value has a dictionary id, so `encode_value` never grows the table. */
  lemma ScanCovers(c: Value)
    ensures Covered(c, Dictionary(c))
    ensures Distinct(Dictionary(c))
  {
    AddAllMembers([], Strings(c));
    StringsCovered(c, Dictionary(c));
    AddAllDistinct([], Strings(c));
  }

  /** `encode(null)` is seven bytes: the header, a zero dictionary count and `NULL`. */
  lemma EncodeNull(nfkc: string -> string)
    ensures Encode(Null, nfkc) == [0x54, 0x45, 0x4E, 0x53, 0x02, 0x00, OP_NULL]
    ensures |Encode(Null, nfkc)| == 7
  {
    assert Strings(Null) == [];
    assert Dictionary(Null) == [];
  }

  /** Every encoding starts with the header and the varint dictionary count. */
  lemma EncodeStartsWithHeader(v: Value, nfkc: string -> string)
    ensures var count := Leb128(U32(|Dictionary(Canonicalize(v, nfkc))|));
            Encode(v, nfkc)[..5] == [0x54, 0x45, 0x4E, 0x53, 0x02]
            && Encode(v, nfkc)[5..5 + |count|] == count
  {
    var count, entries, tree := EncodeLayout(v, nfkc);
    HeaderPrefix(Encode(v, nfkc), count, entries, tree);
  }

  /** `encode` writes the header, the count, the entries and the value tree, in that order. */
  lemma EncodeLayout(v: Value, nfkc: string -> string) returns (count: seq<byte>, entries: seq<byte>, tree: seq<byte>)
    ensures count == Leb128(U32(|Dictionary(Canonicalize(v, nfkc))|))
    ensures Encode(v, nfkc) == HEADER + count + entries + tree
  {
    var c := Canonicalize(v, nfkc);
    var dict := Dictionary(c);
    ScanCovers(c);
    count := Leb128(U32(|dict|));
    entries := EntriesBytes(dict, 0);
    tree := ValueBytes(c, dict);
  }

  /** Bytes made of the header, a count and more start with the header and then the count. */
  lemma HeaderPrefix(bs: seq<byte>, count: seq<byte>, entries: seq<byte>, tree: seq<byte>)
    requires bs == HEADER + count + entries + tree
    ensures bs[..5] == [0x54, 0x45, 0x4E, 0x53, 0x02] && bs[5..5 + |count|] == count
  {
    assert bs == HEADER + count + (entries + tree);
    assert bs[..5] == HEADER;
  }

  /** The keys of `{"b":2,"a":1}` are scanned in ascending order, so the dictionary is ["a", "b"]. */
  lemma SortedKeysDictionary(nfkc: string -> string)
    ensures Dictionary(Canonicalize(Obj([("b", Int(2)), ("a", Int(1))]), nfkc)) == ["a", "b"]
  {
    var fields := [("b", Int(2)), ("a", Int(1))];
    assert CanonPairs(fields, nfkc) == fields;
    assert Less("a", "b");
    assert Insert([("b", Int(2))], "a", Int(1)) == [("a", Int(1)), ("b", Int(2))];
    var c := Obj([("a", Int(1)), ("b", Int(2))]);
    assert Canonicalize(Obj(fields), nfkc) == c;
    assert FieldStrings(c.fields, 2) == [];
    assert FieldStrings(c.fields, 1) == [];
    assert FieldStrings(c.fields, 0) == [];
    assert KeysOf(c.fields) == ["a", "b"];
    assert Strings(c) == ["a", "b"];
  }

  /** A string repeated `k` times in an array takes a single dictionary entry. */
  lemma RepeatedStringOneEntry(s: string, k: nat)
    requires k >= 1
    ensures Dictionary(Arr(seq(k, _ => Str(s)))) == [s]
  {
    var items := seq(k, _ => Str(s));
    RepeatedItemStrings(items, s, 0);
    AddAllRepeated(s, k);
  }

  lemma {:induction false} RepeatedItemStrings(items: seq<Value>, s: string, j: nat)
    requires j <= |items| && forall i :: 0 <= i < |items| ==> items[i] == Str(s)
    ensures ItemStrings(items, j) == seq(|items| - j, _ => s)
    decreases |items| - j
  {
    if j < |items| {
      RepeatedItemStrings(items, s, j + 1);
      assert seq(|items| - j, _ => s) == [s] + seq(|items| - j - 1, _ => s);
    }
  }

  /** An integer in [-128, 127] is `INT8` followed by its two's-complement byte. */
  lemma Int8Opcode(i: JsonInt, dict: seq<string>)
    requires -128 <= i <= 127
    ensures |ValueBytes(Int(i), dict)| == 2 && ValueBytes(Int(i), dict)[0] == OP_INT8
    ensures SignedByte(ValueBytes(Int(i), dict)[1]) == i
  {
    assert ValueBytes(Int(i), dict) == [OP_INT8, i % 256];
  }

  /**
   * Any other integer of the `i32` range is `INT32` followed by the four
   * little-endian bytes of its two's-complement pattern.
   */
  lemma Int32Opcode(i: JsonInt, dict: seq<string>)
    requires I32_MIN <= i <= I32_MAX && !(-128 <= i <= 127)
    ensures |ValueBytes(Int(i), dict)| == 5 && ValueBytes(Int(i), dict)[0] == OP_INT32
    ensures FromLe(ValueBytes(Int(i), dict)[1..]) == i % U32_LIMIT
    ensures SignedI32(i % U32_LIMIT) == i
  {
    Pow2Sixty();
    assert ValueBytes(Int(i), dict) == [OP_INT32] + LeBytes(i % U32_LIMIT, 4);
    assert ValueBytes(Int(i), dict)[1..] == LeBytes(i % U32_LIMIT, 4);
    FromLeBytes(i % U32_LIMIT, 4);
  }

  /** An `i64` outside the `i32` range is `FLOAT64` followed by the eight bytes of the nearest `f64`. */
  lemma Float64Opcode(i: JsonInt, dict: seq<string>)
    requires i < TWO_63 && !(I32_MIN <= i <= I32_MAX)
    ensures |ValueBytes(Int(i), dict)| == 9 && ValueBytes(Int(i), dict)[0] == OP_FLOAT64
    ensures FromLe(ValueBytes(Int(i), dict)[1..]) == IntToF64(i)
  {
    Pow2Sixty();
    assert ValueBytes(Int(i), dict) == [OP_FLOAT64] + LeBytes(IntToF64(i), 8);
    assert ValueBytes(Int(i), dict)[1..] == LeBytes(IntToF64(i), 8);
    FromLeBytes(IntToF64(i), 8);
  }

  // ---------------------------------------------------------------------------
  // Properties of the decoder

  /** The header errors, in the order `decode` checks them. */
  lemma DecodeHeaderErrors(bs: seq<byte>)
    ensures |bs| < 5 ==> Decode(bs) == Err(TooShortForHeader)
    ensures |bs| >= 5 && bs[..4] != MAGIC ==> Decode(bs) == Err(BadMagic)
    ensures |bs| >= 5 && bs[..4] == MAGIC && bs[4] != 0x02 ==> Decode(bs) == Err(UnsupportedVersion(bs[4]))
  {
  }

  /** A valid header with nothing after it has an empty dictionary and no value: the value section is empty. */
  lemma DecodeHeaderOnly()
    ensures Decode(HEADER) == Err(UnexpectedEnd)
    ensures Decode(HEADER + [0]) == Err(UnexpectedEnd)
  {
    assert HEADER[..4] == MAGIC;
    assert (HEADER + [0])[..4] == MAGIC;
    assert HEADER[5..] == [];
    assert (HEADER + [0])[5..] == [0];
    assert ReadLeb128([0]) == Read(0, 1);
  }

  /** `decode_value` errors on an empty slice and on every byte that is not an opcode. */
  lemma DecodeValueErrors(bs: seq<byte>, dict: seq<string>)
    ensures bs == [] ==> DecodeValue(bs, dict) == Err(UnexpectedEnd)
    ensures bs != [] && (bs[0] == 0x04 || bs[0] > 0x09) ==> DecodeValue(bs, dict) == Err(UnknownOpcode(bs[0]))
  {
  }

  /**
   * A string reference is out of bounds exactly when its id, however it was
   * written and whatever follows it, is at or past the end of the dictionary.
   */
  lemma DecodeStringRefError(bs: seq<byte>, dict: seq<string>)
    requires bs != [] && bs[0] == OP_STRING_REF
    ensures ReadLeb128(bs[1..]).Read? && ReadLeb128(bs[1..]).value >= |dict|
      ==> DecodeValue(bs, dict) == Err(StringRefOutOfBounds(ReadLeb128(bs[1..]).value))
    ensures ReadLeb128(bs[1..]).Read? && ReadLeb128(bs[1..]).value < |dict|
      ==> DecodeValue(bs, dict) == Ok((Str(dict[ReadLeb128(bs[1..]).value]), 1 + ReadLeb128(bs[1..]).consumed))
  {
  }

  /**
   * A key id at or past the end of the dictionary is an error, wherever the
   * field starts, however many fields remain and whatever follows.
   */
  lemma DecodeKeyRefError(bs: seq<byte>, pos: nat, count: nat, acc: seq<(string, Value)>, dict: seq<string>)
    requires 1 <= pos <= |bs| && count >= 1
    requires ReadLeb128(bs[pos..]).Read? && ReadLeb128(bs[pos..]).value >= |dict|
    ensures DecodeField(bs, pos, dict) == Err(KeyRefOutOfBounds(ReadLeb128(bs[pos..]).value))
    ensures DecodeFields(bs, pos, count, acc, dict) == Err(KeyRefOutOfBounds(ReadLeb128(bs[pos..]).value))
  {
  }

  /**
   * A dictionary entry whose declared byte length runs past the input is an
   * error, whichever entry it is and whatever was read before it; and `decode`
   * reports the dictionary's error.
   */
  lemma DecodeEntryPastEnd(bs: seq<byte>, pos: nat, count: nat, acc: seq<string>)
    requires pos <= |bs| && count >= 1
    requires ReadLeb128(bs[pos..]).Read?
    requires pos + ReadLeb128(bs[pos..]).consumed + ReadLeb128(bs[pos..]).value > |bs|
    ensures DecodeEntries(bs, pos, count, acc) == DictRead(acc, Err(EntryPastEnd))
  {
  }

  /** A dictionary that fails to read makes `decode` fail with the same error. */
  lemma DecodeDictionaryError(bs: seq<byte>)
    requires CheckHeader(bs).None? && ReadDictionary(bs).outcome.Err?
    ensures Decode(bs) == Err(ReadDictionary(bs).outcome.error)
  {
  }

  /** The first entry overrunning the input makes `decode` report `EntryPastEnd`. */
  lemma DecodeFirstEntryPastEnd(len: u32, tail: seq<byte>)
    requires |tail| < len
    ensures Decode(HEADER + [1] + Leb128(len) + tail) == Err(EntryPastEnd)
  {
    var bs := HEADER + [1] + Leb128(len) + tail;
    assert bs[..4] == MAGIC && bs[4] == VERSION;
    assert Leb128(1) == [1];
    assert bs[5..] == Leb128(1) + (Leb128(len) + tail);
    Leb128RoundTrip(1, Leb128(len) + tail);
    assert bs[6..] == Leb128(len) + tail;
    Leb128RoundTrip(len, tail);
    DecodeEntryPastEnd(bs, 6, 1, []);
    DecodeDictionaryError(bs);
  }
}
