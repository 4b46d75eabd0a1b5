/**
 * What `decode` gives back for the bytes `encode` wrote. Strings, arrays,
 * objects, booleans and null come back as the canonical value has them;
 * numbers come back as the opcode they were written with reads them:
 *
 *  - an integer in the `i32` range is written as `INT8` or `INT32` and
 *    reads back as the same integer;
 *  - any other integer is written as the `f64` nearest to it;
 *  - a float with no fractional part and magnitude below `i32::MAX` is
 *    written as an integer and reads back as one.
 *
 * The round trip holds as long as every count and every length the
 * encoder casts with `as u32` fits 32 bits.
 */
module BinaryRoundTrip {
  import opened Base
  import opened Float64
  import opened Values
  import opened Varint
  import Utf8
  import opened Canonical
  import opened StringTables
  import opened BinaryFormat

  // ---------------------------------------------------------------------------
  // The value that comes back

  /** What a float written by `encode_value` reads back as. */
  function FloatNumber(f: F64Bits): Value
  {
    if SmallIntegral(f) then Int(IntegralValue(f).value) else FromF64(f)
  }

  /** `v` with each number replaced by what its opcode reads back as. */
  function Reclassify(v: Value): Value
    decreases v, 1
  {
    match v
    case Int(i) =>
      if I32_MIN <= i <= I32_MAX then Int(i)
      else if i < TWO_63 then FromF64(IntToF64(i))
      else FloatNumber(IntToF64(i))
    case Float(f) => FloatNumber(f)
    case Arr(items) => Arr(ReclassifyItems(items))
    case Obj(fields) => Obj(ReclassifyFields(fields))
    case _ => v
  }

  function ReclassifyItems(items: seq<Value>): (r: seq<Value>)
    ensures |r| == |items|
    decreases Arr(items), 0
  {
    seq(|items|, i requires 0 <= i < |items| => Reclassify(items[i]))
  }

  function ReclassifyFields(fields: seq<(string, Value)>): (r: seq<(string, Value)>)
    ensures |r| == |fields|
    decreases Obj(fields), 0
  {
    seq(|fields|, i requires 0 <= i < |fields| => (fields[i].0, Reclassify(fields[i].1)))
  }

  /** Reclassifying an object's values keeps its keys. */
  lemma {:induction false} ReclassifyFieldsKeys(fields: seq<(string, Value)>)
    ensures KeysOf(ReclassifyFields(fields)) == KeysOf(fields)
  {
    assert forall i :: 0 <= i < |fields| ==> KeysOf(ReclassifyFields(fields))[i] == KeysOf(fields)[i];
  }

  /** Every array and object of `v` has fewer than 2^32 elements, so `len() as u32` keeps its count. */
  predicate CountsFit(v: Value)
  {
    match v
    case Arr(items) => |items| < U32_LIMIT && forall i :: 0 <= i < |items| ==> CountsFit(items[i])
    case Obj(fields) => |fields| < U32_LIMIT && forall i :: 0 <= i < |fields| ==> CountsFit(fields[i].1)
    case _ => true
  }

  /** The dictionary of `c` has fewer than 2^32 entries, none longer than 2^32 - 1 bytes. */
  predicate DictionaryFits(dict: seq<string>)
  {
    |dict| < U32_LIMIT && forall i :: 0 <= i < |dict| ==> |Utf8.Encode(dict[i])| < U32_LIMIT
  }

  /** The sizes `encode` casts with `as u32` all fit. */
  predicate Fits(c: Value)
  {
    CountsFit(c) && DictionaryFits(Dictionary(c))
  }

  // ---------------------------------------------------------------------------
  // Numbers

  /** A signed byte is determined by its two's-complement byte. */
  lemma {:induction false} SameByte(a: int, b: int)
    requires -128 <= a < 128 && -128 <= b < 128 && a % 256 == b % 256
    ensures a == b
  {
  }

  /** An `i32` is determined by its two's-complement 32-bit pattern. */
  lemma {:induction false} SameWord(a: int, b: int)
    requires I32_MIN <= a <= I32_MAX && I32_MIN <= b <= I32_MAX && a % U32_LIMIT == b % U32_LIMIT
    ensures a == b
  {
  }

  /** `INT8` and `INT32` read back the integer written. */
  lemma {:induction false} SmallIntRoundTrip(i: int, rest: seq<byte>, dict: seq<string>)
    requires I32_MIN <= i <= I32_MAX
    ensures DecodeValue(SmallIntBytes(i) + rest, dict) == Ok((Int(i), |SmallIntBytes(i)|))
  {
    var bs := SmallIntBytes(i) + rest;
    if -128 <= i <= 127 {
      assert bs[0] == OP_INT8 && bs[1] == i % 256;
      SameByte(SignedByte(bs[1]), i);
    } else {
      var x := i % U32_LIMIT;
      Pow2Sixty();
      assert bs[1..5] == LeBytes(x, 4);
      FromLeBytes(x, 4);
      SameWord(SignedI32(x), i);
    }
  }

  /** `FLOAT64` reads back the eight bytes written, as null when they are not finite. */
  lemma {:induction false} Float64RoundTrip(f: F64Bits, rest: seq<byte>, dict: seq<string>)
    ensures DecodeValue([OP_FLOAT64] + LeBytes(f, 8) + rest, dict) == Ok((FromF64(f), 9))
  {
    var bs := [OP_FLOAT64] + LeBytes(f, 8) + rest;
    Pow2Sixty();
    assert bs[1..9] == LeBytes(f, 8);
    FromLeBytes(f, 8);
  }

  lemma {:induction false} FloatRoundTrip(f: F64Bits, rest: seq<byte>, dict: seq<string>)
    ensures DecodeValue(FloatBytes(f) + rest, dict) == Ok((FloatNumber(f), |FloatBytes(f)|))
  {
    if SmallIntegral(f) {
      SmallIntRoundTrip(IntegralValue(f).value, rest, dict);
    } else {
      Float64RoundTrip(f, rest, dict);
    }
  }

  lemma {:induction false} IntRoundTrip(i: JsonInt, rest: seq<byte>, dict: seq<string>)
    ensures DecodeValue(ValueBytes(Int(i), dict) + rest, dict) == Ok((Reclassify(Int(i)), |ValueBytes(Int(i), dict)|))
  {
    if I32_MIN <= i <= I32_MAX {
      SmallIntRoundTrip(i, rest, dict);
    } else if i < TWO_63 {
      Float64RoundTrip(IntToF64(i), rest, dict);
    } else {
      FloatRoundTrip(IntToF64(i), rest, dict);
    }
  }

  // ---------------------------------------------------------------------------
  // The value tree

  /** What the value-tree lemmas need of a value: its strings have ids, its objects sorted keys, its counts 32 bits. */
  predicate Encodable(v: Value, dict: seq<string>)
  {
    Covered(v, dict) && WellFormed(v) && CountsFit(v)
  }

  lemma {:induction false} StringRoundTrip(s: string, rest: seq<byte>, dict: seq<string>)
    requires s in dict && |dict| < U32_LIMIT
    ensures DecodeValue(ValueBytes(Str(s), dict) + rest, dict) == Ok((Str(s), |ValueBytes(Str(s), dict)|))
  {
    var id := U32(Position(dict, s));
    var bs := [OP_STRING_REF] + Leb128(id) + rest;
    assert ValueBytes(Str(s), dict) + rest == bs;
    assert bs[1..] == Leb128(id) + rest;
    Leb128RoundTrip(id, rest);
  }

  /** `decode_value` reads back every value `encode_value` wrote, and stops where it ended. */
  lemma {:induction false} ValueRoundTrip(v: Value, rest: seq<byte>, dict: seq<string>)
    requires Encodable(v, dict) && |dict| < U32_LIMIT
    ensures DecodeValue(ValueBytes(v, dict) + rest, dict) == Ok((Reclassify(v), |ValueBytes(v, dict)|))
    decreases v, 2
  {
    match v
    case Int(i) => IntRoundTrip(i, rest, dict);
    case Float(f) => FloatRoundTrip(f, rest, dict);
    case Str(s) => StringRoundTrip(s, rest, dict);
    case Arr(items) => ArrayRoundTrip(items, rest, dict);
    case Obj(fields) => ObjectRoundTrip(fields, rest, dict);
    case _ =>
  }

  lemma {:induction false} ArrayRoundTrip(items: seq<Value>, rest: seq<byte>, dict: seq<string>)
    requires Encodable(Arr(items), dict) && |dict| < U32_LIMIT
    ensures DecodeValue(ValueBytes(Arr(items), dict) + rest, dict)
         == Ok((Arr(ReclassifyItems(items)), |ValueBytes(Arr(items), dict)|))
    decreases Arr(items), 1
  {
    ArrayLayout(items, rest, dict);
    assert ReclassifyItems(items)[..0] == [];
    ItemsRoundTrip(items, 0, |items|, rest, dict, ValueBytes(Arr(items), dict) + rest, 1 + |Leb128(|items|)|,
                   |ValueBytes(Arr(items), dict)|);
    ArrayStep(ValueBytes(Arr(items), dict) + rest, dict, |items|, |Leb128(|items|)|, ReclassifyItems(items),
              |ValueBytes(Arr(items), dict)|);
  }

  /** Where the parts of an encoded array sit. */
  lemma {:induction false} ArrayLayout(items: seq<Value>, rest: seq<byte>, dict: seq<string>)
    requires Covered(Arr(items), dict) && |items| < U32_LIMIT
    ensures |ValueBytes(Arr(items), dict)| == 1 + |Leb128(|items|)| + |ItemsBytes(items, 0, dict)|
    ensures (ValueBytes(Arr(items), dict) + rest)[0] == OP_ARRAY_START
    ensures ReadLeb128((ValueBytes(Arr(items), dict) + rest)[1..]) == Read(|items|, |Leb128(|items|)|)
    ensures (ValueBytes(Arr(items), dict) + rest)[1 + |Leb128(|items|)|..] == ItemsBytes(items, 0, dict) + rest
  {
    assert ValueBytes(Arr(items), dict) == [OP_ARRAY_START] + Leb128(|items|) + ItemsBytes(items, 0, dict);
    ContainerLayout(OP_ARRAY_START, |items|, ItemsBytes(items, 0, dict), rest);
  }

  /** An opcode, a varint count and a body: the count reads back and the body follows it. */
  lemma {:induction false} ContainerLayout(op: byte, n: u32, body: seq<byte>, rest: seq<byte>)
    ensures ([op] + Leb128(n) + body + rest)[0] == op
    ensures ReadLeb128(([op] + Leb128(n) + body + rest)[1..]) == Read(n, |Leb128(n)|)
    ensures ([op] + Leb128(n) + body + rest)[1 + |Leb128(n)|..] == body + rest
  {
    assert ([op] + Leb128(n) + body + rest)[1..] == Leb128(n) + (body + rest);
    Leb128RoundTrip(n, body + rest);
  }

  lemma {:induction false} ItemsRoundTrip(items: seq<Value>, k: nat, count: nat, rest: seq<byte>, dict: seq<string>,
                                          bs: seq<byte>, pos: nat, end: nat)
    requires k <= |items| && count == |items| - k && |dict| < U32_LIMIT
    requires Encodable(Arr(items), dict)
    requires 1 <= pos <= |bs| && bs[pos..] == ItemsBytes(items, k, dict) + rest
    requires end == pos + |ItemsBytes(items, k, dict)|
    ensures DecodeItems(bs, pos, count, ReclassifyItems(items)[..k], dict) == Ok((ReclassifyItems(items), end))
    decreases Arr(items), 0, |items| - k, 1
  {
    if k == |items| {
      assert ReclassifyItems(items)[..k] == ReclassifyItems(items);
    } else {
      var next := ItemRoundTrip(items, k, count, rest, dict, bs, pos);
      ItemsRoundTrip(items, k + 1, count - 1, rest, dict, bs, next, end);
    }
  }

  /** One turn of the array loop: the item at `k` is read back and the loop goes on where its bytes end. */
  lemma {:induction false} ItemRoundTrip(items: seq<Value>, k: nat, count: nat, rest: seq<byte>, dict: seq<string>, bs: seq<byte>, pos: nat)
    returns (next: nat)
    requires k < |items| && count == |items| - k && |dict| < U32_LIMIT
    requires Encodable(Arr(items), dict)
    requires 1 <= pos <= |bs| && bs[pos..] == ItemsBytes(items, k, dict) + rest
    ensures pos < next <= |bs| && bs[next..] == ItemsBytes(items, k + 1, dict) + rest
    ensures |ItemsBytes(items, k, dict)| == next - pos + |ItemsBytes(items, k + 1, dict)|
    ensures DecodeItems(bs, pos, count, ReclassifyItems(items)[..k], dict)
         == DecodeItems(bs, next, count - 1, ReclassifyItems(items)[..k + 1], dict)
    decreases Arr(items), 0, |items| - k, 0
  {
    ItemsSplit(items, k, dict, bs, pos, rest);
    next := pos + |ValueBytes(items[k], dict)|;
    ValueRoundTrip(items[k], ItemsBytes(items, k + 1, dict) + rest, dict);
    ItemsStep(bs, pos, count, ReclassifyItems(items)[..k], dict, Reclassify(items[k]), |ValueBytes(items[k], dict)|);
    ReclassifyItemsSnoc(items, k);
  }

  /** The bytes of the items from `k` on are those of item `k` followed by those of the rest. */
  lemma {:induction false} ItemsSplit(items: seq<Value>, k: nat, dict: seq<string>, bs: seq<byte>, pos: nat, rest: seq<byte>)
    requires k < |items| && Covered(Arr(items), dict)
    requires pos <= |bs| && bs[pos..] == ItemsBytes(items, k, dict) + rest
    ensures |ItemsBytes(items, k, dict)| == |ValueBytes(items[k], dict)| + |ItemsBytes(items, k + 1, dict)|
    ensures bs[pos..] == ValueBytes(items[k], dict) + (ItemsBytes(items, k + 1, dict) + rest)
    ensures pos + |ValueBytes(items[k], dict)| <= |bs|
    ensures bs[pos + |ValueBytes(items[k], dict)|..] == ItemsBytes(items, k + 1, dict) + rest
  {
    ItemsBytesCons(items, k, dict);
    SplitAt(bs, pos, ItemsBytes(items, k, dict), ValueBytes(items[k], dict), ItemsBytes(items, k + 1, dict), rest);
  }

  lemma {:induction false} ReclassifyItemsSnoc(items: seq<Value>, k: nat)
    requires k < |items|
    ensures ReclassifyItems(items)[..k] + [Reclassify(items[k])] == ReclassifyItems(items)[..k + 1]
  {
    PrefixSnoc(ReclassifyItems(items), k);
  }

  lemma {:induction false} ObjectRoundTrip(fields: seq<(string, Value)>, rest: seq<byte>, dict: seq<string>)
    requires Encodable(Obj(fields), dict) && |dict| < U32_LIMIT
    ensures DecodeValue(ValueBytes(Obj(fields), dict) + rest, dict)
         == Ok((Obj(ReclassifyFields(fields)), |ValueBytes(Obj(fields), dict)|))
    decreases Obj(fields), 1
  {
    ObjectLayout(fields, rest, dict);
    assert ReclassifyFields(fields)[..0] == [];
    FieldsRoundTrip(fields, 0, |fields|, rest, dict, ValueBytes(Obj(fields), dict) + rest, 1 + |Leb128(|fields|)|,
                    |ValueBytes(Obj(fields), dict)|);
    ObjectStep(ValueBytes(Obj(fields), dict) + rest, dict, |fields|, |Leb128(|fields|)|, ReclassifyFields(fields),
               |ValueBytes(Obj(fields), dict)|);
  }

  /** Where the parts of an encoded object sit. */
  lemma {:induction false} ObjectLayout(fields: seq<(string, Value)>, rest: seq<byte>, dict: seq<string>)
    requires Covered(Obj(fields), dict) && |fields| < U32_LIMIT
    ensures |ValueBytes(Obj(fields), dict)| == 1 + |Leb128(|fields|)| + |FieldsBytes(fields, 0, dict)|
    ensures (ValueBytes(Obj(fields), dict) + rest)[0] == OP_OBJECT_START
    ensures ReadLeb128((ValueBytes(Obj(fields), dict) + rest)[1..]) == Read(|fields|, |Leb128(|fields|)|)
    ensures (ValueBytes(Obj(fields), dict) + rest)[1 + |Leb128(|fields|)|..] == FieldsBytes(fields, 0, dict) + rest
  {
    assert ValueBytes(Obj(fields), dict) == [OP_OBJECT_START] + Leb128(|fields|) + FieldsBytes(fields, 0, dict);
    ContainerLayout(OP_OBJECT_START, |fields|, FieldsBytes(fields, 0, dict), rest);
  }

  lemma {:induction false} FieldsRoundTrip(fields: seq<(string, Value)>, k: nat, count: nat, rest: seq<byte>, dict: seq<string>,
                                           bs: seq<byte>, pos: nat, end: nat)
    requires k <= |fields| && count == |fields| - k && |dict| < U32_LIMIT
    requires Covered(Obj(fields), dict) && StrictlySorted(KeysOf(fields))
    requires forall i :: 0 <= i < |fields| ==> Encodable(fields[i].1, dict)
    requires 1 <= pos <= |bs| && bs[pos..] == FieldsBytes(fields, k, dict) + rest
    requires end == pos + |FieldsBytes(fields, k, dict)|
    ensures DecodeFields(bs, pos, count, ReclassifyFields(fields)[..k], dict) == Ok((ReclassifyFields(fields), end))
    decreases Obj(fields), 0, |fields| - k, 2
  {
    if k == |fields| {
      FieldsDone(fields, k, count, dict, bs, pos, end);
    } else {
      var next := FieldStep(fields, k, count, rest, dict, bs, pos, end);
      FieldsRoundTrip(fields, k + 1, count - 1, rest, dict, bs, next, end);
    }
  }

  /** The object loop ends once every field is read, with the whole object and nothing more consumed. */
  lemma {:induction false} FieldsDone(fields: seq<(string, Value)>, k: nat, count: nat, dict: seq<string>, bs: seq<byte>, pos: nat, end: nat)
    requires k == |fields| && count == 0 && Covered(Obj(fields), dict)
    requires 1 <= pos <= |bs| && end == pos + |FieldsBytes(fields, k, dict)|
    ensures DecodeFields(bs, pos, count, ReclassifyFields(fields)[..k], dict) == Ok((ReclassifyFields(fields), end))
  {
    assert ReclassifyFields(fields)[..k] == ReclassifyFields(fields);
  }

  /** One turn of the object loop, with the decoded prefix of the object as the map built so far. */
  lemma {:induction false} FieldStep(fields: seq<(string, Value)>, k: nat, count: nat, rest: seq<byte>, dict: seq<string>,
                                     bs: seq<byte>, pos: nat, end: nat)
    returns (next: nat)
    requires k < |fields| && count == |fields| - k && |dict| < U32_LIMIT
    requires Covered(Obj(fields), dict) && StrictlySorted(KeysOf(fields))
    requires forall i :: 0 <= i < |fields| ==> Encodable(fields[i].1, dict)
    requires 1 <= pos <= |bs| && bs[pos..] == FieldsBytes(fields, k, dict) + rest
    requires end == pos + |FieldsBytes(fields, k, dict)|
    ensures pos < next <= |bs| && bs[next..] == FieldsBytes(fields, k + 1, dict) + rest
    ensures end == next + |FieldsBytes(fields, k + 1, dict)|
    ensures DecodeFields(bs, pos, count, ReclassifyFields(fields)[..k], dict)
         == DecodeFields(bs, next, count - 1, ReclassifyFields(fields)[..k + 1], dict)
    decreases Obj(fields), 0, |fields| - k, 1
  {
    next := NextFieldRoundTrip(fields, k, count, rest, dict, bs, pos, ReclassifyFields(fields)[..k]);
    InsertNextField(fields, k);
  }

  /** One turn of the object loop: the field at `k` is read back and inserted, and the loop goes on where its bytes end. */
  lemma {:induction false} NextFieldRoundTrip(fields: seq<(string, Value)>, k: nat, count: nat, rest: seq<byte>, dict: seq<string>, bs: seq<byte>, pos: nat,
                                              acc: seq<(string, Value)>)
    returns (next: nat)
    requires k < |fields| && count == |fields| - k && |dict| < U32_LIMIT
    requires Covered(Obj(fields), dict) && Encodable(fields[k].1, dict)
    requires 1 <= pos <= |bs| && bs[pos..] == FieldsBytes(fields, k, dict) + rest
    ensures pos < next <= |bs| && bs[next..] == FieldsBytes(fields, k + 1, dict) + rest
    ensures |FieldsBytes(fields, k, dict)| == next - pos + |FieldsBytes(fields, k + 1, dict)|
    ensures DecodeFields(bs, pos, count, acc, dict)
         == DecodeFields(bs, next, count - 1, Insert(acc, fields[k].0, Reclassify(fields[k].1)), dict)
    decreases Obj(fields), 0, |fields| - k, 0
  {
    FieldsSplit(fields, k, dict, bs, pos, rest);
    next := pos + |FieldBytes(fields[k].0, fields[k].1, dict)|;
    FieldRoundTrip(fields[k].0, fields[k].1, FieldsBytes(fields, k + 1, dict) + rest, dict, bs, pos, count, acc, next);
  }



  lemma {:induction false} SuffixAfter(bs: seq<byte>, pos: nat, head: seq<byte>, tail: seq<byte>)
    requires pos <= |bs| && bs[pos..] == head + tail
    ensures pos + |head| <= |bs| && bs[pos + |head|..] == tail
  {
    assert bs[pos + |head|..] == bs[pos..][|head|..];
  }

  lemma {:induction false} PrefixSnoc<T>(s: seq<T>, k: nat)
    requires k < |s|
    ensures s[..k] + [s[k]] == s[..k + 1]
  {
  }

  lemma {:induction false} ArrayStep(bs: seq<byte>, dict: seq<string>, count: u32, n: nat, items: seq<Value>, end: nat)
    requires bs != [] && bs[0] == OP_ARRAY_START && ReadLeb128(bs[1..]) == Read(count, n)
    requires DecodeItems(bs, 1 + n, count, [], dict) == Ok((items, end))
    ensures DecodeValue(bs, dict) == Ok((Arr(items), end))
  {
  }

  lemma {:induction false} ObjectStep(bs: seq<byte>, dict: seq<string>, count: u32, n: nat, fields: seq<(string, Value)>, end: nat)
    requires bs != [] && bs[0] == OP_OBJECT_START && ReadLeb128(bs[1..]) == Read(count, n)
    requires DecodeFields(bs, 1 + n, count, [], dict) == Ok((fields, end))
    ensures DecodeValue(bs, dict) == Ok((Obj(fields), end))
  {
  }

  lemma {:induction false} ItemsStep(bs: seq<byte>, pos: nat, count: nat, acc: seq<Value>, dict: seq<string>, v: Value, n: nat)
    requires 1 <= pos <= |bs| && count > 0 && DecodeValue(bs[pos..], dict) == Ok((v, n))
    ensures pos + n <= |bs|
    ensures DecodeItems(bs, pos, count, acc, dict) == DecodeItems(bs, pos + n, count - 1, acc + [v], dict)
  {
  }

  lemma {:induction false} FieldsStep(bs: seq<byte>, pos: nat, count: nat, acc: seq<(string, Value)>, dict: seq<string>,
                   key: string, v: Value, next: nat)
    requires 1 <= pos <= |bs| && count > 0 && DecodeField(bs, pos, dict) == Ok((key, v, next))
    ensures next <= |bs|
    ensures DecodeFields(bs, pos, count, acc, dict) == DecodeFields(bs, next, count - 1, Insert(acc, key, v), dict)
  {
  }

  /** The bytes of the fields from `k` on are those of field `k` followed by those of the rest. */
  lemma {:induction false} FieldsSplit(fields: seq<(string, Value)>, k: nat, dict: seq<string>, bs: seq<byte>, pos: nat, rest: seq<byte>)
    requires k < |fields| && Covered(Obj(fields), dict)
    requires pos <= |bs| && bs[pos..] == FieldsBytes(fields, k, dict) + rest
    ensures |FieldsBytes(fields, k, dict)| == |FieldBytes(fields[k].0, fields[k].1, dict)| + |FieldsBytes(fields, k + 1, dict)|
    ensures bs[pos..] == FieldBytes(fields[k].0, fields[k].1, dict) + (FieldsBytes(fields, k + 1, dict) + rest)
    ensures pos + |FieldBytes(fields[k].0, fields[k].1, dict)| <= |bs|
    ensures bs[pos + |FieldBytes(fields[k].0, fields[k].1, dict)|..] == FieldsBytes(fields, k + 1, dict) + rest
  {
    FieldsBytesCons(fields, k, dict);
    SplitAt(bs, pos, FieldsBytes(fields, k, dict), FieldBytes(fields[k].0, fields[k].1, dict), FieldsBytes(fields, k + 1, dict), rest);
  }


  lemma {:induction false} FieldsBytesCons(fields: seq<(string, Value)>, k: nat, dict: seq<string>)
    requires k < |fields| && Covered(Obj(fields), dict)
    ensures FieldsBytes(fields, k, dict) == FieldBytes(fields[k].0, fields[k].1, dict) + FieldsBytes(fields, k + 1, dict)
  {
  }

  lemma {:induction false} ItemsBytesCons(items: seq<Value>, k: nat, dict: seq<string>)
    requires k < |items| && Covered(Arr(items), dict)
    ensures ItemsBytes(items, k, dict) == ValueBytes(items[k], dict) + ItemsBytes(items, k + 1, dict)
  {
  }

  /** Where `a = b + c` starts at `pos`, `c` starts at `pos + |b|`. */
  lemma {:induction false} SplitAt(bs: seq<byte>, pos: nat, a: seq<byte>, b: seq<byte>, c: seq<byte>, rest: seq<byte>)
    requires pos <= |bs| && bs[pos..] == a + rest && a == b + c
    ensures bs[pos..] == b + (c + rest)
    ensures pos + |b| <= |bs| && bs[pos + |b|..] == c + rest
  {
    SuffixAfter(bs, pos, b, c + rest);
  }

  /** The decoder's `insert` of the next field of a sorted object appends it. */
  lemma {:induction false} InsertNextField(fields: seq<(string, Value)>, k: nat)
    requires k < |fields| && StrictlySorted(KeysOf(fields))
    ensures Insert(ReclassifyFields(fields)[..k], fields[k].0, Reclassify(fields[k].1)) == ReclassifyFields(fields)[..k + 1]
  {
    var all := ReclassifyFields(fields);
    ReclassifyFieldsKeys(fields);
    SortedPrefixBelow(fields, all, k);
    AppendAfterLast(all[..k], fields[k].0, Reclassify(fields[k].1));
    assert all[k] == (fields[k].0, Reclassify(fields[k].1));
    PrefixSnoc(all, k);
  }

  /** In a strictly sorted field list, the keys before position `k` are below the key at `k`. */
  lemma {:induction false} SortedPrefixBelow(fields: seq<(string, Value)>, all: seq<(string, Value)>, k: nat)
    requires k < |fields| && StrictlySorted(KeysOf(fields))
    requires |all| == |fields| && KeysOf(all) == KeysOf(fields)
    ensures forall i :: 0 <= i < k ==> Less(all[..k][i].0, fields[k].0)
  {
    forall i | 0 <= i < k
      ensures Less(all[..k][i].0, fields[k].0)
    {
      assert all[i].0 == KeysOf(all)[i];
      assert Less(KeysOf(fields)[i], KeysOf(fields)[k]);
    }
  }

  /** One field is read back: its key id names `key`, its value is `value` reclassified, and the map gets it inserted. */
  lemma {:induction false} FieldRoundTrip(key: string, value: Value, rest: seq<byte>, dict: seq<string>, bs: seq<byte>, pos: nat,
                                          count: nat, acc: seq<(string, Value)>, next: nat)
    requires key in dict && Encodable(value, dict) && |dict| < U32_LIMIT && count > 0
    requires 1 <= pos <= |bs| && bs[pos..] == FieldBytes(key, value, dict) + rest
    requires next == pos + |FieldBytes(key, value, dict)|
    ensures next <= |bs|
    ensures DecodeFields(bs, pos, count, acc, dict) == DecodeFields(bs, next, count - 1, Insert(acc, key, Reclassify(value)), dict)
    decreases value, 3
  {
    var id := U32(Position(dict, key));
    var vb := ValueBytes(value, dict);
    assert FieldBytes(key, value, dict) == Leb128(id) + vb;
    SplitAt(bs, pos, FieldBytes(key, value, dict), Leb128(id), vb, rest);
    Leb128RoundTrip(id, vb + rest);
    ValueRoundTrip(value, rest, dict);
    FieldDecoded(bs, pos, dict, key, id, |Leb128(id)|, Reclassify(value), |vb|);
    FieldsStep(bs, pos, count, acc, dict, key, Reclassify(value), next);
  }

  /** A key id naming `key` followed by the bytes of a value read back as that field. */
  lemma FieldDecoded(bs: seq<byte>, pos: nat, dict: seq<string>, key: string, id: u32, idLen: nat, v: Value, vLen: nat)
    requires 1 <= pos && pos + idLen <= |bs| && ReadLeb128(bs[pos..]) == Read(id, idLen)
    requires (id as int) < |dict| && dict[id] == key
    requires DecodeValue(bs[pos + idLen..], dict) == Ok((v, vLen))
    ensures DecodeField(bs, pos, dict) == Ok((key, v, pos + idLen + vLen))
  {
  }

  // ---------------------------------------------------------------------------
  // The dictionary

  /** The dictionary entries from `k` on read back as the rest of the dictionary, ending where their bytes end. */
  lemma {:induction false} EntriesRoundTrip(dict: seq<string>, k: nat, count: nat, bs: seq<byte>, pos: nat, tail: seq<byte>, end: nat)
    requires DictionaryFits(dict) && k <= |dict| && count == |dict| - k
    requires pos <= |bs| && bs[pos..] == EntriesBytes(dict, k) + tail
    requires end == pos + |EntriesBytes(dict, k)|
    ensures DecodeEntries(bs, pos, count, dict[..k]) == DictRead(dict, Ok(end))
    decreases |dict| - k
  {
    if k == |dict| {
      assert dict[..k] == dict;
    } else {
      var next := EntryStep(dict, k, count, bs, pos, tail, end);
      EntriesRoundTrip(dict, k + 1, count - 1, bs, next, tail, end);
    }
  }

  /** One turn of the dictionary loop: entry `k` is read back and the loop goes on where its bytes end. */
  lemma {:induction false} EntryStep(dict: seq<string>, k: nat, count: nat, bs: seq<byte>, pos: nat, tail: seq<byte>, end: nat)
    returns (next: nat)
    requires DictionaryFits(dict) && k < |dict| && count == |dict| - k
    requires pos <= |bs| && bs[pos..] == EntriesBytes(dict, k) + tail
    requires end == pos + |EntriesBytes(dict, k)|
    ensures next <= |bs| && bs[next..] == EntriesBytes(dict, k + 1) + tail
    ensures end == next + |EntriesBytes(dict, k + 1)|
    ensures DecodeEntries(bs, pos, count, dict[..k]) == DecodeEntries(bs, next, count - 1, dict[..k + 1])
  {
    EntryFits(dict, k);
    EntriesBytesCons(dict, k);
    Utf8.DecodeEncode(dict[k]);
    next := EntryRead(bs, pos, count, dict[..k], U32(|Utf8.Encode(dict[k])|), Utf8.Encode(dict[k]), dict[k],
                      EntriesBytes(dict, k + 1), tail, end);
    PrefixSnoc(dict, k);
  }

  lemma {:induction false} EntryFits(dict: seq<string>, k: nat)
    requires DictionaryFits(dict) && k < |dict|
    ensures U32(|Utf8.Encode(dict[k])|) == |Utf8.Encode(dict[k])|
  {
  }

  lemma {:induction false} EntriesBytesCons(dict: seq<string>, k: nat)
    requires k < |dict|
    ensures EntriesBytes(dict, k) == Leb128(U32(|Utf8.Encode(dict[k])|)) + Utf8.Encode(dict[k]) + EntriesBytes(dict, k + 1)
  {
  }

  /** An entry whose bytes `e` are the UTF-8 of `s`, preceded by their length: the loop reads `s` and goes on after `e`. */
  lemma {:induction false} EntryRead(bs: seq<byte>, pos: nat, count: nat, acc: seq<string>, len: u32, e: seq<byte>, s: string,
                                     more: seq<byte>, tail: seq<byte>, end: nat)
    returns (next: nat)
    requires len == |e| && Utf8.Decode(e) == Some(s) && count > 0
    requires pos <= |bs| && bs[pos..] == Leb128(len) + e + more + tail
    requires end == pos + |Leb128(len) + e + more|
    ensures next <= |bs| && bs[next..] == more + tail && end == next + |more|
    ensures DecodeEntries(bs, pos, count, acc) == DecodeEntries(bs, next, count - 1, acc + [s])
  {
    EntryLayout(bs, pos, len, e, more, tail);
    next := pos + |Leb128(len)| + len;
    EntryDecodes(bs, pos, count, acc, len, |Leb128(len)|, e, s, next);
  }

  /** Where the parts of one dictionary entry sit: its varint length, its bytes, and what follows. */
  lemma {:induction false} EntryLayout(bs: seq<byte>, pos: nat, len: u32, e: seq<byte>, more: seq<byte>, tail: seq<byte>)
    requires len == |e|
    requires pos <= |bs| && bs[pos..] == Leb128(len) + e + more + tail
    ensures ReadLeb128(bs[pos..]) == Read(len, |Leb128(len)|)
    ensures pos + |Leb128(len)| + len <= |bs|
    ensures bs[pos + |Leb128(len)|..pos + |Leb128(len)| + len] == e
    ensures bs[pos + |Leb128(len)| + len..] == more + tail
  {
    assert bs[pos..] == Leb128(len) + (e + (more + tail));
    Leb128RoundTrip(len, e + (more + tail));
    SuffixAfter(bs, pos, Leb128(len), e + (more + tail));
    PrefixAt(bs, pos + |Leb128(len)|, e, more + tail);
    SuffixAfter(bs, pos + |Leb128(len)|, e, more + tail);
  }

  lemma {:induction false} EntryDecodes(bs: seq<byte>, pos: nat, count: nat, acc: seq<string>, len: u32, n: nat,
                                        e: seq<byte>, s: string, next: nat)
    requires pos <= |bs| && count > 0
    requires ReadLeb128(bs[pos..]) == Read(len, n) && next == pos + n + len <= |bs|
    requires bs[pos + n..next] == e && Utf8.Decode(e) == Some(s)
    ensures DecodeEntries(bs, pos, count, acc) == DecodeEntries(bs, next, count - 1, acc + [s])
  {
  }

  lemma {:induction false} PrefixAt(bs: seq<byte>, pos: nat, a: seq<byte>, b: seq<byte>)
    requires pos <= |bs| && bs[pos..] == a + b
    ensures pos + |a| <= |bs| && bs[pos..pos + |a|] == a
  {
    assert bs[pos..pos + |a|] == bs[pos..][..|a|];
  }

  // ---------------------------------------------------------------------------
  // The whole buffer

  /**
   * `decode` reads back what `encode` wrote, with numbers as their opcodes
   * read them, whatever bytes follow.
   */
  lemma {:induction false} RoundTrip(v: Value, nfkc: string -> string, rest: seq<byte>)
    requires Fits(Canonicalize(v, nfkc))
    ensures Decode(Encode(v, nfkc) + rest) == Ok(Reclassify(Canonicalize(v, nfkc)))
  {
    CanonicalizeIsCanonical(v, nfkc);
    ScanCovers(Canonicalize(v, nfkc));
    BufferRoundTrip(Canonicalize(v, nfkc), Dictionary(Canonicalize(v, nfkc)), Encode(v, nfkc) + rest, rest);
  }

  /** The buffer `encode` writes for the canonical value `c`, followed by `rest`, decodes to `c` reclassified. */
  lemma {:induction false} BufferRoundTrip(c: Value, dict: seq<string>, bs: seq<byte>, rest: seq<byte>)
    requires Encodable(c, dict) && DictionaryFits(dict)
    requires bs == HEADER + Leb128(U32(|dict|)) + EntriesBytes(dict, 0) + ValueBytes(c, dict) + rest
    ensures Decode(bs) == Ok(Reclassify(c))
  {
    var body := ValueBytes(c, dict);
    var end := 5 + |Leb128(U32(|dict|))| + |EntriesBytes(dict, 0)|;
    DictionaryRoundTrip(dict, bs, body, rest, end);
    ValueRoundTrip(c, rest, dict);
    DecodeSteps(bs, dict, end, Reclassify(c), |body|);
  }

  /** The header and the dictionary read back, and the value tree starts where the entries end. */
  lemma {:induction false} DictionaryRoundTrip(dict: seq<string>, bs: seq<byte>, body: seq<byte>, rest: seq<byte>, end: nat)
    requires DictionaryFits(dict)
    requires bs == HEADER + Leb128(U32(|dict|)) + EntriesBytes(dict, 0) + body + rest
    requires end == 5 + |Leb128(U32(|dict|))| + |EntriesBytes(dict, 0)|
    ensures CheckHeader(bs).None? && ReadDictionary(bs) == DictRead(dict, Ok(end))
    ensures end <= |bs| && bs[end..] == body + rest
  {
    var count := U32(|dict|);
    var n := |Leb128(count)|;
    var entries := EntriesBytes(dict, 0);
    var tail := body + rest;
    BufferLayout(bs, count, entries, body, rest);
    DictionaryAfterHeader(dict, bs, count, n, tail, end);
  }

  /** After the header, the count and the entries read back as the dictionary. */
  lemma DictionaryAfterHeader(dict: seq<string>, bs: seq<byte>, count: u32, n: nat, tail: seq<byte>, end: nat)
    requires DictionaryFits(dict) && count as int == |dict|
    requires CheckHeader(bs).None? && ReadLeb128(bs[5..]) == Read(count, n)
    requires 5 + n <= |bs| && bs[5 + n..] == EntriesBytes(dict, 0) + tail
    requires end == 5 + n + |EntriesBytes(dict, 0)|
    ensures ReadDictionary(bs) == DictRead(dict, Ok(end))
  {
    var none: seq<string> := [];
    assert dict[..0] == none;
    EntriesRoundTrip(dict, 0, count as nat, bs, 5 + n, tail, end);
    DictionaryCount(bs, count, n, DictRead(dict, Ok(end)));
  }

  /** `decode` reads the dictionary count after the header and then that many entries. */
  lemma {:induction false} DictionaryCount(bs: seq<byte>, count: u32, n: nat, outcome: DictRead)
    requires CheckHeader(bs).None?
    requires ReadLeb128(bs[5..]) == Read(count, n) && DecodeEntries(bs, 5 + n, count, []) == outcome
    ensures ReadDictionary(bs) == outcome
  {
  }

  /** `decode` on a buffer whose header, dictionary and value tree each read. */
  lemma {:induction false} DecodeSteps(bs: seq<byte>, dict: seq<string>, end: nat, value: Value, n: nat)
    requires CheckHeader(bs).None? && ReadDictionary(bs) == DictRead(dict, Ok(end))
    requires end <= |bs| && DecodeValue(bs[end..], dict) == Ok((value, n))
    ensures Decode(bs) == Ok(value)
  {
  }

  /** Where the parts of a whole buffer sit: the header, the varint dictionary count, the entries and the value tree. */
  lemma {:induction false} BufferLayout(bs: seq<byte>, count: u32, entries: seq<byte>, body: seq<byte>, rest: seq<byte>)
    requires bs == HEADER + Leb128(count) + entries + body + rest
    ensures CheckHeader(bs).None?
    ensures ReadLeb128(bs[5..]) == Read(count, |Leb128(count)|)
    ensures 5 + |Leb128(count)| <= |bs|
    ensures bs[5 + |Leb128(count)|..] == entries + (body + rest)
    ensures bs[5 + |Leb128(count)| + |entries|..] == body + rest
  {
    assert bs == HEADER + Leb128(count) + (entries + (body + rest));
    HeaderLayout(bs, Leb128(count), entries + (body + rest));
    Leb128RoundTrip(count, entries + (body + rest));
    SuffixAfter(bs, 5 + |Leb128(count)|, entries, body + rest);
  }

  /** A buffer that starts with the header: `decode` gets past it and reads what follows it. */
  lemma {:induction false} HeaderLayout(bs: seq<byte>, a: seq<byte>, b: seq<byte>)
    requires bs == HEADER + a + b
    ensures CheckHeader(bs).None?
    ensures bs[5..] == a + b && bs[5 + |a|..] == b
  {
    assert bs[..4] == MAGIC;
  }

  // ---------------------------------------------------------------------------
  // Values without floats

  /** No float anywhere, and every integer in the `i32` range. */
  predicate Plain(v: Value)
  {
    match v
    case Int(i) => I32_MIN <= i <= I32_MAX
    case Float(_) => false
    case Arr(items) => forall i :: 0 <= i < |items| ==> Plain(items[i])
    case Obj(fields) => forall i :: 0 <= i < |fields| ==> Plain(fields[i].1)
    case _ => true
  }

  /**
   * For a value without floats whose integers fit an `i32`, `decode`
   * gives back exactly the canonical form of what was encoded.
   */
  lemma PlainRoundTrip(v: Value, nfkc: string -> string)
    requires Plain(v) && Fits(Canonicalize(v, nfkc))
    ensures Decode(Encode(v, nfkc)) == Ok(Canonicalize(v, nfkc))
  {
    RoundTrip(v, nfkc, []);
    assert Encode(v, nfkc) + [] == Encode(v, nfkc);
    CanonicalizePlain(v, nfkc);
    ReclassifyPlain(Canonicalize(v, nfkc));
  }

  /** Reclassifying leaves a value without floats as it is. */
  lemma {:induction false} ReclassifyPlain(v: Value)
    requires Plain(v)
    ensures Reclassify(v) == v
  {
    match v
    case Arr(items) =>
      forall i | 0 <= i < |items|
        ensures ReclassifyItems(items)[i] == items[i]
      {
        ReclassifyPlain(items[i]);
      }
      assert ReclassifyItems(items) == items;
    case Obj(fields) =>
      forall i | 0 <= i < |fields|
        ensures ReclassifyFields(fields)[i] == fields[i]
      {
        ReclassifyPlain(fields[i].1);
      }
      assert ReclassifyFields(fields) == fields;
    case _ =>
  }

  /** `canonicalize` brings in no float and changes no integer. */
  lemma {:induction false} CanonicalizePlain(v: Value, nfkc: string -> string)
    requires Plain(v)
    ensures Plain(Canonicalize(v, nfkc))
  {
    match v
    case Arr(items) =>
      forall i | 0 <= i < |items|
        ensures Plain(Canonicalize(items[i], nfkc))
      {
        CanonicalizePlain(items[i], nfkc);
      }
    case Obj(fields) =>
      var pairs := CanonPairs(fields, nfkc);
      var r := InsertAll([], pairs);
      InsertAllInvariant([], pairs);
      forall i | 0 <= i < |r|
        ensures Plain(r[i].1)
      {
        assert r[i] in pairs;
        var j :| 0 <= j < |pairs| && pairs[j] == r[i];
        CanonicalizePlain(fields[j].1, nfkc);
      }
    case _ =>
  }
}
