/**
 * `TensEncoder` and `TensDecoder` (encoder.rs): the stateful encoder, which
 * rebuilds its string table on every `encode`, and the decoder, which
 * replaces its dictionary on every `decode`. Each method is proved to
 * compute the corresponding function of binary_format.dfy.
 */
module BinaryCodec {
  import opened Base
  import opened Float64
  import opened Values
  import opened Varint
  import Utf8
  import opened Canonical
  import opened StringTables
  import opened BinaryFormat

  class TensEncoder {
    var stringTable: StringTable

    /** `TensEncoder::new`. */
    constructor()
      ensures fresh(stringTable) && stringTable.Valid() && stringTable.entries == []
    {
      stringTable := new StringTable();
    }

    /**
     * `TensEncoder::encode`: canonicalise, rebuild the string table by a
     * scan, then write the header, the dictionary and the value tree.
     */
    method Encode(value: Value, nfkc: string -> string) returns (out: seq<byte>)
      modifies this
      ensures out == BinaryFormat.Encode(value, nfkc)
      ensures fresh(stringTable) && stringTable.Valid()
      ensures stringTable.entries == Dictionary(Canonicalize(value, nfkc))
    {
      var canonical := Canonicalize(value, nfkc);
      CanonicalizeIsCanonical(value, nfkc);
      var table := new StringTable();
      stringTable := table;
      ScanStrings(canonical);
      ScanCovers(canonical);

      var count := EncodeVarint(U32(stringTable.Len()));
      out := WriteDictionary(stringTable.entries, HEADER + count);
      out := EncodeValue(canonical, out);
    }

    /** The dictionary loop of `encode`: each entry as its varint UTF-8 length and its UTF-8 bytes. */
    static method WriteDictionary(entries: seq<string>, out: seq<byte>) returns (res: seq<byte>)
      ensures res == out + EntriesBytes(entries, 0)
    {
      res := out;
      var i := 0;
      while i < |entries|
        invariant i <= |entries|
        invariant res + EntriesBytes(entries, i) == out + EntriesBytes(entries, 0)
      {
        var bytes := Utf8.Encode(entries[i]);
        var len := EncodeVarint(U32(|bytes|));
        EntriesBytesStep(entries, i);
        Reassociate4(res, len, bytes, EntriesBytes(entries, i + 1));
        res := res + len + bytes;
        i := i + 1;
      }
    }

    /**
     * `TensEncoder::scan_strings`: add the strings of `v` to the table in
     * scanning order. A serde_json map lists its keys in ascending order,
     * so the source's `keys.sort()` leaves them as they are, and `obj.get`
     * of the i-th key is the i-th field.
     */
    method ScanStrings(v: Value)
      requires stringTable.Valid() && WellFormed(v)
      modifies stringTable
      ensures stringTable.Valid()
      ensures stringTable.entries == AddAll(old(stringTable.entries), Strings(v))
      decreases v, 1
    {
      match v
      case Str(s) =>
        var _ := stringTable.Add(s);
        assert Strings(v) == [s];
      case Arr(items) =>
        ScanArray(items);
      case Obj(fields) =>
        ScanObject(fields);
      case _ =>
    }

    /** The array arm of `scan_strings`: each item in order. */
    method ScanArray(items: seq<Value>)
      requires stringTable.Valid() && WellFormed(Arr(items))
      modifies stringTable
      ensures stringTable.Valid()
      ensures stringTable.entries == AddAll(old(stringTable.entries), Strings(Arr(items)))
      decreases Arr(items), 0
    {
      ghost var target := AddAll(stringTable.entries, Strings(Arr(items)));
      var i := 0;
      while i < |items|
        invariant i <= |items| && stringTable.Valid()
        invariant AddAll(stringTable.entries, ItemStrings(items, i)) == target
      {
        ItemStringsStep(items, i);
        AddAllAppend(stringTable.entries, Strings(items[i]), ItemStrings(items, i + 1));
        ScanStrings(items[i]);
        i := i + 1;
      }
    }

    /** The object arm of `scan_strings`: all keys first, then each value. */
    method ScanObject(fields: seq<(string, Value)>)
      requires stringTable.Valid() && WellFormed(Obj(fields))
      modifies stringTable
      ensures stringTable.Valid()
      ensures stringTable.entries == AddAll(old(stringTable.entries), Strings(Obj(fields)))
      decreases Obj(fields), 0
    {
      ghost var target := AddAll(stringTable.entries, Strings(Obj(fields)));
      var keys := KeysOf(fields);
      AddAllAppend(stringTable.entries, keys, FieldStrings(fields, 0));
      AddKeys(keys);
      var i := 0;
      while i < |fields|
        invariant i <= |fields| && stringTable.Valid()
        invariant AddAll(stringTable.entries, FieldStrings(fields, i)) == target
      {
        FieldStringsStep(fields, i);
        AddAllAppend(stringTable.entries, Strings(fields[i].1), FieldStrings(fields, i + 1));
        ScanStrings(fields[i].1);
        i := i + 1;
      }
    }

    /** The first loop of the object arm of `scan_strings`: add every key, in order. */
    method AddKeys(keys: seq<string>)
      requires stringTable.Valid()
      modifies stringTable
      ensures stringTable.Valid()
      ensures stringTable.entries == AddAll(old(stringTable.entries), keys)
    {
      ghost var start := stringTable.entries;
      var i := 0;
      while i < |keys|
        invariant i <= |keys| && stringTable.Valid()
        invariant stringTable.entries == AddAll(start, keys[..i])
      {
        AddAllPrefix(start, keys, i);
        var _ := stringTable.Add(keys[i]);
        i := i + 1;
      }
      assert keys[..i] == keys;
    }

    /**
     * `TensEncoder::encode_value`: append the bytes of `v` to `out`. Every
     * string of `v` is already in the table, so the calls to `add` only
     * look ids up.
     */
    method EncodeValue(v: Value, out: seq<byte>) returns (res: seq<byte>)
      requires stringTable.Valid() && WellFormed(v) && Covered(v, stringTable.entries)
      modifies stringTable
      ensures stringTable.Valid()
      ensures unchanged(stringTable)
      ensures res == out + ValueBytes(v, stringTable.entries)
      decreases v, 1
    {
      match v
      case Null =>
        res := out + [OP_NULL];
      case Bool(b) =>
        res := out + [if b then OP_TRUE else OP_FALSE];
      case Int(i) =>
        res := out + (if i < TWO_63 then IntBytes(i) else FloatBytes(IntToF64(i)));
      case Float(f) =>
        res := out + FloatBytes(f);
      case Str(s) =>
        var id := stringTable.Add(s);
        var ref := EncodeVarint(id);
        res := out + [OP_STRING_REF] + ref;
      case Arr(items) =>
        res := EncodeArray(items, out);
      case Obj(fields) =>
        res := EncodeObject(fields, out);
    }

    /** The array arm of `encode_value`: opcode, element count, then each element. */
    method EncodeArray(items: seq<Value>, out: seq<byte>) returns (res: seq<byte>)
      requires stringTable.Valid() && WellFormed(Arr(items)) && Covered(Arr(items), stringTable.entries)
      modifies stringTable
      ensures stringTable.Valid()
      ensures unchanged(stringTable)
      ensures res == out + ValueBytes(Arr(items), stringTable.entries)
      decreases Arr(items), 0
    {
      ghost var dict := stringTable.entries;
      ghost var target := out + ValueBytes(Arr(items), dict);
      var count := EncodeVarint(U32(|items|));
      res := out + [OP_ARRAY_START] + count;
      var i := 0;
      while i < |items|
        invariant i <= |items| && stringTable.Valid()
        invariant unchanged(stringTable) && stringTable.entries == dict
        invariant res + ItemsBytes(items, i, dict) == target
      {
        ghost var before := res;
        ItemsBytesStep(items, i, dict);
        res := EncodeValue(items[i], res);
        Reassociate(before, ValueBytes(items[i], dict), ItemsBytes(items, i + 1, dict));
        i := i + 1;
      }
    }

    /** The object arm of `encode_value`: opcode, field count, then each key id and value. */
    method EncodeObject(fields: seq<(string, Value)>, out: seq<byte>) returns (res: seq<byte>)
      requires stringTable.Valid() && WellFormed(Obj(fields)) && Covered(Obj(fields), stringTable.entries)
      modifies stringTable
      ensures stringTable.Valid()
      ensures unchanged(stringTable)
      ensures res == out + ValueBytes(Obj(fields), stringTable.entries)
      decreases Obj(fields), 0
    {
      ghost var dict := stringTable.entries;
      ghost var target := out + ValueBytes(Obj(fields), dict);
      var count := EncodeVarint(U32(|fields|));
      res := out + [OP_OBJECT_START] + count;
      var i := 0;
      while i < |fields|
        invariant i <= |fields| && stringTable.Valid()
        invariant unchanged(stringTable) && stringTable.entries == dict
        invariant res + FieldsBytes(fields, i, dict) == target
      {
        ghost var before := res;
        FieldsBytesStep(fields, i, dict);
        var keyId := stringTable.Add(fields[i].0);
        var ref := EncodeVarint(keyId);
        res := res + ref;
        res := EncodeValue(fields[i].1, res);
        Reassociate4(before, ref, ValueBytes(fields[i].1, dict), FieldsBytes(fields, i + 1, dict));
        i := i + 1;
      }
    }
  }

  class TensDecoder {
    var dictionary: seq<string>

    /** `TensDecoder::new`. */
    constructor()
      ensures dictionary == []
    {
      dictionary := [];
    }

    /**
     * `TensDecoder::decode`: check the header, replace the dictionary by the
     * one in `bytes`, then read one value. The dictionary is left as it was
     * when the header is wrong or the count cannot be read, and holds the
     * entries read so far when an entry is bad.
     */
    method Decode(bytes: seq<byte>) returns (r: Result<Value, DecodeError>)
      modifies this
      ensures r == BinaryFormat.Decode(bytes)
      ensures CheckHeader(bytes).None? && ReadLeb128(bytes[5..]).Read? ==> dictionary == ReadDictionary(bytes).entries
      ensures CheckHeader(bytes).Some? || ReadLeb128(bytes[5..]).ShiftOverflow? ==> dictionary == old(dictionary)
    {
      if |bytes| < 5 {
        return Err(TooShortForHeader);
      }
      if bytes[..4] != MAGIC {
        return Err(BadMagic);
      }
      if bytes[4] != VERSION {
        return Err(UnsupportedVersion(bytes[4]));
      }
      var pos: nat := 5;
      var countRead := DecodeVarint(bytes[pos..]);
      if countRead.ShiftOverflow? {
        return Err(VarintShiftOverflow);
      }
      var count := countRead.value;
      pos := pos + countRead.consumed;

      var entriesEnd := ReadEntries(bytes, pos, count);
      if entriesEnd.Err? {
        return Err(entriesEnd.error);
      }
      pos := entriesEnd.value;

      var decoded := DecodeValue(bytes[pos..]);
      match decoded
      case Err(e) => return Err(e);
      case Ok((value, _)) => return Ok(value);
    }

    /**
     * The dictionary loop of `decode`: a fresh dictionary, then `count`
     * entries, each a varint length and that many bytes of UTF-8.
     */
    method ReadEntries(bytes: seq<byte>, start: nat, count: nat) returns (r: Result<nat, DecodeError>)
      requires start <= |bytes|
      modifies this
      ensures DictRead(dictionary, r) == DecodeEntries(bytes, start, count, [])
    {
      ghost var outcome := DecodeEntries(bytes, start, count, []);
      dictionary := [];
      var pos: nat := start;
      var k: nat := 0;
      while k < count
        invariant k <= count
        invariant pos <= |bytes|
        invariant EntriesLeft(bytes, pos, count - k, dictionary, outcome)
      {
        EntriesStep(bytes, pos, count - k, dictionary);
        var lenRead := DecodeVarint(bytes[pos..]);
        if lenRead.ShiftOverflow? {
          return Err(VarintShiftOverflow);
        }
        var at := pos + lenRead.consumed;
        var end := at + lenRead.value;
        if end > |bytes| {
          return Err(EntryPastEnd);
        }
        var s := Utf8.Decode(bytes[at..end]);
        if s.None? {
          return Err(EntryNotUtf8);
        }
        DecodeEntriesNext(bytes, pos, count - k, dictionary, lenRead.value, lenRead.consumed, s.value, end, count - (k + 1));
        dictionary := dictionary + [s.value];
        pos := end;
        k := k + 1;
      }
      return Ok(pos);
    }

    /** `TensDecoder::decode_value`: one value from the front of `bytes`, and how many bytes it took. */
    method DecodeValue(bytes: seq<byte>) returns (r: Result<(Value, nat), DecodeError>)
      ensures r == BinaryFormat.DecodeValue(bytes, dictionary)
      decreases |bytes|, 1
    {
      if bytes == [] {
        return Err(UnexpectedEnd);
      }
      var opcode := bytes[0];
      var pos := 1;
      if opcode == OP_NULL {
        return Ok((Null, pos));
      } else if opcode == OP_TRUE {
        return Ok((Bool(true), pos));
      } else if opcode == OP_FALSE {
        return Ok((Bool(false), pos));
      } else if opcode == OP_INT8 || opcode == OP_INT32 || opcode == OP_FLOAT64 {
        r := DecodeNumber(bytes);
      } else if opcode == OP_STRING_REF {
        var idRead := DecodeVarint(bytes[pos..]);
        if idRead.ShiftOverflow? {
          return Err(VarintShiftOverflow);
        }
        pos := pos + idRead.consumed;
        if idRead.value >= |dictionary| {
          return Err(StringRefOutOfBounds(idRead.value));
        }
        return Ok((Str(dictionary[idRead.value]), pos));
      } else if opcode == OP_ARRAY_START {
        r := DecodeArray(bytes);
      } else if opcode == OP_OBJECT_START {
        r := DecodeObject(bytes);
      } else {
        return Err(UnknownOpcode(opcode));
      }
    }

    /** The `INT8`, `INT32` and `FLOAT64` arms of `decode_value`: a fixed number of little-endian bytes. */
    static method DecodeNumber(bytes: seq<byte>) returns (r: Result<(Value, nat), DecodeError>)
      requires bytes != [] && (bytes[0] == OP_INT8 || bytes[0] == OP_INT32 || bytes[0] == OP_FLOAT64)
      ensures r == BinaryFormat.DecodeNumber(bytes)
    {
      if bytes[0] == OP_INT8 {
        if |bytes| < 2 {
          return Err(Int8MissingByte);
        }
        return Ok((Int(SignedByte(bytes[1])), 2));
      } else if bytes[0] == OP_INT32 {
        if |bytes| < 5 {
          return Err(Int32TooShort);
        }
        FromLeBound(bytes[1..5]);
        Pow2Sixty();
        return Ok((Int(SignedI32(FromLe(bytes[1..5]))), 5));
      } else {
        if |bytes| < 9 {
          return Err(Float64TooShort);
        }
        FromLeBound(bytes[1..9]);
        Pow2Sixty();
        return Ok((FromF64(FromLe(bytes[1..9])), 9));
      }
    }

    /** The `ARRAY_START` arm of `decode_value`. */
    method DecodeArray(bytes: seq<byte>) returns (r: Result<(Value, nat), DecodeError>)
      requires bytes != []
      ensures r == BinaryFormat.DecodeArray(bytes, dictionary)
      decreases |bytes|, 0
    {
      var pos := 1;
      var countRead := DecodeVarint(bytes[pos..]);
      if countRead.ShiftOverflow? {
        return Err(VarintShiftOverflow);
      }
      var count := countRead.value;
      pos := pos + countRead.consumed;
      ghost var outcome := DecodeItems(bytes, pos, count, [], dictionary);
      var arr := [];
      var k := 0;
      while k < count
        invariant k <= count
        invariant 1 <= pos <= |bytes|
        invariant ItemsLeft(bytes, pos, count - k, arr, dictionary, outcome)
      {
        var item := DecodeValue(bytes[pos..]);
        if item.Err? {
          return Err(item.error);
        }
        pos := pos + item.value.1;
        arr := arr + [item.value.0];
        k := k + 1;
      }
      return Ok((Arr(arr), pos));
    }

    /** The `OBJECT_START` arm of `decode_value`: each field goes into a new map with `insert`. */
    method DecodeObject(bytes: seq<byte>) returns (r: Result<(Value, nat), DecodeError>)
      requires bytes != []
      ensures r == BinaryFormat.DecodeObject(bytes, dictionary)
      decreases |bytes|, 0
    {
      var pos := 1;
      var countRead := DecodeVarint(bytes[pos..]);
      if countRead.ShiftOverflow? {
        return Err(VarintShiftOverflow);
      }
      var count := countRead.value;
      pos := pos + countRead.consumed;
      ghost var outcome := DecodeFields(bytes, pos, count, [], dictionary);
      assert BinaryFormat.DecodeObject(bytes, dictionary)
          == if outcome.Err? then Err(outcome.error) else Ok((Obj(outcome.value.0), outcome.value.1));
      var fields := [];
      var k := 0;
      while k < count
        invariant k <= count
        invariant 1 <= pos <= |bytes|
        invariant FieldsLeft(bytes, pos, count - k, fields, dictionary, outcome)
      {
        var field := DecodeField(bytes, pos);
        if field.Err? {
          return Err(field.error);
        }
        var (key, value, next) := field.value;
        fields := Insert(fields, key, value);
        pos := next;
        k := k + 1;
      }
      return Ok((Obj(fields), pos));
    }

    /** The body of the object loop of `decode_value`: a key id, its entry, then the value. */
    method DecodeField(bytes: seq<byte>, pos: nat) returns (r: Result<(string, Value, nat), DecodeError>)
      requires 1 <= pos <= |bytes|
      ensures r == BinaryFormat.DecodeField(bytes, pos, dictionary)
      decreases |bytes| - pos, 2
    {
      var keyRead := DecodeVarint(bytes[pos..]);
      if keyRead.ShiftOverflow? {
        return Err(VarintShiftOverflow);
      }
      var at := pos + keyRead.consumed;
      if keyRead.value >= |dictionary| {
        return Err(KeyRefOutOfBounds(keyRead.value));
      }
      var key := dictionary[keyRead.value];
      var item := DecodeValue(bytes[at..]);
      if item.Err? {
        return Err(item.error);
      }
      return Ok((key, item.value.0, at + item.value.1));
    }
  }

  lemma Reassociate(a: seq<byte>, b: seq<byte>, c: seq<byte>)
    ensures a + b + c == a + (b + c)
  {
  }

  lemma Reassociate4(a: seq<byte>, b: seq<byte>, c: seq<byte>, d: seq<byte>)
    ensures a + b + c + d == a + (b + c + d)
  {
  }

  lemma ItemsBytesStep(items: seq<Value>, i: nat, dict: seq<string>)
    requires i < |items| && Covered(Arr(items), dict) && WellFormed(Arr(items))
    ensures Covered(items[i], dict) && WellFormed(items[i])
    ensures ItemsBytes(items, i, dict) == ValueBytes(items[i], dict) + ItemsBytes(items, i + 1, dict)
  {
  }

  lemma FieldsBytesStep(fields: seq<(string, Value)>, i: nat, dict: seq<string>)
    requires i < |fields| && Covered(Obj(fields), dict) && WellFormed(Obj(fields))
    ensures fields[i].0 in dict && Covered(fields[i].1, dict) && WellFormed(fields[i].1)
    ensures FieldsBytes(fields, i, dict)
         == Leb128(U32(Position(dict, fields[i].0))) + ValueBytes(fields[i].1, dict) + FieldsBytes(fields, i + 1, dict)
  {
  }

  lemma EntriesBytesStep(dict: seq<string>, i: nat)
    requires i < |dict|
    ensures EntriesBytes(dict, i) == Leb128(U32(|Utf8.Encode(dict[i])|)) + Utf8.Encode(dict[i]) + EntriesBytes(dict, i + 1)
  {
  }

  lemma ItemStringsStep(items: seq<Value>, i: nat)
    requires i < |items| && WellFormed(Arr(items))
    ensures WellFormed(items[i])
    ensures ItemStrings(items, i) == Strings(items[i]) + ItemStrings(items, i + 1)
  {
  }

  lemma FieldStringsStep(fields: seq<(string, Value)>, i: nat)
    requires i < |fields| && WellFormed(Obj(fields))
    ensures WellFormed(fields[i].1)
    ensures FieldStrings(fields, i) == Strings(fields[i].1) + FieldStrings(fields, i + 1)
  {
  }

  /** Adding one more key of `keys` to the table. */
  lemma AddAllPrefix(acc: seq<string>, keys: seq<string>, i: nat)
    requires i < |keys|
    ensures AddAll(acc, keys[..i + 1]) == AddAll(AddAll(acc, keys[..i]), [keys[i]])
  {
    assert keys[..i + 1] == keys[..i] + [keys[i]];
    AddAllAppend(acc, keys[..i], [keys[i]]);
  }

  lemma DecodeEntriesNext(bs: seq<byte>, pos: nat, count: nat, acc: seq<string>, len: u32, n: nat, s: string,
                          next: nat, rest: nat)
    requires pos <= |bs| && count == rest + 1
    requires ReadLeb128(bs[pos..]) == Read(len, n) && next == pos + n + len <= |bs|
    requires Utf8.Decode(bs[pos + n..next]) == Some(s)
    ensures DecodeEntries(bs, pos, count, acc) == DecodeEntries(bs, next, rest, acc + [s])
  {
  }

  lemma EntriesStep(bs: seq<byte>, pos: nat, count: nat, acc: seq<string>)
    requires pos <= |bs| && count > 0
    ensures DecodeEntries(bs, pos, count, acc) == DecodeEntry(bs, pos, count, acc)
  {
  }

  ghost predicate ItemsLeft(bs: seq<byte>, pos: nat, count: nat, acc: seq<Value>, dict: seq<string>,
                            outcome: Result<(seq<Value>, nat), DecodeError>)
    requires 1 <= pos <= |bs|
  {
    DecodeItems(bs, pos, count, acc, dict) == outcome
  }

  ghost predicate FieldsLeft(bs: seq<byte>, pos: nat, count: nat, acc: seq<(string, Value)>, dict: seq<string>,
                             outcome: Result<(seq<(string, Value)>, nat), DecodeError>)
    requires 1 <= pos <= |bs|
  {
    DecodeFields(bs, pos, count, acc, dict) == outcome
  }

  ghost predicate EntriesLeft(bs: seq<byte>, pos: nat, count: nat, acc: seq<string>, outcome: DictRead)
    requires pos <= |bs|
  {
    DecodeEntries(bs, pos, count, acc) == outcome
  }
}
