/**
 * `encode_tens_text` (encoder.rs): a JSON value, canonicalised, written as
 * TENS-Text. The records are the items of an array root, or a lone object
 * root. The field list and the field types come from the first record; a
 * field is marked `[]` when any record holds an array under it; the `@dict`
 * line lists, sorted, the strings that occur at least twice as direct field
 * values; then every object record is written as the line `data` followed
 * by one indented line per field (per item, for an array field).
 *
 * The text is described as a list of lines, each written followed by `\n`,
 * which is how the decoder's `lines()` reads it back.
 */
module TextEncoder {
  import opened Base
  import opened Float64
  import opened Values
  import opened Canonical
  import opened StringTables
  import opened Sorting
  import opened TextQuoting
  import opened TextValues
  import opened TextLines

  const ROOT_ERROR: string := "TENS-Text requires an array of objects or a single object"
  const RECORD_ERROR: string := "Records must be objects"
  /** The schema name the encoder always writes. */
  const SCHEMA_NAME: string := "data"

  /** The records of a canonical root: an array's items, or a lone object; none for any other root. */
  function Records(c: Value): Option<seq<Value>>
  {
    match c
    case Arr(items) => Some(items)
    case Obj(_) => Some([c])
    case _ => None
  }

  /** `record.as_object()` then `obj.get(key)`: nothing for a record that is not an object. */
  function FieldOf(record: Value, key: string): Option<Value>
  {
    if record.Obj? then Lookup(record.fields, key) else None
  }

  // ---------------------------------------------------------------------------
  // The schema

  /** The field names: the first record's keys, sorted. */
  function FieldKeys(first: Value): seq<string>
    requires first.Obj?
  {
    SortStrings(KeysOf(first.fields))
  }

  /** The type label of each field, from its value in the first record (`null` when absent). */
  function FieldTypes(first: Value, keys: seq<string>): (types: seq<string>)
    ensures |types| == |keys|
  {
    seq(|keys|, i requires 0 <= i < |keys| =>
      InferType(match FieldOf(first, keys[i]) case Some(v) => v case None => Null))
  }

  /** The record holds an array under `key`. */
  predicate HasArrayAt(record: Value, key: string)
  {
    FieldOf(record, key).Some? && FieldOf(record, key).value.Arr?
  }

  /** One of the first `n` records holds an array under `key`. */
  predicate ArrayAmong(records: seq<Value>, n: nat, key: string)
    requires n <= |records|
  {
    exists j :: 0 <= j < n && HasArrayAt(records[j], key)
  }

  /** `is_array_field`: for each field, whether any record holds an array under it. */
  function ArrayFlags(records: seq<Value>, keys: seq<string>): (flags: seq<bool>)
    ensures |flags| == |keys|
  {
    seq(|keys|, i requires 0 <= i < |keys| => ArrayAmong(records, |records|, keys[i]))
  }

  // ---------------------------------------------------------------------------
  // The dictionary

  /** The string a record holds directly under `key`, if it holds one. */
  function StringAt(record: Value, key: string): seq<string>
  {
    var field := FieldOf(record, key);
    if field.Some? && field.value.Str? then [field.value.s] else []
  }

  /** The strings a record holds directly under the first `k` field names. */
  function RecordStrings(record: Value, keys: seq<string>, k: nat): seq<string>
    requires k <= |keys|
  {
    if k == 0 then [] else RecordStrings(record, keys, k - 1) + StringAt(record, keys[k - 1])
  }

  /** The strings the first `n` records hold directly under the field names, in the order the counting loop meets them. */
  function StringValues(records: seq<Value>, keys: seq<string>, n: nat): seq<string>
    requires n <= |records|
  {
    if n == 0 then [] else StringValues(records, keys, n - 1) + RecordStrings(records[n - 1], keys, |keys|)
  }

  /** The elements of `xs` that occur at least twice in `all`. */
  function Frequent(xs: seq<string>, all: seq<string>): seq<string>
  {
    if xs == [] then []
    else
      var x := xs[|xs| - 1];
      Frequent(xs[..|xs| - 1], all) + (if multiset(all)[x] >= 2 then [x] else [])
  }

  /** The `@dict` entries: each string occurring at least twice as a direct field value, once, sorted. */
  function DictEntries(records: seq<Value>, keys: seq<string>): seq<string>
  {
    var all := StringValues(records, keys, |records|);
    SortStrings(Frequent(AddAll([], all), all))
  }

  // ---------------------------------------------------------------------------
  // The lines of the text

  function HeaderLines(encoding: Option<string>): seq<string>
  {
    ["@version 1"] + match encoding case Some(e) => ["@encoding " + e] case None => []
  }

  /** The ` name:type` items of the first `k` fields, `[]` after the type of an array field. */
  function SchemaFields(keys: seq<string>, types: seq<string>, flags: seq<bool>, k: nat): string
    requires k <= |keys| == |types| == |flags|
  {
    if k == 0 then []
    else SchemaFields(keys, types, flags, k - 1)
         + " " + keys[k - 1] + ":" + types[k - 1] + (if flags[k - 1] then "[]" else "")
  }

  function SchemaLine(keys: seq<string>, types: seq<string>, flags: seq<bool>): string
    requires |keys| == |types| == |flags|
  {
    "@schema " + SCHEMA_NAME + SchemaFields(keys, types, flags, |keys|)
  }

  /** A `@dict` entry as written: quoted when `needs_quoting` says so. */
  function DictToken(entry: string, parseF64: string -> Option<F64Bits>): string
  {
    if NeedsQuoting(entry, parseF64) then Quote(entry) else entry
  }

  /** The first `k` entries, each after a space. */
  function DictTokens(dict: seq<string>, parseF64: string -> Option<F64Bits>, k: nat): string
    requires k <= |dict|
  {
    if k == 0 then [] else DictTokens(dict, parseF64, k - 1) + " " + DictToken(dict[k - 1], parseF64)
  }

  /** The `@dict` line, left out when there are no entries. */
  function DictLines(dict: seq<string>, parseF64: string -> Option<F64Bits>): seq<string>
  {
    if dict == [] then [] else ["@dict" + DictTokens(dict, parseF64, |dict|)]
  }

  /** An indented field line. */
  function FieldLine(key: string, v: Value, dict: seq<string>, lib: Foreign): string
  {
    "  " + key + " " + FormatValue(v, dict, lib)
  }

  /** One field line for each of the first `k` items of an array field. */
  function ItemLines(key: string, items: seq<Value>, dict: seq<string>, lib: Foreign, k: nat): seq<string>
    requires k <= |items|
  {
    if k == 0 then [] else ItemLines(key, items, dict, lib, k - 1) + [FieldLine(key, items[k - 1], dict, lib)]
  }

  /**
   * The lines of one field of a record: none when the record lacks it; for
   * an array field, a line per item, and none when the record holds
   * something else than an array there; otherwise one line.
   */
  function FieldLines(record: Value, key: string, isArray: bool, dict: seq<string>, lib: Foreign): seq<string>
  {
    match FieldOf(record, key)
    case None => []
    case Some(v) =>
      if !isArray then [FieldLine(key, v, dict, lib)]
      else if v.Arr? then ItemLines(key, v.items, dict, lib, |v.items|)
      else []
  }

  /** The field lines of the first `k` fields. */
  function RecordFields(record: Value, keys: seq<string>, flags: seq<bool>, dict: seq<string>, lib: Foreign, k: nat): seq<string>
    requires k <= |keys| == |flags|
  {
    if k == 0 then []
    else RecordFields(record, keys, flags, dict, lib, k - 1) + FieldLines(record, keys[k - 1], flags[k - 1], dict, lib)
  }

  /** The lines of a record: the schema name, then its fields; nothing for a record that is not an object. */
  function RecordLines(record: Value, keys: seq<string>, flags: seq<bool>, dict: seq<string>, lib: Foreign): seq<string>
    requires |keys| == |flags|
  {
    if record.Obj? then [SCHEMA_NAME] + RecordFields(record, keys, flags, dict, lib, |keys|) else []
  }

  /** The lines of the first `n` records. */
  function BodyLines(records: seq<Value>, keys: seq<string>, flags: seq<bool>, dict: seq<string>, lib: Foreign, n: nat): seq<string>
    requires n <= |records| && |keys| == |flags|
  {
    if n == 0 then []
    else BodyLines(records, keys, flags, dict, lib, n - 1) + RecordLines(records[n - 1], keys, flags, dict, lib)
  }

  /** Every line of the text of a non-empty record list whose first record is an object. */
  function DocumentLines(records: seq<Value>, encoding: Option<string>, lib: Foreign): seq<string>
    requires records != [] && records[0].Obj?
  {
    var keys := FieldKeys(records[0]);
    var flags := ArrayFlags(records, keys);
    var dict := DictEntries(records, keys);
    HeaderLines(encoding) + [SchemaLine(keys, FieldTypes(records[0], keys), flags)]
    + DictLines(dict, lib.parseF64) + [""] + BodyLines(records, keys, flags, dict, lib, |records|)
  }

  /** What `encode_tens_text` returns. */
  function EncodedText(data: Value, encoding: Option<string>, nfkc: string -> string, lib: Foreign): Result<string, string>
  {
    match Records(Canonicalize(data, nfkc))
    case None => Err(ROOT_ERROR)
    case Some(records) =>
      if records == [] then Ok("@version 1\n")
      else if !records[0].Obj? then Err(RECORD_ERROR)
      else Ok(JoinLines(DocumentLines(records, encoding, lib)))
  }

  // ---------------------------------------------------------------------------
  // The encoder

  /** `encode_tens_text`. */
  method EncodeTensText(data: Value, encoding: Option<string>, nfkc: string -> string, lib: Foreign)
    returns (r: Result<string, string>)
    ensures r == EncodedText(data, encoding, nfkc, lib)
  {
    var canonical := Canonicalize(data, nfkc);
    var records: seq<Value>;
    match canonical {
      case Arr(items) => records := items;
      case Obj(_) => records := [canonical];
      case _ => return Err(ROOT_ERROR);
    }
    if records == [] {
      return Ok("@version 1\n");
    }
    var first := records[0];
    if !first.Obj? {
      return Err(RECORD_ERROR);
    }
    var out := EncodeRecords(records, encoding, lib);
    return Ok(out);
  }

  /** The text of a non-empty record list whose first record is an object. */
  method EncodeRecords(records: seq<Value>, encoding: Option<string>, lib: Foreign) returns (out: string)
    requires records != [] && records[0].Obj?
    ensures out == JoinLines(DocumentLines(records, encoding, lib))
  {
    var first := records[0];
    var keys := SortStrings(KeysOf(first.fields));
    var types := FieldTypes(first, keys);
    var flags := ArrayFieldFlags(records, keys);
    var counts := CountStrings(records, keys);
    var frequent := FrequentStrings(counts);
    var dict := SortStrings(frequent);
    DictFromCounts(records, keys, frequent);

    out := WriteHeader(encoding);
    out := WriteSchema(out, keys, types, flags);
    out := WriteDict(out, dict, lib.parseF64);
    out := out + "\n";
    out := WriteRecords(out, records, keys, flags, dict, lib);
    DocumentText(records, encoding, lib);
  }

  /** Writes the `@version` line and, when an encoding is given, the `@encoding` line. */
  method WriteHeader(encoding: Option<string>) returns (out: string)
    ensures out == JoinLines(HeaderLines(encoding))
  {
    out := "@version 1\n";
    if encoding.Some? {
      out := out + ("@encoding " + encoding.value + "\n");
    }
    HeaderText(encoding);
  }

  /** The `is_array_field` loop. */
  method ArrayFieldFlags(records: seq<Value>, keys: seq<string>) returns (flags: seq<bool>)
    ensures flags == ArrayFlags(records, keys)
  {
    flags := seq(|keys|, i => false);
    for j := 0 to |records|
      invariant |flags| == |keys|
      invariant forall i :: 0 <= i < |keys| ==> flags[i] == ArrayAmong(records, j, keys[i])
    {
      ArrayAmongStep(records, j);
      if records[j].Obj? {
        var obj := records[j].fields;
        for i := 0 to |keys|
          invariant |flags| == |keys|
          invariant forall k :: 0 <= k < |keys| ==>
            flags[k] == (ArrayAmong(records, j, keys[k]) || (k < i && HasArrayAt(records[j], keys[k])))
        {
          var field: Option<Value> := Lookup(obj, keys[i]);
          match field {
            case Some(Arr(_)) => flags := flags[i := true];
            case _ =>
          }
        }
      }
    }
  }

  /** How many times the counting loop has met `s`. */
  function Tally(counts: map<string, nat>, s: string): nat
  {
    if s in counts then counts[s] else 0
  }

  /** `m` after counting the strings of `strs` once more each. */
  function Bump(m: map<string, nat>, strs: seq<string>): map<string, nat>
    decreases |strs|
  {
    if strs == [] then m else Bump(m[strs[0] := Tally(m, strs[0]) + 1], strs[1..])
  }

  /** The `string_counts` loop: each string counts the times it occurs as a direct field value. */
  method CountStrings(records: seq<Value>, keys: seq<string>) returns (counts: map<string, nat>)
    ensures forall s :: Tally(counts, s) == multiset(StringValues(records, keys, |records|))[s]
  {
    counts := map[];
    for j := 0 to |records|
      invariant counts == Bump(map[], StringValues(records, keys, j))
    {
      BumpAppend(map[], StringValues(records, keys, j), RecordStrings(records[j], keys, |keys|));
      if records[j].Obj? {
        counts := CountRecord(counts, records[j], keys);
      } else {
        NoStringsOutsideObjects(records[j], keys, |keys|);
      }
    }
    forall s
      ensures Tally(counts, s) == multiset(StringValues(records, keys, |records|))[s]
    {
      BumpCounts(map[], StringValues(records, keys, |records|), s);
    }
  }

  /** Counts the strings one object record holds directly under the field names. */
  method CountRecord(counts0: map<string, nat>, record: Value, keys: seq<string>) returns (counts: map<string, nat>)
    ensures counts == Bump(counts0, RecordStrings(record, keys, |keys|))
  {
    counts := counts0;
    for i := 0 to |keys|
      invariant counts == Bump(counts0, RecordStrings(record, keys, i))
    {
      CountStep(counts0, counts, record, keys, i);
      var field := FieldOf(record, keys[i]);
      if field.Some? && field.value.Str? {
        counts := counts[field.value.s := Tally(counts, field.value.s) + 1];
      }
    }
  }

  /** One more field name looked at by the loop of `CountRecord`. */
  lemma CountStep(counts0: map<string, nat>, counts: map<string, nat>, record: Value, keys: seq<string>, i: nat)
    requires i < |keys| && counts == Bump(counts0, RecordStrings(record, keys, i))
    ensures var field := FieldOf(record, keys[i]);
      Bump(counts0, RecordStrings(record, keys, i + 1))
      == if field.Some? && field.value.Str? then counts[field.value.s := Tally(counts, field.value.s) + 1] else counts
  {
    var found := StringAt(record, keys[i]);
    assert RecordStrings(record, keys, i + 1) == RecordStrings(record, keys, i) + found;
    BumpAppend(counts0, RecordStrings(record, keys, i), found);
    var field := FieldOf(record, keys[i]);
    if field.Some? && field.value.Str? {
      assert found == [field.value.s];
      assert found[1..] == [];
    } else {
      assert found == [];
    }
  }

  /** Counting `a` and then `b` is counting `a + b`. */
  lemma {:induction false} BumpAppend(m: map<string, nat>, a: seq<string>, b: seq<string>)
    decreases |a|
    ensures Bump(m, a + b) == Bump(Bump(m, a), b)
  {
    if a != [] {
      BumpAppend(m[a[0] := Tally(m, a[0]) + 1], a[1..], b);
      assert (a + b)[0] == a[0];
      assert (a + b)[1..] == a[1..] + b;
    } else {
      assert a + b == b;
    }
  }

  /** Counting a few strings adds their occurrences to the count of `s`. */
  lemma {:induction false} BumpCounts(m: map<string, nat>, strs: seq<string>, s: string)
    decreases |strs|
    ensures Tally(Bump(m, strs), s) == Tally(m, s) + multiset(strs)[s]
  {
    if strs != [] {
      BumpCounts(m[strs[0] := Tally(m, strs[0]) + 1], strs[1..], s);
      assert strs == [strs[0]] + strs[1..];
    }
  }

  /**
   * The strings counted at least twice. The source walks a `HashMap`,
   * whose order is unspecified: the next key is any key not yet visited.
   */
  method FrequentStrings(counts: map<string, nat>) returns (frequent: seq<string>)
    ensures Distinct(frequent)
    ensures forall s :: s in frequent <==> Tally(counts, s) >= 2
  {
    frequent := [];
    var pending := counts.Keys;
    while pending != {}
      invariant pending <= counts.Keys
      invariant Distinct(frequent)
      invariant forall s :: s in frequent <==> s in counts && s !in pending && counts[s] >= 2
      decreases |pending|
    {
      var s :| s in pending;
      if counts[s] >= 2 {
        frequent := frequent + [s];
      }
      pending := pending - {s};
    }
  }

  /** Writes the schema line. */
  method WriteSchema(out0: string, keys: seq<string>, types: seq<string>, flags: seq<bool>) returns (out: string)
    requires |keys| == |types| == |flags|
    ensures out == out0 + SchemaLine(keys, types, flags) + "\n"
  {
    out := out0 + ("@schema " + SCHEMA_NAME);
    for i := 0 to |keys|
      invariant out == out0 + ("@schema " + SCHEMA_NAME + SchemaFields(keys, types, flags, i))
    {
      var suffix := if flags[i] then "[]" else "";
      out := out + (" " + keys[i] + ":" + types[i] + suffix);
    }
    out := out + "\n";
  }

  /** Writes the `@dict` line, if there are entries. */
  method WriteDict(out0: string, dict: seq<string>, parseF64: string -> Option<F64Bits>) returns (out: string)
    ensures out == out0 + JoinLines(DictLines(dict, parseF64))
  {
    out := out0;
    if dict != [] {
      out := WriteDictTokens(out0 + "@dict", dict, parseF64);
      DictLineText(out0, "@dict" + DictTokens(dict, parseF64, |dict|));
      out := out + "\n";
    }
  }

  /** Writes each `@dict` entry after a space. */
  method WriteDictTokens(start: string, dict: seq<string>, parseF64: string -> Option<F64Bits>) returns (out: string)
    ensures out == start + DictTokens(dict, parseF64, |dict|)
  {
    out := start;
    for k := 0 to |dict|
      invariant out == start + DictTokens(dict, parseF64, k)
    {
      var token := WriteDictToken(dict[k], parseF64);
      TokensStep(start, dict, parseF64, k);
      out := out + (" " + token);
    }
  }

  /** One `@dict` entry, quoted by `quote_string` when it needs quoting. */
  method WriteDictToken(entry: string, parseF64: string -> Option<F64Bits>) returns (token: string)
    ensures token == DictToken(entry, parseF64)
  {
    if NeedsQuoting(entry, parseF64) {
      token := QuoteString(entry);
    } else {
      token := entry;
    }
  }

  /** Writes every object record. */
  method WriteRecords(out0: string, records: seq<Value>, keys: seq<string>, flags: seq<bool>, dict: seq<string>, lib: Foreign)
    returns (out: string)
    requires |keys| == |flags|
    ensures out == out0 + JoinLines(BodyLines(records, keys, flags, dict, lib, |records|))
  {
    out := out0;
    for j := 0 to |records|
      invariant out == out0 + JoinLines(BodyLines(records, keys, flags, dict, lib, j))
    {
      out := WriteNextRecord(out0, out, records, keys, flags, dict, lib, j);
    }
  }

  /** One turn of the record loop: an object record is written, any other record skipped. */
  method WriteNextRecord(out0: string, out1: string, records: seq<Value>, keys: seq<string>, flags: seq<bool>, dict: seq<string>, lib: Foreign, j: nat)
    returns (out: string)
    requires j < |records| && |keys| == |flags|
    requires out1 == out0 + JoinLines(BodyLines(records, keys, flags, dict, lib, j))
    ensures out == out0 + JoinLines(BodyLines(records, keys, flags, dict, lib, j + 1))
  {
    var lines := RecordLines(records[j], keys, flags, dict, lib);
    assert BodyLines(records, keys, flags, dict, lib, j + 1) == BodyLines(records, keys, flags, dict, lib, j) + lines;
    JoinStep(out0, BodyLines(records, keys, flags, dict, lib, j), lines);
    if records[j].Obj? {
      out := WriteRecord(out1, records[j], keys, flags, dict, lib);
    } else {
      assert lines == [];
      assert out1 + JoinLines(lines) == out1;
      out := out1;
    }
  }

  /** Writes one object record: the schema name, then its fields. */
  method WriteRecord(out0: string, record: Value, keys: seq<string>, flags: seq<bool>, dict: seq<string>, lib: Foreign)
    returns (out: string)
    requires record.Obj? && |keys| == |flags|
    ensures out == out0 + JoinLines(RecordLines(record, keys, flags, dict, lib))
  {
    var start := out0 + (SCHEMA_NAME + "\n");
    out := start;
    for i := 0 to |keys|
      invariant out == start + JoinLines(RecordFields(record, keys, flags, dict, lib, i))
    {
      JoinStep(start, RecordFields(record, keys, flags, dict, lib, i), FieldLines(record, keys[i], flags[i], dict, lib));
      out := WriteField(out, record, keys[i], flags[i], dict, lib);
    }
    RecordText(out0, SCHEMA_NAME, RecordFields(record, keys, flags, dict, lib, |keys|));
  }

  /** Writes the lines of one field of an object record. */
  method WriteField(out0: string, record: Value, key: string, isArray: bool, dict: seq<string>, lib: Foreign)
    returns (out: string)
    requires record.Obj?
    ensures out == out0 + JoinLines(FieldLines(record, key, isArray, dict, lib))
  {
    out := out0;
    var field: Option<Value> := Lookup(record.fields, key);
    match field {
      case None =>
      case Some(v) =>
        if isArray {
          if v.Arr? {
            out := WriteItems(out, key, v.items, dict, lib);
          }
        } else {
          JoinStep(out, [], [FieldLine(key, v, dict, lib)]);
          out := out + ("  " + key + " " + FormatValue(v, dict, lib) + "\n");
        }
    }
  }

  /** Writes a line per item of an array field. */
  method WriteItems(out0: string, key: string, items: seq<Value>, dict: seq<string>, lib: Foreign) returns (out: string)
    ensures out == out0 + JoinLines(ItemLines(key, items, dict, lib, |items|))
  {
    out := out0;
    for k := 0 to |items|
      invariant out == out0 + JoinLines(ItemLines(key, items, dict, lib, k))
    {
      var line := FieldLine(key, items[k], dict, lib);
      JoinStep(out0, ItemLines(key, items, dict, lib, k), [line]);
      JoinStep(out, [], [line]);
      out := out + ("  " + key + " " + FormatValue(items[k], dict, lib) + "\n");
    }
  }

  // ---------------------------------------------------------------------------
  // Steps of the loops

  /** Writing the lines `a` and then the lines `b` is writing `a + b`. */
  lemma JoinStep(out0: string, a: seq<string>, b: seq<string>)
    ensures out0 + JoinLines(a + b) == (out0 + JoinLines(a)) + JoinLines(b)
    ensures JoinLines([] + b) == JoinLines(b)
    ensures |b| == 1 ==> JoinLines(b) == b[0] + "\n"
  {
    JoinLinesAppend(a, b);
    assert [] + b == b;
    if |b| == 1 {
      assert b[1..] == [];
    }
  }

  lemma TokensStep(start: string, dict: seq<string>, parseF64: string -> Option<F64Bits>, k: nat)
    requires k < |dict|
    ensures start + DictTokens(dict, parseF64, k + 1)
         == (start + DictTokens(dict, parseF64, k)) + (" " + DictToken(dict[k], parseF64))
  {
  }

  lemma HeaderText(encoding: Option<string>)
    ensures JoinLines(HeaderLines(encoding))
         == "@version 1\n" + match encoding case Some(e) => "@encoding " + e + "\n" case None => ""
  {
    var h := HeaderLines(encoding);
    JoinStep("", [], ["@version 1"]);
    if encoding.Some? {
      JoinStep("", ["@version 1"], ["@encoding " + encoding.value]);
      JoinStep("", [], ["@encoding " + encoding.value]);
    } else {
      assert h == ["@version 1"];
    }
  }

  /** A single line is written followed by a newline. */
  lemma DictLineText(out0: string, line: string)
    ensures out0 + JoinLines([line]) == out0 + line + "\n"
  {
    JoinStep(out0, [], [line]);
  }

  /** A record's lines: its first line, then the rest. */
  lemma RecordText(out0: string, first: string, rest: seq<string>)
    ensures out0 + JoinLines([first] + rest) == out0 + (first + "\n") + JoinLines(rest)
  {
    JoinStep(out0, [first], rest);
    JoinStep(out0, [], [first]);
  }

  /** One more record holds an array under `key` exactly when the earlier ones or the new one do. */
  lemma ArrayAmongStep(records: seq<Value>, j: nat)
    requires j < |records|
    ensures forall key :: ArrayAmong(records, j + 1, key) <==> ArrayAmong(records, j, key) || HasArrayAt(records[j], key)
  {
  }

  /** A record that is not an object holds no strings. */
  lemma {:induction false} NoStringsOutsideObjects(record: Value, keys: seq<string>, k: nat)
    requires !record.Obj? && k <= |keys|
    ensures RecordStrings(record, keys, k) == []
  {
    if k > 0 {
      NoStringsOutsideObjects(record, keys, k - 1);
    }
  }

  /** The frequent strings the loop collects, sorted, are the `@dict` entries. */
  lemma DictFromCounts(records: seq<Value>, keys: seq<string>, frequent: seq<string>)
    requires Distinct(frequent)
    requires forall s :: s in frequent <==> multiset(StringValues(records, keys, |records|))[s] >= 2
    ensures SortStrings(frequent) == DictEntries(records, keys)
  {
    var all := StringValues(records, keys, |records|);
    var once := AddAll([], all);
    AddAllDistinct([], all);
    AddAllMembers([], all);
    FrequentMembers(once, all);
    FrequentDistinct(once, all);
    SameElementsSameSort(frequent, Frequent(once, all));
  }

  /** The text is the header, schema and dictionary lines, a blank line, then the records. */
  lemma DocumentText(records: seq<Value>, encoding: Option<string>, lib: Foreign)
    requires records != [] && records[0].Obj?
    ensures
      var keys := FieldKeys(records[0]);
      var flags := ArrayFlags(records, keys);
      var dict := DictEntries(records, keys);
      JoinLines(DocumentLines(records, encoding, lib))
      == JoinLines(HeaderLines(encoding)) + SchemaLine(keys, FieldTypes(records[0], keys), flags) + "\n"
         + JoinLines(DictLines(dict, lib.parseF64)) + "\n" + JoinLines(BodyLines(records, keys, flags, dict, lib, |records|))
  {
    var keys := FieldKeys(records[0]);
    var flags := ArrayFlags(records, keys);
    var dict := DictEntries(records, keys);
    JoinSections(HeaderLines(encoding), SchemaLine(keys, FieldTypes(records[0], keys), flags),
                 DictLines(dict, lib.parseF64), BodyLines(records, keys, flags, dict, lib, |records|));
  }

  lemma JoinSections(h: seq<string>, s: string, d: seq<string>, b: seq<string>)
    ensures JoinLines(h + [s] + d + [""] + b)
         == JoinLines(h) + s + "\n" + JoinLines(d) + "\n" + JoinLines(b)
  {
    JoinLinesAppend(h + [s] + d + [""], b);
    JoinLinesAppend(h + [s] + d, [""]);
    JoinLinesAppend(h + [s], d);
    JoinLinesAppend(h, [s]);
    JoinStep("", [], [s]);
    JoinStep("", [], [""]);
  }

  // ---------------------------------------------------------------------------
  // Filtering and sorting the dictionary

  lemma {:induction false} FrequentMembers(xs: seq<string>, all: seq<string>)
    ensures forall x :: x in Frequent(xs, all) <==> x in xs && multiset(all)[x] >= 2
  {
    if xs != [] {
      var p := xs[..|xs| - 1];
      FrequentMembers(p, all);
      assert xs == p + [xs[|xs| - 1]];
    }
  }

  lemma {:induction false} FrequentDistinct(xs: seq<string>, all: seq<string>)
    requires Distinct(xs)
    ensures Distinct(Frequent(xs, all))
  {
    if xs != [] {
      var p := xs[..|xs| - 1];
      FrequentDistinct(p, all);
      FrequentMembers(p, all);
      assert xs[|xs| - 1] !in p;
    }
  }

  /** A sequence without repetitions holds each of its elements once. */
  lemma {:induction false} DistinctCount(a: seq<string>, x: string)
    requires Distinct(a)
    ensures multiset(a)[x] == if x in a then 1 else 0
  {
    if a != [] {
      DistinctCount(a[1..], x);
      assert a == [a[0]] + a[1..];
      assert a[0] !in a[1..];
    }
  }

  /** Two sequences without repetitions and with the same elements sort to the same sequence. */
  lemma SameElementsSameSort(a: seq<string>, b: seq<string>)
    requires Distinct(a) && Distinct(b)
    requires forall x :: x in a <==> x in b
    ensures SortStrings(a) == SortStrings(b)
  {
    forall x
      ensures multiset(a)[x] == multiset(b)[x]
    {
      DistinctCount(a, x);
      DistinctCount(b, x);
    }
    assert multiset(a) == multiset(b);
    SortByOrdered(a, Identity);
    SortByOrdered(b, Identity);
    SortedUnique(SortStrings(a), SortStrings(b));
  }
}
