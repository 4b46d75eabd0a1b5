/**
 * What `encode_tens_text` promises, and the quirks of how it picks its
 * records, fields and dictionary, stated over the description of the text
 * in `TextEncoder`.
 */
module TextEncoderProperties {
  import opened Base
  import opened Values
  import opened Canonical
  import opened StringTables
  import opened Sorting
  import opened TextValues
  import opened TextLines
  import opened TextEncoder

  // ---------------------------------------------------------------------------
  // The outcome

  /**
   * Only an array or an object is accepted; an empty array gives the bare
   * version line; an array whose first item is not an object is refused;
   * every other input gives a text that opens with the version line.
   */
  lemma EncodedTextOutcome(data: Value, encoding: Option<string>, nfkc: string -> string, lib: Foreign)
    ensures var r := EncodedText(data, encoding, nfkc, lib);
      && (!data.Arr? && !data.Obj? ==> r == Err(ROOT_ERROR))
      && (data == Arr([]) ==> r == Ok("@version 1\n"))
      && (data.Arr? && data.items != [] && !data.items[0].Obj? ==> r == Err(RECORD_ERROR))
      && (r.Ok? <==> data.Obj? || (data.Arr? && (data.items == [] || data.items[0].Obj?)))
      && (r.Ok? ==> |r.value| >= 11 && r.value[..11] == "@version 1\n")
  {
    var c := Canonicalize(data, nfkc);
    if data.Arr? && data.items != [] {
      assert c.items[0] == Canonicalize(data.items[0], nfkc);
    }
    if c.Obj? || (c.Arr? && c.items != [] && c.items[0].Obj?) {
      var records := if c.Obj? then [c] else c.items;
      DocumentOpensWithVersion(records, encoding, lib);
    }
  }

  /** A document's text opens with the version line. */
  lemma DocumentOpensWithVersion(records: seq<Value>, encoding: Option<string>, lib: Foreign)
    requires records != [] && records[0].Obj?
    ensures var text := JoinLines(DocumentLines(records, encoding, lib));
      |text| >= 11 && text[..11] == "@version 1\n"
  {
    var lines := DocumentLines(records, encoding, lib);
    assert lines[0] == "@version 1";
    var version := "@version 1";
    FirstLineOpens(lines, version);
  }

  /** Lines joined with newlines open with the first line and its newline. */
  lemma FirstLineOpens(lines: seq<string>, first: string)
    requires lines != [] && lines[0] == first
    ensures |JoinLines(lines)| >= |first| + 1 && JoinLines(lines)[..|first| + 1] == first + "\n"
  {
    assert JoinLines(lines) == first + "\n" + JoinLines(lines[1..]);
  }

  // ---------------------------------------------------------------------------
  // The dictionary

  /**
   * The `@dict` entries are strictly ascending, and a string is one of them
   * exactly when it occurs at least twice as a direct field value.
   */
  lemma DictEntriesExact(records: seq<Value>, keys: seq<string>)
    ensures StrictlySorted(DictEntries(records, keys))
    ensures forall s :: s in DictEntries(records, keys) <==> multiset(StringValues(records, keys, |records|))[s] >= 2
  {
    var all := StringValues(records, keys, |records|);
    var once := AddAll([], all);
    var frequent := Frequent(once, all);
    var d := DictEntries(records, keys);
    AddAllDistinct([], all);
    AddAllMembers([], all);
    FrequentMembers(once, all);
    FrequentDistinct(once, all);
    SortByOrdered(frequent, Identity);
    forall s
      ensures s in d <==> multiset(all)[s] >= 2
    {
      assert s in d <==> s in multiset(d);
      assert s in frequent <==> s in multiset(frequent);
    }
    forall i, j | 0 <= i < j < |d|
      ensures Less(d[i], d[j])
    {
      assert !Less(Identity(d[j]), Identity(d[i]));
      if d[i] == d[j] {
        TwiceCounted(d, i, j);
        DistinctCount(frequent, d[i]);
        assert false;
      }
      LessTotal(d[i], d[j]);
    }
  }

  /** Two positions holding the same element count it twice. */
  lemma TwiceCounted(d: seq<string>, i: nat, j: nat)
    requires i < j < |d| && d[i] == d[j]
    ensures multiset(d)[d[i]] >= 2
  {
    assert d == d[..j] + [d[j]] + d[j + 1..];
    assert d[..j][i] == d[i];
    assert d[i] in multiset(d[..j]);
  }

  /** A string is one of the counted values exactly when some record holds it directly under a field name. */
  lemma StringValuesDirect(records: seq<Value>, keys: seq<string>, s: string)
    ensures s in StringValues(records, keys, |records|)
        <==> exists j, k :: 0 <= j < |records| && 0 <= k < |keys| && FieldOf(records[j], keys[k]) == Some(Str(s))
  {
    if exists j, k :: 0 <= j < |records| && 0 <= k < |keys| && FieldOf(records[j], keys[k]) == Some(Str(s)) {
      var j, k :| 0 <= j < |records| && 0 <= k < |keys| && FieldOf(records[j], keys[k]) == Some(Str(s));
      RecordStringsHas(records[j], keys, |keys|, k, s);
      StringValuesHas(records, keys, |records|, j, s);
    }
    if s in StringValues(records, keys, |records|) {
      var j, k := StringValuesFrom(records, keys, |records|, s);
    }
  }

  /** A string one of the first `n` records holds directly under a field name is counted. */
  lemma StringValuesHas(records: seq<Value>, keys: seq<string>, n: nat, j: nat, s: string)
    requires j < n <= |records| && s in RecordStrings(records[j], keys, |keys|)
    ensures s in StringValues(records, keys, n)
  {
    StringValuesAt(records, keys, j, s);
    StringValuesGrow(records, keys, j + 1, n, s);
  }

  /** A string record `j` holds directly under a field name is counted among the first `j + 1` records. */
  lemma StringValuesAt(records: seq<Value>, keys: seq<string>, j: nat, s: string)
    requires j < |records| && s in RecordStrings(records[j], keys, |keys|)
    ensures s in StringValues(records, keys, j + 1)
  {
    InRight(StringValues(records, keys, j), RecordStrings(records[j], keys, |keys|), s);
  }

  /** A string counted among the first `m` records is counted among the first `n >= m`. */
  lemma {:induction false} StringValuesGrow(records: seq<Value>, keys: seq<string>, m: nat, n: nat, s: string)
    requires m <= n <= |records| && s in StringValues(records, keys, m)
    ensures s in StringValues(records, keys, n)
    decreases n
  {
    if m < n {
      StringValuesGrow(records, keys, m, n - 1, s);
      var before, last := StringValuesLast(records, keys, n);
      InLeft(before, last, s);
    }
  }

  /** The strings of the first `n` records are those of the first `n - 1`, then the last one's. */
  lemma StringValuesLast(records: seq<Value>, keys: seq<string>, n: nat) returns (before: seq<string>, last: seq<string>)
    requires 1 <= n <= |records|
    ensures before == StringValues(records, keys, n - 1)
    ensures last == RecordStrings(records[n - 1], keys, |keys|)
    ensures StringValues(records, keys, n) == before + last
  {
    before := StringValues(records, keys, n - 1);
    last := RecordStrings(records[n - 1], keys, |keys|);
  }

  /** A counted string is held directly under a field name by one of the first `n` records. */
  lemma {:induction false} StringValuesFrom(records: seq<Value>, keys: seq<string>, n: nat, s: string)
    returns (j: nat, k: nat)
    requires n <= |records| && s in StringValues(records, keys, n)
    ensures j < n && k < |keys| && FieldOf(records[j], keys[k]) == Some(Str(s))
    decreases n
  {
    var before, last := StringValuesLast(records, keys, n);
    InEither(before, last, s);
    if s in last {
      j := n - 1;
      k := RecordStringsFrom(records[n - 1], keys, |keys|, s);
    } else {
      j, k := StringValuesFrom(records, keys, n - 1, s);
    }
  }

  lemma InLeft(a: seq<string>, b: seq<string>, s: string)
    requires s in a
    ensures s in a + b
  {
  }

  lemma InRight(a: seq<string>, b: seq<string>, s: string)
    requires s in b
    ensures s in a + b
  {
  }

  lemma InEither(a: seq<string>, b: seq<string>, s: string)
    ensures s in a + b <==> s in a || s in b
  {
  }

  lemma {:induction false} RecordStringsHas(record: Value, keys: seq<string>, k: nat, i: nat, s: string)
    requires i < k <= |keys| && FieldOf(record, keys[i]) == Some(Str(s))
    ensures s in RecordStrings(record, keys, k)
  {
    assert RecordStrings(record, keys, k) == RecordStrings(record, keys, k - 1) + StringAt(record, keys[k - 1]);
    if i == k - 1 {
      assert StringAt(record, keys[i]) == [s];
    } else {
      RecordStringsHas(record, keys, k - 1, i, s);
    }
  }

  lemma {:induction false} RecordStringsFrom(record: Value, keys: seq<string>, k: nat, s: string) returns (i: nat)
    requires k <= |keys| && s in RecordStrings(record, keys, k)
    ensures i < k && FieldOf(record, keys[i]) == Some(Str(s))
  {
    var found := StringAt(record, keys[k - 1]);
    assert RecordStrings(record, keys, k) == RecordStrings(record, keys, k - 1) + found;
    if s in found {
      i := k - 1;
    } else {
      i := RecordStringsFrom(record, keys, k - 1, s);
    }
  }

  // ---------------------------------------------------------------------------
  // The fields

  /** The field names of a well-formed first record are its keys in the order the object keeps them. */
  lemma FieldKeysOfObject(first: Value)
    requires first.Obj? && WellFormed(first)
    ensures FieldKeys(first) == KeysOf(first.fields)
  {
    var ks := KeysOf(first.fields);
    forall i, j | 0 <= i < j < |ks|
      ensures !Less(Identity(ks[j]), Identity(ks[i]))
    {
      LessAsymmetric(ks[i], ks[j]);
    }
    SortSorted(ks, Identity);
  }

  /**
   * A record is written from its values under the field names alone: two
   * object records that agree there give the same lines, whatever other
   * keys either holds.
   */
  lemma RecordLinesOnlyKeys(r1: Value, r2: Value, keys: seq<string>, flags: seq<bool>, dict: seq<string>, lib: Foreign)
    requires |keys| == |flags| && r1.Obj? && r2.Obj?
    requires forall k :: 0 <= k < |keys| ==> FieldOf(r1, keys[k]) == FieldOf(r2, keys[k])
    ensures RecordLines(r1, keys, flags, dict, lib) == RecordLines(r2, keys, flags, dict, lib)
  {
    RecordFieldsOnlyKeys(r1, r2, keys, flags, dict, lib, |keys|);
  }

  lemma {:induction false} RecordFieldsOnlyKeys(r1: Value, r2: Value, keys: seq<string>, flags: seq<bool>, dict: seq<string>, lib: Foreign, k: nat)
    requires k <= |keys| == |flags|
    requires forall i :: 0 <= i < |keys| ==> FieldOf(r1, keys[i]) == FieldOf(r2, keys[i])
    ensures RecordFields(r1, keys, flags, dict, lib, k) == RecordFields(r2, keys, flags, dict, lib, k)
  {
    if k > 0 {
      RecordFieldsOnlyKeys(r1, r2, keys, flags, dict, lib, k - 1);
      assert FieldOf(r1, keys[k - 1]) == FieldOf(r2, keys[k - 1]);
    }
  }

  // ---------------------------------------------------------------------------
  // Records that are not objects

  /** A record that is not an object, after the first record, leaves the text as it was. */
  lemma TrailingNonObjectSkipped(records: seq<Value>, x: Value, encoding: Option<string>, lib: Foreign)
    requires records != [] && records[0].Obj? && !x.Obj?
    ensures DocumentLines(records + [x], encoding, lib) == DocumentLines(records, encoding, lib)
  {
    var more := records + [x];
    var n := |records|;
    assert more[0] == records[0];
    var keys := FieldKeys(records[0]);
    forall i | 0 <= i < |keys|
      ensures ArrayAmong(more, n + 1, keys[i]) == ArrayAmong(records, n, keys[i])
    {
      if ArrayAmong(more, n + 1, keys[i]) {
        var j :| 0 <= j < n + 1 && HasArrayAt(more[j], keys[i]);
        assert j < n && more[j] == records[j];
      }
      if ArrayAmong(records, n, keys[i]) {
        var j :| 0 <= j < n && HasArrayAt(records[j], keys[i]);
        assert more[j] == records[j];
      }
    }
    var flags := ArrayFlags(records, keys);
    assert ArrayFlags(more, keys) == flags;
    NoStringsOutsideObjects(x, keys, |keys|);
    StringValuesPrefix(records, [x], keys, n);
    assert StringValues(more, keys, n + 1) == StringValues(records, keys, n);
    var dict := DictEntries(records, keys);
    assert DictEntries(more, keys) == dict;
    BodyLinesPrefix(records, [x], keys, flags, dict, lib, n);
    assert BodyLines(more, keys, flags, dict, lib, n + 1) == BodyLines(records, keys, flags, dict, lib, n);
  }

  lemma {:induction false} StringValuesPrefix(records: seq<Value>, ext: seq<Value>, keys: seq<string>, n: nat)
    requires n <= |records|
    ensures StringValues(records + ext, keys, n) == StringValues(records, keys, n)
  {
    if n > 0 {
      StringValuesPrefix(records, ext, keys, n - 1);
      assert (records + ext)[n - 1] == records[n - 1];
    }
  }

  lemma {:induction false} BodyLinesPrefix(records: seq<Value>, ext: seq<Value>, keys: seq<string>, flags: seq<bool>, dict: seq<string>, lib: Foreign, n: nat)
    requires n <= |records| && |keys| == |flags|
    ensures BodyLines(records + ext, keys, flags, dict, lib, n) == BodyLines(records, keys, flags, dict, lib, n)
  {
    if n > 0 {
      BodyLinesPrefix(records, ext, keys, flags, dict, lib, n - 1);
      assert (records + ext)[n - 1] == records[n - 1];
    }
  }
}
