/**
 * The JSON-like value the codec works on (serde_json's `Value`), the
 * code-point order on strings that Rust's `String` comparison gives, and
 * objects as sorted association lists.
 *
 * serde_json's `Map` is a `BTreeMap` in its default configuration: its
 * keys are unique and iterate in ascending order, and `insert` replaces
 * the value of a key that is already present. `Obj` holds its fields as a
 * sequence; `WellFormed` states the `BTreeMap` invariant, and `Insert` is
 * `Map::insert`.
 */
module Values {
  import opened Base
  import opened Float64

  /** The integers a serde_json `Number` can hold: every `i64` and every `u64`. */
  type JsonInt = i: int | -0x8000_0000_0000_0000 <= i < 0x1_0000_0000_0000_0000

  datatype Value =
    | Null
    | Bool(b: bool)
    | Int(i: JsonInt)
    | Float(bits: F64Bits)
    | Str(s: string)
    | Arr(items: seq<Value>)
    | Obj(fields: seq<(string, Value)>)

  // ---------------------------------------------------------------------------
  // String order

  /** `a < b` for Rust strings: lexicographic by code point (UTF-8 byte order agrees). */
  predicate Less(a: string, b: string)
  {
    if b == [] then false
    else if a == [] then true
    else if a[0] != b[0] then a[0] < b[0]
    else Less(a[1..], b[1..])
  }

  lemma LessIrreflexive(a: string)
    ensures !Less(a, a)
  {
    if a != [] {
      LessIrreflexive(a[1..]);
    }
  }

  lemma {:induction false} LessTransitive(a: string, b: string, c: string)
    requires Less(a, b) && Less(b, c)
    ensures Less(a, c)
  {
    if a != [] && a[0] == b[0] && b[0] == c[0] {
      LessTransitive(a[1..], b[1..], c[1..]);
    }
  }

  lemma {:induction false} LessTotal(a: string, b: string)
    ensures a == b || Less(a, b) || Less(b, a)
  {
    if a != [] && b != [] && a[0] == b[0] {
      LessTotal(a[1..], b[1..]);
      if a[1..] == b[1..] {
        assert a == [a[0]] + a[1..] && b == [b[0]] + b[1..];
      }
    }
  }

  lemma LessAsymmetric(a: string, b: string)
    ensures !(Less(a, b) && Less(b, a))
  {
    if Less(a, b) && Less(b, a) {
      LessTransitive(a, b, a);
      LessIrreflexive(a);
    }
  }

  /** A strictly ascending sequence of strings: sorted, with no repetition. */
  predicate StrictlySorted(keys: seq<string>)
  {
    forall i, j :: 0 <= i < j < |keys| ==> Less(keys[i], keys[j])
  }

  /** Strict sortedness follows from the order of neighbours. */
  lemma {:induction false} StrictlySortedFromNeighbours(keys: seq<string>)
    requires forall i :: 0 < i < |keys| ==> Less(keys[i - 1], keys[i])
    ensures StrictlySorted(keys)
  {
    if |keys| > 1 {
      StrictlySortedFromNeighbours(keys[1..]);
      forall j | 1 < j < |keys|
        ensures Less(keys[0], keys[j])
      {
        assert Less(keys[1..][0], keys[1..][j - 1]);
        LessTransitive(keys[0], keys[1], keys[j]);
      }
    }
  }

  // ---------------------------------------------------------------------------
  // Objects as association lists

  function KeysOf<V>(fields: seq<(string, V)>): (ks: seq<string>)
    ensures |ks| == |fields|
    ensures forall i :: 0 <= i < |fields| ==> ks[i] == fields[i].0
  {
    if fields == [] then [] else [fields[0].0] + KeysOf(fields[1..])
  }

  /** `Map::get`: the value stored under `k`, the first one if `k` occurs twice. */
  function Lookup<V>(fields: seq<(string, V)>, k: string): Option<V>
  {
    if fields == [] then None
    else if fields[0].0 == k then Some(fields[0].1)
    else Lookup(fields[1..], k)
  }

  /** A key has a value exactly when it is one of the keys. */
  lemma {:induction false} LookupFound<V>(fields: seq<(string, V)>, k: string)
    ensures Lookup(fields, k).None? <==> k !in KeysOf(fields)
  {
    if fields != [] && fields[0].0 != k {
      LookupFound(fields[1..], k);
      assert KeysOf(fields) == [fields[0].0] + KeysOf(fields[1..]);
    }
  }

  /** `Map::insert` on a `BTreeMap`: replace the value of `k`, or add `k` at its place in key order. */
  function Insert<V>(fields: seq<(string, V)>, k: string, v: V): (r: seq<(string, V)>)
  {
    if fields == [] then [(k, v)]
    else if fields[0].0 == k then [(k, v)] + fields[1..]
    else if Less(k, fields[0].0) then [(k, v)] + fields
    else [fields[0]] + Insert(fields[1..], k, v)
  }

  /** Inserting the pairs one after another, as a loop of `map.insert(k, v)` does. */
  function InsertAll<V>(acc: seq<(string, V)>, pairs: seq<(string, V)>): seq<(string, V)>
    decreases |pairs|
  {
    if pairs == [] then acc else InsertAll(Insert(acc, pairs[0].0, pairs[0].1), pairs[1..])
  }

  /** `Insert` adds exactly the key `k`. */
  lemma {:induction false} InsertKeys<V>(fields: seq<(string, V)>, k: string, v: V)
    ensures forall x :: x in KeysOf(Insert(fields, k, v)) <==> x == k || x in KeysOf(fields)
  {
    if fields != [] && fields[0].0 != k && !Less(k, fields[0].0) {
      InsertKeys(fields[1..], k, v);
      assert KeysOf(Insert(fields, k, v)) == [fields[0].0] + KeysOf(Insert(fields[1..], k, v));
      assert KeysOf(fields) == [fields[0].0] + KeysOf(fields[1..]);
    } else if fields != [] && fields[0].0 == k {
      assert KeysOf(fields) == [k] + KeysOf(fields[1..]);
      assert KeysOf(Insert(fields, k, v)) == [k] + KeysOf(fields[1..]);
    } else if fields != [] {
      assert KeysOf(Insert(fields, k, v)) == [k] + KeysOf(fields);
    }
  }

  /** `Insert` maps `k` to `v` and leaves the other keys' values alone. */
  lemma {:induction false} InsertLookup<V>(fields: seq<(string, V)>, k: string, v: V, k': string)
    ensures Lookup(Insert(fields, k, v), k') == if k' == k then Some(v) else Lookup(fields, k')
  {
    if fields != [] && fields[0].0 != k && !Less(k, fields[0].0) {
      InsertLookup(fields[1..], k, v, k');
    }
  }

  /** `Insert` keeps the keys strictly sorted. */
  lemma {:induction false} InsertSorted<V>(fields: seq<(string, V)>, k: string, v: V)
    requires StrictlySorted(KeysOf(fields))
    ensures StrictlySorted(KeysOf(Insert(fields, k, v)))
  {
    var r := Insert(fields, k, v);
    if fields == [] {
    } else if fields[0].0 == k {
      assert KeysOf(r) == KeysOf(fields);
    } else if Less(k, fields[0].0) {
      var ks := KeysOf(r);
      assert ks == [k] + KeysOf(fields);
      forall i | 0 < i < |ks|
        ensures Less(ks[i - 1], ks[i])
      {
        if i > 1 {
          assert Less(KeysOf(fields)[i - 2], KeysOf(fields)[i - 1]);
        }
      }
      StrictlySortedFromNeighbours(ks);
    } else {
      var tail := fields[1..];
      assert KeysOf(tail) == KeysOf(fields)[1..];
      InsertSorted(tail, k, v);
      var rt := Insert(tail, k, v);
      var ks := KeysOf(r);
      assert ks == [fields[0].0] + KeysOf(rt);
      LessTotal(k, fields[0].0);
      HeadBelowInsert(fields, k, v);
      forall i | 0 < i < |ks|
        ensures Less(ks[i - 1], ks[i])
      {
        if i > 1 {
          assert Less(KeysOf(rt)[i - 2], KeysOf(rt)[i - 1]);
        }
      }
      StrictlySortedFromNeighbours(ks);
    }
  }

  lemma HeadBelowInsert<V>(fields: seq<(string, V)>, k: string, v: V)
    requires StrictlySorted(KeysOf(fields))
    requires fields != [] && Less(fields[0].0, k)
    ensures Insert(fields[1..], k, v) != [] ==> Less(fields[0].0, Insert(fields[1..], k, v)[0].0)
  {
    var tail := fields[1..];
    if tail != [] {
      assert Less(KeysOf(fields)[0], KeysOf(fields)[1]);
    }
  }

  /** Every field of `Insert(fields, k, v)` is `(k, v)` or a field of `fields`. */
  lemma {:induction false} InsertMembers<V>(fields: seq<(string, V)>, k: string, v: V)
    ensures forall p :: p in Insert(fields, k, v) ==> p == (k, v) || p in fields
  {
    if fields != [] && fields[0].0 != k && !Less(k, fields[0].0) {
      InsertMembers(fields[1..], k, v);
    }
  }

  /** A run of inserts keeps the keys strictly sorted and adds no field that was not inserted. */
  lemma {:induction false} InsertAllInvariant<V>(acc: seq<(string, V)>, pairs: seq<(string, V)>)
    requires StrictlySorted(KeysOf(acc))
    ensures StrictlySorted(KeysOf(InsertAll(acc, pairs)))
    ensures forall p :: p in InsertAll(acc, pairs) ==> p in acc || p in pairs
    decreases |pairs|
  {
    if pairs != [] {
      InsertSorted(acc, pairs[0].0, pairs[0].1);
      InsertMembers(acc, pairs[0].0, pairs[0].1);
      InsertAllInvariant(Insert(acc, pairs[0].0, pairs[0].1), pairs[1..]);
    }
  }

  /** Inserting the fields of a strictly sorted list in order rebuilds the list. */
  lemma {:induction false} InsertAllSorted<V>(acc: seq<(string, V)>, pairs: seq<(string, V)>)
    requires StrictlySorted(KeysOf(acc + pairs))
    ensures InsertAll(acc, pairs) == acc + pairs
    decreases |pairs|
  {
    if pairs != [] {
      var (k, v) := pairs[0];
      var ks := KeysOf(acc + pairs);
      forall i | 0 <= i < |acc|
        ensures Less(acc[i].0, k)
      {
        assert Less(ks[i], ks[|acc|]);
      }
      AppendAfterLast(acc, k, v);
      assert KeysOf((acc + [pairs[0]]) + pairs[1..]) == ks;
      assert acc + pairs == (acc + [pairs[0]]) + pairs[1..];
      InsertAllSorted(acc + [pairs[0]], pairs[1..]);
    }
  }

  lemma {:induction false} AppendAfterLast<V>(acc: seq<(string, V)>, k: string, v: V)
    requires forall i :: 0 <= i < |acc| ==> Less(acc[i].0, k)
    ensures Insert(acc, k, v) == acc + [(k, v)]
  {
    if acc != [] {
      LessAsymmetric(acc[0].0, k);
      LessIrreflexive(k);
      AppendAfterLast(acc[1..], k, v);
      assert acc == [acc[0]] + acc[1..];
    }
  }

  // ---------------------------------------------------------------------------
  // Well-formed values

  /** Every object, at every depth, has strictly ascending keys (the `BTreeMap` invariant). */
  predicate WellFormed(v: Value)
  {
    match v
    case Arr(items) => forall i :: 0 <= i < |items| ==> WellFormed(items[i])
    case Obj(fields) =>
      StrictlySorted(KeysOf(fields)) && forall i :: 0 <= i < |fields| ==> WellFormed(fields[i].1)
    case _ => true
  }
}
