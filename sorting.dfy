/**
 * The two sorts of the core: `sort` on a vector of strings (the TENS-Text
 * field names and `@dict` entries) and the stable `sort_by` on the
 * (name, type) pairs of `SchemaRegistry::get_or_register`, comparing the
 * names. Both are an insertion sort by a string key here: stable, so equal
 * keys keep their order.
 */
module Sorting {
  import opened Values

  /** The key of a string is the string itself. */
  function Identity(s: string): string
  {
    s
  }

  /** Ascending by key; equal keys may sit side by side. */
  predicate SortedBy<T>(xs: seq<T>, key: T -> string)
  {
    forall i, j :: 0 <= i < j < |xs| ==> !Less(key(xs[j]), key(xs[i]))
  }

  /** `x` put before the first element whose key is greater than its own. */
  function InsertBy<T>(xs: seq<T>, x: T, key: T -> string): seq<T>
  {
    if xs == [] then [x]
    else if Less(key(x), key(xs[0])) then [x] + xs
    else [xs[0]] + InsertBy(xs[1..], x, key)
  }

  /** A stable sort by `key`. */
  function SortBy<T>(xs: seq<T>, key: T -> string): seq<T>
  {
    if xs == [] then [] else InsertBy(SortBy(xs[..|xs| - 1], key), xs[|xs| - 1], key)
  }

  /** `v.sort()` on strings. */
  function SortStrings(xs: seq<string>): seq<string>
  {
    SortBy(xs, Identity)
  }

  // ---------------------------------------------------------------------------
  // A sort orders its input and keeps its elements

  /** Inserting adds one element and loses none. */
  lemma {:induction false} InsertByPermutes<T>(xs: seq<T>, x: T, key: T -> string)
    ensures multiset(InsertBy(xs, x, key)) == multiset(xs) + multiset{x}
  {
    if xs != [] && !Less(key(x), key(xs[0])) {
      InsertByPermutes(xs[1..], x, key);
      assert xs == [xs[0]] + xs[1..];
    }
  }

  /** Inserting into a sorted sequence keeps it sorted. */
  lemma {:induction false} InsertByOrdered<T>(xs: seq<T>, x: T, key: T -> string)
    requires SortedBy(xs, key)
    ensures SortedBy(InsertBy(xs, x, key), key)
  {
    if xs != [] {
      if Less(key(x), key(xs[0])) {
        forall j | 0 <= j < |xs|
          ensures !Less(key(xs[j]), key(x))
        {
          LessIrreflexive(key(xs[0]));
          NotBelowChain(key(x), key(xs[0]), key(xs[j]));
        }
      } else {
        var t := xs[1..];
        InsertByOrdered(t, x, key);
        InsertByPermutes(t, x, key);
        var r := InsertBy(t, x, key);
        forall j | 0 <= j < |r|
          ensures !Less(key(r[j]), key(xs[0]))
        {
          assert r[j] in multiset(r);
          if r[j] != x {
            assert r[j] in multiset(t);
            var k :| 0 <= k < |t| && t[k] == r[j];
            assert xs[k + 1] == r[j];
          }
        }
        ConsSorted(xs[0], r, key);
      }
    }
  }

  lemma ConsSorted<T>(x: T, r: seq<T>, key: T -> string)
    requires SortedBy(r, key)
    requires forall j :: 0 <= j < |r| ==> !Less(key(r[j]), key(x))
    ensures SortedBy([x] + r, key)
  {
    forall i, j | 0 <= i < j < |r| + 1
      ensures !Less(key(([x] + r)[j]), key(([x] + r)[i]))
    {
      if i > 0 {
        assert ([x] + r)[i] == r[i - 1];
      }
      assert ([x] + r)[j] == r[j - 1];
    }
  }

  /** `a` below `b` and `c` not below `b` put `c` above `a`. */
  lemma NotBelowChain(a: string, b: string, c: string)
    requires Less(a, b) && !Less(c, b)
    ensures !Less(c, a)
  {
    LessTotal(c, b);
    if Less(c, a) {
      if c == b {
        LessAsymmetric(a, b);
      } else {
        LessTransitive(a, b, c);
        LessAsymmetric(a, c);
      }
    }
  }

  /** `sort` returns its input reordered, in ascending order. */
  lemma {:induction false} SortByOrdered<T>(xs: seq<T>, key: T -> string)
    ensures SortedBy(SortBy(xs, key), key)
    ensures multiset(SortBy(xs, key)) == multiset(xs)
  {
    if xs != [] {
      var p := xs[..|xs| - 1];
      SortByOrdered(p, key);
      InsertByOrdered(SortBy(p, key), xs[|xs| - 1], key);
      InsertByPermutes(SortBy(p, key), xs[|xs| - 1], key);
      assert xs == p + [xs[|xs| - 1]];
    }
  }

  /** An element whose key no earlier key exceeds goes at the end. */
  lemma {:induction false} InsertByLast<T>(xs: seq<T>, x: T, key: T -> string)
    requires forall i :: 0 <= i < |xs| ==> !Less(key(x), key(xs[i]))
    ensures InsertBy(xs, x, key) == xs + [x]
  {
    if xs != [] {
      InsertByLast(xs[1..], x, key);
      assert xs == [xs[0]] + xs[1..];
    }
  }

  /** Sorting what is already in order changes nothing. */
  lemma {:induction false} SortSorted<T>(xs: seq<T>, key: T -> string)
    requires SortedBy(xs, key)
    ensures SortBy(xs, key) == xs
  {
    if xs != [] {
      var p := xs[..|xs| - 1];
      SortSorted(p, key);
      InsertByLast(p, xs[|xs| - 1], key);
    }
  }

  /** Two sorted string sequences with the same elements, repetitions counted, are the same sequence. */
  lemma {:induction false} SortedUnique(a: seq<string>, b: seq<string>)
    requires SortedBy(a, Identity) && SortedBy(b, Identity)
    requires multiset(a) == multiset(b)
    ensures a == b
  {
    if a != [] {
      SortedHeads(a, b);
      TailMultiset(a);
      TailMultiset(b);
      SortedUnique(a[1..], b[1..]);
      assert a == [a[0]] + a[1..] && b == [b[0]] + b[1..];
    } else {
      assert |multiset(b)| == 0;
    }
  }

  /** Sorted sequences with the same elements start alike. */
  lemma SortedHeads(a: seq<string>, b: seq<string>)
    requires SortedBy(a, Identity) && SortedBy(b, Identity)
    requires multiset(a) == multiset(b) && a != []
    ensures b != [] && a[0] == b[0]
  {
    assert a[0] in multiset(b);
    HeadIsLeast(b, a[0]);
    HeadIsLeast(a, b[0]);
    LessTotal(a[0], b[0]);
  }

  lemma TailMultiset(a: seq<string>)
    requires a != []
    ensures multiset(a[1..]) == multiset(a) - multiset{a[0]}
  {
    assert a == [a[0]] + a[1..];
  }

  /** The first element of a sorted sequence is below none of its elements. */
  lemma HeadIsLeast(a: seq<string>, x: string)
    requires SortedBy(a, Identity) && x in multiset(a)
    ensures a != [] && !Less(x, a[0])
  {
    var i :| 0 <= i < |a| && a[i] == x;
    if i == 0 {
      LessIrreflexive(x);
    } else {
      assert !Less(Identity(a[i]), Identity(a[0]));
    }
  }

  /** Sorting pairs by their first component and then taking those components is sorting the components. */
  lemma {:induction false} SortByKeys<V>(ps: seq<(string, V)>)
    ensures KeysOf(SortBy(ps, First)) == SortStrings(KeysOf(ps))
  {
    if ps != [] {
      var p := ps[..|ps| - 1];
      var x := ps[|ps| - 1];
      var sp := SortBy(p, First);
      SortByKeys(p);
      InsertByKeys(sp, x);
      assert SortBy(ps, First) == InsertBy(sp, x, First);
      var ks := KeysOf(ps);
      assert ks[..|ps| - 1] == KeysOf(p);
      assert ks[|ps| - 1] == x.0;
      assert SortStrings(ks) == InsertBy(SortStrings(KeysOf(p)), x.0, Identity);
    }
  }

  function First<V>(p: (string, V)): string
  {
    p.0
  }

  lemma {:induction false} InsertByKeys<V>(ps: seq<(string, V)>, x: (string, V))
    ensures KeysOf(InsertBy(ps, x, First)) == InsertBy(KeysOf(ps), x.0, Identity)
  {
    if ps != [] {
      InsertByKeys(ps[1..], x);
      assert KeysOf(ps)[1..] == KeysOf(ps[1..]);
    }
  }
}
