/**
 * `StringTable` (encoder.rs): the binary format's dictionary while it is
 * being built. `entries` lists the distinct strings in the order they were
 * first added, and `ids` (the source's `map: HashMap<String, u32>`) maps each
 * of them back to its index, cut to 32 bits by `as u32`.
 */
module StringTables {
  import opened Base

  /**
   * The entries after adding every string of `ss`, in order, to a table
   * holding `acc`: each string not yet present is appended.
   */
  function AddAll(acc: seq<string>, ss: seq<string>): seq<string>
    decreases |ss|
  {
    if ss == [] then acc
    else AddAll(if ss[0] in acc then acc else acc + [ss[0]], ss[1..])
  }

  class StringTable {
    var entries: seq<string>
    var ids: map<string, u32>

    /** `ids` is the inverse of `entries`, and no string is stored twice. */
    ghost predicate Valid()
      reads this
    {
      && Distinct(entries)
      && (forall s :: s in ids <==> s in entries)
      && (forall i :: 0 <= i < |entries| ==> entries[i] in ids && ids[entries[i]] == U32(i))
    }

    /** `StringTable::new`. */
    constructor()
      ensures Valid() && entries == []
    {
      entries := [];
      ids := map[];
    }

    /** `entries().len()`. */
    function Len(): nat
      reads this
    {
      |entries|
    }

    /**
     * `StringTable::add`: the id of `s`; a string not yet present gets the
     * current length as its id and is appended.
     */
    method Add(s: string) returns (id: u32)
      requires Valid()
      modifies this
      ensures Valid()
      ensures entries == AddAll(old(entries), [s])
      ensures s in old(entries) ==> unchanged(this)
      ensures s !in old(entries) ==> entries == old(entries) + [s] && id == U32(|old(entries)|)
      ensures id == U32(Position(entries, s))
    {
      if s in ids {
        id := ids[s];
        var i := Position(entries, s);
        assert ids[entries[i]] == U32(i);
        return;
      }
      id := U32(|entries|);
      entries := entries + [s];
      ids := ids[s := id];
    }
  }

  /** Adding strings only ever appends. */
  lemma {:induction false} AddAllExtends(acc: seq<string>, ss: seq<string>)
    ensures acc <= AddAll(acc, ss)
    decreases |ss|
  {
    if ss != [] {
      var acc' := if ss[0] in acc then acc else acc + [ss[0]];
      AddAllExtends(acc', ss[1..]);
    }
  }

  /** A table built from distinct entries stays free of repetitions. */
  lemma {:induction false} AddAllDistinct(acc: seq<string>, ss: seq<string>)
    requires Distinct(acc)
    ensures Distinct(AddAll(acc, ss))
    decreases |ss|
  {
    if ss != [] {
      var acc' := if ss[0] in acc then acc else acc + [ss[0]];
      AddAllDistinct(acc', ss[1..]);
    }
  }

  /** The table holds exactly the strings it held before and the strings added. */
  lemma {:induction false} AddAllMembers(acc: seq<string>, ss: seq<string>)
    ensures forall x :: x in AddAll(acc, ss) <==> x in acc || x in ss
    decreases |ss|
  {
    if ss != [] {
      var acc' := if ss[0] in acc then acc else acc + [ss[0]];
      AddAllMembers(acc', ss[1..]);
      assert forall x :: x in ss <==> x == ss[0] || x in ss[1..] by {
        assert ss == [ss[0]] + ss[1..];
      }
    }
  }

  /** Adding `a` and then `b` is adding `a + b`. */
  lemma {:induction false} AddAllAppend(acc: seq<string>, a: seq<string>, b: seq<string>)
    ensures AddAll(acc, a + b) == AddAll(AddAll(acc, a), b)
    decreases |a|
  {
    if a == [] {
      assert a + b == b;
    } else {
      var acc' := if a[0] in acc then acc else acc + [a[0]];
      assert (a + b)[0] == a[0] && (a + b)[1..] == a[1..] + b;
      AddAllAppend(acc', a[1..], b);
    }
  }

  /** A string added any number of times (at least once) takes a single entry. */
  lemma {:induction false} AddAllRepeated(s: string, k: nat)
    requires k >= 1
    ensures AddAll([], seq(k, _ => s)) == [s]
  {
    var ss := seq(k, _ => s);
    assert ss[0] == s && ss[1..] == seq(k - 1, _ => s);
    assert ss != [] && ss[0] !in [] && [] + [ss[0]] == [s];
    AddAllSame([s], s, k - 1);
  }

  lemma {:induction false} AddAllSame(acc: seq<string>, s: string, k: nat)
    requires s in acc
    ensures AddAll(acc, seq(k, _ => s)) == acc
  {
    if k > 0 {
      assert seq(k, _ => s)[1..] == seq(k - 1, _ => s);
      AddAllSame(acc, s, k - 1);
    }
  }

  /**
   * Ids follow first-seen order: of two strings that were added, the one
   * whose first occurrence comes first gets the lower id.
   */
  lemma {:induction false} AddAllFirstSeen(acc: seq<string>, ss: seq<string>, x: string, y: string)
    requires x in ss && y in ss && x !in acc && y !in acc
    ensures x in AddAll(acc, ss) && y in AddAll(acc, ss)
    ensures Position(AddAll(acc, ss), x) < Position(AddAll(acc, ss), y) <==> Position(ss, x) < Position(ss, y)
    decreases |ss|
  {
    AddAllMembers(acc, ss);
    var acc' := if ss[0] in acc then acc else acc + [ss[0]];
    var r := AddAll(acc, ss);
    AddAllExtends(acc', ss[1..]);
    if x == ss[0] && y == ss[0] {
    } else if x == ss[0] {
      assert r[|acc|] == x;
      AddAllMembers(acc', ss[1..]);
      assert y in ss[1..];
      PositionAfter(r, acc', y);
    } else if y == ss[0] {
      assert r[|acc|] == y;
      assert x in ss[1..];
      PositionAfter(r, acc', x);
    } else {
      assert x in ss[1..] && y in ss[1..];
      assert x !in acc' && y !in acc';
      AddAllFirstSeen(acc', ss[1..], x, y);
    }
  }

  lemma PositionAfter(r: seq<string>, prefix: seq<string>, x: string)
    requires prefix <= r && x in r && x !in prefix
    ensures Position(r, x) >= |prefix|
  {
  }
}
