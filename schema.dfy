/**
 * `SchemaRegistry`: deduplicates key sets, handing each new one the next id
 * from 1 on. A key set is registered sorted, with its types permuted
 * alongside; the registry is found again by the sorted keys alone, through
 * a hash that is taken here to be injective, so the lookup map is keyed by
 * the sorted key sequence itself.
 */
module Schemas {
  import opened Base
  import opened Values
  import opened Sorting

  /** A registered schema: its id, its sorted field names and their type labels, position by position. */
  datatype Schema = Schema(id: nat, keys: seq<string>, fieldTypes: seq<string>)

  /** `zip`: pairs position by position, as many as the shorter sequence holds. */
  function Zip<A, B>(a: seq<A>, b: seq<B>): (z: seq<(A, B)>)
    ensures |z| == if |a| <= |b| then |a| else |b|
    ensures forall i :: 0 <= i < |z| ==> z[i] == (a[i], b[i])
  {
    if a == [] || b == [] then [] else [(a[0], b[0])] + Zip(a[1..], b[1..])
  }

  /** The second components, in order. */
  function SecondsOf<V>(ps: seq<(string, V)>): (vs: seq<V>)
    ensures |vs| == |ps|
    ensures forall i :: 0 <= i < |ps| ==> vs[i] == ps[i].1
  {
    if ps == [] then [] else [ps[0].1] + SecondsOf(ps[1..])
  }

  /** The (key, type) pairs of a registration, sorted by key with `sort_by`, which is stable. */
  function SortedPairs(keys: seq<string>, types: seq<string>): seq<(string, string)>
  {
    SortBy(Zip(keys, types), First)
  }

  /** The key sequence a registration is stored and looked up under. */
  function SortedKeys(keys: seq<string>, types: seq<string>): seq<string>
  {
    KeysOf(SortedPairs(keys, types))
  }

  /** The type labels stored with it. */
  function SortedTypes(keys: seq<string>, types: seq<string>): seq<string>
  {
    SecondsOf(SortedPairs(keys, types))
  }

  /**
   * Ids 1 to `nextId - 1` are exactly those in use; each schema carries its
   * own id, sorted keys and as many types as keys; the lookup map and the
   * schemas agree both ways.
   */
  ghost predicate Registered(lookup: map<seq<string>, nat>, schemas: map<nat, Schema>, nextId: nat)
  {
    && nextId >= 1
    && (forall id :: id in schemas <==> 1 <= id < nextId)
    && (forall id :: id in schemas ==>
          && schemas[id].id == id
          && SortedBy(schemas[id].keys, Identity)
          && |schemas[id].keys| == |schemas[id].fieldTypes|
          && schemas[id].keys in lookup
          && lookup[schemas[id].keys] == id)
    && (forall ks :: ks in lookup ==> lookup[ks] in schemas && schemas[lookup[ks]].keys == ks)
  }

  /** Registering a new sorted key set under the next id keeps the registry consistent. */
  lemma RegisterKeeps(lookup: map<seq<string>, nat>, schemas: map<nat, Schema>, nextId: nat, ks: seq<string>, ts: seq<string>)
    requires Registered(lookup, schemas, nextId)
    requires ks !in lookup && SortedBy(ks, Identity) && |ks| == |ts|
    ensures Registered(lookup[ks := nextId], schemas[nextId := Schema(nextId, ks, ts)], nextId + 1)
  {
    var lookup1 := lookup[ks := nextId];
    var schemas1 := schemas[nextId := Schema(nextId, ks, ts)];
    assert nextId !in schemas;
    forall id | id in schemas1
      ensures schemas1[id].keys in lookup1 && lookup1[schemas1[id].keys] == id
    {
      if id != nextId {
        assert schemas1[id] == schemas[id];
        assert schemas[id].keys != ks;
      }
    }
  }

  class SchemaRegistry {
    /** The sorted key sequence each registered schema is found by. */
    var lookup: map<seq<string>, nat>
    /** The schemas by id. */
    var schemas: map<nat, Schema>
    var nextId: nat

    /**
     * Ids 1 to `nextId - 1` are exactly those in use; each schema carries its
     * own id, sorted keys and as many types as keys; the lookup map and the
     * schemas agree both ways.
     */
    ghost predicate Valid()
      reads this
    {
      Registered(lookup, schemas, nextId)
    }

    /** `SchemaRegistry::new`: nothing registered, and the first id to hand out is 1. */
    constructor ()
      ensures Valid()
      ensures lookup == map[] && schemas == map[] && nextId == 1
    {
      lookup := map[];
      schemas := map[];
      nextId := 1;
    }

    /**
     * `get_or_register`: the id of the key set, and whether it is new. A key
     * set already registered, whatever the order of its keys and whatever
     * types come with it, gets its id back and changes nothing; a new one
     * takes `nextId`, which moves on by one.
     */
    method GetOrRegister(keys: seq<string>, types: seq<string>) returns (id: nat, isNew: bool)
      requires Valid()
      modifies this
      ensures Valid()
      ensures var ks := SortedKeys(keys, types);
        && (ks in old(lookup) ==>
              (id == old(lookup)[ks] && !isNew
               && lookup == old(lookup) && schemas == old(schemas) && nextId == old(nextId)))
        && (ks !in old(lookup) ==>
              (id == old(nextId) && isNew && nextId == old(nextId) + 1
               && lookup == old(lookup)[ks := id]
               && schemas == old(schemas)[id := Schema(id, ks, SortedTypes(keys, types))]))
    {
      var sorted := SortBy(Zip(keys, types), First);
      var sortedKeys := KeysOf(sorted);
      var sortedTypes := SecondsOf(sorted);
      if sortedKeys in lookup {
        return lookup[sortedKeys], false;
      }
      RegisteredShape(keys, types);
      RegisterKeeps(lookup, schemas, nextId, sortedKeys, sortedTypes);
      id := nextId;
      nextId := nextId + 1;
      lookup := lookup[sortedKeys := id];
      schemas := schemas[id := Schema(id, sortedKeys, sortedTypes)];
      isNew := true;
    }

    /** `get`: the schema registered under `id`, if any. */
    function Get(id: nat): (r: Option<Schema>)
      reads this
      requires Valid()
      ensures r.Some? <==> 1 <= id < nextId
      ensures r.Some? ==> r.value == schemas[id] && r.value.id == id && lookup[r.value.keys] == id
    {
      if id in schemas then Some(schemas[id]) else None
    }

    /** `all`: every schema, by ascending id. */
    function All(): (r: seq<Schema>)
      reads this
      requires Valid()
      ensures |r| == nextId - 1
      ensures forall i :: 0 <= i < |r| ==> r[i] == schemas[i + 1] && r[i].id == i + 1
    {
      Below(nextId)
    }

    /** The schemas with an id below `n`, by ascending id. */
    function Below(n: nat): (r: seq<Schema>)
      reads this
      requires Valid() && n <= nextId
      ensures |r| == if n == 0 then 0 else n - 1
      ensures forall i :: 0 <= i < |r| ==> r[i] == schemas[i + 1]
    {
      if n <= 1 then [] else Below(n - 1) + [schemas[n - 1]]
    }
  }

  // ---------------------------------------------------------------------------
  // What a registration stores

  /**
   * The stored keys are sorted and as many as the shorter of keys and types;
   * the stored types are as many, and each stays paired with its own key:
   * the stored pairs are the zipped input pairs, reordered.
   */
  lemma RegisteredShape(keys: seq<string>, types: seq<string>)
    ensures var ks := SortedKeys(keys, types);
      && SortedBy(ks, Identity)
      && |ks| == |SortedTypes(keys, types)| == (if |keys| <= |types| then |keys| else |types|)
      && multiset(Zip(ks, SortedTypes(keys, types))) == multiset(Zip(keys, types))
  {
    var pairs := Zip(keys, types);
    var sorted := SortedPairs(keys, types);
    SortByOrdered(pairs, First);
    assert multiset(sorted) == multiset(pairs);
    assert |sorted| == |multiset(sorted)| == |multiset(pairs)| == |pairs|;
    var ks := KeysOf(sorted);
    forall i, j | 0 <= i < j < |ks|
      ensures !Less(Identity(ks[j]), Identity(ks[i]))
    {
      assert !Less(First(sorted[j]), First(sorted[i]));
    }
    ZipUnzip(sorted);
  }

  /** Taking pairs apart and zipping them again gives the pairs. */
  lemma ZipUnzip(ps: seq<(string, string)>)
    ensures Zip(KeysOf(ps), SecondsOf(ps)) == ps
  {
    var z := Zip(KeysOf(ps), SecondsOf(ps));
    assert |z| == |ps|;
    forall i | 0 <= i < |ps|
      ensures z[i] == ps[i]
    {
    }
  }

  /**
   * Two registrations of the same keys in any order, each with at least as
   * many types as keys, are stored and looked up under the same key sequence.
   */
  lemma SameKeysAnyOrder(keys1: seq<string>, types1: seq<string>, keys2: seq<string>, types2: seq<string>)
    requires multiset(keys1) == multiset(keys2)
    requires |keys1| <= |types1| && |keys2| <= |types2|
    ensures SortedKeys(keys1, types1) == SortedKeys(keys2, types2)
  {
    ZippedKeys(keys1, types1);
    ZippedKeys(keys2, types2);
    SortByKeys(Zip(keys1, types1));
    SortByKeys(Zip(keys2, types2));
    SortByOrdered(keys1, Identity);
    SortByOrdered(keys2, Identity);
    SortedUnique(SortStrings(keys1), SortStrings(keys2));
  }

  /** With enough types, zipping keeps every key. */
  lemma ZippedKeys(keys: seq<string>, types: seq<string>)
    requires |keys| <= |types|
    ensures KeysOf(Zip(keys, types)) == keys
  {
  }

  // ---------------------------------------------------------------------------
  // Registrations in sequence

  /** The first registration in a new registry gets id 1 and is new. */
  method FirstRegistration(keys: seq<string>, types: seq<string>) returns (id: nat, isNew: bool)
    ensures id == 1 && isNew
  {
    var registry := new SchemaRegistry();
    id, isNew := registry.GetOrRegister(keys, types);
  }

  /**
   * Registering a key set, then the same keys in another order with other
   * types, gives the same id the second time, not new, and the registry as
   * the first call left it.
   */
  method RegisterTwice(registry: SchemaRegistry, keys1: seq<string>, types1: seq<string>, keys2: seq<string>, types2: seq<string>)
      returns (id1: nat, id2: nat, isNew2: bool)
    requires registry.Valid()
    requires multiset(keys1) == multiset(keys2)
    requires |keys1| <= |types1| && |keys2| <= |types2|
    modifies registry
    ensures registry.Valid()
    ensures id2 == id1 && !isNew2
    ensures registry.Get(id1).Some? && registry.Get(id1).value.keys == SortedKeys(keys1, types1)
  {
    var isNew1;
    id1, isNew1 := registry.GetOrRegister(keys1, types1);
    var lookup1, schemas1, next1 := registry.lookup, registry.schemas, registry.nextId;
    SameKeysAnyOrder(keys1, types1, keys2, types2);
    id2, isNew2 := registry.GetOrRegister(keys2, types2);
    assert registry.lookup == lookup1 && registry.schemas == schemas1 && registry.nextId == next1;
  }
}
