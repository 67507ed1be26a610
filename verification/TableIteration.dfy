// The two ways in which the programs walk over a whole hash table: reading it,
// as MaybeResize does, and emptying it, as the crawler does.
module TableIteration {
  import opened LinkedLists
  import opened ChainTable
  import opened HashTables
  import opened TableLaws
  import opened SurvivorLaws

  // A walk that only reads sees every pair once, in bucket order, and leaves the
  // iterator invalid.
  method VisitAll<V>(it: HTIterator<V>) returns (visited: seq<KeyValue<V>>)
    requires it.Valid() && it.pos == 0
    modifies it.Repr
    ensures it.Valid() && it.bucketIdx == HTIterator<V>.INVALID_IDX && fresh(it.Repr - old(it.Repr))
    ensures visited == Pairs(it.ht.Contents)
  {
    hide HashTable.Valid, LinkedList.Valid, HTIterator.OnPair, Pairs;
    ghost var pairs := Pairs(it.ht.Contents);
    visited := [];
    var valid := it.IsValid();
    while valid
      invariant it.Valid() && fresh(it.Repr - old(it.Repr))
      invariant it.ht.Contents == old(it.ht.Contents)
      invariant it.pos <= |pairs| && valid == (it.bucketIdx != HTIterator<V>.INVALID_IDX) == (it.pos < |pairs|)
      invariant visited == pairs[..it.pos]
      decreases |pairs| - it.pos
    {
      var ok, kv := it.Get();
      assert ok;
      visited := visited + [kv.value];
      var _ := it.Next();
      valid := it.IsValid();
    }
  }

  // Removing under the iterator until it is invalid takes out every pair once,
  // in the order of iteration, and empties the table.
  method Drain<V>(ht: HashTable<V>) returns (removed: seq<KeyValue<V>>)
    requires ht.Valid() && Canonical(ht.Contents)
    modifies ht.Repr
    ensures ht.Valid() && fresh(ht.Repr - old(ht.Repr))
    ensures removed == old(Pairs(ht.Contents))
    ensures Pairs(ht.Contents) == [] && MapOf(ht.Contents) == map[]
  {
    hide HashTable.Valid, LinkedList.Valid, HTIterator.Valid, HTIterator.OnPair, Pairs, MapOf;
    hide Placed, Canonical, SurvivorsOnce;
    var it := new HTIterator(ht);
    ghost var pairs := Pairs(ht.Contents);
    removed := [];
    var valid := it.IsValid();
    while valid
      invariant ht.Valid() && Canonical(ht.Contents) && fresh(ht.Repr - old(ht.Repr))
      invariant it.Valid() && it.ht == ht && fresh(it.Repr) && it.pos == 0
      invariant |removed| <= |pairs| && removed == pairs[..|removed|] && Pairs(ht.Contents) == pairs[|removed|..]
      invariant valid == (Pairs(ht.Contents) != [])
      decreases |Pairs(ht.Contents)|
    {
      FirstOf(ht.Contents);
      var ok, kv := it.Remove();
      assert ok;
      removed := removed + [kv.value];
      valid := it.IsValid();
    }
    NothingLeft(ht.Contents);
  }

  // What the checks of HTIterator_Remove need to know of the first pair.
  lemma FirstOf<V>(t: Buckets<V>)
    requires Canonical(t) && Pairs(t) != []
    ensures SurvivorsOnce(t) && Survives(Pairs(t)[0].key)
    ensures Canonical(ChainTable.Remove(t, Pairs(t)[0].key))
  {
    hide Pairs, Lookup;
    CanonicalIff(t);
    PairsSurvive(t);
    assert Pairs(t)[0] in Pairs(t);
    RemoveShrinksMap(t, Pairs(t)[0].key);
  }

  lemma NothingLeft<V>(t: Buckets<V>)
    requires Canonical(t) && Pairs(t) == []
    ensures MapOf(t) == map[]
  {
    hide Pairs, Lookup;
    CountIsMapSize(t);
  }
}
