// What holds of every table the program can build, whatever its keys, and so
// exactly when a lookup finds what was stored and when a table can be emptied.
module SurvivorLaws {
  import opened Wrappers
  import opened LinkedLists
  import opened ChainTable
  import opened TableLaws

  // Every pair is in its bucket, and no key that survives hasKey occurs twice.
  // (A key that does not survive may occur any number of times.)
  ghost predicate SurvivorsOnce<V>(t: Buckets<V>) {
    && Placed(t)
    && forall b, i, j | 0 <= b < |t| && 0 <= i < j < |t[b]| && Survives(t[b][i].key) :: t[b][i].key != t[b][j].key
  }

  lemma EmptyHasSurvivorsOnce<V>(n: nat)
    requires 0 < n
    ensures SurvivorsOnce(EmptyBuckets<V>(n))
  {
  }

  // --- Every operation keeps this, for any key. ---

  lemma {:induction false} InsertNoResizeKeepsOnce<V>(t: Buckets<V>, kv: KeyValue<V>)
    requires SurvivorsOnce(t)
    ensures SurvivorsOnce(InsertNoResize(t, kv))
  {
    InsertKeepsPlaced(t, kv);
    InsertIntoChainAt(t[BucketOf(kv.key, |t|)], kv);
    hide Placed, InsertIntoChain;
  }

  lemma {:induction false} InsertAllKeepsOnce<V>(t: Buckets<V>, kvs: seq<KeyValue<V>>)
    requires SurvivorsOnce(t)
    ensures SurvivorsOnce(InsertAll(t, kvs))
    decreases |kvs|
  {
    assert 0 < |t|;
    hide SurvivorsOnce, InsertNoResize;
    if kvs != [] {
      InsertAllKeepsOnce(t, kvs[..|kvs| - 1]);
      InsertNoResizeKeepsOnce(InsertAll(t, kvs[..|kvs| - 1]), kvs[|kvs| - 1]);
    }
  }

  lemma InsertKeepsOnce<V>(t: Buckets<V>, kv: KeyValue<V>)
    requires SurvivorsOnce(t)
    ensures SurvivorsOnce(Grow(t)) && SurvivorsOnce(Insert(t, kv))
  {
    hide InsertAll, InsertNoResize;
    EmptyHasSurvivorsOnce<V>(9 * |t|);
    InsertAllKeepsOnce(EmptyBuckets(9 * |t|), Pairs(t));
    hide SurvivorsOnce;
    InsertNoResizeKeepsOnce(Grow(t), kv);
  }

  lemma RemoveKeepsOnce<V>(t: Buckets<V>, k: Key)
    requires SurvivorsOnce(t)
    ensures SurvivorsOnce(Remove(t, k))
  {
    RemoveKeepsPlaced(t, k);
    hide Placed;
  }

  // So every table that any run builds from an empty one is of this kind.
  lemma {:induction false} RunsKeepOnce<V>(n: nat, ops: seq<Op<V>>)
    requires 0 < n
    ensures SurvivorsOnce(RunTable(EmptyBuckets<V>(n), ops).0)
    decreases |ops|
  {
    hide SurvivorsOnce, Insert, Remove, Grow;
    if ops == [] {
      EmptyHasSurvivorsOnce<V>(n);
    } else {
      RunsKeepOnce(n, ops[..|ops| - 1]);
      var t := RunTable(EmptyBuckets<V>(n), ops[..|ops| - 1]).0;
      match ops[|ops| - 1]
      case DoInsert(kv) => InsertKeepsOnce(t, kv);
      case DoFind(_) =>
      case DoRemove(k) => RemoveKeepsOnce(t, k);
    }
  }

  // The tables that represent a map are those of this kind whose keys survive.
  lemma CanonicalIff<V>(t: Buckets<V>)
    ensures Canonical(t) <==> SurvivorsOnce(t) && AllSurvive(t)
  {
    hide Placed;
    if Canonical(t) {
      PairsSurvive(t);
    }
    if SurvivorsOnce(t) && AllSurvive(t) {
      forall b, i | 0 <= b < |t| && 0 <= i < |t[b]|
        ensures Survives(t[b][i].key)
      {
        StoredPair(t, b, i);
      }
    }
  }

  lemma StoredPair<V>(t: Buckets<V>, b: nat, i: nat)
    requires b < |t| && i < |t[b]|
    ensures t[b][i] in Pairs(t)
  {
    PairAt(t, b, i);
  }

  // --- Exactly when lookups work. ---

  // Whatever hasKey finds for a key is stored, and under the narrowed key.
  lemma FindsOnlyNarrow<V>(t: Buckets<V>, k: Key)
    requires 0 < |t|
    ensures Find(t, k).Some? ==> Find(t, k).value.key == Narrow(k) && Find(t, k).value in Pairs(t)
  {
    if Find(t, k).Some? {
      var b := BucketOf(k, |t|);
      StoredPair(t, b, IndexOf(t[b], Narrow(k)));
    }
  }

  // What hasKey finds in a table that represents a map, for any key at all.
  lemma FindReadsNarrow<V>(t: Buckets<V>, k: Key)
    requires Canonical(t)
    ensures Find(t, k).Some? ==>
              && Narrow(k) in MapOf(t) && BucketOf(Narrow(k), |t|) == BucketOf(k, |t|)
              && Find(t, k) == Some(KeyValue(Narrow(k), MapOf(t)[Narrow(k)]))
    ensures Narrow(k) in MapOf(t) && BucketOf(Narrow(k), |t|) == BucketOf(k, |t|) ==> Find(t, k).Some?
    ensures k in MapOf(t) ==> Narrow(k) == k && Find(t, k) == Some(KeyValue(k, MapOf(t)[k]))
  {
    MapOfIs(t, Narrow(k));
    MapOfIs(t, k);
    hide MapOf, IndexOf;
  }

  // A stored pair is found under its key exactly if the key survives.  This is
  // also when the checks in HTIterator_Remove hold, which finds the pair it is
  // at by key.
  lemma StoredIsFoundIff<V>(t: Buckets<V>, kv: KeyValue<V>)
    requires SurvivorsOnce(t) && kv in Pairs(t)
    ensures Find(t, kv.key) == Some(kv) <==> Survives(kv.key)
  {
    hide IndexOf;
    if Survives(kv.key) {
      PairsAreInBuckets(t, kv);
      var b :| 0 <= b < |t| && kv in t[b];
      var i :| 0 <= i < |t[b]| && t[b][i] == kv;
      assert BucketOf(t[b][i].key, |t|) == b;
      IndexOfFirst(t[b], kv.key, i);
    }
  }

  lemma IndexOfFirst<V>(chain: Chain<V>, k: Key, i: nat)
    requires i < |chain| && chain[i].key == k
    requires forall j | 0 <= j < i :: chain[j].key != k
    ensures IndexOf(chain, k) == i
  {
  }

  lemma InsertedIsStored<V>(t: Buckets<V>, kv: KeyValue<V>)
    requires 0 < |t|
    ensures kv in Pairs(Insert(t, kv))
  {
    var g := Grow(t);
    hide Grow;
    var b := BucketOf(kv.key, |g|);
    InsertIntoChainAt(g[b], kv);
    var r: Buckets<V> := InsertNoResize(g, kv);
    StoredPair(r, b, |r[b]| - 1);
  }

  // Reading back what was just inserted works for exactly the keys that survive.
  lemma InsertThenFindIff<V>(t: Buckets<V>, kv: KeyValue<V>)
    requires SurvivorsOnce(t)
    ensures Find(Insert(t, kv), kv.key) == Some(kv) <==> Survives(kv.key)
  {
    InsertKeepsOnce(t, kv);
    InsertedIsStored(t, kv);
    hide SurvivorsOnce, Insert;
    StoredIsFoundIff(Insert(t, kv), kv);
  }

  // --- Exactly when a table can be emptied by its iterator. ---

  lemma RemoveTakesOneOut<V>(t: Buckets<V>, k: Key, p: KeyValue<V>)
    requires 0 < |t| && Find(t, k).Some?
    ensures p in Pairs(Remove(t, k)) ==> p in Pairs(t)
    ensures p in Pairs(t) ==> p in Pairs(Remove(t, k)) || p == Find(t, k).value
  {
    var b := BucketOf(k, |t|);
    var i := IndexOf(t[b], Narrow(k));
    PairsSplit(t, b);
    PairsUpdate(t, b, Without(t[b], i));
    OthersStay(t[b], i, p);
    hide Pairs, IndexOf, Without;
  }

  lemma OthersStay<V>(chain: Chain<V>, i: nat, p: KeyValue<V>)
    requires i < |chain|
    ensures p in Without(chain, i) ==> p in chain
    ensures p in chain ==> p in Without(chain, i) || p == chain[i]
  {
    assert chain == chain[..i] + [chain[i]] + chain[i + 1..];
  }

  // Removing the first pair under the iterator, again and again, passes every
  // check: the pair is found under its own key and it is what is removed.
  ghost predicate DrainsCleanly<V>(t: Buckets<V>)
    requires 0 < |t|
    decreases |Pairs(t)|
  {
    || Pairs(t) == []
    || (var first := Pairs(t)[0];
        && Find(t, first.key) == Some(first)
        && (CountAfterRemove(t, first.key); DrainsCleanly(Remove(t, first.key))))
  }

  ghost predicate AllSurvive<V>(t: Buckets<V>) {
    forall p | p in Pairs(t) :: Survives(p.key)
  }

  lemma RestSurvives<V>(t: Buckets<V>, k: Key)
    requires 0 < |t| && Find(t, k).Some? && Survives(Find(t, k).value.key)
    ensures AllSurvive(Remove(t, k)) <==> AllSurvive(t)
  {
    hide Find, Remove, Pairs, Survives;
    if AllSurvive(Remove(t, k)) {
      forall p | p in Pairs(t) ensures Survives(p.key) {
        RemoveTakesOneOut(t, k, p);
      }
    }
    if AllSurvive(t) {
      forall p | p in Pairs(Remove(t, k)) ensures Survives(p.key) {
        RemoveTakesOneOut(t, k, p);
      }
    }
  }

  // A table is emptied without failing a check exactly if all its keys survive.
  lemma {:induction false} DrainsCleanlyIff<V>(t: Buckets<V>)
    requires SurvivorsOnce(t)
    ensures DrainsCleanly(t) <==> AllSurvive(t)
    decreases |Pairs(t)|
  {
    assert 0 < |t|;
    hide SurvivorsOnce, Find, Remove, Pairs, Survives;
    if Pairs(t) != [] {
      var first := Pairs(t)[0];
      assert first in Pairs(t);
      StoredIsFoundIff(t, first);
      if Survives(first.key) {
        RemoveKeepsOnce(t, first.key);
        CountAfterRemove(t, first.key);
        DrainsCleanlyIff(Remove(t, first.key));
        RestSurvives(t, first.key);
      }
    }
  }
}
