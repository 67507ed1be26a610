// What holds of every table that insertions build, whatever the keys: no pair
// stands behind one that it would have replaced.  So a resize, which inserts all
// pairs again in the order of iteration, loses none of them.
module ReachableTables {
  import opened ChainTable
  import opened TableLaws
  import opened SurvivorLaws

  ghost predicate InOrder<V>(t: Buckets<V>) {
    && Placed(t)
    && forall b, i, j | 0 <= b < |t| && 0 <= i < j < |t[b]| :: t[b][i].key != Narrow(t[b][j].key)
  }

  lemma InOrderHasSurvivorsOnce<V>(t: Buckets<V>)
    requires InOrder(t)
    ensures SurvivorsOnce(t)
  {
    hide Placed;
  }

  lemma EmptyInOrder<V>(n: nat)
    requires 0 < n
    ensures InOrder(EmptyBuckets<V>(n))
  {
  }

  // --- One insertion. ---

  // After an insertion the pairs of a chain are the old ones but the one that
  // the new pair replaces, and it.
  lemma InsertNoResizeInOrder<V>(t: Buckets<V>, kv: KeyValue<V>)
    requires InOrder(t)
    ensures InOrder(InsertNoResize(t, kv))
  {
    InsertKeepsPlaced(t, kv);
    var b := BucketOf(kv.key, |t|);
    ChainInOrder(t[b], kv);
    hide Placed, InsertIntoChain;
  }

  ghost predicate ChainIsInOrder<V>(chain: Chain<V>) {
    forall i, j | 0 <= i < j < |chain| :: chain[i].key != Narrow(chain[j].key)
  }

  lemma ChainInOrder<V>(chain: Chain<V>, kv: KeyValue<V>)
    requires ChainIsInOrder(chain)
    ensures ChainIsInOrder(InsertIntoChain(chain, kv))
  {
    InsertIntoChainAt(chain, kv);
    var c, r, k := InsertIntoChain(chain, kv), IndexOf(chain, Narrow(kv.key)), Narrow(kv.key);
    NarrowIsNarrow(kv.key);
    hide InsertIntoChain, Narrow, IndexOf;
    forall j | 0 <= j < |c| - 1
      ensures c[j].key != k
    {
      if r <= j {
        assert chain[r].key != Narrow(chain[j + 1].key);
      }
    }
  }

  lemma NarrowIsNarrow(k: Key)
    ensures Narrow(Narrow(k)) == Narrow(k)
  {
  }

  // An insertion that finds nothing to replace only adds its pair.
  lemma NoneReplaced<V>(t: Buckets<V>, kv: KeyValue<V>)
    requires 0 < |t| && Find(t, kv.key).None?
    ensures multiset(Pairs(InsertNoResize(t, kv))) == multiset(Pairs(t)) + multiset{kv}
  {
    var b := BucketOf(kv.key, |t|);
    PairsSplit(t, b);
    PairsUpdate(t, b, InsertIntoChain(t[b], kv));
    hide Pairs;
  }

  // --- A resize. ---

  // Of two pairs that would share a bucket among size, the later does not
  // replace the earlier.
  ghost predicate Apart<V>(p: KeyValue<V>, q: KeyValue<V>, size: nat)
    requires 0 < size
  {
    p.key == Narrow(q.key) ==> BucketOf(p.key, size) != BucketOf(q.key, size)
  }

  ghost predicate AllApart<V>(ps: seq<KeyValue<V>>, size: nat)
    requires 0 < size
  {
    forall i, j | 0 <= i < j < |ps| :: Apart(ps[i], ps[j], size)
  }

  // Keys that share a bucket among 9 * n share one among n.
  lemma SameBucketOfFewer(j: Key, k: Key, n: nat)
    requires 0 < n && BucketOf(j, 9 * n) == BucketOf(k, 9 * n)
    ensures BucketOf(j, n) == BucketOf(k, n)
  {
    var a, b := j / (9 * n), k / (9 * n);
    Division(j, 9 * n);
    Division(k, 9 * n);
    Division(j, n);
    Division(k, n);
    MultipleSum(n, 9 * (a - b), k / n - j / n);
    assert (9 * n) * a - (9 * n) * b == n * (9 * (a - b)) by {
      Regroup(n, a, b);
    }
    assert n * (k / n) - n * (j / n) == n * (k / n - j / n) by {
      Distribute(n, k / n, j / n);
    }
    SmallMultiple(n, 9 * (a - b) + (k / n - j / n));
  }

  lemma Division(k: nat, n: nat)
    requires 0 < n
    ensures k == n * (k / n) + k % n && 0 <= k % n < n
  {
  }

  lemma MultipleSum(n: int, x: int, y: int)
    ensures n * x + n * y == n * (x + y)
  {
  }

  lemma Distribute(n: int, x: int, y: int)
    ensures n * x - n * y == n * (x - y)
  {
  }

  lemma Regroup(n: int, a: int, b: int)
    ensures (9 * n) * a - (9 * n) * b == n * (9 * (a - b))
  {
  }

  lemma SmallMultiple(n: int, d: int)
    requires 0 < n && -n < n * d < n
    ensures d == 0
  {
    if d > 0 {
      MultipleSum(n, 1, d - 1);
      NonNegativeProduct(n, d - 1);
    } else if d < 0 {
      MultipleSum(n, -1, d + 1);
      NonNegativeProduct(n, -(d + 1));
    }
  }

  lemma NonNegativeProduct(m: int, n: int)
    requires 0 <= m && 0 <= n
    ensures m * n >= 0 && m * (-n) <= 0
  {
  }

  // Everything of the buckets below m: apart, and in buckets below m.
  lemma {:induction false} BucketsApart<V>(t: Buckets<V>, m: nat)
    requires InOrder(t) && m <= |t|
    ensures AllApart(Pairs(t[..m]), 9 * |t|)
    ensures forall i | 0 <= i < |Pairs(t[..m])| :: BucketOf(Pairs(t[..m])[i].key, |t|) < m
    decreases m
  {
    if m != 0 {
      BucketsApart(t, m - 1);
      assert t[..m][..m - 1] == t[..m - 1];
      ChainApart(Pairs(t[..m - 1]), t[m - 1], |t|, m - 1);
    }
  }

  lemma ChainApart<V>(ps: seq<KeyValue<V>>, chain: Chain<V>, n: nat, b: nat)
    requires 0 < n && AllApart(ps, 9 * n) && ChainIsInOrder(chain)
    requires forall i | 0 <= i < |ps| :: BucketOf(ps[i].key, n) < b
    requires forall i | 0 <= i < |chain| :: BucketOf(chain[i].key, n) == b
    ensures AllApart(ps + chain, 9 * n)
    ensures forall i | 0 <= i < |ps + chain| :: BucketOf((ps + chain)[i].key, n) < b + 1
  {
    var qs := ps + chain;
    hide BucketOf, Narrow;
    forall i, j | 0 <= i < j < |qs|
      ensures Apart(qs[i], qs[j], 9 * n)
    {
      if i < |ps| <= j {
        if BucketOf(qs[i].key, 9 * n) == BucketOf(qs[j].key, 9 * n) {
          SameBucketOfFewer(qs[i].key, qs[j].key, n);
        }
      }
    }
  }

  // Inserting pairs that are apart into an empty table loses none.
  lemma {:induction false} InsertAllHasAll<V>(n: nat, kvs: seq<KeyValue<V>>)
    requires 0 < n && AllApart(kvs, n)
    ensures multiset(Pairs(InsertAll(EmptyBuckets(n), kvs))) == multiset(kvs)
    decreases |kvs|
  {
    if kvs == [] {
      PairsOfEmpty<V>(n);
    } else {
      var init, last := kvs[..|kvs| - 1], kvs[|kvs| - 1];
      var g := InsertAll(EmptyBuckets(n), init);
      InsertAllHasAll(n, init);
      assert kvs == init + [last];
      hide InsertNoResize, Pairs, Find, Apart;
      NothingInTheWay(n, kvs);
      NoneReplaced(g, last);
    }
  }

  lemma NothingInTheWay<V>(n: nat, kvs: seq<KeyValue<V>>)
    requires 0 < n && kvs != [] && AllApart(kvs, n)
    requires multiset(Pairs(InsertAll(EmptyBuckets(n), kvs[..|kvs| - 1]))) == multiset(kvs[..|kvs| - 1])
    ensures Find(InsertAll(EmptyBuckets(n), kvs[..|kvs| - 1]), kvs[|kvs| - 1].key).None?
  {
    var init, last := kvs[..|kvs| - 1], kvs[|kvs| - 1];
    var g := InsertAll(EmptyBuckets(n), init);
    FindsOnlyNarrow(g, last.key);
    FoundInItsBucket(n, init, last.key);
    hide InsertAll, Pairs, Narrow, Find, BucketOf, AllApart, Apart;
    var f := Find(g, last.key);
    if f.Some? {
      SameElements(Pairs(g), init, f.value);
      NotApart(kvs, n, f.value);
    }
  }

  lemma SameElements<T>(s: seq<T>, t: seq<T>, x: T)
    requires multiset(s) == multiset(t) && x in s
    ensures x in t
  {
    assert x in multiset(s);
  }

  lemma NotApart<V>(kvs: seq<KeyValue<V>>, n: nat, p: KeyValue<V>)
    requires 0 < n && kvs != [] && AllApart(kvs, n)
    requires p.key == Narrow(kvs[|kvs| - 1].key) && BucketOf(p.key, n) == BucketOf(kvs[|kvs| - 1].key, n)
    ensures p !in kvs[..|kvs| - 1]
  {
    hide Narrow, BucketOf;
    forall i | 0 <= i < |kvs| - 1
      ensures kvs[i] != p
    {
      assert Apart(kvs[i], kvs[|kvs| - 1], n);
    }
  }

  // What is found for a key lies in the bucket of that key.
  lemma FindsInBucket<V>(t: Buckets<V>, k: Key)
    requires Placed(t)
    ensures Find(t, k).Some? ==> BucketOf(Find(t, k).value.key, |t|) == BucketOf(k, |t|)
  {
  }

  lemma FoundInItsBucket<V>(n: nat, kvs: seq<KeyValue<V>>, k: Key)
    requires 0 < n
    ensures var g := InsertAll(EmptyBuckets<V>(n), kvs);
            Find(g, k).Some? ==> BucketOf(Find(g, k).value.key, n) == BucketOf(k, n)
  {
    var g := InsertAll(EmptyBuckets<V>(n), kvs);
    EmptyInOrder<V>(n);
    InsertAllKeepsPlaced(EmptyBuckets<V>(n), kvs);
    hide InsertAll, Placed, Find;
    FindsInBucket(g, k);
  }

  lemma {:induction false} InsertAllInOrder<V>(t: Buckets<V>, kvs: seq<KeyValue<V>>)
    requires InOrder(t)
    ensures InOrder(InsertAll(t, kvs))
    decreases |kvs|
  {
    assert 0 < |t|;
    hide InOrder, InsertNoResize;
    if kvs != [] {
      InsertAllInOrder(t, kvs[..|kvs| - 1]);
      InsertNoResizeInOrder(InsertAll(t, kvs[..|kvs| - 1]), kvs[|kvs| - 1]);
    }
  }

  // A resize keeps every pair, as often as it is stored, whatever the keys are.
  lemma GrowLosesNothing<V>(t: Buckets<V>)
    requires InOrder(t)
    ensures InOrder(Grow(t)) && multiset(Pairs(Grow(t))) == multiset(Pairs(t))
  {
    if |Pairs(t)| >= 3 * |t| {
      BucketsApart(t, |t|);
      assert t[..|t|] == t;
      EmptyInOrder<V>(9 * |t|);
      hide InOrder, AllApart, InsertAll, Pairs;
      InsertAllInOrder(EmptyBuckets<V>(9 * |t|), Pairs(t));
      InsertAllHasAll(9 * |t|, Pairs(t));
    }
  }

  // --- A whole insertion. ---

  // What a lookup misses before a resize it misses after it.
  lemma StillNotFound<V>(t: Buckets<V>, k: Key)
    requires InOrder(t) && Find(t, k).None?
    ensures Find(Grow(t), k).None?
  {
    var g := Grow(t);
    if Find(g, k).Some? && g != t {
      var p := Find(g, k).value;
      FindsOnlyNarrow(g, k);
      GrowLosesNothing(t);
      assert p in multiset(Pairs(g));
      FoundInItsBucket(9 * |t|, Pairs(t), k);
      SameBucketOfFewer(p.key, k, |t|);
      StoredIsFound(t, k, p);
      assert false;
    }
  }

  lemma StoredIsFound<V>(t: Buckets<V>, k: Key, p: KeyValue<V>)
    requires Placed(t) && p in Pairs(t) && p.key == Narrow(k) && BucketOf(p.key, |t|) == BucketOf(k, |t|)
    ensures Find(t, k).Some?
  {
    PairsAreInBuckets(t, p);
    var b :| 0 <= b < |t| && p in t[b];
    var i :| 0 <= i < |t[b]| && t[b][i] == p;
    assert BucketOf(t[b][i].key, |t|) == b;
  }

  // An insertion for a key that is not found adds its pair and keeps all others,
  // each as often as before.
  lemma InsertAddsOne<V>(t: Buckets<V>, kv: KeyValue<V>)
    requires InOrder(t) && Find(t, kv.key).None?
    ensures InOrder(Insert(t, kv))
    ensures multiset(Pairs(Insert(t, kv))) == multiset(Pairs(t)) + multiset{kv}
  {
    assert 0 < |t|;
    StillNotFound(t, kv.key);
    GrowLosesNothing(t);
    hide Grow, InOrder, InsertNoResize, Pairs, Find;
    InsertNoResizeInOrder(Grow(t), kv);
    NoneReplaced(Grow(t), kv);
  }

  // What follows for membership and sizes.
  lemma InsertHasOneMore<V>(t: Buckets<V>, kv: KeyValue<V>)
    requires InOrder(t) && Find(t, kv.key).None?
    ensures InOrder(Insert(t, kv))
    ensures forall p :: p in Pairs(Insert(t, kv)) <==> p in Pairs(t) || p == kv
    ensures |Pairs(Insert(t, kv))| == |Pairs(t)| + 1
    ensures |Insert(t, kv)| == if |Pairs(t)| < 3 * |t| then |t| else 9 * |t|
  {
    InsertAddsOne(t, kv);
    assert 0 < |t|;
    hide InOrder, InsertNoResize, Pairs, Find;
    OneMoreElement(Pairs(t), kv, Pairs(Insert(t, kv)));
  }

  lemma OneMoreElement<T>(s: seq<T>, x: T, r: seq<T>)
    requires multiset(r) == multiset(s) + multiset{x}
    ensures |r| == |s| + 1 && forall p :: p in r <==> p in s || p == x
  {
    assert |r| == |multiset(r)| && |s| == |multiset(s)|;
    forall p
      ensures p in r <==> p in s || p == x
    {
      assert (p in r <==> p in multiset(r)) && (p in s <==> p in multiset(s));
    }
  }

  // The number of buckets a table has after n insertions of keys not found.
  function BucketsAfter(start: nat, n: nat): (b: nat)
    requires 0 < start
    ensures 0 < b
  {
    if n == 0 then start
    else
      var b := BucketsAfter(start, n - 1);
      if n - 1 < 3 * b then b else 9 * b
  }

  // --- Every table that a run builds is of this kind. ---

  lemma RemoveInOrder<V>(t: Buckets<V>, k: Key)
    requires InOrder(t)
    ensures InOrder(Remove(t, k))
  {
    RemoveKeepsPlaced(t, k);
    hide Placed;
  }

  lemma InsertInOrder<V>(t: Buckets<V>, kv: KeyValue<V>)
    requires InOrder(t)
    ensures InOrder(Grow(t)) && InOrder(Insert(t, kv))
  {
    GrowLosesNothing(t);
    hide InOrder, Grow, InsertNoResize;
    InsertNoResizeInOrder(Grow(t), kv);
  }

  lemma {:induction false} RunsAreInOrder<V>(n: nat, ops: seq<Op<V>>)
    requires 0 < n
    ensures InOrder(RunTable(EmptyBuckets<V>(n), ops).0)
    decreases |ops|
  {
    hide InOrder, Insert, Remove, Grow;
    if ops == [] {
      EmptyInOrder<V>(n);
    } else {
      RunsAreInOrder(n, ops[..|ops| - 1]);
      var t := RunTable(EmptyBuckets<V>(n), ops[..|ops| - 1]).0;
      match ops[|ops| - 1]
      case DoInsert(kv) => InsertInOrder(t, kv);
      case DoFind(_) =>
      case DoRemove(k) => RemoveInOrder(t, k);
    }
  }
}
