// What the operations of hw1/HashTable.c do to the chains, as functions on
// sequences of buckets.  HashTable.dfy proves the C operations against these
// functions; TableLaws.dfy proves what the functions mean.
module ChainTable {
  import opened Wrappers
  import opened LinkedLists

  const TWO_31 := 0x8000_0000
  const TWO_32 := 0x1_0000_0000
  const TWO_64 := 0x1_0000_0000_0000_0000

  // HTKey_t, a uint64_t.
  type Key = k: int | 0 <= k < TWO_64 witness 0

  datatype KeyValue<V> = KeyValue(key: Key, value: V)

  type Chain<V> = seq<KeyValue<V>>
  type Buckets<V> = seq<Chain<V>>

  // hasKey receives its 64-bit key as an int and compares that int with a
  // 64-bit key: only the low 32 bits arrive, and they are sign extended.
  function Narrow(k: Key): Key {
    var low := k % TWO_32;
    if low < TWO_31 then low else TWO_64 - TWO_32 + low
  }

  predicate Survives(k: Key) {
    Narrow(k) == k
  }

  function BucketOf(k: Key, numBuckets: nat): (b: nat)
    requires 0 < numBuckets
    ensures b < numBuckets
  {
    k % numBuckets
  }

  // The first position of key k in a chain, or its length.
  function IndexOf<V>(chain: Chain<V>, k: Key): (i: nat)
    ensures i <= |chain|
    ensures forall j | 0 <= j < i :: chain[j].key != k
    ensures i < |chain| ==> chain[i].key == k
  {
    if chain == [] || chain[0].key == k then 0 else 1 + IndexOf(chain[1..], k)
  }

  // All pairs, bucket by bucket and from head to tail: the order of iteration.
  function Pairs<V>(t: Buckets<V>): seq<KeyValue<V>> {
    if t == [] then [] else Pairs(t[..|t| - 1]) + t[|t| - 1]
  }

  function EmptyBuckets<V>(n: nat): (t: Buckets<V>)
    ensures |t| == n && forall b | 0 <= b < n :: t[b] == []
  {
    seq(n, _ => [])
  }

  // The pair, if any, that hasKey finds for key k.
  function Find<V>(t: Buckets<V>, k: Key): Option<KeyValue<V>>
    requires 0 < |t|
  {
    var chain := t[BucketOf(k, |t|)];
    var i := IndexOf(chain, Narrow(k));
    if i < |chain| then Some(chain[i]) else None
  }

  function InsertIntoChain<V>(chain: Chain<V>, kv: KeyValue<V>): Chain<V> {
    var i := IndexOf(chain, Narrow(kv.key));
    (if i < |chain| then Without(chain, i) else chain) + [kv]
  }

  function InsertNoResize<V>(t: Buckets<V>, kv: KeyValue<V>): Buckets<V>
    requires 0 < |t|
  {
    var b := BucketOf(kv.key, |t|);
    t[b := InsertIntoChain(t[b], kv)]
  }

  function InsertAll<V>(t: Buckets<V>, kvs: seq<KeyValue<V>>): (r: Buckets<V>)
    requires 0 < |t|
    ensures |r| == |t|
  {
    if kvs == [] then t else InsertNoResize(InsertAll(t, kvs[..|kvs| - 1]), kvs[|kvs| - 1])
  }

  // MaybeResize.
  function Grow<V>(t: Buckets<V>): (r: Buckets<V>)
    requires 0 < |t|
    ensures |r| == if |Pairs(t)| < 3 * |t| then |t| else 9 * |t|
  {
    if |Pairs(t)| < 3 * |t| then t else InsertAll(EmptyBuckets(9 * |t|), Pairs(t))
  }

  function Insert<V>(t: Buckets<V>, kv: KeyValue<V>): Buckets<V>
    requires 0 < |t|
  {
    InsertNoResize(Grow(t), kv)
  }

  function Remove<V>(t: Buckets<V>, k: Key): Buckets<V>
    requires 0 < |t|
  {
    var b := BucketOf(k, |t|);
    var i := IndexOf(t[b], Narrow(k));
    if i < |t[b]| then t[b := Without(t[b], i)] else t
  }

  // Every pair is in the bucket its key selects, and the load is at most three.
  ghost predicate Placed<V>(t: Buckets<V>) {
    && 0 < |t|
    && (forall b, i | 0 <= b < |t| && 0 <= i < |t[b]| :: BucketOf(t[b][i].key, |t|) == b)
  }

  ghost predicate WithinLoad<V>(t: Buckets<V>) {
    |Pairs(t)| <= 3 * |t|
  }

  // No key occurs twice.  (Equal keys share a bucket in a table that is Placed.)
  ghost predicate UniqueKeys<V>(t: Buckets<V>) {
    forall b, i, j | 0 <= b < |t| && 0 <= i < j < |t[b]| :: t[b][i].key != t[b][j].key
  }

  // --- Counting and positions. ---

  // Where bucket b starts in the order of iteration.
  ghost function Offset<V>(t: Buckets<V>, b: nat): nat
    requires b <= |t|
  {
    |Pairs(t[..b])|
  }

  lemma {:induction false} PairsSplit<V>(t: Buckets<V>, b: nat)
    requires b < |t|
    ensures Pairs(t) == Pairs(t[..b]) + t[b] + Pairs(t[b + 1..])
    decreases |t|
  {
    var n := |t| - 1;
    if b == n {
      assert t[b + 1..] == [];
    } else {
      var init := t[..n];
      PairsSplit(init, b);
      assert init[..b] == t[..b];
      assert t[b + 1..][..n - b - 1] == init[b + 1..];
      assert Pairs(t[b + 1..]) == Pairs(init[b + 1..]) + t[n];
    }
  }

  lemma {:induction false} PairsUpdate<V>(t: Buckets<V>, b: nat, chain: Chain<V>)
    requires b < |t|
    ensures Pairs(t[b := chain]) == Pairs(t[..b]) + chain + Pairs(t[b + 1..])
  {
    var r := t[b := chain];
    PairsSplit(r, b);
    assert r[..b] == t[..b] && r[b + 1..] == t[b + 1..];
  }

  lemma {:induction false} PairAt<V>(t: Buckets<V>, b: nat, i: nat)
    requires b < |t| && i < |t[b]|
    ensures Offset(t, b) + i < |Pairs(t)| && Pairs(t)[Offset(t, b) + i] == t[b][i]
  {
    PairsSplit(t, b);
  }

  lemma {:induction false} OffsetSteps<V>(t: Buckets<V>, b: nat)
    requires b < |t|
    ensures Offset(t, b + 1) == Offset(t, b) + |t[b]|
  {
    assert t[..b + 1][..b] == t[..b];
  }

  lemma {:induction false} OffsetsAscend<V>(t: Buckets<V>, b: nat, c: nat)
    requires b < c <= |t|
    ensures Offset(t, b) + |t[b]| <= Offset(t, c)
    decreases c
  {
    OffsetSteps(t, c - 1);
    if b < c - 1 {
      OffsetsAscend(t, b, c - 1);
    }
  }

  lemma OffsetEnds<V>(t: Buckets<V>)
    ensures Offset(t, 0) == 0 && Offset(t, |t|) == |Pairs(t)|
  {
    assert t[..|t|] == t;
  }

  lemma {:induction false} PairsOfEmpty<V>(n: nat)
    ensures Pairs(EmptyBuckets<V>(n)) == []
    decreases n
  {
    if n != 0 {
      PairsOfEmpty<V>(n - 1);
      assert EmptyBuckets<V>(n)[..n - 1] == EmptyBuckets<V>(n - 1);
    }
  }

  // Insertion adds one pair unless hasKey finds one to replace; removal takes
  // one away exactly when hasKey finds one.
  lemma {:induction false} CountAfterInsert<V>(t: Buckets<V>, kv: KeyValue<V>)
    requires 0 < |t|
    ensures |Pairs(InsertNoResize(t, kv))| == |Pairs(t)| + if Find(t, kv.key).Some? then 0 else 1
  {
    var b := BucketOf(kv.key, |t|);
    PairsSplit(t, b);
    PairsUpdate(t, b, InsertIntoChain(t[b], kv));
  }

  lemma {:induction false} CountAfterRemove<V>(t: Buckets<V>, k: Key)
    requires 0 < |t|
    ensures |Pairs(Remove(t, k))| == |Pairs(t)| - if Find(t, k).Some? then 1 else 0
  {
    var b := BucketOf(k, |t|);
    var i := IndexOf(t[b], Narrow(k));
    PairsSplit(t, b);
    if i < |t[b]| {
      PairsUpdate(t, b, Without(t[b], i));
    }
  }

  lemma {:induction false} CountAfterInsertAll<V>(t: Buckets<V>, kvs: seq<KeyValue<V>>)
    requires 0 < |t|
    ensures |Pairs(InsertAll(t, kvs))| <= |Pairs(t)| + |kvs|
    decreases |kvs|
  {
    if kvs != [] {
      var init := kvs[..|kvs| - 1];
      CountAfterInsertAll(t, init);
      CountAfterInsert(InsertAll(t, init), kvs[|kvs| - 1]);
    }
  }

  lemma InsertAllOneMore<V>(t: Buckets<V>, kvs: seq<KeyValue<V>>, i: nat)
    requires 0 < |t| && i < |kvs|
    ensures InsertAll(t, kvs[..i + 1]) == InsertNoResize(InsertAll(t, kvs[..i]), kvs[i])
    ensures InsertAll(t, kvs[..0]) == t && kvs[..|kvs|] == kvs
  {
    assert kvs[..i + 1][..i] == kvs[..i];
  }

  // Taking pair i out of bucket b moves every later pair one place forward.
  lemma {:induction false} PairsAfterTakingOut<V>(t: Buckets<V>, b: nat, i: nat)
    requires b < |t| && i < |t[b]|
    ensures Offset(t, b) + i < |Pairs(t)|
    ensures var t' := t[b := Without(t[b], i)];
            && Pairs(t') == Without(Pairs(t), Offset(t, b) + i)
            && (forall c | 0 <= c <= |t| :: Offset(t', c) == Offset(t, c) - if c <= b then 0 else 1)
  {
    var t' := t[b := Without(t[b], i)];
    PairsSplit(t, b);
    PairsUpdate(t, b, Without(t[b], i));
    forall c | 0 <= c <= |t|
      ensures Offset(t', c) == Offset(t, c) - if c <= b then 0 else 1
    {
      if c <= b {
        assert t'[..c] == t[..c];
      } else {
        PairsSplit(t[..c], b);
        PairsUpdate(t[..c], b, Without(t[b], i));
        assert t'[..c] == t[..c][b := Without(t[b], i)];
      }
    }
  }

  // --- Placement. ---

  lemma {:induction false} InsertKeepsPlaced<V>(t: Buckets<V>, kv: KeyValue<V>)
    requires Placed(t)
    ensures Placed(InsertNoResize(t, kv))
  {
    var b := BucketOf(kv.key, |t|);
    var chain := InsertIntoChain(t[b], kv);
    forall i | 0 <= i < |chain|
      ensures BucketOf(chain[i].key, |t|) == b
    {
    }
  }

  lemma {:induction false} RemoveKeepsPlaced<V>(t: Buckets<V>, k: Key)
    requires Placed(t)
    ensures Placed(Remove(t, k))
  {
  }

  lemma {:induction false} InsertAllKeepsPlaced<V>(t: Buckets<V>, kvs: seq<KeyValue<V>>)
    requires Placed(t)
    ensures Placed(InsertAll(t, kvs))
    decreases |kvs|
  {
    if kvs != [] {
      InsertAllKeepsPlaced(t, kvs[..|kvs| - 1]);
      InsertKeepsPlaced(InsertAll(t, kvs[..|kvs| - 1]), kvs[|kvs| - 1]);
    }
  }

  // A resize leaves the load strictly below three, so inserting one more pair
  // stays within it and the table being filled never resizes itself.
  lemma {:induction false} GrowMakesRoom<V>(t: Buckets<V>)
    requires Placed(t) && WithinLoad(t)
    ensures Placed(Grow(t)) && |Pairs(Grow(t))| < 3 * |Grow(t)|
  {
    if |Pairs(t)| >= 3 * |t| {
      PairsOfEmpty<V>(9 * |t|);
      CountAfterInsertAll(EmptyBuckets(9 * |t|), Pairs(t));
      InsertAllKeepsPlaced(EmptyBuckets(9 * |t|), Pairs(t));
    }
  }

  lemma {:induction false} InsertKeepsInvariant<V>(t: Buckets<V>, kv: KeyValue<V>)
    requires Placed(t) && WithinLoad(t)
    ensures Placed(Insert(t, kv)) && WithinLoad(Insert(t, kv))
  {
    GrowMakesRoom(t);
    InsertKeepsPlaced(Grow(t), kv);
    CountAfterInsert(Grow(t), kv);
  }

  lemma {:induction false} RemoveKeepsInvariant<V>(t: Buckets<V>, k: Key)
    requires Placed(t) && WithinLoad(t)
    ensures Placed(Remove(t, k)) && WithinLoad(Remove(t, k))
  {
    RemoveKeepsPlaced(t, k);
    CountAfterRemove(t, k);
  }
}
