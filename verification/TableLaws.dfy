// What the table functions of ChainTable.dfy mean: on keys that survive the
// int parameter of hasKey, a hash table is a finite map, through any run of
// operations and any resizes inside it.
module TableLaws {
  import opened Wrappers
  import opened LinkedLists
  import opened ChainTable

  // --- Which keys survive. ---

  lemma SurvivesExactly(k: Key)
    ensures Survives(k) <==> k < TWO_31 || TWO_64 - TWO_31 <= k
  {
  }

  // The narrowed key is the one key with the same low 32 bits that a C int holds,
  // sign extended.
  lemma NarrowIs(k: Key, j: Key)
    ensures Narrow(k) == j <==> j % 0x1_0000_0000 == k % 0x1_0000_0000 && (j < TWO_31 || TWO_64 - TWO_31 <= j)
    ensures Survives(Narrow(k))
  {
  }

  // In a table that is placed, the bucket of a pair is its key modulo their number.
  lemma PlacedModulo<V>(t: Buckets<V>, b: nat, i: nat)
    requires Placed(t) && b < |t| && i < |t[b]|
    ensures t[b][i].key % |t| == b
  {
  }

  // --- The finite map a table represents. ---

  // A table whose keys all survive, each stored once and in its own bucket.
  ghost predicate Canonical<V>(t: Buckets<V>) {
    && Placed(t) && UniqueKeys(t)
    && forall b, i | 0 <= b < |t| && 0 <= i < |t[b]| :: Survives(t[b][i].key)
  }

  // The value stored under exactly this key.
  function Lookup<V>(t: Buckets<V>, k: Key): Option<V>
    requires 0 < |t|
  {
    var chain := t[BucketOf(k, |t|)];
    var i := IndexOf(chain, k);
    if i < |chain| then Some(chain[i].value) else None
  }

  ghost function Keys<V>(t: Buckets<V>): set<Key> {
    set p | p in Pairs(t) :: p.key
  }

  ghost function MapOf<V>(t: Buckets<V>): map<Key, V> {
    map k | k in Keys(t) && 0 < |t| && Lookup(t, k).Some? :: Lookup(t, k).value
  }

  lemma {:induction false} PairsAreInBuckets<V>(t: Buckets<V>, kv: KeyValue<V>)
    ensures kv in Pairs(t) <==> exists b :: 0 <= b < |t| && kv in t[b]
    decreases |t|
  {
    if t != [] {
      var n := |t| - 1;
      PairsAreInBuckets(t[..n], kv);
      assert kv in Pairs(t) <==> kv in Pairs(t[..n]) || kv in t[n];
      if b :| 0 <= b < |t| && kv in t[b] {
        assert b < n ==> kv in t[..n][b];
      }
    }
  }

  lemma {:induction false} LookupIff<V>(t: Buckets<V>, k: Key, v: V)
    requires Placed(t) && UniqueKeys(t)
    ensures Lookup(t, k) == Some(v) <==> KeyValue(k, v) in Pairs(t)
  {
    var kv := KeyValue(k, v);
    PairsAreInBuckets(t, kv);
    var chain := t[BucketOf(k, |t|)];
    if kv in Pairs(t) {
      var b :| 0 <= b < |t| && kv in t[b];
      var i :| 0 <= i < |t[b]| && t[b][i] == kv;
      assert BucketOf(t[b][i].key, |t|) == b;
      assert IndexOf(chain, k) == i;
    }
  }

  lemma MapOfIs<V>(t: Buckets<V>, k: Key)
    requires Placed(t) && UniqueKeys(t)
    ensures k in MapOf(t) <==> Lookup(t, k).Some?
    ensures k in MapOf(t) ==> Lookup(t, k) == Some(MapOf(t)[k])
  {
    if Lookup(t, k).Some? {
      LookupIff(t, k, Lookup(t, k).value);
      assert KeyValue(k, Lookup(t, k).value) in Pairs(t);
    }
  }

  // Two tables with equal lookups represent the same map, and so on for a map
  // that is given otherwise.
  lemma MapOfEquals<V>(t: Buckets<V>, m: map<Key, V>)
    requires Placed(t) && UniqueKeys(t)
    requires forall k :: Lookup(t, k) == if k in m then Some(m[k]) else None
    ensures MapOf(t) == m
  {
    forall k: Key
      ensures k in MapOf(t) <==> k in m
      ensures k in MapOf(t) ==> MapOf(t)[k] == m[k]
    {
      MapOfIs(t, k);
    }
  }

  // --- Each operation, on lookups. ---

  lemma {:induction false} IndexOfIs<V>(chain: Chain<V>, k: Key, i: nat)
    requires i < |chain| && chain[i].key == k
    requires forall j | 0 <= j < |chain| && j != i :: chain[j].key != k
    ensures IndexOf(chain, k) == i
  {
  }

  // The chain after an insertion, element by element.
  lemma InsertIntoChainAt<V>(chain: Chain<V>, kv: KeyValue<V>)
    ensures var c := InsertIntoChain(chain, kv); var r := IndexOf(chain, Narrow(kv.key));
            && |c| == (if r < |chain| then |chain| else |chain| + 1)
            && (forall j | 0 <= j < |c| - 1 :: c[j] == chain[if j < r then j else j + 1])
            && c[|c| - 1] == kv
  {
  }

  lemma {:induction false} ChainInsertLookup<V>(chain: Chain<V>, kv: KeyValue<V>, k: Key)
    requires forall i, j | 0 <= i < j < |chain| :: chain[i].key != chain[j].key
    requires Survives(kv.key)
    ensures var c := InsertIntoChain(chain, kv);
            && (forall i, j | 0 <= i < j < |c| :: c[i].key != c[j].key)
            && var i := IndexOf(c, k);
               (if i < |c| then Some(c[i].value) else None) ==
               if k == kv.key then Some(kv.value)
               else if IndexOf(chain, k) < |chain| then Some(chain[IndexOf(chain, k)].value) else None
  {
    var c := InsertIntoChain(chain, kv);
    var r := IndexOf(chain, kv.key);
    InsertIntoChainAt(chain, kv);
    hide InsertIntoChain, IndexOf;
    if k == kv.key {
      IndexOfIs(c, k, |c| - 1);
    } else {
      var i := IndexOf(chain, k);
      if i < |chain| {
        IndexOfIs(c, k, if i < r then i else i - 1);
      }
    }
  }

  lemma {:induction false} InsertNoResizeLookup<V>(t: Buckets<V>, kv: KeyValue<V>, k: Key)
    requires Canonical(t) && Survives(kv.key)
    ensures Lookup(InsertNoResize(t, kv), k) == if k == kv.key then Some(kv.value) else Lookup(t, k)
  {
    ChainInsertLookup(t[BucketOf(kv.key, |t|)], kv, k);
  }

  lemma {:induction false} InsertNoResizeCanonical<V>(t: Buckets<V>, kv: KeyValue<V>)
    requires Canonical(t) && Survives(kv.key)
    ensures Canonical(InsertNoResize(t, kv))
  {
    var b := BucketOf(kv.key, |t|);
    ChainInsertLookup(t[b], kv, kv.key);
    InsertIntoChainAt(t[b], kv);
    InsertKeepsPlaced(t, kv);
    var r: Buckets<V> := InsertNoResize(t, kv);
    forall c, i | 0 <= c < |r| && 0 <= i < |r[c]|
      ensures Survives(r[c][i].key)
    {
      assert c == b ==> i == |r[b]| - 1 || exists j :: 0 <= j < |t[b]| && r[b][i] == t[b][j];
    }
  }

  lemma {:induction false} InsertAllCanonical<V>(t: Buckets<V>, kvs: seq<KeyValue<V>>)
    requires Canonical(t) && forall p | p in kvs :: Survives(p.key)
    ensures Canonical(InsertAll(t, kvs))
    decreases |kvs|
  {
    if kvs != [] {
      InsertAllCanonical(t, kvs[..|kvs| - 1]);
      InsertNoResizeCanonical(InsertAll(t, kvs[..|kvs| - 1]), kvs[|kvs| - 1]);
    }
  }

  lemma {:induction false} InsertAllLookup<V>(t: Buckets<V>, kvs: seq<KeyValue<V>>, k: Key)
    requires Canonical(t) && forall p | p in kvs :: Survives(p.key)
    requires forall i, j | 0 <= i < j < |kvs| :: kvs[i].key != kvs[j].key
    ensures forall i | 0 <= i < |kvs| && kvs[i].key == k :: Lookup(InsertAll(t, kvs), k) == Some(kvs[i].value)
    ensures (forall i | 0 <= i < |kvs| :: kvs[i].key != k) ==> Lookup(InsertAll(t, kvs), k) == Lookup(t, k)
    decreases |kvs|
  {
    if kvs != [] {
      var init, last := kvs[..|kvs| - 1], kvs[|kvs| - 1];
      InsertAllCanonical(t, init);
      InsertAllLookup(t, init, k);
      InsertNoResizeLookup(InsertAll(t, init), last, k);
      assert forall i | 0 <= i < |init| :: init[i] == kvs[i];
    }
  }

  lemma {:induction false} PairsHaveUniqueKeys<V>(t: Buckets<V>)
    requires Placed(t) && UniqueKeys(t)
    ensures forall i, j | 0 <= i < j < |Pairs(t)| :: Pairs(t)[i].key != Pairs(t)[j].key
  {
    PrefixHasUniqueKeys(t, |t|);
    assert t[..|t|] == t;
  }

  ghost predicate DistinctKeysBelow<V>(ps: seq<KeyValue<V>>, size: nat, n: nat)
    requires 0 < size
  {
    && (forall i, j | 0 <= i < j < |ps| :: ps[i].key != ps[j].key)
    && (forall i | 0 <= i < |ps| :: BucketOf(ps[i].key, size) < n)
  }

  lemma {:induction false} PrefixHasUniqueKeys<V>(t: Buckets<V>, n: nat)
    requires Placed(t) && UniqueKeys(t) && n <= |t|
    ensures DistinctKeysBelow(Pairs(t[..n]), |t|, n)
    decreases n
  {
    if n != 0 {
      PrefixHasUniqueKeys(t, n - 1);
      assert t[..n][..n - 1] == t[..n - 1];
      AppendBucket(Pairs(t[..n - 1]), t[n - 1], |t|, n - 1);
    }
  }

  lemma AppendBucket<V>(ps: seq<KeyValue<V>>, chain: Chain<V>, size: nat, b: nat)
    requires 0 < size && DistinctKeysBelow(ps, size, b)
    requires forall i | 0 <= i < |chain| :: BucketOf(chain[i].key, size) == b
    requires forall i, j | 0 <= i < j < |chain| :: chain[i].key != chain[j].key
    ensures DistinctKeysBelow(ps + chain, size, b + 1)
  {
    var qs := ps + chain;
    forall i | 0 <= i < |qs|
      ensures BucketOf(qs[i].key, size) < b + 1
      ensures i < |ps| <==> BucketOf(qs[i].key, size) != b
    {
      assert qs[i] == if i < |ps| then ps[i] else chain[i - |ps|];
    }
  }

  lemma PairsSurvive<V>(t: Buckets<V>)
    requires Canonical(t)
    ensures forall p | p in Pairs(t) :: Survives(p.key)
  {
    forall p | p in Pairs(t)
      ensures Survives(p.key)
    {
      PairsAreInBuckets(t, p);
      var b :| 0 <= b < |t| && p in t[b];
      var i :| 0 <= i < |t[b]| && t[b][i] == p;
    }
  }

  // --- The finite-map laws. ---

  // A resize changes the buckets and nothing that a caller can see.
  lemma {:induction false} GrowKeepsMap<V>(t: Buckets<V>)
    requires Canonical(t)
    ensures Canonical(Grow(t)) && MapOf(Grow(t)) == MapOf(t)
  {
    if |Pairs(t)| >= 3 * |t| {
      var empty, kvs := EmptyBuckets(9 * |t|), Pairs(t);
      PairsSurvive(t);
      PairsHaveUniqueKeys(t);
      InsertAllCanonical(empty, kvs);
      forall k: Key
        ensures Lookup(Grow(t), k) == if k in MapOf(t) then Some(MapOf(t)[k]) else None
      {
        InsertAllLookup(empty, kvs, k);
        MapOfIs(t, k);
        if k in MapOf(t) {
          LookupIff(t, k, MapOf(t)[k]);
          var i :| 0 <= i < |kvs| && kvs[i] == KeyValue(k, MapOf(t)[k]);
        } else {
          forall i | 0 <= i < |kvs|
            ensures kvs[i].key != k
          {
            LookupIff(t, k, kvs[i].value);
          }
        }
      }
      MapOfEquals(Grow(t), MapOf(t));
    }
  }

  // The pair hasKey finds, for a key that survives, is the pair of that key.
  lemma FindReadsMap<V>(t: Buckets<V>, k: Key)
    requires Canonical(t) && Survives(k)
    ensures Find(t, k) == if k in MapOf(t) then Some(KeyValue(k, MapOf(t)[k])) else None
  {
    MapOfIs(t, k);
  }

  lemma {:induction false} InsertUpdatesMap<V>(t: Buckets<V>, kv: KeyValue<V>)
    requires Canonical(t) && Survives(kv.key)
    ensures Canonical(Insert(t, kv)) && MapOf(Insert(t, kv)) == MapOf(t)[kv.key := kv.value]
    ensures Find(Grow(t), kv.key) == if kv.key in MapOf(t) then Some(KeyValue(kv.key, MapOf(t)[kv.key])) else None
  {
    GrowKeepsMap(t);
    var g := Grow(t);
    FindReadsMap(g, kv.key);
    InsertNoResizeCanonical(g, kv);
    var m := MapOf(t)[kv.key := kv.value];
    forall k: Key
      ensures Lookup(Insert(t, kv), k) == if k in m then Some(m[k]) else None
    {
      InsertNoResizeLookup(g, kv, k);
      MapOfIs(g, k);
    }
    MapOfEquals(Insert(t, kv), m);
  }

  lemma {:induction false} ChainRemoveLookup<V>(chain: Chain<V>, r: nat, k: Key)
    requires r < |chain| && forall i, j | 0 <= i < j < |chain| :: chain[i].key != chain[j].key
    ensures var c := Without(chain, r);
            && (forall i, j | 0 <= i < j < |c| :: c[i].key != c[j].key)
            && var i := IndexOf(c, k);
               (if i < |c| then Some(c[i].value) else None) ==
               if k == chain[r].key || IndexOf(chain, k) == |chain| then None
               else Some(chain[IndexOf(chain, k)].value)
  {
    var c := Without(chain, r);
    var i := IndexOf(chain, k);
    if i < |chain| && i != r {
      IndexOfIs(c, k, if i < r then i else i - 1);
    }
  }

  lemma RemoveCanonical<V>(t: Buckets<V>, k: Key)
    requires Canonical(t) && Survives(k)
    ensures Canonical(Remove(t, k))
  {
    RemoveKeepsPlaced(t, k);
    hide Placed, IndexOf;
  }

  lemma RemoveLookup<V>(t: Buckets<V>, k: Key, q: Key)
    requires Canonical(t) && Survives(k)
    ensures Lookup(Remove(t, k), q) == if q == k then None else Lookup(t, q)
  {
    var b := BucketOf(k, |t|);
    var r := IndexOf(t[b], k);
    hide Placed, IndexOf;
    if r < |t[b]| {
      ChainRemoveLookup(t[b], r, q);
    }
  }

  lemma {:induction false} RemoveShrinksMap<V>(t: Buckets<V>, k: Key)
    requires Canonical(t) && Survives(k)
    ensures Canonical(Remove(t, k)) && MapOf(Remove(t, k)) == MapOf(t) - {k}
  {
    RemoveCanonical(t, k);
    var m := MapOf(t) - {k};
    forall q: Key
      ensures Lookup(Remove(t, k), q) == if q in m then Some(m[q]) else None
    {
      RemoveLookup(t, k, q);
      MapOfIs(t, q);
    }
    hide Lookup, Remove, Placed, UniqueKeys, MapOf;
    MapOfEquals(Remove(t, k), m);
  }

  lemma EmptyIsEmptyMap<V>(n: nat)
    requires 0 < n
    ensures Canonical(EmptyBuckets<V>(n)) && MapOf(EmptyBuckets<V>(n)) == map[]
  {
    MapOfEquals(EmptyBuckets<V>(n), map[]);
  }

  // NumElements is the size of the map.
  lemma {:induction false} CountIsMapSize<V>(t: Buckets<V>)
    requires Placed(t) && UniqueKeys(t)
    ensures |Pairs(t)| == |MapOf(t)| && MapOf(t).Keys == Keys(t)
  {
    var ps := Pairs(t);
    PairsHaveUniqueKeys(t);
    DistinctKeysCount(ps);
    forall k
      ensures k in MapOf(t) <==> k in Keys(t)
    {
      MapOfIs(t, k);
      if k in Keys(t) {
        var p :| p in ps && p.key == k;
        LookupIff(t, k, p.value);
        assert p == KeyValue(k, p.value);
      }
    }
    assert MapOf(t).Keys == Keys(t);
  }

  lemma {:induction false} DistinctKeysCount<V>(ps: seq<KeyValue<V>>)
    requires forall i, j | 0 <= i < j < |ps| :: ps[i].key != ps[j].key
    ensures |set p | p in ps :: p.key| == |ps|
    decreases |ps|
  {
    if ps != [] {
      var init, last := ps[..|ps| - 1], ps[|ps| - 1];
      DistinctKeysCount(init);
      var ks := set p | p in init :: p.key;
      assert last.key !in ks;
      assert (set p | p in ps :: p.key) == ks + {last.key} by {
        forall p | p in ps
          ensures p in init || p == last
        {
        }
        assert last in ps;
        assert forall p | p in init :: p in ps;
      }
    }
  }

  // --- Whole runs. ---

  datatype Op<V> = DoInsert(kv: KeyValue<V>) | DoFind(key: Key) | DoRemove(k: Key)

  function OpKey<V>(op: Op<V>): Key {
    match op
    case DoInsert(kv) => kv.key
    case DoFind(k) => k
    case DoRemove(k) => k
  }

  // What the C code leaves in the table, returns, and writes to its out
  // parameter; the flag is always whether the out parameter is set.
  function StepTable<V>(t: Buckets<V>, op: Op<V>): (Buckets<V>, Option<KeyValue<V>>)
    requires 0 < |t|
  {
    match op
    case DoInsert(kv) => (Insert(t, kv), Find(Grow(t), kv.key))
    case DoFind(k) => (t, Find(t, k))
    case DoRemove(k) => (Remove(t, k), Find(t, k))
  }

  function StepMap<V>(m: map<Key, V>, op: Op<V>): (map<Key, V>, Option<KeyValue<V>>) {
    var k := OpKey(op);
    var previous := if k in m then Some(KeyValue(k, m[k])) else None;
    match op
    case DoInsert(kv) => (m[kv.key := kv.value], previous)
    case DoFind(_) => (m, previous)
    case DoRemove(_) => (m - {k}, previous)
  }

  function RunTable<V>(t: Buckets<V>, ops: seq<Op<V>>): (r: (Buckets<V>, seq<Option<KeyValue<V>>>))
    requires 0 < |t|
    ensures 0 < |r.0|
  {
    if ops == [] then (t, [])
    else
      var (t1, outs) := RunTable(t, ops[..|ops| - 1]);
      var (t2, out) := StepTable(t1, ops[|ops| - 1]);
      (t2, outs + [out])
  }

  function RunMap<V>(m: map<Key, V>, ops: seq<Op<V>>): (map<Key, V>, seq<Option<KeyValue<V>>>) {
    if ops == [] then (m, [])
    else
      var (m1, outs) := RunMap(m, ops[..|ops| - 1]);
      var (m2, out) := StepMap(m1, ops[|ops| - 1]);
      (m2, outs + [out])
  }

  // Any run of operations on a fresh table gives the outputs a finite map
  // gives, whatever resizes happen, and its invariants hold throughout.
  lemma {:induction false} RunsRefineMap<V>(n: nat, ops: seq<Op<V>>)
    requires 0 < n && forall op | op in ops :: Survives(OpKey(op))
    ensures var (t, outs) := RunTable(EmptyBuckets<V>(n), ops);
            && Canonical(t) && WithinLoad(t)
            && (MapOf(t), outs) == RunMap(map[], ops)
            && |Pairs(t)| == |RunMap(map[], ops).0|
    decreases |ops|
  {
    var empty := EmptyBuckets<V>(n);
    var (t, outs) := RunTable(empty, ops);
    if ops == [] {
      EmptyIsEmptyMap<V>(n);
      PairsOfEmpty<V>(n);
    } else {
      var init, op := ops[..|ops| - 1], ops[|ops| - 1];
      RunsRefineMap(n, init);
      StepRefinesMap(RunTable(empty, init).0, op);
    }
    CountIsMapSize(t);
  }

  lemma StepRefinesMap<V>(t: Buckets<V>, op: Op<V>)
    requires Canonical(t) && WithinLoad(t) && Survives(OpKey(op))
    ensures var (t', out) := StepTable(t, op);
            Canonical(t') && WithinLoad(t') && (MapOf(t'), out) == StepMap(MapOf(t), op)
  {
    FindReadsMap(t, OpKey(op));
    match op
    case DoInsert(kv) =>
      InsertUpdatesMap(t, kv);
      InsertKeepsInvariant(t, kv);
    case DoFind(_) =>
    case DoRemove(k) =>
      RemoveShrinksMap(t, k);
      RemoveKeepsInvariant(t, k);
  }
}
