// What a hash table stores, as buckets of entries, independent of how it is laid
// out in a file: which bucket an entry is in, and what a walk over all buckets
// has to do with looking up one key.
module StoredTables {
  datatype Entry<K, V> = Entry(key: K, value: V)

  type Buckets<K, V> = seq<seq<Entry<K, V>>>

  // There is an entry j in bucket b.
  predicate IsEntry<K, V>(t: Buckets<K, V>, b: nat, j: nat) {
    b < |t| && j < |t[b]|
  }

  // Every entry is in the bucket that its hash selects.
  ghost predicate InTheirBuckets<K, V>(t: Buckets<K, V>, hash: K -> nat) {
    && 0 < |t|
    && forall b: nat, j: nat | IsEntry(t, b, j) :: hash(t[b][j].key) % |t| == b
  }

  // No bucket has two entries with the same key.
  ghost predicate KeysDiffer<K, V>(t: Buckets<K, V>) {
    forall b: nat, i: nat, j: nat | IsEntry(t, b, i) && IsEntry(t, b, j) && i != j :: t[b][i].key != t[b][j].key
  }

  ghost predicate Stores<K, V>(t: Buckets<K, V>, key: K, value: V) {
    exists b: nat, j: nat :: IsEntry(t, b, j) && t[b][j] == Entry(key, value)
  }

  ghost predicate StoresKey<K, V>(t: Buckets<K, V>, key: K) {
    exists b: nat, j: nat :: IsEntry(t, b, j) && t[b][j].key == key
  }

  // A search of the one bucket that the hash selects misses nothing.
  lemma BucketDecides<K, V>(t: Buckets<K, V>, hash: K -> nat, key: K)
    requires InTheirBuckets(t, hash)
    ensures StoresKey(t, key) <==> exists j: nat :: IsEntry(t, hash(key) % |t|, j) && t[hash(key) % |t|][j].key == key
  {
    var b0 := hash(key) % |t|;
    if j: nat :| IsEntry(t, b0, j) && t[b0][j].key == key {
      assert StoresKey(t, key);
    }
  }

  // What is stored under a key is unique, over all buckets.
  lemma StoresOnce<K, V>(t: Buckets<K, V>, hash: K -> nat, key: K, v: V, w: V)
    requires InTheirBuckets(t, hash) && KeysDiffer(t)
    requires Stores(t, key, v) && Stores(t, key, w)
    ensures v == w
  {
    var b: nat, i: nat :| IsEntry(t, b, i) && t[b][i] == Entry(key, v);
    var c: nat, j: nat :| IsEntry(t, c, j) && t[c][j] == Entry(key, w);
    assert b == hash(key) % |t| == c;
  }

  // The entries of the buckets below n, bucket by bucket.
  function EntriesBefore<K, V>(t: Buckets<K, V>, n: nat): seq<Entry<K, V>>
    requires n <= |t|
  {
    if n == 0 then [] else EntriesBefore(t, n - 1) + t[n - 1]
  }

  ghost predicate AllKeysDiffer<K, V>(es: seq<Entry<K, V>>) {
    forall i, j | 0 <= i < j < |es| :: es[i].key != es[j].key
  }

  // The bucket and index of an entry that the walk has passed.
  lemma {:induction false} WhereItIs<K, V>(t: Buckets<K, V>, n: nat, k: nat) returns (b: nat, j: nat)
    requires n <= |t| && k < |EntriesBefore(t, n)|
    ensures b < n && IsEntry(t, b, j) && t[b][j] == EntriesBefore(t, n)[k]
    decreases n
  {
    var init := EntriesBefore(t, n - 1);
    if k < |init| {
      b, j := WhereItIs(t, n - 1, k);
    } else {
      b, j := n - 1, k - |init|;
    }
  }

  lemma {:induction false} WalkPassesAll<K, V>(t: Buckets<K, V>, n: nat, b: nat, j: nat) returns (k: nat)
    requires n <= |t| && b < n && IsEntry(t, b, j)
    ensures k < |EntriesBefore(t, n)| && EntriesBefore(t, n)[k] == t[b][j]
    decreases n
  {
    if b < n - 1 {
      k := WalkPassesAll(t, n - 1, b, j);
    } else {
      k := |EntriesBefore(t, n - 1)| + j;
    }
  }

  // The walk meets no key twice.
  lemma {:induction false} WalkMeetsOnce<K, V>(t: Buckets<K, V>, hash: K -> nat, n: nat)
    requires InTheirBuckets(t, hash) && KeysDiffer(t) && n <= |t|
    ensures AllKeysDiffer(EntriesBefore(t, n))
    decreases n
  {
    if n > 0 {
      WalkMeetsOnce(t, hash, n - 1);
      var es, init, last := EntriesBefore(t, n), EntriesBefore(t, n - 1), t[n - 1];
      forall x, y | 0 <= x < y < |es| ensures es[x].key != es[y].key {
        if |init| <= x {
          assert IsEntry(t, n - 1, x - |init|) && IsEntry(t, n - 1, y - |init|);
        } else if |init| <= y {
          var b, j := WhereItIs(t, n - 1, x);
          assert IsEntry(t, n - 1, y - |init|);
        }
      }
    }
  }

  // The walk over all buckets meets exactly the entries that are stored, each once.
  lemma WalkIsStored<K, V>(t: Buckets<K, V>, hash: K -> nat, key: K, value: V)
    requires InTheirBuckets(t, hash) && KeysDiffer(t)
    ensures AllKeysDiffer(EntriesBefore(t, |t|))
    ensures Stores(t, key, value) <==>
            exists k :: 0 <= k < |EntriesBefore(t, |t|)| && EntriesBefore(t, |t|)[k] == Entry(key, value)
  {
    WalkMeetsOnce(t, hash, |t|);
    var es := EntriesBefore(t, |t|);
    if Stores(t, key, value) {
      var b: nat, j: nat :| IsEntry(t, b, j) && t[b][j] == Entry(key, value);
      var k := WalkPassesAll(t, |t|, b, j);
      assert es[k] == Entry(key, value);
    }
    if k :| 0 <= k < |es| && es[k] == Entry(key, value) {
      var b, j := WhereItIs(t, |t|, k);
      assert IsEntry(t, b, j);
    }
  }
}
