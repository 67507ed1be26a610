// The chained, self-resizing hash table of hw1 and its iterator, proved
// against the functions of ChainTable.dfy.  Every Verify333 of the original is
// an assertion or a precondition that its callers establish.
module HashTables {
  import opened Wrappers
  import opened LinkedLists
  import opened ChainTable
  import opened SurvivorLaws

  class HashTable<V> {
    var numBuckets: nat
    var numElements: nat
    var buckets: array<LinkedList<KeyValue<V>>>

    ghost var Contents: Buckets<V>   // the chains, bucket by bucket
    ghost var Repr: set<object>

    ghost predicate Valid()
      reads this, Repr
      ensures Valid() ==> this in Repr
    {
      && Chained()
      && Placed(Contents) && WithinLoad(Contents)
      && numElements == |Pairs(Contents)|
    }

    // The bucket array holds separate lists, and they represent Contents.
    ghost predicate Chained()
      reads this, Repr
      ensures Chained() ==> this in Repr
    {
      && this in Repr && buckets in Repr
      && 0 < numBuckets == buckets.Length == |Contents|
      && (forall b | 0 <= b < numBuckets :: ChainOwned(b) && buckets[b].Valid() && buckets[b].Contents == Contents[b])
      && (forall b, c | 0 <= b < c < numBuckets :: buckets[b].Repr !! buckets[c].Repr)
    }

    ghost predicate ChainOwned(b: nat)
      reads this, Repr
      requires buckets in Repr && b < buckets.Length
    {
      buckets[b] in Repr && buckets[b].Repr <= Repr - {this, buckets}
    }

    constructor (numBuckets: nat)
      requires 0 < numBuckets
      ensures Valid() && fresh(Repr)
      ensures Contents == EmptyBuckets(numBuckets)
    {
      this.numBuckets := numBuckets;
      numElements := 0;
      var unused := new LinkedList<KeyValue<V>>();
      var table := new LinkedList<KeyValue<V>>[numBuckets](_ => unused);
      buckets := table;
      Contents := EmptyBuckets(numBuckets);
      new;
      FillBuckets();
      PairsOfEmpty<V>(numBuckets);
    }

    // The allocation loop of HashTable_Allocate.
    method FillBuckets()
      requires numBuckets == buckets.Length && 0 < numBuckets && Contents == EmptyBuckets(numBuckets)
      modifies this, buckets
      ensures Chained() && fresh(Repr - {this, buckets})
      ensures numBuckets == old(numBuckets) && numElements == old(numElements) && Contents == old(Contents)
      ensures buckets == old(buckets)
    {
      Repr := {this, buckets};
      var i := 0;
      while i < numBuckets
        invariant 0 <= i <= numBuckets == buckets.Length
        invariant buckets == old(buckets) && numBuckets == old(numBuckets)
        invariant numElements == old(numElements) && Contents == old(Contents)
        invariant this in Repr && buckets in Repr && fresh(Repr - {this, buckets})
        invariant forall b | 0 <= b < i :: ChainOwned(b) && buckets[b].Valid() && buckets[b].Contents == []
        invariant forall b, c | 0 <= b < c < i :: buckets[b].Repr !! buckets[c].Repr
      {
        var chain := new LinkedList();
        buckets[i] := chain;
        Repr := Repr + chain.Repr;
        i := i + 1;
      }
    }

    method NumElements() returns (n: nat)
      requires Valid()
      ensures n == |Pairs(Contents)|
    {
      n := numElements;
    }

    // Brings the ghost state up to date after one chain has changed.
    ghost method Absorb(b: nat, chain: Chain<V>)
      requires this in Repr && buckets in Repr && b < numBuckets == buckets.Length == |Contents|
      requires forall c | 0 <= c < numBuckets && c != b ::
                 ChainOwned(c) && buckets[c].Valid() && buckets[c].Contents == Contents[c]
      requires forall c, d | 0 <= c < d < numBuckets :: buckets[c].Repr !! buckets[d].Repr
      requires buckets[b].Valid() && buckets[b].Contents == chain
      requires this !in buckets[b].Repr && buckets !in buckets[b].Repr
      modifies this`Contents, this`Repr
      ensures Chained()
      ensures Contents == old(Contents)[b := chain] && Repr == old(Repr) + buckets[b].Repr
    {
      Contents := Contents[b := chain];
      Repr := Repr + buckets[b].Repr;
    }

    method Insert(newkeyvalue: KeyValue<V>) returns (replaced: bool, oldkeyvalue: Option<KeyValue<V>>)
      requires Valid()
      modifies Repr
      ensures Valid() && fresh(Repr - old(Repr))
      ensures Contents == ChainTable.Insert(old(Contents), newkeyvalue)
      ensures oldkeyvalue == ChainTable.Find(Grow(old(Contents)), newkeyvalue.key) && replaced == oldkeyvalue.Some?
      decreases numElements >= 3 * numBuckets, 1
    {
      hide LinkedList.Valid, LinkedList.LinkedAs, Pairs, InsertAll;
      InsertKeepsInvariant(Contents, newkeyvalue);
      CountAfterInsert(Grow(Contents), newkeyvalue);
      MaybeResize();
      var bucket := BucketOf(newkeyvalue.key, numBuckets);
      replaced, oldkeyvalue := InsertInBucket(bucket, newkeyvalue);
      if !replaced {
        numElements := numElements + 1;
      }
    }

    // The work of HashTable_Insert on the chain it has selected.
    method InsertInBucket(bucket: nat, kv: KeyValue<V>) returns (replaced: bool, oldkeyvalue: Option<KeyValue<V>>)
      requires Chained() && bucket < numBuckets
      modifies Repr - {this, buckets}, this`Contents, this`Repr
      ensures Chained() && fresh(Repr - old(Repr))
      ensures Contents == old(Contents)[bucket := InsertIntoChain(old(Contents)[bucket], kv)]
      ensures var chain := old(Contents)[bucket]; var i := IndexOf(chain, Narrow(kv.key));
              oldkeyvalue == (if i < |chain| then Some(chain[i]) else None) && replaced == oldkeyvalue.Some?
    {
      replaced, oldkeyvalue := ChainInsert(buckets[bucket], kv);
      Absorb(bucket, buckets[bucket].Contents);
    }

    static method ChainInsert(chain: LinkedList<KeyValue<V>>, newInsert: KeyValue<V>)
      returns (replaced: bool, oldkeyvalue: Option<KeyValue<V>>)
      requires chain.Valid()
      modifies chain.Repr
      ensures chain.Valid() && fresh(chain.Repr - old(chain.Repr))
      ensures chain.Contents == InsertIntoChain(old(chain.Contents), newInsert)
      ensures var i := IndexOf(old(chain.Contents), Narrow(newInsert.key));
              oldkeyvalue == (if i < |old(chain.Contents)| then Some(old(chain.Contents)[i]) else None)
              && replaced == oldkeyvalue.Some?
    {
      var n := chain.NumElements();
      if n == 0 {
        chain.Push(newInsert);
        return false, None;
      }
      hide LinkedList.Valid, LinkedList.LinkedAs;
      var lliter := new LLIterator(chain);
      var found, pair := HasKey(lliter, newInsert.key);
      if found {
        AppendAndRemove(lliter, newInsert);
        return true, Some(pair);
      } else {
        chain.Append(newInsert);
        return false, None;
      }
    }

    // The new pair goes to the end of the chain before the old one, at the
    // cursor, goes away.
    static method AppendAndRemove(lliter: LLIterator<KeyValue<V>>, newInsert: KeyValue<V>)
      requires lliter.Valid() && lliter.index < |lliter.list.Contents|
      modifies lliter, lliter.list.Repr
      ensures lliter.list.Valid() && fresh(lliter.list.Repr - old(lliter.list.Repr))
      ensures lliter.list.Contents == Without(old(lliter.list.Contents), old(lliter.index)) + [newInsert]
    {
      hide LinkedList.Valid, LinkedList.LinkedAs;
      ghost var i := lliter.index;
      lliter.list.CountsAgree();
      lliter.list.Append(newInsert);
      lliter.list.CountsAgree();
      assert lliter.Valid();
      var nonEmpty := lliter.Remove();
      assert nonEmpty;
    }

    method Find(key: Key) returns (found: bool, keyvalue: Option<KeyValue<V>>)
      requires Valid()
      ensures keyvalue == ChainTable.Find(Contents, key) && found == keyvalue.Some?
    {
      var bucket := BucketOf(key, numBuckets);
      var chain := buckets[bucket];
      var n := chain.NumElements();
      if n == 0 {
        return false, None;
      }
      var lliter := new LLIterator(chain);
      var hit, pair := HasKey(lliter, key);
      if hit {
        return true, Some(pair);
      } else {
        return false, None;
      }
    }

    method Remove(key: Key) returns (removed: bool, keyvalue: Option<KeyValue<V>>)
      requires Valid()
      modifies Repr
      ensures Valid() && fresh(Repr - old(Repr))
      ensures Contents == ChainTable.Remove(old(Contents), key)
      ensures keyvalue == ChainTable.Find(old(Contents), key) && removed == keyvalue.Some?
      ensures buckets == old(buckets) && numBuckets == old(numBuckets)
      ensures NodesAfterRemove(key)
    {
      hide LinkedList.Valid, LinkedList.LinkedAs, Pairs, InsertAll;
      RemoveKeepsInvariant(Contents, key);
      CountAfterRemove(Contents, key);
      var bucket := BucketOf(key, numBuckets);
      removed, keyvalue := RemoveFromBucket(bucket, key);
      if removed {
        numElements := numElements - 1;
      }
    }

    // Which node leaves which chain when key is removed: what an iterator that
    // stands elsewhere in the table needs to know.
    twostate predicate NodesAfterRemove(key: Key)
      requires old(Chained())
      requires Chained() && buckets == old(buckets) && numBuckets == old(numBuckets)
      reads this, Repr
    {
      var bucket := BucketOf(key, numBuckets);
      var i := IndexOf(old(Contents)[bucket], Narrow(key));
      forall c | 0 <= c < numBuckets :: buckets[c] == old(buckets[c]) && buckets[c].Nodes ==
        if c == bucket && i < |old(Contents)[bucket]| then Without(old(buckets[c].Nodes), i) else old(buckets[c].Nodes)
    }

    // The work of HashTable_Remove on the chain it has selected.
    method RemoveFromBucket(bucket: nat, key: Key) returns (removed: bool, keyvalue: Option<KeyValue<V>>)
      requires Chained() && bucket == BucketOf(key, numBuckets)
      modifies Repr - {this, buckets}, this`Contents, this`Repr
      ensures Chained() && fresh(Repr - old(Repr))
      ensures Contents == ChainTable.Remove(old(Contents), key)
      ensures keyvalue == ChainTable.Find(old(Contents), key) && removed == keyvalue.Some?
      ensures NodesAfterRemove(key)
    {
      hide LinkedList.Valid, LinkedList.LinkedAs;
      removed, keyvalue := ChainRemove(buckets[bucket], key);
      Absorb(bucket, buckets[bucket].Contents);
      assert !removed ==> Contents == old(Contents);
    }

    static method ChainRemove(chain: LinkedList<KeyValue<V>>, key: Key)
      returns (removed: bool, keyvalue: Option<KeyValue<V>>)
      requires chain.Valid()
      modifies chain.Repr
      ensures chain.Valid() && chain.Repr <= old(chain.Repr)
      ensures var i := IndexOf(old(chain.Contents), Narrow(key));
              if i < |old(chain.Contents)| then
                && removed && keyvalue == Some(old(chain.Contents)[i])
                && chain.Contents == Without(old(chain.Contents), i) && chain.Nodes == Without(old(chain.Nodes), i)
              else
                !removed && keyvalue == None && chain.Contents == old(chain.Contents) && chain.Nodes == old(chain.Nodes)
    {
      var n := chain.NumElements();
      if n == 0 {
        return false, None;
      }
      hide LinkedList.LinkedAs;
      var lliter := new LLIterator(chain);
      var found, pair := HasKey(lliter, key);
      if found {
        var _ := lliter.Remove();
        return true, Some(pair);
      } else {
        return false, None;
      }
    }

    // Leaves the cursor on the first pair whose key equals the narrowed key, or
    // past the end.  The parameter is a C int, hence Narrow.
    static method HasKey(lliter: LLIterator<KeyValue<V>>, key: Key) returns (found: bool, keyvalue: KeyValue<V>)
      requires lliter.Valid() && lliter.index == 0 && lliter.list.Contents != []
      modifies lliter
      ensures lliter.Valid()
      ensures lliter.index == IndexOf(lliter.list.Contents, Narrow(key))
      ensures found == (lliter.index < |lliter.list.Contents|)
      ensures found ==> keyvalue == lliter.list.Contents[lliter.index]
    {
      var narrow := Narrow(key);
      keyvalue := lliter.Get();
      if keyvalue.key == narrow {
        return true, keyvalue;
      }
      var more := lliter.Next();
      while more
        invariant lliter.Valid() && more == (lliter.index < |lliter.list.Contents|)
        invariant forall j | 0 <= j < lliter.index :: lliter.list.Contents[j].key != narrow
        decreases |lliter.list.Contents| - lliter.index
      {
        keyvalue := lliter.Get();
        if keyvalue.key == narrow {
          return true, keyvalue;
        }
        more := lliter.Next();
      }
      return false, keyvalue;
    }

    method MaybeResize()
      requires Valid()
      modifies this
      ensures Valid() && fresh(Repr - old(Repr))
      ensures Contents == Grow(old(Contents))
      decreases numElements >= 3 * numBuckets, 0
    {
      hide LinkedList.Valid, LinkedList.LinkedAs, Pairs, InsertAll;
      if numElements < 3 * numBuckets {
        return;
      }
      var newht := new HashTable<V>(numBuckets * 9);
      CopyInto(newht);
      // The two table records trade places.
      numBuckets, newht.numBuckets := newht.numBuckets, numBuckets;
      numElements, newht.numElements := newht.numElements, numElements;
      buckets, newht.buckets := newht.buckets, buckets;
      Contents, newht.Contents := newht.Contents, Contents;
      Repr := newht.Repr - {newht} + {this};
    }

    // The copying loop of MaybeResize.  Nothing here can resize newht.
    method CopyInto(newht: HashTable<V>)
      requires Valid() && newht.Valid() && newht.Repr !! Repr
      requires numElements >= 3 * numBuckets
      requires newht.Contents == EmptyBuckets(9 * numBuckets)
      modifies newht.Repr
      ensures Valid()
      ensures newht.Valid() && fresh(newht.Repr - old(newht.Repr))
      ensures newht.Contents == InsertAll(EmptyBuckets(9 * numBuckets), Pairs(Contents))
      decreases true, 0, 1
    {
      hide LinkedList.Valid, LinkedList.LinkedAs, Pairs, HTIterator.Valid, HTIterator.OnPair, Placed;
      hide InsertAll, InsertNoResize;
      ghost var empty, pairs := newht.Contents, Pairs(Contents);
      InsertAllOneMore(empty, pairs, 0);
      var it := new HTIterator(this);
      var valid := it.IsValid();
      while valid
        invariant Valid() && it.Valid() && it.ht == this && fresh(it.Repr) && it.Repr !! newht.Repr
        invariant it.pos <= |pairs| && valid == (it.pos < |pairs|)
        invariant newht.Valid() && newht.Repr !! Repr && fresh(newht.Repr - old(newht.Repr))
        invariant newht.Contents == InsertAll(empty, pairs[..it.pos])
        decreases |pairs| - it.pos
      {
        InsertAllOneMore(empty, pairs, it.pos);
        var ok, item := it.Get();
        assert ok;
        CopyOne(newht, item.value, pairs[..it.pos]);
        var _ := it.Next();
        valid := it.IsValid();
      }
    }

    // A table nine times as large cannot be full before all pairs are copied.
    lemma RoomToCopy(newht: HashTable<V>, done: seq<KeyValue<V>>)
      requires Valid() && newht.Valid() && newht.Contents == InsertAll(EmptyBuckets(9 * numBuckets), done)
      requires |done| < |Pairs(Contents)|
      ensures newht.numElements < 3 * newht.numBuckets
      ensures |Pairs(newht.Contents)| < 3 * |newht.Contents|
    {
      hide LinkedList.Valid, Pairs, Placed, HashTable.ChainOwned;
      PairsOfEmpty<V>(9 * numBuckets);
      CountAfterInsertAll(EmptyBuckets<V>(9 * numBuckets), done);
    }

    // One insertion of that loop.
    method CopyOne(newht: HashTable<V>, item: KeyValue<V>, ghost done: seq<KeyValue<V>>)
      requires Valid() && newht.Valid() && newht.Repr !! Repr
      requires |done| < |Pairs(Contents)| && numElements >= 3 * numBuckets
      requires newht.Contents == InsertAll(EmptyBuckets(9 * numBuckets), done)
      modifies newht.Repr
      ensures newht.Valid() && fresh(newht.Repr - old(newht.Repr))
      ensures newht.Contents == InsertNoResize(old(newht.Contents), item)
      decreases true, 0, 0
    {
      RoomToCopy(newht, done);
      hide LinkedList.Valid, LinkedList.LinkedAs, Pairs, Placed, InsertAll, InsertNoResize;
      var _, _ := newht.Insert(item);
    }
  }

  // A cursor over all pairs of a table.  pos is its position in Pairs(ht.Contents).
  class HTIterator<V> {
    const ht: HashTable<V>
    var bucketIt: LLIterator?<KeyValue<V>>
    var bucketIdx: int

    ghost var pos: nat
    ghost var Repr: set<object>

    static const INVALID_IDX: int := -1

    ghost predicate Valid()
      reads this, Repr, ht, ht.Repr
      ensures Valid() ==> this in Repr && Repr !! ht.Repr && ht.Valid()
    {
      && this in Repr && Repr !! ht.Repr && ht.Valid()
      && (bucketIdx == INVALID_IDX ==> pos == |Pairs(ht.Contents)|)
      && (bucketIdx != INVALID_IDX ==> OnPair())
    }

    // The cursor stands on a pair of bucket bucketIdx.
    ghost predicate OnPair()
      reads this, Repr, ht, ht.Repr
      requires this in Repr && ht.Valid()
    {
      && 0 <= bucketIdx < ht.numBuckets
      && bucketIt != null && bucketIt in Repr
      && bucketIt.list == ht.buckets[bucketIdx] && bucketIt.Valid()
      && bucketIt.index < |ht.Contents[bucketIdx]|
      && pos == Offset(ht.Contents, bucketIdx) + bucketIt.index
    }

    constructor (table: HashTable<V>)
      requires table.Valid()
      ensures Valid() && fresh(Repr) && ht == table && pos == 0
    {
      ht := table;
      pos := 0;
      Repr := {this};
      bucketIt := null;
      bucketIdx := INVALID_IDX;
      new;
      OffsetEnds(table.Contents);
      if table.numElements == 0 {
        return;
      }
      EnterFrom(0);
      assert bucketIdx != INVALID_IDX;
    }

    // Puts the cursor on the first pair of the first non-empty bucket from i on,
    // or makes it invalid if there is none.
    method EnterFrom(i: nat)
      requires this in Repr && Repr !! ht.Repr && ht.Valid() && i <= ht.numBuckets
      modifies this
      ensures Valid() && fresh(Repr - old(Repr))
      ensures pos == Offset(ht.Contents, i)
    {
      hide LinkedList.Valid, LinkedList.LinkedAs, Pairs, Placed;
      bucketIdx := INVALID_IDX;
      pos := Offset(ht.Contents, i);
      var j := i;
      while j < ht.numBuckets
        invariant i <= j <= ht.numBuckets && bucketIdx == INVALID_IDX
        invariant Offset(ht.Contents, j) == Offset(ht.Contents, i)
        modifies this`bucketIdx
      {
        var n := ht.buckets[j].NumElements();
        if n > 0 {
          bucketIdx := j;
          break;
        }
        OffsetSteps(ht.Contents, j);
        j := j + 1;
      }
      OffsetEnds(ht.Contents);
      if j < ht.numBuckets {
        bucketIt := new LLIterator(ht.buckets[j]);
        Repr := Repr + {bucketIt};
      }
    }

    method IsValid() returns (valid: bool)
      requires Valid()
      ensures valid == (bucketIdx != INVALID_IDX) == (pos < |Pairs(ht.Contents)|)
    {
      valid := bucketIdx != INVALID_IDX;
      if valid {
        PairAt(ht.Contents, bucketIdx, bucketIt.index);
      }
    }

    method Next() returns (advanced: bool)
      requires Valid()
      modifies Repr
      ensures Valid() && fresh(Repr - old(Repr))
      ensures pos == if old(pos) < |Pairs(ht.Contents)| then old(pos) + 1 else old(pos)
      ensures advanced == (pos < |Pairs(ht.Contents)|)
    {
      hide LinkedList.Valid, LinkedList.LinkedAs, Pairs, Placed;
      if bucketIdx == INVALID_IDX {
        return false;
      }
      PairAt(ht.Contents, bucketIdx, bucketIt.index);
      OffsetSteps(ht.Contents, bucketIdx);
      var more := bucketIt.Next();
      if more {
        pos := pos + 1;
        PairAt(ht.Contents, bucketIdx, bucketIt.index);
        return true;
      }
      if bucketIdx == ht.numBuckets - 1 {
        OffsetEnds(ht.Contents);
        bucketIdx := INVALID_IDX;
        pos := pos + 1;
        return false;
      }
      EnterFrom(bucketIdx + 1);
      advanced := IsValid();
    }

    method Get() returns (ok: bool, keyvalue: Option<KeyValue<V>>)
      requires Valid()
      ensures ok == (pos < |Pairs(ht.Contents)|)
      ensures keyvalue == if ok then Some(Pairs(ht.Contents)[pos]) else None
    {
      if bucketIdx != INVALID_IDX {
        PairAt(ht.Contents, bucketIdx, bucketIt.index);
        var valPair := bucketIt.Get();
        return true, Some(valPair);
      }
      return false, None;
    }

    // Takes the pair under the cursor out of the table; the cursor then stands
    // on the pair that followed it.
    method Remove() returns (ok: bool, keyvalue: Option<KeyValue<V>>)
      requires Valid() && SurvivorsOnce(ht.Contents)
      requires pos < |Pairs(ht.Contents)| ==> Survives(Pairs(ht.Contents)[pos].key)
      modifies Repr, ht.Repr
      ensures Valid() && fresh(Repr - old(Repr)) && fresh(ht.Repr - old(ht.Repr))
      ensures pos == old(pos) && ok == (old(pos) < |Pairs(old(ht.Contents))|)
      ensures !ok ==> ht.Contents == old(ht.Contents) && keyvalue == None
      ensures ok ==> var pairs := Pairs(old(ht.Contents));
                && keyvalue == Some(pairs[pos])
                && Pairs(ht.Contents) == Without(pairs, pos)
                && ht.Contents == ChainTable.Remove(old(ht.Contents), pairs[pos].key)
    {
      hide LinkedList.Valid, LinkedList.LinkedAs, Pairs;
      var got, kv := Get();
      if !got {
        return false, None;
      }
      ghost var b, i := bucketIdx, bucketIt.index;
      PairAt(ht.Contents, b, i);
      PairsAfterTakingOut(ht.Contents, b, i);
      var _ := Next();
      keyvalue := RemoveBehind(kv.value, b, i);
      return true, keyvalue;
    }

    // The removal itself, once the cursor has moved on from pair i of bucket b.
    method RemoveBehind(kv: KeyValue<V>, ghost b: nat, ghost i: nat) returns (keyvalue: Option<KeyValue<V>>)
      requires Valid() && SurvivorsOnce(ht.Contents)
      requires b < ht.numBuckets && i < |ht.Contents[b]| && ht.Contents[b][i] == kv && Survives(kv.key)
      requires BucketOf(kv.key, ht.numBuckets) == b && pos == Offset(ht.Contents, b) + i + 1
      modifies Repr, ht.Repr
      ensures Valid() && fresh(Repr - old(Repr)) && fresh(ht.Repr - old(ht.Repr))
      ensures pos == old(pos) - 1 && keyvalue == Some(kv)
      ensures ht.Contents == ChainTable.Remove(old(ht.Contents), kv.key)
      ensures ht.Contents == old(ht.Contents)[b := Without(old(ht.Contents)[b], i)]
    {
      hide LinkedList.Valid, LinkedList.LinkedAs, Pairs, Placed, Offset;
      ghost var t := ht.Contents;
      PairsAfterTakingOut(t, b, i);
      ghost var c := bucketIdx;
      if c != INVALID_IDX {
        if c < b {
          OffsetsAscend(t, c, b);
        }
        ht.buckets[c].CountsAgree();
      }
      IndexOfFirst(t[b], kv.key, i);
      assert ChainTable.Find(t, kv.key) == Some(kv);
      var removed;
      removed, keyvalue := ht.Remove(kv.key);
      assert removed;
      assert kv.key == keyvalue.value.key;
      assert kv.value == keyvalue.value.value;
      if c != INVALID_IDX {
        assert ht.ChainOwned(c) && bucketIt.list == ht.buckets[c];
        ht.buckets[c].CountsAgree();
        bucketIt.Renumber(if c == b then i else bucketIt.index);
      }
      pos := pos - 1;
    }
  }
}
