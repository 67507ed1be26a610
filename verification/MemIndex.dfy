// hw2/MemIndex.c: the inverted index.  A table maps each word's hash to its
// postings, a second table from docIDs to the list of the word's offsets.
module MemIndexes {
  import opened LinkedLists
  import opened ChainTable
  import opened TableLaws
  import opened SurvivorLaws
  import opened ReachableTables
  import opened HashTables
  import opened WordSpec
  import opened FileParsing
  import opened SearchSpec

  class WordPostings {
    const word: Word
    const postings: HashTable<LinkedList<nat>>

    constructor (word: Word, postings: HashTable<LinkedList<nat>>)
      ensures this.word == word && this.postings == postings
    {
      this.word := word;
      this.postings := postings;
    }
  }

  // A postings table holds these offsets, in lists whose footprints lie in lists.
  ghost predicate Holds(postings: HashTable<LinkedList<nat>>, p: Postings, lists: set<object>)
    reads postings, postings.Repr, lists
    ensures Holds(postings, p, lists) ==> postings in postings.Repr
  {
    && postings.Valid() && Canonical(postings.Contents)
    && MapOf(postings.Contents).Keys == p.Keys
    && forall d | d in p :: HoldsList(MapOf(postings.Contents)[d], p[d], lists)
  }

  ghost predicate HoldsList(list: LinkedList<nat>, positions: seq<nat>, lists: set<object>)
    reads lists
  {
    list in lists && list.Repr <= lists && list.Valid() && list.Contents == positions
  }

  lemma HoldsWithMore(postings: HashTable<LinkedList<nat>>, p: Postings, lists: set<object>, more: set<object>)
    requires Holds(postings, p, lists) && lists <= more
    ensures Holds(postings, p, more)
  {
    hide HashTable.Valid, LinkedList.Valid, MapOf;
    forall d | d in p
      ensures HoldsList(MapOf(postings.Contents)[d], p[d], more)
    {
      assert HoldsList(MapOf(postings.Contents)[d], p[d], lists);
    }
  }

  lemma EmptyPostings(postings: HashTable<LinkedList<nat>>, lists: set<object>)
    requires postings.Valid() && postings.Contents == EmptyBuckets(16)
    ensures Holds(postings, map[], lists)
  {
    EmptyIsEmptyMap<LinkedList<nat>>(16);
  }

  // Puts one more list into a postings table.
  method AddToPostings(postings: HashTable<LinkedList<nat>>, docid: DocID, list: LinkedList<nat>,
                       ghost p: Postings, ghost lists: set<object>)
    requires Holds(postings, p, lists) && postings.Repr !! lists && docid !in p && Survives(docid)
    requires list.Valid() && list.Repr !! postings.Repr
    modifies postings.Repr
    ensures Holds(postings, p[docid := list.Contents], lists + list.Repr) && fresh(postings.Repr - old(postings.Repr))
  {
    hide HashTable.Valid, HashTable.Chained, HashTable.ChainOwned, LinkedList.Valid, LinkedList.LinkedAs;
    hide MapOf, Canonical, Placed, UniqueKeys, Lookup, Insert, Grow, Pairs;
    FindReadsMap(postings.Contents, docid);
    var present, _ := postings.Find(docid);
    assert !present;
    var postingsKv := KeyValue(docid, list);
    InsertUpdatesMap(postings.Contents, postingsKv);
    var _, _ := postings.Insert(postingsKv);
    forall d | d in p
      ensures HoldsList(MapOf(postings.Contents)[d], p[d], lists + list.Repr)
    {
      assert HoldsList(MapOf(postings.Contents)[d], p[d], lists);
    }
  }

  // Looks a document up in a postings table: whether it is there, and how often
  // the word occurs in it.
  method CountIn(postings: HashTable<LinkedList<nat>>, docid: DocID, ghost p: Postings, ghost lists: set<object>)
    returns (present: bool, n: nat)
    requires Holds(postings, p, lists) && Survives(docid)
    ensures present == (docid in p) && (present ==> n == |p[docid]|)
  {
    hide HashTable.Chained, HashTable.ChainOwned, LinkedList.LinkedAs, MapOf, Lookup, Pairs, Survives;
    FindReadsMap(postings.Contents, docid);
    var kv;
    present, kv := postings.Find(docid);
    if present {
      assert HoldsList(kv.value.value, p[docid], lists);
      n := kv.value.value.NumElements();
    } else {
      n := 0;
    }
  }

  // One SearchResult for every document of the first query word, in the order
  // of the postings table.
  method FirstResults(postings: HashTable<LinkedList<nat>>, ghost p: Postings, ghost lists: set<object>)
    returns (retlist: LinkedList<SearchResult>)
    requires Holds(postings, p, lists) && p != map[]
    ensures retlist.Valid() && fresh(retlist.Repr)
    ensures ResultsForWord(p, retlist.Contents)
    ensures forall r | r in retlist.Contents :: Survives(r.docid)
  {
    hide HashTable.Valid, HashTable.Chained, LinkedList.Valid, MapOf, Placed, Pairs, Lookup, HTIterator.Valid;
    hide Holds, HoldsList, Canonical, PairsOf, ResultsForWord, HTIterator.OnPair, Survives;
    ghost var pairs := Pairs(postings.Contents);
    PairsArePostings(postings, p, lists);
    retlist := new LinkedList<SearchResult>();
    var hIter := new HTIterator(postings);
    var hasNext := true;
    while hasNext
      invariant retlist.Valid() && fresh(retlist.Repr) && retlist.Repr !! hIter.Repr
      invariant hIter.Valid() && hIter.ht == postings && fresh(hIter.Repr)
      invariant hIter.pos <= |pairs| && hasNext == (hIter.pos < |pairs|)
      invariant |retlist.Contents| == hIter.pos
      invariant forall i | 0 <= i < hIter.pos ::
                  retlist.Contents[i] == SearchResult(pairs[i].key, |p[pairs[i].key]|)
      decreases |pairs| - hIter.pos
    {
      var ok, kv := hIter.Get();
      assert pairs[hIter.pos] in pairs;
      var n := ListLength(kv.value.value, p[kv.value.key], lists);
      retlist.Append(SearchResult(kv.value.key, n));
      hasNext := hIter.Next();
    }
    ResultsFromPairs(pairs, p, retlist.Contents);
  }

  method ListLength(list: LinkedList<nat>, ghost positions: seq<nat>, ghost lists: set<object>) returns (n: nat)
    requires HoldsList(list, positions, lists)
    ensures n == |positions|
  {
    n := list.NumElements();
  }

  ghost predicate PairsOf<V>(pairs: seq<KeyValue<V>>, p: Postings) {
    && (forall i, j | 0 <= i < j < |pairs| :: pairs[i].key != pairs[j].key)
    && (forall kv | kv in pairs :: kv.key in p && Survives(kv.key))
    && (forall d | d in p :: exists i :: 0 <= i < |pairs| && pairs[i].key == d)
  }

  lemma PairsArePostings(postings: HashTable<LinkedList<nat>>, p: Postings, lists: set<object>)
    requires Holds(postings, p, lists)
    ensures PairsOf(Pairs(postings.Contents), p)
    ensures forall kv | kv in Pairs(postings.Contents) :: kv.key in p && HoldsList(kv.value, p[kv.key], lists)
    ensures p != map[] ==> Pairs(postings.Contents) != []
    ensures postings.Valid()
  {
    hide HashTable.Valid, HoldsList, Placed, Pairs, UniqueKeys;
    var t := postings.Contents;
    PairsHaveUniqueKeys(t);
    PairsSurvive(t);
    forall kv | kv in Pairs(t)
      ensures kv.key in p && HoldsList(kv.value, p[kv.key], lists)
    {
      LookupIff(t, kv.key, kv.value);
      assert kv == KeyValue(kv.key, kv.value);
      MapOfIs(t, kv.key);
    }
    forall d | d in p
      ensures exists i :: 0 <= i < |Pairs(t)| && Pairs(t)[i].key == d
    {
      MapOfIs(t, d);
      LookupIff(t, d, MapOf(t)[d]);
      var i :| 0 <= i < |Pairs(t)| && Pairs(t)[i] == KeyValue(d, MapOf(t)[d]);
    }
  }

  lemma ResultsFromPairs<V>(pairs: seq<KeyValue<V>>, p: Postings, rs: seq<SearchResult>)
    requires PairsOf(pairs, p) && |rs| == |pairs|
    requires forall i | 0 <= i < |rs| :: pairs[i].key in p && rs[i] == SearchResult(pairs[i].key, |p[pairs[i].key]|)
    ensures ResultsForWord(p, rs)
    ensures forall r | r in rs :: Survives(r.docid)
  {
    forall r | r in rs
      ensures r.docid in p && r.rank == |p[r.docid]| && Survives(r.docid)
    {
      var i :| 0 <= i < |rs| && rs[i] == r;
      assert pairs[i] in pairs;
    }
    forall d | d in p
      ensures HasDoc(rs, d)
    {
      var i :| 0 <= i < |pairs| && pairs[i].key == d;
      assert rs[i].docid == d;
    }
  }

  // Deletes the results that the next word's documents do not confirm, under
  // the cursor that walks them, and raises the ranks of the others.
  method Intersect(retlist: LinkedList<SearchResult>, postings: HashTable<LinkedList<nat>>,
                   ghost p: Postings, ghost lists: set<object>)
    requires retlist.Valid() && retlist.Contents != []
    requires Holds(postings, p, lists) && retlist.Repr !! postings.Repr + lists
    requires forall r | r in retlist.Contents :: Survives(r.docid)
    modifies retlist.Repr
    ensures retlist.Valid() && retlist.Repr <= old(retlist.Repr)
    ensures retlist.Contents == Intersected(old(retlist.Contents), p)
  {
    hide HashTable.Valid, LinkedList.Valid, LinkedList.LinkedAs, Holds, Intersected, Survives;
    ghost var rs := retlist.Contents;
    retlist.CountsAgree();
    var llit := new LLIterator(retlist);
    var numdocs := retlist.NumElements();
    ghost var done := [];
    IntersectedStart(rs, p);
    for j := 0 to numdocs
      invariant llit.list == retlist && llit.Valid() && fresh(llit)
      invariant retlist.Repr <= old(retlist.Repr)
      invariant Holds(postings, p, lists)
      invariant done == Intersected(rs[..j], p) && retlist.Contents == done + rs[j..]
      invariant j < numdocs ==> llit.index == |done|
    {
      IntersectedStep(rs, p, j);
      ghost var sr, rest := rs[j], rs[j + 1..];
      NextResult(done, rs, j);
      IntersectOne(llit, postings, done, sr, rest, p, lists);
      done := Intersected(rs[..j + 1], p);
    }
    assert rs[..numdocs] == rs;
  }

  lemma NextResult(done: seq<SearchResult>, rs: seq<SearchResult>, j: nat)
    requires j < |rs|
    ensures rs[j] in rs && done + rs[j..] == done + [rs[j]] + rs[j + 1..]
  {
  }

  // The loop body of Intersect: the cursor stands on sr, behind the results
  // that are done and in front of the ones still to come.
  method IntersectOne(llit: LLIterator<SearchResult>, postings: HashTable<LinkedList<nat>>,
                      ghost done: seq<SearchResult>, ghost sr: SearchResult, ghost rest: seq<SearchResult>,
                      ghost p: Postings, ghost lists: set<object>)
    requires llit.Valid() && llit.list.Contents == done + [sr] + rest && llit.index == |done|
    requires Holds(postings, p, lists) && llit.list.Repr !! postings.Repr + lists && llit !in postings.Repr + lists
    requires Survives(sr.docid)
    modifies llit, llit.list.Repr
    ensures llit.Valid() && llit.list.Repr <= old(llit.list.Repr)
    ensures var kept := if sr.docid in p then [SearchResult(sr.docid, sr.rank + |p[sr.docid]|)] else [];
            && llit.list.Contents == done + kept + rest
            && (rest != [] ==> llit.index == |done + kept|)
  {
    hide HashTable.Valid, LinkedList.Valid, LinkedList.LinkedAs, Holds, Survives;
    var r := llit.Get();
    var present, n := CountIn(postings, r.docid, p, lists);
    if !present {
      var _ := llit.Remove();
    } else {
      llit.Update(SearchResult(r.docid, r.rank + n));
      var _ := llit.Next();
    }
  }

  lemma IntersectedStart(rs: seq<SearchResult>, p: Postings)
    ensures Intersected(rs[..0], p) == []
  {
  }

  lemma IntersectedStep(rs: seq<SearchResult>, p: Postings, j: nat)
    requires j < |rs|
    ensures var r := rs[j];
            Intersected(rs[..j + 1], p) == Intersected(rs[..j], p) +
              if r.docid in p then [SearchResult(r.docid, r.rank + |p[r.docid]|)] else []
  {
    assert rs[..j + 1][..j] == rs[..j];
  }

  // The number of buckets that insertions of these words lead to.
  ghost predicate SizedFor(t: Buckets<WordPostings>, index: IndexMap) {
    |t| == BucketsAfter(16, |index|)
  }

  lemma SizedForMorePostings(t: Buckets<WordPostings>, index: IndexMap, word: Word, d: DocID, positions: seq<nat>)
    requires SizedFor(t, index) && word in index
    ensures SizedFor(t, AddPosting(index, word, d, positions))
  {
    SameWords(index, word, d, positions);
  }

  lemma SameWords(index: IndexMap, word: Word, d: DocID, positions: seq<nat>)
    requires word in index
    ensures AddPosting(index, word, d, positions).Keys == index.Keys
  {
  }

  lemma AddPostingToNew(index: IndexMap, word: Word, d: DocID, positions: seq<nat>)
    ensures word !in index ==>
              AddPosting(index[word := map[]], word, d, positions) == AddPosting(index, word, d, positions)
  {
  }

  class MemIndex {
    const hash: Word -> Key
    const table: HashTable<WordPostings>

    ghost var Index: IndexMap
    ghost var Lists: set<object>    // the footprints of all lists of offsets
    ghost var Repr: set<object>

    ghost predicate Valid()
      reads this, Repr
      ensures Valid() ==> this in Repr && Lists <= Repr - {this}
    {
      Stores() && SizedFor(table.Contents, Index)
    }

    // The tables hold the index.
    ghost predicate Stores()
      reads this, Repr
      ensures Stores() ==> this in Repr && table in Repr && Lists <= Repr - {this}
    {
      && this in Repr && table in Repr && table.Repr <= Repr - {this}
      && Lists <= Repr - {this} && Lists !! table.Repr
      && table.Valid() && Canonical(table.Contents)
      && (forall k | k in MapOf(table.Contents) :: Stored(k, MapOf(table.Contents)[k]))
      && (forall w | w in Index :: hash(w) in MapOf(table.Contents) && MapOf(table.Contents)[hash(w)].word == w)
      && (forall j, k | j in MapOf(table.Contents) && k in MapOf(table.Contents) && j != k ::
            MapOf(table.Contents)[j].postings.Repr !! MapOf(table.Contents)[k].postings.Repr)
    }

    // The entry under key k holds the postings of a word of the index, in a
    // table that shares nothing with the outer table or with any list.
    ghost predicate Stored(k: Key, wp: WordPostings)
      reads this, Repr
      requires table in Repr && Lists <= Repr
    {
      wp.postings in Repr && wp.postings.Repr <= Repr && StoredIn(k, wp, Repr, Lists, Index)
    }

    // The same for given footprints and for what the index is to be.
    ghost predicate StoredIn(k: Key, wp: WordPostings, repr: set<object>, lists: set<object>, index: IndexMap)
      reads table, wp.postings, wp.postings.Repr, lists
      ensures StoredIn(k, wp, repr, lists, index) ==>
                && wp.word in index && hash(wp.word) == k
                && wp.postings in wp.postings.Repr && wp.postings.Repr <= repr - {this}
                && wp.postings.Repr !! table.Repr && wp.postings.Repr !! lists
    {
      && wp.word in index && hash(wp.word) == k
      && wp.postings.Repr <= repr - {this}
      && wp.postings.Repr !! table.Repr && wp.postings.Repr !! lists
      && Holds(wp.postings, index[wp.word], lists)
    }

    // What the outer table has where the lookup of a word leads.
    lemma MeantIsStored(word: Word)
      requires Valid()
      ensures var h, m, n := hash(word), MapOf(table.Contents), |table.Contents|;
              if Narrow(h) in m && BucketOf(Narrow(h), n) == BucketOf(h, n)
              then Meant(hash, Index.Keys, word) == m[Narrow(h)].word && Stored(Narrow(h), m[Narrow(h)])
              else Meant(hash, Index.Keys, word) == word
    {
      hide HashTable.Valid, Holds, MapOf, Canonical, Narrow, BucketsAfter, BucketOf;
      var h, m, n := hash(word), MapOf(table.Contents), |table.Contents|;
      if Narrow(h) in m {
        assert Stored(Narrow(h), m[Narrow(h)]);
        if BucketOf(Narrow(h), n) == BucketOf(h, n) {
          assert LeadsTo(hash, Index.Keys, word, m[Narrow(h)].word);
        }
      }
    }

    // The outer table has as many pairs as the index has words.
    lemma PairPerWord()
      requires Valid()
      ensures |Pairs(table.Contents)| == |Index|
    {
      hide HashTable.Valid, Holds, MapOf, Lookup, Pairs;
      var m := MapOf(table.Contents);
      CountIsMapSize(table.Contents);
      forall k | k in m
        ensures exists w :: w in Index.Keys && hash(w) == k
      {
        assert Stored(k, m[k]);
      }
      ImageSize(hash, Index.Keys, m.Keys);
    }

    lemma SizedForOneMore(kv: KeyValue<WordPostings>, word: Word)
      requires Valid() && word !in Index
      ensures SizedFor(Insert(table.Contents, kv), Index[word := map[]])
    {
      PairPerWord();
      hide HashTable.Valid, Holds, MapOf, InsertNoResize, Pairs;
    }

    // Every word of the index occurs in some document.
    ghost predicate NoEmptyPostings()
      reads this
    {
      forall w | w in Index :: Index[w] != map[]
    }

    constructor (hash: Word -> Key)
      ensures Valid() && NoEmptyPostings() && fresh(Repr) && Index == map[] && this.hash == hash
    {
      this.hash := hash;
      table := new HashTable<WordPostings>(16);
      Index := map[];
      Lists := {};
      new;
      Repr := {this} + table.Repr;
      EmptyIsEmptyMap<WordPostings>(16);
    }

    method AddPostingList(word: Word, docid: DocID, postings: LinkedList<nat>)
      requires Valid() && GoodOn(hash, Index.Keys + {word}) && Survives(docid)
      requires word in Index ==> docid !in Index[word]
      requires postings.Valid() && postings.Repr !! Repr
      modifies Repr
      ensures Valid() && fresh(Repr - old(Repr) - postings.Repr)
      ensures Index == AddPosting(old(Index), word, docid, postings.Contents)
      ensures postings.Contents == old(postings.Contents)
    {
      hide MemIndex.Stores, MemIndex.Stored, HashTable.Valid, LinkedList.Valid, Survives, SizedFor, GoodOn;
      hide AddPosting, MapOf;
      AddPostingToNew(Index, word, docid, postings.Contents);
      var wp := FindOrInsert(word);
      SizedForMorePostings(table.Contents, Index, word, docid, postings.Contents);
      InsertPosting(wp, docid, postings);
    }

    // The entry of a word, new if the index has not seen the word.
    method FindOrInsert(word: Word) returns (wp: WordPostings)
      requires Valid() && GoodOn(hash, Index.Keys + {word})
      modifies Repr
      ensures Valid() && fresh(Repr - old(Repr)) && Lists == old(Lists)
      ensures Index == if word in old(Index) then old(Index) else old(Index)[word := map[]]
      ensures hash(word) in MapOf(table.Contents) && wp == MapOf(table.Contents)[hash(word)] && wp.word == word
    {
      hide MemIndex.Valid, MemIndex.Stored, Survives;
      GoodOnSubset(hash, Index.Keys, Index.Keys + {word});
      MeantIff(hash, Index.Keys, word);
      var found := FindWord(word);
      if found != null {
        return found;
      }
      wp := InsertWord(word);
    }

    // The entry that the lookup of a word leads to: that of the word it is taken
    // for, or null if the index has not seen that word.
    method FindWord(word: Word) returns (wp: WordPostings?)
      requires Valid()
      ensures wp != null <==> Meant(hash, Index.Keys, word) in Index
      ensures wp == null ==> hash(word) !in MapOf(table.Contents)
      ensures wp != null ==> wp.word == Meant(hash, Index.Keys, word) && Stored(hash(wp.word), wp)
      ensures wp != null ==> hash(wp.word) in MapOf(table.Contents) && wp == MapOf(table.Contents)[hash(wp.word)]
    {
      hide HashTable.Valid, HashTable.Chained, LinkedList.Valid, LinkedList.LinkedAs, Holds;
      hide MapOf, Canonical, Placed, UniqueKeys, Lookup, Insert, Grow, Pairs, Find, Narrow, Meant, BucketsAfter;
      var key := hash(word);
      FindReadsNarrow(table.Contents, key);
      MeantIsStored(word);
      var found, miKv := table.Find(key);
      if !found {
        return null;
      }
      wp := miKv.value.value;
    }

    // The index has not seen the word: give it an empty postings table.
    method InsertWord(word: Word) returns (wp: WordPostings)
      requires Valid() && word !in Index && hash(word) !in MapOf(table.Contents) && Survives(hash(word))
      modifies Repr
      ensures Valid() && fresh(Repr - old(Repr)) && Lists == old(Lists)
      ensures Index == old(Index)[word := map[]]
      ensures hash(word) in MapOf(table.Contents) && wp == MapOf(table.Contents)[hash(word)] && wp.word == word
    {
      hide MemIndex.Valid, MemIndex.Stored, HashTable.Valid, Holds, Survives;
      var postings := new HashTable<LinkedList<nat>>(16);
      EmptyPostings(postings, Lists);
      wp := new WordPostings(word, postings);
      InsertEntry(wp);
    }

    // Entries are still stored when the outer table has grown beside them.
    twostate lemma StayStored(m: map<Key, WordPostings>)
      requires old(table in Repr && Lists <= Repr) && table in Repr && Lists == old(Lists)
      requires old(forall k | k in m :: Stored(k, m[k]))
      requires forall w | w in old(Index) :: w in Index && Index[w] == old(Index[w])
      requires old(Repr) <= Repr && fresh(table.Repr - old(table.Repr))
      requires unchanged(old(Repr - table.Repr) - {this})
      requires old(Lists !! table.Repr && this !in Lists)
      ensures forall k | k in m :: Stored(k, m[k]) && m[k].postings.Repr == old(m[k].postings.Repr) <= old(Repr)
    {
    }

    lemma NowStored(wp: WordPostings)
      requires table in Repr && Lists <= Repr && wp.word in Index && wp.postings in Repr
      requires wp.postings.Repr <= Repr - {this} && wp.postings.Repr !! table.Repr + Lists
      requires Holds(wp.postings, Index[wp.word], Lists)
      ensures Stored(hash(wp.word), wp)
    {
    }

    method InsertEntry(wp: WordPostings)
      requires Valid() && wp.word !in Index && hash(wp.word) !in MapOf(table.Contents) && Survives(hash(wp.word))
      requires Holds(wp.postings, map[], Lists) && wp.postings.Repr !! Repr
      modifies Repr
      ensures Valid() && fresh(Repr - old(Repr) - wp.postings.Repr) && Lists == old(Lists)
      ensures Index == old(Index)[wp.word := map[]]
      ensures hash(wp.word) in MapOf(table.Contents) && wp == MapOf(table.Contents)[hash(wp.word)]
    {
      hide HashTable.Valid, HashTable.Chained, HashTable.ChainOwned, LinkedList.Valid, LinkedList.LinkedAs;
      hide MapOf, Canonical, Placed, UniqueKeys, Lookup, Insert, Grow, Pairs;
      hide Holds, HoldsList, Survives, Stored, SizedFor;
      var miKv := KeyValue(hash(wp.word), wp);
      ghost var m := MapOf(table.Contents);
      InsertUpdatesMap(table.Contents, miKv);
      SizedForOneMore(miKv, wp.word);
      var _, _ := table.Insert(miKv);
      Repr := Repr + table.Repr + wp.postings.Repr;
      Index := Index[wp.word := map[]];
      StayStored(m);
      NowStored(wp);
    }

    // Records the document's offsets, for a document the word does not have yet.
    method InsertPosting(wp: WordPostings, docid: DocID, postings: LinkedList<nat>)
      requires Stores() && hash(wp.word) in MapOf(table.Contents) && wp == MapOf(table.Contents)[hash(wp.word)]
      requires wp.word in Index && docid !in Index[wp.word] && Survives(docid)
      requires postings.Valid() && postings.Repr !! Repr
      modifies Repr
      ensures Stores() && fresh(Repr - old(Repr) - postings.Repr) && table.Contents == old(table.Contents)
      ensures Index == AddPosting(old(Index), wp.word, docid, postings.Contents)
      ensures postings.Contents == old(postings.Contents)
    {
      hide HashTable.Valid, HashTable.Chained, LinkedList.Valid, LinkedList.LinkedAs, Survives, AddPosting;
      hide MapOf, Canonical, Placed, UniqueKeys, Lookup, Holds, StoredIn;
      assert Stored(hash(wp.word), wp);
      FillPostings(wp, docid, postings);
      SameWords(Index, wp.word, docid, postings.Contents);
      Record(Repr + wp.postings.Repr + postings.Repr, Lists + postings.Repr,
             AddPosting(Index, wp.word, docid, postings.Contents));
    }

    // The ghost side of it.
    ghost method Record(repr: set<object>, lists: set<object>, index: IndexMap)
      requires this in repr && table in repr && table.Repr <= repr - {this} && lists <= repr - {this}
      requires lists !! table.Repr && table.Valid() && Canonical(table.Contents)
      requires forall k | k in MapOf(table.Contents) :: StoredIn(k, MapOf(table.Contents)[k], repr, lists, index)
      requires forall w | w in index :: hash(w) in MapOf(table.Contents) && MapOf(table.Contents)[hash(w)].word == w
      requires forall j, k | j in MapOf(table.Contents) && k in MapOf(table.Contents) && j != k ::
                 MapOf(table.Contents)[j].postings.Repr !! MapOf(table.Contents)[k].postings.Repr
      modifies this`Repr, this`Lists, this`Index
      ensures Stores() && Repr == repr && Lists == lists && Index == index
    {
      hide HashTable.Valid, MapOf, Canonical, StoredIn;
      Repr := repr;
      Lists := lists;
      Index := index;
    }

    // After the insertion all postings tables hold what the index is to say.
    method FillPostings(wp: WordPostings, docid: DocID, postings: LinkedList<nat>)
      requires Stores() && hash(wp.word) in MapOf(table.Contents) && wp == MapOf(table.Contents)[hash(wp.word)]
      requires wp.word in Index && docid !in Index[wp.word] && Survives(docid)
      requires postings.Valid() && postings.Repr !! Repr
      modifies wp.postings.Repr
      ensures fresh(wp.postings.Repr - old(wp.postings.Repr)) && unchanged(postings)
      ensures var m, index := MapOf(table.Contents), AddPosting(Index, wp.word, docid, postings.Contents);
              && (forall k | k in m ::
                    StoredIn(k, m[k], Repr + wp.postings.Repr + postings.Repr, Lists + postings.Repr, index))
              && (forall j, k | j in m && k in m && j != k :: m[j].postings.Repr !! m[k].postings.Repr)
    {
      hide HashTable.Valid, HashTable.Chained, HashTable.ChainOwned, LinkedList.Valid, LinkedList.LinkedAs;
      hide MapOf, Canonical, Placed, UniqueKeys, Lookup, Insert, Grow, Pairs;
      hide Holds, HoldsList, Survives, GoodOn, Find;
      assert Stored(hash(wp.word), wp);
      ghost var m, more := MapOf(table.Contents), Lists + postings.Repr;
      forall k | k in m
        ensures Holds(m[k].postings, Index[m[k].word], more)
      {
        assert Stored(k, m[k]);
        HoldsWithMore(m[k].postings, Index[m[k].word], Lists, more);
      }
      AddToPostings(wp.postings, docid, postings, Index[wp.word], Lists);
    }

    // Null stands for "no results": an empty query, or no matching document.
    method Search(query: seq<Word>) returns (retlist: LinkedList?<SearchResult>)
      requires Valid() && NoEmptyPostings()
      ensures var meant := MeantQuery(hash, Index.Keys, query);
              && (retlist == null <==> query == [] || forall d: DocID :: !Matches(Index, meant, d))
              && (retlist != null ==>
                    && retlist.Valid() && fresh(retlist.Repr)
                    && ResultsFor(Index, meant, retlist.Contents) && DescendingRanks(retlist.Contents))
    {
      hide MemIndex.Valid, MemIndex.Stored, LinkedList.Valid, Meant;
      hide Matches, ResultsFor, DescendingRanks, Survives;
      ghost var meant := MeantQuery(hash, Index.Keys, query);
      if |query| == 0 {
        return null;
      }
      retlist := StartSearch(query, meant);
      if retlist == null {
        return null;
      }
      if |query| == 1 {
        assert meant[..1] == meant;
        SortResults(retlist, meant);
        return;
      }
      var i := 1;
      while i < |query|
        invariant 1 <= i <= |query|
        invariant retlist.Valid() && fresh(retlist.Repr) && retlist.Contents != []
        invariant ResultsFor(Index, meant[..i], retlist.Contents)
        invariant forall r | r in retlist.Contents :: Survives(r.docid)
      {
        var ok := NextWord(retlist, query, i, meant);
        if !ok {
          return null;
        }
        i := i + 1;
      }
      assert meant[..i] == meant;
      SortResults(retlist, meant);
    }

    // The results for the first query word.
    method StartSearch(query: seq<Word>, ghost meant: seq<Word>) returns (retlist: LinkedList?<SearchResult>)
      requires Valid() && NoEmptyPostings() && query != [] && meant == MeantQuery(hash, Index.Keys, query)
      ensures retlist == null ==> forall d: DocID :: !Matches(Index, meant, d)
      ensures retlist != null ==> retlist.Valid() && fresh(retlist.Repr) && retlist.Contents != []
      ensures retlist != null ==> ResultsFor(Index, meant[..1], retlist.Contents)
      ensures retlist != null ==> forall r | r in retlist.Contents :: Survives(r.docid)
    {
      hide MemIndex.Valid, LinkedList.Valid, Meant, Survives, Holds, Matches, ResultsFor;
      assert meant[..1] == [meant[0]];
      var wp := FindWord(query[0]);
      if wp == null {
        NoMatchWithout(Index, meant, meant[0]);
        return null;
      }
      retlist := FirstResults(wp.postings, Index[wp.word], Lists);
      ghost var d :| d in Index[wp.word];
      assert HasDoc(retlist.Contents, d);
      OneWordResults(Index, wp.word, retlist.Contents);
    }

    // Takes query word i into account; false when that leaves no document.
    method NextWord(retlist: LinkedList<SearchResult>, query: seq<Word>, i: nat, ghost meant: seq<Word>)
      returns (ok: bool)
      requires Valid() && 1 <= i < |query| && meant == MeantQuery(hash, Index.Keys, query)
      requires retlist.Valid() && retlist.Repr !! Repr && retlist.Contents != []
      requires ResultsFor(Index, meant[..i], retlist.Contents)
      requires forall r | r in retlist.Contents :: Survives(r.docid)
      modifies retlist.Repr
      ensures retlist.Valid() && retlist.Repr <= old(retlist.Repr)
      ensures !ok ==> forall d: DocID :: !Matches(Index, meant, d)
      ensures ok ==> retlist.Contents != [] && ResultsFor(Index, meant[..i + 1], retlist.Contents)
      ensures forall r | r in retlist.Contents :: Survives(r.docid)
    {
      hide MemIndex.Valid, LinkedList.Valid, Meant, Survives, Holds, Matches, ResultsFor, Intersected;
      assert meant[..i + 1] == meant[..i] + [meant[i]];
      var wp := FindWord(query[i]);
      if wp == null {
        NoMatchWithout(Index, meant, meant[i]);
        return false;
      }
      IntersectionExtends(Index, meant[..i], wp.word, retlist.Contents);
      IntersectedSurvive(retlist.Contents, Index[wp.word]);
      Intersect(retlist, wp.postings, Index[wp.word], Lists);
      var left := retlist.NumElements();
      if left == 0 {
        NoMatchForMore(Index, meant, i + 1);
      }
      ok := left != 0;
    }

    method SortResults(retlist: LinkedList<SearchResult>, ghost query: seq<Word>)
      requires retlist.Valid() && ResultsFor(Index, query, retlist.Contents) && retlist.Contents != []
      requires this !in retlist.Repr
      modifies retlist.Repr
      ensures retlist.Valid() && retlist.Repr == old(retlist.Repr)
      ensures ResultsFor(Index, query, retlist.Contents) && DescendingRanks(retlist.Contents)
      ensures exists d: DocID :: Matches(Index, query, d)
    {
      hide LinkedList.Valid, Matches, Rank;
      ghost var before := retlist.Contents;
      assert before[0] in before;
      assert Matches(Index, query, before[0].docid);
      retlist.Sort(false, SearchResultComparator);
      SortedResults(Index, query, before, retlist.Contents);
    }
  }

  lemma {:induction false} IntersectedSurvive(rs: seq<SearchResult>, p: Postings)
    requires forall r | r in rs :: Survives(r.docid)
    ensures forall r | r in Intersected(rs, p) :: Survives(r.docid)
    decreases |rs|
  {
    if rs != [] {
      assert rs[|rs| - 1] in rs;
      IntersectedSurvive(rs[..|rs| - 1], p);
    }
  }
}
