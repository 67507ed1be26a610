// hw2/DocTable.c: two hash tables that number document names 1, 2, 3, ...
//
// A name for whose hash the table of names finds an earlier name is taken for
// that name.  FoundId says exactly when that is, FoundIdIff and NameLaw what it
// comes to.
module DocTables {
  import opened Wrappers
  import opened ChainTable
  import opened TableLaws
  import opened SurvivorLaws
  import opened ReachableTables
  import opened HashTables
  import opened WordSpec
  import opened FileParsing

  const INVALID_DOCID: Key := 0

  // The number of the name with this hash, or INVALID_DOCID.
  function IdOfHash(hash: Word -> Key, names: seq<Word>, h: Key): (id: nat)
    ensures id <= |names|
    ensures id != 0 ==> hash(names[id - 1]) == h
    ensures id == 0 ==> forall i | 0 <= i < |names| :: hash(names[i]) != h
  {
    if names == [] then 0
    else if hash(names[|names| - 1]) == h then |names|
    else IdOfHash(hash, names[..|names| - 1], h)
  }

  function IdOf(hash: Word -> Key, names: seq<Word>, name: Word): nat {
    IdOfHash(hash, names, hash(name))
  }

  // The number that DocTable_Add and DocTable_GetDocID find for a name, or 0: that
  // of the earlier name whose hash is the narrowed hash of this one, if the two
  // hashes share a bucket.
  function FoundId(hash: Word -> Key, names: seq<Word>, name: Word): (id: nat)
    ensures id <= |names|
  {
    if ShareBucket(hash(name), |names|) then IdOfHash(hash, names, Narrow(hash(name))) else 0
  }

  // A key and its narrowed form share a bucket in the tables of n documents.
  predicate ShareBucket(k: Key, n: nat) {
    var size := BucketsAfter(2, n);
    BucketOf(Narrow(k), size) == BucketOf(k, size)
  }

  // Whether a name is found, and which; for a hash that survives, the name with
  // that hash.
  lemma FoundIdIff(hash: Word -> Key, names: seq<Word>, name: Word)
    ensures FoundId(hash, names, name) != 0 <==>
            ShareBucket(hash(name), |names|) && exists i :: 0 <= i < |names| && hash(names[i]) == Narrow(hash(name))
    ensures FoundId(hash, names, name) != 0 ==>
              hash(names[FoundId(hash, names, name) - 1]) == Narrow(hash(name))
    ensures Survives(hash(name)) ==> FoundId(hash, names, name) == IdOf(hash, names, name)
  {
  }

  ghost function NameSet(names: seq<Word>): set<Word> {
    set n | n in names
  }

  ghost predicate DistinctHashes(hash: Word -> Key, names: seq<Word>) {
    forall i, j | 0 <= i < j < |names| :: hash(names[i]) != hash(names[j])
  }

  // Without collisions, numbering is a bijection between names and 1..|names|.
  lemma NameLaw(hash: Word -> Key, names: seq<Word>, name: Word)
    requires GoodOn(hash, NameSet(names) + {name}) && DistinctHashes(hash, names)
    ensures FoundId(hash, names, name) == IdOf(hash, names, name)
    ensures IdOf(hash, names, name) != 0 <==> name in names
    ensures name in names ==> names[IdOf(hash, names, name) - 1] == name
    ensures forall i | 0 <= i < |names| :: IdOf(hash, names, names[i]) == i + 1
  {
    var id := IdOf(hash, names, name);
    assert name in NameSet(names) + {name};
    FoundIdIff(hash, names, name);
    if id != 0 {
      assert names[id - 1] in NameSet(names);
    }
    forall i | 0 <= i < |names|
      ensures IdOf(hash, names, names[i]) == i + 1
    {
      IdOfOwn(hash, names, i + 1);
    }
  }

  lemma IdOfOwn(hash: Word -> Key, names: seq<Word>, id: nat)
    requires DistinctHashes(hash, names) && 1 <= id <= |names|
    ensures IdOf(hash, names, names[id - 1]) == id
  {
    var j := IdOf(hash, names, names[id - 1]);
    assert j != 0;
  }

  class DocTable {
    const hash: Word -> Key
    const docidToDocname: HashTable<Word>
    const docnameToDocid: HashTable<nat>
    var maxId: nat

    ghost var Names: seq<Word>    // Names[id - 1] is the name of document id
    ghost var Repr: set<object>

    ghost predicate Valid()
      reads this, Repr
      ensures Valid() ==> this in Repr
    {
      && this in Repr && docidToDocname in Repr && docnameToDocid in Repr
      && docidToDocname.Repr <= Repr - {this} && docnameToDocid.Repr <= Repr - {this}
      && docidToDocname.Repr !! docnameToDocid.Repr
      && docidToDocname.Valid() && Canonical(docidToDocname.Contents)
      && docnameToDocid.Valid() && IdsStored(hash, Names, docnameToDocid.Contents)
      && maxId == |Names| + 1 <= TWO_31
      && MapOf(docidToDocname.Contents) == NamesById(Names)
      && |docidToDocname.Contents| == BucketsAfter(2, |Names|)
    }

    constructor (hash: Word -> Key)
      ensures Valid() && fresh(Repr) && Names == [] && this.hash == hash
    {
      hide HashTable.Valid, HashTable.Chained, MapOf, Canonical, Placed, Lookup, InOrder;
      this.hash := hash;
      docidToDocname := new HashTable<Word>(2);
      docnameToDocid := new HashTable<nat>(2);
      maxId := 1;
      Names := [];
      new;
      Repr := {this} + docidToDocname.Repr + docnameToDocid.Repr;
      EmptyIsEmptyMap<Word>(2);
      EmptyInOrder<nat>(2);
      PairsOfEmpty<nat>(2);
      assert NamesById([]) == map[];
    }

    method NumDocs() returns (n: nat)
      requires Valid()
      ensures n == |Names|
    {
      hide HashTable.Chained, MapOf, Pairs, IdsStored;
      CountIsMapSize(docidToDocname.Contents);
      NumberOfIds(Names);
      n := docidToDocname.NumElements();
    }

    // Names whose hashes survive have different hashes.
    lemma SurvivingNamesDiffer()
      requires Valid()
      ensures forall i, j | 0 <= i < j < |Names| && Survives(hash(Names[i])) :: hash(Names[i]) != hash(Names[j])
    {
      hide HashTable.Valid, HashTable.Chained, MapOf, Canonical, Survives, IdsStored, ChainTable.Find, NamesById;
      forall i, j | 0 <= i < j < |Names| && Survives(hash(Names[i]))
        ensures hash(Names[i]) != hash(Names[j])
      {
        if hash(Names[i]) == hash(Names[j]) {
          NameIsFound(hash, Names, docnameToDocid.Contents, i);
          NameIsFound(hash, Names, docnameToDocid.Contents, j);
        }
      }
    }

    // Gives the name the next number, unless the table of names finds the hash of
    // an earlier name for it.
    method Add(docname: Word) returns (docid: nat)
      requires Valid() && |Names| + 1 < TWO_31
      modifies Repr
      ensures Valid() && fresh(Repr - old(Repr))
      ensures var known := FoundId(hash, old(Names), docname);
              if known != 0 then docid == known && Names == old(Names)
              else docid == |Names| && Names == old(Names) + [docname]
    {
      hide HashTable.Valid, HashTable.Chained, MapOf, Canonical, Placed, Lookup, Insert, Grow, Pairs;
      hide IdsStored, NamesById, FoundId, BucketsAfter;
      var res := hash(docname);
      IdFound(hash, Names, docnameToDocid.Contents, docname);
      var found, oldkv := docnameToDocid.Find(res);
      if found {
        return oldkv.value.value;
      }
      docid := maxId;
      maxId := maxId + 1;
      InsertBoth(docid, res, docname);
    }

    // The two insertions for a name that is new.
    method InsertBoth(docid: Key, res: Key, docname: Word)
      requires maxId == |Names| + 2 <= TWO_31 && docid == |Names| + 1 && res == hash(docname)
      requires this in Repr && docidToDocname in Repr && docnameToDocid in Repr
      requires docidToDocname.Repr <= Repr - {this} && docnameToDocid.Repr <= Repr - {this}
      requires docidToDocname.Repr !! docnameToDocid.Repr
      requires docidToDocname.Valid() && Canonical(docidToDocname.Contents)
      requires docnameToDocid.Valid() && IdsStored(hash, Names, docnameToDocid.Contents)
      requires ChainTable.Find(docnameToDocid.Contents, res).None?
      requires MapOf(docidToDocname.Contents) == NamesById(Names)
      requires |docidToDocname.Contents| == BucketsAfter(2, |Names|)
      modifies Repr
      ensures Valid() && fresh(Repr - old(Repr))
      ensures Names == old(Names) + [docname]
    {
      hide HashTable.Valid, HashTable.Chained, MapOf, Canonical, Placed, Lookup, Insert, Grow, Pairs;
      hide IdsStored, NamesById, IdOfHash, Survives;
      SmallKeysSurvive(docid);
      var kv := KeyValue(docid, docname);
      InsertUpdatesMap(docidToDocname.Contents, kv);
      SizeAfterAdd(docidToDocname.Contents, kv, Names);
      var _, _ := docidToDocname.Insert(kv);
      var kv' := KeyValue(res, docid as nat);
      OneMoreIdStored(hash, Names, docnameToDocid.Contents, docname);
      var _, _ := docnameToDocid.Insert(kv');
      NamesAfterAdd(Names, docname);
      Repr := Repr + docidToDocname.Repr + docnameToDocid.Repr;
      Names := Names + [docname];
    }

    // The number that is found for this name, or INVALID_DOCID.
    method GetDocID(docname: Word) returns (docid: nat)
      requires Valid()
      ensures docid == FoundId(hash, Names, docname)
    {
      hide HashTable.Valid, HashTable.Chained, MapOf, Canonical, Placed, Lookup, Pairs, IdsStored, FoundId;
      IdFound(hash, Names, docnameToDocid.Contents, docname);
      var found, kv := docnameToDocid.Find(hash(docname));
      if !found {
        return INVALID_DOCID;
      }
      return kv.value.value;
    }

    // The name of exactly the ids that were given out.  An id that does not
    // survive is taken for the narrowed id if the two share a bucket.
    method GetDocName(docid: Key) returns (name: Option<Word>)
      requires Valid() && docid != INVALID_DOCID
      ensures Survives(docid) ==> name == if docid <= |Names| then Some(Names[docid - 1]) else None
      ensures var id := Narrow(docid);
              name == if 1 <= id <= |Names| && ShareBucket(docid, |Names|) then Some(Names[id - 1]) else None
    {
      hide HashTable.Valid, HashTable.Chained, MapOf, Canonical, Placed, Lookup, Pairs, IdsStored, ChainTable.Find;
      FindReadsNarrow(docidToDocname.Contents, docid);
      if Survives(docid) {
        FindReadsMap(docidToDocname.Contents, docid);
      }
      var found, kv := docidToDocname.Find(docid);
      if !found {
        return None;
      }
      return Some(kv.value.value);
    }
  }

  // The contents of the two tables.
  ghost function NamesById(names: seq<Word>): map<Key, Word>
    requires |names| < TWO_31
  {
    map id | id in Ids(|names|) :: names[id - 1]
  }

  ghost function Ids(n: nat): (ids: set<Key>)
    requires n < TWO_64
    ensures forall id :: id in ids <==> 1 <= id <= n
  {
    if n == 0 then {} else Ids(n - 1) + {n as Key}
  }

  lemma SizeAfterAdd(t: Buckets<Word>, kv: KeyValue<Word>, names: seq<Word>)
    requires Canonical(t) && |names| < TWO_31 && MapOf(t) == NamesById(names) && |t| == BucketsAfter(2, |names|)
    ensures |Insert(t, kv)| == BucketsAfter(2, |names| + 1)
  {
    CountIsMapSize(t);
    NumberOfIds(names);
    hide Pairs, MapOf, NamesById, Canonical, InsertNoResize;
  }

  // The pair for name i.
  function IdPair(hash: Word -> Key, names: seq<Word>, i: nat): KeyValue<nat>
    requires i < |names|
  {
    KeyValue(hash(names[i]), i + 1)
  }

  // The pair holds the number of a name and the hash of that name.
  ghost predicate IsIdPair(hash: Word -> Key, names: seq<Word>, p: KeyValue<nat>) {
    1 <= p.value <= |names| && p.key == hash(names[p.value - 1])
  }

  // The table of names: every pair in it is right, and every name is in it.
  ghost predicate IdsStored(hash: Word -> Key, names: seq<Word>, t: Buckets<nat>) {
    && InOrder(t)
    && (forall p | p in Pairs(t) :: IsIdPair(hash, names, p))
    && (forall i: nat | i < |names| :: IdPair(hash, names, i) in Pairs(t))
    && |Pairs(t)| == |names| && |t| == BucketsAfter(2, |names|)
  }

  lemma NameIsFound(hash: Word -> Key, names: seq<Word>, t: Buckets<nat>, i: nat)
    requires IdsStored(hash, names, t) && i < |names| && Survives(hash(names[i]))
    ensures Find(t, hash(names[i])) == Some(IdPair(hash, names, i))
  {
    hide Find, Survives, Pairs;
    InOrderHasSurvivorsOnce(t);
    StoredIsFoundIff(t, IdPair(hash, names, i));
  }

  // What the table of names finds for a name.
  lemma IdFound(hash: Word -> Key, names: seq<Word>, t: Buckets<nat>, name: Word)
    requires IdsStored(hash, names, t)
    ensures var f := Find(t, hash(name)); var id := FoundId(hash, names, name);
            (f.Some? <==> id != 0) && (f.Some? ==> f.value.value == id)
  {
    var h := hash(name);
    var f, id := Find(t, h), IdOfHash(hash, names, Narrow(h));
    NarrowIsNarrow(h);
    hide Find, Pairs, IdOfHash, Narrow, BucketsAfter, BucketOf;
    FindsOnlyNarrow(t, h);
    FindsInBucket(t, h);
    hide InOrder;
    assert f.Some? ==> IsIdPair(hash, names, f.value);
    if id != 0 {
      var p := IdPair(hash, names, id - 1);
      NameIsFound(hash, names, t, id - 1);
      if f.Some? {
        NameIsFound(hash, names, t, f.value.value - 1);
      }
      if ShareBucket(h, |names|) {
        StoredIsFound(t, h, p);
      }
    }
  }

  lemma NewIdPair(hash: Word -> Key, names: seq<Word>, name: Word, p: KeyValue<nat>)
    requires IsIdPair(hash, names, p) || p == IdPair(hash, names + [name], |names|)
    ensures IsIdPair(hash, names + [name], p)
  {
  }

  lemma OneMoreIdStored(hash: Word -> Key, names: seq<Word>, t: Buckets<nat>, name: Word)
    requires IdsStored(hash, names, t) && Find(t, hash(name)).None?
    ensures IdsStored(hash, names + [name], Insert(t, IdPair(hash, names + [name], |names|)))
  {
    var kv := IdPair(hash, names + [name], |names|);
    hide Find, Insert, Pairs, InOrder, IsIdPair;
    InsertHasOneMore(t, kv);
    MoreIdPairs(hash, names, Pairs(t), name, Pairs(Insert(t, kv)));
  }

  // The pairs of a longer list of names.
  lemma MoreIdPairs(hash: Word -> Key, names: seq<Word>, ps: seq<KeyValue<nat>>, name: Word, qs: seq<KeyValue<nat>>)
    requires forall p :: p in qs <==> p in ps || p == IdPair(hash, names + [name], |names|)
    requires forall p | p in ps :: IsIdPair(hash, names, p)
    requires forall i: nat | i < |names| :: IdPair(hash, names, i) in ps
    ensures forall p | p in qs :: IsIdPair(hash, names + [name], p)
    ensures forall i: nat | i < |names + [name]| :: IdPair(hash, names + [name], i) in qs
  {
    var more := names + [name];
    hide IsIdPair;
    forall p | p in qs
      ensures IsIdPair(hash, more, p)
    {
      NewIdPair(hash, names, name, p);
    }
    forall i: nat | i < |more|
      ensures IdPair(hash, more, i) in qs
    {
      if i < |names| {
        assert IdPair(hash, more, i) == IdPair(hash, names, i);
      }
    }
  }

  lemma SmallKeysSurvive(k: Key)
    requires k < TWO_31
    ensures Survives(k)
  {
  }

  lemma NamesAfterAdd(names: seq<Word>, name: Word)
    requires |names| + 1 < TWO_31
    ensures NamesById(names + [name]) == NamesById(names)[|names| + 1 := name]
  {
  }

  lemma {:induction false} NumberOfIds(names: seq<Word>)
    requires |names| < TWO_31
    ensures |NamesById(names)| == |names|
    decreases |names|
  {
    if names == [] {
      assert NamesById(names) == map[];
    } else {
      var init := names[..|names| - 1];
      NumberOfIds(init);
      assert NamesById(names) == NamesById(init)[|names| := names[|names| - 1]];
      assert |names| !in NamesById(init);
    }
  }
}
