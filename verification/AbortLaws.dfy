// Exactly when a crawl passes every check in the program: that a record found for
// a word is that word's, that the iterator removes the pair it stands on, and that
// no document gets postings for a word twice.
//
// The checks look at words, keys and document ids only, so the tables here hold a
// word where those of the program hold a record with that word in it.
module AbortLaws {
  import opened Wrappers
  import opened ChainTable
  import opened TableLaws
  import opened SurvivorLaws
  import opened ReachableTables
  import opened WordSpec
  import opened FileParsing
  import opened DocTables
  import opened CorpusSpec
  import opened CrawlSpec
  import Fnv

  // --- The program on words. ---

  // What AddWordPosition does to the word table, and MemIndex_AddPostingList to
  // the outer table of the index, when a word arrives: None where they abort
  // because they have found a record of another word.
  function AddWord(hash: Word -> Key, t: Buckets<Word>, w: Word): (r: Option<Buckets<Word>>)
    requires 0 < |t|
    ensures r.Some? ==> 0 < |r.value|
  {
    match Find(t, hash(w))
    case Some(kv) => if kv.value == w then Some(t) else None
    case None => Some(Insert(t, KeyValue(hash(w), w)))
  }

  function AddWords(hash: Word -> Key, t: Buckets<Word>, ws: seq<Word>): (r: Option<Buckets<Word>>)
    requires 0 < |t|
    ensures r.Some? ==> 0 < |r.value|
  {
    if ws == [] then Some(t)
    else
      match AddWords(hash, t, ws[..|ws| - 1])
      case Some(t1) => AddWord(hash, t1, ws[|ws| - 1])
      case None => None
  }

  // The words of a text, in the order in which the parser meets them.
  function WordsUpTo(s: seq<Byte>, n: nat): seq<Word>
    requires n <= |s|
  {
    if n == 0 then []
    else WordsUpTo(s, n - 1) + if WordAt(s, n - 1).Some? then [WordAt(s, n - 1).value] else []
  }

  function Values(kvs: seq<KeyValue<Word>>): (ws: seq<Word>)
    ensures |ws| == |kvs| && forall i | 0 <= i < |ws| :: ws[i] == kvs[i].value
  {
    seq(|kvs|, i requires 0 <= i < |kvs| => kvs[i].value)
  }

  // The postings table of a record, of which only the keys matter.
  type DocIds = t: Buckets<()> | 0 < |t| witness [[]]

  // The inverted index: the table of records, and their postings tables.
  datatype Index = Index(table: Buckets<Word>, postings: map<Word, DocIds>)

  // The postings table of the record that is found for w, or that of a new record.
  function IdsFor(hash: Word -> Key, x: Index, w: Word): DocIds
    requires 0 < |x.table|
  {
    if Find(x.table, hash(w)).Some? && w in x.postings then x.postings[w] else EmptyBuckets(16)
  }

  // MemIndex_AddPostingList: None where it aborts, for a record of another word
  // or because the document has postings for this word already.
  function AddPostings(hash: Word -> Key, x: Index, w: Word, docid: Key): (r: Option<Index>)
    requires 0 < |x.table|
    ensures r.Some? ==> 0 < |r.value.table|
  {
    match AddWord(hash, x.table, w)
    case Some(t) =>
      var ids := IdsFor(hash, x, w);
      if Find(ids, docid).Some? then None
      else Some(Index(t, x.postings[w := Insert(ids, KeyValue(docid, ()))]))
    case None => None
  }

  function AddAllPostings(hash: Word -> Key, x: Index, ws: seq<Word>, docid: Key): (r: Option<Index>)
    requires 0 < |x.table|
    ensures r.Some? ==> 0 < |r.value.table|
  {
    if ws == [] then Some(x)
    else
      match AddAllPostings(hash, x, ws[..|ws| - 1], docid)
      case Some(y) => AddPostings(hash, y, ws[|ws| - 1], docid)
      case None => None
  }

  // What HandleFile does to the index: it parses the text into a fresh table,
  // and empties that table into the index under the number of the file.
  ghost function AddFile(hash: Word -> Key, x: Index, text: Text, docid: Key): (r: Option<Index>)
    requires 0 < |x.table|
    ensures r.Some? ==> 0 < |r.value.table|
  {
    match AddWords(hash, EmptyBuckets(32), WordsUpTo(text, |text|))
    case Some(t) => if DrainsCleanly(t) then AddAllPostings(hash, x, Values(Pairs(t)), docid) else None
    case None => None
  }

  // The names that DocTable_Add has numbered after these files.
  function Numbered(hash: Word -> Key, files: seq<Word>): (names: seq<Word>)
    ensures |names| <= |files|
  {
    if files == [] then []
    else
      var names, file := Numbered(hash, files[..|files| - 1]), files[|files| - 1];
      if FoundId(hash, names, file) != 0 then names else names + [file]
  }

  // The number that DocTable_Add gives to file i.
  function FileId(hash: Word -> Key, files: seq<Word>, i: nat): (id: nat)
    requires i < |files|
    ensures 1 <= id <= i + 1
  {
    var names := Numbered(hash, files[..i]);
    var known := FoundId(hash, names, files[i]);
    if known != 0 then known else |names| + 1
  }

  ghost function AddFiles(hash: Word -> Key, files: seq<Word>, docs: seq<Text>): (r: Option<Index>)
    requires |files| == |docs| < TWO_31
    ensures r.Some? ==> 0 < |r.value.table|
  {
    if docs == [] then Some(Index(EmptyBuckets(16), map[]))
    else
      var n := |docs| - 1;
      match AddFiles(hash, files[..n], docs[..n])
      case Some(x) => AddFile(hash, x, docs[n], FileId(hash, files, n))
      case None => None
  }

  // --- What adding words does to a table, whatever their hashes. ---

  ghost function StoredWords(t: Buckets<Word>): set<Word> {
    set p | p in Pairs(t) :: p.value
  }

  ghost function SetOf(ws: seq<Word>): set<Word> {
    set w | w in ws
  }

  // Every word is stored under its own hash.
  ghost predicate KeyedTable(hash: Word -> Key, t: Buckets<Word>) {
    InOrder(t) && forall p | p in Pairs(t) :: p.key == hash(p.value)
  }

  lemma EmptyIsKeyed(hash: Word -> Key, n: nat)
    requires 0 < n
    ensures KeyedTable(hash, EmptyBuckets(n)) && StoredWords(EmptyBuckets(n)) == {}
  {
    EmptyInOrder<Word>(n);
    PairsOfEmpty<Word>(n);
  }

  // If the program goes on, the table has the word besides what it had.
  lemma AddWordStores(hash: Word -> Key, t: Buckets<Word>, w: Word)
    requires KeyedTable(hash, t)
    ensures var r := AddWord(hash, t, w);
            r.Some? ==> KeyedTable(hash, r.value) && StoredWords(r.value) == StoredWords(t) + {w}
  {
    FindsOnlyNarrow(t, hash(w));
    var kv := KeyValue(hash(w), w);
    hide Pairs, Insert, InOrder;
    match Find(t, hash(w))
    case Some(found) =>
      hide Find;
      assert found.value in StoredWords(t);
      assert found.value == w ==> StoredWords(t) + {w} == StoredWords(t);
    case None =>
      var r := Insert(t, kv);
      InsertHasOneMore(t, kv);
      hide Find;
      assert kv in Pairs(r);
      assert StoredWords(r) == StoredWords(t) + {w};
  }

  lemma {:induction false} AddWordsStores(hash: Word -> Key, t: Buckets<Word>, ws: seq<Word>)
    requires KeyedTable(hash, t)
    ensures var r := AddWords(hash, t, ws);
            r.Some? ==> KeyedTable(hash, r.value) && StoredWords(r.value) == StoredWords(t) + SetOf(ws)
    decreases |ws|
  {
    assert 0 < |t|;
    hide KeyedTable, StoredWords, AddWord;
    if ws != [] {
      var init := ws[..|ws| - 1];
      AddWordsStores(hash, t, init);
      assert SetOf(ws) == SetOf(init) + {ws[|ws| - 1]};
      if AddWords(hash, t, init).Some? {
        AddWordStores(hash, AddWords(hash, t, init).value, ws[|ws| - 1]);
      }
    }
  }

  // Without losses and collisions it does go on.
  lemma AddWordPasses(hash: Word -> Key, t: Buckets<Word>, w: Word)
    requires KeyedTable(hash, t) && GoodOn(hash, StoredWords(t) + {w})
    ensures AddWord(hash, t, w).Some?
  {
    FindsOnlyNarrow(t, hash(w));
    hide Find, Pairs, Insert, InOrder;
    var found := Find(t, hash(w));
    assert found.Some? ==> found.value.value in StoredWords(t) + {w};
    assert w in StoredWords(t) + {w};
  }

  lemma {:induction false} AddWordsPass(hash: Word -> Key, t: Buckets<Word>, ws: seq<Word>)
    requires KeyedTable(hash, t) && GoodOn(hash, StoredWords(t) + SetOf(ws))
    ensures AddWords(hash, t, ws).Some?
    decreases |ws|
  {
    assert 0 < |t|;
    hide KeyedTable, StoredWords, AddWord, GoodOn;
    if ws != [] {
      var init, w := ws[..|ws| - 1], ws[|ws| - 1];
      assert SetOf(ws) == SetOf(init) + {w};
      GoodOnSubset(hash, StoredWords(t) + SetOf(init), StoredWords(t) + SetOf(ws));
      AddWordsPass(hash, t, init);
      AddWordsStores(hash, t, init);
      assert StoredWords(t) + SetOf(ws) == StoredWords(t) + SetOf(init) + {w};
      AddWordPasses(hash, AddWords(hash, t, init).value, w);
    }
  }

  // All keys of a table survive exactly if the hashes of its words do and do not
  // collide, since a key that survives is stored once.
  lemma AllSurviveIff(hash: Word -> Key, t: Buckets<Word>)
    requires KeyedTable(hash, t)
    ensures AllSurvive(t) <==> GoodOn(hash, StoredWords(t))
  {
    InOrderHasSurvivorsOnce(t);
    hide Pairs, InOrder, Survives;
    if AllSurvive(t) {
      forall v, w | v in StoredWords(t) && w in StoredWords(t) && hash(v) == hash(w)
        ensures v == w
      {
        var p :| p in Pairs(t) && p.value == v;
        var q :| q in Pairs(t) && q.value == w;
        StoredIsFoundIff(t, p);
        StoredIsFoundIff(t, q);
      }
    }
    if GoodOn(hash, StoredWords(t)) {
      forall p | p in Pairs(t)
        ensures Survives(p.key)
      {
        assert p.value in StoredWords(t);
      }
    }
  }

  // --- Files and corpora. ---

  // A file is parsed into a table that can be emptied again exactly if the hash
  // of every word survives and no two words collide.
  lemma ParseIff(hash: Word -> Key, n: nat, ws: seq<Word>)
    requires 0 < n
    ensures var r := AddWords(hash, EmptyBuckets(n), ws);
            && (r.Some? && DrainsCleanly(r.value) <==> GoodOn(hash, SetOf(ws)))
            && (r.Some? && DrainsCleanly(r.value) ==> GoodTable(hash, r.value) && StoredWords(r.value) == SetOf(ws))
  {
    var empty := EmptyBuckets<Word>(n);
    EmptyIsKeyed(hash, n);
    assert {} + SetOf(ws) == SetOf(ws);
    AddWordsStores(hash, empty, ws);
    if GoodOn(hash, SetOf(ws)) {
      AddWordsPass(hash, empty, ws);
    }
    var r := AddWords(hash, empty, ws);
    if r.Some? {
      AllSurviveIff(hash, r.value);
      InOrderHasSurvivorsOnce(r.value);
      DrainsCleanlyIff(r.value);
    }
  }

  lemma {:induction false} WordsUpToAre(s: seq<Byte>, n: nat)
    requires n <= |s|
    ensures SetOf(WordsUpTo(s, n)) == WordsBefore(s, n)
    decreases n
  {
    hide WordAt, WordsBefore;
    if n == 0 {
      NoWordsBefore(s);
    } else {
      WordsUpToAre(s, n - 1);
      forall w
        ensures w in SetOf(WordsUpTo(s, n)) <==> w in WordsBefore(s, n)
      {
        OneMorePlace(s, w, n - 1);
      }
    }
  }

  lemma NoWordsBefore(s: seq<Byte>)
    ensures WordsBefore(s, 0) == {}
  {
  }

  lemma ValuesAreStored(t: Buckets<Word>)
    ensures SetOf(Values(Pairs(t))) == StoredWords(t)
  {
    hide Pairs;
    var ps := Pairs(t);
    forall w | w in StoredWords(t)
      ensures w in SetOf(Values(ps))
    {
      var p :| p in ps && p.value == w;
      var i :| 0 <= i < |ps| && ps[i] == p;
      assert Values(ps)[i] == w;
    }
  }

  // A table all of whose words are found again.
  ghost predicate GoodTable(hash: Word -> Key, t: Buckets<Word>) {
    KeyedTable(hash, t) && AllSurvive(t)
  }

  // --- The index. ---

  // Every record has a postings table that represents a map.
  ghost predicate KeyedIndex(hash: Word -> Key, x: Index) {
    && 0 < |x.table| && KeyedTable(hash, x.table)
    && x.postings.Keys == StoredWords(x.table)
    && forall w | w in x.postings :: Canonical(x.postings[w])
  }

  // Document d has postings for w.
  ghost predicate Posted(x: Index, w: Word, d: Key) {
    w in x.postings && d in MapOf(x.postings[w])
  }

  // No word of ws has postings for document d.
  ghost predicate NonePosted(x: Index, ws: set<Word>, d: Key) {
    forall w | w in ws :: !Posted(x, w, d)
  }

  // y has the postings of x, and those of document d for the words of ws.
  ghost predicate PostedAlso(x: Index, ws: set<Word>, d: Key, y: Index) {
    forall v, e :: Posted(y, v, e) <==> Posted(x, v, e) || (v in ws && e == d)
  }

  // A word whose hash survives is found if it is stored.
  lemma FoundIfStored(hash: Word -> Key, t: Buckets<Word>, w: Word)
    requires KeyedTable(hash, t) && Survives(hash(w)) && w in StoredWords(t)
    ensures Find(t, hash(w)).Some?
  {
    InOrderHasSurvivorsOnce(t);
    hide Pairs, InOrder, Survives, Find;
    var p :| p in Pairs(t) && p.value == w;
    StoredIsFoundIff(t, p);
  }

  lemma FoundIsStored(t: Buckets<Word>, k: Key)
    requires 0 < |t|
    ensures Find(t, k).Some? ==> Find(t, k).value.value in StoredWords(t)
  {
    FindsOnlyNarrow(t, k);
  }

  // The postings table that a word leads to is its own.
  lemma IdsForAreOwn(hash: Word -> Key, x: Index, w: Word)
    requires KeyedIndex(hash, x) && Survives(hash(w)) && AddWord(hash, x.table, w).Some?
    ensures Canonical(IdsFor(hash, x, w))
    ensures forall d :: d in MapOf(IdsFor(hash, x, w)) <==> Posted(x, w, d)
  {
    assert 0 < |x.table|;
    FoundIsStored(x.table, hash(w));
    if w in StoredWords(x.table) {
      FoundIfStored(hash, x.table, w);
    }
    hide KeyedTable, StoredWords, Find, Insert, MapOf, Canonical, Survives, EmptyBuckets;
    EmptyIsEmptyMap<()>(16);
  }

  lemma OneMoreId(ids: DocIds, d: Key)
    requires Canonical(ids) && Survives(d)
    ensures Find(ids, d).Some? <==> d in MapOf(ids)
    ensures Canonical(Insert(ids, KeyValue(d, ())))
    ensures forall e :: e in MapOf(Insert(ids, KeyValue(d, ()))) <==> e in MapOf(ids) || e == d
  {
    FindReadsMap(ids, d);
    InsertUpdatesMap(ids, KeyValue(d, ()));
  }

  // Postings are added exactly if the word is, and the document has none for it.
  lemma AddPostingsIff(hash: Word -> Key, x: Index, w: Word, d: Key)
    requires KeyedIndex(hash, x) && Survives(hash(w)) && Survives(d)
    ensures var r := AddPostings(hash, x, w, d); var t := AddWord(hash, x.table, w);
            && (r.Some? <==> t.Some? && !Posted(x, w, d))
            && (r.Some? ==> KeyedIndex(hash, r.value) && r.value.table == t.value)
            && (r.Some? ==> PostedAlso(x, {w}, d, r.value))
  {
    hide AddWord, IdsFor, KeyedTable, StoredWords, Find, Insert, MapOf, Canonical, Survives;
    AddWordStores(hash, x.table, w);
    if AddWord(hash, x.table, w).Some? {
      IdsForAreOwn(hash, x, w);
      OneMoreId(IdsFor(hash, x, w), d);
    }
  }

  ghost predicate Distinct(ws: seq<Word>) {
    forall i, j | 0 <= i < j < |ws| :: ws[i] != ws[j]
  }

  lemma {:induction false} AddAllPostingsIff(hash: Word -> Key, x: Index, ws: seq<Word>, d: Key)
    requires KeyedIndex(hash, x) && Survives(d) && Distinct(ws)
    requires forall w | w in ws :: Survives(hash(w))
    ensures var r := AddAllPostings(hash, x, ws, d); var t := AddWords(hash, x.table, ws);
            && (r.Some? <==> t.Some? && NonePosted(x, SetOf(ws), d))
            && (r.Some? ==> KeyedIndex(hash, r.value) && r.value.table == t.value)
            && (r.Some? ==> PostedAlso(x, SetOf(ws), d, r.value))
    decreases |ws|
  {
    hide KeyedTable, StoredWords, Canonical, MapOf, Posted, AddPostings, AddWord, Survives;
    if ws != [] {
      var init, w := ws[..|ws| - 1], ws[|ws| - 1];
      assert ws == init + [w] && w !in init;
      AddAllPostingsIff(hash, x, init, d);
      var r := AddAllPostings(hash, x, init, d);
      if r.Some? {
        AddPostingsIff(hash, r.value, w, d);
      }
    }
  }

  // The words that a drained table hands out are different.
  lemma DrainedWordsDiffer(hash: Word -> Key, t: Buckets<Word>)
    requires GoodTable(hash, t)
    ensures Distinct(Values(Pairs(t)))
    ensures forall w | w in Values(Pairs(t)) :: Survives(hash(w))
  {
    InOrderHasSurvivorsOnce(t);
    CanonicalIff(t);
    PairsHaveUniqueKeys(t);
    hide InOrder, Pairs, Survives, Canonical;
    forall i | 0 <= i < |Pairs(t)|
      ensures Pairs(t)[i].key == hash(Values(Pairs(t))[i]) && Survives(Pairs(t)[i].key)
    {
      assert Pairs(t)[i] in Pairs(t);
    }
  }

  // An index that a crawl has built so far.
  ghost predicate GoodIndex(hash: Word -> Key, x: Index) {
    KeyedIndex(hash, x) && AllSurvive(x.table)
  }

  // Emptying a table into the index passes exactly if its words fit and none has
  // postings for the document.
  lemma AddDrainedIff(hash: Word -> Key, x: Index, parsed: Buckets<Word>, d: Key)
    requires GoodIndex(hash, x) && Survives(d) && GoodTable(hash, parsed)
    ensures var r := AddAllPostings(hash, x, Values(Pairs(parsed)), d); var ws := StoredWords(parsed);
            && (r.Some? <==> GoodOn(hash, StoredWords(x.table) + ws) && NonePosted(x, ws, d))
            && (r.Some? ==> GoodIndex(hash, r.value) && StoredWords(r.value.table) == StoredWords(x.table) + ws)
            && (r.Some? ==> PostedAlso(x, ws, d, r.value))
  {
    var vs := Values(Pairs(parsed));
    DrainedWordsDiffer(hash, parsed);
    ValuesAreStored(parsed);
    AllSurviveIff(hash, x.table);
    AddAllPostingsIff(hash, x, vs, d);
    AddWordsStores(hash, x.table, vs);
    var t := AddWords(hash, x.table, vs);
    hide Pairs, KeyedTable, StoredWords, AllSurvive, AddWords, AddAllPostings, GoodOn, Values;
    hide NonePosted, PostedAlso;
    if GoodOn(hash, StoredWords(x.table) + SetOf(vs)) {
      AddWordsPass(hash, x.table, vs);
    }
    if t.Some? {
      TableWithMore(hash, x.table, vs, t.value);
    }
  }

  lemma TableWithMore(hash: Word -> Key, t: Buckets<Word>, ws: seq<Word>, more: Buckets<Word>)
    requires GoodTable(hash, t) && KeyedTable(hash, more) && StoredWords(more) == StoredWords(t) + SetOf(ws)
    requires forall w | w in ws :: Survives(hash(w))
    ensures AllSurvive(more) && GoodOn(hash, StoredWords(more))
  {
    AllSurviveIff(hash, t);
    AllSurviveIff(hash, more);
    hide KeyedTable, StoredWords, AllSurvive, Survives;
    SurvivingWords(hash, more);
  }

  // A file is added without failing a check exactly if the hashes of its words
  // survive and collide neither with each other nor with the index, and none of
  // its words has postings under the number of the file.
  lemma AddFileIff(hash: Word -> Key, x: Index, text: Text, d: Key)
    requires GoodIndex(hash, x) && Survives(d)
    ensures var r := AddFile(hash, x, text, d); var ws := WordsIn(text);
            && (r.Some? <==> GoodOn(hash, StoredWords(x.table) + ws) && NonePosted(x, ws, d))
            && (r.Some? ==> GoodIndex(hash, r.value) && StoredWords(r.value.table) == StoredWords(x.table) + ws)
            && (r.Some? ==> PostedAlso(x, ws, d, r.value))
  {
    hide WordsUpTo, AddWords, EmptyBuckets, Pairs, Posted, StoredWords, WordsIn, GoodOn, Survives, MapOf;
    hide Canonical, InOrder, AllSurvive, DrainsCleanly, AddAllPostings, NonePosted, PostedAlso;
    ParsedFile(hash, text);
    if GoodOn(hash, WordsIn(text)) {
      var parsed := AddWords(hash, EmptyBuckets(32), WordsUpTo(text, |text|));
      AddDrainedIff(hash, x, parsed.value, d);
    } else if GoodOn(hash, StoredWords(x.table) + WordsIn(text)) {
      GoodOnSubset(hash, WordsIn(text), StoredWords(x.table) + WordsIn(text));
    }
  }

  lemma ParsedFile(hash: Word -> Key, text: Text)
    ensures var r := AddWords(hash, EmptyBuckets(32), WordsUpTo(text, |text|));
            && (r.Some? && DrainsCleanly(r.value) <==> GoodOn(hash, WordsIn(text)))
            && (GoodOn(hash, WordsIn(text)) ==> GoodTable(hash, r.value) && StoredWords(r.value) == WordsIn(text))
  {
    var ws := WordsUpTo(text, |text|);
    WordsUpToAre(text, |text|);
    ParseIff(hash, 32, ws);
    assert SetOf(ws) == WordsIn(text);
  }

  lemma SurvivingWords(hash: Word -> Key, t: Buckets<Word>)
    requires KeyedTable(hash, t) && forall w | w in StoredWords(t) :: Survives(hash(w))
    ensures AllSurvive(t)
  {
    hide Pairs, InOrder, Survives;
    forall p | p in Pairs(t)
      ensures Survives(p.key)
    {
      assert p.value in StoredWords(t);
    }
  }

  // --- The whole crawl. ---

  // A file with number d contains w.
  ghost predicate Occurs(hash: Word -> Key, files: seq<Word>, docs: seq<Text>, w: Word, d: nat)
    requires |files| == |docs|
  {
    exists i :: 0 <= i < |docs| && w in WordsIn(docs[i]) && FileId(hash, files, i) == d
  }

  // Files that get one number have no word in common.
  ghost predicate NoWordTwice(hash: Word -> Key, files: seq<Word>, docs: seq<Text>)
    requires |files| == |docs|
  {
    forall i, j | 0 <= i < j < |docs| && FileId(hash, files, i) == FileId(hash, files, j) ::
      WordsIn(docs[i]) !! WordsIn(docs[j])
  }

  lemma FileIdsStay(hash: Word -> Key, files: seq<Word>, n: nat)
    requires n <= |files|
    ensures forall i | 0 <= i < n :: FileId(hash, files[..n], i) == FileId(hash, files, i)
  {
    assert forall i | 0 <= i < n :: files[..n][..i] == files[..i];
  }

  lemma OccursInOneMore(hash: Word -> Key, files: seq<Word>, docs: seq<Text>, w: Word, d: nat)
    requires |files| == |docs| > 0
    ensures var n := |docs| - 1;
            Occurs(hash, files, docs, w, d) <==>
            Occurs(hash, files[..n], docs[..n], w, d) || (w in WordsIn(docs[n]) && d == FileId(hash, files, n))
  {
    var n := |docs| - 1;
    hide WordsIn, FileId;
    FileIdsStay(hash, files, n);
    if i :| 0 <= i < n && w in WordsIn(docs[..n][i]) && FileId(hash, files[..n], i) == d {
      assert w in WordsIn(docs[i]);
    }
    if i :| 0 <= i < n && w in WordsIn(docs[i]) && FileId(hash, files, i) == d {
      assert w in WordsIn(docs[..n][i]);
    }
  }

  // None of the words of the last file is in an earlier one with its number.
  ghost predicate LastIsNew(hash: Word -> Key, files: seq<Word>, docs: seq<Text>)
    requires |files| == |docs| > 0
  {
    var n := |docs| - 1;
    forall i | 0 <= i < n && FileId(hash, files, i) == FileId(hash, files, n) :: WordsIn(docs[i]) !! WordsIn(docs[n])
  }

  lemma TwiceInOneMore(hash: Word -> Key, files: seq<Word>, docs: seq<Text>)
    requires |files| == |docs| > 0
    ensures var n := |docs| - 1;
            NoWordTwice(hash, files, docs) <==> NoWordTwice(hash, files[..n], docs[..n]) && LastIsNew(hash, files, docs)
  {
    var n := |docs| - 1;
    hide WordsIn, FileId;
    FileIdsStay(hash, files, n);
    assert forall i | 0 <= i < n :: docs[..n][i] == docs[i];
  }

  // The postings of the index are the words of the files under their numbers.
  ghost predicate PostsWords(x: Index, hash: Word -> Key, files: seq<Word>, docs: seq<Text>)
    requires |files| == |docs|
  {
    forall w, d: Key :: Posted(x, w, d) <==> Occurs(hash, files, docs, w, d)
  }

  lemma NonePostedIff(x: Index, hash: Word -> Key, files: seq<Word>, docs: seq<Text>)
    requires |files| == |docs| < TWO_31 && 0 < |docs|
    requires PostsWords(x, hash, files[..|docs| - 1], docs[..|docs| - 1])
    ensures NonePosted(x, WordsIn(docs[|docs| - 1]), FileId(hash, files, |docs| - 1)) <==> LastIsNew(hash, files, docs)
  {
    var n := |docs| - 1;
    var d: Key := FileId(hash, files, n);
    hide WordsIn, FileId, Posted;
    FileIdsStay(hash, files, n);
    if NonePosted(x, WordsIn(docs[n]), d) {
      forall i, w | 0 <= i < n && FileId(hash, files, i) == d && w in WordsIn(docs[i])
        ensures w !in WordsIn(docs[n])
      {
        assert w in WordsIn(docs[..n][i]) && Occurs(hash, files[..n], docs[..n], w, d);
      }
    }
    if LastIsNew(hash, files, docs) {
      forall w | w in WordsIn(docs[n])
        ensures !Occurs(hash, files[..n], docs[..n], w, d)
      {
        assert forall i | 0 <= i < n :: docs[..n][i] == docs[i];
      }
    }
  }

  lemma PostsWordsOfOneMore(x: Index, y: Index, hash: Word -> Key, files: seq<Word>, docs: seq<Text>)
    requires |files| == |docs| < TWO_31 && 0 < |docs|
    requires PostsWords(x, hash, files[..|docs| - 1], docs[..|docs| - 1])
    requires PostedAlso(x, WordsIn(docs[|docs| - 1]), FileId(hash, files, |docs| - 1), y)
    ensures PostsWords(y, hash, files, docs)
  {
    hide WordsIn, FileId, Posted, Occurs;
    forall w, d: Key
      ensures Posted(y, w, d) <==> Occurs(hash, files, docs, w, d)
    {
      OccursInOneMore(hash, files, docs, w, d);
    }
  }

  lemma NothingCrawled(hash: Word -> Key)
    ensures var x := Index(EmptyBuckets(16), map[]);
            && GoodIndex(hash, x) && StoredWords(x.table) == AllWords([]) && PostsWords(x, hash, [], [])
    ensures GoodOn(hash, AllWords([])) && NoWordTwice(hash, [], [])
  {
    EmptyIsKeyed(hash, 16);
    PairsOfEmpty<Word>(16);
  }

  // A crawl passes every check of the program exactly if the hash of every word
  // of the corpus survives hasKey, no two words collide, and no two files with one
  // number share a word.
  lemma {:induction false} CrawlPassesIff(hash: Word -> Key, files: seq<Word>, docs: seq<Text>)
    requires |files| == |docs| < TWO_31
    ensures var r := AddFiles(hash, files, docs);
            && (r.Some? <==> GoodOn(hash, AllWords(docs)) && NoWordTwice(hash, files, docs))
            && (r.Some? ==> GoodIndex(hash, r.value) && StoredWords(r.value.table) == AllWords(docs))
            && (r.Some? ==> PostsWords(r.value, hash, files, docs))
    decreases |docs|
  {
    hide AddFile, AllWords, WordsIn, KeyedIndex, AllSurvive, StoredWords, GoodOn, FileId, NoWordTwice, Survives;
    hide NonePosted, PostedAlso, PostsWords, LastIsNew;
    if docs == [] {
      NothingCrawled(hash);
    } else {
      var n := |docs| - 1;
      var init, text := docs[..n], docs[n];
      CrawlPassesIff(hash, files[..n], init);
      assert docs == init + [text];
      WordsOfOneMore(init, text);
      TwiceInOneMore(hash, files, docs);
      SmallKeysSurvive(FileId(hash, files, n));
      var r := AddFiles(hash, files[..n], init);
      if r.Some? {
        NonePostedIff(r.value, hash, files, docs);
        AddFileIff(hash, r.value, text, FileId(hash, files, n));
        var r' := AddFiles(hash, files, docs);
        if r'.Some? {
          PostsWordsOfOneMore(r.value, r'.value, hash, files, docs);
        }
      } else if GoodOn(hash, AllWords(docs)) {
        GoodOnSubset(hash, AllWords(init), AllWords(docs));
      }
    }
  }

  // --- What the checks leave open. ---

  // Names of which none is taken for an earlier one, as the results on searches
  // assume them, are those that get the numbers 1, 2, 3, ...
  lemma {:induction false} NamesApartIff(hash: Word -> Key, files: seq<Word>)
    ensures NamesApart(hash, files) <==> Numbered(hash, files) == files
    ensures NamesApart(hash, files) <==> forall i: nat | i < |files| :: FileId(hash, files, i) == i + 1
    decreases |files|
  {
    hide FoundId, NamesApart, FileId;
    if files == [] {
      NamesApartInNothing(hash);
    } else {
      var n := |files| - 1;
      var init := files[..n];
      NamesApartIff(hash, init);
      FileIdsStay(hash, files, n);
      NamesApartInOneMore(hash, files);
      assert files == init + [files[n]];
    }
  }

  lemma NamesApartInNothing(hash: Word -> Key)
    ensures NamesApart(hash, [])
  {
  }

  lemma NamesApartInOneMore(hash: Word -> Key, files: seq<Word>)
    requires files != []
    ensures var n := |files| - 1;
            && (NamesApart(hash, files) <==> NamesApart(hash, files[..n]) && FoundId(hash, files[..n], files[n]) == 0)
            && (Numbered(hash, files[..n]) == files[..n] ==>
                  (FileId(hash, files, n) == n + 1 <==> FoundId(hash, files[..n], files[n]) == 0))
  {
    var n := |files| - 1;
    hide FoundId;
    assert forall i | 0 <= i < n :: files[..n][..i] == files[..i] && files[..n][i] == files[i];
  }

  // Then only the words matter.
  lemma ApartNamesPass(hash: Word -> Key, files: seq<Word>, docs: seq<Text>)
    requires |files| == |docs| < TWO_31 && NamesApart(hash, files)
    ensures AddFiles(hash, files, docs).Some? <==> GoodOn(hash, AllWords(docs))
  {
    NamesApartIff(hash, files);
    CrawlPassesIff(hash, files, docs);
    hide AddFiles, FileId, WordsIn, AllWords, GoodOn;
  }

  // The number of a file whose hash survives is found from then on.
  lemma {:induction false} NumberStays(hash: Word -> Key, files: seq<Word>, i: nat, j: nat)
    requires i < j <= |files| && Survives(hash(files[i]))
    ensures IdOfHash(hash, Numbered(hash, files[..j]), hash(files[i])) == FileId(hash, files, i)
    decreases j
  {
    hide FoundId, Survives;
    var names := Numbered(hash, files[..j - 1]);
    assert files[..j][..j - 1] == files[..j - 1];
    FoundIdIff(hash, names, files[j - 1]);
    assert (names + [files[j - 1]])[..|names|] == names;
    if i < j - 1 {
      NumberStays(hash, files, i, j - 1);
    }
  }

  // A crawl that meets a file again under its name aborts, if the name is found
  // again and the two texts share a word.
  lemma SecondTimeAborts(hash: Word -> Key, files: seq<Word>, docs: seq<Text>, i: nat, j: nat)
    requires |files| == |docs| < TWO_31 && i < j < |files|
    requires files[i] == files[j] && Survives(hash(files[i]))
    requires !(WordsIn(docs[i]) !! WordsIn(docs[j]))
    ensures AddFiles(hash, files, docs).None?
  {
    hide FoundId, AddFiles, WordsIn, Survives, Numbered, IdOfHash, GoodOn, AllWords;
    CrawlPassesIff(hash, files, docs);
    NumberStays(hash, files, i, j);
    FoundIdIff(hash, Numbered(hash, files[..j]), files[j]);
    assert FileId(hash, files, i) == FileId(hash, files, j);
  }

  // In the index of a crawl, a query word's lookup gives the word's own entry,
  // or nothing if it has none, exactly if no other word of the index lies where
  // the narrowed hash leads.
  lemma QueryWordIff(hash: Word -> Key, t: Buckets<Word>, w: Word)
    requires GoodTable(hash, t)
    ensures var h := hash(w);
            Find(t, h) == (if w in StoredWords(t) then Some(KeyValue(h, w)) else None) <==>
            forall v | v in StoredWords(t) && hash(v) == Narrow(h) && BucketOf(Narrow(h), |t|) == BucketOf(h, |t|) ::
              v == w
  {
    var h := hash(w);
    InOrderHasSurvivorsOnce(t);
    CanonicalIff(t);
    FindsOnlyNarrow(t, h);
    FindReadsNarrow(t, h);
    hide Canonical, Pairs, Find, MapOf, Survives, Narrow, SurvivorsOnce, InOrder;
    forall v | v in StoredWords(t)
      ensures hash(v) in MapOf(t) && MapOf(t)[hash(v)] == v
      ensures v == w ==> Find(t, h) == Some(KeyValue(h, w))
    {
      var p :| p in Pairs(t) && p.value == v;
      StoredIsFoundIff(t, p);
      FindReadsNarrow(t, p.key);
      LookupIff(t, p.key, v);
      MapOfIs(t, p.key);
    }
  }

  function FnvHash(word: Word): Key {
    Fnv.Rounds(Fnv.FNV1_64_INIT, word)
  }

  // With the program's own hash, a crawl that meets the word "a" aborts.
  lemma WordAborts(files: seq<Word>, docs: seq<Text>)
    requires |files| == |docs| < TWO_31 && ['a' as int] in AllWords(docs)
    ensures AddFiles(FnvHash, files, docs).None?
  {
    hide AddFiles, AllWords, Fnv.Rounds, NoWordTwice;
    Fnv.HashOfA();
    CrawlPassesIff(FnvHash, files, docs);
  }
}
