// hw2/CrawlFileTree.c: putting one file into the index, and walking a tree.
module CrawlFileTrees {
  import opened Wrappers
  import opened LinkedLists
  import opened ChainTable
  import opened HashTables
  import opened WordSpec
  import opened FileParsing
  import opened DocTables
  import opened SearchSpec
  import opened CorpusSpec
  import opened MemIndexes
  import opened FileTree
  import opened CrawlSpec

  // The index and the document table describe the corpus docs, whose texts
  // came from the files names.
  ghost predicate Describes(doctable: DocTable, index: MemIndex, names: seq<Word>, docs: seq<Text>)
    reads doctable, doctable.Repr, index, index.Repr
    ensures Describes(doctable, index, names, docs) ==> |names| == |docs| && doctable.hash == index.hash
  {
    && doctable.Valid() && index.Valid() && doctable.Repr !! index.Repr
    && doctable.hash == index.hash
    && |docs| == |names| < TWO_31 && doctable.Names == names
    && index.Index == CorpusIndex(docs)
  }

  // Reads and parses one file and adds its words to the index.  filecontents
  // is what ReadFileToString returned, null if the file could not be read.
  method HandleFile(fpath: Word, filecontents: array?<Byte>, doctable: DocTable, index: MemIndex,
                    ghost names: seq<Word>, ghost docs: seq<Text>)
    returns (ghost indexed: bool)
    requires Describes(doctable, index, names, docs)
    requires filecontents != null ==> NUL in filecontents[..] && filecontents !in doctable.Repr + index.Repr
    requires filecontents != null && Indexable(CString(filecontents[..])) ==>
               |docs| + 1 < TWO_31 && FoundId(index.hash, names, fpath) == 0
    requires filecontents != null && IsAscii(CString(filecontents[..])) ==>
               GoodOn(index.hash, AllWords(docs) + WordsIn(CString(filecontents[..])))
    modifies filecontents, doctable.Repr, index.Repr
    ensures indexed == (filecontents != null && Indexable(CString(old(filecontents[..]))))
    ensures if indexed
            then Describes(doctable, index, names + [fpath], docs + [CString(old(filecontents[..]))])
            else Describes(doctable, index, names, docs)
    ensures fresh(doctable.Repr - old(doctable.Repr)) && fresh(index.Repr - old(index.Repr))
  {
    hide DocTable.Valid, MemIndex.Valid, WordTable.Valid, HashTable.Valid, HTIterator.Valid;
    hide CorpusIndex, AllWords, WordsIn, GoodOn, FoundId, IsAscii, Survives, DocumentWords, CString;
    indexed := filecontents != null && Indexable(CString(filecontents[..]));
    if filecontents != null && IsAscii(CString(filecontents[..])) {
      ghost var ws := WordsIn(CString(filecontents[..]));
      GoodOnSubset(index.hash, ws, AllWords(docs) + ws);
    }
    ghost var text := if filecontents != null then CString(filecontents[..]) else [];
    var tab := ParseIntoWordPositionsTable(filecontents, index.hash);
    if tab == null {
      return;
    }
    var docID := doctable.Add(fpath);
    DrainInto(tab, index, docID, docs, text);
  }

  // The loop of HandleFile: every word leaves the table and enters the index.
  method DrainInto(tab: WordTable, index: MemIndex, docID: nat, ghost docs: seq<Text>, ghost text: Text)
    requires tab.Valid() && index.Valid() && tab.Repr !! index.Repr && tab.hash == index.hash
    requires |docs| + 1 < TWO_31 && docID == |docs| + 1 && index.Index == CorpusIndex(docs)
    requires tab.Words == DocumentWords(text)
    requires GoodOn(index.hash, AllWords(docs) + WordsIn(text))
    modifies tab.Repr, index.Repr
    ensures index.Valid() && index.Index == CorpusIndex(docs + [text])
    ensures fresh(index.Repr - old(index.Repr) - old(tab.Repr))
  {
    hide MemIndex.Valid, WordTable.Valid, HashTable.Valid, HTIterator.Valid;
    hide CorpusIndex, Merge, GoodOn, DocumentWords, AddPosting, Pairs, Partition;
    ghost var before, all := index.Index, tab.Words;
    ghost var done := map[];
    MergeNothing(before, docID);
    PartitionStarts(all);
    var it := tab.NewIterator();
    var valid := it.IsValid();
    tab.CountWords();
    while valid
      invariant tab.Valid() && index.Valid() && it.Valid() && it.ht == tab.tab && it.pos == 0
      invariant tab.Repr !! index.Repr && it.Repr !! tab.Repr && it.Repr !! index.Repr && fresh(it.Repr)
      invariant fresh(tab.Repr - old(tab.Repr)) && fresh(index.Repr - old(index.Repr) - old(tab.Repr))
      invariant valid == (tab.Words != map[])
      invariant Partition(all, done, tab.Words)
      invariant index.Index == Merge(before, docID, done)
      decreases |tab.Words|
    {
      ghost var left := tab.Words;
      ghost var w;
      valid, w := DrainOne(tab, it, index, docID, docs, text, done);
      PartitionMoves(all, done, left, w);
      FewerWords(left, w);
      MergeOneMore(before, docID, done, w, left[w]);
      done := done[w := left[w]];
    }
    assert done == all by { PartitionEnds(all, done); }
    MergeDocument(docs, text);
  }

  // The loop body of HandleFile.
  method DrainOne(tab: WordTable, it: HTIterator<WordPositions>, index: MemIndex, docID: nat,
                  ghost docs: seq<Text>, ghost text: Text, ghost done: map<Word, seq<nat>>)
    returns (valid: bool, ghost w: Word)
    requires tab.Valid() && index.Valid() && it.Valid() && it.ht == tab.tab && it.pos == 0
    requires tab.Repr !! index.Repr && it.Repr !! tab.Repr && it.Repr !! index.Repr
    requires |docs| + 1 < TWO_31 && docID == |docs| + 1 && GoodOn(index.hash, AllWords(docs) + WordsIn(text))
    requires tab.Words != map[] && Partition(DocumentWords(text), done, tab.Words)
    requires index.Index == Merge(CorpusIndex(docs), docID, done)
    modifies tab.Repr, it.Repr, index.Repr
    ensures tab.Valid() && index.Valid() && it.Valid() && it.pos == 0
    ensures tab.Repr !! index.Repr && it.Repr !! tab.Repr && it.Repr !! index.Repr
    ensures fresh(tab.Repr - old(tab.Repr)) && fresh(it.Repr - old(it.Repr))
    ensures fresh(index.Repr - old(index.Repr) - old(tab.Repr))
    ensures w in old(tab.Words) && tab.Words == old(tab.Words) - {w}
    ensures index.Index == AddPosting(old(index.Index), w, docID, old(tab.Words)[w])
    ensures valid == (tab.Words != map[])
  {
    hide MemIndex.Valid, WordTable.Valid, HashTable.Valid, HTIterator.Valid, LinkedList.Valid;
    hide CorpusIndex, Merge, GoodOn, AddPosting, AllWords, WordsIn, Survives;
    var wp := tab.RemoveNext(it);
    w := wp.word;
    ReadyForWord(index.hash, docs, text, done, w);
    index.AddPostingList(wp.word, docID, wp.positions);
    tab.CountWords();
    valid := it.IsValid();
  }

  // Words that have moved and words still in the table.
  ghost predicate Partition(all: map<Word, seq<nat>>, done: map<Word, seq<nat>>, left: map<Word, seq<nat>>) {
    && done.Keys !! left.Keys && all.Keys == done.Keys + left.Keys
    && (forall w | w in done :: done[w] == all[w])
    && (forall w | w in left :: left[w] == all[w])
  }

  lemma PartitionStarts(all: map<Word, seq<nat>>)
    ensures Partition(all, map[], all)
  {
  }

  lemma PartitionEnds(all: map<Word, seq<nat>>, done: map<Word, seq<nat>>)
    requires Partition(all, done, map[])
    ensures done == all
  {
  }

  lemma PartitionMoves(all: map<Word, seq<nat>>, done: map<Word, seq<nat>>, left: map<Word, seq<nat>>, w: Word)
    requires Partition(all, done, left) && w in left
    ensures w !in done && Partition(all, done[w := left[w]], left - {w})
  {
  }

  lemma FewerWords(words: map<Word, seq<nat>>, w: Word)
    requires w in words
    ensures |words - {w}| < |words|
  {
    assert (words - {w}).Keys == words.Keys - {w};
    assert |words.Keys - {w}| < |words.Keys|;
  }

  // The conditions of MemIndex_AddPostingList for the next word of a document:
  // no collision, a small docID, and a document the word does not have yet.
  lemma ReadyForWord(hash: Word -> Key, docs: seq<Text>, text: Text, done: map<Word, seq<nat>>, w: Word)
    requires |docs| + 1 < TWO_31 && GoodOn(hash, AllWords(docs) + WordsIn(text))
    requires done.Keys <= WordsIn(text) && w in WordsIn(text) && w !in done
    ensures var index := Merge(CorpusIndex(docs), |docs| + 1, done);
            && GoodOn(hash, index.Keys + {w}) && Survives(|docs| + 1)
            && (w in index ==> |docs| + 1 !in index[w])
  {
    hide GoodOn, WordsIn, Offsets;
    var index := Merge(CorpusIndex(docs), |docs| + 1, done);
    GoodOnSubset(hash, index.Keys + {w}, AllWords(docs) + WordsIn(text));
    SmallKeysSurvive(|docs| + 1);
  }

  // --- The walk over the tree. ---

  // HandleFile on one file of the tree, with the buffer ReadFileToString makes.
  method VisitFile(v: Visit, doctable: DocTable, index: MemIndex, ghost names: seq<Word>, ghost docs: seq<Text>)
    requires Describes(doctable, index, names, docs) && RunFits(index.hash, names, docs, [v])
    modifies doctable.Repr, index.Repr
    ensures Describes(doctable, index, names + NamesOf([v]), docs + TextsOf([v]))
    ensures fresh(doctable.Repr - old(doctable.Repr)) && fresh(index.Repr - old(index.Repr))
  {
    hide DocTable.Valid, MemIndex.Valid, GoodOn, AllWords, WordsIn, CString, Survives, CorpusIndex, FoundId;
    VisitFits(index.hash, names, docs, v);
    var buffer: array?<Byte> := null;
    if v.contents.Some? {
      var c := v.contents.value;
      buffer := new Byte[|c| + 1](i requires 0 <= i < |c| + 1 => if i < |c| then c[i] else NUL);
      assert buffer[..] == c + [NUL];
    }
    var indexed := HandleFile(v.fpath, buffer, doctable, index, names, docs);
    assert !indexed ==> names + [] == names && docs + [] == docs;
  }

  // RunFits gives HandleFile what it requires.
  lemma VisitFits(hash: Word -> Key, names: seq<Word>, docs: seq<Text>, v: Visit)
    requires |names| == |docs| && RunFits(hash, names, docs, [v])
    ensures NamesOf([v]) == if Indexed(v) then [v.fpath] else []
    ensures TextsOf([v]) == if Indexed(v) then [TextOf(v.contents.value)] else []
    ensures Indexed(v) ==> |docs| + 1 < TWO_31 && FoundId(hash, names, v.fpath) == 0
    ensures v.contents.Some? && IsAscii(TextOf(v.contents.value)) ==>
              GoodOn(hash, AllWords(docs) + WordsIn(TextOf(v.contents.value)))
  {
    hide GoodOn, AllWords, WordsIn, CString, FoundId;
    assert [v][..0] == [];
    if Indexed(v) {
      var text := TextOf(v.contents.value);
      WordsOfOneMore(docs, text);
      var all := names + [v.fpath];
      assert all[|names|] == v.fpath && all[..|names|] == names;
    } else if v.contents.Some? && IsAscii(TextOf(v.contents.value)) {
      assert docs + [] == docs;
      assert AllWords(docs) + {} == AllWords(docs);
    }
  }

  lemma VisitsStart(dirpath: Word, d: seq<Entry>)
    requires dirpath != []
    ensures SortedItems(dirpath, d) == Arrange(Items(dirpath, d))
    ensures Visits(dirpath, d) == VisitItems(dirpath, d, SortedItems(dirpath, d))
    ensures VisitItems(dirpath, d, SortedItems(dirpath, d)[..0]) == []
  {
    assert SortedItems(dirpath, d)[..0] == [];
  }

  method HandleDir(dirpath: Word, d: seq<Entry>, doctable: DocTable, index: MemIndex,
                   ghost names: seq<Word>, ghost docs: seq<Text>)
    requires dirpath != []
    requires Describes(doctable, index, names, docs) && RunFits(index.hash, names, docs, Visits(dirpath, d))
    modifies doctable.Repr, index.Repr
    ensures Describes(doctable, index, names + NamesOf(Visits(dirpath, d)), docs + TextsOf(Visits(dirpath, d)))
    ensures fresh(doctable.Repr - old(doctable.Repr)) && fresh(index.Repr - old(index.Repr))
    decreases d, 1
  {
    hide Describes, RunFits, ItemFrom, NamesOf, TextsOf, ItemVisits, Lists;
    hide Arrange, Items, VisitItems, SortedItems, Visits;
    var entries := ReadEntries(dirpath, d);
    entries := Arrange(entries);
    VisitsStart(dirpath, d);
    NoVisits(names, docs);
    for i := 0 to |entries|
      invariant Describes(doctable, index, names + NamesOf(VisitItems(dirpath, d, entries[..i])),
                          docs + TextsOf(VisitItems(dirpath, d, entries[..i])))
      invariant fresh(doctable.Repr - old(doctable.Repr)) && fresh(index.Repr - old(index.Repr))
    {
      ghost var us := VisitItems(dirpath, d, entries[..i]);
      ItemFits(index.hash, names, docs, dirpath, d, entries, i);
      HandleItem(dirpath, d, entries[i], doctable, index, names + NamesOf(us), docs + TextsOf(us));
      ghost var vs := ItemVisits(dirpath, d, entries[i]);
      assert names + (NamesOf(us) + NamesOf(vs)) == (names + NamesOf(us)) + NamesOf(vs);
      assert docs + (TextsOf(us) + TextsOf(vs)) == (docs + TextsOf(us)) + TextsOf(vs);
    }
    assert entries[..|entries|] == entries;
  }

  // The body of the second pass: a file, or a directory to descend into.
  method HandleItem(dirpath: Word, d: seq<Entry>, it: Item, doctable: DocTable, index: MemIndex,
                    ghost names: seq<Word>, ghost docs: seq<Text>)
    requires dirpath != [] && ItemFrom(dirpath, d, it)
    requires Describes(doctable, index, names, docs) && RunFits(index.hash, names, docs, ItemVisits(dirpath, d, it))
    modifies doctable.Repr, index.Repr
    ensures var vs := ItemVisits(dirpath, d, it); Describes(doctable, index, names + NamesOf(vs), docs + TextsOf(vs))
    ensures fresh(doctable.Repr - old(doctable.Repr)) && fresh(index.Repr - old(index.Repr))
    decreases d, 0
  {
    hide Describes, RunFits, NamesOf, TextsOf, Visits;
    match it.entry {
      case FileEntry(_, contents) =>
        VisitFile(Visit(it.pathname, contents), doctable, index, names, docs);
      case DirEntry(_, sub) =>
        HandleDir(it.pathname, sub, doctable, index, names, docs);
    }
  }

  lemma NoVisits(names: seq<Word>, docs: seq<Text>)
    ensures names + NamesOf([]) == names && docs + TextsOf([]) == docs
  {
  }

  // The first pass: collects the items of a directory.
  method ReadEntries(dirpath: Word, d: seq<Entry>) returns (entries: seq<Item>)
    requires dirpath != []
    ensures entries == Items(dirpath, d) && Lists(dirpath, d, entries)
  {
    entries := [];
    for i := 0 to |d|
      invariant entries == Items(dirpath, d[..i])
    {
      assert d[..i + 1][..i] == d[..i];
      var dirent := d[i];
      if Skipped(dirent.name) {
        continue;
      }
      entries := entries + [Item(Pathname(dirpath, dirent.name), dirent)];
    }
    assert d[..|d|] == d;
    ItemsList(dirpath, d);
  }

  // The crawl.  None stands for a root that is not a directory or cannot be opened.
  method CrawlFileTree(rootdir: Word, root: Option<seq<Entry>>, hash: Word -> Key)
    returns (ok: bool, doctable: DocTable?, index: MemIndex?)
    requires rootdir != []
    requires root.Some? ==> RunFits(hash, [], [], Visits(rootdir, root.value))
    ensures ok == root.Some?
    ensures ok ==> doctable != null && index != null && index.hash == hash
    ensures ok ==> fresh(doctable.Repr) && fresh(index.Repr)
    ensures ok ==> var vs := Visits(rootdir, root.value); Describes(doctable, index, NamesOf(vs), TextsOf(vs))
  {
    hide DocTable.Valid, MemIndex.Valid, RunFits, NamesOf, TextsOf, Visits;
    if root.None? {
      return false, null, null;
    }
    doctable := new DocTable(hash);
    index := new MemIndex(hash);
    assert CorpusIndex([]) == map[];
    HandleDir(rootdir, root.value, doctable, index, [], []);
    ghost var vs := Visits(rootdir, root.value);
    assert [] + NamesOf(vs) == NamesOf(vs) && [] + TextsOf(vs) == TextsOf(vs);
    ok := true;
  }
}
