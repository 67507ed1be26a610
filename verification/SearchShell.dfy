// hw2/searchshell.c without its console: crawl a tree, then answer queries.
// This is where the parts meet: every answer is the one a naive scan of the
// files of the tree would give.
module SearchShell {
  import opened Wrappers
  import opened LinkedLists
  import opened ChainTable
  import opened WordSpec
  import opened FileParsing
  import opened DocTables
  import opened SearchSpec
  import opened CorpusSpec
  import opened MemIndexes
  import opened FileTree
  import opened CrawlSpec
  import opened CrawlFileTrees

  // One line of output: a document's name and its rank.
  datatype Line = Line(name: Word, rank: nat)

  // The answer of a naive scan: the lines name, for some order of picking them,
  // exactly the documents that contain every word of the query.
  ghost predicate NaiveAnswer(names: seq<Word>, docs: seq<Text>, query: seq<Word>, lines: seq<Line>)
    requires |names| == |docs|
  {
    exists picks :: PicksAnswer(names, docs, query, lines, picks)
  }

  // The lines name the documents at these positions of the corpus: all whose
  // texts contain every word of the query, each once, the highest ranks first,
  // and a rank is the number of occurrences summed over the query.
  ghost predicate PicksAnswer(names: seq<Word>, docs: seq<Text>, query: seq<Word>, lines: seq<Line>, picks: seq<nat>)
    requires |names| == |docs|
  {
    && |lines| == |picks|
    && (forall i, j | 0 <= i < j < |picks| :: picks[i] != picks[j])
    && (forall i | 0 <= i < |picks| :: IsPick(names, docs, query, lines[i], picks[i]))
    && (forall d: nat | query != [] && d < |docs| && ContainsAll(docs[d], query) :: d in picks)
    && (forall i, j | 0 <= i < j < |lines| :: lines[i].rank >= lines[j].rank)
    && (query == [] ==> lines == [])
  }

  ghost predicate IsPick(names: seq<Word>, docs: seq<Text>, query: seq<Word>, line: Line, d: nat)
    requires |names| == |docs|
  {
    d < |docs| && ContainsAll(docs[d], query) && line == Line(names[d], NaiveRank(docs[d], query))
  }

  // Prints the results and takes them out of the list, one by one.
  method PrintOutput(doctable: DocTable, retlist: LinkedList<SearchResult>) returns (lines: seq<Line>)
    requires doctable.Valid() && retlist.Valid() && retlist.Repr !! doctable.Repr
    requires forall r | r in retlist.Contents :: 1 <= r.docid <= |doctable.Names| && Survives(r.docid)
    modifies retlist.Repr
    ensures retlist.Valid() && retlist.Contents == []
    ensures var rs := old(retlist.Contents);
            |lines| == |rs| && forall i | 0 <= i < |rs| :: lines[i] == Line(doctable.Names[rs[i].docid - 1], rs[i].rank)
  {
    hide DocTable.Valid, LinkedList.Valid, LinkedList.LinkedAs, Survives, Without;
    ghost var rs := retlist.Contents;
    lines := [];
    var totalElements := retlist.NumElements();
    var llit := new LLIterator(retlist);
    for i := 0 to totalElements
      invariant llit.list == retlist && llit.Valid() && fresh(llit) && llit.index == 0
      invariant retlist.Repr <= old(retlist.Repr) && retlist.Contents == rs[i..]
      invariant doctable.Valid() && doctable.Names == old(doctable.Names)
      invariant |lines| == i
      invariant forall j | 0 <= j < i :: lines[j] == Line(doctable.Names[rs[j].docid - 1], rs[j].rank)
    {
      assert rs[i] in rs;
      var sr := llit.Get();
      var name := doctable.GetDocName(sr.docid);
      lines := lines + [Line(name.value, sr.rank)];
      var _ := llit.Remove();
    }
  }

  lemma NoEmptyPostingsIn(docs: seq<Text>)
    requires |docs| < TWO_31
    ensures forall w | w in CorpusIndex(docs) :: CorpusIndex(docs)[w] != map[]
    ensures CorpusIndex(docs).Keys == AllWords(docs)
  {
    forall w | w in CorpusIndex(docs)
      ensures CorpusIndex(docs)[w] != map[]
    {
      NoPostings(docs, w);
    }
  }

  // Answers one query, as a naive scan answers it for the words that the words of
  // the query are taken for.
  method AnswerQuery(doctable: DocTable, index: MemIndex, query: seq<Word>,
                     ghost names: seq<Word>, ghost docs: seq<Text>)
    returns (lines: seq<Line>)
    requires Describes(doctable, index, names, docs)
    ensures NaiveAnswer(names, docs, MeantQuery(index.hash, AllWords(docs), query), lines)
  {
    hide DocTable.Valid, MemIndex.Valid, LinkedList.Valid, Matches, ResultsFor, DescendingRanks, ContainsAll;
    hide NaiveAnswer, PicksAnswer, Meant;
    hide Survives, NaiveRank, AllWords, CorpusIndex, GoodOn, Occurrences, IsPick;
    NoEmptyPostingsIn(docs);
    ghost var meant := MeantQuery(index.hash, AllWords(docs), query);
    var retlist := index.Search(query);
    if retlist == null {
      NothingToPick(names, docs, meant);
      return [];
    }
    ghost var rs := retlist.Contents;
    ResultsAreIds(docs, meant, rs);
    lines := PrintOutput(doctable, retlist);
    ghost var picks := seq(|rs|, i requires 0 <= i < |rs| => if rs[i].docid > 0 then rs[i].docid - 1 else 0);
    LinesAreNaive(names, docs, meant, rs, lines, picks);
  }

  lemma NothingToPick(names: seq<Word>, docs: seq<Text>, query: seq<Word>)
    requires |names| == |docs| < TWO_31
    requires query == [] || forall d: DocID :: !Matches(CorpusIndex(docs), query, d)
    ensures NaiveAnswer(names, docs, query, [])
  {
    hide Matches, CorpusIndex, ContainsAll;
    forall d: nat | query != [] && d < |docs|
      ensures !ContainsAll(docs[d], query)
    {
      MatchesIsNaiveScan(docs, query, d + 1);
    }
    assert PicksAnswer(names, docs, query, [], []);
  }

  lemma ResultsAreIds(docs: seq<Text>, query: seq<Word>, rs: seq<SearchResult>)
    requires |docs| < TWO_31 && query != [] && ResultsFor(CorpusIndex(docs), query, rs)
    ensures forall r | r in rs :: 1 <= r.docid <= |docs| && Survives(r.docid)
    ensures forall r | r in rs :: ContainsAll(docs[r.docid - 1], query) && r.rank == NaiveRank(docs[r.docid - 1], query)
  {
    hide Matches, Rank, CorpusIndex, ContainsAll;
    forall r | r in rs
      ensures 1 <= r.docid <= |docs| && Survives(r.docid)
      ensures ContainsAll(docs[r.docid - 1], query) && r.rank == NaiveRank(docs[r.docid - 1], query)
    {
      MatchesIsNaiveScan(docs, query, r.docid);
      RankIsNaiveRank(docs, query, r.docid);
      SmallKeysSurvive(r.docid);
    }
  }

  // The lines and picks that PrintOutput's contract describes.
  ghost predicate Printed(names: seq<Word>, rs: seq<SearchResult>, lines: seq<Line>, picks: seq<nat>) {
    && |lines| == |picks| == |rs|
    && forall i | 0 <= i < |rs| ::
         && rs[i].docid == picks[i] + 1 && picks[i] < |names|
         && lines[i] == Line(names[picks[i]], rs[i].rank)
  }

  lemma EveryLineIsPick(names: seq<Word>, docs: seq<Text>, query: seq<Word>, rs: seq<SearchResult>,
                        lines: seq<Line>, picks: seq<nat>)
    requires |names| == |docs| < TWO_31 && query != []
    requires ResultsFor(CorpusIndex(docs), query, rs) && Printed(names, rs, lines, picks)
    ensures forall i | 0 <= i < |picks| :: IsPick(names, docs, query, lines[i], picks[i])
  {
    hide Matches, Rank, CorpusIndex, ContainsAll, ResultsFor;
    ResultsAreIds(docs, query, rs);
    forall i | 0 <= i < |picks|
      ensures IsPick(names, docs, query, lines[i], picks[i])
    {
      assert rs[i] in rs;
    }
  }

  lemma EveryMatchIsPicked(names: seq<Word>, docs: seq<Text>, query: seq<Word>, rs: seq<SearchResult>,
                           lines: seq<Line>, picks: seq<nat>)
    requires |names| == |docs| < TWO_31 && query != []
    requires ResultsFor(CorpusIndex(docs), query, rs) && Printed(names, rs, lines, picks)
    ensures forall d: nat | d < |docs| && ContainsAll(docs[d], query) :: d in picks
  {
    hide Matches, Rank, CorpusIndex, ContainsAll;
    forall d: nat | d < |docs| && ContainsAll(docs[d], query)
      ensures d in picks
    {
      MatchesIsNaiveScan(docs, query, d + 1);
      assert HasDoc(rs, d + 1);
      var i :| 0 <= i < |rs| && rs[i].docid == d + 1;
      assert picks[i] == d;
    }
  }

  // The lines printed for the search results are the naive answer.
  lemma LinesAreNaive(names: seq<Word>, docs: seq<Text>, query: seq<Word>, rs: seq<SearchResult>,
                      lines: seq<Line>, picks: seq<nat>)
    requires |names| == |docs| < TWO_31 && query != []
    requires ResultsFor(CorpusIndex(docs), query, rs) && DescendingRanks(rs) && Printed(names, rs, lines, picks)
    ensures NaiveAnswer(names, docs, query, lines)
  {
    hide Matches, CorpusIndex, ContainsAll, IsPick, HasDoc;
    EveryLineIsPick(names, docs, query, rs, lines, picks);
    EveryMatchIsPicked(names, docs, query, rs, lines, picks);
    assert PicksAnswer(names, docs, query, lines, picks);
  }

  // A whole session: crawl a tree, then answer any number of queries from it.
  method Session(rootdir: Word, root: seq<Entry>, hash: Word -> Key, queries: seq<seq<Word>>)
    returns (answers: seq<seq<Line>>)
    requires rootdir != []
    requires RunFits(hash, [], [], Visits(rootdir, root))
    ensures |answers| == |queries|
    ensures var vs := Visits(rootdir, root);
            forall i | 0 <= i < |queries| ::
              NaiveAnswer(NamesOf(vs), TextsOf(vs), MeantQuery(hash, AllWords(TextsOf(vs)), queries[i]), answers[i])
  {
    hide Describes, RunFits, Visits, NamesOf, NaiveAnswer, AllWords, MeantQuery;
    ghost var vs := Visits(rootdir, root);
    ghost var ws := AllWords(TextsOf(vs));
    var ok, doctable, index := CrawlFileTree(rootdir, Some(root), hash);
    answers := [];
    for i := 0 to |queries|
      invariant |answers| == i
      invariant forall j | 0 <= j < i ::
                  NaiveAnswer(NamesOf(vs), TextsOf(vs), MeantQuery(hash, ws, queries[j]), answers[j])
      invariant Describes(doctable, index, NamesOf(vs), TextsOf(vs)) && index.hash == hash
    {
      var lines := AnswerQuery(doctable, index, queries[i], NamesOf(vs), TextsOf(vs));
      answers := answers + [lines];
    }
  }
}
