// The index of a corpus, and what a naive scan of the corpus would answer.
//
// docs[d - 1] is the text of document d.
module CorpusSpec {
  import opened ChainTable
  import opened WordSpec
  import opened SearchSpec
  import opened DocTables

  type Text = seq<Byte>

  ghost function AllWords(docs: seq<Text>): set<Word> {
    set i, w | 0 <= i < |docs| && w in WordsIn(docs[i]) :: w
  }

  ghost function PostingsOf(docs: seq<Text>, w: Word): Postings
    requires |docs| < TWO_31
  {
    map d | d in Ids(|docs|) && w in WordsIn(docs[d - 1]) :: Offsets(docs[d - 1], w)
  }

  // What the inverted index has to say about a corpus.
  ghost function CorpusIndex(docs: seq<Text>): IndexMap
    requires |docs| < TWO_31
  {
    map w | w in AllWords(docs) :: PostingsOf(docs, w)
  }

  // Some words of document d added to an index.
  ghost function Merge(index: IndexMap, d: DocID, words: map<Word, seq<nat>>): IndexMap {
    map w | w in index.Keys + words.Keys ::
      var p: Postings := if w in index then index[w] else map[];
      if w in words then p[d := words[w]] else p
  }

  lemma MergeNothing(index: IndexMap, d: DocID)
    ensures Merge(index, d, map[]) == index
  {
  }

  lemma MergeOneMore(index: IndexMap, d: DocID, words: map<Word, seq<nat>>, w: Word, positions: seq<nat>)
    requires w !in words
    ensures Merge(index, d, words[w := positions]) == AddPosting(Merge(index, d, words), w, d, positions)
  {
    var p: Postings := if w in index then index[w] else map[];
    assert w in Merge(index, d, words) <==> w in index;
    assert w in index ==> Merge(index, d, words)[w] == p;
  }

  lemma WordsOfOneMore(docs: seq<Text>, text: Text)
    ensures AllWords(docs + [text]) == AllWords(docs) + WordsIn(text)
  {
    var more := docs + [text];
    forall w
      ensures w in AllWords(more) <==> w in AllWords(docs) || w in WordsIn(text)
    {
      if w in AllWords(docs) {
        var i :| 0 <= i < |docs| && w in WordsIn(docs[i]);
        assert more[i] == docs[i];
      }
      if w in WordsIn(text) {
        assert more[|docs|] == text;
      }
    }
  }

  lemma PostingsOfOneMore(docs: seq<Text>, text: Text, w: Word)
    requires |docs| + 1 < TWO_31
    ensures PostingsOf(docs + [text], w) ==
            if w in WordsIn(text) then PostingsOf(docs, w)[|docs| + 1 := Offsets(text, w)] else PostingsOf(docs, w)
  {
    hide WordsIn, Offsets;
    var more := docs + [text];
    assert forall d | d in Ids(|docs|) :: more[d - 1] == docs[d - 1];
    assert more[|docs|] == text;
  }

  // Merging all words of a new document into the index of a corpus gives the
  // index of the longer corpus.
  lemma MergeDocument(docs: seq<Text>, text: Text)
    requires |docs| + 1 < TWO_31
    ensures Merge(CorpusIndex(docs), |docs| + 1, DocumentWords(text)) == CorpusIndex(docs + [text])
  {
    hide WordsIn, Offsets, PostingsOf, AllWords;
    WordsOfOneMore(docs, text);
    forall w | w in AllWords(docs + [text])
      ensures Merge(CorpusIndex(docs), |docs| + 1, DocumentWords(text))[w] == PostingsOf(docs + [text], w)
    {
      PostingsOfOneMore(docs, text, w);
      if w !in AllWords(docs) {
        NoPostings(docs, w);
      }
    }
  }

  lemma NoPostings(docs: seq<Text>, w: Word)
    requires |docs| < TWO_31
    ensures w in AllWords(docs) <==> PostingsOf(docs, w) != map[]
  {
    if w in AllWords(docs) {
      var i :| 0 <= i < |docs| && w in WordsIn(docs[i]);
      assert i + 1 in PostingsOf(docs, w);
    }
    if d :| d in PostingsOf(docs, w) {
      assert w in WordsIn(docs[d - 1]);
    }
  }

  // --- The naive scan. ---

  ghost predicate Contains(text: Text, w: Word) {
    Offsets(text, w) != []
  }

  ghost predicate ContainsAll(text: Text, query: seq<Word>) {
    forall w | w in query :: Contains(text, w)
  }

  function NaiveRank(text: Text, query: seq<Word>): nat {
    if query == [] then 0
    else NaiveRank(text, query[..|query| - 1]) + |Offsets(text, query[|query| - 1])|
  }

  lemma IndexedIff(docs: seq<Text>, w: Word, d: DocID)
    requires |docs| < TWO_31
    ensures (w in CorpusIndex(docs) && d in CorpusIndex(docs)[w]) <==> 1 <= d <= |docs| && Contains(docs[d - 1], w)
    ensures 1 <= d <= |docs| ==> Occurrences(CorpusIndex(docs), w, d) == |Offsets(docs[d - 1], w)|
  {
    if 1 <= d <= |docs| {
      OffsetsAreRuns(docs[d - 1], w);
      if Contains(docs[d - 1], w) {
        assert d - 1 < |docs| && w in WordsIn(docs[d - 1]);
        assert w in AllWords(docs);
      }
    }
  }

  // The index answers a query as a scan of every text of the corpus would.
  lemma MatchesIsNaiveScan(docs: seq<Text>, query: seq<Word>, d: DocID)
    requires |docs| < TWO_31 && query != []
    ensures Matches(CorpusIndex(docs), query, d) <==> 1 <= d <= |docs| && ContainsAll(docs[d - 1], query)
  {
    hide CorpusIndex, Contains;
    forall w
      ensures (w in CorpusIndex(docs) && d in CorpusIndex(docs)[w]) <==> 1 <= d <= |docs| && Contains(docs[d - 1], w)
    {
      IndexedIff(docs, w, d);
    }
    assert query[0] in query;
  }

  lemma {:induction false} RankIsNaiveRank(docs: seq<Text>, query: seq<Word>, d: DocID)
    requires |docs| < TWO_31 && 1 <= d <= |docs|
    ensures Rank(CorpusIndex(docs), query, d) == NaiveRank(docs[d - 1], query)
    decreases |query|
  {
    if query != [] {
      IndexedIff(docs, query[|query| - 1], d);
      RankIsNaiveRank(docs, query[..|query| - 1], d);
    }
  }
}
