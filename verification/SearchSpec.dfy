// What a query asks of an index, independently of how MemIndex_Search
// computes it.
module SearchSpec {
  import opened ChainTable
  import opened SortSpec
  import opened WordSpec

  type DocID = Key

  // What an index says: for each word, the documents that contain it and where.
  type Postings = map<DocID, seq<nat>>
  type IndexMap = map<Word, Postings>

  // The index after it has been told where word occurs in document docid.
  function AddPosting(index: IndexMap, word: Word, docid: DocID, positions: seq<nat>): IndexMap {
    var p: Postings := if word in index then index[word] else map[];
    index[word := p[docid := positions]]
  }

  datatype SearchResult = SearchResult(docid: DocID, rank: nat)

  // Increasing order by rank.
  function SearchResultComparator(e1: SearchResult, e2: SearchResult): int {
    if e1.rank > e2.rank then 1 else if e1.rank < e2.rank then -1 else 0
  }

  ghost predicate Matches(index: IndexMap, query: seq<Word>, d: DocID) {
    forall w | w in query :: w in index && d in index[w]
  }

  function Occurrences(index: IndexMap, w: Word, d: DocID): nat {
    if w in index && d in index[w] then |index[w][d]| else 0
  }

  // One term for every position of the query, so repeated words count again.
  function Rank(index: IndexMap, query: seq<Word>, d: DocID): nat {
    if query == [] then 0
    else Rank(index, query[..|query| - 1], d) + Occurrences(index, query[|query| - 1], d)
  }

  // The results are the matching documents, each once, with their ranks.
  ghost predicate ResultsFor(index: IndexMap, query: seq<Word>, rs: seq<SearchResult>) {
    && DistinctDocs(rs)
    && (forall r | r in rs :: Matches(index, query, r.docid) && r.rank == Rank(index, query, r.docid))
    && (forall d: DocID | Matches(index, query, d) :: HasDoc(rs, d))
  }

  ghost predicate DistinctDocs(rs: seq<SearchResult>) {
    forall i, j | 0 <= i < j < |rs| :: rs[i].docid != rs[j].docid
  }

  ghost predicate HasDoc(rs: seq<SearchResult>, d: DocID) {
    exists i :: 0 <= i < |rs| && rs[i].docid == d
  }

  ghost predicate DescendingRanks(rs: seq<SearchResult>) {
    forall i, j | 0 <= i < j < |rs| :: rs[i].rank >= rs[j].rank
  }

  // The results for one word, whatever order its documents come in.
  ghost predicate ResultsForWord(p: Postings, rs: seq<SearchResult>) {
    && DistinctDocs(rs)
    && (forall r | r in rs :: r.docid in p && r.rank == |p[r.docid]|)
    && (forall d | d in p :: HasDoc(rs, d))
  }

  lemma OneWordResults(index: IndexMap, w: Word, rs: seq<SearchResult>)
    requires w in index && ResultsForWord(index[w], rs)
    ensures ResultsFor(index, [w], rs)
  {
    forall d: DocID
      ensures Matches(index, [w], d) <==> d in index[w]
      ensures Rank(index, [w], d) == Occurrences(index, w, d)
    {
      assert w in [w];
      assert [w][..0] == [];
    }
  }

  // What one further query word leaves of the results, in place and in order.
  function Intersected(rs: seq<SearchResult>, p: Postings): seq<SearchResult> {
    if rs == [] then []
    else
      var r := rs[|rs| - 1];
      Intersected(rs[..|rs| - 1], p) +
      if r.docid in p then [SearchResult(r.docid, r.rank + |p[r.docid]|)] else []
  }

  // n is one of the results with the rank raised by the document's postings.
  ghost predicate Raised(rs: seq<SearchResult>, p: Postings, n: SearchResult)
    requires n.docid in p
  {
    exists i :: 0 <= i < |rs| && rs[i].docid == n.docid && n.rank == rs[i].rank + |p[n.docid]|
  }

  lemma RaisedByMore(rs: seq<SearchResult>, p: Postings, n: SearchResult)
    requires rs != [] && DistinctDocs(rs) && n.docid in p && Raised(rs[..|rs| - 1], p, n)
    ensures Raised(rs, p, n) && n.docid != rs[|rs| - 1].docid
  {
    var init := rs[..|rs| - 1];
    var i :| 0 <= i < |init| && init[i].docid == n.docid && n.rank == init[i].rank + |p[n.docid]|;
    assert rs[i] == init[i];
  }

  // A result whose document has postings is not lost.
  lemma {:induction false} IntersectedKeeps(rs: seq<SearchResult>, p: Postings, i: nat)
    requires i < |rs| && rs[i].docid in p
    ensures HasDoc(Intersected(rs, p), rs[i].docid)
    decreases |rs|
  {
    var init, ns := rs[..|rs| - 1], Intersected(rs, p);
    if i < |init| {
      IntersectedKeeps(init, p, i);
      var ms := Intersected(init, p);
      var j :| 0 <= j < |ms| && ms[j].docid == rs[i].docid;
      assert ns[j] == ms[j];
    } else {
      assert ns[|ns| - 1].docid == rs[i].docid;
    }
  }

  lemma {:induction false} IntersectedAreRaised(rs: seq<SearchResult>, p: Postings)
    requires DistinctDocs(rs)
    ensures var ns := Intersected(rs, p);
            DistinctDocs(ns) && forall i | 0 <= i < |ns| :: ns[i].docid in p && Raised(rs, p, ns[i])
    decreases |rs|
  {
    if rs != [] {
      var init, r := rs[..|rs| - 1], rs[|rs| - 1];
      IntersectedAreRaised(init, p);
      var ms, ns := Intersected(init, p), Intersected(rs, p);
      forall i | 0 <= i < |ms|
        ensures ns[i] == ms[i] && ms[i].docid != r.docid && Raised(rs, p, ms[i])
      {
        RaisedByMore(rs, p, ms[i]);
      }
      if r.docid in p {
        assert rs[|init|] == r;
        assert Raised(rs, p, ns[|ms|]);
      }
    }
  }

  lemma IntersectedAre(rs: seq<SearchResult>, p: Postings)
    requires DistinctDocs(rs)
    ensures var ns := Intersected(rs, p);
            && DistinctDocs(ns)
            && (forall n | n in ns :: n.docid in p && Raised(rs, p, n))
            && (forall d | HasDoc(rs, d) && d in p :: HasDoc(ns, d))
  {
    IntersectedAreRaised(rs, p);
    forall d | HasDoc(rs, d) && d in p
      ensures HasDoc(Intersected(rs, p), d)
    {
      var i :| 0 <= i < |rs| && rs[i].docid == d;
      IntersectedKeeps(rs, p, i);
    }
  }

  lemma MatchesOneMore(index: IndexMap, query: seq<Word>, w: Word, d: DocID)
    ensures Matches(index, query + [w], d) <==> Matches(index, query, d) && w in index && d in index[w]
    ensures Rank(index, query + [w], d) == Rank(index, query, d) + Occurrences(index, w, d)
  {
    var q := query + [w];
    assert q[..|q| - 1] == query;
    assert forall v :: v in q <==> v in query || v == w;
  }

  // The intersection step of the search is right for the longer query.
  lemma IntersectionExtends(index: IndexMap, query: seq<Word>, w: Word, rs: seq<SearchResult>)
    requires ResultsFor(index, query, rs) && w in index
    ensures ResultsFor(index, query + [w], Intersected(rs, index[w]))
  {
    hide Matches, Rank, Intersected;
    var p := index[w];
    IntersectedAre(rs, p);
    var ns := Intersected(rs, p);
    forall n | n in ns
      ensures Matches(index, query + [w], n.docid) && n.rank == Rank(index, query + [w], n.docid)
    {
      MatchesOneMore(index, query, w, n.docid);
    }
    forall d: DocID | Matches(index, query + [w], d)
      ensures HasDoc(ns, d)
    {
      MatchesOneMore(index, query, w, d);
    }
  }

  // Sorting keeps the answer and puts the best documents first.
  lemma SortedResults(index: IndexMap, query: seq<Word>, rs: seq<SearchResult>, sorted: seq<SearchResult>)
    requires ResultsFor(index, query, rs) && StableSort(SearchResultComparator, false, rs, sorted)
    ensures ResultsFor(index, query, sorted) && DescendingRanks(sorted)
  {
    hide Matches, Rank, TiesWith;
    SameElements(rs, sorted);
    forall d: DocID | Matches(index, query, d)
      ensures HasDoc(sorted, d)
    {
      var i :| 0 <= i < |rs| && rs[i].docid == d;
      assert rs[i] in sorted;
    }
    DistinctAfterSort(rs, sorted);
    forall i, j | 0 <= i < j < |sorted|
      ensures sorted[i].rank >= sorted[j].rank
    {
      assert !OutOfOrder(SearchResultComparator, false, sorted[i], sorted[j]);
    }
  }

  lemma DistinctAfterSort(rs: seq<SearchResult>, sorted: seq<SearchResult>)
    requires DistinctDocs(rs) && multiset(sorted) == multiset(rs)
    ensures DistinctDocs(sorted)
  {
    SameElements(rs, sorted);
    forall i, j | 0 <= i < j < |sorted|
      ensures sorted[i].docid != sorted[j].docid
    {
      var a, b := sorted[i], sorted[j];
      assert a in sorted && b in sorted;
      var k :| 0 <= k < |rs| && rs[k] == a;
      var l :| 0 <= l < |rs| && rs[l] == b;
      if a.docid == b.docid {
        OccursTwice(sorted, i, j);
        OccursOnce(rs, k);
        assert false;
      }
    }
  }

  lemma OccursTwice(s: seq<SearchResult>, i: nat, j: nat)
    requires i < j < |s| && s[i] == s[j]
    ensures multiset(s)[s[i]] >= 2
  {
    assert s == s[..j] + [s[j]] + s[j + 1..];
    assert s[i] in multiset(s[..j]) by { assert s[..j][i] == s[i]; }
  }

  lemma OccursOnce(s: seq<SearchResult>, k: nat)
    requires k < |s| && forall i, j | 0 <= i < j < |s| :: s[i].docid != s[j].docid
    ensures multiset(s)[s[k]] == 1
  {
    assert s == s[..k] + [s[k]] + s[k + 1..];
    assert s[k] !in s[..k] && s[k] !in s[k + 1..];
  }

  lemma NoMatchWithout(index: IndexMap, query: seq<Word>, w: Word)
    requires w in query && w !in index
    ensures forall d: DocID :: !Matches(index, query, d)
  {
  }

  // No document matches a query if none matches a part of it.
  lemma NoMatchForMore(index: IndexMap, query: seq<Word>, n: nat)
    requires n <= |query| && ResultsFor(index, query[..n], [])
    ensures forall d: DocID :: !Matches(index, query, d)
  {
    forall d: DocID
      ensures !Matches(index, query, d)
    {
      if Matches(index, query, d) {
        assert forall w | w in query[..n] :: w in query;
        assert Matches(index, query[..n], d);
      }
    }
  }
}
