// What counts as a word of a document and where it occurs: a direct scan of
// the text, independent of how hw2/FileParser.c finds the words.
module WordSpec {
  import opened Wrappers

  type Byte = b: int | 0 <= b < 256
  type Word = seq<Byte>

  const NUL: Byte := 0

  predicate IsAlpha(b: Byte) {
    'A' as int <= b <= 'Z' as int || 'a' as int <= b <= 'z' as int
  }

  function ToLower(b: Byte): Byte {
    if 'A' as int <= b <= 'Z' as int then b + 32 else b
  }

  function Lower(s: seq<Byte>): (r: Word)
    ensures |r| == |s| && forall i | 0 <= i < |s| :: r[i] == ToLower(s[i])
  {
    seq(|s|, i requires 0 <= i < |s| => ToLower(s[i]))
  }

  predicate IsAscii(s: seq<Byte>) {
    forall i | 0 <= i < |s| :: 0 < s[i] < 128
  }

  // s[a..b] is a maximal run of letters that a further, non-letter byte ends.
  predicate IsRun(s: seq<Byte>, a: nat, b: nat) {
    && a < b < |s|
    && (forall i | a <= i < b :: IsAlpha(s[i]))
    && (a > 0 ==> !IsAlpha(s[a - 1]))
    && !IsAlpha(s[b])
  }

  // The end of the letters that start at a.
  function RunEnd(s: seq<Byte>, a: nat): (b: nat)
    requires a <= |s|
    ensures a <= b <= |s|
    ensures forall i | a <= i < b :: IsAlpha(s[i])
    ensures b < |s| ==> !IsAlpha(s[b])
    decreases |s| - a
  {
    if a < |s| && IsAlpha(s[a]) then RunEnd(s, a + 1) else a
  }

  // The lower-cased word that starts at offset a, if one does.
  function WordAt(s: seq<Byte>, a: nat): Option<Word>
    requires a < |s|
  {
    if IsRun(s, a, RunEnd(s, a)) then Some(Lower(s[a..RunEnd(s, a)])) else None
  }

  function OffsetsBefore(s: seq<Byte>, w: Word, n: nat): seq<nat>
    requires n <= |s|
  {
    if n == 0 then []
    else OffsetsBefore(s, w, n - 1) + if WordAt(s, n - 1) == Some(w) then [n - 1] else []
  }

  // Where w occurs in s.
  function Offsets(s: seq<Byte>, w: Word): seq<nat> {
    OffsetsBefore(s, w, |s|)
  }

  function WordsBefore(s: seq<Byte>, n: nat): set<Word>
    requires n <= |s|
  {
    set a | 0 <= a < n && WordAt(s, a).Some? :: WordAt(s, a).value
  }

  function WordsIn(s: seq<Byte>): set<Word> {
    WordsBefore(s, |s|)
  }

  // The words of s, each with the offsets where it occurs.
  function DocumentWords(s: seq<Byte>): map<Word, seq<nat>> {
    map w | w in WordsIn(s) :: Offsets(s, w)
  }

  lemma RunIsWord(s: seq<Byte>, a: nat, b: nat)
    requires IsRun(s, a, b)
    ensures RunEnd(s, a) == b && WordAt(s, a) == Some(Lower(s[a..b]))
  {
  }

  // The offsets of w are, in strictly ascending order, the starts of exactly
  // the runs that read w in lower case.
  lemma {:induction false} OffsetsAreRuns(s: seq<Byte>, w: Word)
    ensures forall i, j | 0 <= i < j < |Offsets(s, w)| :: Offsets(s, w)[i] < Offsets(s, w)[j]
    ensures forall a: nat :: a in Offsets(s, w) <==> exists b: nat :: IsRun(s, a, b) && Lower(s[a..b]) == w
    ensures w in WordsIn(s) <==> Offsets(s, w) != []
  {
    OffsetsBeforeAre(s, w, |s|);
    forall a: nat
      ensures a in Offsets(s, w) <==> exists b: nat :: IsRun(s, a, b) && Lower(s[a..b]) == w
    {
      if b: nat :| IsRun(s, a, b) && Lower(s[a..b]) == w {
        RunIsWord(s, a, b);
      }
    }
    if Offsets(s, w) != [] {
      assert Offsets(s, w)[0] in Offsets(s, w);
    }
    if w in WordsIn(s) {
      var a :| 0 <= a < |s| && WordAt(s, a) == Some(w);
      assert a in Offsets(s, w);
    }
  }

  lemma {:induction false} InOffsetsBefore(s: seq<Byte>, w: Word, n: nat, a: nat)
    requires n <= |s|
    ensures a in OffsetsBefore(s, w, n) <==> a < n && WordAt(s, a) == Some(w)
    decreases n
  {
    hide IsRun, RunEnd, WordAt;
    if n != 0 {
      InOffsetsBefore(s, w, n - 1, a);
    }
  }

  lemma {:induction false} OffsetsBeforeAscend(s: seq<Byte>, w: Word, n: nat)
    requires n <= |s|
    ensures forall i, j | 0 <= i < j < |OffsetsBefore(s, w, n)| :: OffsetsBefore(s, w, n)[i] < OffsetsBefore(s, w, n)[j]
    ensures forall i | 0 <= i < |OffsetsBefore(s, w, n)| :: OffsetsBefore(s, w, n)[i] < n
    decreases n
  {
    hide IsRun, RunEnd, WordAt;
    if n != 0 {
      OffsetsBeforeAscend(s, w, n - 1);
    }
  }

  lemma OffsetsBeforeAre(s: seq<Byte>, w: Word, n: nat)
    requires n <= |s|
    ensures forall i, j | 0 <= i < j < |OffsetsBefore(s, w, n)| :: OffsetsBefore(s, w, n)[i] < OffsetsBefore(s, w, n)[j]
    ensures forall a: nat :: a in OffsetsBefore(s, w, n) <==> a < n && WordAt(s, a) == Some(w)
    ensures w in WordsBefore(s, n) <==> OffsetsBefore(s, w, n) != []
  {
    hide WordAt, OffsetsBefore;
    OffsetsBeforeAscend(s, w, n);
    forall a: nat
      ensures a in OffsetsBefore(s, w, n) <==> a < n && WordAt(s, a) == Some(w)
    {
      InOffsetsBefore(s, w, n, a);
    }
    if OffsetsBefore(s, w, n) != [] {
      assert OffsetsBefore(s, w, n)[0] in OffsetsBefore(s, w, n);
    }
    if w in WordsBefore(s, n) {
      var a :| 0 <= a < n && WordAt(s, a) == Some(w);
      assert a in OffsetsBefore(s, w, n);
    }
  }

  // No word starts at a non-letter or right after a letter.
  lemma NoWordAt(s: seq<Byte>, a: nat)
    requires a < |s| && (!IsAlpha(s[a]) || (a > 0 && IsAlpha(s[a - 1])))
    ensures WordAt(s, a).None?
  {
    hide IsAlpha;
  }

  lemma OneMorePlace(s: seq<Byte>, w: Word, n: nat)
    requires n < |s|
    ensures w in WordsBefore(s, n + 1) <==> w in WordsBefore(s, n) || WordAt(s, n) == Some(w)
    ensures OffsetsBefore(s, w, n + 1) == OffsetsBefore(s, w, n) + if WordAt(s, n) == Some(w) then [n] else []
  {
    hide WordAt;
  }

  // --- The table as a whole has one offset for each run. ---

  // All entries of a table, by word and index into its list of offsets.
  ghost function TableEntries(table: map<Word, seq<nat>>): set<(Word, nat)> {
    set w, i | w in table && 0 <= i < |table[w]| :: (w, i)
  }

  ghost predicate StartsRun(s: seq<Byte>, a: nat) {
    exists b: nat :: IsRun(s, a, b)
  }

  // The starts of the runs.
  ghost function Runs(s: seq<Byte>): set<nat> {
    set a: nat | a < |s| && StartsRun(s, a)
  }

  ghost function TableEntriesBefore(s: seq<Byte>, n: nat): set<(Word, nat)>
    requires n <= |s|
  {
    set w, i | w in WordsBefore(s, n) && 0 <= i < |OffsetsBefore(s, w, n)| :: (w, i)
  }

  ghost function StartsBefore(s: seq<Byte>, n: nat): set<nat>
    requires n <= |s|
  {
    set a: nat | a < n && WordAt(s, a).Some?
  }

  lemma EntriesOneMore(s: seq<Byte>, n: nat)
    requires n < |s|
    ensures WordAt(s, n).None? ==> TableEntriesBefore(s, n + 1) == TableEntriesBefore(s, n)
    ensures WordAt(s, n).Some? ==>
              var e := (WordAt(s, n).value, |OffsetsBefore(s, WordAt(s, n).value, n)|);
              e !in TableEntriesBefore(s, n) && TableEntriesBefore(s, n + 1) == TableEntriesBefore(s, n) + {e}
  {
    hide WordAt;
    forall w
      ensures OffsetsBefore(s, w, n + 1) == OffsetsBefore(s, w, n) + if WordAt(s, n) == Some(w) then [n] else []
      ensures w in WordsBefore(s, n + 1) <==> w in WordsBefore(s, n) || WordAt(s, n) == Some(w)
      ensures w !in WordsBefore(s, n) ==> OffsetsBefore(s, w, n) == []
    {
      OffsetsBeforeAre(s, w, n);
      OneMorePlace(s, w, n);
    }
    hide OffsetsBefore, WordsBefore;
  }

  lemma {:induction false} AsManyEntriesAsStarts(s: seq<Byte>, n: nat)
    requires n <= |s|
    ensures |TableEntriesBefore(s, n)| == |StartsBefore(s, n)|
    decreases n
  {
    hide WordAt, OffsetsBefore, WordsBefore, TableEntriesBefore, StartsBefore;
    if n == 0 {
      NothingBefore(s);
    } else {
      AsManyEntriesAsStarts(s, n - 1);
      EntriesOneMore(s, n - 1);
      StartsOneMore(s, n - 1);
    }
  }

  lemma StartsOneMore(s: seq<Byte>, n: nat)
    requires n < |s|
    ensures n !in StartsBefore(s, n)
    ensures StartsBefore(s, n + 1) == StartsBefore(s, n) + if WordAt(s, n).Some? then {n} else {}
  {
    hide WordAt;
  }

  lemma NothingBefore(s: seq<Byte>)
    ensures TableEntriesBefore(s, 0) == {} && StartsBefore(s, 0) == {}
  {
  }

  // The total number of offsets in a document's table is the number of its runs.
  lemma OffsetPerRun(s: seq<Byte>)
    ensures |TableEntries(DocumentWords(s))| == |Runs(s)|
  {
    AsManyEntriesAsStarts(s, |s|);
    assert TableEntries(DocumentWords(s)) == TableEntriesBefore(s, |s|) by {
      hide WordAt, OffsetsBefore, WordsBefore;
    }
    forall a: nat | a < |s|
      ensures WordAt(s, a).Some? <==> StartsRun(s, a)
    {
      if b: nat :| IsRun(s, a, b) {
        RunIsWord(s, a, b);
      }
    }
    assert Runs(s) == StartsBefore(s, |s|);
  }

  // --- How the table grows as the parser passes a boundary. ---

  function WordsTable(s: seq<Byte>, n: nat): map<Word, seq<nat>>
    requires n <= |s|
  {
    map w | w in WordsBefore(s, n) :: OffsetsBefore(s, w, n)
  }

  lemma WordsTableOfNothing(s: seq<Byte>)
    ensures WordsTable(s, 0) == map[]
  {
  }

  lemma WordsTableKeys(s: seq<Byte>, n: nat)
    requires n <= |s|
    ensures WordsTable(s, n).Keys <= WordsIn(s)
  {
  }

  // No word starts inside the letters after start, nor at the boundary c.
  lemma {:induction false} NoWordInside(s: seq<Byte>, w: Word, start: nat, c: nat, n: nat)
    requires start < n <= c + 1 <= |s|
    requires forall i | start <= i < c :: IsAlpha(s[i])
    requires !IsAlpha(s[c])
    ensures OffsetsBefore(s, w, n) == OffsetsBefore(s, w, start + 1)
    ensures w in WordsBefore(s, n) <==> w in WordsBefore(s, start + 1)
    decreases n
  {
    hide IsAlpha, WordAt, OffsetsBefore, WordsBefore;
    if start + 1 < n {
      NoWordInside(s, w, start, c, n - 1);
      NoWordAt(s, n - 1);
      OneMorePlace(s, w, n - 1);
    }
  }

  // Passing the boundary c adds the word that ends there, if there is one.
  lemma PassBoundary(s: seq<Byte>, start: nat, c: nat)
    requires start <= c < |s|
    requires forall i | start <= i < c :: IsAlpha(s[i])
    requires start > 0 ==> !IsAlpha(s[start - 1])
    requires !IsAlpha(s[c])
    ensures start == c ==> WordsTable(s, c + 1) == WordsTable(s, start)
    ensures start < c ==>
              var w := Lower(s[start..c]);
              w in WordsIn(s) && WordsTable(s, c + 1) == AddOffset(WordsTable(s, start), w, start)
  {
    hide IsAlpha, IsRun, RunEnd, WordAt, OffsetsBefore;
    var after := if start < c then AddOffset(WordsTable(s, start), Lower(s[start..c]), start) else WordsTable(s, start);
    if start < c {
      RunIsWord(s, start, c);
    }
    forall w
      ensures w in WordsTable(s, c + 1) <==> w in after
      ensures w in after ==> WordsTable(s, c + 1)[w] == after[w]
    {
      PassBoundaryAt(s, start, c, w);
    }
  }

  // The table with one more offset for w, at the end of its list.
  function AddOffset(table: map<Word, seq<nat>>, w: Word, pos: nat): map<Word, seq<nat>> {
    table[w := (if w in table then table[w] else []) + [pos]]
  }

  lemma PassBoundaryAt(s: seq<Byte>, start: nat, c: nat, w: Word)
    requires start <= c < |s|
    requires forall i | start <= i < c :: IsAlpha(s[i])
    requires start > 0 ==> !IsAlpha(s[start - 1])
    requires !IsAlpha(s[c])
    ensures var here := start < c && w == Lower(s[start..c]);
            && (w in WordsBefore(s, c + 1) <==> w in WordsBefore(s, start) || here)
            && OffsetsBefore(s, w, c + 1) == OffsetsBefore(s, w, start) + (if here then [start] else [])
            && (w !in WordsBefore(s, start) ==> OffsetsBefore(s, w, start) == [])
  {
    hide IsAlpha, IsRun, RunEnd, WordAt, OffsetsBefore, WordsBefore, Lower;
    WordBeforeBoundary(s, start, c);
    NoWordInside(s, w, start, c, c + 1);
    OneMorePlace(s, w, start);
    OffsetsBeforeAre(s, w, start);
  }

  lemma WordBeforeBoundary(s: seq<Byte>, start: nat, c: nat)
    requires start <= c < |s|
    requires forall i | start <= i < c :: IsAlpha(s[i])
    requires start > 0 ==> !IsAlpha(s[start - 1])
    requires !IsAlpha(s[c])
    ensures WordAt(s, start) == if start < c then Some(Lower(s[start..c])) else None
  {
    hide IsAlpha;
    if start < c {
      RunIsWord(s, start, c);
    } else {
      NoWordAt(s, c);
    }
  }

  // Letters that reach the end of the text are not a word.
  lemma PassEnd(s: seq<Byte>, start: nat)
    requires start <= |s| && forall i | start <= i < |s| :: IsAlpha(s[i])
    ensures WordsTable(s, start) == DocumentWords(s)
  {
    forall w
      ensures OffsetsBefore(s, w, |s|) == OffsetsBefore(s, w, start)
      ensures w in WordsBefore(s, |s|) <==> w in WordsBefore(s, start)
    {
      TailHasNoWord(s, w, start, |s|);
    }
  }

  lemma {:induction false} TailHasNoWord(s: seq<Byte>, w: Word, start: nat, n: nat)
    requires start <= n <= |s| && forall i | start <= i < |s| :: IsAlpha(s[i])
    ensures OffsetsBefore(s, w, n) == OffsetsBefore(s, w, start)
    ensures w in WordsBefore(s, n) <==> w in WordsBefore(s, start)
    decreases n
  {
    hide IsAlpha, OffsetsBefore, WordsBefore;
    if start < n {
      TailHasNoWord(s, w, start, n - 1);
      assert WordAt(s, n - 1) == None;
      OneMorePlace(s, w, n - 1);
    }
  }
}
