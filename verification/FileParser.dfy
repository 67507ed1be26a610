// hw2/FileParser.c: splitting a buffer into words in place, and the table from
// words to the offsets where they occur.
module FileParsing {
  import opened LinkedLists
  import opened ChainTable
  import opened TableLaws
  import opened SurvivorLaws
  import opened ReachableTables
  import opened HashTables
  import opened WordSpec
  import opened LetterLaws

  // What the program needs of its hash function on the words it hashes: no two
  // words collide, and every hash survives the int parameter of hasKey.
  ghost predicate GoodOn(hash: Word -> Key, ws: set<Word>) {
    && (forall w | w in ws :: Survives(hash(w)))
    && (forall v, w | v in ws && w in ws && hash(v) == hash(w) :: v == w)
  }

  lemma GoodOnSubset(hash: Word -> Key, vs: set<Word>, ws: set<Word>)
    requires GoodOn(hash, ws) && vs <= ws
    ensures GoodOn(hash, vs)
  {
  }

  // In an index of the words ws, a lookup of w leads to the entry of v: the hash
  // of v is the narrowed hash of w, and the two hashes share a bucket.
  ghost predicate LeadsTo(hash: Word -> Key, ws: set<Word>, w: Word, v: Word) {
    var h, size := hash(w), BucketsAfter(16, |ws|);
    v in ws && hash(v) == Narrow(h) && BucketOf(Narrow(h), size) == BucketOf(h, size)
  }

  // The word that a query word is taken for.
  ghost function Meant(hash: Word -> Key, ws: set<Word>, w: Word): (v: Word)
    ensures v == w || LeadsTo(hash, ws, w, v)
  {
    if exists v :: LeadsTo(hash, ws, w, v) then
      var v :| LeadsTo(hash, ws, w, v);
      v
    else w
  }

  ghost function MeantQuery(hash: Word -> Key, ws: set<Word>, query: seq<Word>): (q: seq<Word>)
    ensures |q| == |query| && forall i | 0 <= i < |q| :: q[i] == Meant(hash, ws, query[i])
  {
    seq(|query|, i requires 0 <= i < |query| => Meant(hash, ws, query[i]))
  }

  // A word is taken for itself exactly if its lookup leads to no other word, and
  // so is every word of an index and every word with a hash of its own.
  lemma MeantIff(hash: Word -> Key, ws: set<Word>, w: Word)
    requires GoodOn(hash, ws)
    ensures Meant(hash, ws, w) == w <==> forall v | LeadsTo(hash, ws, w, v) :: v == w
    ensures GoodOn(hash, ws + {w}) ==> Meant(hash, ws, w) == w
    ensures (forall v | v in ws && hash(v) == Narrow(hash(w)) :: v == w) ==> Meant(hash, ws, w) == w
  {
    hide Narrow, BucketsAfter;
    if GoodOn(hash, ws + {w}) {
      assert w in ws + {w};
    }
  }

  // A query is answered as it was asked exactly if none of its words leads to
  // another.
  lemma MeantAsAsked(hash: Word -> Key, ws: set<Word>, query: seq<Word>)
    requires GoodOn(hash, ws)
    ensures MeantQuery(hash, ws, query) == query <==> forall w, v | w in query && LeadsTo(hash, ws, w, v) :: v == w
  {
    hide GoodOn, LeadsTo, Meant;
    forall i | 0 <= i < |query|
      ensures MeantQuery(hash, ws, query)[i] == query[i] <==> forall v | LeadsTo(hash, ws, query[i], v) :: v == query[i]
    {
      MeantIff(hash, ws, query[i]);
    }
  }

  // An injective hash keeps the number of words.
  lemma {:induction false} ImageSize(hash: Word -> Key, ws: set<Word>, ks: set<Key>)
    requires forall w | w in ws :: hash(w) in ks
    requires forall v, w | v in ws && w in ws && hash(v) == hash(w) :: v == w
    requires forall k | k in ks :: exists w :: w in ws && hash(w) == k
    ensures |ws| == |ks|
    decreases ws
  {
    if ws == {} {
      assert ks == {};
    } else {
      var w :| w in ws;
      forall k | k in ks - {hash(w)}
        ensures exists v :: v in ws - {w} && hash(v) == k
      {
        var v :| v in ws && hash(v) == k;
        assert v in ws - {w};
      }
      ImageSize(hash, ws - {w}, ks - {hash(w)});
    }
  }

  class WordPositions {
    const word: Word
    const positions: LinkedList<nat>

    constructor (word: Word, positions: LinkedList<nat>)
      ensures this.word == word && this.positions == positions
    {
      this.word := word;
      this.positions := positions;
    }
  }

  // The hash table of WordPositions that one file is parsed into.
  class WordTable {
    const hash: Word -> Key
    const tab: HashTable<WordPositions>

    ghost var Words: map<Word, seq<nat>>
    ghost var Repr: set<object>

    ghost predicate Valid()
      reads this, Repr
      ensures Valid() ==> this in Repr && tab in Repr && tab.Repr <= Repr - {this}
    {
      && this in Repr && tab in Repr && tab.Repr <= Repr - {this}
      && tab.Valid() && Canonical(tab.Contents)
      && (forall k | k in MapOf(tab.Contents) :: Stored(k, MapOf(tab.Contents)[k]))
      && (forall w | w in Words :: hash(w) in MapOf(tab.Contents) && MapOf(tab.Contents)[hash(w)].word == w)
      && (forall j, k | j in MapOf(tab.Contents) && k in MapOf(tab.Contents) && j != k ::
            MapOf(tab.Contents)[j].positions.Repr !! MapOf(tab.Contents)[k].positions.Repr)
    }

    // The entry under key k holds a word of the table and all its offsets, in
    // a list that shares nothing with the table itself.
    ghost predicate Stored(k: Key, wp: WordPositions)
      reads this, Repr
      requires tab in Repr
    {
      && wp.word in Words && hash(wp.word) == k
      && wp.positions in Repr && wp.positions.Repr <= Repr - {this} && wp.positions.Repr !! tab.Repr
      && wp.positions.Valid() && wp.positions.Contents == Words[wp.word]
    }

    constructor (hash: Word -> Key)
      ensures Valid() && fresh(Repr) && Words == map[] && this.hash == hash
    {
      this.hash := hash;
      tab := new HashTable<WordPositions>(32);
      Words := map[];
      new;
      Repr := {this} + tab.Repr;
      EmptyIsEmptyMap<WordPositions>(32);
    }

    method NumWords() returns (n: nat)
      requires Valid()
      ensures n == |Words|
    {
      hide HashTable.Valid, HashTable.Chained, HashTable.ChainOwned, LinkedList.Valid, LinkedList.LinkedAs;
      hide Placed, UniqueKeys, Lookup, Pairs, MapOf, Canonical;
      WordsAreKeys();
      n := tab.NumElements();
    }

    // There is one pair for each word.
    lemma WordsAreKeys()
      requires Valid()
      ensures |Pairs(tab.Contents)| == |Words|
    {
      hide HashTable.Valid, HashTable.Chained, LinkedList.Valid, LinkedList.LinkedAs;
      hide Placed, UniqueKeys, Lookup, Pairs, MapOf;
      CountIsMapSize(tab.Contents);
      ghost var m := MapOf(tab.Contents);
      forall k | k in m
        ensures m[k].word in Words && hash(m[k].word) == k
      {
        assert Stored(k, m[k]);
      }
      hide Stored, Canonical;
      ImageSize(hash, Words.Keys, m.Keys);
    }

    method AddWordPosition(word: Word, pos: nat)
      requires Valid() && GoodOn(hash, Words.Keys + {word})
      modifies Repr
      ensures Valid() && fresh(Repr - old(Repr))
      ensures Words == AddOffset(old(Words), word, pos)
    {
      hide HashTable.Valid, HashTable.Chained, HashTable.ChainOwned, LinkedList.Valid, LinkedList.LinkedAs;
      hide MapOf, Canonical, Placed, UniqueKeys, Lookup, Insert, Grow, Pairs;
      var hashKey := hash(word);
      FindReadsMap(tab.Contents, hashKey);
      var found, kv := tab.Find(hashKey);
      if found {
        var wp := kv.value.value;
        assert wp.word == word;
        AppendPosition(wp, pos);
      } else {
        InsertWord(word, pos);
      }
    }

    // The word is in the table already.
    method AppendPosition(wp: WordPositions, pos: nat)
      requires Valid() && hash(wp.word) in MapOf(tab.Contents) && wp == MapOf(tab.Contents)[hash(wp.word)]
      modifies Repr
      ensures Valid() && fresh(Repr - old(Repr))
      ensures Words == AddOffset(old(Words), wp.word, pos)
    {
      hide HashTable.Valid, HashTable.Chained, HashTable.ChainOwned, LinkedList.Valid, LinkedList.LinkedAs;
      hide MapOf, Canonical, Placed, UniqueKeys, Lookup, Insert, Grow, Pairs;
      assert Stored(hash(wp.word), wp);
      wp.positions.Append(pos);
      Repr := Repr + wp.positions.Repr;
      Words := AddOffset(Words, wp.word, pos);
    }

    // The first occurrence of the word.
    method InsertWord(word: Word, pos: nat)
      requires Valid() && word !in Words && hash(word) !in MapOf(tab.Contents) && Survives(hash(word))
      modifies Repr
      ensures Valid() && fresh(Repr - old(Repr))
      ensures Words == AddOffset(old(Words), word, pos)
    {
      hide WordTable.Valid, WordTable.Stored, HashTable.Valid, Survives;
      var positions := new LinkedList<nat>();
      positions.Append(pos);
      var wp := new WordPositions(word, positions);
      InsertEntry(wp);
    }

    // Entries are still stored when the table has grown beside them.
    twostate lemma StayStored(m: map<Key, WordPositions>)
      requires old(tab in Repr) && tab in Repr && old(forall k | k in m :: Stored(k, m[k]))
      requires forall w | w in old(Words) :: w in Words && Words[w] == old(Words[w])
      requires old(Repr) <= Repr && fresh(tab.Repr - old(tab.Repr))
      requires unchanged(old(Repr - tab.Repr) - {this})
      ensures forall k | k in m :: Stored(k, m[k]) && m[k].positions.Repr == old(m[k].positions.Repr) <= old(Repr)
    {
    }

    lemma NowStored(wp: WordPositions)
      requires tab in Repr && wp.word in Words && Words[wp.word] == wp.positions.Contents
      requires wp.positions.Valid() && wp.positions.Repr <= Repr - {this} && wp.positions.Repr !! tab.Repr
      ensures Stored(hash(wp.word), wp)
    {
    }

    method InsertEntry(wp: WordPositions)
      requires Valid() && wp.word !in Words && hash(wp.word) !in MapOf(tab.Contents) && Survives(hash(wp.word))
      requires wp.positions.Valid() && wp.positions.Repr !! Repr
      modifies Repr
      ensures Valid() && fresh(Repr - old(Repr) - wp.positions.Repr)
      ensures Words == old(Words)[wp.word := wp.positions.Contents]
    {
      hide HashTable.Valid, HashTable.Chained, HashTable.ChainOwned, LinkedList.Valid, LinkedList.LinkedAs;
      hide MapOf, Canonical, Placed, UniqueKeys, Lookup, Insert, Grow, Pairs;
      hide Stored, Survives;
      var kv := KeyValue(hash(wp.word), wp);
      ghost var m := MapOf(tab.Contents);
      InsertUpdatesMap(tab.Contents, kv);
      var _, _ := tab.Insert(kv);
      Repr := Repr + tab.Repr + wp.positions.Repr;
      Words := Words[wp.word := wp.positions.Contents];
      StayStored(m);
      NowStored(wp);
    }

    method NewIterator() returns (it: HTIterator<WordPositions>)
      requires Valid()
      ensures it.Valid() && it.ht == tab && it.pos == 0 && fresh(it.Repr)
    {
      it := new HTIterator(tab);
    }

    lemma CountWords()
      requires Valid()
      ensures Pairs(tab.Contents) == [] <==> Words == map[]
    {
      WordsAreKeys();
    }

    // Takes the next word out of the table and hands its list to the caller.
    method RemoveNext(it: HTIterator<WordPositions>) returns (wp: WordPositions)
      requires Valid() && it.Valid() && it.ht == tab && it.pos == 0 && it.Repr !! Repr
      requires Words != map[]
      modifies it.Repr, Repr
      ensures Valid() && fresh(Repr - old(Repr))
      ensures it.Valid() && it.pos == 0 && fresh(it.Repr - old(it.Repr)) && it.Repr !! Repr
      ensures wp.word in old(Words) && Words == old(Words) - {wp.word}
      ensures wp.positions.Valid() && wp.positions.Contents == old(Words)[wp.word]
      ensures wp.positions.Repr <= old(Repr) && wp.positions.Repr !! Repr + it.Repr
    {
      hide HashTable.Valid, HashTable.Chained, LinkedList.Valid, HTIterator.Valid, HTIterator.OnPair;
      hide MapOf, Canonical, SurvivorsOnce, Pairs, ChainTable.Remove, Survives, Lookup, Stored;
      FirstPairIsStored();
      ghost var first, m := Pairs(tab.Contents)[0], MapOf(tab.Contents);
      RemoveShrinksMap(tab.Contents, first.key);
      var ok, kv := it.Remove();
      wp := kv.value.value;
      assert kv.value == first && MapOf(tab.Contents) == m - {first.key};
      StayStored(m);
      Release(first.key, wp);
    }

    // The ghost side of taking the entry wp out of the table.
    ghost method Release(key: Key, wp: WordPositions)
      requires this in Repr && tab in Repr && tab.Valid() && Canonical(tab.Contents) && this !in tab.Repr
      requires key !in MapOf(tab.Contents) && Stored(key, wp)
      requires forall k | k in MapOf(tab.Contents) :: Stored(k, MapOf(tab.Contents)[k])
      requires forall k | k in MapOf(tab.Contents) :: MapOf(tab.Contents)[k].positions.Repr !! wp.positions.Repr
      requires forall w | w in Words && w != wp.word ::
                 hash(w) in MapOf(tab.Contents) && MapOf(tab.Contents)[hash(w)].word == w
      requires forall j, k | j in MapOf(tab.Contents) && k in MapOf(tab.Contents) && j != k ::
                 MapOf(tab.Contents)[j].positions.Repr !! MapOf(tab.Contents)[k].positions.Repr
      modifies this`Repr, this`Words
      ensures Valid() && wp.word in old(Words) && Words == old(Words) - {wp.word}
      ensures Repr == old(Repr) - wp.positions.Repr + tab.Repr && wp.positions.Repr !! Repr
      ensures wp.positions.Valid() && wp.positions.Contents == old(Words)[wp.word]
    {
      hide HashTable.Valid, HashTable.Chained, LinkedList.Valid, MapOf, Canonical;
      Repr := Repr - wp.positions.Repr + tab.Repr;
      Words := Words - {wp.word};
    }

    lemma FirstPairIsStored()
      requires Valid() && Words != map[]
      ensures SurvivorsOnce(tab.Contents)
      ensures Pairs(tab.Contents) != []
      ensures var kv := Pairs(tab.Contents)[0];
              && Survives(kv.key) && kv.key in MapOf(tab.Contents) && MapOf(tab.Contents)[kv.key] == kv.value
              && Stored(kv.key, kv.value)
    {
      hide HashTable.Valid, LinkedList.Valid, Pairs, Lookup;
      CanonicalIff(tab.Contents);
      WordsAreKeys();
      var kv := Pairs(tab.Contents)[0];
      assert kv in Pairs(tab.Contents);
      PairsSurvive(tab.Contents);
      LookupIff(tab.Contents, kv.key, kv.value);
      MapOfIs(tab.Contents, kv.key);
    }

    // Steps through the NUL-terminated text in content, lower-casing letters,
    // overwriting every other byte with NUL, and recording each word when its
    // boundary is reached.
    method InsertContent(content: array<Byte>, ghost text: seq<Byte>)
      requires Valid() && Words == map[] && content !in Repr
      requires IsAscii(text) && |text| < content.Length
      requires content[..|text|] == text && content[|text|] == NUL
      requires GoodOn(hash, WordsIn(text))
      modifies Repr, content
      ensures Valid() && fresh(Repr - old(Repr))
      ensures Words == DocumentWords(text) && |TableEntries(Words)| == |Runs(text)|
      ensures HoldsWordsOf(Words, text)
      ensures content[..|text|] == Cleaned(text) && content[|text|..] == old(content[|text|..])
      ensures forall i | 0 <= i < |text| ::
                if Letter(text[i]) then Spells(text[i], content[i]) else content[i] == 0
    {
      hide WordTable.Valid, WordsIn, WordAt, OffsetsBefore, GoodOn, DocumentWords, TableEntries, Runs, WordsTable;
      hide HoldsWordsOf;
      assert forall i | 0 <= i < |text| :: content[i] == text[i];
      WordsTableOfNothing(text);
      var curptr, wordstart := 0, 0;
      while true
        invariant 0 <= wordstart <= curptr <= |text|
        invariant forall i | wordstart <= i < curptr :: IsAlpha(text[i])
        invariant wordstart > 0 ==> !IsAlpha(text[wordstart - 1])
        invariant forall i | 0 <= i < curptr :: content[i] == Clean(text[i])
        invariant forall i | curptr <= i < content.Length :: content[i] == old(content[i])
        invariant Valid() && fresh(Repr - old(Repr)) && content !in Repr
        invariant Words == WordsTable(text, wordstart)
        decreases |text| - curptr
      {
        assert content[curptr] == if curptr < |text| then text[curptr] else NUL;
        if content[curptr] == NUL {
          break;
        } else if IsAlpha(content[curptr]) {
          content[curptr] := ToLower(content[curptr]);
        } else {
          content[curptr] := NUL;
          AtBoundary(content, text, wordstart, curptr);
          wordstart := curptr + 1;
        }
        curptr := curptr + 1;
      }
      PassEnd(text, wordstart);
      DocumentWordsAreSpelled(text);
      OffsetPerRun(text);
    }

    // Adds the word that ends at the boundary just passed, if it is not empty.
    method AtBoundary(content: array<Byte>, ghost text: seq<Byte>, wordstart: nat, curptr: nat)
      requires Valid() && wordstart <= curptr < |text| < content.Length
      requires forall i | wordstart <= i < curptr :: IsAlpha(text[i])
      requires wordstart > 0 ==> !IsAlpha(text[wordstart - 1])
      requires !IsAlpha(text[curptr])
      requires forall i | 0 <= i < curptr :: content[i] == Clean(text[i])
      requires Words == WordsTable(text, wordstart) && GoodOn(hash, WordsIn(text))
      modifies Repr
      ensures Valid() && fresh(Repr - old(Repr))
      ensures Words == WordsTable(text, curptr + 1)
    {
      hide WordTable.Valid, WordsTable, WordsIn, GoodOn, AddOffset;
      PassBoundary(text, wordstart, curptr);
      if curptr != 0 && IsAlpha(content[curptr - 1]) {
        var word := content[wordstart..curptr];
        assert word == Lower(text[wordstart..curptr]);
        WordsTableKeys(text, wordstart);
        GoodOnSubset(hash, Words.Keys + {word}, WordsIn(text));
        AddWordPosition(word, wordstart);
      }
    }
  }

  // What parsing leaves of a byte of the text.
  function Clean(b: Byte): Byte {
    if IsAlpha(b) then ToLower(b) else NUL
  }

  function Cleaned(text: seq<Byte>): (r: seq<Byte>)
    ensures |r| == |text| && forall i | 0 <= i < |text| :: r[i] == Clean(text[i])
  {
    seq(|text|, i requires 0 <= i < |text| => Clean(text[i]))
  }

  // The C string at the start of a buffer: the bytes before the first NUL.
  function CString(buffer: seq<Byte>): (text: seq<Byte>)
    ensures |text| <= |buffer| && text == buffer[..|text|] && NUL !in text
    ensures NUL in buffer ==> |text| < |buffer| && buffer[|text|] == NUL
  {
    if buffer == [] || buffer[0] == NUL then [] else [buffer[0]] + CString(buffer[1..])
  }

  // The texts that are indexed at all: ASCII, with at least one word.
  ghost predicate Indexable(text: seq<Byte>) {
    IsAscii(text) && WordsIn(text) != {}
  }

  const ASCII_UPPER_BOUND: Byte := 0x7F

  method StrLen(buffer: array<Byte>) returns (n: nat)
    requires NUL in buffer[..]
    ensures n == |CString(buffer[..])|
  {
    n := 0;
    ghost var text := CString(buffer[..]);
    while buffer[n] != NUL
      invariant n <= |text|
      decreases |text| - n
    {
      assert buffer[..][n] == buffer[n];
      n := n + 1;
    }
  }

  // Null stands for a file that could not be read, and for a result without words.
  method ParseIntoWordPositionsTable(filecontents: array?<Byte>, hash: Word -> Key) returns (tab: WordTable?)
    requires filecontents != null ==> NUL in filecontents[..]
    requires filecontents != null && IsAscii(CString(filecontents[..])) ==>
               GoodOn(hash, WordsIn(CString(filecontents[..])))
    modifies filecontents
    ensures tab != null <==> filecontents != null && Indexable(CString(old(filecontents[..])))
    ensures tab != null ==>
              var text := CString(old(filecontents[..]));
              && (forall i | 0 <= i < |text| :: 0 < text[i] < 128)
              && HoldsWordsOf(tab.Words, text)
    ensures tab != null ==> tab.Valid() && fresh(tab.Repr) && tab.hash == hash
    ensures tab != null ==> tab.Words == DocumentWords(CString(old(filecontents[..])))
  {
    hide WordTable.Valid, WordAt, Offsets, GoodOn, HoldsWordsOf;
    if filecontents == null {
      return null;
    }
    ghost var text := CString(filecontents[..]);
    var filelen := StrLen(filecontents);
    if filelen == 0 {
      return null;
    }
    for i := 0 to filelen
      invariant forall j | 0 <= j < i :: NUL != text[j] <= ASCII_UPPER_BOUND
    {
      assert text[i] == filecontents[i];
      if filecontents[i] == NUL || filecontents[i] > ASCII_UPPER_BOUND {
        return null;
      }
    }
    tab := new WordTable(hash);
    tab.InsertContent(filecontents, text);
    assert tab.Words.Keys == WordsIn(text);
    var n := tab.NumWords();
    if n == 0 {
      tab := null;
    }
  }
}
