// What a word is in terms of character codes alone, and that capitals do not
// matter.
module LetterLaws {
  import opened WordSpec

  predicate Capital(b: Byte) { 65 <= b <= 90 }

  predicate Small(b: Byte) { 97 <= b <= 122 }

  predicate Letter(b: Byte) { Capital(b) || Small(b) }

  // b is the small letter x or its capital.
  predicate Spells(b: Byte, x: Byte) {
    Small(x) && (b == x || b == x - 32)
  }

  // At a stands w, spelled in whatever case, between non-letters: the text has to
  // go on behind it but need not begin before it.
  ghost predicate SpellsAt(s: seq<Byte>, a: nat, w: Word) {
    && w != [] && a + |w| < |s|
    && (forall i | 0 <= i < |w| :: Spells(s[a + i], w[i]))
    && (a > 0 ==> !Letter(s[a - 1])) && !Letter(s[a + |w|])
  }

  lemma LetterIsAlpha(b: Byte)
    ensures IsAlpha(b) <==> Letter(b)
    ensures forall x: Byte :: (IsAlpha(b) && ToLower(b) == x) <==> Spells(b, x)
    ensures !IsAlpha(b) ==> ToLower(b) == b
  {
  }

  lemma RunSpells(s: seq<Byte>, a: nat, b: nat, w: Word)
    requires IsRun(s, a, b)
    ensures Lower(s[a..b]) == w <==> b == a + |w| && SpellsAt(s, a, w)
  {
    hide IsAlpha, ToLower;
    forall i | 0 <= i < |s|
      ensures IsAlpha(s[i]) <==> Letter(s[i])
      ensures forall x: Byte :: (IsAlpha(s[i]) && ToLower(s[i]) == x) <==> Spells(s[i], x)
    {
      LetterIsAlpha(s[i]);
    }
    hide Letter, Spells;
    if Lower(s[a..b]) == w {
      assert forall i | 0 <= i < |w| :: ToLower(s[a + i]) == w[i] && IsAlpha(s[a + i]);
    }
    if b == a + |w| && SpellsAt(s, a, w) {
      assert forall i | 0 <= i < |w| :: Lower(s[a..b])[i] == w[i];
    }
  }

  lemma SpelledIsRun(s: seq<Byte>, a: nat, w: Word)
    requires SpellsAt(s, a, w)
    ensures IsRun(s, a, a + |w|)
  {
    hide IsAlpha;
    forall i | 0 <= i < |s|
      ensures IsAlpha(s[i]) <==> Letter(s[i])
    {
      LetterIsAlpha(s[i]);
    }
    forall i | a <= i < a + |w|
      ensures Letter(s[i])
    {
      assert Spells(s[a + (i - a)], w[i - a]);
    }
    hide Letter;
  }

  // The offsets of w are the places where it is spelled.
  lemma OffsetsSpell(s: seq<Byte>, w: Word)
    ensures forall a: nat :: a in Offsets(s, w) <==> SpellsAt(s, a, w)
    ensures w in WordsIn(s) <==> exists a: nat :: SpellsAt(s, a, w)
  {
    hide SpellsAt, Offsets, WordsIn, Lower;
    OffsetsAreRuns(s, w);
    forall a: nat
      ensures a in Offsets(s, w) <==> SpellsAt(s, a, w)
    {
      if a in Offsets(s, w) {
        var b: nat :| IsRun(s, a, b) && Lower(s[a..b]) == w;
        RunSpells(s, a, b, w);
      }
      if SpellsAt(s, a, w) {
        SpelledIsRun(s, a, w);
        RunSpells(s, a, SpelledEnd(a, w), w);
      }
    }
    if w in WordsIn(s) {
      assert Offsets(s, w)[0] in Offsets(s, w);
    }
  }

  function SpelledEnd(a: nat, w: Word): nat {
    a + |w|
  }

  // The table holds exactly the words of s, at the places where they are spelled.
  ghost predicate HoldsWordsOf(table: map<Word, seq<nat>>, s: seq<Byte>) {
    forall w, a: nat :: w in table && a in table[w] <==> SpellsAt(s, a, w)
  }

  lemma DocumentWordsAreSpelled(s: seq<Byte>)
    ensures HoldsWordsOf(DocumentWords(s), s)
  {
    hide SpellsAt, Offsets, WordsIn;
    forall w, a: nat
      ensures w in DocumentWords(s) && a in DocumentWords(s)[w] <==> SpellsAt(s, a, w)
    {
      OffsetsSpell(s, w);
    }
  }

  // Every word of a document consists of small letters.
  lemma WordsAreSmall(s: seq<Byte>, w: Word)
    requires w in DocumentWords(s)
    ensures w != [] && forall i | 0 <= i < |w| :: Small(w[i])
  {
    OffsetsSpell(s, w);
    hide Offsets, WordsIn;
    var a: nat :| SpellsAt(s, a, w);
    assert forall i | 0 <= i < |w| :: Spells(s[a + i], w[i]);
  }

  // A text without capitals has its words as they stand.
  lemma SmallTextIsKept(s: seq<Byte>, w: Word, a: nat)
    requires a in Offsets(s, w) && forall i | 0 <= i < |s| :: !Capital(s[i])
    ensures a + |w| < |s| && s[a..a + |w|] == w
  {
    OffsetsSpell(s, w);
    hide Offsets;
    assert forall i | 0 <= i < |w| :: Spells(s[a + i], w[i]);
  }

  // Equal but for the case of letters.
  predicate SameLetter(x: Byte, y: Byte) {
    x == y || (Capital(x) && y == x + 32) || (Capital(y) && x == y + 32)
  }

  ghost predicate SameText(s: seq<Byte>, t: seq<Byte>) {
    |s| == |t| && forall i | 0 <= i < |s| :: SameLetter(s[i], t[i])
  }

  lemma SpelledInSameText(s: seq<Byte>, t: seq<Byte>, a: nat, w: Word)
    requires SameText(s, t) && SpellsAt(s, a, w)
    ensures SpellsAt(t, a, w)
  {
    forall i | 0 <= i < |w|
      ensures Spells(t[a + i], w[i])
    {
      assert SameLetter(s[a + i], t[a + i]);
    }
  }

  lemma SameTextBack(s: seq<Byte>, t: seq<Byte>)
    requires SameText(s, t)
    ensures SameText(t, s)
  {
  }

  lemma {:induction false} AscendingAreEqual(u: seq<nat>, v: seq<nat>)
    requires forall i, j | 0 <= i < j < |u| :: u[i] < u[j]
    requires forall i, j | 0 <= i < j < |v| :: v[i] < v[j]
    requires forall a: nat :: a in u <==> a in v
    ensures u == v
    decreases |u|
  {
    assert v != [] ==> v[0] in v && v[0] in u;
    if u != [] {
      assert u[0] in u && u[0] in v;
      assert v != [] && v[0] in v && v[0] in u;
      assert u[0] == v[0];
      forall a: nat
        ensures a in u[1..] <==> a in v[1..]
      {
        assert a in u[1..] <==> a in u && a != u[0];
        assert a in v[1..] <==> a in v && a != v[0];
      }
      AscendingAreEqual(u[1..], v[1..]);
    }
  }

  // Texts that differ in the case of letters only have the same words at the
  // same offsets.
  lemma CaseDoesNotMatter(s: seq<Byte>, t: seq<Byte>)
    requires SameText(s, t)
    ensures DocumentWords(s) == DocumentWords(t)
  {
    SameTextBack(s, t);
    hide Offsets, WordsIn, SameText, SpellsAt;
    forall w
      ensures Offsets(s, w) == Offsets(t, w)
      ensures w in WordsIn(s) <==> w in WordsIn(t)
    {
      OffsetsSpell(s, w);
      OffsetsSpell(t, w);
      OffsetsAreRuns(s, w);
      OffsetsAreRuns(t, w);
      forall a: nat
        ensures a in Offsets(s, w) <==> a in Offsets(t, w)
      {
        if SpellsAt(s, a, w) {
          SpelledInSameText(s, t, a, w);
        }
        if SpellsAt(t, a, w) {
          SpelledInSameText(t, s, a, w);
        }
      }
      AscendingAreEqual(Offsets(s, w), Offsets(t, w));
    }
  }
}
