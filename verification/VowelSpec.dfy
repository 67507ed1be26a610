// The words ex05 looks for, defined without any state machine.
module VowelSpec {
  import WordSpec

  type Byte = WordSpec.Byte

  // A C char as getchar's result is stored in one: -128 .. 127.  The byte 0xFF
  // and the end of the stream both become EOF.
  type Char = c: int | -128 <= c < 128

  const EOF: Char := -1

  function CharAt(input: seq<Byte>, pos: nat): Char {
    if pos >= |input| then EOF
    else
      var b: int := input[pos];
      if b < 128 then b else b - 256
  }

  function ToLower(c: Char): Char {
    if 'A' as int <= c <= 'Z' as int then c + 32 else c
  }

  predicate IsSpace(c: Char) {
    c == 32 || 9 <= c <= 13
  }

  const A: Char := 'a' as int
  const E: Char := 'e' as int
  const I: Char := 'i' as int
  const O: Char := 'o' as int
  const U: Char := 'u' as int
  const AEIOU: seq<Char> := [A, E, I, O, U]

  predicate IsVowel(c: Char) {
    c == A || c == E || c == I || c == O || c == U
  }

  // The vowels of a word in order, in lower case.
  function Vowels(w: seq<Char>): seq<Char> {
    if w == [] then []
    else Vowels(w[..|w| - 1]) + var c := ToLower(w[|w| - 1]); if IsVowel(c) then [c] else []
  }

  // What remains of the stream for the program: everything before the first EOF.
  function Text(input: seq<Byte>): (text: seq<Char>)
    ensures |text| <= |input| && CharAt(input, |text|) == EOF
    ensures forall i | 0 <= i < |text| :: text[i] == CharAt(input, i) != EOF
  {
    TextUpTo(input, |input|)
  }

  function TextUpTo(input: seq<Byte>, n: nat): (text: seq<Char>)
    requires n <= |input|
    ensures |text| <= n && (|text| < n ==> CharAt(input, |text|) == EOF)
    ensures forall i | 0 <= i < |text| :: text[i] == CharAt(input, i) != EOF
  {
    if n == 0 then []
    else
      var t := TextUpTo(input, n - 1);
      if |t| == n - 1 && CharAt(input, n - 1) != EOF then t + [CharAt(input, n - 1)] else t
  }

  // The words of a text, separated by single whitespace characters; neighbouring
  // separators have an empty word between them.
  function Words(text: seq<Char>): (ws: seq<seq<Char>>)
    ensures ws != []
  {
    if text == [] then [[]]
    else
      var ws := Words(text[..|text| - 1]);
      var c := text[|text| - 1];
      if IsSpace(c) then ws + [[]] else ws[..|ws| - 1] + [ws[|ws| - 1] + [c]]
  }

  function LastWord(text: seq<Char>): seq<Char> {
    Words(text)[|Words(text)| - 1]
  }

  // --- The same by character codes. ---

  // The text is the input up to the first byte 0xFF, with signed characters.
  lemma TextIs(input: seq<Byte>)
    ensures var t := Text(input);
            && (forall i | 0 <= i < |t| :: input[i] != 255)
            && (forall i | 0 <= i < |t| :: t[i] as int == input[i] as int - if input[i] < 128 then 0 else 256)
            && (|t| < |input| ==> input[|t|] == 255)
  {
    var t := Text(input);
    forall i | 0 <= i < |t|
      ensures input[i] != 255 && t[i] as int == input[i] as int - if input[i] < 128 then 0 else 256
    {
      assert t[i] == CharAt(input, i) != EOF;
    }
  }

  predicate White(c: Char) {
    c == 32 || 9 <= c <= 13
  }

  // The words with the separators between them.
  function Join(ws: seq<seq<Char>>, seps: seq<Char>): seq<Char>
    requires |ws| == |seps| + 1
  {
    if seps == [] then ws[0]
    else Join(ws[..|seps|], seps[..|seps| - 1]) + [seps[|seps| - 1]] + ws[|seps|]
  }

  ghost predicate Separates(ws: seq<seq<Char>>, seps: seq<Char>, text: seq<Char>) {
    && |ws| == |seps| + 1 && Join(ws, seps) == text
    && (forall i | 0 <= i < |seps| :: White(seps[i]))
    && (forall w, i | w in ws && 0 <= i < |w| :: !White(w[i]))
  }

  // Words cuts a text at its white space, and nowhere else.
  lemma {:induction false} WordsAreSeparated(text: seq<Char>) returns (seps: seq<Char>)
    ensures Separates(Words(text), seps, text)
    decreases |text|
  {
    hide Separates;
    if text == [] {
      seps := [];
      NothingToSeparate();
    } else {
      var init, c := text[..|text| - 1], text[|text| - 1];
      assert text == init + [c];
      seps := WordsAreSeparated(init);
      if White(c) {
        SeparatorEndsWord(Words(init), seps, init, c);
        seps := seps + [c];
      } else {
        LongerLastWord(Words(init), seps, init, c);
      }
    }
  }

  lemma NothingToSeparate()
    ensures Separates([[]], [], [])
  {
  }

  lemma SeparatorEndsWord(ws: seq<seq<Char>>, seps: seq<Char>, text: seq<Char>, c: Char)
    requires Separates(ws, seps, text) && White(c)
    ensures Separates(ws + [[]], seps + [c], text + [c])
  {
    assert (ws + [[]])[..|seps| + 1] == ws && (seps + [c])[..|seps|] == seps;
  }

  lemma LongerLastWord(ws: seq<seq<Char>>, seps: seq<Char>, text: seq<Char>, c: Char)
    requires Separates(ws, seps, text) && !White(c)
    ensures Separates(ws[..|ws| - 1] + [ws[|ws| - 1] + [c]], seps, text + [c])
  {
    var longer := ws[..|ws| - 1] + [ws[|ws| - 1] + [c]];
    assert longer[..|seps|] == ws[..|seps|];
    assert ws[|ws| - 1] in ws;
  }

  // The vowels and their capitals.
  lemma VowelCodes(c: Char)
    ensures IsVowel(ToLower(c)) <==> c in {65, 69, 73, 79, 85, 97, 101, 105, 111, 117}
    ensures IsVowel(ToLower(c)) ==> ToLower(c) == if c < 97 then c + 32 else c
    ensures AEIOU == [97, 101, 105, 111, 117]
  {
  }

  // --- What ex05.c prints. ---

  predicate Accepted(w: seq<Char>) {
    Vowels(w) == AEIOU
  }

  // The run of vowel-free words at the end, written together.
  function VowelFreeTail(ws: seq<seq<Char>>): seq<Char> {
    if ws == [] || Vowels(ws[|ws| - 1]) != [] then []
    else VowelFreeTail(ws[..|ws| - 1]) + ws[|ws| - 1]
  }

  const NUL: Char := 0

  // What printf shows of a string.
  function BeforeNul(s: seq<Char>): (r: seq<Char>)
    ensures |r| <= |s| && r == s[..|r|]
    ensures (|r| < |s| ==> s[|r|] == NUL) && NUL !in r
  {
    if s == [] || s[0] == NUL then [] else [s[0]] + BeforeNul(s[1..])
  }

  // One line for each accepted word: the vowel-free words just before it, and it,
  // up to a NUL.
  function Printed(ws: seq<seq<Char>>): seq<seq<Char>> {
    if ws == [] then []
    else
      var init, w := ws[..|ws| - 1], ws[|ws| - 1];
      Printed(init) + if Accepted(w) then [BeforeNul(VowelFreeTail(init) + w)] else []
  }

  // --- What the two other programs print for. ---

  // p can be obtained from w by leaving out characters.
  predicate IsSubsequence(p: seq<Char>, w: seq<Char>)
    decreases |w|
  {
    if p == [] then true
    else if w == [] then false
    else
      || (p[|p| - 1] == w[|w| - 1] && IsSubsequence(p[..|p| - 1], w[..|w| - 1]))
      || IsSubsequence(p, w[..|w| - 1])
  }

  function LowerCase(w: seq<Char>): (r: seq<Char>)
    ensures |r| == |w| && forall i | 0 <= i < |w| :: r[i] == ToLower(w[i])
  {
    seq(|w|, i requires 0 <= i < |w| => ToLower(w[i]))
  }

  // How much of "aeiou" a left-to-right reading of w has found.
  function Progress(w: seq<Char>): (n: nat)
    ensures n <= 5
  {
    if w == [] then 0
    else
      var n := Progress(w[..|w| - 1]);
      if n < 5 && w[|w| - 1] == AEIOU[n] then n + 1 else n
  }

  lemma {:induction false} ProgressIsSubsequence(w: seq<Char>, k: nat)
    requires k <= 5
    ensures IsSubsequence(AEIOU[..k], w) <==> k <= Progress(w)
    decreases |w|
  {
    if k > 0 && w != [] {
      var init := w[..|w| - 1];
      assert AEIOU[..k][..k - 1] == AEIOU[..k - 1];
      ProgressIsSubsequence(init, k - 1);
      ProgressIsSubsequence(init, k);
    }
  }

  // The places at which a word ends that the predicate accepts: in front of a
  // separator, or at the end of the text.
  function EndsBefore(text: seq<Char>, accepts: seq<Char> -> bool, n: nat): seq<nat>
    requires n <= |text|
  {
    if n == 0 then []
    else EndsBefore(text, accepts, n - 1) +
         if IsSpace(text[n - 1]) && accepts(LastWord(text[..n - 1])) then [n - 1] else []
  }

  function Ends(text: seq<Char>, accepts: seq<Char> -> bool): seq<nat> {
    EndsBefore(text, accepts, |text|) + if accepts(LastWord(text)) then [|text|] else []
  }

  predicate HasAEIOU(w: seq<Char>) {
    IsSubsequence(AEIOU, w)
  }

  predicate HasAEIOUInAnyCase(w: seq<Char>) {
    IsSubsequence(AEIOU, LowerCase(w))
  }

  predicate NoUpperCaseVowels(w: seq<Char>) {
    forall i | 0 <= i < |w| :: IsVowel(ToLower(w[i])) ==> IsVowel(w[i])
  }

  // --- The text these two print. ---


  // Of characters that were written round and round into a buffer of 100, those
  // after the last full round.
  function Tail(gathered: seq<Char>): (r: seq<Char>)
    ensures |r| == |gathered| % 100
  {
    gathered[|gathered| - |gathered| % 100..]
  }

  // What is printed of them.
  function Shown(gathered: seq<Char>): seq<Char> {
    BeforeNul(Tail(gathered))
  }

  // The run of words at the end that do not even have an 'a', written together.
  function Carried(ws: seq<seq<Char>>): seq<Char> {
    if ws == [] || Progress(LowerCase(ws[|ws| - 1])) != 0 then []
    else Carried(ws[..|ws| - 1]) + ws[|ws| - 1]
  }

  function UpTo(text: seq<Char>, n: nat): seq<Char> {
    text[..if n <= |text| then n else |text|]
  }

  // What state-machine.c has gathered before place n: such words, and the
  // current word.
  function GatheredAt(text: seq<Char>, n: nat): seq<Char> {
    var ws := Words(UpTo(text, n));
    Carried(ws[..|ws| - 1]) + ws[|ws| - 1]
  }

  // What state-machine.c prints at these places of a text.
  function GatheredLines(text: seq<Char>, places: seq<nat>): (lines: seq<seq<Char>>)
    ensures |lines| == |places| && forall i | 0 <= i < |places| :: lines[i] == Shown(GatheredAt(text, places[i]))
  {
    seq(|places|, i requires 0 <= i < |places| => Shown(GatheredAt(text, places[i])))
  }

  // What undisciplined.c prints at these places: only the word that ends there.
  function WordLines(text: seq<Char>, places: seq<nat>): (lines: seq<seq<Char>>)
    ensures |lines| == |places| && forall i | 0 <= i < |places| :: lines[i] == Shown(LastWord(UpTo(text, places[i])))
  {
    seq(|places|, i requires 0 <= i < |places| => Shown(LastWord(UpTo(text, places[i]))))
  }

  // --- How the three relate. ---

  lemma {:induction false} VowelsAreASubsequence(w: seq<Char>)
    ensures IsSubsequence(Vowels(w), LowerCase(w))
    decreases |w|
  {
    if w != [] {
      var init := w[..|w| - 1];
      VowelsAreASubsequence(init);
      assert LowerCase(w)[..|w| - 1] == LowerCase(init);
      var v := Vowels(w);
      if Vowels(init) != v {
        assert v[..|v| - 1] == Vowels(init);
      }
    }
  }

  // Every word ex05.c accepts is one state-machine.c prints for.
  lemma AcceptedHasAEIOU(w: seq<Char>)
    requires Accepted(w)
    ensures HasAEIOUInAnyCase(w)
  {
    VowelsAreASubsequence(w);
  }

  lemma {:induction false} SameProgress(w: seq<Char>)
    requires NoUpperCaseVowels(w)
    ensures Progress(w) == Progress(LowerCase(w))
    decreases |w|
  {
    if w != [] {
      var init, c := w[..|w| - 1], w[|w| - 1];
      SameProgress(init);
      assert LowerCase(w)[..|w| - 1] == LowerCase(init);
      assert IsVowel(ToLower(c)) ==> ToLower(c) == c;
    }
  }

  // Without upper-case vowels the other two programs look for the same words.
  lemma SameWithoutUpperCase(w: seq<Char>)
    requires NoUpperCaseVowels(w)
    ensures HasAEIOU(w) == HasAEIOUInAnyCase(w)
  {
    assert AEIOU[..5] == AEIOU;
    ProgressIsSubsequence(w, 5);
    ProgressIsSubsequence(LowerCase(w), 5);
    SameProgress(w);
  }

  // How many of the words the predicate accepts.
  function Count(ws: seq<seq<Char>>, accepts: seq<Char> -> bool): nat {
    if ws == [] then 0 else Count(ws[..|ws| - 1], accepts) + if accepts(ws[|ws| - 1]) then 1 else 0
  }

  // ex05.c prints one line for each word it accepts.
  lemma {:induction false} LinePerAccepted(ws: seq<seq<Char>>)
    ensures |Printed(ws)| == Count(ws, Accepted)
    decreases |ws|
  {
    if ws != [] {
      LinePerAccepted(ws[..|ws| - 1]);
    }
  }

  // The other two print once for each word they look for.
  lemma {:induction false} EndPerWord(text: seq<Char>, accepts: seq<Char> -> bool)
    ensures |Ends(text, accepts)| == Count(Words(text), accepts)
    decreases |text|
  {
    if text != [] {
      var n := |text| - 1;
      var init, c := text[..n], text[n];
      EndPerWord(init, accepts);
      EndsOfPrefix(text, accepts, n, n);
      var ws := Words(init);
      assert IsSpace(c) ==> Words(text)[..|ws|] == ws;
      assert !IsSpace(c) ==> Words(text)[..|ws| - 1] == ws[..|ws| - 1];
    } else {
      assert Words(text)[..0] == [];
    }
  }

  lemma {:induction false} EndsOfPrefix(text: seq<Char>, accepts: seq<Char> -> bool, m: nat, n: nat)
    requires n <= m <= |text|
    ensures EndsBefore(text[..m], accepts, n) == EndsBefore(text, accepts, n)
    decreases n
  {
    if n != 0 {
      EndsOfPrefix(text, accepts, m, n - 1);
      assert text[..m][..n - 1] == text[..n - 1];
    }
  }

  // So ex05.c never prints more often than state-machine.c.
  lemma {:induction false} AcceptedAreFewer(ws: seq<seq<Char>>)
    ensures Count(ws, Accepted) <= Count(ws, HasAEIOUInAnyCase)
    decreases |ws|
  {
    if ws != [] {
      AcceptedAreFewer(ws[..|ws| - 1]);
      if Accepted(ws[|ws| - 1]) {
        AcceptedHasAEIOU(ws[|ws| - 1]);
      }
    }
  }

  lemma {:induction false} LastWordHasNoMore(text: seq<Char>)
    requires NoUpperCaseVowels(text)
    ensures NoUpperCaseVowels(LastWord(text))
    decreases |text|
  {
    if text != [] {
      LastWordHasNoMore(text[..|text| - 1]);
    }
  }

  // On a text without upper-case vowels, state-machine.c and undisciplined.c
  // print at the same places.
  lemma {:induction false} SamePlaces(text: seq<Char>, n: nat)
    requires NoUpperCaseVowels(text) && n <= |text|
    ensures EndsBefore(text, HasAEIOU, n) == EndsBefore(text, HasAEIOUInAnyCase, n)
    ensures n == |text| ==> Ends(text, HasAEIOU) == Ends(text, HasAEIOUInAnyCase)
    decreases n
  {
    hide Words, LastWord, HasAEIOU, HasAEIOUInAnyCase, IsSpace;
    if n != 0 {
      SamePlaces(text, n - 1);
      LastWordHasNoMore(text[..n - 1]);
      SameWithoutUpperCase(LastWord(text[..n - 1]));
    }
    LastWordHasNoMore(text);
    SameWithoutUpperCase(LastWord(text));
  }
}
