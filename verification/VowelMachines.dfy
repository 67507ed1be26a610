// The three programs of ex05 that look for words with all vowels in order: two
// table-driven state machines and one of nested loops.
module VowelMachines {
  import opened VowelSpec

  datatype CharClass = CharWs | CharA | CharE | CharI | CharO | CharU | CharNonWs | CharEOF

  function ClassifyChar(c: Char): CharClass {
    var l := ToLower(c);
    if l == EOF then CharEOF
    else if l == A then CharA
    else if l == E then CharE
    else if l == I then CharI
    else if l == O then CharO
    else if l == U then CharU
    else if IsSpace(c) then CharWs
    else CharNonWs
  }

  datatype State = StateNone | StateGarbage | StateA | StateE | StateI | StateO | StateU | StateDone

  datatype Action = NoAction | AddChar | ResetWord | PrintWord

  datatype Transition = Transition(next: State, action: Action)

  // --- ex05.c ---

  // The transition table of ex05.c: every state is left for state_garbage by a
  // vowel it does not expect.
  function Strict(s: State, k: CharClass): Transition
    requires s != StateDone
  {
    match k
    case CharEOF => Transition(StateDone, if s == StateU then PrintWord else NoAction)
    case CharWs =>
      Transition(StateNone, if s == StateNone then NoAction else if s == StateU then PrintWord else ResetWord)
    case CharNonWs => Transition(s, AddChar)
    case CharA => Transition(if s == StateNone then StateA else StateGarbage, AddChar)
    case CharE => Transition(if s == StateA then StateE else StateGarbage, AddChar)
    case CharI => Transition(if s == StateE then StateI else StateGarbage, AddChar)
    case CharO => Transition(if s == StateI then StateO else StateGarbage, AddChar)
    case CharU => Transition(if s == StateO then StateU else StateGarbage, AddChar)
  }

  // The state that the vowels of the current word so far lead to.
  function StateFor(v: seq<Char>): State {
    if v == [] then StateNone
    else if v == [A] then StateA
    else if v == [A, E] then StateE
    else if v == [A, E, I] then StateI
    else if v == [A, E, I, O] then StateO
    else if v == AEIOU then StateU
    else StateGarbage
  }

  lemma StateFollowsVowels(w: seq<Char>, c: Char)
    requires !IsSpace(c) && c != EOF
    ensures Strict(StateFor(Vowels(w)), ClassifyChar(c)) == Transition(StateFor(Vowels(w + [c])), AddChar)
  {
    assert (w + [c])[..|w|] == w;
    var v, l := Vowels(w), ToLower(c);
    if IsVowel(l) {
      var v' := v + [l];
      assert v'[..|v'| - 1] == v && v'[|v'| - 1] == l;
      StateOfLonger(v, l);
    }
  }

  lemma StateOfLonger(v: seq<Char>, l: Char)
    requires IsVowel(l)
    ensures StateFor(v + [l]) ==
            if v == [] && l == A then StateA
            else if v == [A] && l == E then StateE
            else if v == [A, E] && l == I then StateI
            else if v == [A, E, I] && l == O then StateO
            else if v == [A, E, I, O] && l == U then StateU
            else StateGarbage
  {
    var w := v + [l];
    assert w != [] && w[|w| - 1] == l && w[..|w| - 1] == v;
    assert [A][..0] == [] && [A, E][..1] == [A] && [A, E, I][..2] == [A, E];
    assert [A, E, I, O][..3] == [A, E, I] && AEIOU[..4] == [A, E, I, O];
  }

  // The system of ex05.c, with its array that doubles when it is full.
  class System {
    var currentState: State
    var nextChar: Char
    var word: array<Char>
    var wordIndex: nat
    var output: seq<seq<Char>>    // the lines printed so far

    ghost predicate Valid()
      reads this
    {
      0 < word.Length && wordIndex <= word.Length
    }

    ghost function Accumulated(): seq<Char>
      requires Valid()
      reads this, word
    {
      word[..wordIndex]
    }

    constructor ()
      ensures Valid() && fresh(word)
      ensures currentState == StateNone && Accumulated() == [] && output == []
    {
      currentState := StateNone;
      nextChar := EOF;
      word := new Char[2](_ => EOF);
      wordIndex := 0;
      output := [];
    }

    method AddChar()
      requires Valid()
      modifies this`word, this`wordIndex, word
      ensures Valid() && (word == old(word) || fresh(word))
      ensures Accumulated() == old(Accumulated()) + [nextChar]
    {
      if wordIndex < word.Length {
        word[wordIndex] := nextChar;
        wordIndex := wordIndex + 1;
      } else {
        var arrLen := word.Length;
        var temp := CopyOf(word, arrLen);
        word := CopyOf(temp, arrLen * 2);
        word[wordIndex] := nextChar;
        wordIndex := wordIndex + 1;
      }
    }

    // A new array of the given size that starts with the elements of a.
    static method CopyOf(a: array<Char>, size: nat) returns (b: array<Char>)
      requires a.Length <= size
      ensures fresh(b) && b.Length == size && b[..a.Length] == a[..]
    {
      b := new Char[size](_ => EOF);
      var i := 0;
      while i < a.Length
        invariant 0 <= i <= a.Length
        invariant b[..i] == a[..i]
      {
        b[i] := a[i];
        i := i + 1;
      }
    }

    method ResetWord()
      requires Valid()
      modifies this`wordIndex
      ensures Valid() && Accumulated() == []
    {
      wordIndex := 0;
    }

    method PrintWord()
      requires Valid()
      modifies this`wordIndex, this`output
      ensures Valid() && Accumulated() == [] && output == old(output) + [BeforeNul(old(Accumulated()))]
    {
      output := output + [BeforeNul(word[..wordIndex])];
      wordIndex := 0;
    }

    method Perform(action: Action)
      requires Valid()
      modifies this`word, this`wordIndex, this`output, word
      ensures Valid() && (word == old(word) || fresh(word))
      ensures Accumulated() == match action
                               case NoAction => old(Accumulated())
                               case AddChar => old(Accumulated()) + [nextChar]
                               case _ => []
      ensures output == old(output) + if action == Action.PrintWord then [BeforeNul(old(Accumulated()))] else []
    {
      match action
      case NoAction =>
      case AddChar => AddChar();
      case ResetWord => ResetWord();
      case PrintWord => PrintWord();
    }
  }

  // The words of a text that has one more character.
  lemma WordsOfLonger(text: seq<Char>, c: Char)
    ensures var ws := Words(text); var init, w := ws[..|ws| - 1], ws[|ws| - 1];
            Words(text + [c]) == if IsSpace(c) then init + [w] + [[]] else init + [w + [c]]
  {
    assert (text + [c])[..|text|] == text;
    var ws := Words(text);
    assert ws == ws[..|ws| - 1] + [ws[|ws| - 1]];
  }

  // What the system holds after it has read a text without EOF.
  ghost predicate InStep(text: seq<Char>, state: State, accumulated: seq<Char>, output: seq<seq<Char>>) {
    var ws := Words(text);
    var init, w := ws[..|ws| - 1], ws[|ws| - 1];
    && state == StateFor(Vowels(w))
    && accumulated == VowelFreeTail(init) + w
    && output == Printed(init)
  }

  lemma StayInStep(text: seq<Char>, c: Char, accumulated: seq<Char>, output: seq<seq<Char>>, state: State)
    requires c != EOF && state != StateDone && InStep(text, state, accumulated, output)
    ensures var t := Strict(state, ClassifyChar(c));
            && t.next != StateDone
            && InStep(text + [c], t.next,
                      match t.action case NoAction => accumulated case AddChar => accumulated + [c] case _ => [],
                      output + if t.action == Action.PrintWord then [BeforeNul(accumulated)] else [])
  {
    hide Words, Printed, VowelFreeTail, Vowels, Accepted, BeforeNul;
    WordsOfLonger(text, c);
    var ws := Words(text);
    var init, w := ws[..|ws| - 1], ws[|ws| - 1];
    if IsSpace(c) {
      WordEnds(init, w);
      NoVowelsYet();
    } else {
      StateFollowsVowels(w, c);
      var more := init + [w + [c]];
      assert more[..|more| - 1] == init && more[|more| - 1] == w + [c];
      assert VowelFreeTail(init) + (w + [c]) == accumulated + [c];
    }
  }

  lemma NoVowelsYet()
    ensures Vowels([]) == []
  {
  }

  lemma WordEnds(init: seq<seq<Char>>, w: seq<Char>)
    ensures Printed(init + [w]) == Printed(init) + if Accepted(w) then [BeforeNul(VowelFreeTail(init) + w)] else []
    ensures VowelFreeTail(init + [w]) == if Vowels(w) == [] then VowelFreeTail(init) + w else []
    ensures (init + [w] + [[]])[..|init| + 1] == init + [w]
    ensures StateFor(Vowels(w)) == StateU <==> Accepted(w)
    ensures StateFor(Vowels(w)) == StateNone <==> Vowels(w) == []
  {
    var ws := init + [w];
    assert ws[..|ws| - 1] == init && ws[|ws| - 1] == w;
  }

  // The main loop of ex05.c prints exactly the lines the specification asks for.
  method RunEx05(input: seq<Byte>) returns (lines: seq<seq<Char>>)
    ensures lines == Printed(Words(Text(input)))
  {
    hide Words, Printed, VowelFreeTail, Vowels, ClassifyChar, Strict, InStep, BeforeNul;
    var system := new System();
    ghost var text := Text(input);
    var pos := 0;
    NothingRead();
    while system.currentState != StateDone
      invariant system.Valid() && fresh(system) && fresh(system.word)
      invariant pos <= |text| || system.currentState == StateDone
      invariant system.currentState != StateDone ==>
                  InStep(text[..pos], system.currentState, system.Accumulated(), system.output)
      invariant system.currentState == StateDone ==> system.output == Printed(Words(text))
      decreases if system.currentState == StateDone then 0 else |text| + 1 - pos
    {
      system.nextChar := CharAt(input, pos);
      var t := Strict(system.currentState, ClassifyChar(system.nextChar));
      if pos < |text| {
        StayInStep(text[..pos], text[pos], system.Accumulated(), system.output, system.currentState);
        assert text[..pos] + [text[pos]] == text[..pos + 1];
      } else {
        assert text[..pos] == text;
        AtEnd(text, system.currentState, system.Accumulated(), system.output);
      }
      system.Perform(t.action);
      system.currentState := t.next;
      pos := pos + 1;
    }
    lines := system.output;
  }

  lemma NothingRead()
    ensures InStep([], StateNone, [], [])
  {
  }

  lemma AtEnd(text: seq<Char>, state: State, accumulated: seq<Char>, output: seq<seq<Char>>)
    requires state != StateDone && InStep(text, state, accumulated, output)
    ensures var t := Strict(state, ClassifyChar(EOF));
            && t.next == StateDone
            && Printed(Words(text)) == output + if t.action == Action.PrintWord then [BeforeNul(accumulated)] else []
  {
    hide Words, Printed, VowelFreeTail, Vowels, Accepted, BeforeNul;
    var ws := Words(text);
    var init, w := ws[..|ws| - 1], ws[|ws| - 1];
    assert ws == init + [w];
    WordEnds(init, w);
  }

  // --- state-machine.c ---

  // The table of state-machine.c: what a state does not expect leaves it alone.
  function Lenient(s: State, k: CharClass): Transition
    requires s != StateDone && s != StateGarbage
  {
    match k
    case CharEOF => Transition(StateDone, if s == StateU then PrintWord else NoAction)
    case CharWs =>
      Transition(StateNone, if s == StateNone then NoAction else if s == StateU then PrintWord else ResetWord)
    case CharNonWs => Transition(s, AddChar)
    case CharA => Transition(if s == StateNone then StateA else s, AddChar)
    case CharE => Transition(if s == StateA then StateE else s, AddChar)
    case CharI => Transition(if s == StateE then StateI else s, AddChar)
    case CharO => Transition(if s == StateI then StateO else s, AddChar)
    case CharU => Transition(if s == StateO then StateU else s, AddChar)
  }

  function StateAfter(n: nat): State
    requires n <= 5
  {
    [StateNone, StateA, StateE, StateI, StateO, StateU][n]
  }

  lemma LastWordOfLonger(text: seq<Char>, c: Char)
    ensures LastWord(text + [c]) == if IsSpace(c) then [] else LastWord(text) + [c]
  {
    WordsOfLonger(text, c);
  }

  lemma ProgressOfLonger(w: seq<Char>, c: Char)
    ensures Progress(w + [c]) == if Progress(w) < 5 && c == AEIOU[Progress(w)] then Progress(w) + 1 else Progress(w)
  {
    assert (w + [c])[..|w|] == w;
  }

  lemma LowerCaseOfLonger(w: seq<Char>, c: Char)
    ensures LowerCase(w + [c]) == LowerCase(w) + [ToLower(c)]
  {
  }

  lemma FullProgress(w: seq<Char>)
    ensures HasAEIOU(w) <==> Progress(w) == 5
  {
    assert AEIOU[..5] == AEIOU;
    ProgressIsSubsequence(w, 5);
  }

  lemma LenientFollowsProgress(w: seq<Char>, c: Char)
    requires !IsSpace(c) && c != EOF
    ensures Lenient(StateAfter(Progress(LowerCase(w))), ClassifyChar(c)) ==
            Transition(StateAfter(Progress(LowerCase(w + [c]))), AddChar)
  {
    LowerCaseOfLonger(w, c);
    ProgressOfLonger(LowerCase(w), ToLower(c));
  }

  lemma EndsOfLonger(text: seq<Char>, accepts: seq<Char> -> bool, n: nat)
    requires n < |text|
    ensures EndsBefore(text, accepts, n + 1) ==
            EndsBefore(text, accepts, n) + if IsSpace(text[n]) && accepts(LastWord(text[..n])) then [n] else []
  {
  }

  lemma TailOneMore(gathered: seq<Char>, c: Char)
    ensures Tail(gathered + [c]) == if |Tail(gathered)| == MAX_WORD_SIZE - 1 then [] else Tail(gathered) + [c]
  {
  }

  // The buffer of the two programs, in which characters go round and round.
  const MAX_WORD_SIZE := 100

  class WrapBuffer {
    const word: array<Char>
    var wordIndex: nat
    ghost var Gathered: seq<Char>    // all characters since the last reset

    ghost predicate Valid()
      reads this, word
    {
      && word.Length == MAX_WORD_SIZE
      && wordIndex == |Tail(Gathered)| < MAX_WORD_SIZE
      && word[..wordIndex] == Tail(Gathered)
    }

    constructor ()
      ensures Valid() && fresh(word) && Gathered == []
    {
      word := new Char[MAX_WORD_SIZE](_ => NUL);
      wordIndex := 0;
      Gathered := [];
    }

    method AddChar(c: Char)
      requires Valid()
      modifies this`wordIndex, this`Gathered, word
      ensures Valid() && Gathered == old(Gathered) + [c]
      ensures word[old(wordIndex)] == c && word[..old(wordIndex)] == old(word[..wordIndex])
    {
      TailOneMore(Gathered, c);
      hide Tail;
      word[wordIndex] := c;
      wordIndex := (wordIndex + 1) % MAX_WORD_SIZE;
      Gathered := Gathered + [c];
    }

    method ResetWord()
      requires Valid()
      modifies this`wordIndex, this`Gathered
      ensures Valid() && Gathered == []
    {
      wordIndex := 0;
      Gathered := [];
    }

    // printf("%s\n", word), with a terminator at place n.
    method Print(ghost n: nat) returns (line: seq<Char>)
      requires n < word.Length && word[n] == NUL
      ensures line == BeforeNul(word[..n])
    {
      line := [];
      var i := 0;
      while word[i] != NUL
        invariant 0 <= i <= n && line == word[..i] && NUL !in line
        decreases n - i
      {
        line := line + [word[i]];
        i := i + 1;
      }
      UpToNul(word[..n], i);
    }

    // Puts a terminator behind the word, prints it, and starts again.
    method PrintWord() returns (line: seq<Char>)
      requires Valid()
      modifies this`wordIndex, this`Gathered, word
      ensures Valid() && Gathered == [] && line == Shown(old(Gathered))
    {
      word[wordIndex] := NUL;
      assert word[..wordIndex] == Tail(Gathered);
      line := Print(wordIndex);
      wordIndex := 0;
      Gathered := [];
    }

    // One action of state-machine.c; shown is the line it prints, if it does.
    method Perform(action: Action, c: Char) returns (shown: seq<seq<Char>>)
      requires Valid()
      modifies this`wordIndex, this`Gathered, word
      ensures Valid()
      ensures Gathered == match action
                          case NoAction => old(Gathered)
                          case AddChar => old(Gathered) + [c]
                          case _ => []
      ensures shown == if action == Action.PrintWord then [Shown(old(Gathered))] else []
    {
      shown := [];
      match action
      case NoAction =>
      case AddChar => AddChar(c);
      case ResetWord => ResetWord();
      case PrintWord =>
        var line := PrintWord();
        shown := [line];
    }

    // Prints after addChar('\0'), which leaves the terminator in the buffer.
    method PrintWithTerminator() returns (line: seq<Char>)
      requires Valid()
      modifies this`wordIndex, this`Gathered, word
      ensures Valid() && line == Shown(old(Gathered))
    {
      ghost var n := wordIndex;
      AddChar(NUL);
      line := Print(n);
    }
  }

  lemma UpToNul(s: seq<Char>, n: nat)
    requires n <= |s| && NUL !in s[..n] && (n < |s| ==> s[n] == NUL)
    ensures BeforeNul(s) == s[..n]
  {
  }

  lemma GatheredOneMore(text: seq<Char>, n: nat)
    requires n < |text|
    ensures GatheredAt(text, n + 1) ==
            if !IsSpace(text[n]) then GatheredAt(text, n) + [text[n]]
            else if Progress(LowerCase(LastWord(text[..n]))) == 0 then GatheredAt(text, n)
            else []
  {
    hide Words, Progress, IsSpace;
    var c := text[n];
    WordsOfLonger(text[..n], c);
    assert text[..n] + [c] == text[..n + 1];
    assert UpTo(text, n) == text[..n] && UpTo(text, n + 1) == text[..n + 1];
    var ws := Words(text[..n]);
    var init, w := ws[..|ws| - 1], ws[|ws| - 1];
    assert ws == init + [w];
    if IsSpace(c) {
      assert (ws + [[]])[..|ws|] == ws;
    } else {
      assert (init + [w + [c]])[..|init|] == init;
    }
  }

  // The main loop of state-machine.c.  prints are the places of the stream at
  // which it prints a line, and lines is what it prints there.
  method RunStateMachine(input: seq<Byte>) returns (prints: seq<nat>, lines: seq<seq<Char>>)
    ensures prints == Ends(Text(input), HasAEIOUInAnyCase)
    ensures lines == GatheredLines(Text(input), prints)
  {
    hide Words, LastWord, Progress, IsSubsequence, ClassifyChar, Lenient, EndsBefore, GatheredAt, Shown, GatheredLines;
    hide WrapBuffer.Valid, StateAfter, LowerCase;
    ghost var text := Text(input);
    var buffer := new WrapBuffer();
    var state := StateNone;
    var pos := 0;
    prints, lines := [], [];
    LenientStarts(text);
    NoLines(text);
    while state != StateDone
      invariant state != StateGarbage && buffer.Valid() && fresh(buffer) && fresh(buffer.word)
      invariant pos <= |text| || state == StateDone
      invariant state != StateDone ==> state == StateAfter(Progress(LowerCase(LastWord(text[..pos]))))
      invariant state != StateDone ==> buffer.Gathered == GatheredAt(text, pos)
      invariant state != StateDone ==> prints == EndsBefore(text, HasAEIOUInAnyCase, pos)
      invariant state == StateDone ==> prints == Ends(text, HasAEIOUInAnyCase)
      invariant lines == GatheredLines(text, prints)
      decreases if state == StateDone then 0 else |text| + 1 - pos
    {
      var c := CharAt(input, pos);
      var t := Lenient(state, ClassifyChar(c));
      LenientStep(text, pos);
      assert pos == |text| ==> text[..pos] == text;
      var shown := buffer.Perform(t.action, c);
      lines := lines + shown;
      if t.action == Action.PrintWord {
        GatheredLinesOneMore(text, prints, pos);
        prints := prints + [pos];
      }
      state := t.next;
      pos := pos + 1;
    }
  }

  lemma NoLines(text: seq<Char>)
    ensures GatheredLines(text, []) == [] && WordLines(text, []) == []
  {
  }

  lemma GatheredLinesOneMore(text: seq<Char>, places: seq<nat>, p: nat)
    ensures GatheredLines(text, places + [p]) == GatheredLines(text, places) + [Shown(GatheredAt(text, p))]
  {
    hide Shown, GatheredAt;
  }

  lemma WordLinesOneMore(text: seq<Char>, places: seq<nat>, p: nat)
    requires p <= |text|
    ensures WordLines(text, places + [p]) == WordLines(text, places) + [Shown(LastWord(text[..p]))]
  {
    hide Shown, LastWord;
  }

  lemma LenientStarts(text: seq<Char>)
    ensures StateAfter(Progress(LowerCase(LastWord(text[..0])))) == StateNone
    ensures EndsBefore(text, HasAEIOUInAnyCase, 0) == [] && GatheredAt(text, 0) == []
  {
    assert text[..0] == [] && LowerCase([]) == [];
  }

  // At a separator or at the end, the table looks at nothing but whether all of
  // "aeiou" has been found.
  lemma LenientBreak(n: nat, c: Char)
    requires n <= 5 && (c == EOF || IsSpace(c))
    ensures var t := Lenient(StateAfter(n), ClassifyChar(c));
            && t.next == (if c == EOF then StateDone else StateNone)
            && (t.action == Action.PrintWord <==> n == 5)
            && (t.action == NoAction <==> n == 0 || (c == EOF && n < 5)) && t.action != AddChar
  {
  }

  lemma NothingInEmptyWord()
    ensures StateAfter(Progress(LowerCase([]))) == StateNone
  {
    assert LowerCase([]) == [];
  }

  lemma LenientStep(text: seq<Char>, pos: nat)
    requires pos <= |text| && forall i | 0 <= i < |text| :: text[i] != EOF
    ensures var w := LastWord(text[..pos]);
            var c := if pos < |text| then text[pos] else EOF;
            var t := Lenient(StateAfter(Progress(LowerCase(w))), ClassifyChar(c));
            && t.next != StateGarbage
            && (t.next == StateDone <==> pos == |text|)
            && (t.action == Action.PrintWord <==> HasAEIOUInAnyCase(w) && (pos == |text| || IsSpace(text[pos])))
            && (pos < |text| ==>
                  && t.next == StateAfter(Progress(LowerCase(LastWord(text[..pos + 1]))))
                  && GatheredAt(text, pos + 1) == (match t.action
                                                   case NoAction => GatheredAt(text, pos)
                                                   case AddChar => GatheredAt(text, pos) + [c]
                                                   case _ => [])
                  && EndsBefore(text, HasAEIOUInAnyCase, pos + 1) ==
                     EndsBefore(text, HasAEIOUInAnyCase, pos) + if t.action == Action.PrintWord then [pos] else [])
  {
    hide Words, LastWord, IsSubsequence, Progress, Lenient, ClassifyChar, EndsBefore, IsSpace, GatheredAt;
    var w := LastWord(text[..pos]);
    FullProgress(LowerCase(w));
    if pos == |text| {
      LenientBreak(Progress(LowerCase(w)), EOF);
    } else {
      var c := text[pos];
      EndsOfLonger(text, HasAEIOUInAnyCase, pos);
      GatheredOneMore(text, pos);
      LastWordOfLonger(text[..pos], c);
      assert text[..pos] + [c] == text[..pos + 1];
      if IsSpace(c) {
        LenientBreak(Progress(LowerCase(w)), c);
        NothingInEmptyWord();
      } else {
        LenientFollowsProgress(w, c);
      }
    }
  }

  // --- undisciplined.c ---

  // next_char stands on a separator or on the end of the stream.
  ghost predicate AtBreak(text: seq<Char>, pos: nat)
    requires pos <= |text|
  {
    pos == |text| || IsSpace(text[pos])
  }

  // The words that have ended up to and including pos.
  ghost function EndsThrough(text: seq<Char>, pos: nat): seq<nat>
    requires pos <= |text|
  {
    EndsBefore(text, HasAEIOU, pos) + if AtBreak(text, pos) && HasAEIOU(LastWord(text[..pos])) then [pos] else []
  }

  // The letters of "aeiou" that the current word has shown before pos.
  ghost function Seen(text: seq<Char>, pos: nat): nat
    requires pos <= |text|
  {
    Progress(LastWord(text[..pos]))
  }

  lemma ReadOn(text: seq<Char>, pos: nat)
    requires pos < |text|
    ensures IsSpace(text[pos]) ==> Seen(text, pos + 1) == 0
    ensures LastWord(text[..pos + 1]) == if IsSpace(text[pos]) then [] else LastWord(text[..pos]) + [text[pos]]
    ensures !IsSpace(text[pos]) ==>
              var n := Seen(text, pos); Seen(text, pos + 1) == n + if n < 5 && text[pos] == AEIOU[n] then 1 else 0
    ensures EndsBefore(text, HasAEIOU, pos + 1) ==
            EndsBefore(text, HasAEIOU, pos) + if IsSpace(text[pos]) && Seen(text, pos) == 5 then [pos] else []
    ensures HasAEIOU(LastWord(text[..pos])) <==> Seen(text, pos) == 5
  {
    hide Words, LastWord, IsSubsequence;
    assert text[..pos] + [text[pos]] == text[..pos + 1];
    LastWordOfLonger(text[..pos], text[pos]);
    ProgressOfLonger(LastWord(text[..pos]), text[pos]);
    FullProgress(LastWord(text[..pos]));
    EndsOfLonger(text, HasAEIOU, pos);
  }

  // while (isspace(next_char)) next_char = getchar();
  method SkipSpaces(input: seq<Byte>, pos0: nat, ghost text: seq<Char>) returns (pos: nat)
    requires text == Text(input) && pos0 <= |text|
    requires AtBreak(text, pos0) || LastWord(text[..pos0]) == []
    ensures pos0 <= pos <= |text| && (pos == |text| || !IsSpace(text[pos]))
    ensures EndsThrough(text, pos) == EndsThrough(text, pos0)
    ensures pos0 < |text| ==> LastWord(text[..pos]) == [] && Seen(text, pos) == 0
  {
    hide LastWord, IsSubsequence, EndsBefore, HasAEIOU;
    pos := pos0;
    while IsSpace(CharAt(input, pos))
      invariant pos0 <= pos <= |text|
      invariant EndsThrough(text, pos) == EndsThrough(text, pos0)
      invariant pos > pos0 || !AtBreak(text, pos) ==> LastWord(text[..pos]) == []
      decreases |text| - pos
    {
      ReadOn(text, pos);
      NotYet(text, pos + 1);
      pos := pos + 1;
    }
  }

  lemma NotYet(text: seq<Char>, pos: nat)
    requires pos <= |text|
    ensures HasAEIOU(LastWord(text[..pos])) <==> Seen(text, pos) == 5
  {
    hide LastWord, IsSubsequence;
    FullProgress(LastWord(text[..pos]));
  }

  // The k-th of the five loops: reads on until the letter k of "aeiou", a
  // separator or the end.  On entry next_char is the letter the loop before it
  // stopped at, if none of the loops has met a separator.
  method ReadUntilLetter(buffer: WrapBuffer, input: seq<Byte>, pos0: nat, k: nat, ghost text: seq<Char>)
    returns (pos: nat)
    requires text == Text(input) && pos0 <= |text| && k < 5
    requires buffer.Valid() && buffer.Gathered == LastWord(text[..pos0])
    modifies buffer, buffer.word
    ensures buffer.Valid() && pos <= |text| && buffer.Gathered == LastWord(text[..pos])
    requires AtBreak(text, pos0) ==> Seen(text, pos0) < 5
    requires !AtBreak(text, pos0) ==>
               if k == 0 then Seen(text, pos0) == 0 else Seen(text, pos0) == k - 1 && text[pos0] == AEIOU[k - 1]
    ensures pos0 <= pos <= |text| && (AtBreak(text, pos0) ==> pos == pos0)
    ensures EndsThrough(text, pos) == EndsThrough(text, pos0)
    ensures AtBreak(text, pos) ==> Seen(text, pos) < 5
    ensures !AtBreak(text, pos) ==> Seen(text, pos) == k && text[pos] == AEIOU[k]
    ensures !AtBreak(text, pos0) && k > 0 ==> pos > pos0
    ensures AtBreak(text, pos) || IsVowel(text[pos])
  {
    hide LastWord, Progress, IsSubsequence, EndsBefore, HasAEIOU, Seen, WrapBuffer.Valid;
    NotYet(text, pos0);
    pos := pos0;
    while !IsSpace(CharAt(input, pos)) && CharAt(input, pos) != AEIOU[k] && CharAt(input, pos) != EOF
      invariant pos0 <= pos <= |text| && (AtBreak(text, pos0) ==> pos == pos0)
      invariant buffer.Valid() && buffer.Gathered == LastWord(text[..pos])
      invariant Seen(text, pos) < 5 && EndsThrough(text, pos) == EndsThrough(text, pos0)
      invariant !AtBreak(text, pos0) ==>
                  || Seen(text, pos) == k
                  || (pos == pos0 && k > 0 && Seen(text, pos) == k - 1 && text[pos] == AEIOU[k - 1])
      decreases |text| - pos
    {
      ReadOn(text, pos);
      NotYet(text, pos + 1);
      buffer.AddChar(CharAt(input, pos));
      pos := pos + 1;
    }
  }

  // while (!isspace(next_char) && next_char != EOF): the rest of a found word.
  method ReadRest(buffer: WrapBuffer, input: seq<Byte>, pos0: nat, ghost text: seq<Char>) returns (pos: nat)
    requires text == Text(input) && pos0 < |text| && !IsSpace(text[pos0]) && Seen(text, pos0) == 4 && text[pos0] == U
    requires buffer.Valid() && buffer.Gathered == LastWord(text[..pos0])
    modifies buffer, buffer.word
    ensures pos0 < pos <= |text| && AtBreak(text, pos) && Seen(text, pos) == 5
    ensures buffer.Valid() && buffer.Gathered == LastWord(text[..pos])
    ensures EndsBefore(text, HasAEIOU, pos) == EndsBefore(text, HasAEIOU, pos0)
  {
    hide LastWord, Progress, IsSubsequence, EndsBefore, HasAEIOU, Seen, WrapBuffer.Valid;
    pos := pos0;
    while !IsSpace(CharAt(input, pos)) && CharAt(input, pos) != EOF
      invariant pos0 <= pos <= |text|
      invariant buffer.Valid() && buffer.Gathered == LastWord(text[..pos])
      invariant if pos == pos0 then Seen(text, pos) == 4 else Seen(text, pos) == 5
      invariant EndsBefore(text, HasAEIOU, pos) == EndsBefore(text, HasAEIOU, pos0)
      decreases |text| - pos
    {
      ReadOn(text, pos);
      buffer.AddChar(CharAt(input, pos));
      pos := pos + 1;
    }
  }

  // undisciplined.c.  prints are the places of the stream at which it prints a
  // line, and lines is what it prints there.
  method RunUndisciplined(input: seq<Byte>) returns (prints: seq<nat>, lines: seq<seq<Char>>)
    ensures prints == Ends(Text(input), HasAEIOU)
    ensures lines == WordLines(Text(input), prints)
  {
    hide LastWord, Progress, IsSubsequence, EndsBefore, HasAEIOU, Seen, Shown, WordLines, WrapBuffer.Valid;
    ghost var text := Text(input);
    var buffer := new WrapBuffer();
    var pos := 0;
    prints, lines := [], [];
    UndisciplinedStarts(text);
    NoLines(text);
    while CharAt(input, pos) != EOF
      invariant buffer.Valid() && fresh(buffer) && fresh(buffer.word)
      invariant pos <= |text| && prints == EndsThrough(text, pos) && lines == WordLines(text, prints)
      invariant AtBreak(text, pos) || LastWord(text[..pos]) == []
      decreases |text| - pos
    {
      buffer.ResetWord();
      pos := SkipSpaces(input, pos, text);
      pos := ReadUntilLetter(buffer, input, pos, 0, text);
      pos := ReadUntilLetter(buffer, input, pos, 1, text);
      pos := ReadUntilLetter(buffer, input, pos, 2, text);
      pos := ReadUntilLetter(buffer, input, pos, 3, text);
      pos := ReadUntilLetter(buffer, input, pos, 4, text);
      if CharAt(input, pos) == U {
        pos := ReadRest(buffer, input, pos, text);
        NotYet(text, pos);
        WordLinesOneMore(text, prints, pos);
        var line := buffer.PrintWithTerminator();
        prints, lines := prints + [pos], lines + [line];
      }
    }
    assert text[..pos] == text;
  }

  lemma UndisciplinedStarts(text: seq<Char>)
    ensures EndsThrough(text, 0) == [] && LastWord(text[..0]) == []
  {
    assert text[..0] == [];
  }
}
