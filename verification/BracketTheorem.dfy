// Closing and opening brackets found by bin/cpplint.py are the two ends of one
// balanced group, so the forward and the backward matcher undo each other
// whenever the walk does not start at an angle bracket.
module BracketTheorem {
  import opened Wrappers
  import opened BracketSpec
  import opened BracketMatching

  // A column of a line, and the order of such positions in the file.
  ghost predicate Precedes<T>(lines: seq<seq<T>>, l: nat, i: nat, l2: nat, e: nat) {
    && l <= l2 < |lines| && i <= |lines[l]| && e <= |lines[l2]|
    && (l == l2 ==> i <= e)
  }

  // The text from line l, column i up to line l2, column e.
  function Span<T>(lines: seq<seq<T>>, l: nat, i: nat, l2: nat, e: nat): seq<T>
    requires Precedes(lines, l, i, l2, e)
    decreases l2 - l
  {
    if l == l2 then lines[l][i..e] else lines[l][i..] + Span(lines, l + 1, 0, l2, e)
  }

  lemma {:induction false} SpanFirst<T>(lines: seq<seq<T>>, l: nat, i: nat, l2: nat, e: nat)
    requires Precedes(lines, l, i, l2, e)
    ensures i < |lines[l]| && (l < l2 || i < e) ==>
              Span(lines, l, i, l2, e) == [lines[l][i]] + Span(lines, l, i + 1, l2, e)
    ensures i == |lines[l]| && l < l2 ==> Span(lines, l, i, l2, e) == Span(lines, l + 1, 0, l2, e)
    ensures e > 0 && (l < l2 || i < e) ==> Span(lines, l, i, l2, e) != []
    decreases l2 - l
  {
    if l < l2 {
      SpanFirst(lines, l + 1, 0, l2, e);
    }
  }

  lemma {:induction false} SpanLast<T>(lines: seq<seq<T>>, l: nat, i: nat, l2: nat, e: nat)
    requires Precedes(lines, l, i, l2, e)
    ensures e > 0 && (l < l2 || i < e) ==>
              Span(lines, l, i, l2, e) == Span(lines, l, i, l2, e - 1) + [lines[l2][e - 1]]
    ensures e == 0 && l < l2 ==> Span(lines, l, i, l2, e) == Span(lines, l, i, l2 - 1, |lines[l2 - 1]|)
    ensures i < |lines[l]| && (l < l2 || i < e) ==> Span(lines, l, i, l2, e) != []
  {
    if e > 0 && (l < l2 || i < e) {
      SpanLastColumn(lines, l, i, l2, e);
    }
    if e == 0 && l < l2 {
      SpanLastLine(lines, l, i, l2);
    }
  }

  lemma {:induction false} SpanLastColumn<T>(lines: seq<seq<T>>, l: nat, i: nat, l2: nat, e: nat)
    requires Precedes(lines, l, i, l2, e) && e > 0 && (l < l2 || i < e)
    ensures Span(lines, l, i, l2, e) == Span(lines, l, i, l2, e - 1) + [lines[l2][e - 1]]
    decreases l2 - l
  {
    if l == l2 {
      assert lines[l][i..e] == lines[l][i..e - 1] + [lines[l][e - 1]];
    } else {
      SpanLastColumn(lines, l + 1, 0, l2, e);
    }
  }

  lemma {:induction false} SpanLastLine<T>(lines: seq<seq<T>>, l: nat, i: nat, l2: nat)
    requires Precedes(lines, l, i, l2, 0) && l < l2
    ensures Span(lines, l, i, l2, 0) == Span(lines, l, i, l2 - 1, |lines[l2 - 1]|)
    decreases l2 - l
  {
    if l == l2 - 1 {
      assert Span(lines, l2, 0, l2, 0) == [];
    } else {
      SpanLastLine(lines, l + 1, 0, l2);
    }
  }

  lemma SpanEmptyIff<T>(lines: seq<seq<T>>, l: nat, i: nat, l2: nat, e: nat)
    requires Precedes(lines, l, i, l2, e) && 0 < e
    ensures Span(lines, l, i, l2, e) == [] <==> l == l2 && i == e
  {
    SpanFirst(lines, l, i, l2, e);
  }

  lemma SpanNothing<T>(lines: seq<seq<T>>, l: nat, i: nat, l2: nat, e: nat)
    requires Precedes(lines, l, i, l2, e) && i < |lines[l]|
    ensures Span(lines, l, i, l2, e) == [] <==> l == l2 && i == e
  {
    SpanLast(lines, l, i, l2, e);
  }

  // --- What is pending besides angle brackets. ---

  // The stack without its angle brackets.
  function Flat(stack: seq<char>, angle: char): (r: seq<char>)
    decreases |stack|
  {
    if stack == [] then []
    else Flat(Pop(stack), angle) + if stack[|stack| - 1] == angle then [] else [stack[|stack| - 1]]
  }

  // A stack that a round, square or curly bracket has opened.
  predicate Grounded(stack: seq<char>, angle: char) {
    stack != [] && stack[0] != angle
  }

  lemma {:induction false} GroundedIsOpen(stack: seq<char>, angle: char)
    requires Grounded(stack, angle)
    ensures Flat(stack, angle) != []
    decreases |stack|
  {
    if |stack| > 1 {
      GroundedIsOpen(Pop(stack), angle);
    }
  }

  // Dropping the angle brackets on top brings the flat top to the top.
  lemma {:induction false} FlatDropAll(stack: seq<char>, angle: char)
    requires Grounded(stack, angle)
    ensures var rest := DropAll(stack, angle);
            && Grounded(rest, angle) && rest[|rest| - 1] != angle && Flat(rest, angle) == Flat(stack, angle)
    decreases |stack|
  {
    if stack[|stack| - 1] == angle {
      FlatDropAll(Pop(stack), angle);
    }
  }

  lemma FlatPush(stack: seq<char>, angle: char, c: char)
    ensures Flat(stack + [c], angle) == Flat(stack, angle) + if c == angle then [] else [c]
  {
    assert Pop(stack + [c]) == stack;
  }

  lemma FlatTop(stack: seq<char>, angle: char)
    requires Grounded(stack, angle) && stack[|stack| - 1] != angle
    ensures var f := Flat(stack, angle);
            && f != [] && f[|f| - 1] == stack[|stack| - 1] && f[..|f| - 1] == Flat(Pop(stack), angle)
            && (|f| == 1 <==> |stack| == 1)
  {
    if |stack| > 1 {
      GroundedIsOpen(Pop(stack), angle);
    }
  }

  // A scan stops at a place exactly if the flat machine stops at the end of the
  // text that leads there.
  ghost predicate StopsAsRun(r: Option<(nat, nat)>, place: (nat, nat), stack: seq<char>, s: string) {
    r == Some(place) <==> Run(stack, s) == Found(|s|)
  }

  lemma RunStep(stack: seq<char>, c: char, s: string)
    ensures Run(stack, [c] + s) == Found(1 + |s|) <==>
            match FlatStep(stack, c)
            case Done => s == []
            case Fail => false
            case Go(rest) => Run(rest, s) == Found(|s|)
  {
    assert ([c] + s)[1..] == s;
  }

  lemma RunNothing(stack: seq<char>)
    ensures Run(stack, []) == Open(stack)
  {
  }

  // --- Forwards. ---

  lemma FlatStepForward(line: string, i: nat, stack: seq<char>)
    requires i < |line| && Grounded(stack, '<')
    ensures match FlatStep(Flat(stack, '<'), line[i])
            case Done => StepForward(line, i, stack) == Done
            case Fail => StepForward(line, i, stack) == Fail
            case Go(rest) => var f := StepForward(line, i, stack);
              f.Go? && Grounded(f.stack, '<') && Flat(f.stack, '<') == rest
  {
    hide Flat, EndsInOperator;
    var c, rest := line[i], DropAll(stack, '<');
    GroundedIsOpen(stack, '<');
    FlatDropAll(stack, '<');
    FlatTop(rest, '<');
    FlatPush(stack, '<', c);
    if stack[|stack| - 1] == '<' {
      FlatPush(Pop(stack), '<', '<');
      assert Pop(stack) + ['<'] == stack;
    }
    hide DropAll;
  }

  lemma NotBehindItself(lines: seq<string>, l: nat, i: nat, stack: seq<char>)
    requires l < |lines|
    ensures EndFrom(lines, l, i, stack) != Some((l, i))
  {
    hide EndFrom;
    if EndFrom(lines, l, i, stack).Some? {
      EndFromAdvances(lines, l, i, stack);
    }
  }

  lemma {:induction false} LinkForward(lines: seq<string>, l: nat, i: nat, stack: seq<char>, l2: nat, e: nat)
    requires Precedes(lines, l, i, l2, e) && 0 < e && Grounded(stack, '<')
    ensures StopsAsRun(EndFrom(lines, l, i, stack), (l2, e), Flat(stack, '<'), Span(lines, l, i, l2, e))
    decreases l2 - l, |lines[l]| - i
  {
    hide StepForward, FlatStep, Span, Run, Flat;
    SpanFirst(lines, l, i, l2, e);
    SpanEmptyIff(lines, l, i, l2, e);
    if l == l2 && i == e {
      NotBehindItself(lines, l, i, stack);
      RunNothing(Flat(stack, '<'));
    } else if i == |lines[l]| {
      LinkForward(lines, l + 1, 0, stack, l2, e);
    } else {
      var t, c := Span(lines, l, i + 1, l2, e), lines[l][i];
      FlatStepForward(lines[l], i, stack);
      RunStep(Flat(stack, '<'), c, t);
      SpanEmptyIff(lines, l, i + 1, l2, e);
      if StepForward(lines[l], i, stack).Go? {
        LinkForward(lines, l, i + 1, StepForward(lines[l], i, stack).stack, l2, e);
      }
    }
  }

  // A scan that goes on ends strictly later, at a column of the file.
  lemma {:induction false} EndFromAdvances(lines: seq<string>, l: nat, i: nat, stack: seq<char>)
    requires l < |lines| && EndFrom(lines, l, i, stack).Some?
    ensures var (l2, e) := EndFrom(lines, l, i, stack).value;
            l <= l2 < |lines| && 0 < e <= |lines[l2]| && (l == l2 ==> i < e)
    decreases |lines| - l, |lines[l]| - i
  {
    hide StepForward;
    if i >= |lines[l]| {
      EndFromAdvances(lines, l + 1, 0, stack);
    } else {
      match StepForward(lines[l], i, stack)
      case Done =>
      case Go(rest) => EndFromAdvances(lines, l, i + 1, rest);
    }
  }

  // From anything but an angle bracket, CloseExpression stops just past line l2,
  // column e - 1 exactly when the text up to there is one balanced group.
  lemma ClosingIffGroup(lines: seq<string>, l: nat, p: nat, l2: nat, e: nat)
    requires Precedes(lines, l, p, l2, e) && p < |lines[l]| && 0 < e && (l < l2 || p < e)
    requires lines[l][p] != '<'
    ensures Closing(lines, l, p) == Some((l2, e)) <==> IsGroup(Span(lines, l, p, l2, e))
  {
    hide Balanced, EndFrom, FlatStep, Run;
    var c, s, t := lines[l][p], Span(lines, l, p, l2, e), Span(lines, l, p + 1, l2, e);
    SpanFirst(lines, l, p, l2, e);
    assert s == [c] + t;
    if IsOpener(c) {
      RunFindsGroups(s);
      RunStep([], c, t);
      FirstPush(c);
      assert StepForward(lines[l], p, []) == Go([] + [c]);
      EndFromGoes(lines, l, p, [], [c]);
      LinkForward(lines, l, p + 1, [c], l2, e);
    }
  }

  lemma FirstPush(c: char)
    requires IsOpener(c)
    ensures FlatStep([], c) == Go([c]) && [] + [c] == [c]
    ensures Flat([c], '<') == [c] && Grounded([c], '<')
  {
    assert Flat([], '<') == [] && Pop([c]) == [];
  }

  lemma EndFromGoes(lines: seq<string>, l: nat, i: nat, stack: seq<char>, rest: seq<char>)
    requires l < |lines| && i < |lines[l]| && StepForward(lines[l], i, stack) == Go(rest)
    ensures EndFrom(lines, l, i, stack) == EndFrom(lines, l, i + 1, rest)
  {
  }

  // --- Backwards: the same machine on the mirror image. ---

  function Partners(stack: seq<char>): (r: seq<char>)
    ensures |r| == |stack| && forall i | 0 <= i < |stack| :: r[i] == Partner(stack[i])
  {
    seq(|stack|, i requires 0 <= i < |stack| => Partner(stack[i]))
  }

  // The pending brackets that the mirror image has opened.
  function FlatMirror(stack: seq<char>): seq<char> {
    Partners(Flat(stack, '>'))
  }

  lemma MirrorStep(s: string, c: char)
    ensures Mirror(s + [c]) == [Partner(c)] + Mirror(s)
  {
  }

  lemma InertStep(stack: seq<char>, c: char)
    requires Inert(c)
    ensures FlatStep(stack, Partner(c)) == Go(stack)
  {
  }

  // The backward step mirrors the flat machine; what it steps over in addition
  // would not move that machine.
  ghost predicate StepsMirror(line: string, i: nat, stack: seq<char>)
    requires i < |line|
  {
    match FlatStep(FlatMirror(stack), Partner(line[i]))
    case Done => StepBackward(line, i, stack) == BackDone
    case Fail => StepBackward(line, i, stack) == BackFail
    case Go(rest) =>
      var b := StepBackward(line, i, stack);
      && b.BackGo? && b.extra <= 1 && Grounded(b.stack, '>') && FlatMirror(b.stack) == rest
      && (b.extra == 1 ==> 0 < i && Inert(line[i]) && Inert(line[i - 1]) && b.stack == stack)
  }

  lemma FlatStepBackward(line: string, i: nat, stack: seq<char>)
    requires i < |line| && Grounded(stack, '>')
    ensures StepsMirror(line, i, stack)
  {
    hide StepsMirror, StripRight;
    if IsCloser(line[i]) {
      CloserSteps(line, i, stack);
    } else if IsOpener(line[i]) {
      OpenerSteps(line, i, stack);
    } else {
      OtherSteps(line, i, stack);
    }
  }

  lemma CloserSteps(line: string, i: nat, stack: seq<char>)
    requires i < |line| && Grounded(stack, '>') && IsCloser(line[i])
    ensures StepsMirror(line, i, stack)
  {
    hide Flat, DropAll, EndsInOperator, IsSpacedGreaterEqual;
    FlatPush(stack, '>', line[i]);
    assert FlatMirror(stack + [line[i]]) == FlatMirror(stack) + [Partner(line[i])];
  }

  lemma OpenerSteps(line: string, i: nat, stack: seq<char>)
    requires i < |line| && Grounded(stack, '>') && IsOpener(line[i])
    ensures StepsMirror(line, i, stack)
  {
    hide Flat, DropAll, EndsInOperator, IsSpacedGreaterEqual;
    var rest := DropAll(stack, '>');
    FlatDropAll(stack, '>');
    FlatTop(rest, '>');
    if |rest| > 1 {
      assert FlatMirror(Pop(rest)) == FlatMirror(rest)[..|FlatMirror(rest)| - 1];
    }
  }

  lemma OtherSteps(line: string, i: nat, stack: seq<char>)
    requires i < |line| && Grounded(stack, '>') && !IsBracket(line[i])
    ensures StepsMirror(line, i, stack)
  {
    hide Flat, DropAll, EndsInOperator, IsSpacedGreaterEqual;
    GroundedIsOpen(stack, '>');
    FlatDropAll(stack, '>');
    FlatPush(stack, '>', '>');
    if i > 0 {
      SkippedIsInert(line, i);
    }
    if stack[|stack| - 1] == '>' {
      FlatPush(Pop(stack), '>', '>');
      assert Pop(stack) + ['>'] == stack;
    }
  }

  lemma SkippedIsInert(line: string, i: nat)
    requires 0 < i < |line|
    ensures line[i - 1] == '-' || IsSpacedGreaterEqual(line, i) || EndsInOperator(line[..i]) ==> Inert(line[i - 1])
  {
    hide EndsInOperator;
    if EndsInOperator(line[..i]) {
      LastOfOperator(line[..i]);
    }
  }

  // What \boperator\s*$ matches ends in white space or in an 'r'.
  lemma LastOfOperator(s: string)
    requires s != [] && EndsInOperator(s)
    ensures IsSpace(s[|s| - 1]) || s[|s| - 1] == 'r'
  {
    if !IsSpace(s[|s| - 1]) {
      assert StripRight(s) == s;
      var tail := s[|s| - |"operator"|..];
      assert tail == "operator";
      assert tail[7] == s[|s| - 1];
    }
  }

  lemma {:induction false} LinkBackward(lines: seq<string>, l: nat, p: nat, l2: nat, n: nat, stack: seq<char>)
    requires Precedes(lines, l, p, l2, n) && p < |lines[l]| && Grounded(stack, '>')
    ensures StopsAsRun(StartFrom(lines, l2, n, stack), (l, p), FlatMirror(stack), Mirror(Span(lines, l, p, l2, n)))
    decreases l2, n
  {
    hide StepBackward, FlatStep, Span, Run, FlatMirror, Mirror;
    SpanLast(lines, l, p, l2, n);
    SpanNothing(lines, l, p, l2, n);
    if l == l2 && p == n {
      NotBeforeItself(lines, l, p, p, stack);
      RunNothing(FlatMirror(stack));
      MirrorNothing();
    } else if n == 0 {
      LinkBackward(lines, l, p, l2 - 1, |lines[l2 - 1]|, stack);
    } else {
      var t, c := Span(lines, l, p, l2, n - 1), lines[l2][n - 1];
      FlatStepBackward(lines[l2], n - 1, stack);
      MirrorStep(t, c);
      RunStep(FlatMirror(stack), Partner(c), Mirror(t));
      SpanNothing(lines, l, p, l2, n - 1);
      var b := StepBackward(lines[l2], n - 1, stack);
      if b.BackGo? && b.extra == 0 {
        LinkBackward(lines, l, p, l2, n - 1, b.stack);
      } else if b.BackGo? {
        if l < l2 || p < n - 1 {
          LinkBackward(lines, l, p, l2, n - 2, stack);
        }
        LinkSkip(lines, l, p, l2, n - 1, stack);
      }
    }
  }

  // Stepping over a further, inert character.
  lemma LinkSkip(lines: seq<string>, l: nat, p: nat, l2: nat, n: nat, stack: seq<char>)
    requires Precedes(lines, l, p, l2, n) && p < |lines[l]| && 0 < n && Inert(lines[l2][n - 1])
    requires l < l2 || p < n ==>
               StopsAsRun(StartFrom(lines, l2, n - 1, stack), (l, p), FlatMirror(stack),
                          Mirror(Span(lines, l, p, l2, n - 1)))
    ensures StopsAsRun(StartFrom(lines, l2, n - 1, stack), (l, p), FlatMirror(stack), Mirror(Span(lines, l, p, l2, n)))
  {
    hide StartFrom, FlatStep, Span, Run, FlatMirror, Mirror;
    if l < l2 || p < n {
      var t, c := Span(lines, l, p, l2, n - 1), lines[l2][n - 1];
      SpanLast(lines, l, p, l2, n);
      MirrorStep(t, c);
      InertStep(FlatMirror(stack), c);
      RunStep(FlatMirror(stack), Partner(c), Mirror(t));
    } else {
      NotBeforeItself(lines, l, p, n - 1, stack);
      RunNothing(FlatMirror(stack));
      SpanNothing(lines, l, p, l2, n);
      MirrorNothing();
    }
  }

  lemma MirrorNothing()
    ensures Mirror([]) == []
  {
  }

  lemma NotBeforeItself(lines: seq<string>, l: nat, p: nat, n: nat, stack: seq<char>)
    requires l < |lines| && n <= p < |lines[l]|
    ensures StartFrom(lines, l, n, stack) != Some((l, p))
  {
    hide StartFrom;
    if StartFrom(lines, l, n, stack).Some? {
      StartFromRetreats(lines, l, n, stack);
    }
  }

  // A backward scan ends strictly earlier, at a column of the file.
  lemma {:induction false} StartFromRetreats(lines: seq<string>, l: nat, n: int, stack: seq<char>)
    requires l < |lines| && n <= |lines[l]| && StartFrom(lines, l, n, stack).Some?
    ensures var (l0, p) := StartFrom(lines, l, n, stack).value;
            l0 <= l && p < |lines[l0]| && (l0 == l ==> p < n)
    decreases l, n
  {
    hide StepBackward;
    if n <= 0 {
      StartFromRetreats(lines, l - 1, |lines[l - 1]|, stack);
    } else {
      match StepBackward(lines[l], n - 1, stack)
      case BackDone =>
      case BackGo(rest, extra) => StartFromRetreats(lines, l, n - 1 - extra, rest);
    }
  }

  // From anything but an angle bracket, ReverseCloseExpression stops at line l,
  // column p exactly when the text from there is one balanced group.
  lemma OpeningIffGroup(lines: seq<string>, l: nat, p: nat, l2: nat, e: nat)
    requires Precedes(lines, l, p, l2, e) && p < |lines[l]| && 0 < e && (l < l2 || p < e)
    requires lines[l2][e - 1] != '>'
    ensures Opening(lines, l2, e - 1) == Some((l, p)) <==> IsGroup(Span(lines, l, p, l2, e))
  {
    hide Balanced, StartFrom, FlatStep, Run, FlatMirror;
    var c, s, t := lines[l2][e - 1], Span(lines, l, p, l2, e), Span(lines, l, p, l2, e - 1);
    SpanLast(lines, l, p, l2, e);
    assert s == t + [c];
    GroupIffMirror(s);
    if IsCloser(c) {
      MirrorStep(t, c);
      RunFindsGroups(Mirror(s));
      RunStep([], Partner(c), Mirror(t));
      FirstPushBack(c);
      assert StepBackward(lines[l2], e - 1, []) == BackGo([] + [c], 0);
      StartFromGoes(lines, l2, e, [], [c]);
      LinkBackward(lines, l, p, l2, e - 1, [c]);
    }
  }

  lemma FirstPushBack(c: char)
    requires IsCloser(c)
    ensures FlatStep([], Partner(c)) == Go([Partner(c)]) && [] + [c] == [c]
    ensures FlatMirror([c]) == [Partner(c)] && Grounded([c], '>')
  {
    assert Flat([], '>') == [] && Pop([c]) == [];
    assert Flat([c], '>') == [c];
  }

  lemma StartFromGoes(lines: seq<string>, l: nat, n: nat, stack: seq<char>, rest: seq<char>)
    requires l < |lines| && 0 < n <= |lines[l]| && StepBackward(lines[l], n - 1, stack) == BackGo(rest, 0)
    ensures StartFrom(lines, l, n, stack) == StartFrom(lines, l, n - 1, rest)
  {
  }

  // --- The two matchers undo each other. ---

  lemma MatchersUndoEachOther(lines: seq<string>, l: nat, p: nat, l2: nat, e: nat)
    requires Precedes(lines, l, p, l2, e) && p < |lines[l]| && 0 < e && (l < l2 || p < e)
    requires lines[l][p] != '<' && lines[l2][e - 1] != '>'
    ensures Closing(lines, l, p) == Some((l2, e)) <==> Opening(lines, l2, e - 1) == Some((l, p))
  {
    hide Closing, Opening, IsGroup;
    ClosingIffGroup(lines, l, p, l2, e);
    OpeningIffGroup(lines, l, p, l2, e);
  }

  // Following the bracket at a place to its partner leads to one from which the
  // other matcher returns.
  ghost predicate ReturnsTo(lines: seq<string>, l: nat, p: nat)
    requires l < |lines| && p < |lines[l]|
  {
    && (match Closing(lines, l, p)
        case Some((l2, e)) => l2 < |lines| && 0 < e <= |lines[l2]| && Opening(lines, l2, e - 1) == Some((l, p))
        case None => true)
    && (match Opening(lines, l, p)
        case Some((l0, q)) => l0 < |lines| && q < |lines[l0]| && Closing(lines, l0, q) == Some((l, p + 1))
        case None => true)
  }

  // In any file, following a bracket that is not an angle bracket to its partner
  // and back returns to it, from either side.
  lemma RoundTrip(lines: seq<string>, l: nat, p: nat)
    requires l < |lines| && p < |lines[l]| && lines[l][p] != '<' && lines[l][p] != '>'
    ensures ReturnsTo(lines, l, p)
  {
    hide EndFrom, StartFrom, IsGroup;
    if Closing(lines, l, p).Some? {
      EndFromAdvances(lines, l, p, []);
      var (l2, e) := Closing(lines, l, p).value;
      ClosingIffGroup(lines, l, p, l2, e);
      GroupEnds(lines, l, p, l2, e);
      MatchersUndoEachOther(lines, l, p, l2, e);
    }
    if Opening(lines, l, p).Some? {
      StartFromRetreats(lines, l, p + 1, []);
      var (l0, q) := Opening(lines, l, p).value;
      OpeningIffGroup(lines, l0, q, l, p + 1);
      GroupEnds(lines, l0, q, l, p + 1);
      MatchersUndoEachOther(lines, l0, q, l, p + 1);
    }
  }

  lemma GroupEnds(lines: seq<string>, l: nat, p: nat, l2: nat, e: nat)
    requires Precedes(lines, l, p, l2, e) && p < |lines[l]| && 0 < e && (l < l2 || p < e)
    requires IsGroup(Span(lines, l, p, l2, e))
    ensures IsOpener(lines[l][p]) && IsCloser(lines[l2][e - 1])
  {
    hide Balanced, Span;
    SpanFirst(lines, l, p, l2, e);
    SpanLast(lines, l, p, l2, e);
  }

  // The walk from every place with character c returns to it.
  ghost predicate AlwaysReturns(c: char) {
    forall lines: seq<string>, l: nat, p: nat | l < |lines| && p < |lines[l]| && lines[l][p] == c ::
      ReturnsTo(lines, l, p)
  }

  // Exactly when the matchers are inverses: from every character but the two
  // angle brackets.
  lemma RoundTripIff(c: char)
    ensures AlwaysReturns(c) <==> c != '<' && c != '>'
  {
    if c == '<' {
      SpacedGreaterEqual();
      assert !ReturnsTo(["< >= "], 0, 0);
    } else if c == '>' {
      ArrowAfterGroup();
      assert !ReturnsTo(["()->"], 0, 3);
    } else {
      forall lines: seq<string>, l: nat, p: nat | l < |lines| && p < |lines[l]| && lines[l][p] == c
        ensures ReturnsTo(lines, l, p)
      {
        RoundTrip(lines, l, p);
      }
    }
  }

  // The forward matcher takes the '>' of a spaced ">=" for a closing bracket, the
  // backward matcher does not.
  lemma SpacedGreaterEqual()
    ensures Closing(["< >= "], 0, 0) == Some((0, 3))
    ensures Opening(["< >= "], 0, 2) == None
  {
    var line := "< >= ";
    StepsOfSpacedGreaterEqual(line);
    hide StepForward, StepBackward;
    assert EndFrom([line], 0, 2, ['<']) == Some((0, 3));
    assert EndFrom([line], 0, 1, ['<']) == Some((0, 3));
    assert StartFrom([line], 0, 0, []) == None;
    assert StartFrom([line], 0, 1, []) == None;
  }

  lemma StepsOfSpacedGreaterEqual(line: string)
    requires line == "< >= "
    ensures StepForward(line, 0, []) == Go(['<']) && StepForward(line, 1, ['<']) == Go(['<'])
    ensures StepForward(line, 2, ['<']) == Done
    ensures StepBackward(line, 2, []) == BackGo([], 1) && StepBackward(line, 0, []) == BackGo([], 0)
  {
    assert line[..1] == "<";
    NoOperatorInOne("<");
    hide EndsInOperator;
  }

  lemma NoOperatorInOne(s: string)
    requires |s| == 1
    ensures !EndsInOperator(s)
  {
    assert |StripRight(s)| <= 1;
  }

  // The backward matcher steps over the '>' of an arrow and goes on with nothing
  // pending, so it finds the start of the group before the arrow.
  lemma ArrowAfterGroup()
    ensures Opening(["()->"], 0, 3) == Some((0, 0))
    ensures Closing(["()->"], 0, 0) == Some((0, 2))
  {
    var line := "()->";
    var lines := [line];
    assert StepBackward(line, 3, []) == BackGo([], 1);
    assert StepBackward(line, 1, []) == BackGo([')'], 0);
    assert StepBackward(line, 0, [')']) == BackDone;
    assert StartFrom(lines, 0, 1, [')']) == Some((0, 0));
    assert StartFrom(lines, 0, 2, []) == Some((0, 0));
    assert StepForward(line, 0, []) == Go(['(']);
    assert StepForward(line, 1, ['(']) == Done;
    assert EndFrom(lines, 0, 1, ['(']) == Some((0, 2));
  }
}
