// The bracket matchers from any start, angle brackets included: where they stop
// is the end of one group, in the sense of AngleSpec.dfy.
module AngleTheorem {
  import opened Wrappers
  import opened BracketSpec
  import opened BracketMatching
  import opened BracketTheorem
  import opened AngleSpec

  // --- What an angle bracket counts for, by its neighbours. ---

  // The word operator stands at column k, and only blanks between it and column n.
  predicate OperatorAt(line: string, k: nat, n: nat) {
    && k + 8 <= n <= |line| && line[k..k + 8] == "operator"
    && (k > 0 ==> !InWord(line[k - 1]))
    && forall i | k + 8 <= i < n :: Blank(line[i])
  }

  ghost predicate BehindOperator(line: string, n: nat) {
    exists k :: OperatorAt(line, k, n)
  }

  // Forwards: a '>' behind '-', or one character behind the word operator, does not
  // count, nor does a '<' behind that word; the second '<' of "<<" takes one back.
  ghost function ForwardMark(line: string, i: nat): Mark
    requires i < |line|
  {
    var c := line[i];
    if c == '<' && i > 0 && line[i - 1] == '<' then Mark(c, Cancels)
    else if c == '<' && !BehindOperator(line, i) then Mark(c, Opens)
    else if c == '>' && !(i > 0 && (line[i - 1] == '-' || BehindOperator(line, i - 1))) then Mark(c, Closes)
    else Mark(c, Other)
  }

  // How many '<' stand together from place i on.
  function AnglesFrom(line: string, i: nat): nat
    decreases |line| - i
  {
    if i < |line| && line[i] == '<' then 1 + AnglesFrom(line, i + 1) else 0
  }

  // Backwards: a '>' behind '-' or behind the word operator or of a spaced ">=" does
  // not count; of a row of '<' only the first does, if their number is odd.
  ghost function BackwardMark(line: string, i: nat): Mark
    requires i < |line|
  {
    var c := line[i];
    if c == '<' && !(i > 0 && line[i - 1] == '<') && AnglesFrom(line, i) % 2 == 1 then Mark(c, Opens)
    else if c == '>' && !(i > 0 && line[i - 1] == '-') && !SpacedEqual(line, i) && !BehindOperator(line, i)
    then Mark(c, Closes)
    else Mark(c, Other)
  }

  // Column i stands in front of '=', and these two between blanks.
  predicate SpacedEqual(line: string, i: nat) {
    0 < i < |line| - 2 && Blank(line[i - 1]) && line[i + 1] == '=' && Blank(line[i + 2])
  }

  lemma {:induction false} StripRightIs(s: string)
    ensures var t := StripRight(s);
            && |t| <= |s| && t == s[..|t|] && (t != [] ==> !Blank(t[|t| - 1]))
            && forall i | |t| <= i < |s| :: Blank(s[i])
    decreases |s|
  {
    if s != [] && IsSpace(s[|s| - 1]) {
      StripRightIs(s[..|s| - 1]);
    }
  }

  // The regular expression for the word operator.
  lemma OperatorIff(line: string, n: nat)
    requires n <= |line|
    ensures EndsInOperator(line[..n]) <==> BehindOperator(line, n)
  {
    hide EndsInOperator, OperatorAt;
    if EndsInOperator(line[..n]) {
      OperatorFound(line, n);
    }
    if k: nat :| OperatorAt(line, k, n) {
      OperatorEnds(line, k, n);
    }
  }

  lemma OperatorFound(line: string, n: nat)
    requires n <= |line| && EndsInOperator(line[..n])
    ensures BehindOperator(line, n)
  {
    var s, t := line[..n], StripRight(line[..n]);
    StripRightIs(s);
    hide StripRight;
    var k := |t| - |"operator"|;
    assert t[k..] == line[k..k + 8];
    assert t[..k] == line[..k];
    assert k > 0 ==> t[k - 1] == line[k - 1];
    assert forall i | k + 8 <= i < n :: line[i] == s[i];
    assert OperatorAt(line, k, n);
  }

  lemma OperatorEnds(line: string, k: nat, n: nat)
    requires n <= |line| && OperatorAt(line, k, n)
    ensures EndsInOperator(line[..n])
  {
    var s, t := line[..n], StripRight(line[..n]);
    StripRightIs(s);
    hide StripRight;
    var word := line[k..k + 8];
    assert word[7] == 'r' && s[k + 7] == word[7];
    assert |t| >= k + 8;
    assert t[|t| - 1] == line[|t| - 1];
    assert |t| == k + 8;
    assert t[k..] == word;
    assert k > 0 ==> t[k - 1] == line[k - 1];
  }

  lemma ForwardMarkIs(line: string, i: nat)
    requires i < |line|
    ensures var c := line[i];
            ForwardMark(line, i) ==
            if c == '<' && i > 0 && line[i - 1] == '<' then Mark(c, Cancels)
            else if c == '<' && !(i > 0 && EndsInOperator(line[..i])) then Mark(c, Opens)
            else if c == '>' && !(i > 0 && (line[i - 1] == '-' || EndsInOperator(line[..i - 1]))) then Mark(c, Closes)
            else Mark(c, Other)
  {
    hide EndsInOperator, BehindOperator;
    OperatorIff(line, i);
    NoOperatorAtStart(line);
    if i > 0 {
      OperatorIff(line, i - 1);
    }
  }

  lemma NoOperatorAtStart(line: string)
    ensures !BehindOperator(line, 0)
  {
  }

  lemma BackwardMarkIs(line: string, i: nat)
    requires i < |line|
    ensures var c := line[i];
            BackwardMark(line, i) ==
            if c == '<' && !(i > 0 && line[i - 1] == '<') && AnglesFrom(line, i) % 2 == 1 then Mark(c, Opens)
            else if c == '>' &&
                    !(i > 0 && (line[i - 1] == '-' || IsSpacedGreaterEqual(line, i) || EndsInOperator(line[..i])))
            then Mark(c, Closes)
            else Mark(c, Other)
  {
    hide EndsInOperator, BehindOperator, AnglesFrom;
    OperatorIff(line, i);
    NoOperatorAtStart(line);
  }

  ghost function ForwardMarks(lines: seq<string>): (r: seq<seq<Mark>>)
    ensures MarksOf(lines, r)
    ensures forall k, i | 0 <= k < |lines| && 0 <= i < |lines[k]| :: r[k][i] == ForwardMark(lines[k], i)
  {
    seq(|lines|, k requires 0 <= k < |lines| =>
      seq(|lines[k]|, i requires 0 <= i < |lines[k]| => ForwardMark(lines[k], i)))
  }

  ghost function BackwardMarks(lines: seq<string>): (r: seq<seq<Mark>>)
    ensures MarksOf(lines, r)
    ensures forall k, i | 0 <= k < |lines| && 0 <= i < |lines[k]| :: r[k][i] == BackwardMark(lines[k], i)
  {
    seq(|lines|, k requires 0 <= k < |lines| =>
      seq(|lines[k]|, i requires 0 <= i < |lines[k]| => BackwardMark(lines[k], i)))
  }

  ghost predicate MarksOf(lines: seq<string>, marked: seq<seq<Mark>>) {
    && |marked| == |lines|
    && (forall k | 0 <= k < |lines| :: |marked[k]| == |lines[k]|)
    && (forall k, i | 0 <= k < |lines| && 0 <= i < |lines[k]| :: marked[k][i].c == lines[k][i])
  }

  lemma {:induction false} SpanText(lines: seq<string>, marked: seq<seq<Mark>>, l: nat, i: nat, l2: nat, e: nat)
    requires MarksOf(lines, marked) && Precedes(lines, l, i, l2, e)
    ensures Precedes(marked, l, i, l2, e)
    ensures Text(Span(marked, l, i, l2, e)) == Span(lines, l, i, l2, e)
    decreases l2 - l
  {
    if l < l2 {
      SpanText(lines, marked, l + 1, 0, l2, e);
    }
  }

  // --- Pending angle brackets below the others. ---

  function Angles(n: nat, angle: char): (r: seq<char>)
    ensures |r| == n && forall i | 0 <= i < n :: r[i] == angle
  {
    seq(n, _ => angle)
  }

  predicate IsTop(g: seq<char>, angle: char) {
    g == [] || Grounded(g, angle)
  }

  lemma {:induction false} DropAllAngles(n: nat, angle: char)
    ensures DropAll(Angles(n, angle), angle) == []
    decreases n
  {
    if n != 0 {
      DropAllAngles(n - 1, angle);
      assert Pop(Angles(n, angle)) == Angles(n - 1, angle);
    }
  }

  lemma {:induction false} DropAllOnTop(n: nat, angle: char, g: seq<char>)
    requires Grounded(g, angle)
    ensures DropAll(Angles(n, angle) + g, angle) == Angles(n, angle) + DropAll(g, angle)
    ensures Grounded(DropAll(g, angle), angle)
    decreases |g|
  {
    var t := Angles(n, angle) + g;
    assert t[|t| - 1] == g[|g| - 1] && Pop(t) == Angles(n, angle) + Pop(g);
    if g[|g| - 1] == angle {
      DropAllOnTop(n, angle, Pop(g));
    }
  }

  lemma OnTop(n: nat, angle: char, g: seq<char>)
    requires g != []
    ensures var t := Angles(n, angle) + g;
            && t != [] && t[|t| - 1] == g[|g| - 1] && Pop(t) == Angles(n, angle) + Pop(g)
            && forall c: char :: t + [c] == Angles(n, angle) + (g + [c])
  {
  }

  lemma AnglesAlone(n: nat, angle: char)
    ensures Angles(n, angle) + [] == Angles(n, angle)
    ensures Angles(n, angle) + [angle] == Angles(n + 1, angle)
    ensures n > 0 ==> Angles(n, angle)[n - 1] == angle && Pop(Angles(n, angle)) == Angles(n - 1, angle)
  {
  }

  // --- Forwards. ---

  // A step does not look below the bracket that is pending.
  lemma StepOnTop(line: string, i: nat, n: nat, g: seq<char>)
    requires i < |line| && 0 < n && Grounded(g, '<')
    ensures StepForward(line, i, Angles(n, '<') + g) ==
            match StepForward(line, i, g)
            case Done => Go(Angles(n, '<'))
            case Fail => Fail
            case Go(rest) => Go(Angles(n, '<') + rest)
  {
    var rest := DropAll(g, '<');
    DropAllOnTop(n, '<', g);
    OnTop(n, '<', g);
    OnTop(n, '<', rest);
    AnglesAlone(n, '<');
    hide EndsInOperator, DropAll;
  }

  // Step f of the scan, which leaves g above the pending '<', is step s of the machine on marks.
  ghost predicate Follows(f: Step, s: AngleStep, g: seq<char>) {
    && IsTop(g, '<')
    && match s
       case Stop => f == Done
       case Break => f == Fail
       case Onward(a, rest) => f == Go(Angles(a, '<') + g) && rest == Flat(g, '<')
  }

  lemma AngleStepForward(line: string, i: nat, n: nat, g: seq<char>) returns (g': seq<char>)
    requires i < |line| && 0 < n && IsTop(g, '<')
    ensures Follows(StepForward(line, i, Angles(n, '<') + g), StepAngle(n, Flat(g, '<'), ForwardMark(line, i)), g')
  {
    hide StepForward, EndsInOperator, Flat, StepAngle;
    FlatOfNothing('<');
    AnglesAlone(n, '<');
    if g == [] {
      g' := if IsOpener(line[i]) then [line[i]] else [];
      StepOnAngles(line, i, n);
    } else {
      GroundedIsOpen(g, '<');
      StepOnTop(line, i, n, g);
      FlatStepForward(line, i, g);
      StepBelow(n, Flat(g, '<'), ForwardMark(line, i));
      var f := StepForward(line, i, g);
      g' := if f.Go? then f.stack else [];
    }
  }

  lemma FlatOfNothing(angle: char)
    ensures Flat([], angle) == []
  {
  }

  lemma StepBelow(n: nat, stack: seq<char>, m: Mark)
    requires stack != []
    ensures StepAngle(n, stack, m) == match FlatStep(stack, m.c)
                                      case Done => Onward(n, [])
                                      case Fail => Break
                                      case Go(rest) => Onward(n, rest)
  {
  }

  ghost predicate StepsOnAngles(line: string, i: nat, n: nat, g': seq<char>)
    requires i < |line|
  {
    Follows(StepForward(line, i, Angles(n, '<')), StepAngle(n, [], ForwardMark(line, i)), g')
  }

  lemma StepOnAngles(line: string, i: nat, n: nat)
    requires i < |line| && 0 < n
    ensures StepsOnAngles(line, i, n, if IsOpener(line[i]) then [line[i]] else [])
  {
    hide StepsOnAngles;
    if IsOpener(line[i]) {
      OpenerOnAngles(line, i, n);
    } else {
      OtherOnAngles(line, i, n);
    }
  }

  lemma OpenerOnAngles(line: string, i: nat, n: nat)
    requires i < |line| && 0 < n && IsOpener(line[i])
    ensures StepsOnAngles(line, i, n, [line[i]])
  {
    hide EndsInOperator, ForwardMark, Flat, DropAll;
    ForwardMarkIs(line, i);
    FirstPush(line[i]);
  }

  lemma OtherOnAngles(line: string, i: nat, n: nat)
    requires i < |line| && 0 < n && !IsOpener(line[i])
    ensures StepsOnAngles(line, i, n, [])
  {
    hide StepsOnAngles;
    if line[i] == '<' {
      LessOnAngles(line, i, n);
    } else if line[i] == '>' {
      GreaterOnAngles(line, i, n);
    } else {
      RestOnAngles(line, i, n);
    }
  }

  lemma LessOnAngles(line: string, i: nat, n: nat)
    requires i < |line| && 0 < n && line[i] == '<'
    ensures StepsOnAngles(line, i, n, [])
  {
    hide EndsInOperator, ForwardMark, Flat, DropAll;
    ForwardMarkIs(line, i);
    FlatOfNothing('<');
    AnglesAlone(n, '<');
    AnglesAlone(n - 1, '<');
    AnglesAlone(n + 1, '<');
  }

  lemma GreaterOnAngles(line: string, i: nat, n: nat)
    requires i < |line| && 0 < n && line[i] == '>'
    ensures StepsOnAngles(line, i, n, [])
  {
    hide EndsInOperator, ForwardMark, Flat, DropAll;
    ForwardMarkIs(line, i);
    FlatOfNothing('<');
    AnglesAlone(n, '<');
    AnglesAlone(n - 1, '<');
  }

  lemma RestOnAngles(line: string, i: nat, n: nat)
    requires i < |line| && 0 < n && !IsOpener(line[i]) && line[i] != '<' && line[i] != '>'
    ensures StepsOnAngles(line, i, n, [])
  {
    hide EndsInOperator, ForwardMark, Flat, DropAll;
    ForwardMarkIs(line, i);
    FlatOfNothing('<');
    AnglesAlone(n, '<');
    DropAllAngles(n, '<');
  }

  lemma {:induction false} LinkAngle(lines: seq<string>, l: nat, i: nat, n: nat, g: seq<char>, l2: nat, e: nat)
    requires Precedes(lines, l, i, l2, e) && 0 < e && 0 < n && IsTop(g, '<')
    ensures var ms := Span(ForwardMarks(lines), l, i, l2, e);
            EndFrom(lines, l, i, Angles(n, '<') + g) == Some((l2, e)) <==>
            AngleEnd(n, Flat(g, '<'), ms) == Some(|ms|)
    decreases l2 - l, |lines[l]| - i
  {
    hide StepForward, StepAngle, Span, Flat, AngleEnd, ForwardMark;
    var marked := ForwardMarks(lines);
    SpanFirst(marked, l, i, l2, e);
    SpanEmptyIff(marked, l, i, l2, e);
    if l == l2 && i == e {
      NotBehindItself(lines, l, i, Angles(n, '<') + g);
      NoEnd(n, Flat(g, '<'));
    } else if i == |lines[l]| {
      LinkAngle(lines, l + 1, 0, n, g, l2, e);
    } else {
      var t, m := Span(marked, l, i + 1, l2, e), ForwardMark(lines[l], i);
      var g' := AngleStepForward(lines[l], i, n, g);
      EndStep(n, Flat(g, '<'), m, t);
      SpanEmptyIff(marked, l, i + 1, l2, e);
      var s := StepAngle(n, Flat(g, '<'), m);
      if s.Onward? {
        LinkAngle(lines, l, i + 1, s.angles, g', l2, e);
      }
    }
  }

  lemma NoEnd(n: nat, stack: seq<char>)
    ensures AngleEnd(n, stack, []) == None
  {
  }

  // A mark that the scan passes over as long as nothing is pending.
  predicate Idle(m: Mark) {
    m.role != Opens && Inert(m.c)
  }

  // Behind idle characters of its line, a group stands from column q on.
  ghost predicate StartsGroup(lines: seq<string>, l: nat, p: nat, q: nat, l2: nat, e: nat)
    requires l < |lines|
  {
    && p <= q < |lines[l]| && Precedes(ForwardMarks(lines), l, q, l2, e)
    && (forall k | p <= k < q :: Idle(ForwardMark(lines[l], k)))
    && OneGroup(Span(ForwardMarks(lines), l, q, l2, e))
  }

  ghost predicate LeadsToGroup(lines: seq<string>, l: nat, p: nat, l2: nat, e: nat)
    requires l < |lines|
  {
    exists q :: StartsGroup(lines, l, p, q, l2, e)
  }

  lemma GroupStarts(ms: seq<Mark>)
    requires OneGroup(ms)
    ensures |ms| > 1 && !Idle(ms[0]) && (ms[0].role == Opens || IsOpener(ms[0].c))
    ensures ms[0].role == Opens <==> AngleGroup(ms)
  {
    hide Content, Balanced;
  }

  lemma IdleStep(line: string, i: nat)
    requires i < |line| && Idle(ForwardMark(line, i))
    ensures StepForward(line, i, []) == Go([])
  {
    hide EndsInOperator, ForwardMark;
    ForwardMarkIs(line, i);
  }

  // A scan with nothing pending stops at the end of the group that starts behind
  // idle characters.
  lemma {:induction false} FromNothing(lines: seq<string>, l: nat, p: nat, l2: nat, e: nat)
    requires l < |lines| && p <= |lines[l]| && l2 < |lines| && 0 < e <= |lines[l2]|
    ensures EndFrom(lines, l, p, []) == Some((l2, e)) <==> LeadsToGroup(lines, l, p, l2, e)
    decreases |lines[l]| - p
  {
    hide StepForward, ForwardMark, EndFrom, StartsGroup, Inert;
    if p == |lines[l]| || l2 < l || (l2 == l && e <= p) {
      NothingFrom(lines, l, p, l2, e);
    } else if Idle(ForwardMark(lines[l], p)) {
      FromNothing(lines, l, p + 1, l2, e);
      IdleStep(lines[l], p);
      EndFromGoes(lines, l, p, [], []);
      BehindIdle(lines, l, p, p + 1, l2, e);
    } else {
      FromHere(lines, l, p, l2, e);
      OnlyHere(lines, l, p, p, l2, e);
      forall q
        ensures StartsGroup(lines, l, p, q, l2, e) <==> q == p && OneGroup(Span(ForwardMarks(lines), l, p, l2, e))
      {
        OnlyHere(lines, l, p, q, l2, e);
      }
    }
  }

  lemma NothingFrom(lines: seq<string>, l: nat, p: nat, l2: nat, e: nat)
    requires l < |lines| && p <= |lines[l]| && l2 < |lines| && 0 < e <= |lines[l2]|
    requires p == |lines[l]| || l2 < l || (l2 == l && e <= p)
    ensures EndFrom(lines, l, p, []) != Some((l2, e))
    ensures !LeadsToGroup(lines, l, p, l2, e)
  {
    hide StepForward, OneGroup, ForwardMark;
    if p < |lines[l]| && EndFrom(lines, l, p, []).Some? {
      EndFromAdvances(lines, l, p, []);
    }
    forall q
      ensures !StartsGroup(lines, l, p, q, l2, e)
    {
      if StartsGroup(lines, l, p, q, l2, e) {
        GroupStarts(Span(ForwardMarks(lines), l, q, l2, e));
      }
    }
  }

  lemma BehindIdle(lines: seq<string>, l: nat, p: nat, next: nat, l2: nat, e: nat)
    requires l < |lines| && p < |lines[l]| && Idle(ForwardMark(lines[l], p)) && next == p + 1
    ensures LeadsToGroup(lines, l, p, l2, e) <==> LeadsToGroup(lines, l, next, l2, e)
  {
    hide OneGroup, ForwardMark, Idle;
    if q :| StartsGroup(lines, l, p, q, l2, e) {
      if q == p {
        GroupStarts(Span(ForwardMarks(lines), l, p, l2, e));
        SpanFirst(ForwardMarks(lines), l, p, l2, e);
        SpanEmptyIff(ForwardMarks(lines), l, p, l2, e);
      }
      assert StartsGroup(lines, l, next, q, l2, e);
    }
    if q :| StartsGroup(lines, l, next, q, l2, e) {
      assert StartsGroup(lines, l, p, q, l2, e);
    }
  }

  lemma OnlyHere(lines: seq<string>, l: nat, p: nat, q: nat, l2: nat, e: nat)
    requires l < |lines| && p < |lines[l]| && !Idle(ForwardMark(lines[l], p)) && Precedes(lines, l, p, l2, e)
    ensures Precedes(ForwardMarks(lines), l, p, l2, e)
    ensures StartsGroup(lines, l, p, q, l2, e) <==> q == p && OneGroup(Span(ForwardMarks(lines), l, p, l2, e))
  {
    hide OneGroup, ForwardMark, Idle;
  }

  // At a character that is not idle the group starts here, or the scan fails.
  lemma FromHere(lines: seq<string>, l: nat, p: nat, l2: nat, e: nat)
    requires Precedes(lines, l, p, l2, e) && p < |lines[l]| && 0 < e && (l < l2 || p < e)
    requires !Idle(ForwardMark(lines[l], p))
    ensures Precedes(ForwardMarks(lines), l, p, l2, e)
    ensures EndFrom(lines, l, p, []) == Some((l2, e)) <==> OneGroup(Span(ForwardMarks(lines), l, p, l2, e))
  {
    hide AngleGroup, IsGroup, EndFrom, Span, AngleEnd, EndsInOperator, ForwardMark;
    ForwardMarkIs(lines[l], p);
    var marked, m := ForwardMarks(lines), ForwardMark(lines[l], p);
    var ms, t := Span(marked, l, p, l2, e), Span(marked, l, p + 1, l2, e);
    SpanFirst(marked, l, p, l2, e);
    assert ms == [m] + t && ms[1..] == t;
    if OneGroup(ms) {
      GroupStarts(ms);
    }
    SpanText(lines, marked, l, p, l2, e);
    if m.role == Opens {
      assert StepForward(lines[l], p, []) == Go([] + ['<']);
      EndFromGoes(lines, l, p, [], ['<']);
      assert Angles(1, '<') + [] == ['<'];
      LinkAngle(lines, l, p + 1, 1, [], l2, e);
      FlatOfNothing('<');
      AngleEndIff(ms);
    } else if IsOpener(m.c) {
      ClosingIffGroup(lines, l, p, l2, e);
      assert Closing(lines, l, p) == EndFrom(lines, l, p, []);
    } else {
      assert StepForward(lines[l], p, []) == Fail;
      EndFromFails(lines, l, p);
    }
  }

  lemma EndFromFails(lines: seq<string>, l: nat, i: nat)
    requires l < |lines| && i < |lines[l]| && StepForward(lines[l], i, []) == Fail
    ensures EndFrom(lines, l, i, []) == None
  {
  }

  // From any bracket, CloseExpression stops just past line l2, column e - 1 exactly
  // if the text up to there is one group, which starts at the bracket itself or, if
  // that is a '<' that does not count, behind idle characters of its line.
  lemma ClosingIff(lines: seq<string>, l: nat, p: nat, l2: nat, e: nat)
    requires l < |lines| && p < |lines[l]| && l2 < |lines| && 0 < e <= |lines[l2]|
    ensures var line := lines[l];
            Closing(lines, l, p) == Some((l2, e)) <==>
            && (|| IsOpener(line[p])
                || (line[p] == '<' && (p + 1 < |line| ==> line[p + 1] != '<' && line[p + 1] != '=')))
            && LeadsToGroup(lines, l, p, l2, e)
  {
    hide StartsGroup, EndFrom;
    FromNothing(lines, l, p, l2, e);
  }

  // --- Backwards. ---

  // Of a row of '<' that the scan has entered, an even number is behind it.
  predicate Aligned(line: string, n: nat)
    requires n <= |line|
  {
    n > 0 && line[n - 1] == '<' ==> AnglesFrom(line, n) % 2 == 0
  }

  ghost function BackMirror(line: string, i: nat): Mark
    requires i < |line|
  {
    MirrorMark(BackwardMark(line, i))
  }

  lemma BackStepOnTop(line: string, i: nat, n: nat, g: seq<char>)
    requires i < |line| && 0 < n && Grounded(g, '>')
    ensures StepBackward(line, i, Angles(n, '>') + g) ==
            match StepBackward(line, i, g)
            case BackDone => BackGo(Angles(n, '>'), 0)
            case BackFail => BackFail
            case BackGo(rest, extra) => BackGo(Angles(n, '>') + rest, extra)
  {
    var rest := DropAll(g, '>');
    DropAllOnTop(n, '>', g);
    OnTop(n, '>', g);
    OnTop(n, '>', rest);
    AnglesAlone(n, '>');
    hide EndsInOperator, IsSpacedGreaterEqual, DropAll;
  }

  // What the scan steps over besides counts for nothing.
  ghost predicate SkipsQuiet(line: string, i: nat, extra: nat)
    requires i < |line|
  {
    extra == 0 || (extra == 1 && 0 < i && Quiet(BackwardMark(line, i)) && Quiet(BackwardMark(line, i - 1)))
  }

  lemma SkippedAreQuiet(line: string, i: nat, stack: seq<char>)
    requires i < |line| && Aligned(line, i + 1)
    ensures var b := StepBackward(line, i, stack);
            b.BackGo? ==> SkipsQuiet(line, i, b.extra) && i >= b.extra && Aligned(line, i - b.extra)
    ensures StepBackward(line, i, stack).BackGo? && StepBackward(line, i, stack).extra == 1 ==>
              StepBackward(line, i, stack).stack == stack
  {
    hide EndsInOperator, DropAll, BackwardMark;
    BackwardMarkIs(line, i);
    if i > 0 {
      BackwardMarkIs(line, i - 1);
    }
    if i > 0 && EndsInOperator(line[..i]) {
      LastOfOperator(line[..i]);
    }
    assert line[i] == '<' ==> AnglesFrom(line, i) == 1 + AnglesFrom(line, i + 1);
    if i > 0 {
      assert line[i - 1] == '<' ==> AnglesFrom(line, i - 1) == 1 + AnglesFrom(line, i);
    }
  }

  lemma AnglesStep(line: string, i: nat)
    requires i < |line|
    ensures AnglesFrom(line, i) == if line[i] == '<' then 1 + AnglesFrom(line, i + 1) else 0
  {
  }

  // The same of step b of the backward scan.
  ghost predicate FollowsBack(b: BackStep, s: AngleStep, g: seq<char>) {
    && IsTop(g, '>')
    && match s
       case Stop => b == BackDone
       case Break => b == BackFail
       case Onward(a, rest) => b.BackGo? && b.stack == Angles(a, '>') + g && rest == FlatMirror(g)
  }

  lemma BackStepOnAngles(line: string, i: nat, n: nat)
    requires i < |line| && 0 < n && Aligned(line, i + 1)
    ensures FollowsBack(StepBackward(line, i, Angles(n, '>')), StepAngle(n, [], BackMirror(line, i)),
                        if IsCloser(line[i]) then [line[i]] else [])
  {
    hide EndsInOperator, IsSpacedGreaterEqual, BackwardMark, AnglesFrom, Flat, DropAll;
    BackwardMarkIs(line, i);
    AnglesStep(line, i);
    FlatOfNothing('>');
    AnglesAlone(n, '>');
    AnglesAlone(n - 1, '>');
    AnglesAlone(n + 1, '>');
    DropAllAngles(n, '>');
    if IsCloser(line[i]) {
      FirstPushBack(line[i]);
    }
  }

  lemma AngleStepBackward(line: string, i: nat, n: nat, g: seq<char>) returns (g': seq<char>)
    requires i < |line| && 0 < n && IsTop(g, '>') && Aligned(line, i + 1)
    ensures FollowsBack(StepBackward(line, i, Angles(n, '>') + g), StepAngle(n, FlatMirror(g), BackMirror(line, i)), g')
  {
    hide StepBackward, EndsInOperator, Flat, StepAngle;
    FlatOfNothing('>');
    AnglesAlone(n, '>');
    if g == [] {
      g' := if IsCloser(line[i]) then [line[i]] else [];
      BackStepOnAngles(line, i, n);
    } else {
      GroundedIsOpen(g, '>');
      BackStepOnTop(line, i, n, g);
      FlatStepBackward(line, i, g);
      StepBelow(n, FlatMirror(g), BackMirror(line, i));
      var b := StepBackward(line, i, g);
      g' := if b.BackGo? then b.stack else [];
    }
  }

  lemma MirrorOneMore(ms: seq<Mark>, m: Mark)
    ensures MirrorMarks(ms + [m]) == [MirrorMark(m)] + MirrorMarks(ms)
  {
  }

  // The scan with n characters of line l2 to go, and the machine on the mirror
  // image of what leads there from line l, column p.
  ghost predicate BackStops(lines: seq<string>, l: nat, p: nat, l2: nat, n: nat, angles: nat, g: seq<char>,
                            r: Option<(nat, nat)>)
    requires Precedes(BackwardMarks(lines), l, p, l2, n)
  {
    var ms := MirrorMarks(Span(BackwardMarks(lines), l, p, l2, n));
    r == Some((l, p)) <==> AngleEnd(angles, FlatMirror(g), ms) == Some(|ms|)
  }

  lemma {:induction false} LinkAngleBack(lines: seq<string>, l: nat, p: nat, l2: nat, n: nat, angles: nat, g: seq<char>)
    requires Precedes(lines, l, p, l2, n) && p < |lines[l]| && 0 < angles && IsTop(g, '>') && Aligned(lines[l2], n)
    ensures Precedes(BackwardMarks(lines), l, p, l2, n)
    ensures BackStops(lines, l, p, l2, n, angles, g, StartFrom(lines, l2, n, Angles(angles, '>') + g))
    decreases l2, n
  {
    hide StepBackward, StepAngle, Span, Flat, AngleEnd, BackwardMark, MirrorMarks, StartFrom;
    var marked, stack := BackwardMarks(lines), Angles(angles, '>') + g;
    SpanNothing(marked, l, p, l2, n);
    if l == l2 && p == n {
      NotBeforeItself(lines, l, p, p, stack);
      NoEnd(angles, FlatMirror(g));
      MirrorNoMarks();
    } else if n == 0 {
      SpanLast(marked, l, p, l2, n);
      LinkAngleBack(lines, l, p, l2 - 1, |lines[l2 - 1]|, angles, g);
      StartFromAbove(lines, l2, stack);
    } else {
      hide BackStops;
      var m := BackwardMark(lines[l2], n - 1);
      var g' := AngleStepBackward(lines[l2], n - 1, angles, g);
      SkippedAreQuiet(lines[l2], n - 1, stack);
      var b := StepBackward(lines[l2], n - 1, stack);
      if b.BackGo? && b.extra == 0 {
        LinkAngleBack(lines, l, p, l2, n - 1, StepAngle(angles, FlatMirror(g), MirrorMark(m)).angles, g');
      } else if b.BackGo? {
        QuietStep(angles, FlatMirror(g), m);
        g' := g;
        if l < l2 || p < n - 1 {
          LinkAngleBack(lines, l, p, l2, n - 2, angles, g);
        }
        SkipQuiet(lines, l, p, l2, n - 1, angles, g);
      }
      BackOneStep(lines, l, p, l2, n, angles, g, g');
    }
  }

  lemma StartFromAbove(lines: seq<string>, l: nat, stack: seq<char>)
    requires 0 < l < |lines| && stack != []
    ensures StartFrom(lines, l, 0, stack) == StartFrom(lines, l - 1, |lines[l - 1]|, stack)
  {
  }

  // One step of the scan, once it is known how the scan goes on behind it.
  lemma BackOneStep(lines: seq<string>, l: nat, p: nat, l2: nat, n: nat, angles: nat, g: seq<char>, g': seq<char>)
    requires Precedes(lines, l, p, l2, n) && p < |lines[l]| && 0 < n && (l < l2 || p < n)
    requires Precedes(BackwardMarks(lines), l, p, l2, n - 1)
    requires var b := StepBackward(lines[l2], n - 1, Angles(angles, '>') + g);
             var s := StepAngle(angles, FlatMirror(g), BackMirror(lines[l2], n - 1));
             && FollowsBack(b, s, g')
             && (s.Onward? ==>
                   BackStops(lines, l, p, l2, n - 1, s.angles, g', StartFrom(lines, l2, n - 1 - b.extra, b.stack)))
    ensures Precedes(BackwardMarks(lines), l, p, l2, n)
    ensures BackStops(lines, l, p, l2, n, angles, g, StartFrom(lines, l2, n, Angles(angles, '>') + g))
  {
    hide StepBackward, StepAngle, Span, Flat, AngleEnd, BackwardMark, MirrorMarks;
    var marked := BackwardMarks(lines);
    var t, m := Span(marked, l, p, l2, n - 1), BackwardMark(lines[l2], n - 1);
    SpanLast(marked, l, p, l2, n);
    SpanNothing(marked, l, p, l2, n - 1);
    MirrorOneMore(t, m);
    EndStep(angles, FlatMirror(g), MirrorMark(m), MirrorMarks(t));
  }

  lemma MirrorNoMarks()
    ensures MirrorMarks([]) == []
  {
  }

  lemma QuietStep(angles: nat, stack: seq<char>, m: Mark)
    requires Quiet(m)
    ensures StepAngle(angles, stack, MirrorMark(m)) == Onward(angles, stack)
  {
  }

  // Stepping over a further, quiet character.
  lemma SkipQuiet(lines: seq<string>, l: nat, p: nat, l2: nat, n: nat, angles: nat, g: seq<char>)
    requires Precedes(lines, l, p, l2, n) && p < |lines[l]| && 0 < n && Quiet(BackwardMark(lines[l2], n - 1))
    requires l < l2 || p < n ==>
               Precedes(BackwardMarks(lines), l, p, l2, n - 1) &&
               BackStops(lines, l, p, l2, n - 1, angles, g, StartFrom(lines, l2, n - 1, Angles(angles, '>') + g))
    ensures Precedes(BackwardMarks(lines), l, p, l2, n)
    ensures BackStops(lines, l, p, l2, n, angles, g, StartFrom(lines, l2, n - 1, Angles(angles, '>') + g))
  {
    hide StartFrom, StepAngle, Span, AngleEnd, BackwardMark, MirrorMarks, Flat;
    var marked := BackwardMarks(lines);
    if l < l2 || p < n {
      var t, m := Span(marked, l, p, l2, n - 1), BackwardMark(lines[l2], n - 1);
      SpanLast(marked, l, p, l2, n);
      MirrorOneMore(t, m);
      QuietStep(angles, FlatMirror(g), m);
      EndStep(angles, FlatMirror(g), MirrorMark(m), MirrorMarks(t));
    } else {
      NotBeforeItself(lines, l, p, n - 1, Angles(angles, '>') + g);
      NoEnd(angles, FlatMirror(g));
      SpanNothing(marked, l, p, l2, n);
      MirrorNoMarks();
    }
  }

  // A mark that the backward scan passes over as long as nothing is pending.
  predicate BackIdle(m: Mark) {
    m.role != Closes && Inert(m.c)
  }

  // In front of idle characters of line l2, up to column n, a group ends at column q.
  ghost predicate EndsGroup(lines: seq<string>, l: nat, p: nat, l2: nat, n: nat, q: nat)
    requires l2 < |lines| && n <= |lines[l2]|
  {
    && q < n && Precedes(BackwardMarks(lines), l, p, l2, q + 1)
    && (forall k | q < k < n :: BackIdle(BackwardMark(lines[l2], k)))
    && OneGroup(Span(BackwardMarks(lines), l, p, l2, q + 1))
  }

  ghost predicate FollowsGroup(lines: seq<string>, l: nat, p: nat, l2: nat, n: nat)
    requires l2 < |lines| && n <= |lines[l2]|
  {
    exists q :: EndsGroup(lines, l, p, l2, n, q)
  }

  lemma GroupCloses(ms: seq<Mark>)
    requires OneGroup(ms)
    ensures |ms| > 1 && !BackIdle(ms[|ms| - 1])
    ensures ms[|ms| - 1].role == Closes <==> AngleGroup(ms)
    ensures ms[|ms| - 1].role == Closes || IsCloser(ms[|ms| - 1].c)
  {
    hide Content, Balanced;
  }

  lemma BackIdleStep(line: string, i: nat)
    requires i < |line| && BackIdle(BackwardMark(line, i)) && Aligned(line, i + 1)
    ensures var b := StepBackward(line, i, []);
            b.BackGo? && b.stack == [] && SkipsQuiet(line, i, b.extra) && i >= b.extra && Aligned(line, i - b.extra)
  {
    BackwardMarkIs(line, i);
    SkippedAreQuiet(line, i, []);
    hide EndsInOperator, IsSpacedGreaterEqual, SkipsQuiet, Aligned;
  }

  lemma BeforeIdle(lines: seq<string>, l: nat, p: nat, l2: nat, n: nat, rest: nat)
    requires l2 < |lines| && 0 < n <= |lines[l2]| && BackIdle(BackwardMark(lines[l2], n - 1)) && rest == n - 1
    ensures FollowsGroup(lines, l, p, l2, n) <==> FollowsGroup(lines, l, p, l2, rest)
  {
    hide OneGroup, BackwardMark, BackIdle;
    if q :| EndsGroup(lines, l, p, l2, n, q) {
      if q == n - 1 {
        GroupCloses(Span(BackwardMarks(lines), l, p, l2, n));
        SpanLast(BackwardMarks(lines), l, p, l2, n);
        SpanEmptyIff(BackwardMarks(lines), l, p, l2, n);
      }
      assert EndsGroup(lines, l, p, l2, rest, q);
    }
    if q :| EndsGroup(lines, l, p, l2, rest, q) {
      assert EndsGroup(lines, l, p, l2, n, q);
    }
  }

  lemma NothingBefore(lines: seq<string>, l: nat, p: nat, l2: nat, n: nat)
    requires l2 < |lines| && n <= |lines[l2]| && l < |lines| && p < |lines[l]|
    requires n == 0 || l2 < l || (l2 == l && n <= p)
    ensures StartFrom(lines, l2, n, []) != Some((l, p)) && !FollowsGroup(lines, l, p, l2, n)
  {
    hide StepBackward, OneGroup, BackwardMark;
    if 0 < n && StartFrom(lines, l2, n, []).Some? {
      StartFromRetreats(lines, l2, n, []);
    }
    forall q: nat
      ensures !EndsGroup(lines, l, p, l2, n, q)
    {
      if EndsGroup(lines, l, p, l2, n, q) {
        GroupCloses(Span(BackwardMarks(lines), l, p, l2, q + 1));
      }
    }
  }

  lemma OnlyEndsHere(lines: seq<string>, l: nat, p: nat, l2: nat, n: nat)
    requires Precedes(lines, l, p, l2, n) && 0 < n && !BackIdle(BackwardMark(lines[l2], n - 1))
    ensures Precedes(BackwardMarks(lines), l, p, l2, n)
    ensures FollowsGroup(lines, l, p, l2, n) <==> OneGroup(Span(BackwardMarks(lines), l, p, l2, n))
  {
    hide OneGroup, BackwardMark, BackIdle;
    if q :| EndsGroup(lines, l, p, l2, n, q) {
      assert q == n - 1;
    }
    if OneGroup(Span(BackwardMarks(lines), l, p, l2, n)) {
      assert EndsGroup(lines, l, p, l2, n, n - 1);
    }
  }

  lemma {:induction false} NoCancelsBack(lines: seq<string>, l: nat, p: nat, l2: nat, n: nat)
    requires Precedes(BackwardMarks(lines), l, p, l2, n)
    ensures NoCancels(Span(BackwardMarks(lines), l, p, l2, n))
    decreases l2 - l
  {
    hide BehindOperator, AnglesFrom;
    if l < l2 {
      NoCancelsBack(lines, l + 1, 0, l2, n);
    }
  }

  // At a character that is not idle the group ends here, or the scan fails.
  lemma BackFromHere(lines: seq<string>, l: nat, p: nat, l2: nat, n: nat)
    requires Precedes(lines, l, p, l2, n) && p < |lines[l]| && 0 < n && (l < l2 || p < n)
    requires !BackIdle(BackwardMark(lines[l2], n - 1))
    ensures Precedes(BackwardMarks(lines), l, p, l2, n)
    ensures StartFrom(lines, l2, n, []) == Some((l, p)) <==> OneGroup(Span(BackwardMarks(lines), l, p, l2, n))
  {
    hide AngleGroup, IsGroup, StartFrom, Span, AngleEnd, MirrorMarks, EndsInOperator, BackwardMark;
    BackwardMarkIs(lines[l2], n - 1);
    var marked, m := BackwardMarks(lines), BackwardMark(lines[l2], n - 1);
    var ms, t := Span(marked, l, p, l2, n), Span(marked, l, p, l2, n - 1);
    SpanLast(marked, l, p, l2, n);
    assert ms == t + [m];
    if OneGroup(ms) {
      GroupCloses(ms);
    }
    SpanText(lines, marked, l, p, l2, n);
    if m.role == Closes {
      assert StepBackward(lines[l2], n - 1, []) == BackGo([] + ['>'], 0);
      StartFromGoes(lines, l2, n, [], ['>']);
      assert Angles(1, '>') + [] == ['>'];
      LinkAngleBack(lines, l, p, l2, n - 1, 1, []);
      FlatOfNothing('>');
      MirrorOneMore(t, m);
      assert ([MirrorMark(m)] + MirrorMarks(t))[1..] == MirrorMarks(t);
      AngleEndIff(MirrorMarks(ms));
      NoCancelsBack(lines, l, p, l2, n);
      AngleGroupIffMirror(ms);
    } else if IsCloser(m.c) {
      OpeningIffGroup(lines, l, p, l2, n);
      assert Opening(lines, l2, n - 1) == StartFrom(lines, l2, n, []);
    } else {
      assert StepBackward(lines[l2], n - 1, []) == BackFail;
      StartFromFails(lines, l2, n);
    }
  }

  lemma StartFromFails(lines: seq<string>, l: nat, n: nat)
    requires l < |lines| && 0 < n <= |lines[l]| && StepBackward(lines[l], n - 1, []) == BackFail
    ensures StartFrom(lines, l, n, []) == None
  {
  }

  lemma StartFromSkips(lines: seq<string>, l: nat, n: nat, extra: nat)
    requires l < |lines| && 0 < n <= |lines[l]| && StepBackward(lines[l], n - 1, []) == BackGo([], extra)
    ensures StartFrom(lines, l, n, []) == StartFrom(lines, l, n - 1 - extra, [])
  {
  }

  lemma {:induction false} BackFromNothing(lines: seq<string>, l: nat, p: nat, l2: nat, n: nat)
    requires l < |lines| && p < |lines[l]| && l2 < |lines| && n <= |lines[l2]| && Aligned(lines[l2], n)
    ensures StartFrom(lines, l2, n, []) == Some((l, p)) <==> FollowsGroup(lines, l, p, l2, n)
    decreases n
  {
    hide StepBackward, BackwardMark, StartFrom, FollowsGroup, BackIdle, Aligned;
    if n == 0 || l2 < l || (l2 == l && n <= p) {
      NothingBefore(lines, l, p, l2, n);
    } else if BackIdle(BackwardMark(lines[l2], n - 1)) {
      BackIdleStep(lines[l2], n - 1);
      var extra := StepBackward(lines[l2], n - 1, []).extra;
      StartFromSkips(lines, l2, n, extra);
      BackFromNothing(lines, l, p, l2, n - 1 - extra);
      BeforeIdle(lines, l, p, l2, n, n - 1);
      if extra == 1 {
        QuietIsIdle(BackwardMark(lines[l2], n - 2));
        BeforeIdle(lines, l, p, l2, n - 1, n - 2);
      }
    } else {
      BackFromHere(lines, l, p, l2, n);
      OnlyEndsHere(lines, l, p, l2, n);
    }
  }

  lemma QuietIsIdle(m: Mark)
    requires Quiet(m)
    ensures BackIdle(m)
  {
  }

  // From any bracket, ReverseCloseExpression stops at line l, column p exactly if the
  // text from there is one group, which ends at the bracket itself or, if that is a
  // '>' that does not count, in front of idle characters of its line.
  lemma OpeningIff(lines: seq<string>, l: nat, p: nat, l2: nat, pos: nat)
    requires l < |lines| && p < |lines[l]| && l2 < |lines| && pos < |lines[l2]|
    ensures Opening(lines, l2, pos) == Some((l, p)) <==>
            (IsCloser(lines[l2][pos]) || lines[l2][pos] == '>') && FollowsGroup(lines, l, p, l2, pos + 1)
  {
    hide FollowsGroup, StartFrom;
    if IsCloser(lines[l2][pos]) || lines[l2][pos] == '>' {
      BackFromNothing(lines, l, p, l2, pos + 1);
    }
  }
}
