// Balanced bracket groups, defined by their shape, and the stack machine that
// recognises them.  Brackets are the round, square and curly ones; an angle bracket
// is a character like any other.
module BracketSpec {

  predicate IsOpener(c: char) { c == '(' || c == '[' || c == '{' }

  predicate IsCloser(c: char) { c == ')' || c == ']' || c == '}' }

  predicate IsBracket(c: char) { IsOpener(c) || IsCloser(c) }

  // A character that is neither a bracket nor the end of a statement.
  predicate Inert(c: char) { !IsBracket(c) && c != ';' }

  // The other half of a bracket; other characters are left alone.
  function Partner(c: char): char {
    match c
    case '(' => ')'
    case ')' => '('
    case '[' => ']'
    case ']' => '['
    case '{' => '}'
    case '}' => '{'
    case _ => c
  }

  // Every bracket of s is closed, by its own kind and in the right order.
  ghost predicate Balanced(s: string)
    decreases |s|
  {
    || s == []
    || (!IsBracket(s[0]) && Balanced(s[1..]))
    || exists k :: IsSplit(s, k) && Balanced(s[1..k]) && Balanced(s[k + 1..])
  }

  // s[0] opens and s[k] closes.
  predicate IsSplit(s: string, k: int) {
    0 < k < |s| && IsOpener(s[0]) && s[k] == Partner(s[0])
  }

  // s is one bracketed group: opener, balanced text, closer.
  ghost predicate IsGroup(s: string) {
    IsSplit(s, |s| - 1) && Balanced(s[1..|s| - 1])
  }

  // --- The machine. ---

  datatype Step = Done | Fail | Go(stack: seq<char>)

  function FlatStep(stack: seq<char>, c: char): Step {
    if IsOpener(c) then Go(stack + [c])
    else if IsCloser(c) then
      if stack == [] || stack[|stack| - 1] != Partner(c) then Fail
      else if |stack| == 1 then Done
      else Go(stack[..|stack| - 1])
    else if c == ';' && stack == [] then Fail
    else Go(stack)
  }

  // Found(n): the stack first ran empty after n characters.
  datatype Outcome = Found(n: nat) | Failed | Open(stack: seq<char>)

  function Later(r: Outcome, n: nat): Outcome {
    if r.Found? then Found(r.n + n) else r
  }

  function Run(stack: seq<char>, s: string): Outcome
    decreases |s|
  {
    if s == [] then Open(stack)
    else match FlatStep(stack, s[0])
      case Done => Found(1)
      case Fail => Failed
      case Go(rest) => Later(Run(rest, s[1..]), 1)
  }

  // Reading on after s.
  lemma {:induction false} RunOn(stack: seq<char>, s: string, t: string)
    ensures Run(stack, s + t) == match Run(stack, s)
                                 case Open(rest) => Later(Run(rest, t), |s|)
                                 case r => r
    decreases |s|
  {
    hide FlatStep;
    if s == [] {
      assert s + t == t;
    } else {
      assert (s + t)[1..] == s[1..] + t;
      match FlatStep(stack, s[0])
      case Go(rest) => RunOn(rest, s[1..], t);
      case _ =>
    }
  }

  // Balanced text leaves the stack as it was.
  lemma {:induction false} BalancedKeepsStack(stack: seq<char>, s: string)
    requires stack != [] && Balanced(s)
    ensures Run(stack, s) == Open(stack)
    decreases |s|
  {
    if s == [] {
    } else if !IsBracket(s[0]) && Balanced(s[1..]) {
      BalancedKeepsStack(stack, s[1..]);
    } else {
      var k :| IsSplit(s, k) && Balanced(s[1..k]) && Balanced(s[k + 1..]);
      BalancedKeepsStack(stack + [s[0]], s[1..k]);
      BalancedKeepsStack(stack, s[k + 1..]);
      hide Balanced;
      GroupKeepsStack(stack, s, k);
    }
  }

  lemma GroupKeepsStack(stack: seq<char>, s: string, k: int)
    requires stack != [] && IsSplit(s, k)
    requires Run(stack + [s[0]], s[1..k]) == Open(stack + [s[0]]) && Run(stack, s[k + 1..]) == Open(stack)
    ensures Run(stack, s) == Open(stack)
  {
    var more, tail := stack + [s[0]], s[k..];
    assert tail[0] == Partner(s[0]) && tail[1..] == s[k + 1..];
    CloserPops(stack, s[0], tail);
    assert s[1..] == s[1..k] + tail;
    RunOn(more, s[1..k], tail);
  }

  lemma CloserPops(stack: seq<char>, o: char, s: string)
    requires stack != [] && IsOpener(o) && s != [] && s[0] == Partner(o)
    ensures Run(stack + [o], s) == Later(Run(stack, s[1..]), 1)
  {
    assert (stack + [o])[..|stack|] == stack;
  }

  lemma BalancedTextIsSkipped(stack: seq<char>, s: string, rest: string)
    requires stack != [] && Balanced(s)
    ensures Run(stack, s + rest) == Later(Run(stack, rest), |s|)
  {
    BalancedKeepsStack(stack, s);
    RunOn(stack, s, rest);
  }

  // The character k of s is the first that closes o.
  ghost predicate ClosesAt(stack: seq<char>, o: char, s: string, k: nat) {
    && k < |s| && Balanced(s[..k]) && s[k] == Partner(o)
    && Run(stack + [o], s) == if stack == [] then Found(k + 1) else Later(Run(stack, s[k + 1..]), k + 1)
  }

  lemma ClosedAfterOther(stack: seq<char>, o: char, s: string, j: nat)
    requires s != [] && !IsBracket(s[0]) && FlatStep(stack + [o], s[0]) == Go(stack + [o])
    requires ClosesAt(stack, o, s[1..], j)
    ensures ClosesAt(stack, o, s, j + 1)
  {
    hide FlatStep;
    assert s[..j + 1][1..] == s[1..][..j];
    assert s[1..][j + 1..] == s[j + 2..];
    hide Balanced;
  }

  lemma ClosedAfterGroup(stack: seq<char>, o: char, s: string, i: nat, j: nat)
    requires s != [] && IsOpener(s[0])
    requires ClosesAt(stack + [o], s[0], s[1..], i)
    requires ClosesAt(stack, o, s[i + 2..], j)
    ensures ClosesAt(stack, o, s, i + 2 + j)
  {
    var k := i + 2 + j;
    var tail := s[i + 2..];
    assert Balanced(s[..k]) by {
      hide Run;
      assert s[..k][1..i + 1] == s[1..][..i] && s[..k][i + 2..] == tail[..j];
      assert IsSplit(s[..k], i + 1);
    }
    hide Balanced;
    assert Run(stack + [o], s) == Later(Run(stack + [o] + [s[0]], s[1..]), 1);
    assert s[1..][i + 1..] == tail;
    assert tail[j + 1..] == s[k + 1..];
  }

  // If the machine finds an end with o on top of the stack, it has met balanced
  // text and then the closer of o.
  lemma {:induction false} FoundMeansClosed(stack: seq<char>, o: char, s: string) returns (k: nat)
    requires IsOpener(o) && Run(stack + [o], s).Found?
    ensures ClosesAt(stack, o, s, k)
    decreases |s|
  {
    hide Balanced;
    var more := stack + [o];
    assert more[..|more| - 1] == stack;
    if IsCloser(s[0]) {
      k := 0;
      BalancedNothing();
    } else if IsOpener(s[0]) {
      var i := FoundMeansClosed(more, s[0], s[1..]);
      assert s[1..][i + 1..] == s[i + 2..];
      var j := FoundMeansClosed(stack, o, s[i + 2..]);
      ClosedAfterGroup(stack, o, s, i, j);
      k := i + 2 + j;
    } else {
      var j := FoundMeansClosed(stack, o, s[1..]);
      ClosedAfterOther(stack, o, s, j);
      k := j + 1;
    }
  }

  lemma BalancedNothing()
    ensures Balanced([])
  {
  }

  // From an opener, the machine stops at the end of s exactly if s is a group.
  lemma {:induction false} RunFindsGroups(s: string)
    requires s != [] && IsOpener(s[0])
    ensures Run([], s) == Found(|s|) <==> IsGroup(s)
  {
    hide Balanced;
    var o, t := s[0], s[1..];
    assert [] + [o] == [o];
    if Run([], s) == Found(|s|) {
      var k := FoundMeansClosed([], o, t);
      assert t[..k] == s[1..|s| - 1];
    }
    if IsGroup(s) {
      var inner, closer := s[1..|s| - 1], s[|s| - 1];
      assert t == inner + [closer];
      BalancedTextIsSkipped([o], inner, [closer]);
    }
  }

  // --- What each outcome means. ---

  lemma {:induction false} FoundInside(stack: seq<char>, s: string)
    ensures Run(stack, s).Found? ==> 0 < Run(stack, s).n <= |s|
    decreases |s|
  {
    hide FlatStep;
    if s != [] {
      match FlatStep(stack, s[0])
      case Go(rest) => FoundInside(rest, s[1..]);
      case _ =>
    }
  }

  ghost predicate AllOpeners(stack: seq<char>) {
    forall i | 0 <= i < |stack| :: IsOpener(stack[i])
  }

  lemma {:induction false} OpenStack(stack: seq<char>, s: string)
    requires AllOpeners(stack)
    ensures Run(stack, s).Open? ==> AllOpeners(Run(stack, s).stack)
    ensures Run(stack, s).Open? && stack != [] ==> Run(stack, s).stack != []
    decreases |s|
  {
    if s != [] {
      match FlatStep(stack, s[0])
      case Go(rest) => OpenStack(rest, s[1..]);
      case _ =>
    }
  }

  // What closes a stack: the partners of its openers, from the top down.
  function Closers(stack: seq<char>): (t: string)
    ensures |t| == |stack|
  {
    if stack == [] then [] else [Partner(stack[|stack| - 1])] + Closers(stack[..|stack| - 1])
  }

  lemma {:induction false} ClosersClose(stack: seq<char>)
    requires stack != [] && AllOpeners(stack)
    ensures Run(stack, Closers(stack)) == Found(|stack|)
    decreases |stack|
  {
    var t := Closers(stack);
    assert t[0] == Partner(stack[|stack| - 1]) && t[1..] == Closers(stack[..|stack| - 1]);
    assert Partner(t[0]) == stack[|stack| - 1];
    if |stack| > 1 {
      ClosersClose(stack[..|stack| - 1]);
    }
  }

  // s can be completed to a group.
  ghost predicate Completable(s: string) {
    exists t: string :: t != [] && IsGroup(s + t)
  }

  // From an opener the machine stops after n characters exactly if these are a
  // group, runs on exactly if s can still be completed to one, and so fails
  // exactly if no prefix of s is a group and no continuation makes it one.
  lemma RunTrichotomy(s: string)
    requires s != [] && IsOpener(s[0])
    ensures forall n: nat :: Run([], s) == Found(n) <==> n <= |s| && IsGroup(s[..n])
    ensures Run([], s).Open? <==> Completable(s)
    ensures Run([], s) == Failed <==> !Completable(s) && forall n: nat | n <= |s| :: !IsGroup(s[..n])
  {
    hide Balanced, Run, Closers;
    FoundInside([], s);
    forall n: nat
      ensures Run([], s) == Found(n) <==> n <= |s| && IsGroup(s[..n])
    {
      if 0 < n <= |s| {
        FoundAtIff(s, n);
      }
    }
    if Run([], s).Open? {
      OpenIsCompletable(s);
    }
    if t: string :| t != [] && IsGroup(s + t) {
      RunFindsGroups(s + t);
      RunOn([], s, t);
    }
  }

  lemma FoundAtIff(s: string, n: nat)
    requires 0 < n <= |s| && IsOpener(s[0])
    ensures Run([], s) == Found(n) <==> IsGroup(s[..n])
  {
    hide Balanced, Run;
    var head, tail := s[..n], s[n..];
    assert s == head + tail;
    RunOn([], head, tail);
    FoundInside([], head);
    RunFindsGroups(head);
    match Run([], head)
    case Open(rest) => FoundInside(rest, tail);
    case _ =>
  }

  lemma OpenIsCompletable(s: string)
    requires s != [] && IsOpener(s[0]) && Run([], s).Open?
    ensures Completable(s)
  {
    var o, rest := s[0], s[1..];
    assert [] + [o] == [o];
    OpenStack([o], rest);
    var stack := Run([], s).stack;
    hide Balanced, Run;
    ClosersClose(stack);
    RunOn([], s, Closers(stack));
    RunFindsGroups(s + Closers(stack));
  }

  // --- Reading backwards is reading the mirror image forwards. ---

  function Mirror(s: string): (r: string)
    ensures |r| == |s|
    ensures forall i | 0 <= i < |s| :: r[i] == Partner(s[|s| - 1 - i])
  {
    seq(|s|, i requires 0 <= i < |s| => Partner(s[|s| - 1 - i]))
  }

  lemma {:induction false} BalancedConcat(s: string, t: string)
    requires Balanced(s) && Balanced(t)
    ensures Balanced(s + t)
    decreases |s|
  {
    if s == [] {
      assert s + t == t;
    } else if !IsBracket(s[0]) && Balanced(s[1..]) {
      BalancedConcat(s[1..], t);
      assert (s + t)[1..] == s[1..] + t;
    } else {
      var k :| IsSplit(s, k) && Balanced(s[1..k]) && Balanced(s[k + 1..]);
      hide Balanced;
      BalancedConcat(s[k + 1..], t);
      GroupThenBalanced(s, t, k);
    }
  }

  lemma GroupThenBalanced(s: string, t: string, k: int)
    requires IsSplit(s, k) && Balanced(s[1..k]) && Balanced(s[k + 1..] + t)
    ensures Balanced(s + t)
  {
    assert IsSplit(s + t, k);
    assert (s + t)[1..k] == s[1..k] && (s + t)[k + 1..] == s[k + 1..] + t;
  }

  lemma {:induction false} MirrorOfGroup(s: string)
    requires IsSplit(s, |s| - 1)
    ensures IsSplit(Mirror(s), |s| - 1) && Mirror(s)[1..|s| - 1] == Mirror(s[1..|s| - 1])
  {
  }

  lemma {:induction false} MirrorKeepsBalance(s: string)
    requires Balanced(s)
    ensures Balanced(Mirror(s))
    decreases |s|
  {
    if s == [] {
    } else if !IsBracket(s[0]) && Balanced(s[1..]) {
      MirrorKeepsBalance(s[1..]);
      assert Balanced([s[0]]) by { assert [s[0]][1..] == []; }
      BalancedConcat(Mirror(s[1..]), [s[0]]);
      assert Mirror(s) == Mirror(s[1..]) + [s[0]];
    } else {
      var k :| IsSplit(s, k) && Balanced(s[1..k]) && Balanced(s[k + 1..]);
      MirrorKeepsBalance(s[1..k]);
      MirrorKeepsBalance(s[k + 1..]);
      MirrorOfGroupThen(s, k);
    }
  }

  lemma MirrorOfGroupThen(s: string, k: nat)
    requires IsSplit(s, k) && Balanced(Mirror(s[1..k])) && Balanced(Mirror(s[k + 1..]))
    ensures Balanced(Mirror(s))
  {
    var group, rest := s[..k + 1], s[k + 1..];
    assert group[1..k] == s[1..k];
    MirrorOfGroup(group);
    GroupIsBalanced(Mirror(group));
    BalancedConcat(Mirror(rest), Mirror(group));
    hide Balanced;
    assert Mirror(s) == Mirror(rest) + Mirror(group);
  }

  lemma GroupIsBalanced(s: string)
    requires IsGroup(s)
    ensures Balanced(s)
  {
    assert s[|s|..] == [] && IsSplit(s, |s| - 1);
  }

  lemma MirrorTwice(s: string)
    ensures Mirror(Mirror(s)) == s
  {
  }

  lemma {:induction false} MirrorKeepsGroup(s: string)
    requires IsGroup(s)
    ensures IsGroup(Mirror(s))
  {
    MirrorOfGroup(s);
    MirrorKeepsBalance(s[1..|s| - 1]);
  }

  lemma GroupIffMirror(s: string)
    ensures IsGroup(s) <==> IsGroup(Mirror(s))
  {
    MirrorTwice(s);
    if IsGroup(s) {
      MirrorKeepsGroup(s);
    }
    if IsGroup(Mirror(s)) {
      MirrorKeepsGroup(Mirror(s));
    }
  }
}
