// NestingState.UpdatePreprocessor of bin/cpplint.py: how #if, #else and #endif
// save and restore the nesting stack.
//
// Blocks of type B are whatever the rest of the checker keeps on its stack.
module Preprocessor {
  import opened Wrappers
  import opened BracketMatching

  datatype PreprocessorInfo<B> = PreprocessorInfo(stackBeforeIf: seq<B>, stackBeforeElse: seq<B>, seenElse: bool)

  datatype Directive = IfDirective | ElseDirective | EndifDirective | NoDirective

  // --- The regular expressions. ---

  function SkipSpace(s: string): string
    decreases |s|
  {
    if s != [] && IsSpace(s[0]) then SkipSpace(s[1..]) else s
  }

  function FirstWord(s: string): string
    decreases |s|
  {
    if s != [] && IsWordChar(s[0]) then [s[0]] + FirstWord(s[1..]) else []
  }

  // ^\s*#\s*(if|ifdef|ifndef)\b, ^\s*#\s*(else|elif)\b, ^\s*#\s*endif\b
  function Classify(line: string): Directive {
    var s := SkipSpace(line);
    if s == [] || s[0] != '#' then NoDirective
    else
      var w := FirstWord(SkipSpace(s[1..]));
      if w == "if" || w == "ifdef" || w == "ifndef" then IfDirective
      else if w == "else" || w == "elif" then ElseDirective
      else if w == "endif" then EndifDirective
      else NoDirective
  }

  // --- What a directive looks like. ---

  ghost predicate AllBlank(s: string) {
    forall i | 0 <= i < |s| :: Blank(s[i])
  }

  // The line is '#' with blanks on both sides, then the word, then its end.
  ghost predicate IsDirective(line: string, a: string, b: string, w: string, rest: string) {
    && line == a + "#" + b + w + rest && AllBlank(a) && AllBlank(b)
    && (rest == [] || !InWord(rest[0]))
  }

  ghost predicate StartsWith(line: string, w: string) {
    exists a, b, rest :: IsDirective(line, a, b, w, rest)
  }

  ghost predicate IsIf(line: string) {
    StartsWith(line, "if") || StartsWith(line, "ifdef") || StartsWith(line, "ifndef")
  }

  ghost predicate IsElse(line: string) {
    StartsWith(line, "else") || StartsWith(line, "elif")
  }

  ghost predicate IsEndif(line: string) {
    StartsWith(line, "endif")
  }

  lemma {:induction false} SkipsBlanks(a: string, rest: string)
    requires AllBlank(a) && (rest == [] || !Blank(rest[0]))
    ensures SkipSpace(a + rest) == rest
    decreases |a|
  {
    if a == [] {
      assert a + rest == rest;
    } else {
      assert (a + rest)[1..] == a[1..] + rest;
      SkipsBlanks(a[1..], rest);
    }
  }

  lemma {:induction false} SkippedBlanks(s: string) returns (a: string)
    ensures AllBlank(a) && s == a + SkipSpace(s)
    decreases |s|
  {
    if s != [] && IsSpace(s[0]) {
      a := SkippedBlanks(s[1..]);
      a := [s[0]] + a;
    } else {
      a := [];
    }
  }

  lemma {:induction false} WordIsFirst(w: string, rest: string)
    requires (forall i | 0 <= i < |w| :: InWord(w[i])) && (rest == [] || !InWord(rest[0]))
    ensures FirstWord(w + rest) == w
    decreases |w|
  {
    if w == [] {
      assert w + rest == rest;
    } else {
      assert (w + rest)[1..] == w[1..] + rest;
      WordIsFirst(w[1..], rest);
    }
  }

  lemma {:induction false} FirstWordIs(s: string) returns (rest: string)
    ensures s == FirstWord(s) + rest && (rest == [] || !InWord(rest[0]))
    ensures forall i | 0 <= i < |FirstWord(s)| :: InWord(FirstWord(s)[i])
    decreases |s|
  {
    if s != [] && IsWordChar(s[0]) {
      rest := FirstWordIs(s[1..]);
    } else {
      rest := s;
    }
  }

  // The word of a directive, if the line is one.
  function DirectiveWord(line: string): Option<string> {
    var s := SkipSpace(line);
    if s == [] || s[0] != '#' then None else Some(FirstWord(SkipSpace(s[1..])))
  }

  lemma DirectiveWordIff(line: string, w: string)
    requires w != [] && forall i | 0 <= i < |w| :: InWord(w[i])
    ensures DirectiveWord(line) == Some(w) <==> StartsWith(line, w)
  {
    hide SkipSpace, FirstWord;
    if a, b, rest :| IsDirective(line, a, b, w, rest) {
      assert line == a + (['#'] + (b + (w + rest)));
      SkipsBlanks(a, ['#'] + (b + (w + rest)));
      assert (['#'] + (b + (w + rest)))[1..] == b + (w + rest);
      SkipsBlanks(b, w + rest);
      WordIsFirst(w, rest);
    }
    if DirectiveWord(line) == Some(w) {
      var a := SkippedBlanks(line);
      var t := SkipSpace(line)[1..];
      var b := SkippedBlanks(t);
      var rest := FirstWordIs(SkipSpace(t));
      assert SkipSpace(line) == "#" + t;
      assert IsDirective(line, a, b, w, rest);
    }
  }

  // Which lines count as directives.
  lemma ClassifyIff(line: string)
    ensures Classify(line) == IfDirective <==> IsIf(line)
    ensures Classify(line) == ElseDirective <==> IsElse(line)
    ensures Classify(line) == EndifDirective <==> IsEndif(line)
  {
    hide StartsWith;
    DirectiveWordIff(line, "if");
    DirectiveWordIff(line, "ifdef");
    DirectiveWordIff(line, "ifndef");
    DirectiveWordIff(line, "else");
    DirectiveWordIff(line, "elif");
    DirectiveWordIff(line, "endif");
  }

  // --- One line. ---

  datatype State<B> = State(stack: seq<B>, ppStack: seq<PreprocessorInfo<B>>)

  function Step<B>(s: State<B>, d: Directive): State<B> {
    var n := |s.ppStack| - 1;
    match d
    case IfDirective => s.(ppStack := s.ppStack + [PreprocessorInfo(s.stack, [], false)])
    case ElseDirective =>
      if n < 0 then s
      else
        var top := s.ppStack[n];
        var marked := if top.seenElse then top else PreprocessorInfo(top.stackBeforeIf, s.stack, true);
        State(top.stackBeforeIf, s.ppStack[n := marked])
    case EndifDirective =>
      if n < 0 then s
      else
        var top := s.ppStack[n];
        State(if top.seenElse then top.stackBeforeElse else s.stack, s.ppStack[..n])
    case NoDirective => s
  }

  class NestingState<B> {
    var stack: seq<B>
    var ppStack: seq<PreprocessorInfo<B>>

    constructor ()
      ensures stack == [] && ppStack == []
    {
      stack, ppStack := [], [];
    }

    method UpdatePreprocessor(line: string)
      modifies this
      ensures State(stack, ppStack) == Step(old(State(stack, ppStack)), Classify(line))
      ensures old(ppStack) == [] && !IsIf(line) ==> stack == old(stack) && ppStack == []
      ensures !IsIf(line) && !IsElse(line) && !IsEndif(line) ==> stack == old(stack) && ppStack == old(ppStack)
      ensures |ppStack| == |old(ppStack)| + if IsIf(line) then 1
                                            else if IsEndif(line) && old(ppStack) != [] then -1 else 0
    {
      ClassifyIff(line);
      hide Classify, IsIf, IsElse, IsEndif;
      var d := Classify(line);
      if d == IfDirective {
        ppStack := ppStack + [PreprocessorInfo(stack, [], false)];
      } else if d == ElseDirective {
        if ppStack != [] {
          var n := |ppStack| - 1;
          if !ppStack[n].seenElse {
            ppStack := ppStack[n := ppStack[n].(seenElse := true)];
            ppStack := ppStack[n := ppStack[n].(stackBeforeElse := stack)];
          }
          stack := ppStack[n].stackBeforeIf;
        }
      } else if d == EndifDirective {
        if ppStack != [] {
          var n := |ppStack| - 1;
          if ppStack[n].seenElse {
            stack := ppStack[n].stackBeforeElse;
          }
          ppStack := ppStack[..n];
        }
      }
    }
  }

  // --- Whole files. ---

  // A line of a file, and what the rest of the checker does to the stack after
  // UpdatePreprocessor has seen it.
  datatype Line<!B> = Line(text: string, change: seq<B> -> seq<B>)

  function Read<B>(s: State<B>, line: Line<B>): State<B> {
    var t := Step(s, Classify(line.text));
    t.(stack := line.change(t.stack))
  }

  function Run<B>(s: State<B>, lines: seq<Line<B>>): State<B>
    decreases |lines|
  {
    if lines == [] then s else Run(Read(s, lines[0]), lines[1..])
  }

  // Well-nested source text: plain lines, and conditionals with a first branch
  // and any number of #else or #elif branches after it.
  datatype Source<!B> =
    | Empty
    | Plain(line: Line<B>, rest: Source<B>)
    | Conditional(start: Line<B>, first: Source<B>, others: Branches<B>, end: Line<B>, rest: Source<B>)

  datatype Branches<!B> = NoMore | Branch(start: Line<B>, body: Source<B>, more: Branches<B>)

  // Each line is the directive that its place asks for, or none.
  ghost predicate WellNested<B>(src: Source<B>)
    decreases src
  {
    match src
    case Empty => true
    case Plain(line, rest) => !IsIf(line.text) && !IsElse(line.text) && !IsEndif(line.text) && WellNested(rest)
    case Conditional(start, first, others, end, rest) =>
      IsIf(start.text) && WellNested(first) && WellNestedBranches(others) && IsEndif(end.text) && WellNested(rest)
  }

  ghost predicate WellNestedBranches<B>(branches: Branches<B>)
    decreases branches
  {
    match branches
    case NoMore => true
    case Branch(start, body, more) => IsElse(start.text) && WellNested(body) && WellNestedBranches(more)
  }

  function Lines<B>(src: Source<B>): seq<Line<B>>
    decreases src
  {
    match src
    case Empty => []
    case Plain(line, rest) => [line] + Lines(rest)
    case Conditional(start, first, others, end, rest) =>
      [start] + Lines(first) + BranchLines(others) + [end] + Lines(rest)
  }

  function BranchLines<B>(branches: Branches<B>): seq<Line<B>>
    decreases branches
  {
    match branches
    case NoMore => []
    case Branch(start, body, more) => [start] + Lines(body) + BranchLines(more)
  }

  // What the text means if the first branch of every conditional is taken: the
  // lines of the other branches do nothing.
  function Meaning<B>(src: Source<B>, stack: seq<B>): seq<B>
    decreases src
  {
    match src
    case Empty => stack
    case Plain(line, rest) => Meaning(rest, line.change(stack))
    case Conditional(start, first, _, end, rest) =>
      Meaning(rest, end.change(Meaning(first, start.change(stack))))
  }

  lemma {:induction false} RunConcat<B>(s: State<B>, ls: seq<Line<B>>, ms: seq<Line<B>>)
    ensures Run(s, ls + ms) == Run(Run(s, ls), ms)
    decreases |ls|
  {
    if ls == [] {
      assert ls + ms == ms;
    } else {
      assert (ls + ms)[1..] == ls[1..] + ms;
      RunConcat(Read(s, ls[0]), ls[1..], ms);
    }
  }

  lemma RunOne<B>(s: State<B>, line: Line<B>)
    ensures Run(s, [line]) == Read(s, line)
  {
    assert [line][1..] == [];
  }

  // After #endif the stack is the one the first branch left, whatever the other
  // branches did, and the stack of open conditionals is back where it was.
  lemma {:induction false} FirstBranchWins<B>(src: Source<B>, s: State<B>)
    requires WellNested(src)
    ensures Run(s, Lines(src)) == State(Meaning(src, s.stack), s.ppStack)
    decreases src
  {
    hide Classify, IsIf, IsElse, IsEndif;
    match src
    case Empty =>
    case Plain(line, rest) =>
      RunConcat(s, [line], Lines(rest));
      RunOne(s, line);
      ClassifyIff(line.text);
      FirstBranchWins(rest, s.(stack := line.change(s.stack)));
    case Conditional(start, first, others, end, rest) =>
      var open := Read(s, start);
      ClassifyIff(start.text);
      ClassifyIff(end.text);
      var before := [start] + Lines(first) + BranchLines(others);
      RunConcat(s, before + [end], Lines(rest));
      RunConcat(s, before, [end]);
      RunConcat(s, [start] + Lines(first), BranchLines(others));
      RunConcat(s, [start], Lines(first));
      RunOne(s, start);
      FirstBranchWins(first, open);
      var after := State(Meaning(first, open.stack), open.ppStack);
      LaterBranchesAreUndone(others, after);
      var last := Run(after, BranchLines(others));
      RunOne(last, end);
      assert last.ppStack[..|last.ppStack| - 1] == s.ppStack;
      FirstBranchWins(rest, State(end.change(after.stack), s.ppStack));
  }

  // The stack that #endif will restore.
  function Kept<B>(s: State<B>): seq<B>
    requires s.ppStack != []
  {
    var top := s.ppStack[|s.ppStack| - 1];
    if top.seenElse then top.stackBeforeElse else s.stack
  }

  lemma {:induction false} LaterBranchesAreUndone<B>(branches: Branches<B>, s: State<B>)
    requires WellNestedBranches(branches) && s.ppStack != []
    ensures var t := Run(s, BranchLines(branches));
            && |t.ppStack| == |s.ppStack|
            && t.ppStack[..|s.ppStack| - 1] == s.ppStack[..|s.ppStack| - 1]
            && Kept(t) == Kept(s)
    decreases branches
  {
    hide Classify, IsIf, IsElse, IsEndif;
    match branches
    case NoMore =>
    case Branch(start, body, more) =>
      var t := Read(s, start);
      ClassifyIff(start.text);
      RunConcat(s, [start] + Lines(body), BranchLines(more));
      RunConcat(s, [start], Lines(body));
      RunOne(s, start);
      FirstBranchWins(body, t);
      LaterBranchesAreUndone(more, State(Meaning(body, t.stack), t.ppStack));
  }
}
