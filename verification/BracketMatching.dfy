// The bracket matchers of bin/cpplint.py, forwards and backwards over the
// lines of a file, with all their angle-bracket heuristics.  Each is proved
// against a scan by single steps; BracketTheorem.dfy says what the scans find.
module BracketMatching {
  import opened Wrappers
  import opened BracketSpec

  // --- The regular expressions the matchers use. ---

  // \s and \w for ASCII text.
  predicate IsSpace(c: char) {
    c == ' ' || '\t' <= c <= '\r'
  }

  predicate IsWordChar(c: char) {
    'a' <= c <= 'z' || 'A' <= c <= 'Z' || '0' <= c <= '9' || c == '_'
  }

  // White space and the characters of words, by their codes: what the
  // laws about these expressions are stated with.
  predicate Blank(c: char) {
    c as int == 32 || 9 <= c as int <= 13
  }

  predicate InWord(c: char) {
    var n := c as int;
    48 <= n <= 57 || 65 <= n <= 90 || n == 95 || 97 <= n <= 122
  }

  function StripRight(s: string): string
    decreases |s|
  {
    if s != [] && IsSpace(s[|s| - 1]) then StripRight(s[..|s| - 1]) else s
  }

  // Search(r'\boperator\s*$', s)
  predicate EndsInOperator(s: string) {
    var t := StripRight(s);
    var n := |t| - |"operator"|;
    n >= 0 && t[n..] == "operator" && (n == 0 || !IsWordChar(t[n - 1]))
  }

  // Match(r'<[<=]', line[pos:])
  predicate IsShiftOrCompare(line: string, pos: nat)
    requires pos < |line|
  {
    line[pos] == '<' && pos + 1 < |line| && (line[pos + 1] == '<' || line[pos + 1] == '=')
  }

  // Match(r'\s>=\s', line[i - 1:])
  predicate IsSpacedGreaterEqual(line: string, i: nat)
    requires 0 < i < |line|
  {
    line[i] == '>' && i + 2 < |line| && IsSpace(line[i - 1]) && line[i + 1] == '=' && IsSpace(line[i + 2])
  }

  // Pops every angle bracket that is pending on top of the stack.
  function DropAll(stack: seq<char>, angle: char): seq<char>
    decreases |stack|
  {
    if stack != [] && stack[|stack| - 1] == angle then DropAll(stack[..|stack| - 1], angle) else stack
  }

  function Pop(stack: seq<char>): seq<char>
    requires stack != []
  {
    stack[..|stack| - 1]
  }

  // --- One character, forwards. ---

  function AfterPop(stack: seq<char>): Step
    requires stack != []
  {
    if |stack| == 1 then Done else Go(Pop(stack))
  }

  function StepForward(line: string, i: nat, stack: seq<char>): Step
    requires i < |line|
  {
    var c := line[i];
    if IsOpener(c) then Go(stack + [c])
    else if c == '<' then
      if i > 0 && line[i - 1] == '<' then
        if stack != [] && stack[|stack| - 1] == '<' then
          if |stack| == 1 then Fail else Go(Pop(stack))
        else Go(stack)
      else if i > 0 && EndsInOperator(line[..i]) then Go(stack)
      else Go(stack + ['<'])
    else if IsCloser(c) then
      var rest := DropAll(stack, '<');
      if rest == [] || rest[|rest| - 1] != Partner(c) then Fail else AfterPop(rest)
    else if c == '>' then
      if i > 0 && (line[i - 1] == '-' || EndsInOperator(line[..i - 1])) then Go(stack)
      else if stack != [] && stack[|stack| - 1] == '<' then AfterPop(stack)
      else Go(stack)
    else if c == ';' then
      var rest := DropAll(stack, '<');
      if rest == [] then Fail else Go(rest)
    else Go(stack)
  }

  // What one line yields: the column just past the end, or the pending stack.
  datatype Scan = End(pos: nat) | Broken | Pending(stack: seq<char>)

  function ScanForward(line: string, i: nat, stack: seq<char>): Scan
    decreases |line| - i
  {
    if i >= |line| then Pending(stack)
    else match StepForward(line, i, stack)
      case Done => End(i + 1)
      case Fail => Broken
      case Go(rest) => ScanForward(line, i + 1, rest)
  }

  method FindEndOfExpressionInLine(line: string, startpos: nat, stack0: seq<char>) returns (r: Scan)
    ensures r == ScanForward(line, startpos, stack0)
  {
    hide EndsInOperator;
    var stack := stack0;
    var i := startpos;
    while i < |line|
      invariant ScanForward(line, startpos, stack0) == ScanForward(line, i, stack)
    {
      var c := line[i];
      if c == '(' || c == '[' || c == '{' {
        stack := stack + [c];
      } else if c == '<' {
        if i > 0 && line[i - 1] == '<' {
          if stack != [] && stack[|stack| - 1] == '<' {
            stack := Pop(stack);
            if stack == [] {
              return Broken;
            }
          }
        } else if i > 0 && EndsInOperator(line[..i]) {
          i := i + 1;
          continue;
        } else {
          stack := stack + ['<'];
        }
      } else if c == ')' || c == ']' || c == '}' {
        stack := PopAngles(stack, '<');
        if stack == [] {
          return Broken;
        }
        var top := stack[|stack| - 1];
        if (top == '(' && c == ')') || (top == '[' && c == ']') || (top == '{' && c == '}') {
          stack := Pop(stack);
          if stack == [] {
            return End(i + 1);
          }
        } else {
          return Broken;
        }
      } else if c == '>' {
        if i > 0 && (line[i - 1] == '-' || EndsInOperator(line[..i - 1])) {
          i := i + 1;
          continue;
        }
        if stack != [] && stack[|stack| - 1] == '<' {
          stack := Pop(stack);
          if stack == [] {
            return End(i + 1);
          }
        }
      } else if c == ';' {
        stack := PopAngles(stack, '<');
        if stack == [] {
          return Broken;
        }
      }
      i := i + 1;
    }
    return Pending(stack);
  }

  // The loop that removes pending angle brackets from the stack.
  method PopAngles(stack0: seq<char>, angle: char) returns (stack: seq<char>)
    ensures stack == DropAll(stack0, angle)
  {
    stack := stack0;
    while stack != [] && stack[|stack| - 1] == angle
      invariant DropAll(stack0, angle) == DropAll(stack, angle)
      decreases |stack|
    {
      stack := Pop(stack);
    }
  }

  // Where the scan that starts in line l, column i ends: line and column just
  // past the closing bracket.
  function EndFrom(lines: seq<string>, l: nat, i: nat, stack: seq<char>): Option<(nat, nat)>
    requires l < |lines|
    decreases |lines| - l, |lines[l]| - i
  {
    if i >= |lines[l]| then
      if stack != [] && l < |lines| - 1 then EndFrom(lines, l + 1, 0, stack) else None
    else match StepForward(lines[l], i, stack)
      case Done => Some((l, i + 1))
      case Fail => None
      case Go(rest) => EndFrom(lines, l, i + 1, rest)
  }

  lemma {:induction false} EndFromLine(lines: seq<string>, l: nat, i: nat, stack: seq<char>)
    requires l < |lines|
    ensures EndFrom(lines, l, i, stack) ==
            match ScanForward(lines[l], i, stack)
            case End(e) => Some((l, e))
            case Broken => None
            case Pending(rest) => if rest != [] && l < |lines| - 1 then EndFrom(lines, l + 1, 0, rest) else None
    decreases |lines[l]| - i
  {
    hide StepForward;
    if i < |lines[l]| {
      match StepForward(lines[l], i, stack)
      case Done =>
      case Fail =>
      case Go(rest) => EndFromLine(lines, l, i + 1, rest);
    }
  }

  function Closing(lines: seq<string>, l: nat, pos: nat): Option<(nat, nat)>
    requires l < |lines| && pos < |lines[l]|
  {
    var c := lines[l][pos];
    if !(IsOpener(c) || c == '<') || IsShiftOrCompare(lines[l], pos) then None
    else EndFrom(lines, l, pos, [])
  }

  // Line and column just past the closing bracket, or (number of lines, -1).
  method CloseExpression(lines: seq<string>, linenum0: nat, pos: nat) returns (linenum: nat, endPos: int)
    requires linenum0 < |lines| && pos < |lines[linenum0]|
    ensures (linenum, endPos) == match Closing(lines, linenum0, pos)
                                 case Some((l, e)) => (l, e as int)
                                 case None => (|lines|, -1)
  {
    hide ScanForward, StepForward, EndFrom, IsShiftOrCompare;
    linenum := linenum0;
    var line := lines[linenum];
    var c := line[pos];
    if !(c == '(' || c == '{' || c == '[' || c == '<') || IsShiftOrCompare(line, pos) {
      return |lines|, -1;
    }
    EndFromLine(lines, linenum, pos, []);
    var r := FindEndOfExpressionInLine(line, pos, []);
    if r.End? {
      return linenum, r.pos;
    }
    while r.Pending? && r.stack != [] && linenum < |lines| - 1
      invariant linenum < |lines| && !r.End?
      invariant EndFrom(lines, linenum0, pos, []) ==
                if r.Pending? && r.stack != [] && linenum < |lines| - 1
                then EndFrom(lines, linenum + 1, 0, r.stack)
                else None
      decreases |lines| - linenum
    {
      linenum := linenum + 1;
      line := lines[linenum];
      EndFromLine(lines, linenum, 0, r.stack);
      r := FindEndOfExpressionInLine(line, 0, r.stack);
      if r.End? {
        return linenum, r.pos;
      }
    }
    return |lines|, -1;
  }

  // --- One character, backwards. ---

  // Go also says how many further characters to step over.
  datatype BackStep = BackDone | BackFail | BackGo(stack: seq<char>, extra: nat)

  function BackAfterPop(stack: seq<char>): BackStep
    requires stack != []
  {
    if |stack| == 1 then BackDone else BackGo(Pop(stack), 0)
  }

  function StepBackward(line: string, i: nat, stack: seq<char>): BackStep
    requires i < |line|
  {
    var c := line[i];
    if IsCloser(c) then BackGo(stack + [c], 0)
    else if c == '>' then
      if i > 0 && (line[i - 1] == '-' || IsSpacedGreaterEqual(line, i) || EndsInOperator(line[..i]))
      then BackGo(stack, 1)
      else BackGo(stack + ['>'], 0)
    else if c == '<' then
      if i > 0 && line[i - 1] == '<' then BackGo(stack, 1)
      else if stack != [] && stack[|stack| - 1] == '>' then BackAfterPop(stack)
      else BackGo(stack, 0)
    else if IsOpener(c) then
      var rest := DropAll(stack, '>');
      if rest == [] || rest[|rest| - 1] != Partner(c) then BackFail else BackAfterPop(rest)
    else if c == ';' then
      var rest := DropAll(stack, '>');
      if rest == [] then BackFail else BackGo(rest, 0)
    else BackGo(stack, 0)
  }

  // n characters of the line are still to be read, from the right.
  function ScanBackward(line: string, n: int, stack: seq<char>): Scan
    requires n <= |line|
    decreases n
  {
    if n <= 0 then Pending(stack)
    else match StepBackward(line, n - 1, stack)
      case BackDone => End(n - 1)
      case BackFail => Broken
      case BackGo(rest, extra) => ScanBackward(line, n - 1 - extra, rest)
  }

  method FindStartOfExpressionInLine(line: string, endpos: int, stack0: seq<char>) returns (r: Scan)
    requires endpos < |line|
    ensures r == ScanBackward(line, endpos + 1, stack0)
  {
    hide EndsInOperator, IsSpacedGreaterEqual;
    var stack := stack0;
    var i := endpos;
    while i >= 0
      invariant i < |line|
      invariant ScanBackward(line, endpos + 1, stack0) == ScanBackward(line, i + 1, stack)
      decreases i
    {
      var c := line[i];
      if c == ')' || c == ']' || c == '}' {
        stack := stack + [c];
      } else if c == '>' {
        if i > 0 && (line[i - 1] == '-' || IsSpacedGreaterEqual(line, i) || EndsInOperator(line[..i])) {
          i := i - 1;
        } else {
          stack := stack + ['>'];
        }
      } else if c == '<' {
        if i > 0 && line[i - 1] == '<' {
          i := i - 1;
        } else {
          if stack != [] && stack[|stack| - 1] == '>' {
            stack := Pop(stack);
            if stack == [] {
              return End(i);
            }
          }
        }
      } else if c == '(' || c == '[' || c == '{' {
        stack := PopAngles(stack, '>');
        if stack == [] {
          return Broken;
        }
        var top := stack[|stack| - 1];
        if (c == '(' && top == ')') || (c == '[' && top == ']') || (c == '{' && top == '}') {
          stack := Pop(stack);
          if stack == [] {
            return End(i);
          }
        } else {
          return Broken;
        }
      } else if c == ';' {
        stack := PopAngles(stack, '>');
        if stack == [] {
          return Broken;
        }
      }
      i := i - 1;
    }
    return Pending(stack);
  }

  // Where the backward scan with n characters of line l to go ends: line and
  // column of the opening bracket.
  function StartFrom(lines: seq<string>, l: nat, n: int, stack: seq<char>): Option<(nat, nat)>
    requires l < |lines| && n <= |lines[l]|
    decreases l, n
  {
    if n <= 0 then
      if stack != [] && l > 0 then StartFrom(lines, l - 1, |lines[l - 1]|, stack) else None
    else match StepBackward(lines[l], n - 1, stack)
      case BackDone => Some((l, n - 1))
      case BackFail => None
      case BackGo(rest, extra) => StartFrom(lines, l, n - 1 - extra, rest)
  }

  lemma {:induction false} StartFromLine(lines: seq<string>, l: nat, n: int, stack: seq<char>)
    requires l < |lines| && n <= |lines[l]|
    ensures StartFrom(lines, l, n, stack) ==
            match ScanBackward(lines[l], n, stack)
            case End(p) => Some((l, p))
            case Broken => None
            case Pending(rest) => if rest != [] && l > 0 then StartFrom(lines, l - 1, |lines[l - 1]|, rest) else None
    decreases n
  {
    hide StepBackward;
    if n > 0 {
      match StepBackward(lines[l], n - 1, stack)
      case BackDone =>
      case BackFail =>
      case BackGo(rest, extra) => StartFromLine(lines, l, n - 1 - extra, rest);
    }
  }

  function Opening(lines: seq<string>, l: nat, pos: nat): Option<(nat, nat)>
    requires l < |lines| && pos < |lines[l]|
  {
    if !(IsCloser(lines[l][pos]) || lines[l][pos] == '>') then None else StartFrom(lines, l, pos + 1, [])
  }

  // Line and column of the opening bracket, or (0, -1).
  method ReverseCloseExpression(lines: seq<string>, linenum0: nat, pos: nat) returns (linenum: nat, startPos: int)
    requires linenum0 < |lines| && pos < |lines[linenum0]|
    ensures (linenum, startPos) == match Opening(lines, linenum0, pos)
                                   case Some((l, p)) => (l, p as int)
                                   case None => (0, -1)
  {
    hide ScanBackward, StepBackward, StartFrom;
    linenum := linenum0;
    var line := lines[linenum];
    var c := line[pos];
    if !(c == ')' || c == '}' || c == ']' || c == '>') {
      return 0, -1;
    }
    StartFromLine(lines, linenum, pos + 1, []);
    var r := FindStartOfExpressionInLine(line, pos, []);
    if r.End? {
      return linenum, r.pos;
    }
    while r.Pending? && r.stack != [] && linenum > 0
      invariant linenum < |lines| && !r.End?
      invariant StartFrom(lines, linenum0, pos + 1, []) ==
                if r.Pending? && r.stack != [] && linenum > 0
                then StartFrom(lines, linenum - 1, |lines[linenum - 1]|, r.stack) else None
      decreases linenum
    {
      linenum := linenum - 1;
      line := lines[linenum];
      StartFromLine(lines, linenum, |line|, r.stack);
      r := FindStartOfExpressionInLine(line, |line| - 1, r.stack);
      if r.End? {
        return linenum, r.pos;
      }
    }
    return 0, -1;
  }
}
