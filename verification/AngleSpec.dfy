// Groups that an angle bracket opens, defined by their shape, and the machine
// that recognises them.  Whether an angle bracket of a line counts at all is
// said by its mark, which AngleTheorem.dfy reads off its neighbours.
module AngleSpec {
  import opened Wrappers
  import opened BracketSpec

  // Opens: opens a template argument list.  Closes: closes one.  Cancels: the
  // second half of "<<", which takes a pending '<' back.
  datatype Role = Opens | Closes | Cancels | Other

  datatype RawMark = Mark(c: char, role: Role)

  type Mark = m: RawMark | m.role == Other || Inert(m.c) witness Mark(' ', Other)

  function Text(ms: seq<Mark>): (s: string)
    ensures |s| == |ms| && forall i | 0 <= i < |s| :: s[i] == ms[i].c
  {
    seq(|ms|, i requires 0 <= i < |ms| => ms[i].c)
  }

  predicate Quiet(m: Mark) {
    m.role == Other && Inert(m.c)
  }

  // ms[0] opens an angle bracket and ms[k] takes it away.
  predicate IsPair(ms: seq<Mark>, k: nat) {
    0 < k < |ms| && ms[0].role == Opens && (ms[k].role == Closes || ms[k].role == Cancels)
  }

  // What stands between angle brackets: quiet characters, pairs of angle brackets,
  // and round, square or curly groups, in which angle brackets do not matter.
  ghost predicate Content(ms: seq<Mark>)
    decreases |ms|
  {
    || ms == []
    || (Quiet(ms[0]) && Content(ms[1..]))
    || exists k: nat :: StartsPart(ms, k) && Content(ms[k + 1..])
  }

  ghost predicate StartsPart(ms: seq<Mark>, k: nat)
    decreases |ms|, 0
  {
    k < |ms| && (IsGroup(Text(ms[..k + 1])) || (IsPair(ms, k) && Content(ms[1..k])))
  }

  // ms is one group: '<', content, '>'.
  ghost predicate AngleGroup(ms: seq<Mark>) {
    |ms| > 1 && ms[0].role == Opens && ms[|ms| - 1].role == Closes && Content(ms[1..|ms| - 1])
  }

  ghost predicate OneGroup(ms: seq<Mark>) {
    AngleGroup(ms) || IsGroup(Text(ms))
  }

  // --- The machine: how many angle brackets are pending, and above them the
  // --- other brackets that are. ---

  datatype AngleStep = Stop | Break | Onward(angles: nat, stack: seq<char>)

  function StepAngle(angles: nat, stack: seq<char>, m: Mark): (s: AngleStep)
    ensures s.Onward? && 0 < angles ==> 0 < s.angles
  {
    if stack != [] then
      match FlatStep(stack, m.c)
      case Done => Onward(angles, [])
      case Fail => Break
      case Go(rest) => Onward(angles, rest)
    else
      match m.role
      case Opens => Onward(angles + 1, [])
      case Closes => if angles <= 1 then Stop else Onward(angles - 1, [])
      case Cancels => if angles <= 1 then Break else Onward(angles - 1, [])
      case Other =>
        if IsOpener(m.c) then Onward(angles, [m.c])
        else if Inert(m.c) then Onward(angles, [])
        else Break
  }

  function Shift(r: Option<nat>, n: nat): Option<nat> {
    if r.Some? then Some(r.value + n) else None
  }

  // After how many characters the machine stops.
  function AngleEnd(angles: nat, stack: seq<char>, ms: seq<Mark>): Option<nat>
    decreases |ms|
  {
    if ms == [] then None
    else
      match StepAngle(angles, stack, ms[0])
      case Stop => Some(1)
      case Break => None
      case Onward(a, rest) => Shift(AngleEnd(a, rest, ms[1..]), 1)
  }

  lemma ShiftTwice(r: Option<nat>, m: nat, n: nat)
    ensures Shift(Shift(r, m), n) == Shift(r, m + n)
  {
  }

  lemma EndStep(angles: nat, stack: seq<char>, m: Mark, ms: seq<Mark>)
    ensures AngleEnd(angles, stack, [m] + ms) ==
            match StepAngle(angles, stack, m)
            case Stop => Some(1)
            case Break => None
            case Onward(a, rest) => Shift(AngleEnd(a, rest, ms), 1)
  {
    assert ([m] + ms)[1..] == ms;
  }

  // --- Groups of the other brackets. ---

  // The flat machine takes a group to its end, whatever comes behind it.
  lemma {:induction false} ThroughGroup(angles: nat, stack: seq<char>, g: seq<Mark>, ms: seq<Mark>)
    requires stack != [] && Run(stack, Text(g)) == Found(|g|)
    ensures AngleEnd(angles, stack, g + ms) == Shift(AngleEnd(angles, [], ms), |g|)
    decreases |g|
  {
    hide FlatStep;
    var m, t := g[0], g[1..];
    assert g + ms == [m] + (t + ms) && Text(g)[1..] == Text(t);
    EndStep(angles, stack, m, t + ms);
    match FlatStep(stack, m.c)
    case Done => assert t + ms == ms;
    case Go(rest) =>
      GoesOnPending(stack, m.c);
      ThroughGroup(angles, rest, t, ms);
      ShiftTwice(AngleEnd(angles, [], ms), |t|, 1);
  }

  lemma GoesOnPending(stack: seq<char>, c: char)
    requires stack != []
    ensures FlatStep(stack, c).Go? ==> FlatStep(stack, c).stack != []
  {
  }

  lemma FirstOfGroup(g: seq<Mark>)
    requires IsGroup(Text(g))
    ensures |g| > 1 && IsOpener(g[0].c) && g[0].role == Other
    ensures Run([g[0].c], Text(g[1..])) == Found(|g| - 1)
  {
    hide Balanced, FlatStep, Run;
    RunFindsGroups(Text(g));
    assert g == [g[0]] + g[1..];
    OpenerStarts(g[0], g[1..]);
  }

  lemma GroupIsSkipped(angles: nat, g: seq<Mark>, ms: seq<Mark>)
    requires IsGroup(Text(g))
    ensures AngleEnd(angles, [], g + ms) == Shift(AngleEnd(angles, [], ms), |g|)
  {
    hide Balanced, FlatStep, AngleEnd, Run, IsGroup, Text;
    FirstOfGroup(g);
    var m, t := g[0], g[1..];
    assert g + ms == [m] + (t + ms);
    EndStep(angles, [], m, t + ms);
    ThroughGroup(angles, [m.c], t, ms);
    ShiftTwice(AngleEnd(angles, [], ms), |t|, 1);
  }

  lemma OpenerStarts(m: Mark, t: seq<Mark>)
    requires IsOpener(m.c)
    ensures Run([], Text([m] + t)) == Later(Run([m.c], Text(t)), 1)
    ensures m.role == Other
  {
    assert Text([m] + t)[1..] == Text(t) && [] + [m.c] == [m.c];
  }

  // If the machine stops, it has met the end of a pending bracket before.
  lemma {:induction false} GroupEnds(angles: nat, stack: seq<char>, ms: seq<Mark>) returns (k: nat)
    requires stack != [] && AngleEnd(angles, stack, ms).Some?
    ensures 0 < k <= |ms| && Run(stack, Text(ms)) == Found(k)
    ensures AngleEnd(angles, stack, ms) == Shift(AngleEnd(angles, [], ms[k..]), k)
    decreases |ms|
  {
    hide FlatStep;
    var m, t := ms[0], ms[1..];
    assert Text(ms)[1..] == Text(t);
    match FlatStep(stack, m.c)
    case Done => k := 1;
    case Go(rest) =>
      GoesOnPending(stack, m.c);
      var j := GroupEnds(angles, rest, t);
      k := j + 1;
      assert t[j..] == ms[k..];
      ShiftTwice(AngleEnd(angles, [], ms[k..]), j, 1);
  }

  // --- The machine finds exactly the angle groups. ---

  lemma {:induction false} ContentIsSkipped(angles: nat, u: seq<Mark>, ms: seq<Mark>)
    requires 0 < angles && Content(u)
    ensures AngleEnd(angles, [], u + ms) == Shift(AngleEnd(angles, [], ms), |u|)
    decreases |u|
  {
    hide AngleEnd, IsGroup, Text;
    if u == [] {
      assert u + ms == ms;
      ShiftByNothing(AngleEnd(angles, [], ms));
    } else if Quiet(u[0]) && Content(u[1..]) {
      ContentIsSkipped(angles, u[1..], ms);
      QuietIsSkipped(angles, u, ms);
    } else {
      var k: nat :| StartsPart(u, k) && Content(u[k + 1..]);
      ContentIsSkipped(angles, u[k + 1..], ms);
      if !IsGroup(Text(u[..k + 1])) {
        ContentIsSkipped(angles + 1, u[1..k], u[k..] + ms);
      }
      PartIsSkipped(angles, u, k, ms);
    }
  }

  lemma ShiftByNothing(r: Option<nat>)
    ensures Shift(r, 0) == r
  {
  }

  lemma QuietIsSkipped(angles: nat, u: seq<Mark>, ms: seq<Mark>)
    requires 0 < angles && u != [] && Quiet(u[0])
    requires AngleEnd(angles, [], u[1..] + ms) == Shift(AngleEnd(angles, [], ms), |u| - 1)
    ensures AngleEnd(angles, [], u + ms) == Shift(AngleEnd(angles, [], ms), |u|)
  {
    hide AngleEnd;
    assert u + ms == [u[0]] + (u[1..] + ms);
    EndStep(angles, [], u[0], u[1..] + ms);
    ShiftTwice(AngleEnd(angles, [], ms), |u| - 1, 1);
  }

  lemma PartIsSkipped(angles: nat, u: seq<Mark>, k: nat, ms: seq<Mark>)
    requires 0 < angles && StartsPart(u, k)
    requires AngleEnd(angles, [], u[k + 1..] + ms) == Shift(AngleEnd(angles, [], ms), |u| - k - 1)
    requires IsGroup(Text(u[..k + 1])) ||
             AngleEnd(angles + 1, [], u[1..k] + (u[k..] + ms)) == Shift(AngleEnd(angles + 1, [], u[k..] + ms), k - 1)
    ensures AngleEnd(angles, [], u + ms) == Shift(AngleEnd(angles, [], ms), |u|)
  {
    hide AngleEnd, Content, Balanced;
    var rest := u[k + 1..] + ms;
    ShiftTwice(AngleEnd(angles, [], ms), |u| - k - 1, k + 1);
    if IsGroup(Text(u[..k + 1])) {
      GroupIsSkipped(angles, u[..k + 1], rest);
      assert u + ms == u[..k + 1] + rest;
    } else {
      assert u + ms == [u[0]] + (u[1..k] + (u[k..] + ms)) && u[k..] + ms == [u[k]] + rest;
      EndStep(angles, [], u[0], u[1..k] + (u[k..] + ms));
      EndStep(angles + 1, [], u[k], rest);
      ShiftTwice(AngleEnd(angles, [], rest), 1, k - 1);
      ShiftTwice(AngleEnd(angles, [], rest), k, 1);
    }
  }

  // Where the machine takes away the topmost of its angle brackets.
  ghost predicate EndsTop(angles: nat, ms: seq<Mark>, k: nat)
    requires 0 < angles
  {
    && k < |ms| && Content(ms[..k])
    && (ms[k].role == Closes || (angles > 1 && ms[k].role == Cancels))
    && AngleEnd(angles, [], ms) ==
       if angles == 1 then Some(k + 1) else Shift(AngleEnd(angles - 1, [], ms[k + 1..]), k + 1)
  }

  lemma {:induction false} EndMeans(angles: nat, ms: seq<Mark>) returns (k: nat)
    requires 0 < angles && AngleEnd(angles, [], ms).Some?
    ensures EndsTop(angles, ms, k)
    decreases |ms|
  {
    hide Content, Run, FlatStep, EndsTop, AngleEnd;
    SomeEnd(angles, ms);
    var m, t := ms[0], ms[1..];
    assert ms == [m] + t;
    EndStep(angles, [], m, t);
    if m.role == Closes || m.role == Cancels {
      k := 0;
      EndsAtOnce(angles, ms);
    } else if m.role == Opens {
      var j := EndMeans(angles + 1, t);
      EndGoesOn(angles, t, j);
      assert t[j + 1..] == ms[j + 2..];
      var i := EndMeans(angles, ms[j + 2..]);
      k := j + 2 + i;
      EndsBehindPair(angles, ms, j, i);
    } else if IsOpener(m.c) {
      var j := GroupEnds(angles, [m.c], t);
      assert t[j..] == ms[j + 1..];
      var i := EndMeans(angles, ms[j + 1..]);
      k := j + 1 + i;
      EndsBehindGroup(angles, ms, j, i);
    } else {
      var j := EndMeans(angles, t);
      k := j + 1;
      EndsBehindQuiet(angles, ms, j);
    }
  }

  lemma SomeEnd(angles: nat, ms: seq<Mark>)
    requires AngleEnd(angles, [], ms).Some?
    ensures ms != []
  {
  }

  lemma EndsAtOnce(angles: nat, ms: seq<Mark>)
    requires 0 < angles && ms != [] && AngleEnd(angles, [], ms).Some?
    requires ms[0].role == Closes || ms[0].role == Cancels
    ensures EndsTop(angles, ms, 0)
  {
    NoContent();
    hide Content;
  }

  lemma EndGoesOn(angles: nat, ms: seq<Mark>, k: nat)
    requires 0 < angles && AngleEnd(angles + 1, [], ms).Some? && EndsTop(angles + 1, ms, k)
    ensures k < |ms| && AngleEnd(angles, [], ms[k + 1..]).Some?
  {
    hide Content, AngleEnd;
  }

  lemma NoContent()
    ensures Content([])
  {
  }

  lemma PartThenContent(u: seq<Mark>, k: nat)
    requires StartsPart(u, k) && Content(u[k + 1..])
    ensures Content(u)
  {
  }

  // Two steps of the machine's count put together.
  lemma EndsLater(angles: nat, ms: seq<Mark>, j: nat, i: nat)
    requires 0 < angles && j <= |ms| && EndsTop(angles, ms[j..], i)
    requires AngleEnd(angles, [], ms) == Shift(AngleEnd(angles, [], ms[j..]), j)
    requires Content(ms[..j + i])
    ensures EndsTop(angles, ms, j + i)
  {
    hide Content, AngleEnd;
    assert ms[j..][i + 1..] == ms[j + i + 1..];
    ShiftTwice(AngleEnd(if angles == 1 then 1 else angles - 1, [], ms[j + i + 1..]), i + 1, j);
  }

  lemma EndsBehindPair(angles: nat, ms: seq<Mark>, j: nat, i: nat)
    requires 0 < angles && ms != [] && ms[0].role == Opens && EndsTop(angles + 1, ms[1..], j)
    requires EndsTop(angles, ms[j + 2..], i)
    ensures EndsTop(angles, ms, j + 2 + i)
  {
    hide Content, AngleEnd, Balanced;
    var u, t := ms[..j + 2 + i], ms[1..];
    assert u[1..j + 1] == t[..j] && u[j + 2..] == ms[j + 2..][..i] && t[j + 1..] == ms[j + 2..];
    PartThenContent(u, j + 1);
    assert ms == [ms[0]] + t;
    EndStep(angles, [], ms[0], t);
    ShiftTwice(AngleEnd(angles, [], ms[j + 2..]), j + 1, 1);
    EndsLater(angles, ms, j + 2, i);
  }

  lemma GroupInFront(ms: seq<Mark>, j: nat)
    requires ms != [] && IsOpener(ms[0].c) && 0 < j < |ms| && Run([ms[0].c], Text(ms[1..])) == Found(j)
    ensures IsGroup(Text(ms[..j + 1]))
  {
    hide Balanced, Run;
    assert ms == [ms[0]] + ms[1..];
    OpenerStarts(ms[0], ms[1..]);
    FoundAtIff(Text(ms), j + 1);
    assert Text(ms)[..j + 1] == Text(ms[..j + 1]);
  }

  lemma EndsBehindGroup(angles: nat, ms: seq<Mark>, j: nat, i: nat)
    requires 0 < angles && ms != [] && IsOpener(ms[0].c) && 0 < j < |ms|
    requires Run([ms[0].c], Text(ms[1..])) == Found(j)
    requires AngleEnd(angles, [ms[0].c], ms[1..]) == Shift(AngleEnd(angles, [], ms[j + 1..]), j)
    requires EndsTop(angles, ms[j + 1..], i)
    ensures EndsTop(angles, ms, j + 1 + i)
  {
    hide Content, AngleEnd, Balanced, Run;
    var u, t := ms[..j + 1 + i], ms[1..];
    assert u[..j + 1] == ms[..j + 1] && u[j + 1..] == ms[j + 1..][..i];
    GroupInFront(ms, j);
    PartThenContent(u, j);
    assert ms == [ms[0]] + t;
    OpenerStarts(ms[0], t);
    EndStep(angles, [], ms[0], t);
    ShiftTwice(AngleEnd(angles, [], ms[j + 1..]), j, 1);
    EndsLater(angles, ms, j + 1, i);
  }

  lemma QuietThenContent(u: seq<Mark>)
    requires u != [] && Quiet(u[0]) && Content(u[1..])
    ensures Content(u)
  {
  }

  lemma EndsBehindQuiet(angles: nat, ms: seq<Mark>, j: nat)
    requires 0 < angles && ms != [] && Quiet(ms[0]) && EndsTop(angles, ms[1..], j)
    ensures EndsTop(angles, ms, j + 1)
  {
    hide Content, AngleEnd, Balanced;
    assert ms[..j + 1][1..] == ms[1..][..j] && ms == [ms[0]] + ms[1..];
    QuietThenContent(ms[..j + 1]);
    EndStep(angles, [], ms[0], ms[1..]);
    EndsLater(angles, ms, 1, j);
  }

  // From '<', the machine stops at the end of ms exactly if ms is a group.
  lemma AngleEndIff(ms: seq<Mark>)
    requires ms != [] && ms[0].role == Opens
    ensures AngleEnd(1, [], ms[1..]) == Some(|ms| - 1) <==> AngleGroup(ms)
  {
    hide AngleEnd, Content;
    var t := ms[1..];
    if AngleEnd(1, [], t) == Some(|ms| - 1) {
      var k := EndMeans(1, t);
      assert t[..k] == ms[1..|ms| - 1];
    }
    if AngleGroup(ms) {
      var inner, last := ms[1..|ms| - 1], ms[|ms| - 1];
      ContentIsSkipped(1, inner, [last]);
      EndStep(1, [], last, []);
      assert t == inner + [last] && [last] + [] == [last];
    }
  }

  // --- Reading backwards. ---

  function MirrorMark(m: Mark): Mark {
    Mark(Partner(m.c), if m.role == Opens then Closes else if m.role == Closes then Opens else m.role)
  }

  function MirrorMarks(ms: seq<Mark>): (r: seq<Mark>)
    ensures |r| == |ms| && forall i | 0 <= i < |ms| :: r[i] == MirrorMark(ms[|ms| - 1 - i])
  {
    seq(|ms|, i requires 0 <= i < |ms| => MirrorMark(ms[|ms| - 1 - i]))
  }

  ghost predicate NoCancels(ms: seq<Mark>) {
    forall i | 0 <= i < |ms| :: ms[i].role != Cancels
  }

  lemma MirrorText(ms: seq<Mark>)
    ensures Text(MirrorMarks(ms)) == Mirror(Text(ms))
  {
  }

  lemma MirrorMarksTwice(ms: seq<Mark>)
    ensures MirrorMarks(MirrorMarks(ms)) == ms
    ensures NoCancels(ms) ==> NoCancels(MirrorMarks(ms))
  {
  }

  lemma {:induction false} ContentConcat(u: seq<Mark>, v: seq<Mark>)
    requires Content(u) && Content(v)
    ensures Content(u + v)
    decreases |u|
  {
    hide IsGroup, Text;
    if u == [] {
      assert u + v == v;
    } else if Quiet(u[0]) && Content(u[1..]) {
      ContentConcat(u[1..], v);
      assert (u + v)[1..] == u[1..] + v;
    } else {
      var k: nat :| StartsPart(u, k) && Content(u[k + 1..]);
      ContentConcat(u[k + 1..], v);
      PartOfLonger(u, v, k);
      assert (u + v)[k + 1..] == u[k + 1..] + v;
      PartThenContent(u + v, k);
    }
  }

  lemma PartOfLonger(u: seq<Mark>, v: seq<Mark>, k: nat)
    requires StartsPart(u, k)
    ensures StartsPart(u + v, k)
  {
    hide IsGroup, Text, Content;
    assert (u + v)[..k + 1] == u[..k + 1];
    if IsPair(u, k) {
      assert (u + v)[1..k] == u[1..k];
    }
  }

  // A part that is all there is.
  lemma PartAlone(u: seq<Mark>)
    requires u != [] && StartsPart(u, |u| - 1)
    ensures Content(u)
  {
    NoContent();
    assert u[|u|..] == [];
    PartThenContent(u, |u| - 1);
  }

  lemma {:induction false} MirrorKeepsContent(u: seq<Mark>)
    requires Content(u) && NoCancels(u)
    ensures Content(MirrorMarks(u))
    decreases |u|
  {
    hide IsGroup, Text;
    if u == [] {
    } else if Quiet(u[0]) && Content(u[1..]) {
      MirrorKeepsContent(u[1..]);
      QuietMirror(u);
    } else {
      var k: nat :| StartsPart(u, k) && Content(u[k + 1..]);
      MirrorKeepsContent(u[k + 1..]);
      if !IsGroup(Text(u[..k + 1])) {
        MirrorKeepsContent(u[1..k]);
      }
      PartMirror(u, k);
    }
  }

  lemma QuietMirror(u: seq<Mark>)
    requires u != [] && Quiet(u[0]) && Content(MirrorMarks(u[1..]))
    ensures Content(MirrorMarks(u))
  {
    var first := [MirrorMark(u[0])];
    assert Content(first) by {
      NoContent();
      assert first[1..] == [];
      QuietThenContent(first);
    }
    ContentConcat(MirrorMarks(u[1..]), first);
    assert MirrorMarks(u) == MirrorMarks(u[1..]) + first;
  }

  lemma PartMirror(u: seq<Mark>, k: nat)
    requires StartsPart(u, k) && NoCancels(u) && Content(MirrorMarks(u[k + 1..]))
    requires IsGroup(Text(u[..k + 1])) || Content(MirrorMarks(u[1..k]))
    ensures Content(MirrorMarks(u))
  {
    hide Balanced, Content, Text;
    var part, rest := u[..k + 1], u[k + 1..];
    var m := MirrorMarks(part);
    assert m[..k + 1] == m;
    if IsGroup(Text(part)) {
      MirrorText(part);
      GroupIffMirror(Text(part));
    } else {
      assert m[1..k] == MirrorMarks(u[1..k]);
      assert IsPair(m, k);
    }
    PartAlone(m);
    ContentConcat(MirrorMarks(rest), m);
    assert MirrorMarks(u) == MirrorMarks(rest) + m;
  }

  lemma MirrorKeepsAngleGroup(ms: seq<Mark>)
    requires AngleGroup(ms) && NoCancels(ms)
    ensures AngleGroup(MirrorMarks(ms))
  {
    hide Content;
    var inner := ms[1..|ms| - 1];
    MirrorKeepsContent(inner);
    assert MirrorMarks(ms)[1..|ms| - 1] == MirrorMarks(inner);
  }

  lemma AngleGroupIffMirror(ms: seq<Mark>)
    requires NoCancels(ms)
    ensures AngleGroup(ms) <==> AngleGroup(MirrorMarks(ms))
  {
    hide AngleGroup;
    MirrorMarksTwice(ms);
    if AngleGroup(ms) {
      MirrorKeepsAngleGroup(ms);
    }
    if AngleGroup(MirrorMarks(ms)) {
      MirrorKeepsAngleGroup(MirrorMarks(ms));
    }
  }
}
