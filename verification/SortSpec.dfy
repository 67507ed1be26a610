// What LinkedList_Sort promises, as properties of sequences of payloads.
//
// A comparator is a C function pointer returning a negative, zero or positive
// number.  The list is sorted ascending or descending by swapping neighbours
// that are out of order; this module shows that such swaps always reach a
// result, that the result is sorted, and that it is the one stable sort.
module SortSpec {

  // The test LinkedList_Sort applies to two neighbours before it swaps them.
  predicate OutOfOrder<T>(cmp: (T, T) -> int, ascending: bool, x: T, y: T) {
    if ascending then cmp(x, y) * -1 < 0 else cmp(x, y) < 0
  }

  // What a caller has to guarantee about a comparator, on the payloads at hand.
  ghost predicate ConsistentOn<T>(cmp: (T, T) -> int, s: seq<T>) {
    && (forall x, y | x in s && y in s :: cmp(x, y) < 0 <==> cmp(y, x) > 0)
    && (forall x, y, z | x in s && y in s && z in s :: cmp(x, y) <= 0 && cmp(y, z) <= 0 ==> cmp(x, z) <= 0)
  }

  ghost predicate Sorted<T>(cmp: (T, T) -> int, ascending: bool, s: seq<T>) {
    forall i, j | 0 <= i < j < |s| :: !OutOfOrder(cmp, ascending, s[i], s[j])
  }

  ghost predicate NeighboursSorted<T>(cmp: (T, T) -> int, ascending: bool, s: seq<T>, n: int) {
    forall i | 0 < i < n && i < |s| :: !OutOfOrder(cmp, ascending, s[i - 1], s[i])
  }

  // The payloads of s that compare equal to x, in their order in s.
  ghost function TiesWith<T>(cmp: (T, T) -> int, x: T, s: seq<T>): seq<T> {
    if s == [] then []
    else (if cmp(x, s[0]) == 0 then [s[0]] else []) + TiesWith(cmp, x, s[1..])
  }

  // r is a rearrangement of s that keeps payloads that compare equal in order.
  ghost predicate StableRearrangement<T>(cmp: (T, T) -> int, s: seq<T>, r: seq<T>) {
    && multiset(r) == multiset(s)
    && forall x | x in s :: TiesWith(cmp, x, r) == TiesWith(cmp, x, s)
  }

  // r is the outcome LinkedList_Sort promises for a list holding s.
  ghost predicate StableSort<T>(cmp: (T, T) -> int, ascending: bool, s: seq<T>, r: seq<T>) {
    StableRearrangement(cmp, s, r) && Sorted(cmp, ascending, r)
  }

  function SwapNeighbours<T>(s: seq<T>, i: nat): (r: seq<T>)
    requires i + 1 < |s|
  {
    s[i := s[i + 1]][i + 1 := s[i]]
  }

  // --- Termination: the number of pairs that are out of order. ---

  ghost function CountOutOfOrder<T>(cmp: (T, T) -> int, ascending: bool, x: T, s: seq<T>): nat {
    if s == [] then 0
    else (if OutOfOrder(cmp, ascending, x, s[0]) then 1 else 0) + CountOutOfOrder(cmp, ascending, x, s[1..])
  }

  ghost function Inversions<T>(cmp: (T, T) -> int, ascending: bool, s: seq<T>): nat {
    if s == [] then 0
    else CountOutOfOrder(cmp, ascending, s[0], s[1..]) + Inversions(cmp, ascending, s[1..])
  }

  lemma {:induction false} CountIgnoresSwap<T>(cmp: (T, T) -> int, ascending: bool, x: T, s: seq<T>, i: nat)
    requires i + 1 < |s|
    ensures CountOutOfOrder(cmp, ascending, x, SwapNeighbours(s, i)) == CountOutOfOrder(cmp, ascending, x, s)
    decreases i
  {
    var r := SwapNeighbours(s, i);
    if i == 0 {
      assert r[1..][1..] == s[1..][1..];
    } else {
      assert r[1..] == SwapNeighbours(s[1..], i - 1);
      CountIgnoresSwap(cmp, ascending, x, s[1..], i - 1);
    }
  }

  // Swapping two neighbours that are out of order removes exactly one inversion.
  lemma {:induction false} SwapRemovesOneInversion<T>(cmp: (T, T) -> int, ascending: bool, s: seq<T>, i: nat)
    requires i + 1 < |s|
    requires OutOfOrder(cmp, ascending, s[i], s[i + 1]) && !OutOfOrder(cmp, ascending, s[i + 1], s[i])
    ensures Inversions(cmp, ascending, SwapNeighbours(s, i)) == Inversions(cmp, ascending, s) - 1
    decreases i
  {
    var r := SwapNeighbours(s, i);
    if i == 0 {
      assert r[1..][1..] == s[1..][1..];
    } else {
      assert r[1..] == SwapNeighbours(s[1..], i - 1);
      CountIgnoresSwap(cmp, ascending, s[0], s[1..], i - 1);
      SwapRemovesOneInversion(cmp, ascending, s[1..], i - 1);
    }
  }

  // --- Stability: a swap of payloads that do not tie moves no tie. ---

  lemma {:induction false} TiesIgnoreSwap<T>(cmp: (T, T) -> int, x: T, s: seq<T>, i: nat)
    requires i + 1 < |s|
    requires !(cmp(x, s[i]) == 0 && cmp(x, s[i + 1]) == 0)
    ensures TiesWith(cmp, x, SwapNeighbours(s, i)) == TiesWith(cmp, x, s)
    decreases i
  {
    var r := SwapNeighbours(s, i);
    if i == 0 {
      assert r[1..][1..] == s[1..][1..];
    } else {
      assert r[1..] == SwapNeighbours(s[1..], i - 1);
      TiesIgnoreSwap(cmp, x, s[1..], i - 1);
    }
  }

  lemma SwapKeepsElements<T>(s: seq<T>, i: nat)
    requires i + 1 < |s|
    ensures multiset(SwapNeighbours(s, i)) == multiset(s)
  {
    var r := SwapNeighbours(s, i);
    assert s == s[..i] + [s[i], s[i + 1]] + s[i + 2..];
    assert r == s[..i] + [s[i + 1], s[i]] + s[i + 2..];
  }

  lemma SameElements<T>(s: seq<T>, r: seq<T>)
    requires multiset(r) == multiset(s)
    ensures |r| == |s|
    ensures forall x :: x in r <==> x in s
  {
    assert |multiset(r)| == |r| && |multiset(s)| == |s|;
    forall x ensures x in r <==> x in s {
      assert x in multiset(r) <==> x in r;
      assert x in multiset(s) <==> x in s;
    }
  }

  // One swap of the bubble sort keeps everything the sort has promised so far.
  lemma SwapIsStable<T>(cmp: (T, T) -> int, ascending: bool, s: seq<T>, r: seq<T>, i: nat)
    requires ConsistentOn(cmp, s)
    requires StableRearrangement(cmp, s, r)
    requires i + 1 < |r| && OutOfOrder(cmp, ascending, r[i], r[i + 1])
    ensures StableRearrangement(cmp, s, SwapNeighbours(r, i))
    ensures Inversions(cmp, ascending, SwapNeighbours(r, i)) < Inversions(cmp, ascending, r)
  {
    SameElements(s, r);
    var a, b := r[i], r[i + 1];
    assert a in r && b in r;
    SwapKeepsElements(r, i);
    SwapRemovesOneInversion(cmp, ascending, r, i);
    forall x | x in s
      ensures TiesWith(cmp, x, SwapNeighbours(r, i)) == TiesWith(cmp, x, s)
    {
      assert !(cmp(x, a) == 0 && cmp(x, b) == 0);
      TiesIgnoreSwap(cmp, x, r, i);
    }
  }

  // A pass without a swap has seen every neighbouring pair in order; for a
  // consistent comparator that orders every pair.
  lemma {:induction false} NeighboursSuffice<T>(cmp: (T, T) -> int, ascending: bool, s: seq<T>)
    requires ConsistentOn(cmp, s) && NeighboursSorted(cmp, ascending, s, |s|)
    ensures Sorted(cmp, ascending, s)
  {
    forall i, j | 0 <= i < j < |s|
      ensures !OutOfOrder(cmp, ascending, s[i], s[j])
    {
      FarPairInOrder(cmp, ascending, s, i, j);
    }
  }

  lemma {:induction false} FarPairInOrder<T>(cmp: (T, T) -> int, ascending: bool, s: seq<T>, i: nat, j: nat)
    requires ConsistentOn(cmp, s) && NeighboursSorted(cmp, ascending, s, |s|)
    requires i < j < |s|
    ensures !OutOfOrder(cmp, ascending, s[i], s[j])
    decreases j - i
  {
    assert !OutOfOrder(cmp, ascending, s[j - 1], s[j]);
    if i + 1 < j {
      FarPairInOrder(cmp, ascending, s, i, j - 1);
      assert s[i] in s && s[j - 1] in s && s[j] in s;
    }
  }

  // --- Uniqueness: the promise pins the result down completely. ---

  lemma {:induction false} TiesAreMembers<T>(cmp: (T, T) -> int, x: T, s: seq<T>)
    ensures forall y | y in TiesWith(cmp, x, s) :: y in s && cmp(x, y) == 0
    ensures forall y | y in s && cmp(x, y) == 0 :: y in TiesWith(cmp, x, s)
    decreases |s|
  {
    if s != [] {
      TiesAreMembers(cmp, x, s[1..]);
    }
  }

  // In a sorted sequence the first payload is not out of order before any other.
  lemma FirstOfStableSort<T>(cmp: (T, T) -> int, ascending: bool, s: seq<T>, r1: seq<T>, r2: seq<T>)
    requires ConsistentOn(cmp, s) && s != []
    requires StableSort(cmp, ascending, s, r1) && StableSort(cmp, ascending, s, r2)
    ensures r1 != [] && r2 != [] && r1[0] == r2[0]
  {
    SameElements(s, r1);
    SameElements(s, r2);
    var a, b := r1[0], r2[0];
    assert a in r1 && b in r2;
    var j :| 0 <= j < |r1| && r1[j] == b;
    var k :| 0 <= k < |r2| && r2[k] == a;
    assert cmp(a, a) == 0;
    assert cmp(a, b) == 0;
    assert TiesWith(cmp, a, r1)[0] == a;
    assert TiesWith(cmp, a, r2)[0] == b;
  }

  lemma TailIsRearrangement<T>(cmp: (T, T) -> int, s: seq<T>, r1: seq<T>, r2: seq<T>)
    requires StableRearrangement(cmp, s, r1) && StableRearrangement(cmp, s, r2)
    requires r1 != [] && r2 != [] && r1[0] == r2[0]
    ensures StableRearrangement(cmp, r1[1..], r2[1..])
    ensures forall x | x in r1[1..] :: x in s
  {
    SameElements(s, r1);
    assert r1 == [r1[0]] + r1[1..] && r2 == [r2[0]] + r2[1..];
    assert multiset(r1[1..]) == multiset(r1) - multiset{r1[0]} == multiset(r2[1..]);
    forall x | x in r1[1..]
      ensures x in s && TiesWith(cmp, x, r2[1..]) == TiesWith(cmp, x, r1[1..])
    {
      assert x in r1;
      assert TiesWith(cmp, x, r1) == TiesWith(cmp, x, r2);
      var first := if cmp(x, r1[0]) == 0 then [r1[0]] else [];
      assert TiesWith(cmp, x, r1[1..]) == TiesWith(cmp, x, r1)[|first|..];
      assert TiesWith(cmp, x, r2[1..]) == TiesWith(cmp, x, r2)[|first|..];
    }
  }

  // Exactly one sequence is a stable sort of s.
  lemma {:induction false} StableSortIsUnique<T>(cmp: (T, T) -> int, ascending: bool, s: seq<T>, r1: seq<T>, r2: seq<T>)
    requires ConsistentOn(cmp, s)
    requires StableSort(cmp, ascending, s, r1) && StableSort(cmp, ascending, s, r2)
    ensures r1 == r2
    decreases |s|
  {
    SameElements(s, r1);
    SameElements(s, r2);
    if s != [] {
      FirstOfStableSort(cmp, ascending, s, r1, r2);
      TailIsRearrangement(cmp, s, r1, r2);
      StableSortIsUnique(cmp, ascending, r1[1..], r1[1..], r2[1..]);
      assert r1 == [r1[0]] + r1[1..] && r2 == [r2[0]] + r2[1..];
    }
  }
}
