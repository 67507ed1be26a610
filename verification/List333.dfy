// ex07/List333.cc: assigning one linked list to another when they may be the
// same list, or parts of one list.
module Lists333 {

  class List333<T> {
    var next: List333?<T>
    var value: T
    ghost var live: bool    // not deleted yet

    // A node without successor.
    constructor (value: T)
      ensures this.value == value && next == null && live
    {
      this.value := value;
      next := null;
      live := true;
    }

    // Reading a node is only allowed while it has not been deleted.
    function Next(): List333?<T>
      requires live
      reads this
    {
      next
    }

    function Value(): T
      requires live
      reads this
    {
      value
    }

    // nodes are this node and its successors, up to the end of the list.
    ghost predicate Chain(nodes: seq<List333<T>>)
      reads nodes
    {
      && nodes != [] && nodes[0] == this
      && (forall i | 0 <= i < |nodes| - 1 :: nodes[i].next == nodes[i + 1])
      && nodes[|nodes| - 1].next == null
      && (forall i, j | 0 <= i < j < |nodes| :: nodes[i] != nodes[j])
      && (forall i | 0 <= i < |nodes| :: nodes[i].live)
    }

    // The destructor: deletes this node and all its successors.
    method Delete(ghost nodes: seq<List333<T>>)
      requires Chain(nodes)
      modifies nodes
      ensures forall i | 0 <= i < |nodes| :: !nodes[i].live
      decreases |nodes|
    {
      var rest := Next();
      assert rest == if |nodes| > 1 then nodes[1] else null;
      live := false;
      if rest != null {
        rest.Delete(nodes[1..]);
        assert forall i | 1 <= i < |nodes| :: nodes[i] == nodes[1..][i - 1];
      }
    }

    // operator=.  The one list that must not be assigned is one that leads to
    // this node; see EndlessAssignment.
    method Assign(other: List333<T>, ghost mine: seq<List333<T>>, ghost theirs: seq<List333<T>>)
      returns (ghost result: seq<List333<T>>)
      requires Chain(mine) && other.Chain(theirs) && this !in theirs[1..]
      modifies mine
      ensures Chain(result) && fresh(result[1..])
      ensures |result| == |theirs| && forall i | 0 <= i < |theirs| :: result[i].value == old(theirs[i].value)
      ensures forall i | 1 <= i < |mine| :: !mine[i].live
    {
      var oldNext := Next();
      assert oldNext == if |mine| > 1 then mine[1] else null;
      result := CopyValues(other, theirs);
      if oldNext != null {
        ghost var nodes := result;
        forall i | 1 <= i < |nodes|
          ensures fresh(nodes[i])
        {
          assert nodes[1..][i - 1] in nodes[1..];
        }
        assert forall i | 1 <= i < |mine| :: mine[i] == mine[1..][i - 1];
        oldNext.Delete(mine[1..]);
        assert forall i | 0 <= i < |nodes| :: nodes[i] !in mine[1..];
      }
    }

    // The copying loop: this node and fresh successors take the values of other
    // and its successors.  Nothing is deleted yet.
    method CopyValues(other: List333<T>, ghost theirs: seq<List333<T>>) returns (ghost result: seq<List333<T>>)
      requires live && other.Chain(theirs) && this !in theirs[1..]
      modifies this`next, this`value
      ensures Chain(result) && fresh(result[1..])
      ensures |result| == |theirs| && forall i | 0 <= i < |theirs| :: result[i].value == old(theirs[i].value)
    {
      value := other.Value();
      var me := this;
      var otherNext := other.Next();
      result := [this];
      while otherNext != null
        invariant 1 <= |result| <= |theirs| && result[0] == this && me == result[|result| - 1]
        invariant forall i | 1 <= i < |result| :: fresh(result[i])
        invariant forall i, j | 0 <= i < j < |result| :: result[i] != result[j]
        invariant forall i | 0 <= i < |result| :: result[i].live && result[i].value == old(theirs[i].value)
        invariant forall i | 0 <= i < |result| - 1 :: result[i].next == result[i + 1]
        invariant otherNext == if |result| < |theirs| then theirs[|result|] else null
        invariant forall i | 1 <= i < |theirs| :: unchanged(theirs[i])
        decreases |theirs| - |result|
      {
        assert theirs[|result|] in theirs[1..];
        var newNode := new List333(otherNext.Value());
        me.next := newNode;
        me := newNode;
        result := result + [newNode];
        otherNext := otherNext.Next();
      }
      me.next := null;
    }

    // --- The excluded case: a list that leads to the target. ---

    // path is a list of nodes that leads from otherNext to me.
    ghost predicate LeadsTo(path: seq<List333<T>>, me: List333<T>)
      reads path
    {
      && path != [] && path[0] == this && path[|path| - 1] == me
      && (forall i | 0 <= i < |path| - 1 :: path[i].next == path[i + 1])
      && (forall i, j | 0 <= i < j < |path| :: path[i] != path[j])
      && (forall i | 0 <= i < |path| :: path[i].live)
    }

    // The same assignment from a list that leads to this node: after any number n
    // of iterations the copying loop has a further node to copy.
    method EndlessAssignment(other: List333<T>, n: nat, ghost theirs: seq<List333<T>>)
      returns (otherNext: List333?<T>, ghost me: List333<T>, ghost path: seq<List333<T>>)
      requires other.Chain(theirs) && this in theirs[1..]
      modifies this`next, this`value
      ensures otherNext != null && otherNext.LeadsTo(path, me)
    {
      value := other.Value();
      me := this;
      otherNext := other.Next();
      ghost var k :| 0 < k < |theirs| && theirs[k] == this;
      assert other.next == theirs[1];
      path := theirs[1..k + 1];
      var last := this;
      for i := 0 to n
        invariant otherNext != null && me == last && otherNext.LeadsTo(path, me)
        invariant last == this || fresh(last)
      {
        var newNode := new List333(otherNext.Value());
        assert newNode !in path;
        last.next := newNode;
        last, me := newNode, newNode;
        ghost var further := path[1..] + [newNode];
        assert path[0].next == further[0];
        path := further;
        otherNext := otherNext.Next();
      }
    }
  }

  // The shortest such assignment: to the successor of the list's one other node.
  method TwoNodes<T>(x: T, y: T, n: nat) returns (otherNext: List333?<T>)
    ensures otherNext != null
  {
    var source := new List333(x);
    var target := new List333(y);
    source.next := target;
    assert source.Chain([source, target]);
    assert target == [source, target][1..][0];

    ghost var me, path;
    otherNext, me, path := target.EndlessAssignment(source, n, [source, target]);
  }

  // The copy constructor: a list of fresh nodes with the same values.
  method Copy<T>(other: List333<T>, ghost theirs: seq<List333<T>>)
    returns (list: List333<T>, ghost result: seq<List333<T>>)
    requires other.Chain(theirs)
    ensures list.Chain(result) && fresh(result)
    ensures |result| == |theirs| && forall i | 0 <= i < |theirs| :: result[i].value == old(theirs[i].value)
  {
    list := new List333(other.Value());
    result := list.Assign(other, [list], theirs);
    assert result[0] == list && result == [list] + result[1..];
  }
}
