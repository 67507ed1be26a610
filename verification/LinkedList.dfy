// The doubly linked list of hw1 and its iterator.
//
// A list's links live in heap nodes; the ghost fields say which sequence they
// represent.  A freed node leaves Repr, so no later operation may touch it.
module LinkedLists {
  import opened Wrappers
  import opened SortSpec

  // The sequence s without its element at index i.
  function Without<T>(s: seq<T>, i: nat): (r: seq<T>)
    requires i < |s|
    ensures |r| == |s| - 1
    ensures forall j | 0 <= j < |r| :: r[j] == if j < i then s[j] else s[j + 1]
  {
    s[..i] + s[i + 1..]
  }

  class Node<T> {
    var payload: T
    var next: Node?<T>
    var prev: Node?<T>

    constructor (payload: T)
      ensures this.payload == payload && next == null && prev == null
    {
      this.payload := payload;
      next, prev := null, null;
    }
  }

  class LinkedList<T> {
    var head: Node?<T>
    var tail: Node?<T>
    var numElements: nat

    ghost var Contents: seq<T>       // the payloads, from head to tail
    ghost var Nodes: seq<Node<T>>    // the nodes that hold them
    ghost var Repr: set<object>      // this list and its nodes

    ghost predicate Valid()
      reads this, Repr
      ensures Valid() ==> this in Repr
    {
      && this in Repr
      && numElements == |Nodes| == |Contents|
      && (forall i | 0 <= i < |Nodes| :: Nodes[i] in Repr && Nodes[i].payload == Contents[i])
      && LinkedAs(Nodes)
    }

    // head, tail, next and prev all agree with this sequence of nodes.
    ghost predicate LinkedAs(nodes: seq<Node<T>>)
      reads this, nodes
    {
      && (forall i, j | 0 <= i < j < |nodes| :: nodes[i] != nodes[j])
      && (forall i {:trigger nodes[i].prev} | 0 <= i < |nodes| ::
            nodes[i].prev == if i == 0 then null else nodes[i - 1])
      && (forall i {:trigger nodes[i].next} | 0 <= i < |nodes| ::
            nodes[i].next == if i == |nodes| - 1 then null else nodes[i + 1])
      && (nodes == [] ==> head == null && tail == null)
      && (nodes != [] ==> head == nodes[0] && tail == nodes[|nodes| - 1])
    }

    constructor ()
      ensures Valid() && fresh(Repr) && Contents == []
    {
      head, tail := null, null;
      numElements := 0;
      Contents, Nodes, Repr := [], [], {this};
    }

    lemma CountsAgree()
      requires Valid()
      ensures numElements == |Nodes| == |Contents|
    {
    }

    lemma NextNode(i: nat)
      requires Valid() && i < |Nodes|
      ensures Nodes[i].next == if i == |Nodes| - 1 then null else Nodes[i + 1]
      ensures head == Nodes[0] && forall n | n in Nodes :: n in Repr
    {
    }

    lemma NodesAreOwn()
      requires Valid()
      ensures forall j | 0 <= j < |Nodes| :: Nodes[j] in Repr && Nodes[j].payload == Contents[j]
      ensures forall j, k | 0 <= j < k < |Nodes| :: Nodes[j] != Nodes[k]
      ensures this in Repr && numElements == |Nodes| == |Contents|
    {
    }

    // The ghost side of freeing node i once the links no longer lead to it.
    ghost method Drop(i: nat)
      requires this in Repr && i < |Nodes| == |Contents| == numElements + 1
      requires forall j | 0 <= j < |Nodes| :: Nodes[j] in Repr && Nodes[j].payload == Contents[j]
      requires forall j, k | 0 <= j < k < |Nodes| :: Nodes[j] != Nodes[k]
      requires LinkedAs(Without(Nodes, i))
      modifies this`Contents, this`Nodes, this`Repr
      ensures Valid() && Repr == old(Repr) - {old(Nodes)[i]}
      ensures Contents == Without(old(Contents), i) && Nodes == Without(old(Nodes), i)
    {
      Repr := Repr - {Nodes[i]};
      Contents, Nodes := Without(Contents, i), Without(Nodes, i);
    }

    method NumElements() returns (n: nat)
      requires Valid()
      ensures n == |Contents|
    {
      n := numElements;
    }

    method Push(payload: T)
      requires Valid()
      modifies Repr
      ensures Valid() && fresh(Repr - old(Repr))
      ensures Contents == [payload] + old(Contents)
    {
      var ln := new Node(payload);
      if numElements == 0 {
        assert head == null && tail == null;
        ln.next := null;
        ln.prev := null;
        head, tail := ln, ln;
        numElements := 1;
      } else {
        assert head != null && tail != null;
        ln.prev := null;
        ln.next := head;
        head.prev := ln;
        head := ln;
        numElements := numElements + 1;
      }
      Contents, Nodes, Repr := [payload] + Contents, [ln] + Nodes, Repr + {ln};
      assert LinkedAs(Nodes);
    }

    method Pop() returns (ok: bool, payload: Option<T>)
      requires Valid()
      modifies Repr
      ensures Valid() && Repr <= old(Repr)
      ensures ok == (old(Contents) != [])
      ensures ok ==> payload == Some(old(Contents)[0]) && Contents == old(Contents)[1..]
      ensures !ok ==> payload == None && Contents == old(Contents)
    {
      if numElements == 0 {
        return false, None;
      }
      payload := Some(head.payload);
      ghost var temp := head;
      if numElements == 1 {
        head := null;
        tail := null;
      } else {
        head := head.next;
        head.prev := null;
      }
      numElements := numElements - 1;
      Contents, Nodes, Repr := Contents[1..], Nodes[1..], Repr - {temp};
      ok := true;
    }

    method Append(payload: T)
      requires Valid()
      modifies Repr
      ensures Valid() && fresh(Repr - old(Repr)) && old(Repr) <= Repr
      ensures Contents == old(Contents) + [payload]
      ensures old(Nodes) <= Nodes
    {
      var ln := new Node(payload);
      if numElements == 0 {
        assert head == null && tail == null;
        ln.next := null;
        ln.prev := null;
        head := ln;
        tail := ln;
        numElements := 1;
      } else {
        assert head != null && tail != null;
        ln.next := null;
        ln.prev := tail;
        tail.next := ln;
        tail := ln;
        numElements := numElements + 1;
      }
      Contents, Nodes, Repr := Contents + [payload], Nodes + [ln], Repr + {ln};
    }

    method Slice() returns (ok: bool, payload: Option<T>)
      requires Valid()
      modifies Repr
      ensures Valid() && Repr <= old(Repr)
      ensures ok == (old(Contents) != [])
      ensures ok ==> payload == Some(old(Contents)[|old(Contents)| - 1])
      ensures ok ==> Contents == old(Contents)[..|old(Contents)| - 1]
      ensures !ok ==> payload == None && Contents == old(Contents)
    {
      if numElements == 0 {
        return false, None;
      }
      payload := Some(tail.payload);
      ghost var temp := tail;
      if numElements == 1 {
        head := null;
        tail := null;
      } else {
        tail := tail.prev;
        tail.next := null;
      }
      numElements := numElements - 1;
      Contents, Nodes, Repr := Contents[..|Contents| - 1], Nodes[..|Nodes| - 1], Repr - {temp};
      ok := true;
    }

    // Bubble sort: payloads move, nodes and links stay where they are.
    method Sort(ascending: bool, cmp: (T, T) -> int)
      requires Valid() && ConsistentOn(cmp, Contents)
      modifies Repr
      ensures Valid() && Repr == old(Repr) && Nodes == old(Nodes)
      ensures StableSort(cmp, ascending, old(Contents), Contents)
      ensures forall i, j | 0 <= i < j < |Contents| ::
                if ascending then cmp(Contents[i], Contents[j]) <= 0 else cmp(Contents[i], Contents[j]) >= 0
    {
      if numElements < 2 {
        return;
      }
      var swapped := true;
      while swapped
        invariant Valid() && Repr == old(Repr) && Nodes == old(Nodes)
        invariant StableRearrangement(cmp, old(Contents), Contents)
        invariant !swapped ==> NeighboursSorted(cmp, ascending, Contents, |Contents|)
        decreases Inversions(cmp, ascending, Contents), swapped
      {
        swapped := BubblePass(ascending, cmp, old(Contents));
      }
      SameElements(old(Contents), Contents);
      NeighboursSuffice(cmp, ascending, Contents);
    }

    // One sweep of the sort from head to tail.
    method BubblePass(ascending: bool, cmp: (T, T) -> int, ghost original: seq<T>) returns (swapped: bool)
      requires Valid() && Contents != []
      requires ConsistentOn(cmp, original) && StableRearrangement(cmp, original, Contents)
      modifies Repr
      ensures Valid() && Repr == old(Repr) && Nodes == old(Nodes)
      ensures StableRearrangement(cmp, original, Contents)
      ensures swapped ==> Inversions(cmp, ascending, Contents) < Inversions(cmp, ascending, old(Contents))
      ensures !swapped ==> Contents == old(Contents) && NeighboursSorted(cmp, ascending, Contents, |Contents|)
    {
      hide Valid, LinkedAs;
      CountsAgree();
      NextNode(0);
      swapped := false;
      var curnode := head;
      ghost var i := 0;
      while curnode.next != null
        invariant Valid() && Repr == old(Repr) && Nodes == old(Nodes)
        invariant 0 <= i < |Nodes| == |Contents| && curnode == Nodes[i]
        invariant forall n | n in Nodes :: n in Repr
        invariant curnode.next == if i == |Nodes| - 1 then null else Nodes[i + 1]
        invariant StableRearrangement(cmp, original, Contents)
        invariant swapped ==> Inversions(cmp, ascending, Contents) < Inversions(cmp, ascending, old(Contents))
        invariant !swapped ==> Contents == old(Contents) && NeighboursSorted(cmp, ascending, Contents, i + 1)
        decreases |Nodes| - i
      {
        ghost var before := Contents;
        var bubbled := CompareAndSwap(ascending, cmp, curnode, i);
        if bubbled {
          swapped := true;
          SwapIsStable(cmp, ascending, original, before, i);
        }
        CountsAgree();
        NextNode(i);
        curnode := curnode.next;
        i := i + 1;
        NextNode(i);
      }
    }

    // Swaps the payloads of curnode and its successor if they are out of order.
    method CompareAndSwap(ascending: bool, cmp: (T, T) -> int, curnode: Node<T>, ghost i: nat) returns (bubbled: bool)
      requires Valid() && i + 1 < |Nodes| && curnode == Nodes[i]
      modifies Nodes, this`Contents
      ensures Valid() && Repr == old(Repr) && Nodes == old(Nodes)
      ensures bubbled == OutOfOrder(cmp, ascending, old(Contents)[i], old(Contents)[i + 1])
      ensures Contents == if bubbled then SwapNeighbours(old(Contents), i) else old(Contents)
    {
      var compareResult := cmp(curnode.payload, curnode.next.payload);
      if ascending {
        compareResult := compareResult * -1;
      }
      bubbled := compareResult < 0;
      if bubbled {
        var tmp := curnode.payload;
        curnode.payload := curnode.next.payload;
        curnode.next.payload := tmp;
        Contents := SwapNeighbours(Contents, i);
      }
    }
  }

  // A cursor into a list: it stands on Nodes[index], or past the end, in which
  // case node is null.
  class LLIterator<T> {
    const list: LinkedList<T>
    var node: Node?<T>
    ghost var index: nat

    ghost predicate Valid()
      reads this, list, list.Repr
    {
      && list.Valid()
      && this !in list.Repr
      && index <= |list.Nodes|
      && (node == null <==> index == |list.Nodes|)
      && (node != null ==> node == list.Nodes[index])
    }

    constructor (list: LinkedList<T>)
      requires list.Valid()
      ensures Valid() && this.list == list && index == 0
    {
      this.list := list;
      this.node := list.head;
      this.index := 0;
    }

    method IsValid() returns (valid: bool)
      requires Valid()
      ensures valid == (index < |list.Contents|)
    {
      valid := node != null;
    }

    // Renumbers a cursor whose list has lost an element in front of it.
    ghost method Renumber(i: nat)
      requires list.Valid() && this !in list.Repr
      requires i < |list.Contents| == |list.Nodes| && node == list.Nodes[i]
      modifies this`index
      ensures Valid() && index == i
    {
      index := i;
    }

    method Rewind()
      requires Valid()
      modifies this
      ensures Valid() && index == 0
    {
      node := list.head;
      index := 0;
    }

    method Next() returns (ok: bool)
      requires Valid() && index < |list.Contents|
      modifies this
      ensures Valid() && index == old(index) + 1
      ensures ok == (index < |list.Contents|)
    {
      var iterHasNext := !(node.next == null);
      index := index + 1;
      if iterHasNext {
        node := node.next;
        return true;
      }
      node := null;
      return false;
    }

    method Get() returns (payload: T)
      requires Valid() && index < |list.Contents|
      ensures payload == list.Contents[index]
    {
      payload := node.payload;
    }

    // A write through the payload pointer that Get hands out, for payloads
    // that only their node points to.
    method Update(payload: T)
      requires Valid() && index < |list.Contents|
      modifies list.Repr
      ensures Valid() && index == old(index)
      ensures list.Repr == old(list.Repr) && list.Nodes == old(list.Nodes)
      ensures list.Contents == old(list.Contents)[index := payload]
    {
      node.payload := payload;
      list.Contents := list.Contents[index := payload];
    }

    // Deletes the element under the cursor.  The cursor moves to the
    // successor, or to the predecessor if the tail went, or becomes invalid if
    // the list is now empty.
    method Remove() returns (nonEmpty: bool)
      requires Valid() && index < |list.Contents|
      modifies this, list.Repr
      ensures Valid() && list.Repr <= old(list.Repr)
      ensures list.Contents == Without(old(list.Contents), old(index))
      ensures list.Nodes == Without(old(list.Nodes), old(index))
      ensures nonEmpty == (list.Contents != [])
      ensures index == if old(index) < |list.Contents| then old(index)
                       else if nonEmpty then old(index) - 1 else 0
    {
      if list.numElements == 1 {
        ghost var temp := node;
        node := null;
        list.head := null;
        list.tail := null;
        list.numElements := list.numElements - 1;
        list.Contents, list.Nodes, list.Repr := [], [], list.Repr - {temp};
        index := 0;
        return false;
      }
      RemoveOneOfMany();
      return true;
    }

    // Remove for a list of two or more elements.
    method RemoveOneOfMany()
      requires Valid() && index < |list.Contents| && 1 < |list.Contents|
      modifies this, list.Repr
      ensures Valid() && list.Repr <= old(list.Repr)
      ensures list.Contents == Without(old(list.Contents), old(index))
      ensures list.Nodes == Without(old(list.Nodes), old(index))
      ensures index == if old(index) < |list.Contents| then old(index) else old(index) - 1
    {
      list.NodesAreOwn();
      hide LinkedList.Valid, LinkedList.LinkedAs, Without;
      ghost var removed := list.Nodes[index];
      RelinkAround();
      assert node != removed;
      forall j | 0 <= j < |list.Nodes|
        ensures list.Nodes[j].payload == list.Contents[j]
      {
        assert list.Nodes[j] in list.Nodes;
      }
      list.numElements := list.numElements - 1;
      list.Drop(index);
      list.NodesAreOwn();
      index := if index < |list.Nodes| then index else index - 1;
    }

    method RelinkAround()
      requires Valid() && index < |list.Nodes| && 1 < |list.Nodes|
      modifies this`node, list`head, list`tail, list.Nodes
      ensures forall n | n in list.Nodes :: n.payload == old(n.payload)
      ensures node == list.Nodes[if index < |list.Nodes| - 1 then index + 1 else index - 1]
      ensures list.LinkedAs(Without(list.Nodes, index))
    {
      if node.prev == null {
        UnlinkHead();
      } else if node.next == null {
        UnlinkTail();
      } else {
        UnlinkMiddle();
      }
    }

    // The three splicing cases of Remove: each takes node out of the links and
    // moves the cursor, and touches no payload.
    method UnlinkHead()
      requires Valid() && 1 < |list.Nodes| && index == 0
      modifies this`node, list`head, list`tail, list.Nodes
      ensures forall n | n in list.Nodes :: n.payload == old(n.payload)
      ensures node == list.Nodes[index + 1]
      ensures list.LinkedAs(Without(list.Nodes, index))
    {
      node := node.next;
      list.head := node;
      node.prev := null;
    }

    method UnlinkTail()
      requires Valid() && 1 < |list.Nodes| && 0 < index == |list.Nodes| - 1
      modifies this`node, list`head, list`tail, list.Nodes
      ensures forall n | n in list.Nodes :: n.payload == old(n.payload)
      ensures node == list.Nodes[index - 1]
      ensures list.LinkedAs(Without(list.Nodes, index))
    {
      node := node.prev;
      list.tail := node;
      node.next := null;
    }

    method UnlinkMiddle()
      requires Valid() && 1 < |list.Nodes| && 0 < index < |list.Nodes| - 1
      modifies this`node, list`head, list`tail, list.Nodes
      ensures forall n | n in list.Nodes :: n.payload == old(n.payload)
      ensures node == list.Nodes[index + 1]
      ensures list.LinkedAs(Without(list.Nodes, index))
    {
      node.next.prev := node.prev;
      node.prev.next := node.next;
      node := node.next;
    }
  }
}
