/** The generic singly-linked list. Nodes are appended at the tail, searched
    and removed by a walk from the head. The ghost fields give the public
    view: `contents` is the sequence of stored values from head to tail,
    `nodes` the cells that hold them, `Repr` the objects the list owns. */
module LinkedLists {
  import opened Nodes
  import opened ListSpec

  class LinkedList<T(==)> {
    var head: Node?<T>
    var tail: Node?<T>
    ghost var nodes: seq<Node<T>>
    ghost var contents: seq<T>
    ghost var Repr: set<object>

    /** The cell at position `i` of the chain; null one past the last. */
    ghost function NodeAt(i: nat): Node?<T>
      reads this
      requires i <= |nodes|
    {
      if i < |nodes| then nodes[i] else null
    }

    /** One step of a walk from the head: the cell at `i` is owned, holds the
        `i`-th value and links to the cell at `i + 1`. */
    lemma StepAt(i: nat)
      requires Valid() && i < |nodes|
      ensures nodes[i] in Repr && nodes[i].value == contents[i] && nodes[i].next == NodeAt(i + 1)
    {
    }

    /** The list owns its cells; they are pairwise distinct, linked in
        order from `head`, the last one is `tail` and ends the chain. */
    ghost predicate Valid()
      reads this, Repr
    {
      this in Repr &&
      (forall i :: 0 <= i < |nodes| ==> nodes[i] in Repr) &&
      |nodes| == |contents| &&
      Distinct(nodes) &&
      (forall i :: 0 <= i < |nodes| ==> nodes[i].value == contents[i]) &&
      (forall i {:trigger nodes[i].next} :: 0 <= i < |nodes| - 1 ==> nodes[i].next == nodes[i + 1]) &&
      (nodes == [] ==> head == null && tail == null) &&
      (nodes != [] ==> head == nodes[0] && tail == nodes[|nodes| - 1] && tail.next == null)
    }

    constructor ()
      ensures Valid() && Repr == {this}
      ensures contents == [] && head == null && tail == null
    {
      head, tail := null, null;
      nodes, contents, Repr := [], [], {this};
    }

    /** Copy constructor: a chain of new cells holding the same values. */
    constructor Copy(other: LinkedList<T>)
      requires other.Valid()
      ensures Valid() && fresh(Repr)
      ensures contents == other.contents
    {
      head, tail := null, null;
      nodes, contents, Repr := [], [], {this};
      new;
      var curr := other.head;
      ghost var i := 0;
      while curr != null
        invariant Valid() && fresh(Repr) && Repr !! other.Repr
        invariant i <= |other.nodes| && curr == other.NodeAt(i)
        invariant contents == other.contents[..i]
        decreases |other.nodes| - i
      {
        other.StepAt(i);
        Add(curr.value);
        assert curr.value == other.contents[i];
        TakeOneMore(other.contents, i);
        curr := curr.next;
        i := i + 1;
      }
      assert other.contents[..i] == other.contents;
    }

    /** Frees every cell, walking from the head; afterwards the list is empty. */
    method Clear()
      requires Valid()
      modifies Repr
      ensures Valid() && Repr == {this}
      ensures contents == [] && head == null && tail == null
    {
      var prev: Node?<T> := null;
      var curr := head;
      ghost var i := 0;
      while curr != null
        invariant i <= |nodes| && curr == NodeAt(i)
        invariant forall j :: i <= j < |nodes| ==> nodes[j].next == NodeAt(j + 1)
        decreases |nodes| - i
      {
        prev := curr;
        curr := curr.next;
        Repr := Repr - {prev};
        i := i + 1;
      }
      head, tail := null, null;
      nodes, contents, Repr := [], [], {this};
    }

    /** Counts the cells reachable from the head. */
    method GetSize() returns (size: nat)
      requires Valid()
      ensures size == |contents|
    {
      size := 0;
      var curr := head;
      while curr != null
        invariant size <= |nodes| && curr == NodeAt(size)
        decreases |nodes| - size
      {
        curr := curr.next;
        size := size + 1;
      }
    }

    /** Appends a new cell holding `value` after the tail. */
    method Add(value: T)
      requires Valid()
      modifies Repr
      ensures Valid() && fresh(Repr - old(Repr))
      ensures contents == old(contents) + [value]
      ensures tail != null && tail.value == value
      ensures old(contents) == [] ==> head == tail
    {
      var newNode := new Node(value);
      if head == null {
        head := newNode;
        tail := newNode;
      } else {
        tail.next := newNode;
        tail := newNode;
      }
      nodes, contents, Repr := nodes + [newNode], contents + [value], Repr + {newNode};
    }

    /** The cell holding the first value equal to `value`, or null when no
        value is equal to it. */
    method SearchValue(value: T) returns (found: Node?<T>)
      requires Valid()
      ensures found == null <==> value !in contents
      ensures found != null ==> found == nodes[IndexOf(contents, value)] && found.value == value
    {
      var curr := head;
      ghost var i := 0;
      while curr != null
        invariant i <= |nodes| && curr == NodeAt(i)
        invariant value !in contents[..i]
        decreases |nodes| - i
      {
        if curr.value == value {
          assert IndexOf(contents, value) == i;
          return curr;
        }
        assert contents[..i + 1] == contents[..i] + [contents[i]];
        curr := curr.next;
        i := i + 1;
      }
      assert contents[..i] == contents;
      return null;
    }

    /** Unlinks and frees the first cell whose value equals `value`,
        repairing `head` and `tail`; does nothing when there is none. */
    method RemoveValue(value: T)
      requires Valid()
      modifies Repr
      ensures Valid() && Repr <= old(Repr)
      ensures contents == RemoveFirst(old(contents), value)
    {
      var curr := head;
      var prev: Node?<T> := null;
      ghost var i := 0;
      while curr != null
        invariant i <= |nodes| && curr == NodeAt(i)
        invariant prev == (if i == 0 then null else nodes[i - 1])
        invariant value !in contents[..i]
        decreases |nodes| - i
      {
        if curr.value == value {
          RemoveFirstAt(contents, value, i);
          Detach(prev, curr, i);
          return;
        }
        assert contents[..i + 1] == contents[..i] + [contents[i]];
        prev := curr;
        curr := curr.next;
        i := i + 1;
      }
      assert contents[..i] == contents;
      RemoveFirstAbsent(contents, value);
    }

    /** The unlinking step of `removeValue`: `curr`, the cell at position `i`,
        is bypassed from its predecessor `prev` (or from `head` when it is the
        first cell), and `tail` moves back when `curr` was the last. */
    method Detach(prev: Node?<T>, curr: Node<T>, ghost i: nat)
      requires Valid() && i < |nodes| && curr == nodes[i]
      requires prev == (if i == 0 then null else nodes[i - 1])
      modifies Repr
      ensures Valid() && Repr == old(Repr) - {curr}
      ensures contents == old(contents[..i] + contents[i + 1..])
    {
      StepAt(i);
      if prev != null {
        prev.next := curr.next;
        if curr == tail {
          tail := prev;
        }
      } else {
        head := curr.next;
        if head == null {
          tail := null;
        }
      }
      Unlink(i);
    }

    /** Ghost bookkeeping after the cell at `i` has been bypassed: its
        predecessor (or `head`) now points past it, and `tail` has been
        repaired. */
    ghost method Unlink(i: nat)
      requires i < |nodes| && |nodes| == |contents|
      requires this in Repr && forall j :: 0 <= j < |nodes| ==> nodes[j] in Repr
      requires Distinct(nodes)
      requires forall j :: 0 <= j < |nodes| ==> nodes[j].value == contents[j]
      requires forall j {:trigger nodes[j].next} :: 0 <= j < |nodes| - 1 && j + 1 != i ==> nodes[j].next == nodes[j + 1]
      requires nodes[|nodes| - 1].next == null || i == |nodes| - 1
      requires i > 0 ==> nodes[i - 1].next == NodeAt(i + 1)
      requires i == 0 ==> head == NodeAt(1)
      requires i > 0 ==> head == nodes[0]
      requires tail == (if |nodes| == 1 then null
                        else if i == |nodes| - 1 then nodes[i - 1]
                        else nodes[|nodes| - 1])
      modifies this
      ensures Valid()
      ensures nodes == old(nodes[..i] + nodes[i + 1..])
      ensures contents == old(contents[..i] + contents[i + 1..])
      ensures Repr == old(Repr) - {old(nodes[i])}
      ensures head == old(head) && tail == old(tail)
    {
      ghost var gone := nodes[i];
      ghost var ns := nodes[..i] + nodes[i + 1..];
      ghost var cs := contents[..i] + contents[i + 1..];
      Splice(nodes, i, ns);
      Splice(contents, i, cs);
      assert forall j {:trigger ns[j].next} :: 0 <= j < |ns| - 1 ==> ns[j].next == ns[j + 1];
      assert forall j :: 0 <= j < |ns| ==> ns[j] in Repr - {gone};
      nodes, contents, Repr := ns, cs, Repr - {gone};
    }

    /** Appends the values of `other`, in order; `other` is left as it was. */
    method AddList(other: LinkedList<T>)
      requires Valid() && other.Valid() && Repr !! other.Repr
      modifies Repr
      ensures Valid() && fresh(Repr - old(Repr))
      ensures contents == old(contents) + other.contents
      ensures Repr !! other.Repr
    {
      var curr := other.head;
      ghost var i := 0;
      while curr != null
        invariant Valid() && fresh(Repr - old(Repr)) && Repr !! other.Repr
        invariant i <= |other.nodes| && curr == other.NodeAt(i)
        invariant contents == old(contents) + other.contents[..i]
        decreases |other.nodes| - i
      {
        other.StepAt(i);
        Add(curr.value);
        assert curr.value == other.contents[i];
        TakeOneMore(other.contents, i);
        curr := curr.next;
        i := i + 1;
      }
      assert other.contents[..i] == other.contents;
    }

    /** One first-match removal per value of `other`, in `other`'s order. */
    method RemoveList(other: LinkedList<T>)
      requires Valid() && other.Valid() && Repr !! other.Repr
      modifies Repr
      ensures Valid() && Repr <= old(Repr)
      ensures contents == RemoveEach(old(contents), other.contents)
    {
      var curr := other.head;
      ghost var i := 0;
      while curr != null
        invariant Valid() && Repr <= old(Repr) && Repr !! other.Repr
        invariant i <= |other.nodes| && curr == other.NodeAt(i)
        invariant contents == RemoveEach(old(contents), other.contents[..i])
        decreases |other.nodes| - i
      {
        other.StepAt(i);
        assert curr.value == other.contents[i];
        RemoveEachStep(old(contents), other.contents, i);
        RemoveValue(curr.value);
        curr := curr.next;
        i := i + 1;
      }
      assert other.contents[..i] == other.contents;
    }

    /** `+`: a new list with this list's values followed by `other`'s,
        duplicates kept. Neither operand changes. */
    method Concat(other: LinkedList<T>) returns (result: LinkedList<T>)
      requires Valid() && other.Valid()
      ensures result.Valid() && fresh(result.Repr)
      ensures result.contents == contents + other.contents
    {
      result := new LinkedList.Copy(this);
      var curr := other.head;
      ghost var i := 0;
      while curr != null
        invariant result.Valid() && fresh(result.Repr) && result.Repr !! other.Repr
        invariant i <= |other.nodes| && curr == other.NodeAt(i)
        invariant result.contents == contents + other.contents[..i]
        decreases |other.nodes| - i
      {
        other.StepAt(i);
        result.Add(curr.value);
        assert curr.value == other.contents[i];
        TakeOneMore(other.contents, i);
        curr := curr.next;
        i := i + 1;
      }
      assert other.contents[..i] == other.contents;
    }

    /** `-`: a new list, a copy of this one with one first-match removal per
        value of `other`. Neither operand changes. */
    method Minus(other: LinkedList<T>) returns (result: LinkedList<T>)
      requires Valid() && other.Valid()
      ensures result.Valid() && fresh(result.Repr)
      ensures result.contents == RemoveEach(contents, other.contents)
    {
      result := new LinkedList.Copy(this);
      var curr := other.head;
      ghost var i := 0;
      while curr != null
        invariant result.Valid() && fresh(result.Repr) && result.Repr !! other.Repr
        invariant i <= |other.nodes| && curr == other.NodeAt(i)
        invariant result.contents == RemoveEach(contents, other.contents[..i])
        decreases |other.nodes| - i
      {
        other.StepAt(i);
        assert curr.value == other.contents[i];
        RemoveEachStep(contents, other.contents, i);
        result.RemoveValue(curr.value);
        curr := curr.next;
        i := i + 1;
      }
      assert other.contents[..i] == other.contents;
    }
  }

}
