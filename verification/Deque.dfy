/** lwraft/common/deque.c: push at the tail, pop at either end. */
module Deque {
  import opened Bytes
  import opened Chain

  class Deque<T> {
    var head: Link?<T>
    var tail: Link?<T>
    var size: nat
    ghost var nodes: seq<Link<T>>

    ghost predicate Valid()
      reads this, nodes
    {
      && size == |nodes|
      && (head == if nodes == [] then null else nodes[0])
      && (tail == if nodes == [] then null else nodes[|nodes| - 1])
      && Distinct(nodes) && Linked(nodes)
    }

    ghost function Contents(): (s: seq<T>)
      reads this
    {
      Elements(nodes)
    }

    lemma Ends()
      requires Valid()
      ensures size == |nodes|
      ensures head == if nodes == [] then null else nodes[0]
    {
    }

    constructor ()
      ensures Valid() && nodes == []
    {
      head, tail, size, nodes := null, null, 0, [];
    }

    /** dequePush. */
    method Push(element: Option<T>) returns (code: Code)
      requires Valid()
      modifies this, nodes
      ensures Valid()
      ensures code == if element.Some? then Success else InvalidParameter
      ensures Contents() == old(Contents()) + (if element.Some? then [element.value] else [])
      ensures old(nodes) <= nodes && (forall n :: n in nodes && n !in old(nodes) ==> fresh(n))
    {
      if element == None {
        assert Contents() == Contents() + [];
        return InvalidParameter;
      }
      var n := new Link(element.value);
      if head == null {
        head, tail := n, n;
      } else {
        tail.next := n;
        n.prev := tail;
        tail := n;
      }
      size := size + 1;
      nodes := nodes + [n];
      assert Contents() == old(Contents()) + [element.value];
      code := Success;
    }

    /** dequePop takes from the tail; None is ERROR_NO_MORE_ITEMS. */
    method Pop() returns (element: Option<T>)
      requires Valid()
      modifies this, nodes
      ensures Valid()
      ensures old(Contents()) == [] ==> element == None && nodes == []
      ensures old(Contents()) != [] ==>
                && element == Some(old(Contents()[|nodes| - 1])) && Contents() == old(Contents())[..|old(nodes)| - 1]
                && nodes == old(nodes)[..|old(nodes)| - 1] && old(nodes)[|old(nodes)| - 1].freed
    {
      if tail == null { return None; }
      var node := tail;
      element := Some(tail.element);
      if head == tail {
        head, tail := null, null;
      } else {
        assert tail.prev == nodes[|nodes| - 2];
        tail := tail.prev;
        tail.next := null;
      }
      node.freed := true;
      size := size - 1;
      nodes := nodes[..|nodes| - 1];
      assert forall i :: 0 <= i < |nodes| ==> nodes[i] == old(nodes)[i];
    }

    /** dequePopLeft takes from the head. */
    method PopLeft() returns (element: Option<T>)
      requires Valid()
      modifies this, nodes
      ensures Valid()
      ensures old(Contents()) == [] ==> element == None && nodes == []
      ensures old(Contents()) != [] ==>
                && element == Some(old(Contents()[0])) && Contents() == old(Contents())[1..]
                && nodes == old(nodes)[1..] && old(nodes)[0].freed
    {
      if head == null { return None; }
      var node := head;
      element := Some(head.element);
      if head == tail {
        head, tail := null, null;
      } else {
        assert head.next == nodes[1];
        head := head.next;
        head.prev := null;
      }
      node.freed := true;
      size := size - 1;
      nodes := nodes[1..];
      TailLinked(old(nodes));
    }

    /** dequeFreeStringContents pops every element, in order, and terminates. */
    method Drain() returns (elements: seq<T>)
      requires Valid()
      modifies this, nodes
      ensures Valid() && nodes == [] && elements == old(Contents())
      ensures forall i :: 0 <= i < |old(nodes)| ==> old(nodes)[i].freed
    {
      elements := [];
      ghost var k, was := 0, nodes;
      assert Distinct(was);
      hide Valid, Distinct, Freed, Elements;
      Ends();
      NoneFreed(was);
      while head != null
        invariant k <= |was| && nodes == was[k..] && Valid()
        invariant head == if nodes == [] then null else nodes[0]
        invariant Freed(was, k)
        invariant elements == Elements(was)[..k]
        decreases |nodes|
      {
        Apart(was, k);
        ElementsFrom(was, k);
        var e := PopLeft();
        elements := elements + [e.value];
        Ends();
        k := k + 1;
        OneMoreFreed(was, k);
      }
      AllFreed(was);
    }
  }

  ghost predicate Linked<T>(nodes: seq<Link<T>>)
    reads nodes
  {
    && (forall i {:trigger nodes[i].prev} :: 0 <= i < |nodes| ==> nodes[i].prev == if i == 0 then null else nodes[i - 1])
    && (forall i {:trigger nodes[i].next} :: 0 <= i < |nodes| ==> nodes[i].next == if i == |nodes| - 1 then null else nodes[i + 1])
    && (forall i :: 0 <= i < |nodes| ==> !nodes[i].freed)
  }

  /** A chain whose first node has been cut off. */
  lemma TailLinked<T>(was: seq<Link<T>>)
    requires was != []
    requires forall i {:trigger was[i].prev} :: 1 <= i < |was| ==> was[i].prev == if i == 1 then null else was[i - 1]
    requires forall i {:trigger was[i].next} :: 1 <= i < |was| ==> was[i].next == if i == |was| - 1 then null else was[i + 1]
    requires forall i :: 1 <= i < |was| ==> !was[i].freed
    ensures Linked(was[1..])
  {
    assert forall j :: 0 <= j < |was[1..]| ==> was[1..][j] == was[j + 1];
  }
}
