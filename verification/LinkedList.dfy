/** lwraft/common/linkedlist.c: a doubly linked list whose `next` pointers lead towards the head
    and whose `prev` pointers lead towards the tail. */
module LinkedList {
  import opened Bytes
  import opened Chain

  class List<T> {
    var head: Link?<T>
    var tail: Link?<T>
    var size: nat
    ghost var nodes: seq<Link<T>>

    /** The chain from head to tail is `nodes`: no node occurs twice, both directions of links
        agree with it, and no node of it has been freed. */
    ghost predicate Valid()
      reads this, nodes
    {
      size == |nodes| && EndsAre(nodes) && Distinct(nodes) && Linked(nodes)
    }

    /** The elements from head to tail. */
    ghost function Contents(): (s: seq<T>)
      reads this
    {
      Elements(nodes)
    }

    lemma Ends()
      requires Valid()
      ensures size == |nodes|
      ensures head == if nodes == [] then null else nodes[0]
    {
    }

    /** VmDirLinkedListCreate. */
    constructor ()
      ensures Valid() && nodes == []
    {
      head, tail, size, nodes := null, null, 0, [];
    }

    /** VmDirLinkedListInsertHead; a NULL element is refused. */
    method InsertHead(element: Option<T>) returns (code: Code, node: Link?<T>)
      requires Valid()
      modifies this, nodes
      ensures Valid()
      ensures element == None ==> code == InvalidParameter && node == null && nodes == old(nodes)
      ensures element.Some? ==> code == Success && node != null && fresh(node) && nodes == [node] + old(nodes)
      ensures element.Some? ==> Contents() == [element.value] + old(Contents())
    {
      if element == None { return InvalidParameter, null; }
      hide Linked, Distinct, Between, Elements;
      var n := new Link(element.value);
      if head != null {
        AttachHead(head, n, nodes);
      } else {
        NoneBetween(n, null);
        tail := n;
      }
      head := n;
      size := size + 1;
      HeadLinked(n, nodes);
      ElementsJoin([n], nodes);
      ElementsOne(n);
      nodes := [n] + nodes;
      code, node := Success, n;
    }

    /** VmDirLinkedListInsertTail. */
    method InsertTail(element: Option<T>) returns (code: Code, node: Link?<T>)
      requires Valid()
      modifies this, nodes
      ensures Valid()
      ensures element == None ==> code == InvalidParameter && node == null && nodes == old(nodes)
      ensures element.Some? ==> code == Success && node != null && fresh(node) && nodes == old(nodes) + [node]
      ensures element.Some? ==> Contents() == old(Contents()) + [element.value]
    {
      if element == None { return InvalidParameter, null; }
      hide Linked, Distinct, Between, Elements;
      var n := new Link(element.value);
      if tail != null {
        AttachTail(tail, n, nodes);
      } else {
        NoneBetween(null, n);
        head := n;
      }
      tail := n;
      size := size + 1;
      TailLinked(n, nodes);
      ElementsJoin(nodes, [n]);
      ElementsOne(n);
      nodes := nodes + [n];
      code, node := Success, n;
    }

    /** VmDirLinkedListRemove of any member, at whatever position `k` it stands: the others keep
        their order and their links. */
    method Remove(node: Link<T>, ghost k: nat)
      requires Valid() && k < |nodes| && nodes[k] == node
      modifies this, nodes
      ensures Valid() && node.freed
      ensures nodes == Without(old(nodes), k) && Contents() == Without(old(Contents()), k)
    {
      WithoutNode(nodes, k);
      hide Linked, Distinct, Bridged, Elements, Without, EndsAre;
      Detach(node, k);
      size := size - 1;
      BridgedIsLinked(nodes, k);
      nodes := Without(nodes, k);
    }

    /** The relinking of VmDirLinkedListRemove, and the free. */
    method Detach(node: Link<T>, ghost k: nat)
      requires k < |nodes| && nodes[k] == node && Distinct(nodes) && Linked(nodes) && EndsAre(nodes)
      modifies this`head, this`tail, nodes
      ensures Bridged(nodes, k) && EndsAre(Without(nodes, k)) && node.freed
    {
      hide Linked, Distinct, Bridged, Without, EndsAre;
      Neighbours(nodes, k);
      Unlink(node, nodes, k);
      MoveEnds(node, k);
      node.freed := true;
    }

    /** The ends of the chain `of`. */
    ghost predicate EndsAre(of: seq<Link<T>>)
      reads this
    {
      && (head == if of == [] then null else of[0])
      && (tail == if of == [] then null else of[|of| - 1])
    }

    /** The ends move off a node that is about to go. */
    method MoveEnds(node: Link<T>, ghost k: nat)
      requires k < |nodes| && nodes[k] == node && Distinct(nodes) && EndsAre(nodes)
      requires node.next == if k == 0 then null else nodes[k - 1]
      requires node.prev == if k == |nodes| - 1 then null else nodes[k + 1]
      modifies this`head, this`tail
      ensures EndsAre(Without(nodes, k))
    {
      WithoutNode(nodes, k);
      OnlyPlace(nodes, k, 0);
      OnlyPlace(nodes, k, |nodes| - 1);
      hide Distinct, Elements, Without;
      if node == head { head := node.prev; }
      if node == tail { tail := node.next; }
    }

    /** One round of freeing the list. */
    method RemoveHead()
      requires Valid() && head != null
      modifies this, nodes
      ensures Valid() && nodes == old(nodes)[1..] && old(nodes)[0].freed
    {
      Ends();
      WithoutFirst(nodes);
      hide Valid, Contents, Without;
      Remove(head, 0);
    }

    /** VmDirLinkedListGetSize. */
    method GetSize() returns (n: nat)
      requires Valid()
      ensures n == |Contents()|
    {
      n := size;
    }

    /** VmDirFreeLinkedList: removes from the head until nothing is left, freeing every node. */
    method FreeAll()
      requires Valid()
      modifies this, nodes
      ensures Valid() && nodes == []
      ensures forall i :: 0 <= i < |old(nodes)| ==> old(nodes)[i].freed
    {
      ghost var k, was := 0, nodes;
      assert Distinct(was);
      hide Valid, Distinct, Freed, Without, Elements;
      Ends();
      NoneFreed(was);
      while head != null
        invariant k <= |was| && nodes == was[k..] && Valid()
        invariant head == if nodes == [] then null else nodes[0]
        invariant Freed(was, k)
        decreases |nodes|
      {
        Apart(was, k);
        RemoveHead();
        Ends();
        k := k + 1;
        OneMoreFreed(was, k);
      }
      AllFreed(was);
    }
  }

  /** Both directions of links follow the sequence, and nothing in it has been freed. */
  ghost predicate Linked<T>(nodes: seq<Link<T>>)
    reads nodes
  {
    Between(nodes, null, null)
  }

  /** A stretch of a chain, with the node on the head's side and the one on the tail's side. */
  ghost predicate Between<T>(nodes: seq<Link<T>>, above: Link?<T>, below: Link?<T>)
    reads nodes
  {
    && (forall i {:trigger nodes[i].next} :: 0 <= i < |nodes| ==> nodes[i].next == if i == 0 then above else nodes[i - 1])
    && (forall i {:trigger nodes[i].prev} :: 0 <= i < |nodes| ==> nodes[i].prev == if i == |nodes| - 1 then below else nodes[i + 1])
    && (forall i :: 0 <= i < |nodes| ==> !nodes[i].freed)
  }

  lemma NoneBetween<T>(above: Link?<T>, below: Link?<T>)
    ensures Between<T>([], above, below) && Distinct<T>([])
  {
  }

  /** A new node goes above the head. */
  method AttachHead<T>(first: Link<T>, n: Link<T>, ghost nodes: seq<Link<T>>)
    requires nodes != [] && nodes[0] == first && n !in nodes && Distinct(nodes) && Linked(nodes)
    modifies n, first
    ensures n.prev == first && n.next == old(n.next) && n.freed == old(n.freed)
    ensures Between(nodes, n, null)
  {
    n.prev := first;
    first.next := n;
  }

  /** A new node goes below the tail. */
  method AttachTail<T>(last: Link<T>, n: Link<T>, ghost nodes: seq<Link<T>>)
    requires nodes != [] && nodes[|nodes| - 1] == last && n !in nodes && Distinct(nodes) && Linked(nodes)
    modifies n, last
    ensures n.next == last && n.prev == old(n.prev) && n.freed == old(n.freed)
    ensures Between(nodes, null, n)
  {
    n.next := last;
    last.prev := n;
  }

  lemma HeadLinked<T>(n: Link<T>, nodes: seq<Link<T>>)
    requires n !in nodes && Distinct(nodes) && Between(nodes, n, null)
    requires n.next == null && !n.freed && (n.prev == if nodes == [] then null else nodes[0])
    ensures Linked([n] + nodes) && Distinct([n] + nodes)
  {
  }

  lemma TailLinked<T>(n: Link<T>, nodes: seq<Link<T>>)
    requires n !in nodes && Distinct(nodes) && Between(nodes, null, n)
    requires n.prev == null && !n.freed && (n.next == if nodes == [] then null else nodes[|nodes| - 1])
    ensures Linked(nodes + [n]) && Distinct(nodes + [n])
  {
  }

  lemma Neighbours<T>(was: seq<Link<T>>, k: nat)
    requires k < |was| && Linked(was)
    ensures was[k].next == if k == 0 then null else was[k - 1]
    ensures was[k].prev == if k == |was| - 1 then null else was[k + 1]
  {
  }

  /** The neighbours of a member take each other's place for it. */
  method Unlink<T>(node: Link<T>, ghost was: seq<Link<T>>, ghost k: nat)
    requires k < |was| && was[k] == node && Distinct(was) && Linked(was)
    modifies was
    ensures Bridged(was, k) && node.next == old(node.next) && node.prev == old(node.prev)
  {
    Neighbours(was, k);
    if node.next != null { node.next.prev := node.prev; }
    if node.prev != null { node.prev.next := node.next; }
  }

  /** Links that skip position `k` of a chain. */
  ghost predicate Bridged<T>(was: seq<Link<T>>, k: nat)
    requires k < |was| && Distinct(was)
    reads set n | n in was && n != was[k]
  {
    && (forall i {:trigger was[i].next} :: 0 <= i < |was| && i != k ==>
          was[i].next == if i == 0 || (i == 1 && k == 0) then null else if i == k + 1 then was[k - 1] else was[i - 1])
    && (forall i {:trigger was[i].prev} :: 0 <= i < |was| && i != k ==>
          was[i].prev == if i == |was| - 1 || (i == |was| - 2 && k == |was| - 1) then null
                         else if i == k - 1 then was[k + 1] else was[i + 1])
    && (forall i :: 0 <= i < |was| && i != k ==> !was[i].freed)
  }

  lemma BridgedIsLinked<T>(was: seq<Link<T>>, k: nat)
    requires k < |was| && Distinct(was) && Bridged(was, k)
    ensures Linked(Without(was, k))
  {
    hide Without;
    WithoutAt(was, k);
  }
}
