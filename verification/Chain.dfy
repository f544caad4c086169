/** The nodes that the linked list and the deque chain together. */
module Chain {
  class Link<T> {
    const element: T
    var next: Link?<T>
    var prev: Link?<T>
    ghost var freed: bool

    constructor (element: T)
      ensures this.element == element && next == null && prev == null && !freed
    {
      this.element, next, prev, freed := element, null, null, false;
    }
  }

  ghost predicate Distinct<T>(nodes: seq<Link<T>>) {
    forall i, j :: 0 <= i < j < |nodes| ==> nodes[i] != nodes[j]
  }

  function Elements<T>(nodes: seq<Link<T>>): (s: seq<T>)
    ensures |s| == |nodes|
  {
    seq(|nodes|, i requires 0 <= i < |nodes| => nodes[i].element)
  }

  /** Elements go along with their nodes. */
  lemma ElementsJoin<T>(a: seq<Link<T>>, b: seq<Link<T>>)
    ensures Elements(a + b) == Elements(a) + Elements(b)
  {
  }

  lemma ElementsOne<T>(n: Link<T>)
    ensures Elements([n]) == [n.element]
  {
  }

  lemma ElementsFrom<T>(was: seq<Link<T>>, k: nat)
    requires k < |was|
    ensures Elements(was)[..k] + [Elements(was[k..])[0]] == Elements(was)[..k + 1]
  {
  }

  lemma OnlyPlace<T>(nodes: seq<Link<T>>, i: nat, j: nat)
    requires Distinct(nodes) && i < |nodes| && j < |nodes|
    ensures nodes[i] == nodes[j] <==> i == j
  {
  }

  /** A sequence with position `k` taken out. */
  function Without<T>(s: seq<T>, k: nat): (r: seq<T>)
    requires k < |s|
    ensures |r| == |s| - 1
  {
    s[..k] + s[k + 1..]
  }

  lemma WithoutAt<T>(s: seq<T>, k: nat)
    requires k < |s|
    ensures forall i :: 0 <= i < |s| - 1 ==> Without(s, k)[i] == s[if i < k then i else i + 1]
  {
  }

  /** What is first and last then. */
  lemma WithoutNode<T>(was: seq<Link<T>>, k: nat)
    requires k < |was| && Distinct(was)
    ensures Distinct(Without(was, k)) && Elements(Without(was, k)) == Without(Elements(was), k)
    ensures |was| > 1 ==> Without(was, k)[0] == was[if k == 0 then 1 else 0]
    ensures |was| > 1 ==> Without(was, k)[|was| - 2] == was[if k == |was| - 1 then k - 1 else |was| - 1]
  {
    WithoutAt(was, k);
    WithoutAt(Elements(was), k);
  }

  lemma WithoutFirst<T>(s: seq<T>)
    requires s != []
    ensures Without(s, 0) == s[1..]
  {
  }

  /** The first `k` nodes have been freed. */
  ghost predicate Freed<T>(was: seq<Link<T>>, k: nat)
    requires k <= |was|
    reads was[..k]
  {
    forall i :: 0 <= i < k ==> was[..k][i].freed
  }

  lemma NoneFreed<T>(was: seq<Link<T>>)
    ensures Freed(was, 0)
  {
  }

  lemma OneMoreFreed<T>(was: seq<Link<T>>, k: nat)
    requires 0 < k <= |was| && Freed(was, k - 1) && was[k - 1].freed
    ensures Freed(was, k)
  {
    assert forall i :: 0 <= i < k - 1 ==> was[..k][i] == was[..k - 1][i];
  }

  lemma AllFreed<T>(was: seq<Link<T>>)
    requires Freed(was, |was|)
    ensures forall i :: 0 <= i < |was| ==> was[i].freed
  {
    assert was[..|was|] == was;
  }

  lemma Apart<T>(was: seq<Link<T>>, k: nat)
    requires Distinct(was) && k <= |was|
    ensures forall n :: n in was[..k] ==> n !in was[k..]
  {
  }
}
