/** lwraft/client/raftclient.c: merging the leader, follower and member attributes of a server
    into one cluster. */
module RaftCluster {
  import opened Bytes
  import opened Text

  datatype Role = Candidate | Leader | Follower

  /** VMDIR_RAFT_NODE; the attributes give no indices or term. */
  datatype Node = Node(name: string, role: Role, lastIndex: int, lastApplied: int, term: int)

  function NewNode(name: string, role: Role): Node { Node(name, role, 0, 0, 0) }

  /** VMDIR_RAFT_CLUSTER; the node list grows at its head. */
  class Cluster {
    var nodes: seq<Node>
    var leader: Option<string>
    var memberCount: nat
    var activeFollowers: nat

    constructor ()
      ensures nodes == [] && leader == None && memberCount == 0 && activeFollowers == 0
    {
      nodes, leader, memberCount, activeFollowers := [], None, 0, 0;
    }

    /** _VmDirRaftClusterAddNode: a name already listed, letter case aside, is dropped, but a
        member still counts. */
    method AddNode(node: Node)
      modifies this
      ensures nodes == Added(old(nodes), node)
      ensures memberCount == old(memberCount) + if node.role == Candidate then 1 else 0
      ensures activeFollowers == old(activeFollowers) + if node.role == Follower && !Named(old(nodes), node.name) then 1 else 0
      ensures leader == if node.role == Leader && !Named(old(nodes), node.name) then Some(node.name) else old(leader)
    {
      hide SameText;
      if node.role == Candidate { memberCount := memberCount + 1; }
      for i := 0 to |nodes|
        invariant nodes == old(nodes) && leader == old(leader) && activeFollowers == old(activeFollowers)
        invariant memberCount == old(memberCount) + if node.role == Candidate then 1 else 0
        invariant forall j :: 0 <= j < i ==> !SameText(nodes[j].name, node.name)
      {
        if SameText(nodes[i].name, node.name) { return; }
      }
      if node.role == Leader {
        leader := Some(node.name);
      } else if node.role == Follower {
        activeFollowers := activeFollowers + 1;
      }
      nodes := [node] + nodes;
    }

    /** The nodes come from the offers made so far. */
    ghost predicate Holds(offers: seq<Node>)
      reads this
    {
      && nodes == Merged(offers)
      && activeFollowers == CountRole(nodes, Follower)
      && memberCount == CountRole(offers, Candidate)
      && (leader.Some? ==> Leads(nodes, leader.value))
    }

    method Offer(node: Node, ghost offers: seq<Node>)
      requires Holds(offers)
      modifies this
      ensures Holds(offers + [node])
      ensures leader == if node.role == Leader && !Named(old(nodes), node.name) then Some(node.name) else old(leader)
    {
      hide Named;
      AddNode(node);
      assert (offers + [node])[..|offers|] == offers;
      CountRoleAppend(offers, node, Candidate);
      CountRoleCons(node, old(nodes), Follower);
    }

    method OfferAll(names: seq<string>, role: Role, ghost offers: seq<Node>)
      requires Holds(offers)
      modifies this
      ensures Holds(offers + As(names, role))
      ensures role != Leader ==> leader == old(leader)
    {
      hide Holds;
      assert offers + As(names[..0], role) == offers;
      for i := 0 to |names|
        invariant Holds(offers + As(names[..i], role))
        invariant role != Leader ==> leader == old(leader)
      {
        assert offers + As(names[..i], role) + [NewNode(names[i], role)] == offers + As(names[..i + 1], role);
        Offer(NewNode(names[i], role), offers + As(names[..i], role));
      }
      assert names[..|names|] == names;
    }

    /** The attribute loop of VmDirRaftListCluster; of the leader values only the first counts. */
    method ListCluster(leaders: seq<string>, followers: seq<string>, members: seq<string>)
      requires nodes == [] && leader == None && memberCount == 0 && activeFollowers == 0
      modifies this
      ensures Holds(Offers(leaders, followers, members))
      ensures memberCount == |members|
      ensures leader == if leaders == [] then None else Some(leaders[0])
    {
      ghost var first := As(leaders[..if leaders == [] then 0 else 1], Leader);
      assert Holds([]);
      if leaders != [] {
        assert [] + [NewNode(leaders[0], Leader)] == first;
        Offer(NewNode(leaders[0], Leader), []);
      }
      hide Holds;
      OfferAll(followers, Follower, first);
      OfferAll(members, Candidate, first + As(followers, Follower));
      MembersCounted(leaders, followers, members);
      assert memberCount == CountRole(Offers(leaders, followers, members), Candidate) by { Members(Offers(leaders, followers, members)); }
    }

    lemma Members(offers: seq<Node>)
      requires Holds(offers)
      ensures memberCount == CountRole(offers, Candidate)
    {
    }
  }

  ghost predicate Leads(nodes: seq<Node>, name: string) {
    exists n :: n in nodes && n.role == Leader && n.name == name
  }

  predicate Named(nodes: seq<Node>, name: string) {
    exists i :: 0 <= i < |nodes| && SameText(nodes[i].name, name)
  }

  function Added(nodes: seq<Node>, node: Node): seq<Node> {
    if Named(nodes, node.name) then nodes else [node] + nodes
  }

  /** The list after a sequence of offers. */
  function Merged(offers: seq<Node>): seq<Node> {
    if offers == [] then [] else Added(Merged(offers[..|offers| - 1]), offers[|offers| - 1])
  }

  function As(names: seq<string>, role: Role): seq<Node> {
    seq(|names|, i requires 0 <= i < |names| => NewNode(names[i], role))
  }

  /** What the attributes offer, in the order the loop visits them. */
  function Offers(leaders: seq<string>, followers: seq<string>, members: seq<string>): seq<Node> {
    As(leaders[..if leaders == [] then 0 else 1], Leader) + As(followers, Follower) + As(members, Candidate)
  }

  function CountRole(nodes: seq<Node>, role: Role): nat {
    if nodes == [] then 0 else (if nodes[0].role == role then 1 else 0) + CountRole(nodes[1..], role)
  }

  lemma CountRoleCons(node: Node, nodes: seq<Node>, role: Role)
    ensures CountRole([node] + nodes, role) == CountRole(nodes, role) + if node.role == role then 1 else 0
  {
    assert ([node] + nodes)[1..] == nodes;
  }

  lemma {:induction false} CountRoleConcat(a: seq<Node>, b: seq<Node>, role: Role)
    ensures CountRole(a + b, role) == CountRole(a, role) + CountRole(b, role)
  {
    if a == [] {
      assert a + b == b;
    } else {
      assert (a + b)[1..] == a[1..] + b;
      CountRoleConcat(a[1..], b, role);
    }
  }

  lemma CountRoleAppend(nodes: seq<Node>, node: Node, role: Role)
    ensures CountRole(nodes + [node], role) == CountRole(nodes, role) + if node.role == role then 1 else 0
  {
    CountRoleConcat(nodes, [node], role);
  }

  lemma {:induction false} CountRoleAs(names: seq<string>, given: Role, role: Role)
    ensures CountRole(As(names, given), role) == if given == role then |names| else 0
  {
    if names != [] {
      assert As(names, given)[1..] == As(names[1..], given);
      CountRoleAs(names[1..], given, role);
    }
  }

  lemma MembersCounted(leaders: seq<string>, followers: seq<string>, members: seq<string>)
    ensures CountRole(Offers(leaders, followers, members), Candidate) == |members|
  {
    var l, f, m := As(leaders[..if leaders == [] then 0 else 1], Leader), As(followers, Follower), As(members, Candidate);
    CountRoleConcat(l + f, m, Candidate);
    CountRoleConcat(l, f, Candidate);
    CountRoleAs(leaders[..if leaders == [] then 0 else 1], Leader, Candidate);
    CountRoleAs(followers, Follower, Candidate);
    CountRoleAs(members, Candidate, Candidate);
  }

  // ---------------------------------------------------------------- what a merge means

  predicate FirstNaming(offers: seq<Node>, i: nat)
    requires i < |offers|
  {
    forall j :: 0 <= j < i ==> !SameText(offers[j].name, offers[i].name)
  }

  predicate Offered(offers: seq<Node>, name: string) {
    exists i :: 0 <= i < |offers| && SameText(offers[i].name, name)
  }

  lemma NamedAdded(nodes: seq<Node>, node: Node, name: string)
    ensures Named(Added(nodes, node), name) <==> Named(nodes, name) || SameText(node.name, name)
  {
    hide Lower;
    var added := Added(nodes, node);
    if Named(nodes, node.name) {
      if SameText(node.name, name) {
        var i :| 0 <= i < |nodes| && SameText(nodes[i].name, node.name);
        assert SameText(nodes[i].name, name);
      }
    } else {
      assert forall i :: 0 <= i < |nodes| ==> added[i + 1] == nodes[i];
      if i :| 0 <= i < |nodes| && SameText(nodes[i].name, name) { assert SameText(added[i + 1].name, name); }
      if SameText(node.name, name) { assert SameText(added[0].name, name); }
    }
  }

  lemma OfferedMore(offers: seq<Node>, node: Node, name: string)
    ensures Offered(offers + [node], name) <==> Offered(offers, name) || SameText(node.name, name)
  {
    hide SameText;
    var more := offers + [node];
    if i :| 0 <= i < |offers| && SameText(offers[i].name, name) { assert SameText(more[i].name, name); }
    if SameText(node.name, name) { assert SameText(more[|offers|].name, name); }
  }

  /** The merged list names what was offered. */
  lemma {:induction false} NamedIffOffered(offers: seq<Node>, name: string)
    ensures Named(Merged(offers), name) <==> Offered(offers, name)
  {
    if offers != [] {
      var k := |offers| - 1;
      NamedIffOffered(offers[..k], name);
      hide Named, Offered, SameText, Added;
      NamedAdded(Merged(offers[..k]), offers[k], name);
      OfferedMore(offers[..k], offers[k], name);
      assert offers[..k] + [offers[k]] == offers;
    }
  }

  /** No two listed names are the same, letter case aside. */
  lemma {:induction false} MergedDistinct(offers: seq<Node>)
    ensures forall i, j :: 0 <= i < j < |Merged(offers)| ==> !SameText(Merged(offers)[i].name, Merged(offers)[j].name)
  {
    if offers != [] {
      var k := |offers| - 1;
      MergedDistinct(offers[..k]);
      hide Lower;
      var before := Merged(offers[..k]);
      forall i, j | 0 <= i < j < |Merged(offers)|
        ensures !SameText(Merged(offers)[i].name, Merged(offers)[j].name)
      {
        if !Named(before, offers[k].name) && i == 0 { assert Merged(offers)[j] == before[j - 1]; }
      }
    }
  }

  ghost predicate FirstOffer(offers: seq<Node>, n: Node) {
    exists i: nat :: i < |offers| && FirstNaming(offers, i) && offers[i] == n
  }

  lemma FirstOfferMore(offers: seq<Node>, node: Node, n: Node)
    ensures FirstOffer(offers + [node], n) <==> FirstOffer(offers, n) || (n == node && !Offered(offers, node.name))
  {
    hide SameText;
    var more, k := offers + [node], |offers|;
    assert forall i :: 0 <= i < k ==> more[i] == offers[i];
    assert forall i: nat :: i < k ==> (FirstNaming(more, i) <==> FirstNaming(offers, i));
    assert FirstNaming(more, k) <==> !Offered(offers, node.name);
    if i: nat :| i < |offers| && FirstNaming(offers, i) && offers[i] == n { assert FirstNaming(more, i) && more[i] == n; }
    if n == node && !Offered(offers, node.name) { assert FirstNaming(more, k) && more[k] == n; }
  }

  /** A node is listed exactly when it is the first offer of its name: it keeps the role of the
      first attribute that names it. */
  lemma {:induction false} MergedKeepsFirst(offers: seq<Node>, n: Node)
    ensures n in Merged(offers) <==> FirstOffer(offers, n)
  {
    if offers != [] {
      var k := |offers| - 1;
      MergedKeepsFirst(offers[..k], n);
      NamedIffOffered(offers[..k], offers[k].name);
      FirstOfferMore(offers[..k], offers[k], n);
      assert offers[..k] + [offers[k]] == offers;
      hide FirstOffer, Offered, Named;
    }
  }
}
