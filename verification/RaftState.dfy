/** _VmDirRaftStateBerValueToCluster of lwraft/client/raftclient.c: a one-pass parser of the
    lines that describe the nodes of a Raft cluster. */
module RaftState {
  import opened Bytes
  import opened Text
  import RaftCluster

  type Role = RaftCluster.Role

  /** One node record; the role starts as the zero value, candidate. */
  type Node = RaftCluster.Node

  /** What a line says. The text after a numeric prefix goes through `atoll`. */
  datatype Line =
    | NodeLine(name: string)
    | RoleLine(role: Role)
    | LastIndexLine(index: int)
    | LastAppliedLine(index: int)
    | TermLine(term: int)
    | Separator
    | Ignored

  const NODE_PREFIX: string := "node: "
  const ROLE_PREFIX: string := "role: "
  const LAST_INDEX_PREFIX: string := "lastIndex: "
  const LAST_APPLIED_PREFIX: string := "lastAppliedIndex: "
  const TERM_PREFIX: string := "term: "
  const SEPARATOR_PREFIX: string := "-"

  /** VmDirStringStartsWith without regard to case. */
  predicate StartsWith(s: string, prefix: string) {
    |s| >= |prefix| && SameText(s[..|prefix|], prefix)
  }

  const MAX_NUMBER: int := 0x7FFF_FFFF_FFFF_FFFF

  /** The nearest number that fits a signed 64-bit integer. */
  function Clamp(v: int): int {
    if v > MAX_NUMBER then MAX_NUMBER else if v < -MAX_NUMBER - 1 then -MAX_NUMBER - 1 else v
  }

  /** atoll: blanks, an optional sign, digits; anything else ends the number, and one that is too
      large saturates, as the C library does it. */
  function Atoll(s: string): int {
    if s == "" then 0
    else if s[0] == ' ' || 9 <= s[0] as int <= 13 then Atoll(s[1..])
    else if s[0] == '-' then Clamp(0 - Digits(s[1..], 0))
    else if s[0] == '+' then Clamp(Digits(s[1..], 0))
    else Clamp(Digits(s, 0))
  }

  function RoleOf(s: string): Role {
    if SameText(s, "leader") then RaftCluster.Leader
    else if SameText(s, "follower") then RaftCluster.Follower
    else RaftCluster.Candidate
  }

  /** The `if` chain of the loop body. */
  function Classify(s: string): Line {
    if StartsWith(s, NODE_PREFIX) then NodeLine(s[|NODE_PREFIX|..])
    else if StartsWith(s, ROLE_PREFIX) then RoleLine(RoleOf(s[|ROLE_PREFIX|..]))
    else if StartsWith(s, LAST_INDEX_PREFIX) then LastIndexLine(Atoll(s[|LAST_INDEX_PREFIX|..]))
    else if StartsWith(s, LAST_APPLIED_PREFIX) then LastAppliedLine(Atoll(s[|LAST_APPLIED_PREFIX|..]))
    else if StartsWith(s, TERM_PREFIX) then TermLine(Atoll(s[|TERM_PREFIX|..]))
    else if StartsWith(s, SEPARATOR_PREFIX) then Separator
    else Ignored
  }

  predicate IsField(l: Line) {
    l.RoleLine? || l.LastIndexLine? || l.LastAppliedLine? || l.TermLine?
  }

  /** The loop reads up to the first empty value. */
  function Lines(values: seq<string>): seq<Line> {
    if values == [] || values[0] == "" then [] else [Classify(values[0])] + Lines(values[1..])
  }

  // ---------------------------------------------------------------- reference reading

  /** A node is open after the first `n` lines: the last node line or separator among them is a
      node line. */
  function OpenedAt(lines: seq<Line>, n: nat): (o: Option<nat>)
    requires n <= |lines|
    ensures o.Some? ==> o.value < n && lines[o.value].NodeLine?
  {
    if n == 0 then None
    else if lines[n - 1].NodeLine? then Some(n - 1)
    else if lines[n - 1].Separator? then None
    else OpenedAt(lines, n - 1)
  }

  /** Line `i` may stand where it does: a field or separator inside a node, a node outside. */
  predicate Placed(lines: seq<Line>, i: nat)
    requires i < |lines|
  {
    && (IsField(lines[i]) || lines[i].Separator? ==> OpenedAt(lines, i).Some?)
    && (lines[i].NodeLine? ==> OpenedAt(lines, i) == None)
  }

  predicate WellFormed(lines: seq<Line>, n: nat)
    requires n <= |lines|
  {
    forall i :: 0 <= i < n ==> Placed(lines, i)
  }

  function WithField(node: Node, l: Line): Node {
    match l
    case RoleLine(r) => node.(role := r)
    case LastIndexLine(i) => node.(lastIndex := i)
    case LastAppliedLine(i) => node.(lastApplied := i)
    case TermLine(t) => node.(term := t)
    case _ => node
  }

  /** The record that starts at line `from`, as its lines up to `to` describe it: each field as
      the last line that gives it says. */
  function RecordOf(lines: seq<Line>, from: nat, to: nat): Node
    requires from < to <= |lines| && lines[from].NodeLine?
  {
    if to == from + 1 then RaftCluster.NewNode(lines[from].name, RaftCluster.Candidate)
    else WithField(RecordOf(lines, from, to - 1), lines[to - 1])
  }

  /** Two lines that give the same field. */
  predicate SameField(k: Line, l: Line) {
    || (k.RoleLine? && l.RoleLine?) || (k.LastIndexLine? && l.LastIndexLine?)
    || (k.LastAppliedLine? && l.LastAppliedLine?) || (k.TermLine? && l.TermLine?)
  }

  /** No line between `k` and `to` gives the field of `l`. */
  ghost predicate NoneGives(lines: seq<Line>, k: nat, to: nat, l: Line) {
    forall j :: k < j < to && j < |lines| ==> !SameField(lines[j], l)
  }

  /** The node's field of the kind of `l` is as `l` says. */
  predicate Says(node: Node, l: Line) {
    match l
    case NodeLine(name) => node.name == name
    case RoleLine(role) => node.role == role
    case LastIndexLine(i) => node.lastIndex == i
    case LastAppliedLine(i) => node.lastApplied == i
    case TermLine(t) => node.term == t
    case _ => true
  }

  /** Each field of a record is as the last line says that gives it. */
  lemma {:induction false} RecordFields(lines: seq<Line>, from: nat, end: nat, k: nat)
    requires from <= k < end <= |lines| && lines[from].NodeLine?
    requires k == from || (IsField(lines[k]) && NoneGives(lines, k, end, lines[k]))
    ensures Says(RecordOf(lines, from, end), lines[k])
    decreases end
  {
    if k < end - 1 { RecordFields(lines, from, end - 1, k); }
  }

  /** A field that no line gives is zero, and the role that of a candidate. */
  lemma {:induction false} RecordDefaults(lines: seq<Line>, from: nat, end: nat, l: Line)
    requires from < end <= |lines| && lines[from].NodeLine? && NoneGives(lines, from, end, l)
    requires l in {RoleLine(RaftCluster.Candidate), LastIndexLine(0), LastAppliedLine(0), TermLine(0)}
    ensures Says(RecordOf(lines, from, end), l)
    decreases end
  {
    if end > from + 1 { RecordDefaults(lines, from, end - 1, l); }
  }

  /** The records closed by a separator among the first `n` lines, in order. */
  function Completed(lines: seq<Line>, n: nat): seq<Node>
    requires n <= |lines|
  {
    if n == 0 then []
    else if lines[n - 1].Separator? && OpenedAt(lines, n - 1).Some? then
      Completed(lines, n - 1) + [RecordOf(lines, OpenedAt(lines, n - 1).value, n - 1)]
    else Completed(lines, n - 1)
  }

  function Reversed<T>(s: seq<T>): (r: seq<T>)
    ensures |r| == |s|
  {
    if s == [] then [] else [s[|s| - 1]] + Reversed(s[..|s| - 1])
  }

  // ---------------------------------------------------------------- one more line

  lemma NextLine(lines: seq<Line>, i: nat)
    requires i < |lines|
    ensures WellFormed(lines, i + 1) <==> WellFormed(lines, i) && Placed(lines, i)
    ensures WellFormed(lines, |lines|) ==> WellFormed(lines, i + 1)
    ensures OpenedAt(lines, i + 1) ==
            if lines[i].NodeLine? then Some(i) else if lines[i].Separator? then None else OpenedAt(lines, i)
    ensures Completed(lines, i + 1) ==
            if lines[i].Separator? && OpenedAt(lines, i).Some?
            then Completed(lines, i) + [RecordOf(lines, OpenedAt(lines, i).value, i)] else Completed(lines, i)
    ensures lines[i].NodeLine? ==> RecordOf(lines, i, i + 1) == RaftCluster.NewNode(lines[i].name, RaftCluster.Candidate)
    ensures OpenedAt(lines, i).Some? ==>
            RecordOf(lines, OpenedAt(lines, i).value, i + 1) == WithField(RecordOf(lines, OpenedAt(lines, i).value, i), lines[i])
  {
  }

  lemma ReversedMore<T>(s: seq<T>, x: T)
    ensures Reversed(s + [x]) == [x] + Reversed(s)
  {
    assert (s + [x])[..|s|] == s;
  }

  // ---------------------------------------------------------------- the parser

  /** The cluster that the parser returns; `nodes` starts with the record completed last. */
  datatype Cluster = Cluster(nodes: seq<Node>, leader: Option<string>, activeFollowers: nat, memberCount: nat)

  /** The line loop: fails on the first misplaced line, otherwise collects the completed records
      in front of each other and drops an unterminated one. */
  method ParseLines(values: seq<string>) returns (nodes: Option<seq<Node>>)
    ensures var lines := Lines(values);
            nodes == if WellFormed(lines, |lines|) then Some(Reversed(Completed(lines, |lines|))) else None
  {
    ghost var lines := Lines(values);
    var list: seq<Node> := [];
    var open: Option<Node> := None;
    var i := 0;
    hide Classify, WellFormed, Completed, RecordOf, OpenedAt, Reversed;
    ParseStart(lines);
    while i < |values| && values[i] != ""
      invariant i <= |values| && i <= |lines| && lines[i..] == Lines(values[i..])
      invariant WellFormed(lines, i) && list == Reversed(Completed(lines, i))
      invariant open.Some? <==> OpenedAt(lines, i).Some?
      invariant open.Some? ==> open.value == RecordOf(lines, OpenedAt(lines, i).value, i)
    {
      var line := Classify(values[i]);
      assert line == lines[i..][0] == lines[i];
      assert values[i..][1..] == values[i + 1..] && lines[i..][1..] == lines[i + 1..];
      NextLine(lines, i);
      if line.NodeLine? {
        if open.Some? { return None; }
        open := Some(RaftCluster.NewNode(line.name, RaftCluster.Candidate));
      } else if IsField(line) {
        if open == None { return None; }
        open := Some(WithField(open.value, line));
      } else if line.Separator? {
        if open == None { return None; }
        ReversedMore(Completed(lines, i), open.value);
        list := [open.value] + list;
        open := None;
      }
      i := i + 1;
    }
    assert lines[i..] == [];
    nodes := Some(list);
  }

  lemma ParseStart(lines: seq<Line>)
    ensures WellFormed(lines, 0) && Completed(lines, 0) == [] && OpenedAt(lines, 0) == None
    ensures Reversed<Node>([]) == []
  {
  }

  // ---------------------------------------------------------------- totals

  /** The name of the last leader in list order. */
  function LastLeader(nodes: seq<Node>): Option<string> {
    if nodes == [] then None
    else if nodes[|nodes| - 1].role == RaftCluster.Leader then Some(nodes[|nodes| - 1].name)
    else LastLeader(nodes[..|nodes| - 1])
  }

  /** There is a leader exactly when some node has that role, and then the last such node in list
      order is it. */
  lemma {:induction false} LastLeaderMeaning(nodes: seq<Node>)
    ensures LastLeader(nodes) == None <==> forall i :: 0 <= i < |nodes| ==> nodes[i].role != RaftCluster.Leader
    ensures forall i :: 0 <= i < |nodes| && LeadsLast(nodes, i) ==> LastLeader(nodes) == Some(nodes[i].name)
  {
    if nodes != [] {
      var front := nodes[..|nodes| - 1];
      LastLeaderMeaning(front);
      forall i | 0 <= i < |nodes| && LeadsLast(nodes, i)
        ensures LastLeader(nodes) == Some(nodes[i].name)
      {
        if i < |nodes| - 1 { assert front[i] == nodes[i] && LeadsLast(front, i); }
      }
      assert forall i :: 0 <= i < |front| ==> front[i] == nodes[i];
    }
  }

  /** Node `i` is a leader and none after it is. */
  ghost predicate LeadsLast(nodes: seq<Node>, i: nat) {
    i < |nodes| && nodes[i].role == RaftCluster.Leader
    && forall j :: i < j < |nodes| ==> nodes[j].role != RaftCluster.Leader
  }

  lemma TotalsNone(nodes: seq<Node>)
    ensures LastLeader(nodes[..0]) == None
    ensures forall role :: RaftCluster.CountRole(nodes[..0], role) == 0
  {
  }

  lemma TotalsStep(nodes: seq<Node>, i: nat)
    requires i < |nodes|
    ensures LastLeader(nodes[..i + 1]) == if nodes[i].role == RaftCluster.Leader then Some(nodes[i].name) else LastLeader(nodes[..i])
    ensures forall role :: RaftCluster.CountRole(nodes[..i + 1], role)
                        == RaftCluster.CountRole(nodes[..i], role) + if nodes[i].role == role then 1 else 0
  {
    assert nodes[..i + 1] == nodes[..i] + [nodes[i]];
    assert nodes[..i + 1][..i] == nodes[..i];
    forall role
      ensures RaftCluster.CountRole(nodes[..i + 1], role)
           == RaftCluster.CountRole(nodes[..i], role) + if nodes[i].role == role then 1 else 0
    {
      RaftCluster.CountRoleAppend(nodes[..i], nodes[i], role);
    }
  }

  /** The parser as a whole; None is VMDIR_ERROR_INVALID_STATE. */
  method ParseCluster(values: seq<string>) returns (r: Option<Cluster>)
    ensures var lines := Lines(values);
            if WellFormed(lines, |lines|) then
              var nodes := Reversed(Completed(lines, |lines|));
              r == Some(Cluster(nodes, LastLeader(nodes), RaftCluster.CountRole(nodes, RaftCluster.Follower), RaftCluster.CountRole(nodes, RaftCluster.Candidate)))
            else r == None
  {
    var parsed := ParseLines(values);
    if parsed == None { return None; }
    var nodes := parsed.value;
    hide Lines, WellFormed, Completed, Reversed, LastLeader, RaftCluster.CountRole;
    TotalsNone(nodes);
    var leader: Option<string>, followers, members := None, 0, 0;
    for i := 0 to |nodes|
      invariant leader == LastLeader(nodes[..i])
      invariant followers == RaftCluster.CountRole(nodes[..i], RaftCluster.Follower)
      invariant members == RaftCluster.CountRole(nodes[..i], RaftCluster.Candidate)
    {
      TotalsStep(nodes, i);
      match nodes[i].role {
        case Leader => leader := Some(nodes[i].name);
        case Follower => followers := followers + 1;
        case Candidate => members := members + 1;
      }
    }
    assert nodes[..|nodes|] == nodes;
    r := Some(Cluster(nodes, leader, followers, members));
  }

  // ---------------------------------------------------------------- printing and reading back

  /** What a server prints about its peers, which the client's parser passes over. */
  datatype Peer = LeaderPeer(host: string) | FollowerPeer(host: string, active: bool)

  /** The state of one server as it reports it. */
  datatype Report = Report(node: Node, peers: seq<Peer>)

  function RoleText(role: Role): string {
    match role
    case Leader => "leader"
    case Follower => "follower"
    case Candidate => "candidate"
  }

  const LEADER_PREFIX: string := "leader: "
  const FOLLOWER_PREFIX: string := "follower: "

  function PeerText(p: Peer): string {
    match p
    case LeaderPeer(host) => Labelled(LEADER_PREFIX, host)
    case FollowerPeer(host, active) => Labelled(FOLLOWER_PREFIX, host + " " + (if active then "active" else "disconnected"))
  }

  function PeerTexts(peers: seq<Peer>): seq<string> {
    if peers == [] then [] else [PeerText(peers[0])] + PeerTexts(peers[1..])
  }

  function Labelled(prefix: string, rest: string): string { prefix + rest }

  /** VmDirRaftGetState, and the separator that VmDirRaftStateEntry puts behind it. */
  function Render(r: Report): seq<string>
    requires Printable(r.node)
  {
    FieldTexts(r.node) + PeerTexts(r.peers) + [Labelled(SEPARATOR_PREFIX, "")]
  }

  function FieldTexts(node: Node): seq<string>
    requires Printable(node)
  {
    [Labelled(NODE_PREFIX, node.name), Labelled(ROLE_PREFIX, RoleText(node.role)),
     Labelled(LAST_INDEX_PREFIX, Decimal(node.lastIndex)), Labelled(LAST_APPLIED_PREFIX, Decimal(node.lastApplied)),
     Labelled(TERM_PREFIX, Decimal(node.term))]
  }

  /** The server prints its counters with %u and %llu. */
  predicate Printable(node: Node) {
    node.lastIndex >= 0 && node.lastApplied >= 0 && node.term >= 0
  }

  predicate AllPrintable(reports: seq<Report>) {
    forall i :: 0 <= i < |reports| ==> Printable(reports[i].node)
  }

  function RenderAll(reports: seq<Report>): seq<string>
    requires AllPrintable(reports)
  {
    if reports == [] then [] else RenderAll(reports[..|reports| - 1]) + Render(reports[|reports| - 1])
  }

  function Nodes(reports: seq<Report>): (ns: seq<Node>)
    ensures |ns| == |reports|
  {
    seq(|reports|, i requires 0 <= i < |reports| => reports[i].node)
  }

  /** The nodes as they come back. */
  function ReadBack(reports: seq<Report>): (ns: seq<Node>)
    ensures |ns| == |reports|
  {
    if reports == [] then [] else ReadBack(reports[..|reports| - 1]) + [Capped(reports[|reports| - 1].node)]
  }

  /** The fields of a report as the parser understands them. */
  function Fields(node: Node): seq<Line> {
    [NodeLine(node.name), RoleLine(node.role), LastIndexLine(node.lastIndex), LastAppliedLine(node.lastApplied),
     TermLine(node.term)]
  }

  /** A node as the reader's numbers can hold it. */
  function Capped(node: Node): Node {
    node.(lastIndex := Clamp(node.lastIndex), lastApplied := Clamp(node.lastApplied), term := Clamp(node.term))
  }

  predicate Fits(node: Node) {
    node.lastIndex <= MAX_NUMBER && node.lastApplied <= MAX_NUMBER && node.term <= MAX_NUMBER
  }

  function Passed(n: nat): seq<Line> { seq(n, _ => Ignored) }

  function Block(r: Report): seq<Line> {
    Fields(Capped(r.node)) + Passed(|r.peers|) + [Separator]
  }

  function Blocks(reports: seq<Report>): seq<Line> {
    if reports == [] then [] else Blocks(reports[..|reports| - 1]) + Block(reports[|reports| - 1])
  }

  /** A text does not start with a prefix that differs from it in some letter. */
  lemma OtherPrefix(s: string, prefix: string, i: nat)
    requires i < |prefix| && (i < |s| ==> LowerChar(s[i]) != LowerChar(prefix[i]))
    ensures !StartsWith(s, prefix)
  {
    if |s| >= |prefix| {
      LowerAt(s[..|prefix|], i);
      LowerAt(prefix, i);
    }
  }

  lemma OwnPrefix(prefix: string, rest: string)
    ensures StartsWith(prefix + rest, prefix) && (prefix + rest)[|prefix|..] == rest
  {
    assert (prefix + rest)[..|prefix|] == prefix;
  }

  /** atoll reads a printed number back exactly below 2^63. */
  lemma AtollOfDecimal(n: nat)
    ensures Atoll(Decimal(n)) == Clamp(n) && (Atoll(Decimal(n)) == n <==> n < 0x8000_0000_0000_0000)
    ensures n >= 0x8000_0000_0000_0000 ==> Atoll(Decimal(n)) == 0x7FFF_FFFF_FFFF_FFFF
  {
    DigitsOfDecimal(n);
    hide Digits, Decimal;
    assert IsDigit(Decimal(n)[0]);
  }

  /** A sign and any blanks before the number count. */
  lemma AtollSigned(n: nat, blank: char, s: string)
    ensures n <= 0x8000_0000_0000_0000 ==> Atoll("-" + Decimal(n)) == -(n as int)
    ensures n > 0x8000_0000_0000_0000 ==> Atoll("-" + Decimal(n)) == -0x8000_0000_0000_0000
    ensures Atoll("+" + Decimal(n)) == Atoll(Decimal(n))
    ensures blank in {' ', '\t', '\n', '\r', 11 as char, 12 as char} ==> Atoll([blank] + s) == Atoll(s)
  {
    DigitsOfDecimal(n);
    AtollOfDecimal(n);
    hide Digits, Decimal;
    assert ("-" + Decimal(n))[1..] == Decimal(n) && ("+" + Decimal(n))[1..] == Decimal(n) && ([blank] + s)[1..] == s;
  }

  lemma RoleReadBack(role: Role)
    ensures RoleOf(RoleText(role)) == role && RoleText(role) in {"leader", "follower", "candidate"}
  {
    hide Lower;
  }

  lemma ClassifyNode(rest: string)
    ensures Labelled(NODE_PREFIX, rest) == "node: " + rest && Classify("node: " + rest) == NodeLine(rest)
  {
    OwnPrefix(NODE_PREFIX, rest);
  }

  lemma ClassifyRole(rest: string)
    ensures Labelled(ROLE_PREFIX, rest) == "role: " + rest && Classify("role: " + rest) == RoleLine(RoleOf(rest))
  {
    OtherPrefix(ROLE_PREFIX + rest, NODE_PREFIX, 0);
    OwnPrefix(ROLE_PREFIX, rest);
    hide StartsWith, RoleOf;
  }

  lemma ClassifyLastIndex(rest: string)
    ensures Labelled(LAST_INDEX_PREFIX, rest) == "lastIndex: " + rest && Classify("lastIndex: " + rest) == LastIndexLine(Atoll(rest))
  {
    var s := LAST_INDEX_PREFIX + rest;
    OtherPrefix(s, NODE_PREFIX, 0);
    OtherPrefix(s, ROLE_PREFIX, 0);
    OwnPrefix(LAST_INDEX_PREFIX, rest);
    hide StartsWith, Atoll;
  }

  lemma ClassifyLastApplied(rest: string)
    ensures Labelled(LAST_APPLIED_PREFIX, rest) == "lastAppliedIndex: " + rest && Classify("lastAppliedIndex: " + rest) == LastAppliedLine(Atoll(rest))
  {
    var s := LAST_APPLIED_PREFIX + rest;
    OtherPrefix(s, NODE_PREFIX, 0);
    OtherPrefix(s, ROLE_PREFIX, 0);
    OtherPrefix(s, LAST_INDEX_PREFIX, 4);
    OwnPrefix(LAST_APPLIED_PREFIX, rest);
    hide StartsWith, Atoll;
  }

  lemma ClassifyTerm(rest: string)
    ensures Labelled(TERM_PREFIX, rest) == "term: " + rest && Classify("term: " + rest) == TermLine(Atoll(rest))
  {
    var s := TERM_PREFIX + rest;
    OtherPrefix(s, NODE_PREFIX, 0);
    OtherPrefix(s, ROLE_PREFIX, 0);
    OtherPrefix(s, LAST_INDEX_PREFIX, 0);
    OtherPrefix(s, LAST_APPLIED_PREFIX, 0);
    OwnPrefix(TERM_PREFIX, rest);
    hide StartsWith, Atoll;
  }

  lemma ClassifySeparator(rest: string)
    ensures Labelled(SEPARATOR_PREFIX, rest) == "-" + rest && Classify("-" + rest) == Separator
  {
    var s := SEPARATOR_PREFIX + rest;
    OtherPrefix(s, NODE_PREFIX, 0);
    OtherPrefix(s, ROLE_PREFIX, 0);
    OtherPrefix(s, LAST_INDEX_PREFIX, 0);
    OtherPrefix(s, LAST_APPLIED_PREFIX, 0);
    OtherPrefix(s, TERM_PREFIX, 0);
    OwnPrefix(SEPARATOR_PREFIX, rest);
    hide StartsWith;
  }

  /** A line whose first two letters fit none of the prefixes is passed over. */
  lemma ClassifyOther(s: string)
    requires |s| >= 2 && LowerChar(s[0]) !in {'n', 'r', 't', '-'} && LowerChar(s[1]) != 'a'
    ensures Classify(s) == Ignored
  {
    OtherPrefix(s, NODE_PREFIX, 0);
    OtherPrefix(s, ROLE_PREFIX, 0);
    OtherPrefix(s, LAST_INDEX_PREFIX, 1);
    OtherPrefix(s, LAST_APPLIED_PREFIX, 1);
    OtherPrefix(s, TERM_PREFIX, 0);
    OtherPrefix(s, SEPARATOR_PREFIX, 0);
    hide StartsWith;
  }

  lemma ClassifyPeer(p: Peer)
    ensures PeerText(p) == (if p.LeaderPeer? then "leader: " + p.host
                            else "follower: " + (p.host + " " + (if p.active then "active" else "disconnected")))
    ensures PeerText(p) != "" && Classify(PeerText(p)) == Ignored
  {
    hide Classify;
    var s := PeerText(p);
    assert |s| >= 2 && (s[0] == 'l' || s[0] == 'f') && (s[1] == 'e' || s[1] == 'o');
    ClassifyOther(s);
  }

  lemma {:induction false} LinesConcat(a: seq<string>, b: seq<string>)
    requires forall i :: 0 <= i < |a| ==> a[i] != ""
    ensures Lines(a + b) == Lines(a) + Lines(b)
  {
    hide Classify;
    if a == [] {
      assert a + b == b;
    } else {
      assert (a + b)[1..] == a[1..] + b && (a + b)[0] == a[0];
      LinesConcat(a[1..], b);
    }
  }

  lemma {:induction false} LinesAt(values: seq<string>, lines: seq<Line>)
    requires |values| == |lines|
    requires forall i :: 0 <= i < |values| ==> values[i] != "" && Classify(values[i]) == lines[i]
    ensures Lines(values) == lines
  {
    hide Classify;
    if values != [] { LinesAt(values[1..], lines[1..]); }
  }

  predicate ReadsAs(value: string, line: Line) {
    value != "" && Classify(value) == line
  }

  predicate NoneEmpty(values: seq<string>) {
    forall i :: 0 <= i < |values| ==> values[i] != ""
  }

  lemma FiveLines(u: string, v: string, w: string, x: string, y: string, lines: seq<Line>)
    requires |lines| == 5 && ReadsAs(u, lines[0]) && ReadsAs(v, lines[1]) && ReadsAs(w, lines[2])
    requires ReadsAs(x, lines[3]) && ReadsAs(y, lines[4])
    ensures Lines([u, v, w, x, y]) == lines && NoneEmpty([u, v, w, x, y])
  {
    hide Classify;
    LinesAt([u, v, w, x, y], lines);
  }

  lemma LinesOfFields(node: Node)
    requires Printable(node)
    ensures Lines(FieldTexts(node)) == Fields(Capped(node)) && NoneEmpty(FieldTexts(node))
  {
    ClassifyNames(node);
    ClassifyNumbers(node);
    hide ReadsAs, Decimal, RoleText, Labelled, Lines, NoneEmpty, Clamp;
    var f := FieldTexts(node);
    FiveLines(f[0], f[1], f[2], f[3], f[4], Fields(Capped(node)));
  }

  lemma ClassifyNames(node: Node)
    ensures ReadsAs(Labelled(NODE_PREFIX, node.name), NodeLine(node.name))
    ensures ReadsAs(Labelled(ROLE_PREFIX, RoleText(node.role)), RoleLine(node.role))
  {
    hide Classify, RoleText, RoleOf;
    ClassifyNode(node.name);
    ClassifyRole(RoleText(node.role));
    RoleReadBack(node.role);
  }

  lemma ClassifyNumbers(node: Node)
    requires Printable(node)
    ensures ReadsAs(Labelled(LAST_INDEX_PREFIX, Decimal(node.lastIndex)), LastIndexLine(Clamp(node.lastIndex)))
    ensures ReadsAs(Labelled(LAST_APPLIED_PREFIX, Decimal(node.lastApplied)), LastAppliedLine(Clamp(node.lastApplied)))
    ensures ReadsAs(Labelled(TERM_PREFIX, Decimal(node.term)), TermLine(Clamp(node.term)))
  {
    hide Classify, Decimal, Clamp, Atoll;
    ClassifyLastIndex(Decimal(node.lastIndex));
    ClassifyLastApplied(Decimal(node.lastApplied));
    ClassifyTerm(Decimal(node.term));
    AtollOfDecimal(node.lastIndex);
    AtollOfDecimal(node.lastApplied);
    AtollOfDecimal(node.term);
  }

  lemma LinesCons(x: string, rest: seq<string>)
    requires x != "" && NoneEmpty(rest)
    ensures Lines([x] + rest) == [Classify(x)] + Lines(rest) && NoneEmpty([x] + rest)
  {
    hide Classify;
    assert ([x] + rest)[1..] == rest;
  }

  lemma {:induction false} LinesOfPeers(peers: seq<Peer>)
    ensures Lines(PeerTexts(peers)) == Passed(|peers|) && NoneEmpty(PeerTexts(peers))
  {
    if peers != [] {
      LinesOfPeers(peers[1..]);
      ClassifyPeer(peers[0]);
      LinesCons(PeerText(peers[0]), PeerTexts(peers[1..]));
      hide Classify, PeerText, Lines, NoneEmpty;
      assert [Ignored] + Passed(|peers| - 1) == Passed(|peers|);
    }
  }

  lemma LinesOfRender(r: Report)
    requires Printable(r.node)
    ensures Lines(Render(r)) == Block(r) && NoneEmpty(Render(r))
  {
    LinesOfFields(r.node);
    LinesOfPeers(r.peers);
    ClassifySeparator("");
    hide FieldTexts, PeerTexts, Lines, NoneEmpty, Classify, Fields, Capped;
    assert "-" + "" != "";
    JoinLines(FieldTexts(r.node), PeerTexts(r.peers), Labelled(SEPARATOR_PREFIX, ""));
  }

  lemma JoinLines(a: seq<string>, b: seq<string>, last: string)
    requires NoneEmpty(a) && NoneEmpty(b) && last != ""
    ensures Lines(a + b + [last]) == Lines(a) + Lines(b) + [Classify(last)] && NoneEmpty(a + b + [last])
  {
    hide Classify;
    LinesConcat(a, b);
    LinesConcat(a + b, [last]);
    assert [last][1..] == [];
  }

  lemma {:induction false} LinesOfRenderAll(reports: seq<Report>)
    requires AllPrintable(reports)
    ensures Lines(RenderAll(reports)) == Blocks(reports) && NoneEmpty(RenderAll(reports))
  {
    if reports == [] {
      NoLines();
    } else {
      hide Render, Block, Lines;
      var k := |reports| - 1;
      LinesOfRenderAll(reports[..k]);
      LinesOfRender(reports[k]);
      LinesConcat(RenderAll(reports[..k]), Render(reports[k]));
    }
  }

  lemma NoLines()
    ensures Lines([]) == []
  {
  }

  // ---------------------------------------------------------------- reading line by line

  /** Where the reader stands after some lines: whether all were well placed, the open record and
      the completed ones. */
  datatype Summary = Summary(ok: bool, open: Option<Node>, done: seq<Node>)

  function Summarize(lines: seq<Line>): Summary {
    var n := |lines|;
    Summary(WellFormed(lines, n),
            if OpenedAt(lines, n).Some? then Some(RecordOf(lines, OpenedAt(lines, n).value, n)) else None,
            Completed(lines, n))
  }

  function Feed(s: Summary, l: Line): Summary {
    if l.NodeLine? then Summary(s.ok && s.open == None, Some(RaftCluster.NewNode(l.name, RaftCluster.Candidate)), s.done)
    else if l.Separator? then Summary(s.ok && s.open.Some?, None, if s.open.Some? then s.done + [s.open.value] else s.done)
    else if IsField(l) then Summary(s.ok && s.open.Some?, if s.open.Some? then Some(WithField(s.open.value, l)) else None, s.done)
    else s
  }

  function FeedAll(s: Summary, lines: seq<Line>): Summary
    decreases |lines|
  {
    if lines == [] then s else FeedAll(Feed(s, lines[0]), lines[1..])
  }

  /** What the first lines say does not depend on the later ones. */
  lemma {:induction false} PrefixOnly(a: seq<Line>, b: seq<Line>, n: nat)
    requires n <= |a|
    ensures OpenedAt(a + b, n) == OpenedAt(a, n)
    ensures Completed(a + b, n) == Completed(a, n)
    ensures WellFormed(a + b, n) <==> WellFormed(a, n)
  {
    hide WellFormed, Completed, OpenedAt, RecordOf;
    if n == 0 {
      ParseStart(a);
      ParseStart(a + b);
    } else {
      PrefixOnly(a, b, n - 1);
      NextLine(a, n - 1);
      NextLine(a + b, n - 1);
      if OpenedAt(a, n - 1).Some? { RecordPrefix(a, b, OpenedAt(a, n - 1).value, n - 1); }
      assert (a + b)[n - 1] == a[n - 1];
    }
  }

  lemma {:induction false} RecordPrefix(a: seq<Line>, b: seq<Line>, from: nat, to: nat)
    requires from < to <= |a| && a[from].NodeLine?
    ensures RecordOf(a + b, from, to) == RecordOf(a, from, to)
  {
    if to > from + 1 { RecordPrefix(a, b, from, to - 1); }
  }

  lemma SummaryAppend(lines: seq<Line>, l: Line)
    ensures Summarize(lines + [l]) == Feed(Summarize(lines), l)
  {
    var more, n := lines + [l], |lines|;
    PrefixOnly(lines, [l], n);
    NextLine(more, n);
    if OpenedAt(lines, n).Some? { RecordPrefix(lines, [l], OpenedAt(lines, n).value, n); }
    hide WellFormed, Completed, OpenedAt, RecordOf;
    assert more[n] == l;
  }

  lemma {:induction false} SummaryConcat(a: seq<Line>, b: seq<Line>)
    ensures Summarize(a + b) == FeedAll(Summarize(a), b)
    decreases |b|
  {
    hide Feed, Summarize;
    if b == [] {
      assert a + b == a;
    } else {
      SummaryAppend(a, b[0]);
      SummaryConcat(a + [b[0]], b[1..]);
      assert a + [b[0]] + b[1..] == a + b;
    }
  }

  lemma {:induction false} FeedConcat(s: Summary, a: seq<Line>, b: seq<Line>)
    ensures FeedAll(s, a + b) == FeedAll(FeedAll(s, a), b)
    decreases |a|
  {
    hide Feed;
    if a == [] {
      assert a + b == b;
    } else {
      assert (a + b)[1..] == a[1..] + b && (a + b)[0] == a[0];
      FeedConcat(Feed(s, a[0]), a[1..], b);
    }
  }

  lemma {:induction false} FeedPassed(s: Summary, n: nat)
    ensures FeedAll(s, Passed(n)) == s
  {
    if n > 0 {
      assert Passed(n)[1..] == Passed(n - 1) && Passed(n)[0] == Ignored;
      FeedPassed(s, n - 1);
    }
  }

  lemma FeedFields(s: Summary, node: Node)
    requires s.ok && s.open == None
    ensures FeedAll(s, Fields(node)) == Summary(true, Some(node), s.done)
  {
    var f := Fields(node);
    assert f[1..] == [f[1], f[2], f[3], f[4]] && f[1..][1..] == [f[2], f[3], f[4]]
        && f[1..][1..][1..] == [f[3], f[4]] && f[1..][1..][1..][1..] == [f[4]] && f[1..][1..][1..][1..][1..] == [];
    var s1 := Feed(s, f[0]);
    var s2 := Feed(s1, f[1]);
    var s3 := Feed(s2, f[2]);
    var s4 := Feed(s3, f[3]);
    var s5 := Feed(s4, f[4]);
    assert s5 == Summary(true, Some(node), s.done);
    hide Feed;
    assert FeedAll(s5, []) == s5;
    assert FeedAll(s4, [f[4]]) == s5;
    assert FeedAll(s3, [f[3], f[4]]) == s5;
    assert FeedAll(s2, [f[2], f[3], f[4]]) == s5;
    assert FeedAll(s1, [f[1], f[2], f[3], f[4]]) == s5;
  }

  /** A report read from a closed position completes exactly its node. */
  lemma FeedBlock(s: Summary, r: Report)
    requires s.ok && s.open == None
    ensures FeedAll(s, Block(r)) == Summary(true, None, s.done + [Capped(r.node)])
  {
    var node := Capped(r.node);
    hide Capped;
    FeedConcat(s, Fields(node) + Passed(|r.peers|), [Separator]);
    FeedConcat(s, Fields(node), Passed(|r.peers|));
    FeedFields(s, node);
    FeedPassed(Summary(true, Some(node), s.done), |r.peers|);
    FeedOne(Summary(true, Some(node), s.done), Separator);
    hide FeedAll, Fields, Passed;
  }

  lemma FeedOne(s: Summary, l: Line)
    ensures FeedAll(s, [l]) == Feed(s, l)
  {
    assert [l][1..] == [];
  }

  lemma {:induction false} BlocksComplete(reports: seq<Report>)
    ensures Summarize(Blocks(reports)) == Summary(true, None, ReadBack(reports))
  {
    if reports != [] {
      var k := |reports| - 1;
      BlocksComplete(reports[..k]);
      hide Summarize, FeedAll, Block, Capped;
      SummaryConcat(Blocks(reports[..k]), Block(reports[k]));
      FeedBlock(Summary(true, None, ReadBack(reports[..k])), reports[k]);
    }
  }

  lemma {:induction false} ReadBackAt(reports: seq<Report>, i: nat)
    requires i < |reports|
    ensures ReadBack(reports)[i] == Capped(reports[i].node)
  {
    hide Capped;
    if i < |reports| - 1 { ReadBackAt(reports[..|reports| - 1], i); }
  }

  lemma {:induction false} ReversedInjective<T>(a: seq<T>, b: seq<T>)
    requires Reversed(a) == Reversed(b)
    ensures a == b
  {
    if a != [] {
      var k := |a| - 1;
      assert Reversed(a) == [a[k]] + Reversed(a[..k]) && Reversed(b) == [b[k]] + Reversed(b[..k]);
      assert Reversed(a)[1..] == Reversed(a[..k]) && Reversed(b)[1..] == Reversed(b[..k]);
      ReversedInjective(a[..k], b[..k]);
      assert a == a[..k] + [a[k]] && b == b[..k] + [b[k]];
    }
  }

  lemma CappedIff(node: Node)
    requires Printable(node)
    ensures Capped(node) == node <==> Fits(node)
  {
  }

  lemma ReadBackIff(reports: seq<Report>)
    requires AllPrintable(reports)
    ensures ReadBack(reports) == Nodes(reports) <==> forall i :: 0 <= i < |reports| ==> Fits(reports[i].node)
  {
    hide ReadBack, Capped, Fits;
    forall i | 0 <= i < |reports|
      ensures ReadBack(reports)[i] == Nodes(reports)[i] <==> Fits(reports[i].node)
    {
      ReadBackAt(reports, i);
      CappedIff(reports[i].node);
    }
  }

  /** What servers print about themselves, the client's parser accepts, and its list is the
      reported nodes, the last one first, exactly when their numbers are below 2^63. */
  lemma ParsePrinted(reports: seq<Report>)
    requires AllPrintable(reports)
    ensures var lines := Lines(RenderAll(reports));
            && WellFormed(lines, |lines|) && Reversed(Completed(lines, |lines|)) == Reversed(ReadBack(reports))
            && (Reversed(Completed(lines, |lines|)) == Reversed(Nodes(reports)) <==>
                forall i :: 0 <= i < |reports| ==> Fits(reports[i].node))
  {
    LinesOfRenderAll(reports);
    BlocksComplete(reports);
    ReadBackIff(reports);
    hide Lines, RenderAll, Blocks, Reversed, Nodes, ReadBack, Fits;
    if Reversed(ReadBack(reports)) == Reversed(Nodes(reports)) { ReversedInjective(ReadBack(reports), Nodes(reports)); }
  }
}
