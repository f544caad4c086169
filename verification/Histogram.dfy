/** VmMetricsHistogramUpdate and VmMetricsHistogramCloneContent of vmcommon/vmmetrics.c, run by
    any number of threads: updates are sequences of atomic adds without a lock, clones are
    sequences of plain reads. */
module Histogram {
  import opened Bytes
  import opened Threads

  /** A thread inside an update has finished the cells before `next`; a thread inside a clone
      has visited the buckets before `next` and kept those that fit its output. Two fields are
      not in the code: `flights` records how many updates were running when the bucket, or last the
      count, beside it was read, and `since` the observations completed when the clone began. */
  datatype Pc =
    | Idle
    | Updating(value: uint64, next: nat)
    | Cloning(room: nat, next: nat, out: seq<nat>, flights: seq<nat>, since: seq<uint64>)
    | CloningSum(out: seq<nat>, count: nat, flights: seq<nat>, since: seq<uint64>)
    | Cloned(out: seq<nat>, count: nat, sum: uint64, flights: seq<nat>, since: seq<uint64>)

  /** `cells` holds the bucket values followed by `count`, in the order in which an update
      increments them and a clone reads them. `done` lists the completed observations. */
  datatype State = State(keys: seq<uint64>, cells: seq<nat>, sum: uint64, done: seq<uint64>, threads: seq<Pc>)

  datatype Action = BeginUpdate(value: uint64) | BeginClone(room: nat) | Advance

  function Initial(keys: seq<uint64>, threadCount: nat): State {
    State(keys, seq(|keys| + 1, _ => 0), 0, [], seq(threadCount, _ => Idle))
  }

  /** Bucket `i` takes values up to its key; the last cell, `count`, takes every value. */
  predicate Takes(keys: seq<uint64>, i: nat, value: uint64) {
    i < |keys| ==> value <= keys[i]
  }

  predicate Enabled(s: State, t: nat, a: Action)
    requires t < |s.threads|
  {
    a.Advance? <==> !s.threads[t].Idle?
  }

  function Goto(s: State, t: nat, pc: Pc): State
    requires t < |s.threads|
  {
    s.(threads := s.threads[t := pc])
  }

  /** One atomic increment, addition or read of thread `t`. */
  function Step(s: State, t: nat, a: Action): (s': State)
    requires t < |s.threads| && |s.cells| == |s.keys| + 1 && Enabled(s, t, a)
    ensures |s'.threads| == |s.threads| && |s'.cells| == |s.cells| && s'.keys == s.keys
  {
    match a
    case BeginUpdate(value) => Goto(s, t, Updating(value, 0))
    case BeginClone(room) => Goto(s, t, Cloning(room, 0, [], [], s.done))
    case Advance =>
      match s.threads[t]
      case Updating(value, i) =>
        if i < |s.cells| then
          var s1 := Goto(s, t, Updating(value, i + 1));
          if Takes(s.keys, i, value) then s1.(cells := s.cells[i := s.cells[i] + 1]) else s1
        else
          Goto(s, t, Idle).(sum := (s.sum + value) % WORD, done := s.done + [value])
      case Cloning(room, i, out, flights, since) =>
        if i < |s.keys| then
          if i < room then Goto(s, t, Cloning(room, i + 1, out + [s.cells[i]], flights + [InFlightCount(s)], since))
          else Goto(s, t, Cloning(room, i + 1, out, flights, since))
        else
          Goto(s, t, CloningSum(out, s.cells[|s.keys|], flights + [InFlightCount(s)], since))
      case CloningSum(out, count, flights, since) => Goto(s, t, Cloned(out, count, s.sum, flights, since))
      case Cloned(_, _, _, _, _) => Goto(s, t, Idle)
      case Idle => s
  }

  ghost predicate Follows(s: State, s': State) {
    exists t: nat, a: Action :: t < |s.threads| && |s.cells| == |s.keys| + 1 && Enabled(s, t, a) && s' == Step(s, t, a)
  }

  ghost predicate IsRun(run: seq<State>, keys: seq<uint64>, n: nat) {
    && run != [] && run[0] == Initial(keys, n)
    && forall i :: 0 <= i < |run| - 1 ==> Follows(run[i], run[i + 1])
  }

  // ---------------------------------------------------------------- counting

  /** Observations that cell `i` takes. */
  function Observed(done: seq<uint64>, keys: seq<uint64>, i: nat): nat {
    if done == [] then 0
    else Observed(done[..|done| - 1], keys, i) + (if Takes(keys, i, done[|done| - 1]) then 1 else 0)
  }

  function Total(done: seq<uint64>): nat {
    if done == [] then 0 else Total(done[..|done| - 1]) + done[|done| - 1]
  }

  /** An unfinished update that has already counted in cell `i`. */
  function Past(pc: Pc, keys: seq<uint64>, i: nat): nat {
    if pc.Updating? && pc.next > i && Takes(keys, i, pc.value) then 1 else 0
  }

  /** An unfinished update that has counted in cell `k` but not yet reached the end of `l`. */
  function Between(pc: Pc, keys: seq<uint64>, k: nat, l: nat): nat {
    if pc.Updating? && k < pc.next <= l && Takes(keys, k, pc.value) then 1 else 0
  }

  function InFlight(pc: Pc): nat { if pc.Updating? then 1 else 0 }

  function PastCount(s: State, i: nat): nat { Sum(s.threads, pc => Past(pc, s.keys, i)) }
  function BetweenCount(s: State, k: nat, l: nat): nat { Sum(s.threads, pc => Between(pc, s.keys, k, l)) }
  function InFlightCount(s: State): nat { Sum(s.threads, InFlight) }

  /** Every value that cell `k` takes is also taken by cell `l`. */
  predicate Wider(keys: seq<uint64>, k: nat, l: nat) {
    k <= l && (l < |keys| ==> keys[k] <= keys[l])
  }

  predicate CellExact(s: State, i: nat)
    requires i < |s.cells|
  {
    s.cells[i] == Observed(s.done, s.keys, i) + PastCount(s, i)
  }

  /** What a clone has read so far cannot outrun a cell it has yet to read by more than the
      updates caught between the two. */
  predicate CloneBehind(s: State, pc: Pc) {
    pc.Cloning? ==>
      && pc.next <= |s.keys| && |pc.out| == (if pc.next < pc.room then pc.next else pc.room)
      && forall k, l :: 0 <= k < |pc.out| && pc.next <= l < |s.cells| && Wider(s.keys, k, l) ==>
           pc.out[k] <= s.cells[l] + BetweenCount(s, k, l)
  }

  /** No copied bucket outruns a wider one copied later by more than the updates that ran then,
      which were never all `n` threads. */
  predicate Nested(keys: seq<uint64>, out: seq<nat>, flights: seq<nat>, n: nat) {
    && |out| <= |flights| && (forall l :: 0 <= l < |flights| ==> flights[l] < n)
    && forall k, l :: 0 <= k < l < |out| && Wider(keys, k, l) ==> out[k] <= out[l] + flights[l]
  }

  /** Nor does it outrun the copied count. */
  predicate BelowCount(out: seq<nat>, count: nat, flights: seq<nat>) {
    |flights| == |out| + 1 && forall k :: 0 <= k < |out| ==> out[k] <= count + flights[|out|]
  }

  predicate CopyBounded(s: State, pc: Pc) {
    match pc
    case Cloning(_, _, out, flights, _) => |flights| == |out| && Nested(s.keys, out, flights, |s.threads|)
    case CloningSum(out, count, flights, _) => Nested(s.keys, out, flights, |s.threads|) && BelowCount(out, count, flights)
    case Cloned(out, count, _, flights, _) => Nested(s.keys, out, flights, |s.threads|) && BelowCount(out, count, flights)
    case _ => true
  }

  /** Every copied bucket holds at least the observations completed before the clone began. */
  predicate CaughtUp(keys: seq<uint64>, out: seq<nat>, since: seq<uint64>) {
    forall k :: 0 <= k < |out| ==> Observed(since, keys, k) <= out[k]
  }

  predicate CopyRecent(s: State, pc: Pc) {
    match pc
    case Cloning(_, _, out, _, since) => since <= s.done && CaughtUp(s.keys, out, since)
    case CloningSum(out, count, _, since) => since <= s.done && CaughtUp(s.keys, out, since) && |since| <= count
    case Cloned(out, count, _, _, since) => since <= s.done && CaughtUp(s.keys, out, since) && |since| <= count
    case _ => true
  }

  predicate Inv(s: State) {
    && |s.cells| == |s.keys| + 1
    && (forall i :: 0 <= i < |s.cells| ==> CellExact(s, i))
    && s.sum == Total(s.done) % WORD
    && (forall t :: 0 <= t < |s.threads| && s.threads[t].Updating? ==> s.threads[t].next <= |s.cells|)
    && (forall t :: 0 <= t < |s.threads| ==> CloneBehind(s, s.threads[t]))
    && (forall t :: 0 <= t < |s.threads| ==> CopyBounded(s, s.threads[t]))
    && (forall t :: 0 <= t < |s.threads| ==> CopyRecent(s, s.threads[t]))
  }

  // ---------------------------------------------------------------- preservation

  lemma PastMoved(s: State, s': State, t: nat, pc: Pc, i: nat)
    requires t < |s.threads| && s'.threads == s.threads[t := pc] && s'.keys == s.keys
    ensures PastCount(s', i) == PastCount(s, i) - Past(s.threads[t], s.keys, i) + Past(pc, s.keys, i)
    ensures PastCount(s, i) >= Past(s.threads[t], s.keys, i)
  {
    SumUpdate(s.threads, t, pc, p => Past(p, s.keys, i));
  }

  lemma BetweenMoved(s: State, s': State, t: nat, pc: Pc, k: nat, l: nat)
    requires t < |s.threads| && s'.threads == s.threads[t := pc] && s'.keys == s.keys
    ensures BetweenCount(s', k, l) == BetweenCount(s, k, l) - Between(s.threads[t], s.keys, k, l) + Between(pc, s.keys, k, l)
    ensures BetweenCount(s, k, l) >= Between(s.threads[t], s.keys, k, l)
  {
    SumUpdate(s.threads, t, pc, p => Between(p, s.keys, k, l));
  }

  lemma ObservedAppend(done: seq<uint64>, value: uint64, keys: seq<uint64>, i: nat)
    ensures Observed(done + [value], keys, i) == Observed(done, keys, i) + (if Takes(keys, i, value) then 1 else 0)
    ensures Total(done + [value]) == Total(done) + value
  {
    assert (done + [value])[..|done|] == done;
  }

  lemma {:induction false} ObservedWider(done: seq<uint64>, keys: seq<uint64>, k: nat, l: nat)
    requires k < |keys| && Wider(keys, k, l)
    ensures Observed(done, keys, k) <= Observed(done, keys, l)
  {
    if done != [] { ObservedWider(done[..|done| - 1], keys, k, l); }
  }

  /** A bucket never exceeds a wider cell by more than the updates between them. */
  lemma CellsNested(s: State, k: nat, l: nat)
    requires Inv(s) && k < |s.keys| && l < |s.cells| && Wider(s.keys, k, l)
    ensures s.cells[k] <= s.cells[l] + BetweenCount(s, k, l)
  {
    assert CellExact(s, k) && CellExact(s, l);
    ObservedWider(s.done, s.keys, k, l);
    SumBound(s.threads, p => Past(p, s.keys, k), p => Past(p, s.keys, l), p => Between(p, s.keys, k, l));
  }

  lemma CellStep(s: State, t: nat, a: Action, i: nat)
    requires t < |s.threads| && |s.cells| == |s.keys| + 1 && Enabled(s, t, a) && i < |s.cells|
    requires CellExact(s, i) && (s.threads[t].Updating? ==> s.threads[t].next <= |s.cells|)
    ensures CellExact(Step(s, t, a), i)
  {
    var s' := Step(s, t, a);
    PastMoved(s, s', t, s'.threads[t], i);
    hide PastCount, Observed, Takes;
    var pc := s.threads[t];
    if pc.Updating? && pc.next == |s.cells| {
      ObservedAppend(s.done, pc.value, s.keys, i);
    }
  }

  lemma SumStep(s: State, t: nat, a: Action)
    requires t < |s.threads| && Inv(s) && Enabled(s, t, a)
    ensures Step(s, t, a).sum == Total(Step(s, t, a).done) % WORD
  {
    var pc := s.threads[t];
    if pc.Updating? && pc.next == |s.cells| {
      ObservedAppend(s.done, pc.value, s.keys, 0);
      ModSum(Total(s.done), pc.value);
    }
  }

  /** The gap between a value read from cell `k` and a wider unread cell does not grow. */
  lemma GapStep(s: State, t: nat, a: Action, k: nat, l: nat)
    requires t < |s.threads| && Inv(s) && Enabled(s, t, a)
    requires k < |s.keys| && l < |s.cells| && Wider(s.keys, k, l)
    ensures s.cells[l] + BetweenCount(s, k, l) <= Step(s, t, a).cells[l] + BetweenCount(Step(s, t, a), k, l)
  {
    var s' := Step(s, t, a);
    BetweenMoved(s, s', t, s'.threads[t], k, l);
    hide BetweenCount;
  }

  /** Another thread's step keeps what a clone knows. */
  lemma OtherCloneStep(s: State, t: nat, a: Action, u: nat)
    requires t < |s.threads| && u < |s.threads| && u != t && Inv(s) && Enabled(s, t, a)
    ensures CloneBehind(Step(s, t, a), s.threads[u])
  {
    var s', pc := Step(s, t, a), s.threads[u];
    assert CloneBehind(s, pc);
    if pc.Cloning? {
      forall k, l | 0 <= k < |pc.out| && pc.next <= l < |s'.cells| && Wider(s'.keys, k, l)
        ensures pc.out[k] <= s'.cells[l] + BetweenCount(s', k, l)
      {
        GapStep(s, t, a, k, l);
      }
    }
  }

  /** A clone's own step reads the next bucket. */
  lemma OwnCloneStep(s: State, t: nat, a: Action)
    requires t < |s.threads| && Inv(s) && Enabled(s, t, a)
    ensures CloneBehind(Step(s, t, a), Step(s, t, a).threads[t])
  {
    var s', pc := Step(s, t, a), s.threads[t];
    var pc' := s'.threads[t];
    assert CloneBehind(s, pc);
    if pc.Cloning? && pc'.Cloning? {
      forall k, l | 0 <= k < |pc'.out| && pc'.next <= l < |s'.cells| && Wider(s'.keys, k, l)
        ensures pc'.out[k] <= s'.cells[l] + BetweenCount(s', k, l)
      {
        BetweenMoved(s, s', t, pc', k, l);
        if k == pc.next { CellsNested(s, k, l); }
      }
    }
  }

  /** What a clone has read stays within the updates in flight of the cell it reads next. */
  lemma ReadBound(s: State, t: nat, k: nat)
    requires t < |s.threads| && Inv(s) && s.threads[t].Cloning? && k < |s.threads[t].out|
    ensures k < s.threads[t].next <= |s.keys| && InFlightCount(s) < |s.threads|
    ensures var l := s.threads[t].next;
            Wider(s.keys, k, l) ==> s.threads[t].out[k] <= s.cells[l] + InFlightCount(s)
  {
    assert CloneBehind(s, s.threads[t]);
    var l := s.threads[t].next;
    SumBound(s.threads, p => Between(p, s.keys, k, l), InFlight, p => 0);
    SumZero(s.threads, p => 0);
    SumOthers(s.threads, t, InFlight);
  }

  lemma CopyStep(s: State, t: nat, a: Action)
    requires t < |s.threads| && Inv(s) && Enabled(s, t, a)
    ensures CopyBounded(Step(s, t, a), Step(s, t, a).threads[t])
  {
    var s', pc := Step(s, t, a), s.threads[t];
    assert CloneBehind(s, pc) && CopyBounded(s, pc);
    if pc.Cloning? {
      SumOthers(s.threads, t, InFlight);
      forall k: nat | k < |pc.out|
        ensures k < pc.next && (Wider(s.keys, k, pc.next) ==> pc.out[k] <= s.cells[pc.next] + InFlightCount(s))
      {
        ReadBound(s, t, k);
      }
      hide InFlightCount, CellExact, CloneBehind;
    }
  }

  lemma CopiesStep(s: State, t: nat, a: Action)
    requires t < |s.threads| && Inv(s) && Enabled(s, t, a)
    ensures forall u :: 0 <= u < |s.threads| ==> CopyBounded(Step(s, t, a), Step(s, t, a).threads[u])
  {
    var s' := Step(s, t, a);
    CopyStep(s, t, a);
    forall u | 0 <= u < |s.threads| && u != t
      ensures CopyBounded(s', s'.threads[u])
    {
      assert CopyBounded(s, s.threads[u]) && s'.threads[u] == s.threads[u];
      hide Step, CellExact, CloneBehind, Nested, BelowCount;
    }
  }

  lemma {:induction false} ObservedPrefix(early: seq<uint64>, done: seq<uint64>, keys: seq<uint64>, i: nat)
    requires early <= done
    ensures Observed(early, keys, i) <= Observed(done, keys, i)
  {
    if |early| < |done| {
      assert early <= done[..|done| - 1];
      ObservedPrefix(early, done[..|done| - 1], keys, i);
    } else {
      assert early == done;
    }
  }

  /** A cell read now holds what was observed before. */
  lemma ReadsRecent(s: State, early: seq<uint64>, i: nat)
    requires Inv(s) && early <= s.done && i < |s.cells|
    ensures Observed(early, s.keys, i) <= s.cells[i]
  {
    assert CellExact(s, i);
    ObservedPrefix(early, s.done, s.keys, i);
  }

  lemma RecentStep(s: State, t: nat, a: Action)
    requires t < |s.threads| && Inv(s) && Enabled(s, t, a)
    ensures CopyRecent(Step(s, t, a), Step(s, t, a).threads[t])
  {
    var s', pc := Step(s, t, a), s.threads[t];
    assert CopyRecent(s, pc);
    if pc.Cloning? {
      assert CloneBehind(s, pc);
      ReadsRecent(s, pc.since, pc.next);
      CountTakesAll(pc.since, s.keys);
      hide InFlightCount, CellExact, CloneBehind, CopyBounded, Observed;
    }
  }

  lemma DoneGrows(s: State, t: nat, a: Action)
    requires t < |s.threads| && |s.cells| == |s.keys| + 1 && Enabled(s, t, a)
    ensures s.done <= Step(s, t, a).done
  {
  }

  lemma RecentsStep(s: State, t: nat, a: Action)
    requires t < |s.threads| && Inv(s) && Enabled(s, t, a)
    ensures forall u :: 0 <= u < |s.threads| ==> CopyRecent(Step(s, t, a), Step(s, t, a).threads[u])
  {
    var s' := Step(s, t, a);
    RecentStep(s, t, a);
    DoneGrows(s, t, a);
    forall u | 0 <= u < |s.threads| && u != t
      ensures CopyRecent(s', s'.threads[u])
    {
      assert CopyRecent(s, s.threads[u]) && s'.threads[u] == s.threads[u];
      hide Step, CellExact, CloneBehind, CopyBounded, CaughtUp;
    }
  }

  lemma InvStep(s: State, t: nat, a: Action)
    requires t < |s.threads| && Inv(s) && Enabled(s, t, a)
    ensures Inv(Step(s, t, a))
  {
    var s' := Step(s, t, a);
    forall i | 0 <= i < |s'.cells| ensures CellExact(s', i) { CellStep(s, t, a, i); }
    SumStep(s, t, a);
    forall u | 0 <= u < |s'.threads| ensures CloneBehind(s', s'.threads[u]) {
      if u == t { OwnCloneStep(s, t, a); } else { OtherCloneStep(s, t, a, u); }
    }
    CopiesStep(s, t, a);
    RecentsStep(s, t, a);
    hide CellExact, CloneBehind, CopyBounded, CopyRecent;
    forall u | 0 <= u < |s'.threads| && s'.threads[u].Updating?
      ensures s'.threads[u].next <= |s'.cells|
    {
      assert s.threads[u].Updating? ==> s.threads[u].next <= |s.cells|;
    }
  }

  lemma InitialInv(keys: seq<uint64>, n: nat)
    ensures Inv(Initial(keys, n))
  {
    var s := Initial(keys, n);
    forall i | 0 <= i < |s.cells| ensures CellExact(s, i) {
      SumZero(s.threads, pc => Past(pc, keys, i));
    }
  }

  lemma {:induction false} RunKeepsInv(run: seq<State>, keys: seq<uint64>, n: nat, i: nat)
    requires IsRun(run, keys, n) && i < |run|
    ensures Inv(run[i]) && run[i].keys == keys && |run[i].threads| == n
  {
    if i == 0 {
      InitialInv(keys, n);
    } else {
      RunKeepsInv(run, keys, n, i - 1);
      var s := run[i - 1];
      assert Follows(s, run[i - 1 + 1]);
      var t: nat, a: Action :| t < |s.threads| && |s.cells| == |s.keys| + 1 && Enabled(s, t, a) && run[i] == Step(s, t, a);
      InvStep(s, t, a);
    }
  }

  // ---------------------------------------------------------------- main results

  /** The observations a bucket takes are those up to its key. */
  lemma {:induction false} ObservedIsCount(done: seq<uint64>, keys: seq<uint64>, b: nat)
    requires b < |keys|
    ensures Observed(done, keys, b) == |set j | 0 <= j < |done| && done[j] <= keys[b]|
  {
    var all := set j | 0 <= j < |done| && done[j] <= keys[b];
    if done == [] {
      assert all == {};
    } else {
      var k := |done| - 1;
      ObservedIsCount(done[..k], keys, b);
      var front := set j | 0 <= j < |done[..k]| && done[..k][j] <= keys[b];
      if done[k] <= keys[b] { assert all == front + {k}; } else { assert all == front; }
    }
  }

  lemma PastIsCount(s: State, b: nat)
    requires b < |s.keys|
    ensures PastCount(s, b)
         == |set t | 0 <= t < |s.threads| && s.threads[t].Updating? && b < s.threads[t].next && s.threads[t].value <= s.keys[b]|
  {
    var f := (pc: Pc) => Past(pc, s.keys, b);
    SumIsCount(s.threads, f);
    assert PastCount(s, b) == Sum(s.threads, f) by { SumSame(s.threads, pc => Past(pc, s.keys, b), f); }
    assert Ones(s.threads, f)
        == set t | 0 <= t < |s.threads| && s.threads[t].Updating? && b < s.threads[t].next && s.threads[t].value <= s.keys[b];
  }

  lemma PastIsCountAll(s: State)
    ensures PastCount(s, |s.keys|) == |set t | 0 <= t < |s.threads| && s.threads[t].Updating? && |s.keys| < s.threads[t].next|
  {
    var f := (pc: Pc) => Past(pc, s.keys, |s.keys|);
    SumIsCount(s.threads, f);
    assert PastCount(s, |s.keys|) == Sum(s.threads, f) by { SumSame(s.threads, pc => Past(pc, s.keys, |s.keys|), f); }
    assert Ones(s.threads, f) == set t | 0 <= t < |s.threads| && s.threads[t].Updating? && |s.keys| < s.threads[t].next;
  }

  /** At every point of every interleaving, each bucket holds the completed observations up to its
      key plus the unfinished updates up to its key that are already past it, and the total count
      all of them. */
  lemma BucketsExact(run: seq<State>, keys: seq<uint64>, n: nat, i: nat, b: nat)
    requires IsRun(run, keys, n) && i < |run| && b <= |keys|
    ensures |run[i].cells| == |keys| + 1
    ensures var threads, done := run[i].threads, run[i].done;
            if b < |keys| then
              run[i].cells[b] == |set j | 0 <= j < |done| && done[j] <= keys[b]|
                                 + |set t | 0 <= t < |threads| && threads[t].Updating? && b < threads[t].next
                                            && threads[t].value <= keys[b]|
            else
              run[i].cells[b] == |done| + |set t | 0 <= t < |threads| && threads[t].Updating? && |keys| < threads[t].next|
    ensures run[i].sum == Total(run[i].done) % WORD
  {
    RunKeepsInv(run, keys, n, i);
    assert CellExact(run[i], b);
    if b < |keys| {
      ObservedIsCount(run[i].done, keys, b);
      PastIsCount(run[i], b);
    } else {
      CountTakesAll(run[i].done, keys);
      PastIsCountAll(run[i]);
    }
  }

  /** Once no update is running, buckets, count and sum are those of the observations made. */
  lemma QuiescentExact(run: seq<State>, keys: seq<uint64>, n: nat, i: nat, b: nat)
    requires IsRun(run, keys, n) && i < |run|
    requires forall t :: 0 <= t < |run[i].threads| ==> !run[i].threads[t].Updating?
    ensures |run[i].cells| == |keys| + 1
    ensures b < |keys| ==> run[i].cells[b] == |set j | 0 <= j < |run[i].done| && run[i].done[j] <= keys[b]|
    ensures run[i].cells[|keys|] == |run[i].done|
    ensures run[i].sum == Total(run[i].done) % WORD
  {
    var s := run[i];
    RunKeepsInv(run, keys, n, i);
    assert CellExact(s, |keys|);
    SumZero(s.threads, pc => Past(pc, s.keys, |keys|));
    CountTakesAll(s.done, keys);
    if b < |keys| {
      assert CellExact(s, b);
      SumZero(s.threads, pc => Past(pc, s.keys, b));
      ObservedIsCount(s.done, keys, b);
    }
  }

  lemma {:induction false} CountTakesAll(done: seq<uint64>, keys: seq<uint64>)
    ensures Observed(done, keys, |keys|) == |done|
  {
    if done != [] { CountTakesAll(done[..|done| - 1], keys); }
  }

  /** The step that copies the count: no bucket copied before exceeds it by more than the updates
      in flight at that step, and that number is what the clone keeps in `flights`. */
  lemma CloneReadsCount(run: seq<State>, keys: seq<uint64>, n: nat, i: nat, t: nat, k: nat)
    requires IsRun(run, keys, n) && i + 1 < |run| && t < |run[i].threads| && t < |run[i + 1].threads|
    requires run[i].threads[t].Cloning? && run[i + 1].threads[t].CloningSum?
    requires k < |run[i + 1].threads[t].out|
    ensures var pc := run[i + 1].threads[t];
            && |run[i + 1].cells| == |keys| + 1 && pc.count == run[i + 1].cells[|keys|]
            && pc.out[k] <= pc.count + InFlightCount(run[i + 1])
            && |pc.flights| == |pc.out| + 1 && pc.flights[|pc.out|] == InFlightCount(run[i + 1])
  {
    var s, s' := run[i], run[i + 1];
    RunKeepsInv(run, keys, n, i);
    RunKeepsInv(run, keys, n, i + 1);
    assert Follows(s, s');
    var u: nat, a: Action :| u < |s.threads| && |s.cells| == |s.keys| + 1 && Enabled(s, u, a) && s' == Step(s, u, a);
    CountStep(s, u, a, t);
    assert CopyBounded(s', s'.threads[t]);
  }

  lemma CountStep(s: State, u: nat, a: Action, t: nat)
    requires Inv(s) && u < |s.threads| && t < |s.threads| && Enabled(s, u, a)
    requires s.threads[t].Cloning? && Step(s, u, a).threads[t].CloningSum?
    ensures var s' := Step(s, u, a);
            var pc := s'.threads[t];
            && pc.count == s'.cells[|s.keys|] && InFlightCount(s') == InFlightCount(s)
            && |pc.flights| == |pc.out| + 1 && pc.flights[|pc.out|] == InFlightCount(s)
  {
    var s' := Step(s, u, a);
    assert u == t && CopyBounded(s, s.threads[t]);
    hide CellExact, CloneBehind, Nested;
    SumUpdate(s.threads, t, s'.threads[t], InFlight);
  }

  /** What a finished clone returns, however updates ran beside it: no bucket exceeds the count,
      nor a wider bucket, by more than the updates in flight when that one was read, and those
      were fewer than the threads. */
  lemma CloneBound(run: seq<State>, keys: seq<uint64>, n: nat, i: nat, t: nat, k: nat)
    requires IsRun(run, keys, n) && i < |run| && t < |run[i].threads|
    requires run[i].threads[t].Cloned? && k < |run[i].threads[t].out|
    ensures var pc := run[i].threads[t];
            && |pc.flights| == |pc.out| + 1 && (forall l :: 0 <= l <= |pc.out| ==> pc.flights[l] < n)
            && pc.out[k] <= pc.count + pc.flights[|pc.out|]
            && forall l :: k < l < |pc.out| && Wider(keys, k, l) ==> pc.out[k] <= pc.out[l] + pc.flights[l]
  {
    RunKeepsInv(run, keys, n, i);
    assert CopyBounded(run[i], run[i].threads[t]);
  }

  /** Nor does a finished clone miss anything older than itself: buckets and count hold at least
      the observations completed when it began, which are still the first ones. */
  lemma CloneRecent(run: seq<State>, keys: seq<uint64>, n: nat, i: nat, t: nat, k: nat)
    requires IsRun(run, keys, n) && i < |run| && t < |run[i].threads| && run[i].threads[t].Cloned?
    ensures var pc := run[i].threads[t];
            && pc.since <= run[i].done && |pc.since| <= pc.count
            && (k < |pc.out| && k < |keys| ==> |set j | 0 <= j < |pc.since| && pc.since[j] <= keys[k]| <= pc.out[k])
  {
    RunKeepsInv(run, keys, n, i);
    assert CopyRecent(run[i], run[i].threads[t]);
    if k < |keys| { ObservedIsCount(run[i].threads[t].since, keys, k); }
  }
}
