/** config/cfgutils/logging.c as a protocol: any number of threads create, install, log through
    and release reference-counted log contexts, one atomic step at a time. */
module LogContext {
  import opened Bytes
  import opened Threads

  type Id = nat

  /** VMW_DEPLOY_LOG_CONTEXT. `owned` counts the references the application holds and `frees`
      the calls of VmwDeployFreeLogContext; the code itself only has `refcount`. */
  datatype Ctx = Ctx(refcount: int, owned: nat, frees: nat)

  /** Where a thread stands. `arg` is the context passed to VmwDeploySetLogContext: until the call
      has a reference of its own it borrows the application's, and any number of calls may borrow
      the same one. `cur` is the local `pCurContext`. */
  datatype Pc =
    | Idle
    | SetWaiting(arg: Option<Id>)
    | SetLocked(arg: Option<Id>)
    | SetLoaded(arg: Option<Id>, cur: Option<Id>)
    | SetAcquired(arg: Option<Id>, cur: Option<Id>)
    | SetStored(arg: Option<Id>, cur: Option<Id>)
    | SetUnlocked(cur: Option<Id>)
    | LogWaiting
    | LogLocked
    | LogLoaded(cur: Option<Id>)
    | LogAcquired(cur: Option<Id>)
    | LogUnlocked(cur: Option<Id>)
    | LogCalling(ctx: Id)
    | Releasing(ctx: Id)
    | Freeing(ctx: Id)

  datatype State = State(contexts: seq<Ctx>, installed: Option<Id>, mutex: Option<nat>, threads: seq<Pc>)

  datatype Action = Create | BeginRelease(ctx: Id) | BeginSet(arg: Option<Id>) | BeginLog | Advance(levelAllows: bool)

  function Initial(threadCount: nat): State {
    State([], None, None, seq(threadCount, _ => Idle))
  }

  // ---------------------------------------------------------------- steps

  function AddRef(contexts: seq<Ctx>, c: Option<Id>, delta: int): (r: seq<Ctx>)
    ensures |r| == |contexts|
  {
    if c.Some? && c.value < |contexts|
    then contexts[c.value := contexts[c.value].(refcount := contexts[c.value].refcount + delta)]
    else contexts
  }

  /** The application gives up one of the references it owns. */
  function Disown(contexts: seq<Ctx>, c: Id): (r: seq<Ctx>)
    requires c < |contexts| && contexts[c].owned > 0
    ensures |r| == |contexts|
  {
    contexts[c := contexts[c].(owned := contexts[c].owned - 1)]
  }

  predicate Owns(s: State, c: Option<Id>) {
    c.Some? ==> c.value < |s.contexts| && s.contexts[c.value].owned > 0
  }

  /** The context that a call has yet to take a reference of its own to. */
  function Borrowed(pc: Pc): Option<Id> {
    match pc
    case SetWaiting(arg) => arg
    case SetLocked(arg) => arg
    case SetLoaded(arg, _) => arg
    case _ => None
  }

  /** A call inside the critical section is safe as well while the global slot, which no other
      thread can then change, refers to the same context. */
  predicate Sheltered(s: State, pc: Pc) {
    InCritical(pc) && Borrowed(pc) == s.installed
  }

  /** Some call relies on the application's reference to `c`. */
  predicate Relied(s: State, c: Id) {
    exists t :: 0 <= t < |s.threads| && Borrowed(s.threads[t]) == Some(c) && !Sheltered(s, s.threads[t])
  }

  /** What the code itself lets happen next. */
  predicate Possible(s: State, t: nat, a: Action)
    requires t < |s.threads|
  {
    match a
    case Create => s.threads[t] == Idle
    case BeginRelease(c) => s.threads[t] == Idle && Owns(s, Some(c))
    case BeginSet(arg) => s.threads[t] == Idle && Owns(s, arg)
    case BeginLog => s.threads[t] == Idle
    case Advance(_) => s.threads[t] != Idle && (s.threads[t].SetWaiting? || s.threads[t].LogWaiting? ==> s.mutex == None)
  }

  /** The one rule for callers: the application's reference stays while a call relies on it. */
  predicate Begins(s: State, t: nat, a: Action)
    requires t < |s.threads|
  {
    Possible(s, t, a) && (a.BeginRelease? ==> !Relied(s, a.ctx))
  }

  function Goto(s: State, t: nat, pc: Pc): State
    requires t < |s.threads|
  {
    s.(threads := s.threads[t := pc])
  }

  /** What one step of thread `t` does to the shared state, and where the thread goes. */
  function Step(s: State, t: nat, a: Action): (s': State)
    requires t < |s.threads| && Possible(s, t, a)
    ensures |s'.threads| == |s.threads|
  {
    match a
    case Create => s.(contexts := s.contexts + [Ctx(1, 1, 0)])
    case BeginRelease(c) => Goto(s, t, Releasing(c)).(contexts := Disown(s.contexts, c))
    case BeginSet(arg) => Goto(s, t, SetWaiting(arg))
    case BeginLog => Goto(s, t, LogWaiting)
    case Advance(levelAllows) =>
      match s.threads[t]
      case SetWaiting(arg) => Goto(s, t, SetLocked(arg)).(mutex := Some(t))
      case SetLocked(arg) => Goto(s, t, SetLoaded(arg, s.installed))
      case SetLoaded(arg, cur) => Goto(s, t, SetAcquired(arg, cur)).(contexts := AddRef(s.contexts, arg, 1))
      case SetAcquired(arg, cur) => Goto(s, t, SetStored(arg, cur)).(installed := arg)
      case SetStored(_, cur) => Goto(s, t, SetUnlocked(cur)).(mutex := None)
      case SetUnlocked(cur) =>
        if cur.Some? then Goto(s, t, Releasing(cur.value))
        else Goto(s, t, Idle)
      case LogWaiting => Goto(s, t, LogLocked).(mutex := Some(t))
      case LogLocked => Goto(s, t, LogLoaded(s.installed))
      case LogLoaded(cur) => Goto(s, t, LogAcquired(cur)).(contexts := AddRef(s.contexts, cur, 1))
      case LogAcquired(cur) => Goto(s, t, LogUnlocked(cur)).(mutex := None)
      case LogUnlocked(cur) =>
        if cur == None then Goto(s, t, Idle)
        else if levelAllows then Goto(s, t, LogCalling(cur.value))
        else Goto(s, t, Releasing(cur.value))
      case LogCalling(c) => Goto(s, t, Releasing(c))
      case Releasing(c) =>
        var contexts := AddRef(s.contexts, Some(c), -1);
        if c < |contexts| && contexts[c].refcount == 0 then Goto(s, t, Freeing(c)).(contexts := contexts)
        else Goto(s, t, Idle).(contexts := contexts)
      case Freeing(c) => Goto(s, t, Idle).(contexts := Free(s.contexts, c))
      case Idle => s
  }

  function Free(contexts: seq<Ctx>, c: Id): (r: seq<Ctx>)
    ensures |r| == |contexts|
  {
    if c < |contexts| then contexts[c := contexts[c].(frees := contexts[c].frees + 1)] else contexts
  }

  /** A run is any sequence of enabled steps of any threads. */
  ghost predicate IsRun(run: seq<State>, n: nat) {
    && run != [] && run[0] == Initial(n)
    && forall i :: 0 <= i < |run| - 1 ==> Follows(run[i], run[i + 1])
  }

  ghost predicate Follows(s: State, s': State) {
    exists t: nat, a: Action :: t < |s.threads| && Begins(s, t, a) && s' == Step(s, t, a)
  }

  // ---------------------------------------------------------------- counting references

  function Is(o: Option<Id>, c: Id): nat { if o == Some(c) then 1 else 0 }

  /** References to `c` that a thread at `pc` holds beyond the borrowed one. */
  function Holds(pc: Pc, c: Id): nat {
    match pc
    case SetAcquired(arg, _) => Is(arg, c)
    case SetStored(_, cur) => Is(cur, c)
    case SetUnlocked(cur) => Is(cur, c)
    case LogAcquired(cur) => Is(cur, c)
    case LogUnlocked(cur) => Is(cur, c)
    case LogCalling(x) => Is(Some(x), c)
    case Releasing(x) => Is(Some(x), c)
    case _ => 0
  }

  function AboutToFree(pc: Pc, c: Id): nat {
    if pc.Freeing? && pc.ctx == c then 1 else 0
  }

  function HeldByThreads(s: State, c: Id): nat { Sum(s.threads, pc => Holds(pc, c)) }
  function Frees(s: State, c: Id): nat { Sum(s.threads, pc => AboutToFree(pc, c)) }

  lemma Moved(s: State, s': State, t: nat, pc: Pc, c: Id)
    requires t < |s.threads| && s'.threads == s.threads[t := pc]
    ensures HeldByThreads(s', c) == HeldByThreads(s, c) - Holds(s.threads[t], c) + Holds(pc, c)
    ensures HeldByThreads(s, c) >= Holds(s.threads[t], c)
    ensures Frees(s', c) == Frees(s, c) - AboutToFree(s.threads[t], c) + AboutToFree(pc, c)
    ensures Frees(s, c) >= AboutToFree(s.threads[t], c)
  {
    SumUpdate(s.threads, t, pc, p => Holds(p, c));
    SumUpdate(s.threads, t, pc, p => AboutToFree(p, c));
  }

  // ---------------------------------------------------------------- the invariant

  predicate InCritical(pc: Pc) {
    pc.SetLocked? || pc.SetLoaded? || pc.SetAcquired? || pc.SetStored? || pc.LogLocked? || pc.LogLoaded? || pc.LogAcquired?
  }

  /** Locals loaded from the global slot still agree with it while the mutex is held. */
  predicate LocalAgrees(s: State, pc: Pc) {
    && (pc.SetLoaded? || pc.SetAcquired? ==> pc.cur == s.installed)
    && (pc.SetStored? ==> pc.arg == s.installed)
    && (pc.LogLoaded? || pc.LogAcquired? ==> pc.cur == s.installed)
  }

  predicate Excludes(s: State) {
    forall t :: 0 <= t < |s.threads| ==> (InCritical(s.threads[t]) <==> s.mutex == Some(t)) && LocalAgrees(s, s.threads[t])
  }

  function References(s: State, c: Id): nat
    requires c < |s.contexts|
  {
    s.contexts[c].owned + Is(s.installed, c) + HeldByThreads(s, c)
  }

  /** The count equals the references, and a count of zero goes with exactly one free: done, or
      about to be done by one thread. */
  predicate Counted(s: State, c: Id)
    requires c < |s.contexts|
  {
    && s.contexts[c].refcount == References(s, c)
    && s.contexts[c].frees + Frees(s, c) == (if s.contexts[c].refcount == 0 then 1 else 0)
  }

  /** No reference leads outside the contexts created so far. */
  predicate Closed(s: State) {
    && (s.installed.Some? ==> s.installed.value < |s.contexts|)
    && forall t :: 0 <= t < |s.threads| ==> KnownIds(s.threads[t], |s.contexts|)
  }

  predicate Below(o: Option<Id>, n: nat) { o.Some? ==> o.value < n }

  predicate KnownIds(pc: Pc, n: nat) {
    match pc
    case SetWaiting(arg) => Below(arg, n)
    case SetLocked(arg) => Below(arg, n)
    case SetLoaded(arg, cur) => Below(arg, n) && Below(cur, n)
    case SetAcquired(arg, cur) => Below(arg, n) && Below(cur, n)
    case SetStored(arg, cur) => Below(arg, n) && Below(cur, n)
    case SetUnlocked(cur) => Below(cur, n)
    case LogLoaded(cur) => Below(cur, n)
    case LogAcquired(cur) => Below(cur, n)
    case LogUnlocked(cur) => Below(cur, n)
    case LogCalling(x) => x < n
    case Releasing(x) => x < n
    case Freeing(x) => x < n
    case _ => true
  }

  /** What a call borrows, the application still owns or the global slot protects. */
  predicate Backed(s: State, pc: Pc) {
    Owns(s, Borrowed(pc)) || (Sheltered(s, pc) && Below(s.installed, |s.contexts|))
  }

  predicate Lent(s: State) {
    forall t :: 0 <= t < |s.threads| ==> Backed(s, s.threads[t])
  }

  ghost predicate Inv(s: State) {
    && Closed(s) && Excludes(s) && Lent(s)
    && forall c: Id :: c < |s.contexts| ==> Counted(s, c)
  }

  lemma KnownIdsGrow(pc: Pc, n: nat, m: nat)
    requires KnownIds(pc, n) && n <= m
    ensures KnownIds(pc, m)
  {
  }

  lemma NextKnown(s: State, t: nat, a: Action)
    requires t < |s.threads| && Begins(s, t, a) && KnownIds(s.threads[t], |s.contexts|)
    requires s.installed.Some? ==> s.installed.value < |s.contexts|
    ensures var s' := Step(s, t, a);
            && |s.contexts| <= |s'.contexts| && s'.threads == s.threads[t := s'.threads[t]]
            && KnownIds(s'.threads[t], |s'.contexts|)
            && (s'.installed.Some? ==> s'.installed.value < |s'.contexts|)
  {
    hide AddRef, Disown, Free;
  }

  lemma ClosedStep(s: State, t: nat, a: Action)
    requires t < |s.threads| && Begins(s, t, a) && Closed(s)
    ensures Closed(Step(s, t, a))
  {
    var s' := Step(s, t, a);
    assert KnownIds(s.threads[t], |s.contexts|);
    NextKnown(s, t, a);
    hide KnownIds, Step, Begins;
    forall u | 0 <= u < |s'.threads|
      ensures KnownIds(s'.threads[u], |s'.contexts|)
    {
      if u != t { KnownIdsGrow(s.threads[u], |s.contexts|, |s'.contexts|); }
    }
  }

  lemma ExcludesStep(s: State, t: nat, a: Action)
    requires t < |s.threads| && Begins(s, t, a) && Excludes(s)
    ensures Excludes(Step(s, t, a))
  {
    hide AddRef, Disown, Free;
    var s' := Step(s, t, a);
    forall u | 0 <= u < |s'.threads|
      ensures (InCritical(s'.threads[u]) <==> s'.mutex == Some(u)) && LocalAgrees(s', s'.threads[u])
    {
      assert InCritical(s.threads[u]) <==> s.mutex == Some(u);
      assert LocalAgrees(s, s.threads[u]) && LocalAgrees(s, s.threads[t]);
      assert InCritical(s.threads[t]) <==> s.mutex == Some(t);
    }
  }

  lemma AddRefAt(contexts: seq<Ctx>, o: Option<Id>, delta: int, c: Id)
    requires c < |contexts|
    ensures AddRef(contexts, o, delta)[c] == contexts[c].(refcount := contexts[c].refcount + delta * Is(o, c))
  {
  }

  lemma DisownAt(contexts: seq<Ctx>, x: Id, c: Id)
    requires c < |contexts| && x < |contexts| && contexts[x].owned > 0
    ensures contexts[c].owned >= Is(Some(x), c)
    ensures Disown(contexts, x)[c] == contexts[c].(owned := contexts[c].owned - Is(Some(x), c))
  {
  }

  /** Only a release changes what the application owns, and only when nothing borrows the last
      reference. */
  lemma OwnedStep(s: State, t: nat, a: Action, c: Id)
    requires t < |s.threads| && Begins(s, t, a) && c < |s.contexts|
    ensures c < |Step(s, t, a).contexts|
    ensures Step(s, t, a).contexts[c].owned == if a == BeginRelease(c) then s.contexts[c].owned - 1 else s.contexts[c].owned
  {
  }

  lemma ArgStep(s: State, t: nat, a: Action)
    requires t < |s.threads| && Begins(s, t, a)
    ensures var s' := Step(s, t, a);
            && s'.threads == s.threads[t := s'.threads[t]]
            && (Borrowed(s'.threads[t]) == Borrowed(s.threads[t]) || Borrowed(s'.threads[t]) == None || a == BeginSet(Borrowed(s'.threads[t])))
  {
    hide AddRef, Disown, Free;
  }

  /** While one thread is in the critical section no other changes the global slot, and contexts
      do not disappear. */
  lemma SlotStep(s: State, t: nat, a: Action, u: nat)
    requires t < |s.threads| && u < |s.threads| && Begins(s, t, a) && Excludes(s) && InCritical(s.threads[u])
    ensures var s' := Step(s, t, a);
            && |s.contexts| <= |s'.contexts|
            && (u != t || Borrowed(s'.threads[t]) != None ==> s'.installed == s.installed)
            && (u == t && Borrowed(s'.threads[t]) != None ==> InCritical(s'.threads[t]))
  {
    hide AddRef, Disown, Free;
    assert InCritical(s.threads[u]) <==> s.mutex == Some(u);
    assert InCritical(s.threads[t]) <==> s.mutex == Some(t);
  }

  lemma BackedStep(s: State, t: nat, a: Action, u: nat)
    requires t < |s.threads| && u < |s.threads| && Begins(s, t, a) && Excludes(s) && Lent(s)
    ensures Backed(Step(s, t, a), Step(s, t, a).threads[u])
  {
    var s' := Step(s, t, a);
    var arg := Borrowed(s'.threads[u]);
    ArgStep(s, t, a);
    assert Backed(s, s.threads[u]);
    if arg.Some? {
      if InCritical(s.threads[u]) { SlotStep(s, t, a, u); }
      if arg.value < |s.contexts| { OwnedStep(s, t, a, arg.value); }
      hide Step, InCritical;
      if u != t { assert s'.threads[u] == s.threads[u]; }
    }
  }

  lemma LentStep(s: State, t: nat, a: Action)
    requires t < |s.threads| && Begins(s, t, a) && Excludes(s) && Lent(s)
    ensures Lent(Step(s, t, a))
  {
    forall u | 0 <= u < |s.threads| ensures Backed(Step(s, t, a), Step(s, t, a).threads[u]) {
      BackedStep(s, t, a, u);
    }
  }

  /** A step that changes neither counts nor the global slot nor what the thread holds. */
  lemma CountedSame(s: State, s': State, t: nat, c: Id)
    requires t < |s.threads| && |s'.threads| == |s.threads| && s'.threads == s.threads[t := s'.threads[t]]
    requires s'.contexts == s.contexts && s'.installed == s.installed
    requires c < |s.contexts| && Counted(s, c)
    requires Holds(s'.threads[t], c) == Holds(s.threads[t], c) && AboutToFree(s'.threads[t], c) == AboutToFree(s.threads[t], c)
    ensures Counted(s', c)
  {
    Moved(s, s', t, s'.threads[t], c);
  }

  /** Beginning a release moves one application reference into the thread; other calls begin
      without one. */
  lemma CountedBegin(s: State, t: nat, a: Action, c: Id)
    requires t < |s.threads| && Begins(s, t, a) && !a.Advance? && !a.Create?
    requires c < |s.contexts| && Counted(s, c)
    ensures c < |Step(s, t, a).contexts| && Counted(Step(s, t, a), c)
  {
    var s' := Step(s, t, a);
    if a.BeginRelease? {
      Moved(s, s', t, s'.threads[t], c);
      hide HeldByThreads, Frees, Disown;
      DisownAt(s.contexts, a.ctx, c);
    } else {
      CountedSame(s, s', t, c);
    }
  }

  predicate Quiet(pc: Pc) {
    pc.SetWaiting? || pc.SetLocked? || pc.SetStored? || pc.SetUnlocked?
    || pc.LogWaiting? || pc.LogLocked? || pc.LogAcquired? || pc.LogUnlocked? || pc.LogCalling?
  }

  lemma CountedQuiet(s: State, t: nat, a: Action, c: Id)
    requires t < |s.threads| && Begins(s, t, a) && a.Advance? && Quiet(s.threads[t])
    requires c < |s.contexts| && Counted(s, c)
    ensures c < |Step(s, t, a).contexts| && Counted(Step(s, t, a), c)
  {
    hide Counted;
    CountedSame(s, Step(s, t, a), t, c);
  }

  /** The atomic increment of an acquire. */
  lemma CountedAcquire(s: State, t: nat, a: Action, c: Id)
    requires t < |s.threads| && Begins(s, t, a) && a.Advance? && (s.threads[t].SetLoaded? || s.threads[t].LogLoaded?)
    requires c < |s.contexts| && Counted(s, c)
    requires Backed(s, s.threads[t])
    requires s.threads[t].LogLoaded? ==> s.threads[t].cur == s.installed
    ensures c < |Step(s, t, a).contexts| && Counted(Step(s, t, a), c)
  {
    var s', pc := Step(s, t, a), s.threads[t];
    Moved(s, s', t, s'.threads[t], c);
    hide HeldByThreads, Frees, AddRef;
    if pc.SetLoaded? { AddRefAt(s.contexts, pc.arg, 1, c); } else { AddRefAt(s.contexts, pc.cur, 1, c); }
  }

  /** Storing the global slot swaps the acquired reference for the one the slot held. */
  lemma CountedInstall(s: State, t: nat, a: Action, c: Id)
    requires t < |s.threads| && Begins(s, t, a) && a.Advance? && s.threads[t].SetAcquired?
    requires c < |s.contexts| && Counted(s, c) && s.threads[t].cur == s.installed
    ensures c < |Step(s, t, a).contexts| && Counted(Step(s, t, a), c)
  {
    var s' := Step(s, t, a);
    Moved(s, s', t, s'.threads[t], c);
    hide HeldByThreads, Frees;
  }

  lemma CountedFree(s: State, t: nat, a: Action, c: Id)
    requires t < |s.threads| && Begins(s, t, a) && a.Advance? && s.threads[t].Freeing?
    requires c < |s.contexts| && Counted(s, c)
    ensures c < |Step(s, t, a).contexts| && Counted(Step(s, t, a), c)
  {
    var s' := Step(s, t, a);
    Moved(s, s', t, s'.threads[t], c);
    hide HeldByThreads, Frees;
  }

  /** The atomic decrement: the last reference gone means this thread frees. */
  lemma CountedRelease(s: State, t: nat, a: Action, c: Id)
    requires t < |s.threads| && Begins(s, t, a) && a.Advance? && s.threads[t].Releasing?
    requires c < |s.contexts| && Counted(s, c)
    ensures c < |Step(s, t, a).contexts| && Counted(Step(s, t, a), c)
  {
    var s', pc := Step(s, t, a), s.threads[t];
    Moved(s, s', t, s'.threads[t], c);
    hide HeldByThreads, Frees, AddRef;
    AddRefAt(s.contexts, Some(pc.ctx), -1, c);
  }

  /** One step keeps the count of one context exact. */
  lemma CountedStep(s: State, t: nat, a: Action, c: Id)
    requires t < |s.threads| && Begins(s, t, a) && Inv(s)
    requires c < |s.contexts|
    ensures c < |Step(s, t, a).contexts| && Counted(Step(s, t, a), c)
  {
    var pc := s.threads[t];
    assert LocalAgrees(s, pc) && Counted(s, c) && Backed(s, pc);
    hide Step, Counted;
    if a.Create? {
      CountedCreate(s, t, c);
    } else if !a.Advance? {
      CountedBegin(s, t, a, c);
    } else if Quiet(pc) {
      CountedQuiet(s, t, a, c);
    } else if pc.SetLoaded? || pc.LogLoaded? {
      CountedAcquire(s, t, a, c);
    } else if pc.SetAcquired? {
      CountedInstall(s, t, a, c);
    } else if pc.Releasing? {
      CountedRelease(s, t, a, c);
    } else {
      CountedFree(s, t, a, c);
    }
  }

  lemma CountedCreate(s: State, t: nat, c: Id)
    requires t < |s.threads| && Begins(s, t, Create)
    requires c < |s.contexts| && Counted(s, c)
    ensures c < |Step(s, t, Create).contexts| && Counted(Step(s, t, Create), c)
  {
  }

  lemma NewContextCounted(s: State, t: nat)
    requires t < |s.threads| && Begins(s, t, Create) && Inv(s)
    ensures Counted(Step(s, t, Create), |s.contexts|)
  {
    var c := |s.contexts|;
    forall t | 0 <= t < |s.threads|
      ensures Holds(s.threads[t], c) == 0 && AboutToFree(s.threads[t], c) == 0
    {
      assert KnownIds(s.threads[t], c);
    }
    SumZero(s.threads, pc => Holds(pc, c));
    SumZero(s.threads, pc => AboutToFree(pc, c));
  }

  lemma InvStep(s: State, t: nat, a: Action)
    requires t < |s.threads| && Begins(s, t, a) && Inv(s)
    ensures Inv(Step(s, t, a))
  {
    var s' := Step(s, t, a);
    ClosedStep(s, t, a);
    ExcludesStep(s, t, a);
    LentStep(s, t, a);
    forall c: Id | c < |s'.contexts|
      ensures Counted(s', c)
    {
      if c < |s.contexts| {
        CountedStep(s, t, a, c);
      } else {
        NewContextCounted(s, t);
      }
    }
  }

  lemma {:induction false} RunKeepsInv(run: seq<State>, n: nat, i: nat)
    requires IsRun(run, n) && i < |run|
    ensures Inv(run[i])
  {
    if i == 0 {
      assert Inv(run[0]);
    } else {
      RunKeepsInv(run, n, i - 1);
      assert Follows(run[i - 1], run[i - 1 + 1]);
      var t: nat, a: Action :| t < |run[i - 1].threads| && Begins(run[i - 1], t, a) && run[i] == Step(run[i - 1], t, a);
      InvStep(run[i - 1], t, a);
    }
  }

  // ---------------------------------------------------------------- safety

  /** The contexts whose fields the thread's next step reads or writes: the log callback, the
      level test, the atomic increments and decrements, and the free itself. */
  predicate Uses(pc: Pc, c: Id) {
    match pc
    case SetLoaded(arg, _) => arg == Some(c)
    case LogLoaded(cur) => cur == Some(c)
    case LogUnlocked(cur) => cur == Some(c)
    case LogCalling(x) => x == c
    case Releasing(x) => x == c
    case Freeing(x) => x == c
    case _ => false
  }

  lemma UsedIsLive(s: State, t: nat, c: Id)
    requires Inv(s) && t < |s.threads| && Uses(s.threads[t], c)
    ensures c < |s.contexts| && s.contexts[c].frees == 0
  {
    var pc := s.threads[t];
    assert KnownIds(pc, |s.contexts|) && LocalAgrees(s, pc) && Backed(s, pc);
    assert Counted(s, c);
    Moved(s, s.(threads := s.threads[t := Idle]), t, Idle, c);
  }

  /** The count of every context equals its references, and a context without references has
      either been freed once or one thread is about to free it. */
  predicate CountsExact(s: State) {
    forall c: Id :: c < |s.contexts| ==>
      && s.contexts[c].refcount == References(s, c)
      && s.contexts[c].frees + Frees(s, c) == (if References(s, c) == 0 then 1 else 0)
  }

  /** No next step of any thread touches a context that has been freed. */
  ghost predicate UsesOnlyLive(s: State) {
    forall t: nat, c: Id {:trigger Uses(s.threads[t], c)} ::
      t < |s.threads| && Uses(s.threads[t], c) ==> c < |s.contexts| && s.contexts[c].frees == 0
  }

  predicate MutuallyExclusive(s: State) {
    forall t, u :: 0 <= t < |s.threads| && 0 <= u < |s.threads| && InCritical(s.threads[t]) && InCritical(s.threads[u])
      ==> t == u
  }

  /** In every interleaving of any number of threads the counts are exact, each context is freed
      at most once, nothing freed is used, and the mutex admits one thread. */
  lemma Safety(run: seq<State>, n: nat, i: nat)
    requires IsRun(run, n) && i < |run|
    ensures CountsExact(run[i]) && UsesOnlyLive(run[i]) && MutuallyExclusive(run[i])
  {
    var s := run[i];
    RunKeepsInv(run, n, i);
    forall c: Id | c < |s.contexts|
      ensures s.contexts[c].refcount == References(s, c)
      ensures s.contexts[c].frees + Frees(s, c) == (if References(s, c) == 0 then 1 else 0)
    {
      assert Counted(s, c);
    }
    AllUsesLive(s);
  }

  lemma AllUsesLive(s: State)
    requires Inv(s)
    ensures UsesOnlyLive(s)
  {
    forall t: nat, c: Id {:trigger Uses(s.threads[t], c)} | t < |s.threads| && Uses(s.threads[t], c)
      ensures c < |s.contexts| && s.contexts[c].frees == 0
    {
      UsedIsLive(s, t, c);
    }
  }

  /** Why callers need the rule: in any state, releasing a context whose only reference is the
      application's frees it, and a call that borrowed it still stands where it did. */
  lemma LastReferenceReleased(s: State, t: nat, u: nat, c: Id)
    requires t < |s.threads| && u < |s.threads| && t != u && s.threads[t] == Idle
    requires Owns(s, Some(c)) && s.contexts[c].refcount == 1 && Borrowed(s.threads[u]) == Some(c)
    ensures Possible(s, t, BeginRelease(c))
    ensures var s1 := Step(s, t, BeginRelease(c));
            && Possible(s1, t, Advance(true))
            && var s2 := Step(s1, t, Advance(true));
               && Possible(s2, t, Advance(true))
               && var s3 := Step(s2, t, Advance(true));
                  && s3.threads == s.threads && c < |s3.contexts|
                  && s3.contexts[c].frees == s.contexts[c].frees + 1
  {
    var s1 := Step(s, t, BeginRelease(c));
    assert s1.threads[t] == Releasing(c) && s1.contexts[c].refcount == 1;
    var s2 := Step(s1, t, Advance(true));
    assert s2.threads[t] == Freeing(c);
  }

  /** A call that has loaded the global slot but taken no reference of its own. */
  function AboutToAcquire(): State {
    State([Ctx(1, 1, 0)], None, Some(0), [SetLoaded(Some(0), None), Idle])
  }

  lemma AboutToAcquireReached() returns (run: seq<State>)
    ensures IsRun(run, 2) && run[|run| - 1] == AboutToAcquire()
  {
    var s0 := Initial(2);
    var s1 := State([Ctx(1, 1, 0)], None, None, [Idle, Idle]);
    var s2 := State([Ctx(1, 1, 0)], None, None, [SetWaiting(Some(0)), Idle]);
    var s3 := State([Ctx(1, 1, 0)], None, Some(0), [SetLocked(Some(0)), Idle]);
    run := [s0, s1, s2, s3, AboutToAcquire()];
    assert s1 == Step(s0, 0, Create);
    assert s2 == Step(s1, 0, BeginSet(Some(0)));
    assert s3 == Step(s2, 0, Advance(true));
    assert AboutToAcquire() == Step(s3, 0, Advance(true));
    assert Follows(s0, s1) && Follows(s1, s2) && Follows(s2, s3) && Follows(s3, AboutToAcquire());
  }

  /** Without the rule the code is not safe: three steps of another thread from a state that is
      reached within the rule, and the call's next step uses a freed context. */
  lemma EarlyReleaseUnsafe() returns (s1: State, s2: State, s3: State)
    ensures CodeFollows(AboutToAcquire(), s1) && CodeFollows(s1, s2) && CodeFollows(s2, s3)
    ensures !UsesOnlyLive(s3)
  {
    var s := AboutToAcquire();
    LastReferenceReleased(s, 1, 0, 0);
    s1 := Step(s, 1, BeginRelease(0));
    s2 := Step(s1, 1, Advance(true));
    s3 := Step(s2, 1, Advance(true));
    hide Step;
    assert Uses(s3.threads[0], 0);
  }

  /** A step that the code allows, whatever callers do. */
  ghost predicate CodeFollows(s: State, s': State) {
    exists t: nat, a: Action :: t < |s.threads| && Possible(s, t, a) && s' == Step(s, t, a)
  }

  /** Runs include those in which two threads install the same context through one reference. */
  lemma SharedArgument() returns (run: seq<State>)
    ensures IsRun(run, 2) && |run| == 4
    ensures run[3].threads == [SetWaiting(Some(0)), SetWaiting(Some(0))] && run[3].contexts == [Ctx(1, 1, 0)]
  {
    var s0 := Initial(2);
    var s1 := Step(s0, 0, Create);
    var s2 := Step(s1, 0, BeginSet(Some(0)));
    var s3 := Step(s2, 1, BeginSet(Some(0)));
    run := [s0, s1, s2, s3];
    assert Follows(s0, s1) && Follows(s1, s2) && Follows(s2, s3);
  }

  /** Nothing leaks: once all threads are idle a context has been freed exactly when neither
      the application nor the global slot refers to it. */
  lemma NoLeakAtRest(run: seq<State>, n: nat, i: nat, c: Id)
    requires IsRun(run, n) && i < |run|
    requires forall t :: 0 <= t < |run[i].threads| ==> run[i].threads[t] == Idle
    requires c < |run[i].contexts|
    ensures run[i].contexts[c].frees == 1 <==> run[i].contexts[c].owned == 0 && run[i].installed != Some(c)
  {
    RunKeepsInv(run, n, i);
    assert Counted(run[i], c);
    SumZero(run[i].threads, pc => Holds(pc, c));
    SumZero(run[i].threads, pc => AboutToFree(pc, c));
  }

  // ---------------------------------------------------------------- what the calls do

  /** The next `k` steps of thread `t`, with no other thread in between, lead to `s'`. */
  predicate Alone(s: State, t: nat, k: nat, s': State)
    requires t < |s.threads|
    decreases k
  {
    if k == 0 then s' == s
    else Possible(s, t, Advance(true)) && Alone(Step(s, t, Advance(true)), t, k - 1, s')
  }

  lemma AloneStep(s: State, t: nat, k: nat, s1: State, s': State)
    requires t < |s.threads| && t < |s1.threads| && Possible(s, t, Advance(true)) && s1 == Step(s, t, Advance(true))
    requires Alone(s1, t, k, s')
    ensures Alone(s, t, k + 1, s')
  {
    hide Step, Possible;
  }

  /** From any state with the mutex free, a set call left alone installs its argument and goes out
      of the critical section with what was installed before. */
  lemma SetAlone(s: State, t: nat)
    requires t < |s.threads| && s.threads[t].SetWaiting? && s.mutex == None
    ensures var arg := s.threads[t].arg;
            Alone(s, t, 5, State(AddRef(s.contexts, arg, 1), arg, None, s.threads[t := SetUnlocked(s.installed)]))
  {
    hide AddRef, Alone;
    var arg, now, before := s.threads[t].arg, s.threads, s.installed;
    var more := AddRef(s.contexts, arg, 1);
    var s1 := State(s.contexts, before, Some(t), now[t := SetLocked(arg)]);
    var s2 := State(s.contexts, before, Some(t), now[t := SetLoaded(arg, before)]);
    var s3 := State(more, before, Some(t), now[t := SetAcquired(arg, before)]);
    var s4 := State(more, arg, Some(t), now[t := SetStored(arg, before)]);
    var s5 := State(more, arg, None, now[t := SetUnlocked(before)]);
    AloneNone(s5, t);
    AloneStep(s4, t, 0, s5, s5);
    AloneStep(s3, t, 1, s4, s5);
    AloneStep(s2, t, 2, s3, s5);
    AloneStep(s1, t, 3, s2, s5);
    AloneStep(s, t, 4, s1, s5);
  }

  lemma AloneNone(s: State, t: nat)
    requires t < |s.threads|
    ensures Alone(s, t, 0, s)
  {
  }

  /** Inside a set call with this argument, up to the unlocking. */
  predicate Setting(pc: Pc, arg: Option<Id>) {
    (pc.SetWaiting? || pc.SetLocked? || pc.SetLoaded? || pc.SetAcquired? || pc.SetStored?) && pc.arg == arg
  }

  /** At step `m` the thread exchanged the slot's content `cur` for its argument. */
  predicate Exchanges(run: seq<State>, m: nat, t: nat, arg: Option<Id>, cur: Option<Id>) {
    && m + 1 < |run| && t < |run[m].threads| && run[m].threads[t] == SetAcquired(arg, cur)
    && run[m].installed == cur && run[m + 1].installed == arg
  }

  /** Between steps `i` and `k` there was such an exchange. */
  ghost predicate Exchanged(run: seq<State>, i: nat, k: nat, t: nat, arg: Option<Id>, cur: Option<Id>) {
    exists m: nat :: i <= m < k && Exchanges(run, m, t, arg, cur)
  }

  lemma ExchangedLater(run: seq<State>, i: nat, k: nat, t: nat, arg: Option<Id>, cur: Option<Id>)
    requires i <= k && (Exchanged(run, i, k, t, arg, cur) || Exchanges(run, k, t, arg, cur))
    ensures Exchanged(run, i, k + 1, t, arg, cur)
  {
    hide Exchanges;
  }

  /** How a step of any thread can move a set call. */
  predicate SetMove(pc: Pc, pc': Pc, installed: Option<Id>, installed': Option<Id>) {
    || pc' == pc
    || (pc.SetWaiting? && pc' == SetLocked(pc.arg))
    || (pc.SetLocked? && pc' == SetLoaded(pc.arg, installed))
    || (pc.SetLoaded? && pc' == SetAcquired(pc.arg, pc.cur))
    || (pc.SetAcquired? && pc' == SetStored(pc.arg, pc.cur) && installed' == pc.arg)
    || (pc.SetStored? && pc' == SetUnlocked(pc.cur) && installed' == installed)
  }

  lemma SettingStep(s: State, u: nat, a: Action, t: nat, arg: Option<Id>)
    requires u < |s.threads| && t < |s.threads| && Begins(s, u, a) && Setting(s.threads[t], arg)
    ensures SetMove(s.threads[t], Step(s, u, a).threads[t], s.installed, Step(s, u, a).installed)
  {
    hide AddRef, Disown, Free;
  }

  /** Thread `t` is there in every state. */
  predicate Present(run: seq<State>, t: nat) {
    forall m :: 0 <= m < |run| ==> t < |run[m].threads|
  }

  lemma {:induction false} SetPhase(run: seq<State>, n: nat, i: nat, k: nat, t: nat, arg: Option<Id>)
    requires IsRun(run, n) && i <= k < |run| && Present(run, t)
    requires run[i].threads[t] == SetWaiting(arg) && forall m :: i <= m <= k ==> !run[m].threads[t].SetUnlocked?
    ensures Setting(run[k].threads[t], arg)
    ensures run[k].threads[t].SetStored? ==> Exchanged(run, i, k, t, arg, run[k].threads[t].cur)
    decreases k
  {
    assert t < |run[k].threads|;
    if k == i {
      assert Setting(run[k].threads[t], arg) && !run[k].threads[t].SetStored?;
      hide *;
    } else {
      assert t < |run[k - 1].threads|;
      hide *;
      SetPhase(run, n, i, k - 1, t, arg);
      PhaseStep(run, n, i, k, t, arg);
    }
  }

  lemma PhaseStep(run: seq<State>, n: nat, i: nat, k: nat, t: nat, arg: Option<Id>)
    requires IsRun(run, n) && i < k < |run| && t < |run[k - 1].threads| && t < |run[k].threads|
    requires Setting(run[k - 1].threads[t], arg) && !run[k].threads[t].SetUnlocked?
    requires run[k - 1].threads[t].SetStored? ==> Exchanged(run, i, k - 1, t, arg, run[k - 1].threads[t].cur)
    ensures Setting(run[k].threads[t], arg)
    ensures run[k].threads[t].SetStored? ==> Exchanged(run, i, k, t, arg, run[k].threads[t].cur)
  {
    hide Step, Begins, Follows, IsRun, Exchanged, Setting, SetMove;
    var u, a := StepInto(run, n, k, t);
    var pc, pc' := run[k - 1].threads[t], run[k].threads[t];
    SettingStep(run[k - 1], u, a, t, arg);
    PhaseMove(pc, pc', run[k - 1].installed, run[k].installed, arg);
    if pc'.SetStored? { ExchangedLater(run, i, k - 1, t, arg, pc'.cur); }
  }

  lemma PhaseMove(pc: Pc, pc': Pc, installed: Option<Id>, installed': Option<Id>, arg: Option<Id>)
    requires Setting(pc, arg) && SetMove(pc, pc', installed, installed') && !pc'.SetUnlocked?
    ensures Setting(pc', arg)
    ensures pc'.SetStored? ==> pc == pc' || (pc == SetAcquired(arg, pc'.cur) && installed' == arg)
  {
  }

  /** The step that leads to state `k`, and what holds before it. */
  lemma StepInto(run: seq<State>, n: nat, k: nat, t: nat) returns (u: nat, a: Action)
    requires IsRun(run, n) && 0 < k < |run| && t < |run[k - 1].threads|
    ensures u < |run[k - 1].threads| && Begins(run[k - 1], u, a) && run[k] == Step(run[k - 1], u, a)
    ensures LocalAgrees(run[k - 1], run[k - 1].threads[t])
  {
    RunKeepsInv(run, n, k - 1);
    var s := run[k - 1];
    assert Follows(s, run[k - 1 + 1]) && LocalAgrees(s, s.threads[t]);
    hide Step, Begins;
    u, a :| u < |s.threads| && Begins(s, u, a) && run[k] == Step(s, u, a);
  }

  lemma {:induction false} ThreadsKept(run: seq<State>, n: nat, i: nat)
    requires IsRun(run, n) && i < |run|
    ensures |run[i].threads| == n
  {
    if i > 0 {
      ThreadsKept(run, n, i - 1);
      assert Follows(run[i - 1], run[i - 1 + 1]);
    }
  }

  /** In every run, whatever other threads do meanwhile: when a set call leaves the critical
      section its argument is installed, and what it goes on to release is what the slot held
      right before it stored its argument. */
  lemma SetCall(run: seq<State>, n: nat, i: nat, j: nat, t: nat, arg: Option<Id>)
    requires IsRun(run, n) && i < j < |run| && t < n && Present(run, t)
    requires run[i].threads[t] == SetWaiting(arg) && run[j].threads[t].SetUnlocked?
    requires forall m :: i <= m < j ==> !run[m].threads[t].SetUnlocked?
    ensures run[j].installed == arg
    ensures Exchanged(run, i, j, t, arg, run[j].threads[t].cur)
  {
    hide Step, Begins, Follows, IsRun, Exchanged;
    SetPhase(run, n, i, j - 1, t, arg);
    var u, a := StepInto(run, n, j, t);
    SettingStep(run[j - 1], u, a, t, arg);
    ExchangedLater(run, i, j - 1, t, arg, run[j].threads[t].cur);
  }

  /** Threads stay. */
  lemma AllPresent(run: seq<State>, n: nat, t: nat)
    requires IsRun(run, n) && t < n
    ensures Present(run, t)
  {
    forall m | 0 <= m < |run| ensures t < |run[m].threads| { ThreadsKept(run, n, m); }
  }

  /** A log call left alone takes a reference to what is installed. */
  lemma LogAlone(s: State, t: nat)
    requires t < |s.threads| && s.threads[t] == LogWaiting && s.mutex == None
    ensures Alone(s, t, 4, State(AddRef(s.contexts, s.installed, 1), s.installed, None, s.threads[t := LogUnlocked(s.installed)]))
  {
    hide AddRef, Alone;
    var now, cur := s.threads, s.installed;
    var s1 := State(s.contexts, cur, Some(t), now[t := LogLocked]);
    var s2 := State(s.contexts, cur, Some(t), now[t := LogLoaded(cur)]);
    var s3 := State(AddRef(s.contexts, cur, 1), cur, Some(t), now[t := LogAcquired(cur)]);
    var s4 := State(AddRef(s.contexts, cur, 1), cur, None, now[t := LogUnlocked(cur)]);
    AloneNone(s4, t);
    AloneStep(s3, t, 0, s4, s4);
    AloneStep(s2, t, 1, s3, s4);
    AloneStep(s1, t, 2, s2, s4);
    AloneStep(s, t, 3, s1, s4);
  }

  /** The callback runs, on the context the call holds, exactly when the level allows it; without
      a context the call is over. */
  lemma LogDecides(s: State, t: nat, levelAllows: bool)
    requires t < |s.threads| && s.threads[t].LogUnlocked?
    ensures Possible(s, t, Advance(levelAllows))
    ensures var pc, cur := Step(s, t, Advance(levelAllows)).threads[t], s.threads[t].cur;
            && (pc.LogCalling? <==> cur.Some? && levelAllows)
            && (pc.LogCalling? ==> Some(pc.ctx) == cur)
            && (cur.Some? && !levelAllows ==> pc == Releasing(cur.value))
            && (cur == None ==> pc == Idle)
  {
  }

  lemma LoggingStep(s: State, u: nat, a: Action, t: nat)
    requires u < |s.threads| && t < |s.threads| && Begins(s, u, a)
    requires s.threads[t].LogWaiting? || s.threads[t].LogLocked? || s.threads[t].LogLoaded? || s.threads[t].LogAcquired?
    ensures var pc, pc', s' := s.threads[t], Step(s, u, a).threads[t], Step(s, u, a);
            || pc' == pc
            || (pc.LogWaiting? && pc' == LogLocked)
            || (pc.LogLocked? && pc' == LogLoaded(s.installed))
            || (pc.LogLoaded? && pc' == LogAcquired(pc.cur))
            || (pc.LogAcquired? && pc' == LogUnlocked(pc.cur) && s'.installed == s.installed)
  {
    hide AddRef, Disown, Free;
  }

  /** In every run a log call leaves the critical section with what is installed at that moment. */
  lemma LogCall(run: seq<State>, n: nat, j: nat, t: nat)
    requires IsRun(run, n) && 0 < j < |run| && t < |run[j - 1].threads| && t < |run[j].threads|
    requires run[j].threads[t].LogUnlocked? && !run[j - 1].threads[t].LogUnlocked?
    ensures run[j].threads[t] == LogUnlocked(run[j].installed)
  {
    hide Step, Begins, Follows, IsRun;
    var u, a := StepInto(run, n, j, t);
    OnlyFromAcquired(run[j - 1], u, a, t);
    LoggingStep(run[j - 1], u, a, t);
  }

  lemma OnlyFromAcquired(s: State, u: nat, a: Action, t: nat)
    requires u < |s.threads| && t < |s.threads| && Begins(s, u, a)
    requires Step(s, u, a).threads[t].LogUnlocked? && !s.threads[t].LogUnlocked?
    ensures s.threads[t].LogAcquired?
  {
    hide AddRef, Disown, Free;
  }
}
