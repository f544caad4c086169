/** The retry loops of VmwDeploySetupClientWithDC and VmwDeploySetupClient in
    config/cfgutils/cfgutils.c, driven by arbitrary outcomes of the calls they make. */
module JoinRetry {

  const MAX_RETRIES: nat := 20

  /** The error code of the n-th call of some operation; zero is success. */
  type Calls = nat -> int

  datatype Params = Params(genMachineSsl: bool, machinePreJoined: bool)

  /** The outcomes the environment has in store. */
  datatype World = World(join: Calls, refresh: Calls, certificate: Calls, getDc: int, install: int, passwordRefresh: int,
                         retriable: int -> bool)

  // ---------------------------------------------------------------- one loop

  /** The code that a loop ends with when call number `n` comes next and `retries` failures have
      been counted: success, a failure that is not retriable, or the last failure allowed. */
  function Settled(calls: Calls, retriable: int -> bool, n: nat, retries: nat): int
    decreases MAX_RETRIES + 1 - retries
  {
    if calls(n) == 0 || !retriable(calls(n)) || retries >= MAX_RETRIES then calls(n)
    else Settled(calls, retriable, n + 1, retries + 1)
  }

  /** A success that only retriable failures precede. */
  predicate Reaches(calls: Calls, retriable: int -> bool, n: nat, k: nat) {
    n <= k && calls(k) == 0 && forall i: nat :: n <= i < k ==> calls(i) != 0 && retriable(calls(i))
  }

  /** A loop succeeds exactly when one of the calls it may still make succeeds and every call
      before that fails in a retriable way. */
  lemma {:induction false} SettledMeaning(calls: Calls, retriable: int -> bool, n: nat, retries: nat)
    requires retries <= MAX_RETRIES
    ensures Settled(calls, retriable, n, retries) == 0 <==>
            exists k :: n <= k <= n + 20 - retries && Reaches(calls, retriable, n, k)
    decreases MAX_RETRIES + 1 - retries
  {
    if calls(n) == 0 {
      assert Reaches(calls, retriable, n, n);
    } else if retriable(calls(n)) && retries < MAX_RETRIES {
      SettledMeaning(calls, retriable, n + 1, retries + 1);
      var next := n + 1;
      if k :| next <= k <= n + MAX_RETRIES - retries && Reaches(calls, retriable, next, k) {
        assert Reaches(calls, retriable, n, k);
      }
      if k :| n <= k <= n + MAX_RETRIES - retries && Reaches(calls, retriable, n, k) {
        assert k != n && Reaches(calls, retriable, n + 1, k);
      }
    } else if k :| n <= k <= n + MAX_RETRIES - retries && Reaches(calls, retriable, n, k) {
      assert false;
    }
  }

  /** A loop that fails ends with the code of a call that only retriable failures precede: the
      first that must not be retried, or the last one allowed. */
  lemma {:induction false} SettledFailure(calls: Calls, retriable: int -> bool, n: nat, retries: nat) returns (k: nat)
    requires retries <= MAX_RETRIES && Settled(calls, retriable, n, retries) != 0
    ensures n <= k <= n + 20 - retries && Settled(calls, retriable, n, retries) == calls(k) != 0
    ensures forall i: nat :: n <= i < k ==> calls(i) != 0 && retriable(calls(i))
    ensures !retriable(calls(k)) || k == n + 20 - retries
    decreases MAX_RETRIES + 1 - retries
  {
    k := n;
    if retriable(calls(n)) && retries < MAX_RETRIES {
      k := SettledFailure(calls, retriable, n + 1, retries + 1);
    }
  }

  /** The do-while loop: `retries` goes on from where the caller left it. */
  method Loop(calls: Calls, retriable: int -> bool, retries: nat) returns (error: int, retries': nat, failures: nat)
    requires retries <= MAX_RETRIES
    ensures error == Settled(calls, retriable, 0, retries)
    ensures retries + failures <= 21
    ensures error == 0 ==> calls(failures) == 0 && retries' == retries + failures <= 20
    ensures forall i: nat :: i < failures ==> calls(i) != 0
    ensures error != 0 ==> failures > 0 && error == calls(failures - 1)
  {
    var n: nat := 0;
    retries', failures := retries, 0;
    while true
      invariant n == failures && retries' == retries + failures <= MAX_RETRIES
      invariant Settled(calls, retriable, 0, retries) == Settled(calls, retriable, n, retries')
      invariant forall i: nat :: i < failures ==> calls(i) != 0
      decreases MAX_RETRIES - retries'
    {
      error := calls(n);
      n := n + 1;
      if error == 0 { return; }
      failures := failures + 1;
      if !retriable(error) { return; }
      retries' := retries' + 1;
      if retries' > MAX_RETRIES { return; }
    }
  }

  // ---------------------------------------------------------------- setup

  /** The part after the root certificates: certificate, its installation, password refresh. */
  function Finish(p: Params, w: World): int {
    var ssl := if !p.genMachineSsl then 0
               else if Settled(w.certificate, w.retriable, 0, 0) != 0 then Settled(w.certificate, w.retriable, 0, 0)
               else w.install;
    if ssl != 0 then ssl else if p.machinePreJoined then w.passwordRefresh else 0
  }

  /** What setup reports; the root-certificate refresh has no part in it. */
  function ResultWithDc(p: Params, w: World): int {
    if Settled(w.join, w.retriable, 0, 0) != 0 then Settled(w.join, w.retriable, 0, 0) else Finish(p, w)
  }

  /** The form without a given domain controller also looks one up before the certificate. */
  function Result(p: Params, w: World): int {
    if Settled(w.join, w.retriable, 0, 0) != 0 then Settled(w.join, w.retriable, 0, 0)
    else if p.genMachineSsl && w.getDc != 0 then w.getDc
    else Finish(p, w)
  }

  /** The last steps, common to both forms. */
  method FinishSetup(p: Params, w: World) returns (error: int, certificateFailures: nat)
    ensures error == Finish(p, w)
    ensures certificateFailures <= 21
    ensures error == 0 && p.genMachineSsl ==> w.certificate(certificateFailures) == 0 && w.install == 0
    ensures error == 0 && p.machinePreJoined ==> w.passwordRefresh == 0
  {
    hide Settled;
    error, certificateFailures := 0, 0;
    if p.genMachineSsl {
      var retries;
      error, retries, certificateFailures := Loop(w.certificate, w.retriable, 0);
      if error != 0 { return; }
      error := w.install;
      if error != 0 { return; }
    }
    if p.machinePreJoined { error := w.passwordRefresh; }
  }

  /** VmwDeploySetupClientWithDC: joining and refreshing share one retry budget. */
  method SetupClientWithDc(p: Params, w: World)
    returns (error: int, joinFailures: nat, refreshFailures: nat, certificateFailures: nat)
    ensures error == ResultWithDc(p, w)
    ensures joinFailures + refreshFailures <= 21 && certificateFailures <= 21
    ensures error == 0 ==> w.join(joinFailures) == 0
    ensures error == 0 && p.genMachineSsl ==> w.certificate(certificateFailures) == 0 && w.install == 0
    ensures error == 0 && p.machinePreJoined ==> w.passwordRefresh == 0
  {
    hide Settled;
    var retries;
    refreshFailures, certificateFailures := 0, 0;
    error, retries, joinFailures := Loop(w.join, w.retriable, 0);
    if error != 0 { return; }
    error, retries, refreshFailures := Loop(w.refresh, w.retriable, retries);
    error := 0;
    error, certificateFailures := FinishSetup(p, w);
  }

  /** VmwDeploySetupClient: every loop has its own retry budget. */
  method SetupClient(p: Params, w: World)
    returns (error: int, joinFailures: nat, refreshFailures: nat, certificateFailures: nat)
    ensures error == Result(p, w)
    ensures joinFailures <= 21 && refreshFailures <= 21 && certificateFailures <= 21
    ensures error == 0 ==> w.join(joinFailures) == 0
    ensures error == 0 && p.genMachineSsl ==> w.getDc == 0 && w.certificate(certificateFailures) == 0 && w.install == 0
    ensures error == 0 && p.machinePreJoined ==> w.passwordRefresh == 0
  {
    hide Settled;
    var retries;
    refreshFailures, certificateFailures := 0, 0;
    error, retries, joinFailures := Loop(w.join, w.retriable, 0);
    if error != 0 { return; }
    error, retries, refreshFailures := Loop(w.refresh, w.retriable, 0);
    error := 0;
    if p.genMachineSsl {
      error := w.getDc;
      if error != 0 { return; }
    }
    error, certificateFailures := FinishSetup(p, w);
  }

  /** Setup succeeds exactly when the join is reached within the allowed calls, and likewise the
      requested certificate, and the single calls succeed; root-certificate refreshes may do
      whatever they like. */
  lemma SetupSucceedsWhen(p: Params, w: World, refresh: Calls)
    ensures ResultWithDc(p, w) == 0 <==>
            && (exists k :: 0 <= k <= 20 && Reaches(w.join, w.retriable, 0, k))
            && (p.genMachineSsl ==> w.install == 0 && exists k :: 0 <= k <= 20 && Reaches(w.certificate, w.retriable, 0, k))
            && (p.machinePreJoined ==> w.passwordRefresh == 0)
    ensures Result(p, w) == 0 <==> ResultWithDc(p, w) == 0 && (p.genMachineSsl ==> w.getDc == 0)
    ensures ResultWithDc(p, w.(refresh := refresh)) == ResultWithDc(p, w)
    ensures Result(p, w.(refresh := refresh)) == Result(p, w)
  {
    SettledMeaning(w.join, w.retriable, 0, 0);
    SettledMeaning(w.certificate, w.retriable, 0, 0);
    hide Settled, Reaches;
  }
}
