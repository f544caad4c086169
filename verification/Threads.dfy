/** Sums over the program counters of any number of threads. */
module Threads {

  function Sum<P>(threads: seq<P>, f: P -> nat): nat {
    if threads == [] then 0 else f(threads[0]) + Sum(threads[1..], f)
  }

  lemma {:induction false} SumUpdate<P>(threads: seq<P>, t: nat, pc: P, f: P -> nat)
    requires t < |threads|
    ensures Sum(threads[t := pc], f) == Sum(threads, f) - f(threads[t]) + f(pc)
    ensures Sum(threads, f) >= f(threads[t])
  {
    if t == 0 {
      assert threads[0 := pc][1..] == threads[1..];
    } else {
      assert threads[t := pc][1..] == threads[1..][t - 1 := pc];
      SumUpdate(threads[1..], t - 1, pc, f);
    }
  }

  lemma {:induction false} SumZero<P>(threads: seq<P>, f: P -> nat)
    requires forall i :: 0 <= i < |threads| ==> f(threads[i]) == 0
    ensures Sum(threads, f) == 0
  {
    if threads != [] { SumZero(threads[1..], f); }
  }

  lemma {:induction false} SumBound<P>(threads: seq<P>, f: P -> nat, g: P -> nat, h: P -> nat)
    requires forall i :: 0 <= i < |threads| ==> f(threads[i]) <= g(threads[i]) + h(threads[i])
    ensures Sum(threads, f) <= Sum(threads, g) + Sum(threads, h)
  {
    if threads != [] { SumBound(threads[1..], f, g, h); }
  }

  /** Each thread counts at most once, and one does not count. */
  lemma {:induction false} SumOthers<P>(threads: seq<P>, t: nat, f: P -> nat)
    requires t < |threads| && f(threads[t]) == 0
    requires forall i :: 0 <= i < |threads| ==> f(threads[i]) <= 1
    ensures Sum(threads, f) < |threads|
  {
    if t > 0 {
      SumOthers(threads[1..], t - 1, f);
    } else {
      SumAtMost(threads[1..], f);
    }
  }

  lemma {:induction false} SumAtMost<P>(threads: seq<P>, f: P -> nat)
    requires forall i :: 0 <= i < |threads| ==> f(threads[i]) <= 1
    ensures Sum(threads, f) <= |threads|
  {
    if threads != [] { SumAtMost(threads[1..], f); }
  }

  lemma {:induction false} SumLast<P>(threads: seq<P>, f: P -> nat)
    requires threads != []
    ensures Sum(threads, f) == Sum(threads[..|threads| - 1], f) + f(threads[|threads| - 1])
  {
    if |threads| > 1 {
      SumLast(threads[1..], f);
      assert threads[1..][..|threads| - 2] == threads[..|threads| - 1][1..];
    }
  }

  lemma {:induction false} SumSame<P>(threads: seq<P>, f: P -> nat, g: P -> nat)
    requires forall i :: 0 <= i < |threads| ==> f(threads[i]) == g(threads[i])
    ensures Sum(threads, f) == Sum(threads, g)
  {
    if threads != [] { SumSame(threads[1..], f, g); }
  }

  function Ones<P>(threads: seq<P>, f: P -> nat): set<int> {
    set t | 0 <= t < |threads| && f(threads[t]) == 1
  }

  /** A sum of zeroes and ones counts the ones. */
  lemma {:induction false} SumIsCount<P>(threads: seq<P>, f: P -> nat)
    requires forall i :: 0 <= i < |threads| ==> f(threads[i]) <= 1
    ensures Sum(threads, f) == |Ones(threads, f)|
  {
    if threads == [] {
      assert Ones(threads, f) == {};
    } else {
      var k := |threads| - 1;
      SumLast(threads, f);
      SumIsCount(threads[..k], f);
      if f(threads[k]) == 1 {
        assert Ones(threads, f) == Ones(threads[..k], f) + {k};
      } else {
        assert Ones(threads, f) == Ones(threads[..k], f);
      }
    }
  }
}
