/**
 * Lists built by repeating a fallible step: entry 0 is given and entry d is the
 * step applied to entry d-1 and the index d-1. The generator cache of the coder
 * is such a list; stating its laws over an arbitrary step keeps the field
 * arithmetic out of them.
 */
module Chains {
  import opened Results

  /** The first n entries, or the first failure of the step. */
  function Chain<T>(init: T, step: (T, nat) -> Result<T>, n: nat): (r: Result<seq<T>>)
    requires n >= 1
    ensures r.Success? ==> |r.value| == n && r.value[0] == init
  {
    if n == 1 then
      Success([init])
    else
      var gs :- Chain(init, step, n - 1);
      var g :- step(gs[n - 2], n - 2);
      Success(gs + [g])
  }

  /** Every entry past the first is the step applied to the one before it. */
  lemma {:induction false} ChainLinks<T>(init: T, step: (T, nat) -> Result<T>, n: nat)
    requires n >= 1 && Chain(init, step, n).Success?
    ensures forall d :: 1 <= d < n ==> step(Chain(init, step, n).value[d - 1], d - 1) == Success(Chain(init, step, n).value[d])
  {
    if n > 1 {
      ChainLinks(init, step, n - 1);
    }
  }

  /** A longer chain starts with every shorter one. */
  lemma {:induction false} ChainPrefix<T>(init: T, step: (T, nat) -> Result<T>, m: nat, n: nat)
    requires 1 <= n <= m && Chain(init, step, m).Success?
    ensures Chain(init, step, n) == Success(Chain(init, step, m).value[..n])
    decreases m
  {
    if n < m {
      ChainPrefix(init, step, m - 1, n);
      assert Chain(init, step, m).value[..m - 1] == Chain(init, step, m - 1).value;
      assert Chain(init, step, m).value[..n] == Chain(init, step, m - 1).value[..n];
    } else {
      assert Chain(init, step, m).value[..n] == Chain(init, step, m).value;
    }
  }

  /** One more entry: the step applied to the last one, or its failure. */
  lemma ChainNext<T>(init: T, step: (T, nat) -> Result<T>, gs: seq<T>)
    requires |gs| >= 1 && Chain(init, step, |gs|) == Success(gs)
    ensures var s := step(gs[|gs| - 1], |gs| - 1);
      Chain(init, step, |gs| + 1) == if s.Success? then Success(gs + [s.value]) else Failure(s.error)
  {
  }

  /** Once the chain fails it fails at every greater length. */
  lemma ChainStop<T>(init: T, step: (T, nat) -> Result<T>, k: nat, m: nat)
    requires 1 <= k <= m && Chain(init, step, k).Failure?
    ensures Chain(init, step, m).Failure?
  {
    if Chain(init, step, m).Success? {
      ChainPrefix(init, step, m, k);
    }
  }

  /**
   * Lengthens a list until it has an entry `degree`, one step at a time, as a
   * loop appending to a list does; a list already long enough is returned as is.
   */
  function Extend<T>(step: (T, nat) -> Result<T>, gs: seq<T>, degree: nat): (r: Result<seq<T>>)
    requires |gs| >= 1
    ensures r.Success? ==> gs <= r.value && |r.value| == if degree < |gs| then |gs| else degree + 1
    decreases degree + 1 - |gs|
  {
    var n := |gs|;
    if degree < n then
      Success(gs)
    else
      var g :- step(gs[n - 1], n - 1);
      Extend(step, gs + [g], degree)
  }

  /**
   * Extending a correct prefix of the chain succeeds exactly when the chain
   * reaches entry `degree`, and yields a correct prefix again.
   */
  lemma {:induction false} ExtendChain<T>(init: T, step: (T, nat) -> Result<T>, gs: seq<T>, degree: nat)
    requires |gs| >= 1 && Chain(init, step, |gs|) == Success(gs)
    ensures var r := Extend(step, gs, degree);
      && (r.Success? <==> Chain(init, step, degree + 1).Success?)
      && (r.Success? ==> Chain(init, step, |r.value|) == Success(r.value))
    decreases degree + 1 - |gs|
  {
    var n := |gs|;
    if degree < n {
      ChainPrefix(init, step, n, degree + 1);
    } else {
      ChainNext(init, step, gs);
      var s := step(gs[n - 1], n - 1);
      if s.Failure? {
        ChainStop(init, step, n + 1, degree + 1);
      } else {
        ExtendChain(init, step, gs + [s.value], degree);
      }
    }
  }
}
