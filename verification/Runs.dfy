/** Runs of a transition system, and the principle that an invariant holds throughout. */
module Runs {

  /** A run, or the beginning of one. */
  predicate IsRun<S>(step: (S, S) -> bool, cs: seq<S>) {
    cs != [] && (|cs| == 1 || (step(cs[0], cs[1]) && IsRun(step, cs[1..])))
  }

  lemma {:induction false} Invariance<S(!new)>(step: (S, S) -> bool, inv: S -> bool, cs: seq<S>, i: nat)
    requires forall c, d :: inv(c) && step(c, d) ==> inv(d)
    requires IsRun(step, cs) && inv(cs[0]) && i < |cs|
    ensures inv(cs[i])
    decreases i
  {
    if i > 0 {
      Invariance(step, inv, cs[1..], i - 1);
    }
  }
}
