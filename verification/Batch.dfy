/** Advancing a machine by `step(s, n)`: in strides of up to 80 as `do_cycle` does, or one tick at a time. */
module Batch {

  const STRIDE := 80

  /** The loop of `do_cycle`: strides of 80 ticks, then the rest. */
  function Strides<S>(step: (S, nat) -> S, s: S, ticks: nat): S
    decreases ticks
  {
    if ticks == 0 then s
    else
      var cur := if ticks >= STRIDE then STRIDE else ticks;
      Strides(step, step(s, cur), ticks - cur)
  }

  function Singles<S>(step: (S, nat) -> S, s: S, n: nat): S
    decreases n
  {
    if n == 0 then s else step(Singles(step, s, n - 1), 1)
  }

  lemma {:induction false} SinglesAdd<S>(step: (S, nat) -> S, s: S, m: nat, n: nat)
    ensures Singles(step, Singles(step, s, m), n) == Singles(step, s, m + n)
  {
    if n > 0 {
      SinglesAdd(step, s, m, n - 1);
    }
  }

  predicate SplitsAt<S(==)>(step: (S, nat) -> S, s: S, n: nat) {
    step(s, n + 1) == step(step(s, n), 1)
  }

  /** Strides keep the invariant `good`, and each splits into a shorter one and a tick. */
  ghost predicate Splits<S(!new)>(step: (S, nat) -> S, good: S -> bool) {
    && (forall s, n: nat :: good(s) && n <= STRIDE ==> good(step(s, n)))
    && (forall s, n: nat :: good(s) && n < STRIDE ==> SplitsAt(step, s, n))
    && (forall s :: good(s) ==> step(s, 0) == s)
  }

  lemma {:induction false} StrideIsSingles<S(!new)>(step: (S, nat) -> S, good: S -> bool, s: S, n: nat)
    requires Splits(step, good) && good(s) && n <= STRIDE
    ensures step(s, n) == Singles(step, s, n)
  {
    if n > 0 {
      StrideIsSingles(step, good, s, n - 1);
      assert SplitsAt(step, s, n - 1);
    }
  }

  /** When strides split, the loop is one tick at a time. */
  lemma {:induction false} StridesAreSingles<S(!new)>(step: (S, nat) -> S, good: S -> bool, s: S, ticks: nat)
    requires Splits(step, good) && good(s)
    ensures Strides(step, s, ticks) == Singles(step, s, ticks)
    ensures good(Singles(step, s, ticks))
    decreases ticks
  {
    if ticks > 0 {
      var cur := if ticks >= STRIDE then STRIDE else ticks;
      StrideIsSingles(step, good, s, cur);
      StridesAreSingles(step, good, step(s, cur), ticks - cur);
      SinglesAdd(step, s, cur, ticks - cur);
    }
  }
}
