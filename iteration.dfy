/**
 * The two loop shapes of the engine as higher-order functions, with their
 * induction principles: a step repeated until it fails or a budget runs out,
 * and a step applied at each index of a range. The principles are proved once
 * here, for any step; the engine instantiates them with its passes.
 */
module Iteration {
  import opened Wrappers

  /** Where a repetition stopped: the final value and the number of rounds that succeeded. */
  datatype Rounds<S> = Rounds(last: S, done: nat)

  /** At most n rounds of a step that can fail, stopping at the first failure. */
  function Repeat<S>(step: S -> Option<S>, s: S, n: int): Rounds<S>
    decreases n
  {
    if n <= 0 then Rounds(s, 0)
    else match step(s)
      case None => Rounds(s, 0)
      case Some(s') =>
        var r := Repeat(step, s', n - 1);
        Rounds(r.last, r.done + 1)
  }

  /** Never more than n rounds succeed, and fewer only when the step fails on the final value. */
  lemma {:induction false} RepeatBounds<S>(step: S -> Option<S>, s: S, n: int)
    ensures Repeat(step, s, n).done <= if n < 0 then 0 else n
    ensures Repeat(step, s, n).done < n ==> step(Repeat(step, s, n).last).None?
    decreases n
  {
    if n > 0 && step(s).Some? {
      RepeatBounds(step, step(s).value, n - 1);
    }
  }

  /** A property that every successful round keeps holds after any number of rounds. */
  lemma {:induction false} RepeatInduction<S>(step: S -> Option<S>, s: S, n: int, P: S -> bool)
    requires P(s)
    requires forall x :: P(x) && step(x).Some? ==> P(step(x).value)
    ensures P(Repeat(step, s, n).last)
    decreases n
  {
    if n > 0 && step(s).Some? {
      RepeatInduction(step, step(s).value, n - 1, P);
    }
  }

  /** A reflexive, transitive relation that links every value to its successful round links the start to the end. */
  lemma {:induction false} RepeatSteps<S>(step: S -> Option<S>, s: S, n: int, R: (S, S) -> bool)
    requires forall x :: R(x, x)
    requires forall x, y, z :: R(x, y) && R(y, z) ==> R(x, z)
    requires forall x :: step(x).Some? ==> R(x, step(x).value)
    ensures R(s, Repeat(step, s, n).last)
    decreases n
  {
    if n > 0 && step(s).Some? {
      var s' := step(s).value;
      RepeatSteps(step, s', n - 1, R);
      assert R(s, s') && R(s', Repeat(step, s', n - 1).last);
    }
  }

  /**
   * The values a repetition passes through: the start, then the value after
   * each successful round. A loop can follow its progress along this sequence
   * and read off the repetition's result where it stops.
   */
  function Trace<S>(step: S -> Option<S>, s: S, n: int): (r: seq<S>)
    ensures 1 <= |r| && r[0] == s
    decreases n
  {
    if n <= 0 then [s]
    else match step(s)
      case None => [s]
      case Some(s') => [s] + Trace(step, s', n - 1)
  }

  /** A round that succeeds within the budget leads from one value of the trace to the next. */
  lemma {:induction false} TraceAdvance<S>(step: S -> Option<S>, s: S, n: int, i: nat, s': S)
    requires i < |Trace(step, s, n)| && i < n && step(Trace(step, s, n)[i]) == Some(s')
    ensures i + 1 < |Trace(step, s, n)| && Trace(step, s, n)[i + 1] == s'
    decreases n
  {
    if i > 0 {
      match step(s)
      case None =>
      case Some(s1) => TraceAdvance(step, s1, n - 1, i - 1, s');
    }
  }

  /** The repetition ends at the i-th value of the trace when the budget is spent there or the round from it fails. */
  lemma {:induction false} TraceStops<S>(step: S -> Option<S>, s: S, n: int, i: nat)
    requires i < |Trace(step, s, n)| && (i >= n || step(Trace(step, s, n)[i]).None?)
    ensures Repeat(step, s, n) == Rounds(Trace(step, s, n)[i], i)
    decreases n
  {
    if i > 0 {
      match step(s)
      case None =>
      case Some(s1) => TraceStops(step, s1, n - 1, i - 1);
    }
  }

  /** The sweep from lo is the step at lo followed by the sweep from lo + 1. */
  lemma SweepUnfolds<S>(step: (S, int) -> S, s: S, s': S, lo: int, hi: int)
    requires lo <= hi && step(s, lo) == s'
    ensures Sweep(step, s, lo, hi) == Sweep(step, s', lo + 1, hi)
  {
  }

  /** The step applied at index lo, lo + 1, ..., hi in turn; nothing when lo > hi. */
  function Sweep<S>(step: (S, int) -> S, s: S, lo: int, hi: int): S
    decreases hi - lo + 1
  {
    if lo > hi then s else Sweep(step, step(s, lo), lo + 1, hi)
  }

  /** A property that every step keeps holds after the sweep. */
  lemma {:induction false} SweepInduction<S>(step: (S, int) -> S, s: S, lo: int, hi: int, P: S -> bool)
    requires P(s)
    requires forall x, k :: P(x) ==> P(step(x, k))
    ensures P(Sweep(step, s, lo, hi))
    decreases hi - lo + 1
  {
    if lo <= hi {
      SweepInduction(step, step(s, lo), lo + 1, hi, P);
    }
  }

  /** A reflexive, transitive relation that links every value to each of its steps links the start of the sweep to its end. */
  lemma {:induction false} SweepSteps<S>(step: (S, int) -> S, s: S, lo: int, hi: int, R: (S, S) -> bool)
    requires forall x :: R(x, x)
    requires forall x, y, z :: R(x, y) && R(y, z) ==> R(x, z)
    requires forall x, k :: R(x, step(x, k))
    ensures R(s, Sweep(step, s, lo, hi))
    decreases hi - lo + 1
  {
    if lo <= hi {
      var s' := step(s, lo);
      SweepSteps(step, s', lo + 1, hi, R);
      assert R(s, s') && R(s', Sweep(step, s', lo + 1, hi));
    }
  }

  /**
   * When the step at k establishes Done(., k) and Done(., k) survives every
   * later step, every index of the range is done at the end of the sweep.
   */
  lemma {:induction false} SweepCovers<S>(step: (S, int) -> S, s: S, lo: int, hi: int, Done: (S, int) -> bool)
    requires forall x, k :: Done(step(x, k), k)
    requires forall x, k, j :: Done(x, j) ==> Done(step(x, k), j)
    ensures forall k :: lo <= k <= hi ==> Done(Sweep(step, s, lo, hi), k)
    decreases hi - lo + 1
  {
    if lo <= hi {
      var s' := step(s, lo);
      SweepCovers(step, s', lo + 1, hi, Done);
      SweepInduction(step, s', lo + 1, hi, x => Done(x, lo));
    }
  }
}
