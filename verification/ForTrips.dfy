/**
  The trip count of `for` (basic/go/forloop.go) against the loop it describes.

  The loop is driven by a continuation (core/go/engine.go, stepMoveCont) whose
  iterator is a 64-bit integer: `Current += Step` wraps. The static count is
  computed in 64-bit arithmetic as well, so both sides of the claimed equality
  can wrap, and they wrap at different inputs.
*/
module ForTrips {
  import opened Int64
  import Arith

  /** The static count. Every operation wraps, as Go's does. */
  function LoopIterations(start: int64, end: int64, step: int64): int64 {
    if step == 0 then -1
    else if step > 0 then
      if start >= end then 0
      else Quotient(Wrap(Wrap(Wrap(end - start) + step) - 1), step)
    else
      if start <= end then 0
      else
        var negated := Negate(step);
        Quotient(Wrap(Wrap(Wrap(start - end) + negated) - 1), negated)
  }

  /** RunForLoop's guards: the range holds no value to visit. */
  predicate EmptySpan(start: int64, end: int64, step: int64) {
    (step > 0 && start >= end) || (step < 0 && start <= end)
  }

  /** stepMoveCont's test: is there another iteration at this iterator value? */
  predicate More(current: int64, end: int64, step: int64) {
    (step > 0 && current < end) || (step < 0 && current > end)
  }

  /** The iterator after `k` wrapping advances. */
  function IteratorAt(start: int64, step: int64, k: nat): int64 {
    if k == 0 then start else Wrap(IteratorAt(start, step, k - 1) + step)
  }

  /** The running loop executes its body exactly `n` times and then stops. */
  ghost predicate RunsExactly(start: int64, end: int64, step: int64, n: int) {
    if EmptySpan(start, end, step) then n == 0
    else
      && step != 0
      && n > 0
      && (forall k: nat | 0 < k < n :: More(IteratorAt(start, step, k), end, step))
      && !More(IteratorAt(start, step, n), end, step)
  }

  /** The continuation the engine mutates between iterations. */
  class ForCont {
    var current: int64
    const end: int64
    const step: int64

    constructor (start: int64, end: int64, step: int64)
      ensures current == start && this.end == end && this.step == step
    {
      current, this.end, this.step := start, end, step;
    }

    /** One move: advance the iterator, report whether the body runs again. */
    method Advance() returns (more: bool)
      modifies this
      ensures current == Wrap(old(current) + step)
      ensures more == More(current, end, step)
    {
      current := Wrap(current + step);
      more := (step > 0 && current < end) || (step < 0 && current > end);
    }
  }

  // ---------------------------------------------------------------- unbounded arithmetic

  /** How far `end` lies ahead of `start` in the direction of the step. */
  function Distance(start: int, end: int, step: int): int {
    if step > 0 then end - start else start - end
  }

  function Magnitude(step: int): nat {
    Abs(step)
  }

  /** `n` is the number of values start, start+step, ... short of `end`. */
  ghost predicate Visits(start: int, end: int, step: int, n: int) {
    && 0 < n
    && (n - 1) * Magnitude(step) < Distance(start, end, step) <= n * Magnitude(step)
  }

  /** That number, in arithmetic that never wraps. */
  function TrueTrips(start: int, end: int, step: int): (n: int)
    requires step != 0 && Distance(start, end, step) > 0
    ensures Visits(start, end, step, n)
  {
    var m := Magnitude(step);
    var n := (Distance(start, end, step) + m - 1) / m;
    Arith.Euclid(Distance(start, end, step) + m - 1, m);
    assert n > 0 by {
      if n <= 0 { Arith.Product(-n, m); }
    }
    n
  }

  /** The sum the static count divides is representable; one input with step MIN is lucky. */
  predicate SumFits(start: int64, end: int64, step: int64) {
    || Distance(start, end, step) + Magnitude(step) - 1 <= MAX
    || (step == MIN && start - end == 1)
  }

  /** The last advance of the iterator, past the end of the range, does not wrap. */
  predicate LastAdvanceFits(start: int64, end: int64, step: int64)
    requires step != 0 && Distance(start, end, step) > 0
  {
    MIN <= start + TrueTrips(start, end, step) * step <= MAX
  }

  /** Before the last visit the iterator has not wrapped and the loop goes on. */
  lemma {:induction false} IteratorInside(start: int64, end: int64, step: int64, n: int, k: nat)
    requires Visits(start, end, step, n) && k < n
    ensures IteratorAt(start, step, k) == start + k * step
    ensures step != 0 && More(IteratorAt(start, step, k), end, step)
  {
    ScaledStep(start, step, k);
    Arith.FactorMonotone(k, n - 1, Magnitude(step));
    Arith.FactorMonotone(0, k, Magnitude(step));
    if k > 0 {
      IteratorInside(start, end, step, n, k - 1);
      Arith.NextMultiple(k, step);
    }
  }

  lemma ScaledStep(start: int, step: int, k: int)
    ensures start + k * step == if step < 0 then start - k * Magnitude(step) else start + k * Magnitude(step)
  {
    Arith.NegativeFactor(k, Magnitude(step));
  }

  /** After the last visit the loop stops exactly when that advance did not wrap. */
  lemma StopsAfterLastVisit(start: int64, end: int64, step: int64, n: int)
    requires Visits(start, end, step, n)
    ensures !More(IteratorAt(start, step, n), end, step) <==> MIN <= start + n * step <= MAX
  {
    IteratorInside(start, end, step, n, n - 1);
    Arith.NextMultiple(n, step);
    Arith.NextMultiple(n, Magnitude(step));
    ScaledStep(start, step, n);
    ScaledStep(start, step, n - 1);
  }

  /** The static count of a range with something in it, in one expression. */
  lemma StaticCount(start: int64, end: int64, step: int64)
    requires step != 0 && Distance(start, end, step) > 0
    ensures
      var sum := Distance(start, end, step) + Magnitude(step) - 1;
      var wrapped := if sum <= MAX then sum else sum - MODULUS;
      LoopIterations(start, end, step) == Quotient(wrapped, Wrap(Magnitude(step)))
  {
  }

  /** Where the sum fits, the 64-bit formula is the unbounded count. */
  lemma StaticCountExact(start: int64, end: int64, step: int64, n: int)
    requires Visits(start, end, step, n) && SumFits(start, end, step)
    ensures LoopIterations(start, end, step) == n
  {
    var m, d := Magnitude(step), Distance(start, end, step);
    StaticCount(start, end, step);
    if step == MIN {
      Arith.FactorOrder(n, 1, m);
      Arith.QuotientIs(m, m, 1);
    } else {
      Arith.QuotientIs(d + m - 1, m, n);
      Arith.Product(n, m - 1);
    }
  }

  /** Where it does not, the formula falls short of the number of values to visit. */
  lemma StaticCountShort(start: int64, end: int64, step: int64, n: int)
    requires Visits(start, end, step, n) && !SumFits(start, end, step)
    ensures LoopIterations(start, end, step) < n
  {
    var m, d := Magnitude(step), Distance(start, end, step);
    StaticCount(start, end, step);
    var w := d + m - 1 - MODULUS;
    if step == MIN {
      SmallQuotient(w);
    } else {
      QuotientSign(w, m);
      if w >= 0 {
        Arith.Euclid(w, m);
        Arith.NextMultiple(n, m);
        Arith.FactorOrder(w / m, n - 1, m);
      }
    }
  }

  lemma SmallQuotient(w: int64)
    requires MIN < w
    ensures Quotient(w, MIN) == 0
  {
  }

  // ---------------------------------------------------------------- main results

  /**
    The static count is the number of body runs exactly when neither the sum it
    divides nor the iterator's last advance leaves the 64-bit range.
  */
  lemma CountIsRunsIffNothingWraps(start: int64, end: int64, step: int64)
    requires step != 0 && !EmptySpan(start, end, step)
    ensures RunsExactly(start, end, step, LoopIterations(start, end, step))
       <==> SumFits(start, end, step) && LastAdvanceFits(start, end, step)
  {
    var n := TrueTrips(start, end, step);
    forall k: nat | k < n ensures More(IteratorAt(start, step, k), end, step) {
      IteratorInside(start, end, step, n, k);
    }
    StopsAfterLastVisit(start, end, step, n);
    if SumFits(start, end, step) {
      StaticCountExact(start, end, step, n);
    } else {
      StaticCountShort(start, end, step, n);
    }
  }

  /** The two special answers: nothing to run, and a range that is an error. */
  lemma SpecialCounts(start: int64, end: int64, step: int64)
    requires step == 0 || EmptySpan(start, end, step) || SumFits(start, end, step)
    ensures LoopIterations(start, end, step) == -1 <==> step == 0
    ensures LoopIterations(start, end, step) == 0 <==> EmptySpan(start, end, step)
  {
    if step != 0 && !EmptySpan(start, end, step) {
      StaticCountExact(start, end, step, TrueTrips(start, end, step));
    }
  }

  /** `for [MAX-1 MAX 2]`: the sum is 2, the count is 1, and yet the iterator wraps and runs on. */
  lemma WrapsWithFittingSum()
    ensures SumFits(MAX - 1, MAX, 2)
    ensures LoopIterations(MAX - 1, MAX, 2) == 1
    ensures !RunsExactly(MAX - 1, MAX, 2, 1)
  {
    assert IteratorAt(MAX - 1, 2, 0) == MAX - 1;
    assert IteratorAt(MAX - 1, 2, 1) == Wrap(MAX + 1) == MIN;
  }

  /** The loop as the engine drives it runs its body as often as the static count says. */
  method RunLoop(start: int64, end: int64, step: int64) returns (runs: nat)
    requires step != 0
    requires EmptySpan(start, end, step)
          || (SumFits(start, end, step) && LastAdvanceFits(start, end, step))
    ensures runs == LoopIterations(start, end, step)
    ensures RunsExactly(start, end, step, runs)
  {
    ghost var n := LoopIterations(start, end, step);
    if (step > 0 && start >= end) || (step < 0 && start <= end) {
      return 0;
    }
    assert RunsExactly(start, end, step, n) by {
      CountIsRunsIffNothingWraps(start, end, step);
    }
    var cont := new ForCont(start, end, step);
    runs := 0;
    var more := true;
    while more
      invariant cont.end == end && cont.step == step
      invariant runs <= n && cont.current == IteratorAt(start, step, runs)
      invariant more ==> runs < n
      invariant !more ==> runs == n
      decreases n - runs
    {
      runs := runs + 1;
      more := cont.Advance();
    }
  }
}
