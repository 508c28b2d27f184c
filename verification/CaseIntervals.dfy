/**
  The interval analysis of the `case` exhaustiveness check (basic/go/case_exhaustive.go):
  numeric sets, their closed int64 spans, coverage of all of int64, and containment.
*/
module CaseIntervals {
  import opened Int64
  import opened Doubles
  import opened Lattice
  import opened Wrappers

  datatype Num = Whole(i: int64) | Fraction(f: Double)

  /** The float64 projection every number carries. */
  function AsFloat(x: Num): Double {
    match x
    case Whole(i) => Projected(i)
    case Fraction(f) => f
  }

  predicate IsNaN(x: Num) {
    x == Fraction(NaN)
  }

  predicate IsFinite(x: Num) {
    x.Whole? || x.f.Finite? || x.f.NegZero?
  }

  datatype Bound = Unbounded | At(x: Num, incl: bool)

  /** A bound is a literal, never NaN or infinite. */
  type Limit = b: Bound | b.At? ==> IsFinite(b.x) witness Unbounded

  datatype Interval = Interval(lo: Limit, hi: Limit, base: Option<Type>)

  /** Two integers compare exactly, any other pair through float64; NaN is not ordered. */
  function BoundCmp(x: Num, y: Num): int {
    if x.Whole? && y.Whole? then
      if x.i < y.i then -1 else if x.i > y.i then 1 else 0
    else Cmp(AsFloat(x), AsFloat(y))
  }

  function Cmp(x: Double, y: Double): int {
    if Less(x, y) then -1 else if Less(y, x) then 1 else 0
  }

  predicate AboveLow(b: Limit, x: Num) {
    b.At? ==> BoundCmp(x, b.x) > 0 || (BoundCmp(x, b.x) == 0 && b.incl)
  }

  predicate BelowHigh(b: Limit, x: Num) {
    b.At? ==> BoundCmp(x, b.x) < 0 || (BoundCmp(x, b.x) == 0 && b.incl)
  }

  /** The run-time test of one number against one interval. */
  predicate ContainsValue(iv: Interval, x: Num) {
    !IsNaN(x) && AboveLow(iv.lo, x) && BelowHigh(iv.hi, x)
  }

  // ---------------------------------------------------------------- integer spans

  /** The integers a lower end lets in, as the span computation reads it: `math.Floor(f) + 1` rounds. */
  predicate FromLow(b: Limit, i: int) {
    match b
    case Unbounded => true
    case At(Whole(n), incl) => n < i || (incl && n == i)
    case At(Fraction(f), incl) => (if incl then Ceil(Real(f)) else Round(Real(f).Floor + 1)) <= i
  }

  predicate ToHigh(b: Limit, i: int) {
    match b
    case Unbounded => true
    case At(Whole(n), incl) => i < n || (incl && n == i)
    case At(Fraction(f), incl) => i <= if incl then Real(f).Floor else Round(Ceil(Real(f)) - 1)
  }

  predicate InSpan(iv: Interval, i: int) {
    FromLow(iv.lo, i) && ToHigh(iv.hi, i)
  }

  datatype Span = Span(lo: int64, hi: int64)

  /** The guards lose and invent no int64, and no endpoint step overflows. */
  method CaseIntSpan(iv: Interval) returns (lo: int64, hi: int64, ok: bool)
    ensures forall i: int64 :: (ok && lo <= i <= hi) <==> InSpan(iv, i)
    ensures ok ==> lo <= hi
  {
    lo, hi := MIN, MAX;
    if iv.lo.At? {
      if iv.lo.x.Whole? {
        lo := iv.lo.x.i;
        if !iv.lo.incl {
          if lo == MAX {
            return 0, 0, false;
          }
          lo := lo + 1;
        }
      } else {
        var f := Real(iv.lo.x.f);
        var g := if iv.lo.incl then Ceil(f) else Round(f.Floor + 1);
        if g >= TWO63 {
          return 0, 0, false;
        }
        if g >= -TWO63 {
          lo := g;
        }
      }
    }
    assert forall i: int64 :: lo <= i <==> FromLow(iv.lo, i);
    if iv.hi.At? {
      if iv.hi.x.Whole? {
        hi := iv.hi.x.i;
        if !iv.hi.incl {
          if hi == MIN {
            return 0, 0, false;
          }
          hi := hi - 1;
        }
      } else {
        var f := Real(iv.hi.x.f);
        var g := if iv.hi.incl then f.Floor else Round(Ceil(f) - 1);
        if g < -TWO63 {
          return 0, 0, false;
        }
        if g < TWO63 {
          hi := g;
        }
      }
    }
    assert forall i: int64 :: i <= hi <==> ToHigh(iv.hi, i);
    if lo > hi {
      return 0, 0, false;
    }
    ok := true;
  }

  // ---------------------------------------------------------------- coverage of int64

  predicate Applies(iv: Interval, at: Type) {
    iv.base.Some? ==> ConformsTo(at, iv.base.value)
  }

  predicate Spans(s: Span, i: int) {
    s.lo <= i <= s.hi
  }

  predicate SomeHolds(spans: seq<Span>, i: int) {
    exists s | s in spans :: Spans(s, i)
  }

  predicate SomeSpan(ivals: seq<Interval>, at: Type, i: int) {
    exists iv | iv in ivals :: Applies(iv, at) && InSpan(iv, i)
  }

  predicate SortedByLow(spans: seq<Span>) {
    forall j, k | 0 <= j < k < |spans| :: spans[j].lo <= spans[k].lo
  }

  function InsertSpan(s: Span, sorted: seq<Span>): (r: seq<Span>)
    requires SortedByLow(sorted)
    ensures SortedByLow(r) && |r| == |sorted| + 1
    ensures forall t :: t in r <==> t == s || t in sorted
  {
    if sorted == [] || s.lo <= sorted[0].lo then [s] + sorted
    else
      assert sorted == [sorted[0]] + sorted[1..];
      var rest := InsertSpan(s, sorted[1..]);
      assert forall t | t in rest :: sorted[0].lo <= t.lo;
      assert forall k | 0 <= k < |rest| :: rest[k] in rest;
      [sorted[0]] + rest
  }

  function SortSpans(spans: seq<Span>): (r: seq<Span>)
    ensures SortedByLow(r) && |r| == |spans|
    ensures forall t :: t in r <==> t in spans
  {
    if spans == [] then []
    else
      assert spans == [spans[0]] + spans[1..];
      InsertSpan(spans[0], SortSpans(spans[1..]))
  }

  method CollectSpans(ivals: seq<Interval>, at: Type) returns (spans: seq<Span>)
    ensures forall i: int64 :: SomeHolds(spans, i) <==> SomeSpan(ivals, at, i)
    ensures forall s | s in spans :: s.lo <= s.hi
  {
    spans := [];
    for k := 0 to |ivals|
      invariant forall i: int64 :: SomeHolds(spans, i) <==> SomeSpan(ivals[..k], at, i)
      invariant forall s | s in spans :: s.lo <= s.hi
    {
      var iv := ivals[k];
      ghost var before := spans;
      if Applies(iv, at) {
        var lo, hi, ok := CaseIntSpan(iv);
        if ok {
          spans := spans + [Span(lo, hi)];
        }
      }
      forall i: int64
        ensures SomeHolds(spans, i) <==> SomeSpan(ivals[..k + 1], at, i)
      {
        OneMoreInterval(ivals, k, at, i);
        if |spans| > |before| { OneMoreSpan(before, spans[|before|], i); }
      }
    }
    assert ivals[..|ivals|] == ivals;
  }

  lemma OneMoreInterval(ivals: seq<Interval>, k: nat, at: Type, i: int)
    requires k < |ivals|
    ensures SomeSpan(ivals[..k + 1], at, i)
       <==> SomeSpan(ivals[..k], at, i) || (Applies(ivals[k], at) && InSpan(ivals[k], i))
  {
    assert ivals[..k + 1] == ivals[..k] + [ivals[k]];
    if Applies(ivals[k], at) && InSpan(ivals[k], i) {
      assert ivals[k] in ivals[..k + 1];
    }
    if SomeSpan(ivals[..k], at, i) {
      var iv :| iv in ivals[..k] && Applies(iv, at) && InSpan(iv, i);
      assert iv in ivals[..k + 1];
    }
  }

  lemma OneMoreSpan(spans: seq<Span>, s: Span, i: int)
    ensures SomeHolds(spans + [s], i) <==> SomeHolds(spans, i) || Spans(s, i)
  {
    var more := spans + [s];
    assert more[|spans|] == s;
    if SomeHolds(spans, i) {
      var t :| t in spans && Spans(t, i);
      assert t in more;
    }
  }

  /** The spans from the k-th on all start above i. */
  lemma NoneFrom(spans: seq<Span>, k: nat, i: int)
    requires SortedByLow(spans) && k < |spans| && i < spans[k].lo
    requires forall s | s in spans[..k] :: s.hi < i
    ensures !SomeHolds(spans, i)
  {
    forall s | s in spans ensures !Spans(s, i) {
      var j :| 0 <= j < |spans| && spans[j] == s;
      assert j < k ==> s in spans[..k];
    }
  }

  /** Decided exactly, in one pass over the sorted spans; cur.hi + 1 is an int64. */
  method CaseIvalsCover(ivals: seq<Interval>, at: Type) returns (covered: bool)
    ensures covered <==> ConformsTo(at, INTEGER) && forall i: int64 :: SomeSpan(ivals, at, i)
  {
    if !ConformsTo(at, INTEGER) {
      return false;
    }
    var spans := CollectSpans(ivals, at);
    if |spans| == 0 {
      assert !SomeHolds(spans, 0) && !SomeSpan(ivals, at, 0);
      return false;
    }
    ghost var unsorted := spans;
    spans := SortSpans(spans);
    assert forall i: int64 :: SomeHolds(spans, i) <==> SomeSpan(ivals, at, i) by {
      SameSpans(unsorted, spans);
    }
    covered := Sweep(spans);
  }

  lemma SameSpans(a: seq<Span>, b: seq<Span>)
    requires forall s :: s in b <==> s in a
    ensures forall i :: SomeHolds(a, i) <==> SomeHolds(b, i)
  {
  }

  method Sweep(spans: seq<Span>) returns (covered: bool)
    requires SortedByLow(spans) && |spans| > 0
    requires forall s | s in spans :: s.lo <= s.hi
    ensures covered <==> forall i: int64 :: SomeHolds(spans, i)
  {
    var cur := spans[0];
    if cur.lo != MIN {
      NoneFrom(spans, 0, MIN);
      return false;
    }
    assert spans[..1] == [cur] && cur in spans;
    assert forall i | cur.lo <= i <= cur.hi :: Spans(cur, i);
    for k := 1 to |spans|
      invariant cur.lo == MIN
      invariant forall s | s in spans[..k] :: s.hi <= cur.hi
      invariant forall i | MIN <= i <= cur.hi :: SomeHolds(spans, i)
    {
      if cur.hi == MAX {
        return true;
      }
      var s := spans[k];
      var next: int64 := cur.hi + 1;
      if s.lo > next {
        NoneFrom(spans, k, next);
        return false;
      }
      assert spans[..k + 1] == spans[..k] + [s];
      assert s in spans && forall i | s.lo <= i <= s.hi :: Spans(s, i);
      if s.hi > cur.hi {
        cur := Span(cur.lo, s.hi);
      }
    }
    covered := cur.hi == MAX;
    if !covered {
      assert spans[..|spans|] == spans;
      var next: int64 := cur.hi + 1;
      assert forall s | s in spans :: !Spans(s, next);
      assert !SomeHolds(spans, next);
    }
  }

  // ---------------------------------------------------------------- spans against the run-time test

  /** The exclusive steps that leave their bound: math.Floor(f) + 1 > f, in float64 arithmetic. */
  predicate StepsUp(b: Limit) {
    b.At? && b.x.Fraction? && !b.incl ==>
      var f := Real(b.x.f);
      f < -TWO63 as real || f >= TWO63 as real || Round(f.Floor + 1) as real > f
  }

  predicate StepsDown(b: Limit) {
    b.At? && b.x.Fraction? && !b.incl ==>
      var f := Real(b.x.f);
      f < -TWO63 as real || f > TWO63 as real || (Round(Ceil(f) - 1) as real) < f
  }

  predicate Steps(iv: Interval) {
    StepsUp(iv.lo) && StepsDown(iv.hi)
  }

  lemma Floors(v: real)
    ensures v.Floor as real <= v < (v.Floor + 1) as real
    ensures (Ceil(v) - 1) as real < v <= Ceil(v) as real
  {
  }

  /** Below 2^53 no step rounds; beyond, a double is its own floor and ceiling. */
  lemma GridSteps(v: real)
    requires OnGrid(v)
    ensures Round(v.Floor) == v.Floor && Round(Ceil(v)) == Ceil(v)
    ensures -EXACT as real <= v < EXACT as real ==> Round(v.Floor + 1) == v.Floor + 1
    ensures -EXACT as real < v <= EXACT as real ==> Round(Ceil(v) - 1) == Ceil(v) - 1
    ensures v <= -EXACT as real || EXACT as real <= v ==>
      v == v.Floor as real && Ceil(v) == v.Floor && v.Floor % 2 == 0
  {
    Floors(v);
    if v <= -EXACT as real || EXACT as real <= v {
      RoundEven(v.Floor);
    } else {
      RoundExact(v.Floor);
      RoundExact(Ceil(v));
    }
    if -EXACT as real <= v < EXACT as real { RoundExact(v.Floor + 1); }
    if -EXACT as real < v <= EXACT as real { RoundExact(Ceil(v) - 1); }
  }

  /** float64 sends int64 onto [-2^63, 2^63]. */
  lemma ProjectionRange(i: int64)
    ensures -TWO63 <= Round(i) <= TWO63
  {
    RoundTwo63();
    RoundMonotone(-TWO63, i);
    RoundMonotone(i, TWO63);
  }

  /** The test of an integer against a float bound, in reals. */
  lemma FloatBoundTest(f: Double, incl: bool, i: int64)
    requires IsFinite(Fraction(f))
    ensures AboveLow(At(Fraction(f), incl), Whole(i)) <==>
      Round(i) as real > Real(f) || (incl && Round(i) as real == Real(f))
    ensures BelowHigh(At(Fraction(f), incl), Whole(i)) <==>
      (Round(i) as real) < Real(f) || (incl && Round(i) as real == Real(f))
  {
  }

  lemma LowInSpan(b: Limit, i: int64)
    requires StepsUp(b) && FromLow(b, i)
    ensures AboveLow(b, Whole(i))
  {
    if b.At? && b.x.Fraction? {
      var v := Real(b.x.f);
      var start := if b.incl then Ceil(v) else Round(v.Floor + 1);
      Floors(v);
      GridSteps(v);
      FloatBoundTest(b.x.f, b.incl, i);
      ProjectionRange(i);
      RoundMonotone(start, i);
      RoundTwo63();
      RoundMonotone(TWO63, v.Floor + 1);
      RoundIdempotent(v.Floor + 1);
    }
  }

  lemma HighInSpan(b: Limit, i: int64)
    requires StepsDown(b) && ToHigh(b, i)
    ensures BelowHigh(b, Whole(i))
  {
    if b.At? && b.x.Fraction? {
      var v := Real(b.x.f);
      var end := if b.incl then v.Floor else Round(Ceil(v) - 1);
      Floors(v);
      GridSteps(v);
      FloatBoundTest(b.x.f, b.incl, i);
      ProjectionRange(i);
      RoundMonotone(i, end);
      RoundMonotone(Ceil(v) - 1, Ceil(v));
      RoundIdempotent(Ceil(v) - 1);
    }
  }

  /** Everything in a lower span passes the test, if and only if the bound steps. */
  lemma LowSound(b: Limit)
    ensures (forall i: int64 | FromLow(b, i) :: AboveLow(b, Whole(i))) <==> StepsUp(b)
  {
    forall i: int64 | StepsUp(b) && FromLow(b, i) ensures AboveLow(b, Whole(i)) {
      LowInSpan(b, i);
    }
    if !StepsUp(b) {
      var v := Real(b.x.f);
      Floors(v);
      GridSteps(v);
      FloatBoundTest(b.x.f, b.incl, v.Floor);
      assert FromLow(b, v.Floor) && !AboveLow(b, Whole(v.Floor));
    }
  }

  /** Likewise for an upper span. */
  lemma HighSound(b: Limit)
    ensures (forall i: int64 | ToHigh(b, i) :: BelowHigh(b, Whole(i))) <==> StepsDown(b)
  {
    forall i: int64 | StepsDown(b) && ToHigh(b, i) ensures BelowHigh(b, Whole(i)) {
      HighInSpan(b, i);
    }
    if !StepsDown(b) {
      var v := Real(b.x.f);
      Floors(v);
      GridSteps(v);
      var i: int64 := if Ceil(v) == TWO63 then MAX else Ceil(v);
      RoundTwo63();
      RoundMonotone(-TWO63, Ceil(v) - 1);
      FloatBoundTest(b.x.f, b.incl, i);
      assert ToHigh(b, i) && !BelowHigh(b, Whole(i));
    }
  }

  /** The bounds at which the lower span is the run-time test, no more and no less. */
  predicate MeetsLow(b: Limit) {
    b.At? && b.x.Fraction? ==>
      var v := Real(b.x.f);
      if b.incl then v <= -TWO63 as real || v > TWO63 as real || (Round(Ceil(v) - 1) as real) < v
      else v < -TWO63 as real || -EXACT as real <= v < EXACT as real || v >= TWO63 as real
  }

  predicate MeetsHigh(b: Limit) {
    b.At? && b.x.Fraction? ==>
      var v := Real(b.x.f);
      if b.incl then v < -TWO63 as real || v >= TWO63 as real || Round(v.Floor + 1) as real > v
      else v < -TWO63 as real || -EXACT as real < v <= EXACT as real || v > TWO63 as real
  }

  lemma LowAgrees(b: Limit, i: int64)
    requires MeetsLow(b)
    ensures FromLow(b, i) <==> AboveLow(b, Whole(i))
  {
    if b.At? && b.x.Fraction? {
      var v := Real(b.x.f);
      Floors(v);
      GridSteps(v);
      FloatBoundTest(b.x.f, b.incl, i);
      ProjectionRange(i);
      RoundTwo63();
      if FromLow(b, i) {
        RoundMonotone(TWO63, v.Floor + 1);
        LowInSpan(b, i);
      } else if b.incl {
        RoundMonotone(i, Ceil(v) - 1);
      } else {
        RoundMonotone(v.Floor + 1, -TWO63);
        RoundMonotone(i, v.Floor);
      }
    }
  }

  lemma LowExact(b: Limit)
    ensures (forall i: int64 :: FromLow(b, i) <==> AboveLow(b, Whole(i))) <==> MeetsLow(b)
  {
    forall i: int64 | MeetsLow(b) ensures FromLow(b, i) <==> AboveLow(b, Whole(i)) {
      LowAgrees(b, i);
    }
    if !MeetsLow(b) {
      var i := LowMisses(b);
    }
  }

  /** An integer on which the span and the test differ. */
  lemma LowMisses(b: Limit) returns (i: int64)
    requires !MeetsLow(b)
    ensures FromLow(b, i) <==> !AboveLow(b, Whole(i))
  {
    var v := Real(b.x.f);
    Floors(v);
    GridSteps(v);
    if b.incl {
      i := Ceil(v) - 1;
    } else {
      RoundMonotone(v.Floor, v.Floor + 1);
      RoundEven(v.Floor + 1);
      i := if Round(v.Floor + 1) == v.Floor then v.Floor else v.Floor + 1;
    }
    FloatBoundTest(b.x.f, b.incl, i);
  }

  lemma HighAgrees(b: Limit, i: int64)
    requires MeetsHigh(b)
    ensures ToHigh(b, i) <==> BelowHigh(b, Whole(i))
  {
    if b.At? && b.x.Fraction? {
      var v := Real(b.x.f);
      Floors(v);
      GridSteps(v);
      FloatBoundTest(b.x.f, b.incl, i);
      ProjectionRange(i);
      RoundTwo63();
      if ToHigh(b, i) {
        HighInSpan(b, i);
      } else if b.incl {
        RoundMonotone(v.Floor + 1, i);
      } else {
        RoundMonotone(TWO63, Ceil(v) - 1);
        RoundMonotone(Ceil(v), i);
      }
    }
  }

  lemma HighExact(b: Limit)
    ensures (forall i: int64 :: ToHigh(b, i) <==> BelowHigh(b, Whole(i))) <==> MeetsHigh(b)
  {
    forall i: int64 | MeetsHigh(b) ensures ToHigh(b, i) <==> BelowHigh(b, Whole(i)) {
      HighAgrees(b, i);
    }
    if !MeetsHigh(b) {
      if b.incl {
        var i := HighMissesInclusive(b);
      } else {
        var i := HighMissesExclusive(b);
      }
    }
  }

  lemma HighMissesInclusive(b: Limit) returns (i: int64)
    requires !MeetsHigh(b) && b.incl
    ensures !ToHigh(b, i) && BelowHigh(b, Whole(i))
  {
    var v := Real(b.x.f);
    Floors(v);
    GridSteps(v);
    i := v.Floor + 1;
    FloatBoundTest(b.x.f, b.incl, i);
  }

  lemma HighMissesExclusive(b: Limit) returns (i: int64)
    requires !MeetsHigh(b) && !b.incl
    ensures ToHigh(b, i) <==> !BelowHigh(b, Whole(i))
  {
    var v := Real(b.x.f);
    Floors(v);
    GridSteps(v);
    RoundTwo63();
    if v == TWO63 as real {
      i := MAX;
    } else {
      RoundMonotone(Ceil(v) - 1, Ceil(v));
      RoundEven(Ceil(v) - 1);
      i := if Round(Ceil(v) - 1) == Ceil(v) then Ceil(v) else Ceil(v) - 1;
    }
    FloatBoundTest(b.x.f, b.incl, i);
  }

  /** The integers in the span of an interval are the ones the run-time test admits. */
  lemma SpanAgrees(iv: Interval)
    requires MeetsLow(iv.lo) && MeetsHigh(iv.hi)
    ensures forall i: int64 :: InSpan(iv, i) <==> ContainsValue(iv, Whole(i))
  {
    LowExact(iv.lo);
    HighExact(iv.hi);
  }

  /** As a float64 the number is the bound: a zero at a zero, or integers and floats that share a projection. */
  predicate Touches(x: Num, b: Limit) {
    b.At? && Cmp(AsFloat(x), AsFloat(b.x)) == 0
  }

  /** The number is, as a float64, an exclusive float end. */
  predicate TouchesOpen(iv: Interval, x: Num) {
    || (iv.lo.At? && iv.lo.x.Fraction? && !iv.lo.incl && Touches(x, iv.lo))
    || (iv.hi.At? && iv.hi.x.Fraction? && !iv.hi.incl && Touches(x, iv.hi))
  }

  /** An integer of the span passes the run-time test, if and only if it is no exclusive float end as a float64. */
  lemma SpanMeansTest(iv: Interval, i: int64)
    requires InSpan(iv, i)
    ensures ContainsValue(iv, Whole(i)) <==> !TouchesOpen(iv, Whole(i))
  {
    LowSpanMeansTest(iv.lo, i);
    HighSpanMeansTest(iv.hi, i);
  }

  lemma LowSpanMeansTest(b: Limit, i: int64)
    requires FromLow(b, i)
    ensures AboveLow(b, Whole(i)) <==> !(b.At? && b.x.Fraction? && !b.incl && Touches(Whole(i), b))
    ensures b.At? && b.x.Fraction? && !b.incl && Touches(Whole(i), b) ==> i != 0
  {
    if b.At? && b.x.Fraction? {
      var v := Real(b.x.f);
      Floors(v);
      GridSteps(v);
      FloatBoundTest(b.x.f, b.incl, i);
      RoundMonotone(if b.incl then Ceil(v) else v.Floor, if b.incl then Ceil(v) else v.Floor + 1);
      RoundMonotone(if b.incl then Ceil(v) else Round(v.Floor + 1), i);
      RoundIdempotent(v.Floor + 1);
      RoundExact(1);
    }
  }

  lemma HighSpanMeansTest(b: Limit, i: int64)
    requires ToHigh(b, i)
    ensures BelowHigh(b, Whole(i)) <==> !(b.At? && b.x.Fraction? && !b.incl && Touches(Whole(i), b))
    ensures b.At? && b.x.Fraction? && !b.incl && Touches(Whole(i), b) ==> i != 0
  {
    if b.At? && b.x.Fraction? {
      var v := Real(b.x.f);
      Floors(v);
      GridSteps(v);
      FloatBoundTest(b.x.f, b.incl, i);
      RoundMonotone(if b.incl then v.Floor else Ceil(v) - 1, if b.incl then v.Floor else Ceil(v));
      RoundMonotone(i, if b.incl then v.Floor else Round(Ceil(v) - 1));
      RoundIdempotent(Ceil(v) - 1);
      RoundExact(-1);
    }
  }

  /** What the sweep proves of the spans holds of the run-time tests, as long as the bounds step. */
  lemma CoverIsSound(ivals: seq<Interval>, at: Type, i: int64)
    requires SomeSpan(ivals, at, i)
    requires forall iv | iv in ivals && Applies(iv, at) :: Steps(iv)
    ensures exists iv | iv in ivals :: Applies(iv, at) && ContainsValue(iv, Whole(i))
  {
    var iv :| iv in ivals && Applies(iv, at) && InSpan(iv, i);
    LowSound(iv.lo);
    HighSound(iv.hi);
  }

  /** [gt 2^53.0] and [lt 2^53.0] are found to cover Integer; neither admits 2^53. */
  lemma StuckStepsLeaveAGap()
    ensures var bound := At(Fraction(Finite(EXACT as real)), false);
      var above := Interval(bound, Unbounded, None);
      var below := Interval(Unbounded, bound, None);
      && (forall i: int64 :: SomeSpan([above, below], INTEGER, i))
      && !ContainsValue(above, Whole(EXACT)) && !ContainsValue(below, Whole(EXACT))
  {
    RoundTie();
    var bound := At(Fraction(Finite(EXACT as real)), false);
    var above := Interval(bound, Unbounded, None);
    var below := Interval(Unbounded, bound, None);
    var both := [above, below];
    forall i: int64 ensures SomeSpan(both, INTEGER, i) {
      assert above in both && below in both;
      assert InSpan(above, i) || InSpan(below, i);
    }
  }

  // ---------------------------------------------------------------- containment

  predicate LowWithin(a: Limit, b: Limit) {
    a.At? ==> b.At? && (BoundCmp(b.x, a.x) > 0 || (BoundCmp(b.x, a.x) == 0 && (b.incl ==> a.incl)))
  }

  predicate HighWithin(a: Limit, b: Limit) {
    a.At? ==> b.At? && (BoundCmp(b.x, a.x) < 0 || (BoundCmp(b.x, a.x) == 0 && (b.incl ==> a.incl)))
  }

  /** The static a >= b; a restricted a only contains a b restricted at least as much. */
  predicate IvalContains(a: Interval, b: Interval) {
    && (a.base.Some? ==> b.base.Some? && ConformsTo(b.base.value, a.base.value))
    && LowWithin(a.lo, b.lo)
    && HighWithin(a.hi, b.hi)
  }

  /** No integer beside the shared bound is projected onto it. */
  predicate LowKeeps(a: Limit, b: Limit) {
    a.At? && b.At? ==>
      match (a.x, b.x)
      case (Whole(n), Whole(m)) => a.incl || !b.incl || n == m || Round(n) != Round(m)
      case (Whole(n), Fraction(g)) =>
        a.incl && b.incl && Real(g) == Round(n) as real ==> n == MIN || Round(n - 1) != Round(n)
      case (Fraction(f), Whole(m)) =>
        !a.incl && !b.incl && Real(f) == Round(m) as real ==> m == MAX || Round(m + 1) != Round(m)
      case (Fraction(_), Fraction(_)) => true
  }

  predicate HighKeeps(a: Limit, b: Limit) {
    a.At? && b.At? ==>
      match (a.x, b.x)
      case (Whole(n), Whole(m)) => a.incl || !b.incl || n == m || Round(n) != Round(m)
      case (Whole(n), Fraction(g)) =>
        a.incl && b.incl && Real(g) == Round(n) as real ==> n == MAX || Round(n + 1) != Round(n)
      case (Fraction(f), Whole(m)) =>
        !a.incl && !b.incl && Real(f) == Round(m) as real ==> m == MIN || Round(m - 1) != Round(m)
      case (Fraction(_), Fraction(_)) => true
  }

  predicate Keeps(a: Interval, b: Interval) {
    LowKeeps(a.lo, b.lo) && HighKeeps(a.hi, b.hi)
  }

  lemma Ordered(i: int, j: int)
    ensures i <= j ==> Round(i) <= Round(j)
    ensures j <= i ==> Round(j) <= Round(i)
  {
    RoundMonotone(i, j);
    RoundMonotone(j, i);
  }

  lemma MixedCmp(i: int64, f: Double)
    requires IsFinite(Fraction(f))
    ensures BoundCmp(Whole(i), Fraction(f)) > 0 <==> Round(i) as real > Real(f)
    ensures BoundCmp(Whole(i), Fraction(f)) < 0 <==> (Round(i) as real) < Real(f)
    ensures BoundCmp(Fraction(f), Whole(i)) == -BoundCmp(Whole(i), Fraction(f))
  {
  }

  lemma CmpTransitive(x: Double, y: Double, z: Double)
    requires x != NaN && y != NaN && z != NaN
    ensures Cmp(x, y) >= 0 && Cmp(y, z) >= 0 ==> Cmp(x, z) >= 0 && (Cmp(x, z) == 0 ==> Cmp(x, y) == Cmp(y, z) == 0)
    ensures Cmp(x, y) <= 0 && Cmp(y, z) <= 0 ==> Cmp(x, z) <= 0 && (Cmp(x, z) == 0 ==> Cmp(x, y) == Cmp(y, z) == 0)
  {
  }

  /** The projection separates i from n as soon as it separates n from its neighbour. */
  lemma Apart(n: int, i: int)
    ensures Round(n) != Round(n + 1) && n < i ==> Round(n) < Round(i)
    ensures Round(n) != Round(n - 1) && i < n ==> Round(i) < Round(n)
  {
    Ordered(n, n + 1);
    Ordered(n + 1, i);
    Ordered(n - 1, n);
    Ordered(i, n - 1);
  }

  lemma LowTransfers(a: Limit, b: Limit, x: Num)
    requires LowWithin(a, b) && LowKeeps(a, b) && !IsNaN(x) && AboveLow(b, x)
    ensures AboveLow(a, x)
  {
    if a.At? {
      match (a.x, b.x, x)
      case (Whole(n), Whole(m), Whole(i)) =>
      case (Whole(n), Whole(m), Fraction(g)) =>
        Ordered(n, m);
        CmpTransitive(g, Projected(m), Projected(n));
      case (Whole(n), Fraction(g), Whole(i)) =>
        MixedCmp(i, g);
        MixedCmp(n, g);
        Ordered(i, n);
        Apart(n, i);
      case (Fraction(f), Whole(m), Whole(i)) =>
        MixedCmp(i, f);
        MixedCmp(m, f);
        Ordered(i, m);
        Apart(m, i);
      case _ => CmpTransitive(AsFloat(x), AsFloat(b.x), AsFloat(a.x));
    }
  }

  lemma HighTransfers(a: Limit, b: Limit, x: Num)
    requires HighWithin(a, b) && HighKeeps(a, b) && !IsNaN(x) && BelowHigh(b, x)
    ensures BelowHigh(a, x)
  {
    if a.At? {
      match (a.x, b.x, x)
      case (Whole(n), Whole(m), Whole(i)) =>
      case (Whole(n), Whole(m), Fraction(g)) =>
        Ordered(n, m);
        CmpTransitive(g, Projected(m), Projected(n));
      case (Whole(n), Fraction(g), Whole(i)) =>
        MixedCmp(i, g);
        MixedCmp(n, g);
        Ordered(i, n);
        Apart(n, i);
      case (Fraction(f), Whole(m), Whole(i)) =>
        MixedCmp(i, f);
        MixedCmp(m, f);
        Ordered(i, m);
        Apart(m, i);
      case _ => CmpTransitive(AsFloat(x), AsFloat(b.x), AsFloat(a.x));
    }
  }

  /** A contained lower end is contained for every number, if and only if the projection keeps the two ends apart. */
  lemma LowContained(a: Limit, b: Limit)
    requires LowWithin(a, b)
    ensures (forall x: Num | !IsNaN(x) && AboveLow(b, x) :: AboveLow(a, x)) <==> LowKeeps(a, b)
  {
    forall x: Num | LowKeeps(a, b) && !IsNaN(x) && AboveLow(b, x) ensures AboveLow(a, x) {
      LowTransfers(a, b, x);
    }
    if !LowKeeps(a, b) {
      var x :=
        if a.x.Fraction? then Whole(b.x.i + 1)
        else if b.x.Whole? then Fraction(Projected(b.x.i))
        else Whole(a.x.i - 1);
      assert !IsNaN(x) && AboveLow(b, x) && !AboveLow(a, x);
    }
  }

  lemma HighContained(a: Limit, b: Limit)
    requires HighWithin(a, b)
    ensures (forall x: Num | !IsNaN(x) && BelowHigh(b, x) :: BelowHigh(a, x)) <==> HighKeeps(a, b)
  {
    forall x: Num | HighKeeps(a, b) && !IsNaN(x) && BelowHigh(b, x) ensures BelowHigh(a, x) {
      HighTransfers(a, b, x);
    }
    if !HighKeeps(a, b) {
      var x :=
        if a.x.Fraction? then Whole(b.x.i - 1)
        else if b.x.Whole? then Fraction(Projected(b.x.i))
        else Whole(a.x.i + 1);
      assert !IsNaN(x) && BelowHigh(b, x) && !BelowHigh(a, x);
    }
  }

  /** Every number of the inner interval is in the outer one, floats included. */
  lemma ContainedValue(a: Interval, b: Interval, x: Num)
    requires IvalContains(a, b) && Keeps(a, b) && ContainsValue(b, x)
    ensures ContainsValue(a, x)
  {
    LowTransfers(a.lo, b.lo, x);
    HighTransfers(a.hi, b.hi, x);
  }
}
