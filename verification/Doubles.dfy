/**
  Go's float64 as far as the `case` analysis looks at it: the projection float64(i) of an
  integer, rounding to 53 significant bits with ties to even, and the comparisons.
*/
module Doubles {
  import Arith

  const TWO63 := 0x8000_0000_0000_0000
  const EXACT := 0x20_0000_0000_0000 // 2^53

  // ---------------------------------------------------------------- rounding

  /** x rounded to a multiple of u; a tie goes to the even multiple. */
  function RoundAt(x: nat, u: nat): nat
    requires u > 0
  {
    var d := x / u * u;
    var rest := x - d;
    if 2 * rest < u || (2 * rest == u && x / u % 2 == 0) then d else d + u
  }

  /** The spacing doubles until 53 bits suffice. */
  function RoundFrom(x: nat, u: nat): nat
    requires u > 0
    decreases x - EXACT * u
  {
    if x < EXACT * u then RoundAt(x, u) else RoundFrom(x, 2 * u)
  }

  /** float64(x), as an integer: a double of magnitude 2^53 or more has no fraction. */
  function Round(x: int): int {
    if x >= 0 then RoundFrom(x, 1)
    else
      var magnitude: int := RoundFrom(-x, 1);
      -magnitude
  }

  lemma RoundAtIsMultiple(x: nat, u: nat) returns (k: nat)
    requires u > 0
    ensures RoundAt(x, u) == k * u
    ensures x / u * u <= RoundAt(x, u) <= x / u * u + u
    ensures RoundAt(x, u) <= x < RoundAt(x, u) + u || RoundAt(x, u) - u < x <= RoundAt(x, u)
  {
    Arith.Euclid(x, u);
    k := if RoundAt(x, u) == x / u * u then x / u else x / u + 1;
    Arith.NextMultiple(x / u + 1, u);
  }

  lemma RoundAtFixes(k: nat, u: nat)
    requires u > 0
    ensures k * u >= 0 && RoundAt(k * u, u) == k * u
  {
    Arith.Product(k, u);
    Arith.QuotientIs(k * u, u, k);
  }

  lemma RoundAtMonotone(x: nat, y: nat, u: nat)
    requires u > 0 && x <= y
    ensures RoundAt(x, u) <= RoundAt(y, u)
  {
    Arith.Euclid(x, u);
    Arith.Euclid(y, u);
    Arith.FactorOrder(x / u, y / u, u);
    if x / u < y / u {
      var k := RoundAtIsMultiple(x, u);
      var l := RoundAtIsMultiple(y, u);
      Arith.FactorMonotone(x / u + 1, y / u, u);
      Arith.NextMultiple(x / u + 1, u);
    }
  }

  lemma RoundAtBelow(x: nat, u: nat)
    requires u > 0 && x <= EXACT * u
    ensures RoundAt(x, u) <= EXACT * u
  {
    RoundAtFixes(EXACT, u);
    RoundAtMonotone(x, EXACT * u, u);
  }

  /** A power of the spacing's own base stays where it is on the coarser grid. */
  lemma {:induction false} RoundFromAbove(y: nat, u: nat)
    requires u > 0 && y >= EXACT * u
    ensures RoundFrom(y, 2 * u) >= EXACT * u
    decreases y - EXACT * u
  {
    if y < EXACT * (2 * u) {
      RoundAtFixes(EXACT / 2, 2 * u);
      assert EXACT / 2 * (2 * u) == EXACT * u;
      RoundAtMonotone(EXACT * u, y, 2 * u);
    } else {
      RoundFromAbove(y, 2 * u);
    }
  }

  lemma {:induction false} RoundFromMonotone(x: nat, y: nat, u: nat)
    requires u > 0 && x <= y
    ensures RoundFrom(x, u) <= RoundFrom(y, u)
    decreases y - EXACT * u
  {
    if y < EXACT * u {
      RoundAtMonotone(x, y, u);
    } else if x < EXACT * u {
      RoundAtBelow(x, u);
      RoundFromAbove(y, u);
    } else {
      RoundFromMonotone(x, y, 2 * u);
    }
  }

  lemma {:induction false} RoundFromIdempotent(x: nat, u: nat)
    requires u > 0
    ensures RoundFrom(RoundFrom(x, u), u) == RoundFrom(x, u)
    decreases x - EXACT * u
  {
    if x < EXACT * u {
      var k := RoundAtIsMultiple(x, u);
      RoundAtBelow(x, u);
      RoundAtFixes(k, u);
      if k * u == EXACT * u {
        RoundAtFixes(EXACT / 2, 2 * u);
        assert EXACT / 2 * (2 * u) == EXACT * u;
      }
    } else {
      RoundFromAbove(x, u);
      RoundFromIdempotent(x, 2 * u);
    }
  }

  lemma {:induction false} RoundFromEven(x: nat, u: nat)
    requires u > 0
    ensures RoundFrom(x, 2 * u) % 2 == 0
    decreases x - EXACT * u
  {
    if x >= EXACT * (2 * u) {
      RoundFromEven(x, 2 * u);
    } else {
      var k := RoundAtIsMultiple(x, 2 * u);
      EvenMultiple(k, u);
    }
  }

  lemma EvenMultiple(k: nat, u: nat)
    ensures k * (2 * u) % 2 == 0
  {
    assert k * (2 * u) == 2 * (k * u);
  }

  /** float64 preserves order. */
  lemma RoundMonotone(x: int, y: int)
    ensures x <= y ==> Round(x) <= Round(y)
  {
    if 0 <= x <= y {
      RoundFromMonotone(x, y, 1);
    } else if x <= y < 0 {
      RoundFromMonotone(-y, -x, 1);
    }
  }

  /** float64 is exact up to 2^53, */
  lemma RoundExact(x: int)
    requires -EXACT <= x <= EXACT
    ensures Round(x) == x
  {
  }

  lemma FirstCoarsening(n: nat)
    requires n >= EXACT
    ensures RoundFrom(n, 1) == RoundFrom(n, 2)
  {
  }

  lemma NegativeOfEven(n: int)
    requires n % 2 == 0
    ensures -n % 2 == 0
  {
  }

  /** has no odd value beyond, */
  lemma RoundEven(x: int)
    requires x <= -EXACT || EXACT <= x
    ensures Round(x) % 2 == 0
  {
    var n: nat := if x >= 0 then x else -x;
    RoundFromEven(n, 1);
    FirstCoarsening(n);
    NegativeOfEven(RoundFrom(n, 2));
  }

  /** and moves a value once only. */
  lemma RoundIdempotent(x: int)
    ensures Round(Round(x)) == Round(x)
  {
    RoundFromIdempotent(if x >= 0 then x else -x, 1);
  }

  lemma RoundTie()
    ensures Round(EXACT + 1) == EXACT
  {
    assert RoundAt(EXACT + 1, 2) == EXACT;
    assert RoundFrom(EXACT + 1, 2) == EXACT;
    assert RoundFrom(EXACT + 1, 1) == EXACT;
  }

  // ---------------------------------------------------------------- to nearest, ties to even

  function Pow2(e: nat): (p: nat)
    ensures p > 0
  {
    if e == 0 then 1 else 2 * Pow2(e - 1)
  }

  function Off(a: int, b: int): nat {
    if a < b then b - a else a - b
  }

  /** No other candidate is nearer, and of two equally near the one chosen is the even one. */
  ghost predicate NearestOrEven(r: int, x: int, other: int) {
    && Off(r, x) <= Off(other, x)
    && (Off(r, x) == Off(other, x) && r != other ==> r % (2 * Off(r, other)) == 0)
  }

  /** Among the multiples of the spacing. */
  lemma NearestMultiple(x: nat, u: nat, m: int)
    requires u > 0
    ensures NearestOrEven(RoundAt(x, u), x, m * u)
  {
    var q := x / u;
    Arith.Euclid(x, u);
    Arith.NextMultiple(q + 1, u);
    if m <= q {
      Arith.FactorMonotone(m, q, u);
    } else {
      Arith.FactorMonotone(q + 1, m, u);
    }
    if Off(RoundAt(x, u), x) == Off(m * u, x) && RoundAt(x, u) != m * u {
      assert Off(RoundAt(x, u), m * u) == u;
      EvenOfPair(q, u);
    }
  }

  /** Of two neighbouring multiples the even one is a multiple of twice the spacing. */
  lemma EvenOfPair(q: nat, u: nat)
    requires u > 0
    ensures q % 2 == 0 ==> q * u % (2 * u) == 0
    ensures q % 2 == 1 ==> (q * u + u) % (2 * u) == 0
  {
    var h := (q + 1) / 2;
    Arith.Product(h, 2 * u);
    assert h * (2 * u) == 2 * h * u;
    Arith.QuotientIs(h * (2 * u), 2 * u, h);
    Arith.Euclid(h * (2 * u), 2 * u);
  }

  lemma {:induction false} Pow2Split(d: nat, j: nat)
    requires d >= j
    ensures Pow2(d) == Pow2(d - j) * Pow2(j)
  {
    if j > 0 {
      Pow2Split(d - 1, j - 1);
      assert Pow2(d) == 2 * (Pow2(d - j) * Pow2(j - 1)) == Pow2(d - j) * (2 * Pow2(j - 1));
    }
  }

  /** A significand of 53 bits at a finer spacing does not get past the numbers that need this one. */
  lemma FinerIsBelow(k: int, e: nat, j: nat)
    requires -EXACT <= k <= EXACT && e < j
    ensures k * Pow2(e) <= EXACT / 2 * Pow2(j)
  {
    Pow2Split(j - 1, e);
    FinerProduct(k, Pow2(e), Pow2(j - 1 - e), Pow2(j));
  }

  lemma FinerProduct(k: int, p: nat, h: nat, w: nat)
    requires k <= EXACT && h > 0 && w == 2 * (h * p)
    ensures k * p <= EXACT / 2 * w
  {
    Arith.FactorMonotone(k, EXACT, p);
    Arith.FactorMonotone(1, h, p);
    assert EXACT / 2 * w == EXACT * (h * p);
  }

  /** Below a candidate that is itself below x, only that one can be as near. */
  lemma FartherBelow(r: int, x: int, mid: int, other: int)
    requires NearestOrEven(r, x, mid) && other <= mid <= x
    ensures NearestOrEven(r, x, other)
  {
    assert Off(other, x) == Off(mid, x) ==> other == mid;
  }

  lemma NearestAtSpacing(x: nat, j: nat, k: int, e: nat)
    requires -EXACT <= k <= EXACT && (j > 0 ==> EXACT / 2 * Pow2(j) <= x)
    ensures NearestOrEven(RoundAt(x, Pow2(j)), x, k * Pow2(e))
  {
    if e >= j {
      Pow2Split(e, j);
      Reassociate(k, Pow2(e - j), Pow2(j));
      NearestMultiple(x, Pow2(j), k * Pow2(e - j));
    } else {
      FinerIsBelow(k, e, j);
      NearestMultiple(x, Pow2(j), EXACT / 2);
      FartherBelow(RoundAt(x, Pow2(j)), x, EXACT / 2 * Pow2(j), k * Pow2(e));
    }
  }

  lemma Reassociate(a: int, b: int, c: int)
    ensures a * (b * c) == (a * b) * c
  {
  }

  lemma {:induction false} NearestFrom(x: nat, j: nat, k: int, e: nat)
    requires -EXACT <= k <= EXACT && (j > 0 ==> EXACT / 2 * Pow2(j) <= x)
    ensures Pow2(j) > 0 && NearestOrEven(RoundFrom(x, Pow2(j)), x, k * Pow2(e))
    decreases x - EXACT * Pow2(j)
  {
    if x < EXACT * Pow2(j) {
      NearestAtSpacing(x, j, k, e);
    } else {
      assert Pow2(j + 1) == 2 * Pow2(j);
      assert EXACT / 2 * Pow2(j + 1) == EXACT * Pow2(j);
      NearestFrom(x, j + 1, k, e);
    }
  }

  /** float64 goes to the nearest number of at most 53 significant bits, and of two equally near to the even one. */
  lemma RoundIsNearest(x: int, k: int, e: nat)
    requires -EXACT <= k <= EXACT
    ensures NearestOrEven(Round(x), x, k * Pow2(e))
  {
    if x >= 0 {
      NearestFrom(x, 0, k, e);
    } else {
      NearestFrom(-x, 0, -k, e);
      Arith.NegativeFactor(Pow2(e), k);
      MirrorNearest(RoundFrom(-x, 1), -x, -k * Pow2(e), k * Pow2(e));
    }
  }

  lemma MirrorNearest(r: int, x: int, other: int, mirrored: int)
    requires NearestOrEven(r, x, other) && mirrored == -other
    ensures NearestOrEven(-r, -x, mirrored)
  {
    if Off(r, x) == Off(other, x) && r != other {
      var m := 2 * Off(r, other);
      Arith.Euclid(r, m);
      assert -r == -(r / m) * m;
      Arith.QuotientIs(-r, m, -(r / m));
      Arith.Euclid(-r, m);
    }
  }

  /** And it is one of them. */
  lemma {:induction false} RoundHas53Bits(x: nat, j: nat) returns (k: nat, e: nat)
    ensures Pow2(j) > 0 && k <= EXACT && RoundFrom(x, Pow2(j)) == k * Pow2(e)
    decreases x - EXACT * Pow2(j)
  {
    if x < EXACT * Pow2(j) {
      k := RoundAtIsMultiple(x, Pow2(j));
      e := j;
      RoundAtBelow(x, Pow2(j));
      if k > EXACT {
        Arith.FactorMonotone(EXACT + 1, k, Pow2(j));
      }
    } else {
      assert Pow2(j + 1) == 2 * Pow2(j);
      k, e := RoundHas53Bits(x, j + 1);
    }
  }

  /** float64 of the largest int64 is 2^63, above every int64. */
  lemma RoundTwo63()
    ensures Round(-TWO63) == -TWO63 && Round(TWO63) == TWO63
    ensures Round(TWO63 - 1) == TWO63 && Round(-TWO63 - 1) == -TWO63
  {
    Coarsen(TWO63 + 1, 1024);
    Coarsen(TWO63, 1024);
    Coarsen(TWO63 - 1, 512);
  }

  /** Halving the starting spacing changes nothing for a number that needs the coarser one. */
  lemma {:induction false} Coarsen(x: nat, u: nat)
    requires u in {1, 2, 4, 8, 16, 32, 64, 128, 256, 512, 1024} && x >= EXACT * u
    ensures Round(x) == RoundFrom(x, 2 * u)
  {
    if u > 1 {
      Coarsen(x, u / 2);
    }
  }

  // ---------------------------------------------------------------- values

  datatype Float = NaN | PosInf | NegInf | NegZero | Finite(v: real)

  /** A finite double is whole and on the 53-bit grid once its magnitude reaches 2^53. */
  predicate IsDouble(f: Float) {
    f.Finite? ==> OnGrid(f.v)
  }

  predicate OnGrid(v: real) {
    -EXACT as real < v < EXACT as real
    || (v == v.Floor as real && Round(v.Floor) == v.Floor)
  }

  type Double = f: Float | IsDouble(f) witness NegZero

  function Projected(x: int): Double {
    RoundIdempotent(x);
    Finite(Round(x) as real)
  }

  function Real(f: Float): real {
    if f.Finite? then f.v else 0.0
  }

  /** IEEE `<`: false on NaN, and the two zeros are equal. */
  predicate Less(a: Float, b: Float) {
    match (a, b)
    case (NaN, _) => false
    case (_, NaN) => false
    case (NegInf, _) => b != NegInf
    case (_, PosInf) => a != PosInf
    case (PosInf, _) => false
    case (_, NegInf) => false
    case _ => Real(a) < Real(b)
  }

  /** A number that is no infinity and no NaN. */
  predicate Bounded(f: Float) {
    f.NegZero? || f.Finite?
  }

  /** Infinities at the ends, NaN nowhere. */
  lemma LessIs(a: Float, b: Float)
    ensures Less(a, b) <==>
      || (Bounded(a) && Bounded(b) && Real(a) < Real(b))
      || (a == NegInf && (Bounded(b) || b == PosInf))
      || (b == PosInf && Bounded(a))
  {
  }

  function Ceil(v: real): int {
    -((-v).Floor)
  }
}
