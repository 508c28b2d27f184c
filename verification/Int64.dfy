/** Go's 64-bit signed integers, written out on unbounded `int`. */
module Int64 {
  import Arith

  const MIN := -0x8000_0000_0000_0000
  const MAX := 0x7fff_ffff_ffff_ffff
  const MODULUS := 0x1_0000_0000_0000_0000

  type int64 = x: int | MIN <= x <= MAX

  /** Two's-complement wrap-around. */
  function Wrap(x: int): (r: int64)
    ensures MIN <= x <= MAX ==> r == x
    ensures MAX < x <= MAX + MODULUS ==> r == x - MODULUS
    ensures MIN - MODULUS <= x < MIN ==> r == x + MODULUS
  {
    (x - MIN) % MODULUS + MIN
  }

  /** Go's `/`: the quotient is truncated toward zero; MIN / -1 wraps back to MIN. */
  function Quotient(a: int64, b: int64): int64
    requires b != 0
  {
    var q := Abs(a) / Abs(b);
    Wrap(if (a < 0) == (b < 0) then q else -q)
  }

  /** Go's unary `-`: the least integer is its own negation. */
  function Negate(x: int): int64 {
    Wrap(-x)
  }

  lemma QuotientSign(a: int64, b: int64)
    requires b > 0
    ensures a < 0 ==> Quotient(a, b) <= 0
    ensures a >= 0 ==> Quotient(a, b) == a / b
  {
    Arith.QuotientRange(Abs(a), b);
  }

  function Abs(x: int): nat {
    if x < 0 then -x else x
  }
}
