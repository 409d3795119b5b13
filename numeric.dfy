/**
 * The handful of Python numeric operators the colour code relies on,
 * written out over exact reals: `abs`, `int()` on a float (truncation
 * toward zero), and float `//` and `%` with a positive divisor (both
 * defined through the floor of the quotient, as Python does).
 */
module Numeric {

  function Abs(x: real): (r: real)
    ensures 0.0 <= r && (r == x || r == -x)
  {
    if x < 0.0 then -x else x
  }

  /** Python's `int(x)` for a float `x`: drops the fraction, rounding toward zero. */
  function Trunc(x: real): (n: int)
    ensures 0.0 <= x ==> n as real <= x < n as real + 1.0
    ensures x <= 0.0 ==> n as real - 1.0 < x <= n as real
  {
    if x >= 0.0 then x.Floor else -((-x).Floor)
  }

  /** Python's `a // b` for floats with `b > 0`: the largest integer not above `a / b`. */
  function FloorDiv(a: real, b: real): (q: int)
    requires b > 0.0
    ensures q as real * b <= a < (q as real + 1.0) * b
  {
    QuotientFloorBounds(a, b);
    (a / b).Floor
  }

  lemma QuotientFloorBounds(a: real, b: real)
    requires b > 0.0
    ensures (a / b).Floor as real * b <= a
    ensures a < ((a / b).Floor as real + 1.0) * b
  {
    var y := a / b;
    var q := y.Floor;
    assert y * b == a;
    assert q as real <= y < q as real + 1.0;
    MulMonotone(q as real, y, b);
    assert q as real * b <= y * b;
    var next := q as real + 1.0;
    MulStrict(y, next, b);
    assert a < next * b;
  }

  /** Python's `a % b` for floats with `b > 0`: the remainder has the sign of the divisor. */
  function FloorMod(a: real, b: real): (r: real)
    requires b > 0.0
    ensures 0.0 <= r < b
  {
    a - b * FloorDiv(a, b) as real
  }

  lemma MulMonotone(x: real, y: real, b: real)
    requires x <= y && b >= 0.0
    ensures x * b <= y * b
  {
  }

  lemma MulStrict(x: real, y: real, b: real)
    requires x < y && b > 0.0
    ensures x * b < y * b
  {
  }

  /** Adding a whole number of divisors shifts the floor quotient by exactly that number. */
  lemma FloorDivShift(a: real, b: real, k: int)
    requires b > 0.0
    ensures FloorDiv(a + k as real * b, b) == FloorDiv(a, b) + k
  {
    assert (a + k as real * b) / b == a / b + k as real;
    assert (a / b + k as real).Floor == (a / b).Floor + k;
  }

  /** ... and so leaves the remainder unchanged. */
  lemma FloorModShift(a: real, b: real, k: int)
    requires b > 0.0
    ensures FloorMod(a + k as real * b, b) == FloorMod(a, b)
  {
    FloorDivShift(a, b, k);
  }

  /** The floor quotient is the one integer `q` with `q * b <= a < (q + 1) * b`. */
  lemma FloorDivUnique(a: real, b: real, q: int)
    requires b > 0.0
    requires q as real * b <= a < (q as real + 1.0) * b
    ensures FloorDiv(a, b) == q
  {
    DivMonotone(q as real * b, a, b);
    assert q as real * b / b == q as real;
    var next := q as real + 1.0;
    DivStrict(a, next * b, b);
    assert next * b / b == next;
  }

  lemma DivMonotone(x: real, y: real, b: real)
    requires x <= y && b > 0.0
    ensures x / b <= y / b
  {
  }

  lemma DivStrict(x: real, y: real, b: real)
    requires x < y && b > 0.0
    ensures x / b < y / b
  {
  }

  /** So the remainder of such an `a` is `a - q * b`. */
  lemma FloorModUnique(a: real, b: real, q: int)
    requires b > 0.0
    requires q as real * b <= a < (q as real + 1.0) * b
    ensures FloorMod(a, b) == a - b * q as real
  {
    FloorDivUnique(a, b, q);
  }
}
