/** The few facts of nonlinear arithmetic the proofs need, each proved once. */
module Arith {
  lemma DivMod(x: nat, d: int)
    requires d > 0
    ensures x == d * (x / d) + x % d && 0 <= x % d < d && x / d >= 0
  {
  }

  lemma MulLe(a: int, b: int, c: int)
    requires a <= b && c >= 0
    ensures a * c <= b * c
  {
  }

  lemma DivUnique(x: int, d: int, q: int, r: int)
    requires d > 0 && x == d * q + r && 0 <= r < d
    ensures x / d == q && x % d == r
  {
    var q' := x / d;
    assert x == d * q' + x % d;
    if q > q' { MulLe(q' + 1, q, d); } else if q < q' { MulLe(q + 1, q', d); }
  }

  lemma MulAssoc(a: int, b: int, c: int)
    ensures a * (b * c) == (a * b) * c
  {
  }

  lemma MulCommute(a: int, b: int)
    ensures a * b == b * a
  {
  }

  lemma MulDouble(y: nat, p: nat)
    ensures y * (2 * p) == 2 * (y * p) && y * p >= 0
  {
  }

  lemma MulDist(a: int, b: int, c: int)
    ensures a * (b + c) == a * b + a * c
    ensures (b + c) * a == b * a + c * a
  {
  }

  lemma MulSub(a: int, b: int, c: int)
    ensures a * (b - c) == a * b - a * c
  {
  }

  lemma DivMonotone(x: nat, y: nat, d: int)
    requires x <= y && d > 0
    ensures x / d <= y / d
  {
    if x / d > y / d { MulLe(y / d + 1, x / d, d); }
  }

  lemma DivLess(x: nat, d: int, q: int)
    requires d > 0 && x < d * q
    ensures x / d < q
  {
    if x / d >= q { MulLe(q, x / d, d); }
  }

  lemma DivLessIff(x: nat, d: int, q: int)
    requires d > 0
    ensures x / d < q <==> x < d * q
  {
    if x < d * q { DivLess(x, d, q); } else if x / d < q { MulLe(x / d + 1, q, d); }
  }

  lemma DivDiv(x: nat, a: int, b: int)
    requires a > 0 && b > 0
    ensures a * b > 0 && x / a >= 0 && (x / a) / b == x / (a * b)
  {
    MulLe(1, a, b);
    DivMod(x, a);
    DivMod(x / a, b);
    var q, r, s := (x / a) / b, (x / a) % b, x % a;
    MulDist(a, b * q, r);
    MulAssoc(a, b, q);
    MulLe(r, b - 1, a);
    DivUnique(x, a * b, q, a * r + s);
  }
}
