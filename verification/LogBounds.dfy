/** How far the logarithms of ec_tell_frac (entcode.c) and log2_frac (cwrs.c) can be off on the safe
    side: at most two units of their resolution. */
module LogBounds {
  import opened Arith
  import opened Bits
  import opened Tell
  import opened Log2Frac

  // ---- powers ------------------------------------------------------------------------

  lemma {:induction false} PowerPositive(x: nat, n: nat)
    requires x > 0
    ensures Power(x, n) > 0
  {
    if n > 0 {
      PowerPositive(x, n - 1);
      MulLe(1, x, Power(x, n - 1));
    }
  }

  lemma {:induction false} PowerStrict(x: nat, y: nat, n: nat)
    requires x < y && n > 0
    ensures Power(x, n) < Power(y, n)
  {
    var p, q := Power(x, n - 1), Power(y, n - 1);
    if n == 1 {
      assert p == 1 == q;
    } else {
      PowerStrict(x, y, n - 1);
      MulLe(p, q, x);
      MulCommute(p, x);
      MulCommute(q, x);
      MulLe(x + 1, y, q);
      MulDist(q, x, 1);
    }
  }

  // ---- ec_tell_frac --------------------------------------------------------------------

  /** a, b, c and d are the squares, rounded up, in turn. */
  lemma UpSquarings(v: nat, a: nat, b: nat, c: nat, d: nat)
    requires a == SquareUp(Shrunk(v)) && b == SquareUp(Shrunk(a))
    requires c == SquareUp(Shrunk(b)) && d == SquareUp(Shrunk(c))
    ensures UpLog(v, 3) == 8 * Carry(v) + 4 * Carry(a) + 2 * Carry(b) + Carry(c) + if d > 0x8000 then 1 else 0
  {
    hide SquareUp, Shrunk, Carry;
    assert Pow2(3) == 8 && Pow2(2) == 4 && Pow2(1) == 2 && Pow2(0) == 1;
    assert UpLog(c, 0) == Carry(c) * Pow2(0) + if d > 0x8000 then 1 else 0;
    assert UpLog(b, 1) == Carry(b) * Pow2(1) + UpLog(c, 0);
    assert UpLog(a, 2) == Carry(a) * Pow2(2) + UpLog(b, 1);
  }

  /** Just above each threshold of the table. */
  lemma AboveThreshold(t: nat)
    requires t < 8
    ensures InLoop(Correction(t) + 1) && UpLog(Correction(t) + 1, 3) <= t + 2
  {
    hide UpLog;
    match t
    case 0 => UpSquarings(35734, 38969, 46344, 65545, 32779);
    case 1 => UpSquarings(38968, 46342, 65539, 32773, 32779);
    case 2 => UpSquarings(42496, 55112, 92693, 65554, 32787);
    case 3 => UpSquarings(46341, 65537, 32771, 32775, 32783);
    case 4 => UpSquarings(50536, 77939, 46346, 65551, 32785);
    case 5 => UpSquarings(55110, 92686, 65542, 32775, 32783);
    case 6 => UpSquarings(60098, 110223, 92693, 65554, 32787);
    case 7 => UpSquarings(65536, 32768, 32768, 32768, 32768);
  }

  /** A range holds less than a quarter bit more than ec_tell_frac takes it to hold. */
  lemma BarelyOverReports(rng: nat)
    requires rng >= 0x8000
    ensures Log8(rng) >= 8 && Power(rng, 8) < Pow2(Log8(rng) - 6)
  {
    hide Leading, TableLog, Ilog, Shr, InLoop, UpLog, Correction, Power, Pow2;
    var l, r := Ilog(rng), Top(rng);
    var t, k := TableLog(r), l - 16;
    TableBounds(r);
    AboveThreshold(t);
    var c := Correction(t) + 1;
    BelowThreshold(r);
    UpLogOver(c, 3);
    Pow2Of3();
    PowerMonotone(r + 1, c, 8);
    Pow2Monotone(120 + UpLog(c, 3), 122 + t);
    ShrAbove(rng, k);
    PowerStrict(rng, (r + 1) * Pow2(k), 8);
    PowerMul(r + 1, Pow2(k), 8);
    PowerOfPow2(k, 8);
    Scaled(Power(r + 1, 8), 122 + t, k * 8);
  }

  lemma BelowThreshold(r: nat)
    requires Leading(r)
    ensures TableLog(r) < 8 && r <= Correction(TableLog(r))
  {
    TableBounds(r);
    assert Correction(7) == 65535;
  }

  lemma ShrAbove(x: nat, k: nat)
    ensures x < (Shr(x, k) + 1) * Pow2(k)
  {
    DivMod(x, Pow2(k));
    MulCommute(Shr(x, k) + 1, Pow2(k));
    MulDist(Pow2(k), Shr(x, k), 1);
  }

  // ---- log2_frac ------------------------------------------------------------------------

  /** Rounding up loses at most one part in Q each time. */
  const Q: nat := 0x4000
  const A: nat := 0x3FFF

  /** One turn of the loop: what is left is at most one part in Q too large. */
  lemma TurnLoss(v: nat)
    requires InLoop(v)
    ensures var b, next := Carry(v), SquareUp(Shrunk(v));
      b <= 1 && 0 <= next * Pow2(15 + 2 * b) * A <= v * v * Q
  {
    LoopRange(v);
    Pow2Of15();
    assert Pow2(17) == 4 * Pow2(15);
    hide Pow2, InLoop;
    var s := Shrunk(v);
    var x := s * s;
    MulLe(0x8000, s, 0x8000);
    MulLe(0x8000, s, s);
    if Carry(v) == 1 {
      Squared(s);
      Squares(2 * s - 1, v);
      MulLe((2 * s - 1) * (2 * s - 1), v * v, Q);
    }
  }

  lemma Squared(s: nat)
    requires s > 0
    ensures (2 * s - 1) * (2 * s - 1) == 4 * (s * s) - 4 * s + 1
  {
    MulSub(2 * s - 1, 2 * s, 1);
    MulSub(2 * s, 2 * s, 1);
  }

  lemma Squares(a: nat, b: nat)
    requires a <= b
    ensures 0 <= a * a <= b * b
  {
    MulLe(a, b, a);
    MulLe(a, b, b);
    MulCommute(a, b);
    MulLe(0, a, a);
  }

  lemma Multiply(p: nat, a: nat, x: nat, q: nat, e: nat, a': nat, v: nat, q': nat)
    requires p * a <= 2 * (x * q) && x * e * a' <= v * q'
    ensures p * e * (a * a') <= 2 * (v * (q' * q))
  {
    MulLe(0, e, a');
    MulLe(p * a, 2 * (x * q), e * a');
    Rearrange(p, e, a, a');
    Rearrange(p, a, e, a');
    MulCommute(q, x);
    Rearrange(q, x, 1, e * a');
    MulAssoc(x, e, a');
    MulAssoc(q, x, e * a');
    MulLe(x * e * a', v * q', q);
    MulAssoc(v, q', q);
    MulCommute(q, x * e * a');
  }

  lemma OneTurnClose(v: nat, b: nat, next: nat, k: nat, u: nat)
    requires b <= 1 && 0 <= next * Pow2(15 + 2 * b) * A <= v * v * Q
    requires Pow2(15 * Pow2(k) + u) * Power(A, Pow2(k) - 1) <= 2 * (Power(next, Pow2(k)) * Power(Q, Pow2(k) - 1))
    ensures Pow2(15 * Pow2(k + 1) + (b * Pow2(k + 1) + u)) * Power(A, Pow2(k + 1) - 1)
         <= 2 * (Power(v, Pow2(k + 1)) * Power(Q, Pow2(k + 1) - 1))
  {
    hide Pow2, Power;
    var m := Pow2(k);
    Pow2Next(k);
    PowerSquare(v, k);
    MulLe(0, v, v);
    MulLe(0, next, Pow2(15 + 2 * b));
    PowerMonotone(next * Pow2(15 + 2 * b) * A, v * v * Q, m);
    PowerMul(next * Pow2(15 + 2 * b), A, m);
    PowerMul(next, Pow2(15 + 2 * b), m);
    PowerMul(v * v, Q, m);
    PowerOfPow2(15 + 2 * b, m);
    PowerAdd(A, m - 1, m);
    PowerAdd(Q, m, m - 1);
    Multiply(Pow2(15 * m + u), Power(A, m - 1), Power(next, m), Power(Q, m - 1), Pow2((15 + 2 * b) * m), Power(A, m),
             Power(v * v, m), Power(Q, m));
    Pow2Add(15 * m + u, (15 + 2 * b) * m);
    MulDist(m, 15, 2 * b);
    assert 15 * m + u + (15 + 2 * b) * m == 15 * (2 * m) + (b * (2 * m) + u);
  }

  lemma {:induction false} TurnsClose(v: nat, frac: nat)
    requires InLoop(v)
    ensures Pow2(15 * Pow2(frac) + UpLog(v, frac)) * Power(A, Pow2(frac) - 1)
         <= 2 * (Power(v, Pow2(frac)) * Power(Q, Pow2(frac) - 1))
    decreases frac
  {
    hide InLoop, Carry, Shrunk, SquareUp, Pow2, Power;
    var b, next := Carry(v), SquareUp(Shrunk(v));
    LoopRange(v);
    if frac == 0 {
      LastTurnClose(v);
    } else {
      TurnLoss(v);
      TurnsClose(next, frac - 1);
      OneTurnClose(v, b, next, frac - 1, UpLog(next, frac - 1));
    }
  }

  lemma LastTurnClose(v: nat)
    requires InLoop(v)
    ensures Pow2(15 * Pow2(0) + UpLog(v, 0)) * Power(A, Pow2(0) - 1) <= 2 * (Power(v, Pow2(0)) * Power(Q, Pow2(0) - 1))
  {
    LoopRange(v);
    assert Pow2(0) == 1 && Power(A, 0) == 1 == Power(Q, 0) && Power(v, 1) == v * Power(v, 0) == v;
    var x := if SquareUp(Shrunk(v)) > 0x8000 then 1 else 0;
    assert UpLog(v, 0) == Carry(v) + x;
    Pow2Of15();
    assert Pow2(17) == 2 * Pow2(16);
  }

  /** (A / Q)^n is at least 1 - n / Q. */
  lemma {:induction false} Bernoulli(n: nat)
    requires n <= Q
    ensures Power(Q, n) * (Q - n) <= Power(A, n) * Q
  {
    if n > 0 {
      Bernoulli(n - 1);
      var q, a := Power(Q, n - 1), Power(A, n - 1);
      MulLe(q * (Q - (n - 1)), a * Q, A);
      MulAssoc(A, q, Q - (n - 1));
      assert Q * (Q - n) <= A * (Q - (n - 1));
      MulLe(Q * (Q - n), A * (Q - (n - 1)), q);
    }
  }

  /** Up to Q / 2 roundings lose less than half. */
  lemma LessThanHalf(n: nat)
    requires n <= 0x2000
    ensures Power(Q, n) <= 2 * Power(A, n)
  {
    Bernoulli(n);
    MulLe(0x2000, Q - n, Power(Q, n));
    MulCommute(Power(Q, n), Q - n);
  }

  lemma CancelLoss(p: nat, v: nat, n: nat)
    requires n <= 0x2000 && p * Power(A, n) <= 2 * (v * Power(Q, n))
    ensures p <= 4 * v
  {
    LessThanHalf(n);
    PowerPositive(A, n);
    var a := Power(A, n);
    MulLe(Power(Q, n), 2 * a, v);
    MulCommute(v, Power(Q, n));
    if p > 4 * v { MulLe(4 * v + 1, p, a); }
  }

  /** The leading bits, rounded up, are at most one part in Q too large. */
  lemma AlignedLoss(val: nat)
    requires val > 0 && Ilog(val) > 16
    ensures 0 <= Aligned16(val) * Pow2(Ilog(val) - 16) * A <= val * Q
  {
    hide Ilog, Pow2;
    AlignedRange(val);
    var w, v := Pow2(Ilog(val) - 16), Aligned16(val);
    DivMod(val - 1, w);
    MulCommute(w, (val - 1) / w);
    assert v == (val - 1) / w + 1;
    MulDist(w, (val - 1) / w, 1);
    MulCommute(v, w);
    LossFits(val, v, w);
  }

  lemma LossFits(val: nat, v: nat, w: nat)
    requires v >= Q && v * w - w < val
    ensures 0 <= v * w * A <= val * Q
  {
    MulLe(Q, v, w);
    MulLe(0, v, w);
    MulCommute(Q, w);
  }

  lemma DownClose(val: nat, v: nat, k: nat, f: nat, u: nat)
    requires 1 <= f <= 0x1000 && 0 <= v * Pow2(k) * A <= val * Q
    requires Pow2(15 * f + u) * Power(A, f - 1) <= 2 * (Power(v, f) * Power(Q, f - 1))
    ensures (15 + k) * f >= 0 && Pow2((15 + k) * f + u) <= 4 * Power(val, f)
  {
    hide Pow2, Power;
    MulLe(0, v, Pow2(k));
    PowerMonotone(v * Pow2(k) * A, val * Q, f);
    PowerMul(v * Pow2(k), A, f);
    PowerMul(v, Pow2(k), f);
    PowerMul(val, Q, f);
    PowerOfPow2(k, f);
    PowerAdd(A, f - 1, f);
    PowerAdd(Q, f, f - 1);
    Multiply(Pow2(15 * f + u), Power(A, f - 1), Power(v, f), Power(Q, f - 1), Pow2(k * f), Power(A, f),
             Power(val, f), Power(Q, f));
    Pow2Add(15 * f + u, k * f);
    MulDist(f, 15, k);
    CancelLoss(Pow2(15 * f + u + k * f), Power(val, f), 2 * f - 1);
  }

  lemma UpClose(val: nat, v: nat, d: nat, f: nat, u: nat)
    requires 1 <= f <= 0x1000 && d <= 15 && v == Shl(val, d)
    requires Pow2(15 * f + u) * Power(A, f - 1) <= 2 * (Power(v, f) * Power(Q, f - 1))
    ensures (15 - d) * f >= 0 && Pow2((15 - d) * f + u) <= 4 * Power(val, f)
  {
    hide Pow2, Power;
    MulLe(0, 15 - d, f);
    CancelLoss(Pow2(15 * f + u), Power(v, f), f - 1);
    PowerMul(val, Pow2(d), f);
    PowerOfPow2(d, f);
    MulDist(f, 15 - d, d);
    Pow2Add((15 - d) * f + u, d * f);
    CancelFactor(Pow2((15 - d) * f + u), 4 * Power(val, f), Pow2(d * f));
  }

  lemma CancelFactor(x: nat, y: nat, p: nat)
    requires p > 0 && x * p <= y * p
    ensures x <= y
  {
    if x > y { MulLe(y + 1, x, p); }
  }

  lemma FracBound(frac: nat)
    requires frac <= 12
    ensures Pow2(frac) <= 0x1000
  {
    Pow2Monotone(frac, 12);
    assert Pow2(12) == 0x1000;
  }

  /** log2_frac comes out at most two units too high, for up to 12 fractional bits. */
  lemma BarelyTooHigh(val: nat, frac: nat)
    requires val > 0 && frac <= 12
    ensures Log2(val, frac) >= 0 && Pow2(Log2(val, frac)) <= 4 * Power(val, Pow2(frac))
  {
    hide Ilog, Aligned16, BitAnd, InLoop, UpLog, Pow2, Power;
    NeverTooLow(val, frac);
    PowerOfTwoTest(val);
    FracBound(frac);
    if BitAnd(val, val - 1) != 0 {
      var l, v := Ilog(val), Aligned16(val);
      AlignedRange(val);
      TurnsClose(v, frac);
      if l > 16 {
        AlignedLoss(val);
        DownClose(val, v, l - 16, Pow2(frac), UpLog(v, frac));
      } else {
        AlignedSmall(val);
        UpClose(val, v, 16 - l, Pow2(frac), UpLog(v, frac));
      }
    }
  }
}
