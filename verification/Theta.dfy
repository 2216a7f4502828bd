/** The split angle of compute_theta (bands.c): how many values it may take, the three probability
    models it is coded with, and their inversion, by integer square root for the triangular one. */
module Theta {
  import opened Arith
  import opened Integers
  import opened Bits
  import opened IntervalCoder
  import opened Symbols
  import opened SmallDiv
  import E = Encoder
  import D = Decoder
  import R = RoundTrip
  import C = EntropyContext
  import T = Tell

  // ---- integer square root (mathops.c) ---------------------------------------------------

  ghost predicate IsRoot(v: nat, g: nat) {
    g * g <= v < (g + 1) * (g + 1)
  }

  lemma RootUnique(v: nat, g: nat, h: nat)
    requires IsRoot(v, g) && IsRoot(v, h)
    ensures g == h
  {
    if g < h { Squares(g + 1, h); } else if h < g { Squares(h + 1, g); }
  }

  lemma Squares(a: nat, b: nat)
    requires a <= b
    ensures 0 <= a * a <= b * b
  {
    MulLe(a, b, a);
    MulLe(a, b, b);
    MulCommute(a, b);
    MulLe(0, a, a);
  }

  function Isqrt(v: nat): (g: nat)
    ensures IsRoot(v, g)
  {
    if v == 0 then 0
    else
      var g := Isqrt(v - 1);
      MulDist(g + 1, g, 1);
      MulDist(g + 2, g + 1, 1);
      if (g + 1) * (g + 1) <= v then g + 1 else g
  }

  /** Trying digit b on top of g. */
  lemma TryDigit(v: nat, rest: nat, g: nat, b: nat)
    requires v == g * g + rest
    ensures (2 * g + b) * b >= 0
    ensures (2 * g + b) * b <= rest <==> (g + b) * (g + b) <= v
    ensures (2 * g + b) * b <= rest ==> v == (g + b) * (g + b) + (rest - (2 * g + b) * b)
  {
    MulDist(g + b, g, b);
    MulDist(g, g, b);
    MulDist(b, g, b);
    MulDist(b, 2 * g, b);
    MulCommute(g, b);
    MulLe(0, 2 * g + b, b);
  }

  lemma FirstDigit(v: nat)
    requires v > 0
    ensures var s := (Ilog(v) - 1) / 2; s >= 0 && v < 2 * Pow2(s) * (2 * Pow2(s))
    ensures v < 0x1_0000_0000 ==> (Ilog(v) - 1) / 2 <= 15
  {
    hide Ilog;
    IlogBounds(v);
    var l := Ilog(v);
    var s := (l - 1) / 2;
    Pow2Monotone(l, 2 * s + 2);
    Pow2Add(s + 1, s + 1);
    if v < 0x1_0000_0000 && l > 32 { Pow2Monotone(32, l - 1); Pow2Values(); }
  }

  /** isqrt32: one binary digit of the root at a time. */
  method Isqrt32(v: nat) returns (g: nat)
    requires 0 < v < 0x1_0000_0000
    ensures g == Isqrt(v)
  {
    hide Ilog, Isqrt, Pow2;
    var val: nat := v;
    g := 0;
    FirstDigit(v);
    var bshift: int := (Ilog(v) - 1) / 2;
    var b: nat := Pow2(bshift);
    while bshift >= 0
      invariant -1 <= bshift <= 15 && v == g * g + val
      invariant bshift >= 0 ==> b == Pow2(bshift)
      invariant UpTo(v, g, if bshift >= 0 then 2 * b else 1)
      decreases bshift
    {
      TryDigit(v, val, g, b);
      assert (g + b) * (g + b) > v ==> UpTo(v, g, b);
      assert UpTo(v, g + b, b);
      HalfDigit(bshift);
      var t := (2 * g + b) * b;
      if t <= val {
        g := g + b;
        val := val - t;
      }
      b := b / 2;
      bshift := bshift - 1;
    }
    RootUnique(v, g, Isqrt(v));
  }

  /** The root of v is below g + c. */
  ghost predicate UpTo(v: nat, g: nat, c: nat) {
    v < (g + c) * (g + c)
  }

  lemma HalfDigit(bshift: nat)
    ensures Pow2(bshift) == if bshift > 0 then 2 * Pow2(bshift - 1) else 1
  {
  }

  // ---- the number of angles (compute_qn) ----------------------------------------------------

  const EXP2_TABLE8: seq<nat> := [16384, 17866, 19483, 21247, 23170, 25267, 27554, 30048]

  /** exp2_table8[qb & 7] >> (14 - (qb >> 3)), made even. */
  function QnOf(qb: nat): nat
    requires qb <= 64
  {
    EvenUp(Shr(EXP2_TABLE8[qb % 8], 14 - qb / 8))
  }

  function EvenUp(x: nat): nat {
    (x + 1) / 2 * 2
  }

  predicate QnArguments(N: nat, b: int, offset: int, stereo: bool) {
    && N >= 1 && (stereo ==> N >= 2)
    && HalfBands(N, stereo) < 0x8000_0000 && -0x8000_0000 < b + HalfBands(N, stereo) * offset < 0x8000_0000
  }

  function HalfBands(N: nat, stereo: bool): nat
    requires N >= 1
  {
    if stereo && N == 2 then 2 * N - 2 else 2 * N - 1
  }

  /** The eighths of a bit a split may spend on its angle. */
  function Qb(N: nat, b: int, offset: int, pulseCap: int, stereo: bool): int
    requires QnArguments(N, b, offset, stereo)
  {
    var n2 := HalfBands(N, stereo);
    Min(64, Min(b - pulseCap - 32, Sudiv(b + n2 * offset, n2)))
  }

  function ComputeQn(N: nat, b: int, offset: int, pulseCap: int, stereo: bool): nat
    requires QnArguments(N, b, offset, stereo)
  {
    var qb := Qb(N, b, offset, pulseCap, stereo);
    if qb < 4 then 1 else QnOf(qb)
  }

  /** At most 8 bits, what the pulse cap and 4 bits leave of b, and the split's share of b and offset:
      N2 is 2 * N - 1, but 2 in a stereo split of 2 samples. */
  lemma QbLargest(N: nat, b: int, offset: int, pulseCap: int, stereo: bool, q: nat)
    requires QnArguments(N, b, offset, stereo) && q > 0
    ensures var n2 := if stereo && N == 2 then 2 else 2 * N - 1;
      q <= Qb(N, b, offset, pulseCap, stereo) <==> q <= 64 && q + 32 + pulseCap <= b && q * n2 <= b + n2 * offset
  {
    hide Sudiv;
    var n2 := HalfBands(N, stereo);
    ShareAtLeast(b + n2 * offset, n2, q);
  }

  lemma ShareAtLeast(x: int, d: nat, q: nat)
    requires -0x8000_0000 < x < 0x8000_0000 && 0 < d < 0x8000_0000 && q > 0
    ensures q <= Sudiv(x, d) <==> q * d <= x
  {
    hide Sudiv;
    SudivTruncates(x, d);
    var s := Sudiv(x, d);
    if q <= s { MulLe(q, s, d); MulLe(1, q, d); } else { MulLe(s + 1, q, d); MulDist(d, s, 1); MulLe(1, q, d); }
  }

  /** A table entry shifted down to at least one and at most eight bits. */
  lemma QnShifted(t: nat, s: nat)
    requires 6 <= s <= 14 && 16384 <= t <= 30048 && (s == 6 ==> t == 16384)
    ensures 1 <= Shr(t, s) <= 256
  {
    var w := Pow2(s);
    Pow2Monotone(6, s);
    Pow2Monotone(s, 14);
    assert Pow2(6) == 64 && Pow2(7) == 128 && Pow2(14) == 16384;
    hide Pow2;
    DivMonotone(w, t, w);
    DivUnique(w, w, 1, 0);
    DivLessIff(t, w, 257);
    if s > 6 { Pow2Monotone(7, s); }
  }

  /** 2^(qb / 8), rounded down and made even. */
  lemma QnRange(qb: nat)
    requires 4 <= qb <= 64
    ensures 2 <= QnOf(qb) <= 256 && QnOf(qb) % 2 == 0
  {
    hide Shr, EvenUp;
    var t, s := EXP2_TABLE8[qb % 8], 14 - qb / 8;
    QnShifted(t, s);
    EvenUpRange(Shr(t, s));
  }

  lemma EvenUpRange(x: nat)
    requires 1 <= x <= 256
    ensures 2 <= EvenUp(x) <= 256 && EvenUp(x) % 2 == 0
  {
  }

  /** One angle, or an even number of steps up to 256. */
  lemma QnIsEven(N: nat, b: int, offset: int, pulseCap: int, stereo: bool)
    requires QnArguments(N, b, offset, stereo)
    ensures ComputeQn(N, b, offset, pulseCap, stereo) == 1 || ValidQn(ComputeQn(N, b, offset, pulseCap, stereo))
  {
    hide Qb, QnOf;
    QbAtMost(N, b, offset, pulseCap, stereo);
    var qb := Qb(N, b, offset, pulseCap, stereo);
    if qb >= 4 { QnRange(qb); }
  }

  lemma QbAtMost(N: nat, b: int, offset: int, pulseCap: int, stereo: bool)
    requires QnArguments(N, b, offset, stereo)
    ensures Qb(N, b, offset, pulseCap, stereo) <= 64
  {
  }

  lemma PowerEight(x: nat)
    ensures T.Power(x, 8) == x * x * (x * x) * (x * x * (x * x))
  {
    T.PowerSquare(x, 2);
    T.PowerSquare(x * x, 1);
    T.PowerSquare(x * x * (x * x), 0);
    assert Pow2(3) == 8 && Pow2(2) == 4 && Pow2(1) == 2 && Pow2(0) == 1;
    var y := x * x * (x * x);
    assert T.Power(y * y, 1) == y * y * T.Power(y * y, 0);
  }

  lemma Pow2Of112()
    ensures Pow2(112) == 0x1_0000_0000_0000_0000_0000_0000_0000
  {
    Pow2Values();
    Pow2Add(32, 32);
    Pow2Add(64, 32);
    Pow2Add(96, 16);
    assert Pow2(16) == 0x1_0000 && Pow2(32) == 0x1_0000_0000;
  }

  /** Entry r of the table is 2^(14 + r / 8), rounded down. */
  lemma TableIsRoot(r: nat)
    requires r < 8
    ensures T.Power(EXP2_TABLE8[r], 8) <= Pow2(112 + r) < T.Power(EXP2_TABLE8[r] + 1, 8)
  {
    hide T.Power;
    var t := EXP2_TABLE8[r];
    Pow2Of112();
    Pow2Add(112, r);
    MulCommute(Pow2(112), Pow2(r));
    hide Pow2;
    PowerEight(t);
    PowerEight(t + 1);
    EighthPowers(r);
  }

  lemma EighthPowers(r: nat)
    requires r < 8
    ensures var t, u, p := EXP2_TABLE8[r], EXP2_TABLE8[r] + 1, Pow2(r) * 0x1_0000_0000_0000_0000_0000_0000_0000;
      t * t * (t * t) * (t * t * (t * t)) <= p < u * u * (u * u) * (u * u * (u * u))
  {
    SmallPowers();
    hide Pow2;
  }

  lemma SmallPowers()
    ensures Pow2(0) == 1 && Pow2(1) == 2 && Pow2(2) == 4 && Pow2(3) == 8
    ensures Pow2(4) == 16 && Pow2(5) == 32 && Pow2(6) == 64 && Pow2(7) == 128
  {
  }

  /** Shifting keeps it rounded down: 2^(qb / 8). */
  lemma QnRoot(qb: nat)
    requires 4 <= qb <= 64
    ensures var q := Shr(EXP2_TABLE8[qb % 8], 14 - qb / 8); T.Power(q, 8) <= Pow2(qb) < T.Power(q + 1, 8)
  {
    hide Pow2, T.Power, Shr;
    TableIsRoot(qb % 8);
    assert 112 + qb % 8 == qb + 8 * (14 - qb / 8);
    RootShifted(EXP2_TABLE8[qb % 8], 14 - qb / 8, qb);
  }

  lemma RootShifted(t: nat, s: nat, k: nat)
    requires T.Power(t, 8) <= Pow2(k + 8 * s) < T.Power(t + 1, 8)
    ensures T.Power(Shr(t, s), 8) <= Pow2(k) < T.Power(Shr(t, s) + 1, 8)
  {
    hide Pow2, T.Power;
    var w, q := Pow2(s), Shr(t, s);
    ShrWithin(t, s);
    T.PowerMonotone(q * w, t, 8);
    T.PowerMonotone(t + 1, (q + 1) * w, 8);
    T.PowerMul(q, w, 8);
    T.PowerMul(q + 1, w, 8);
    T.PowerOfPow2(s, 8);
    Pow2Add(k, 8 * s);
    Cancel(T.Power(q, 8), Pow2(k), T.Power(q + 1, 8), Pow2(8 * s));
  }

  lemma ShrWithin(t: nat, s: nat)
    ensures 0 <= Shr(t, s) * Pow2(s) <= t < (Shr(t, s) + 1) * Pow2(s)
  {
    var w, q := Pow2(s), Shr(t, s);
    DivMod(t, w);
    MulCommute(w, q);
    MulDist(w, q, 1);
    MulLe(0, q, w);
  }

  lemma Cancel(x: nat, y: nat, z: nat, w: nat)
    requires w > 0 && x * w <= y * w < z * w
    ensures x <= y < z
  {
    if x > y { MulLe(y + 1, x, w); }
    if y >= z { MulLe(z, y, w); }
  }

  /** The number of steps is the even number within one of 2^(qb / 8). */
  lemma QnNearest(qb: nat)
    requires 4 <= qb <= 64
    ensures QnOf(qb) % 2 == 0 && QnOf(qb) >= 2
    ensures T.Power(QnOf(qb) - 1, 8) <= Pow2(qb) < T.Power(QnOf(qb) + 1, 8)
  {
    hide Pow2, T.Power, Shr;
    var q := Shr(EXP2_TABLE8[qb % 8], 14 - qb / 8);
    QnRange(qb);
    QnRoot(qb);
    T.PowerMonotone(QnOf(qb) - 1, q, 8);
    T.PowerMonotone(q + 1, QnOf(qb) + 1, 8);
  }

  lemma QnOfMonotone(p: nat, q: nat)
    requires 4 <= p <= q <= 64
    ensures QnOf(p) <= QnOf(q)
  {
    hide Pow2, T.Power, QnOf;
    QnNearest(p);
    QnNearest(q);
    Pow2Monotone(p, q);
    if QnOf(p) > QnOf(q) { T.PowerMonotone(QnOf(q) + 1, QnOf(p) - 1, 8); }
  }

  /** More bits never make for fewer angles, nor does a smaller pulse cap. */
  lemma QnMonotone(N: nat, b: int, b': int, offset: int, pulseCap: int, pulseCap': int, stereo: bool)
    requires QnArguments(N, b, offset, stereo) && QnArguments(N, b', offset, stereo)
    requires b <= b' && pulseCap' <= pulseCap
    ensures ComputeQn(N, b, offset, pulseCap, stereo) <= ComputeQn(N, b', offset, pulseCap', stereo)
  {
    hide Qb, QnOf;
    var q, q' := Qb(N, b, offset, pulseCap, stereo), Qb(N, b', offset, pulseCap', stereo);
    QbAtMost(N, b, offset, pulseCap, stereo);
    QbAtMost(N, b', offset, pulseCap', stereo);
    if q >= 4 {
      QbLargest(N, b, offset, pulseCap, stereo, q);
      QbLargest(N, b', offset, pulseCap', stereo, q);
      QnOfMonotone(q, q');
    } else if q' >= 4 {
      QnNearest(q');
    }
  }

  // ---- probability models ------------------------------------------------------------------

  predicate ValidQn(qn: nat) {
    2 <= qn <= 256 && qn % 2 == 0
  }

  datatype Model = StepPdf | UniformPdf | TriangularPdf

  /** Chosen as in compute_theta. */
  function ModelOf(stereo: bool, N: nat, B0: nat): Model {
    if stereo && N > 2 then StepPdf else if B0 > 1 || stereo then UniformPdf else TriangularPdf
  }

  /** n * (n + 1) / 2 */
  function Triangle(n: nat): nat {
    MulLe(0, n, n + 1);
    n * (n + 1) / 2
  }

  lemma TriangleStep(n: nat)
    ensures Triangle(n + 1) == Triangle(n) + n + 1 && 2 * Triangle(n) == n * (n + 1)
    ensures 8 * Triangle(n) + 1 == (2 * n + 1) * (2 * n + 1)
  {
    TriangleEven(n);
    MulDist(n + 1, n, 2);
    MulDist(2 * n + 1, 2 * n, 1);
    MulDist(2 * n, 2 * n, 1);
    assert 2 * n * (2 * n) == 4 * (n * n) && n * (n + 1) == n * n + n;
  }

  lemma {:induction false} TriangleEven(n: nat)
    ensures n * (n + 1) % 2 == 0
  {
    if n > 0 {
      TriangleEven(n - 1);
      MulDist(n, n - 1, 2);
    }
  }

  lemma {:induction false} TriangleMonotone(a: nat, b: nat)
    requires a <= b
    ensures Triangle(a) + (b - a) <= Triangle(b)
    decreases b
  {
    if a < b {
      TriangleMonotone(a, b - 1);
      TriangleStep(b - 1);
    }
  }

  const P0 := 3

  /** The total of the model, and the frequencies [First(x), First(x) + Count(x)) of angle x. */
  function Total(model: Model, qn: nat): nat {
    var h := qn / 2;
    match model
    case StepPdf => P0 * (h + 1) + h
    case UniformPdf => qn + 1
    case TriangularPdf => MulLe(0, h + 1, h + 1); (h + 1) * (h + 1)
  }

  function First(model: Model, qn: nat, x: nat): int
    requires x <= qn
  {
    var h := qn / 2;
    match model
    case StepPdf => if x <= h then P0 * x else x - 1 - h + (h + 1) * P0
    case UniformPdf => x
    case TriangularPdf => if x <= h then Triangle(x) else Total(model, qn) - Triangle(qn + 1 - x)
  }

  function Past(model: Model, qn: nat, x: nat): int
    requires x <= qn
  {
    var h := qn / 2;
    match model
    case StepPdf => if x <= h then P0 * (x + 1) else x - h + (h + 1) * P0
    case UniformPdf => x + 1
    case TriangularPdf => First(model, qn, x) + if x <= h then x + 1 else qn + 1 - x
  }

  /** In a stereo split of more than two samples the angles up to the middle are three times as likely as
      the others; in short blocks and other stereo splits all are alike; else they are the likelier the
      nearer they are to the middle. */
  lemma AngleShares(stereo: bool, N: nat, B0: nat, qn: nat, x: nat)
    requires ValidQn(qn) && x <= qn
    ensures var model := ModelOf(stereo, N, B0);
      Past(model, qn, x) - First(model, qn, x)
        == if stereo && N > 2 then (if x <= qn / 2 then 3 else 1)
           else if stereo || B0 > 1 then 1
           else 1 + Min(x, qn - x)
  {
  }

  /** Two triangles make a square. */
  lemma TotalSquare(h: nat)
    ensures (h + 1) * (h + 1) == Triangle(h) + Triangle(h + 1)
  {
    TriangleStep(h);
    MulDist(h + 1, h, 1);
    MulCommute(h, h + 1);
  }

  /** Reckoned from the top, the second half mirrors the first. */
  lemma MirrorHalf(qn: nat, x: nat)
    requires ValidQn(qn) && qn / 2 <= x <= qn
    ensures First(TriangularPdf, qn, x) == Total(TriangularPdf, qn) - Triangle(qn + 1 - x)
    ensures Past(TriangularPdf, qn, x) == Total(TriangularPdf, qn) - Triangle(qn - x)
  {
    TotalSquare(qn / 2);
    TriangleStep(qn - x);
    TriangleStep(qn / 2);
  }

  /** The angles partition [0, Total): each follows the one before without a gap. */
  lemma Partition(model: Model, qn: nat, x: nat)
    requires ValidQn(qn) && x <= qn
    ensures 0 <= First(model, qn, x) < Past(model, qn, x) <= Total(model, qn) < EC_CODE_BOT
    ensures x == 0 ==> First(model, qn, x) == 0
    ensures x < qn ==> Past(model, qn, x) == First(model, qn, x + 1)
    ensures x == qn ==> Past(model, qn, x) == Total(model, qn)
  {
    if model == TriangularPdf {
      var h := qn / 2;
      MulLe(h + 1, 129, h + 1);
      TotalSquare(h);
      if x <= h {
        TriangleStep(x);
        TriangleMonotone(x, h);
        TriangleStep(h);
      }
      if x + 1 >= h && x < qn { MirrorHalf(qn, x + 1); }
      if x >= h {
        MirrorHalf(qn, x);
        TriangleStep(qn - x);
        TriangleMonotone(qn + 1 - x, h + 1);
        TriangleStep(h);
      }
    }
  }

  lemma {:induction false} AnglesApart(model: Model, qn: nat, x: nat, y: nat)
    requires ValidQn(qn) && x < y <= qn
    ensures Past(model, qn, x) <= First(model, qn, y)
    decreases y
  {
    hide First, Past;
    Partition(model, qn, y - 1);
    if x < y - 1 { AnglesApart(model, qn, x, y - 1); }
  }

  // ---- decoding ---------------------------------------------------------------------------------

  /** The decoder's angle for frequency fm; ec_dec_uint returns the angle itself. */
  function Angle(model: Model, qn: nat, fm: nat): int {
    var h := qn / 2;
    match model
    case StepPdf => if fm < (h + 1) * P0 then fm / P0 else h + 1 + (fm - (h + 1) * P0)
    case UniformPdf => fm
    case TriangularPdf =>
      if fm < Triangle(h) then (Isqrt(8 * fm + 1) - 1) / 2
      else if fm < Total(model, qn) then (2 * (qn + 1) - Isqrt(8 * (Total(model, qn) - fm - 1) + 1)) / 2
      else 0
  }

  /** The root of 8 * u + 1 tells in which step of the triangle u lies. */
  lemma TriangularRoot(u: nat, k: nat)
    requires Triangle(k) <= u < Triangle(k + 1)
    ensures 2 * k + 1 <= Isqrt(8 * u + 1) <= 2 * k + 2
  {
    var g := Isqrt(8 * u + 1);
    TriangleStep(k);
    TriangleStep(k + 1);
    if g < 2 * k + 1 { Squares(g + 1, 2 * k + 1); }
    if g > 2 * k + 2 { Squares(2 * k + 3, g); }
  }

  /** The step of the triangle u lies in. */
  lemma {:induction false} StepOf(u: nat, n: nat) returns (k: nat)
    requires u < Triangle(n)
    ensures k < n && Triangle(k) <= u < Triangle(k + 1)
  {
    if Triangle(n - 1) <= u { k := n - 1; } else { k := StepOf(u, n - 1); }
  }

  lemma LowerHalfOwns(qn: nat, fm: nat)
    requires ValidQn(qn) && fm < Triangle(qn / 2)
    ensures var x := (Isqrt(8 * fm + 1) - 1) / 2;
      0 <= x < qn / 2 && Triangle(x) <= fm < Triangle(x) + x + 1
  {
    hide Triangle, Isqrt;
    var k := StepOf(fm, qn / 2);
    TriangularRoot(fm, k);
    TriangleStep(k);
  }

  lemma UpperHalfOwns(qn: nat, fm: nat)
    requires ValidQn(qn) && Triangle(qn / 2) <= fm < Total(TriangularPdf, qn)
    ensures var x := (2 * (qn + 1) - Isqrt(8 * (Total(TriangularPdf, qn) - fm - 1) + 1)) / 2;
      qn / 2 <= x <= qn && First(TriangularPdf, qn, x) <= fm < Past(TriangularPdf, qn, x)
  {
    var h, u := qn / 2, Total(TriangularPdf, qn) - fm - 1;
    TotalSquare(h);
    hide Triangle, Isqrt, First, Past;
    var k := StepOf(u, h + 1);
    TriangularRoot(u, k);
    MirrorHalf(qn, qn - k);
  }

  lemma TriangularOwns(qn: nat, fm: nat)
    requires ValidQn(qn) && fm < Total(TriangularPdf, qn)
    ensures var x := Angle(TriangularPdf, qn, fm);
      0 <= x <= qn && First(TriangularPdf, qn, x) <= fm < Past(TriangularPdf, qn, x)
  {
    hide Isqrt, Total, Triangle;
    if fm < Triangle(qn / 2) { LowerHalfOwns(qn, fm); } else { UpperHalfOwns(qn, fm); }
  }

  /** Every frequency decodes to the angle that owns it. */
  lemma AngleOwns(model: Model, qn: nat, fm: nat)
    requires ValidQn(qn) && fm < Total(model, qn)
    ensures var x := Angle(model, qn, fm); 0 <= x <= qn && First(model, qn, x) <= fm < Past(model, qn, x)
  {
    if model == TriangularPdf { TriangularOwns(qn, fm); }
  }

  /** And to no other: the decoder inverts the encoder's intervals. */
  lemma AngleInverts(model: Model, qn: nat, fm: nat, x: nat)
    requires ValidQn(qn) && fm < Total(model, qn) && x <= qn
    ensures Angle(model, qn, fm) == x <==> First(model, qn, x) <= fm < Past(model, qn, x)
  {
    hide Angle, First, Past, Total;
    AngleOwns(model, qn, fm);
    var y := Angle(model, qn, fm);
    if x < y { AnglesApart(model, qn, x, y); } else if y < x { AnglesApart(model, qn, y, x); }
  }

  // ---- through the range coder ---------------------------------------------------------------------

  function SymbolOf(model: Model, qn: nat, x: nat): (sym: Symbol)
    requires ValidQn(qn) && x <= qn
    ensures ValidSymbol(sym)
  {
    Partition(model, qn, x);
    Freq(First(model, qn, x), Past(model, qn, x), Total(model, qn))
  }

  function EncodeAngle(e: E.Enc, model: Model, qn: nat, x: nat): E.Enc
    requires R.Inv(e) && ValidQn(qn) && x <= qn
  {
    if model == UniformPdf then E.EncodeUint(e, x, qn + 1) else E.EncodeSymbol(e, SymbolOf(model, qn, x))
  }

  /** Total on every input, also on streams no encoder wrote. */
  function DecodeAngle(d: D.Dec, model: Model, qn: nat): (D.Dec, nat)
    requires ValidQn(qn) && EC_CODE_BOT < d.rng && 0 <= d.val < d.rng
  {
    if model == UniformPdf then D.DecodeUint(d, qn + 1)
    else
      var ft := Total(model, qn);
      Partition(model, qn, 0);
      UnitBounds(d.rng, ft);
      var fm := D.DecodeFreq(d.val, d.rng / ft, ft);
      AngleOwns(model, qn, fm);
      var x := Angle(model, qn, fm);
      Partition(model, qn, x);
      (D.Update(d.(ext := d.rng / ft), First(model, qn, x), Past(model, qn, x), ft), x)
  }

  lemma EncodeAngleExtends(e: E.Enc, model: Model, qn: nat, x: nat)
    requires R.Inv(e) && ValidQn(qn) && x <= qn
    ensures R.Inv(EncodeAngle(e, model, qn, x)) && R.Extends(EncodeAngle(e, model, qn, x), e)
  {
    hide First, Past, Total;
    Partition(model, qn, x);
    if model == UniformPdf { R.UintExtends(e, x, qn + 1); } else { R.SymbolExtends(e, SymbolOf(model, qn, x)); }
  }

  /** Reading the right frequency is reading the right angle. */
  lemma DecodeAngleCoded(d: D.Dec, model: Model, qn: nat, x: nat, sym: Symbol)
    requires ValidQn(qn) && x <= qn && EC_CODE_BOT < d.rng && 0 <= d.val < d.rng && model != UniformPdf
    requires sym == SymbolOf(model, qn, x) && D.Matches(sym, D.Decoded(d, sym))
    ensures DecodeAngle(d, model, qn) == (D.Advance(d, sym), x)
  {
    hide First, Past, Total, Angle, D.Update;
    var ft := Total(model, qn);
    Partition(model, qn, x);
    UnitBounds(d.rng, ft);
    AngleInverts(model, qn, D.DecodeFreq(d.val, d.rng / ft, ft), x);
  }

  lemma DecodeAngleUniform(d: D.Dec, qn: nat)
    requires ValidQn(qn) && EC_CODE_BOT < d.rng && 0 <= d.val < d.rng
    ensures DecodeAngle(d, UniformPdf, qn) == D.DecodeUint(d, qn + 1)
  {
  }

  /** The decoder reads the angle the encoder wrote, whatever the model, and stays in step. */
  lemma AngleStep(e: E.Enc, d: D.Dec, model: Model, qn: nat, x: nat)
    requires R.Inv(e) && ValidQn(qn) && x <= qn && R.Related(e, d)
    requires EncodeAngle(e, model, qn, x).rem < 256 && R.Carries(d.buf, EncodeAngle(e, model, qn, x))
    ensures EC_CODE_BOT < d.rng && 0 <= d.val < d.rng
    ensures var (r, y) := DecodeAngle(d, model, qn);
      y == x && R.Related(EncodeAngle(e, model, qn, x), r) && r.buf == d.buf
  {
    hide D.DecodeUint, E.EncodeUint, E.EncodeSymbol, D.Update, D.Advance, DecodeAngle, SymbolOf;
    if model == UniformPdf {
      R.UintStep(e, d, x, qn + 1);
      DecodeAngleUniform(d, qn);
    } else {
      R.SymbolStep(e, d, SymbolOf(model, qn, x));
      DecodeAngleCoded(d, model, qn, x, SymbolOf(model, qn, x));
    }
  }

  // ---- compute_theta on the coder itself --------------------------------------------------------------

  /** The encoder's side of compute_theta, once the angle is quantised. */
  method EncodeTheta(ec: C.EcCtx, stereo: bool, N: nat, B0: nat, qn: nat, itheta: nat)
    requires ec.Valid() && R.Inv(ec.View()) && ValidQn(qn) && itheta <= qn
    modifies ec, ec.buf
    ensures ec.Valid() && ec.buf == old(ec.buf)
    ensures ec.View() == EncodeAngle(old(ec.View()), ModelOf(stereo, N, B0), qn, itheta)
  {
    hide E.EncodeUint, E.Encode;
    var model := ModelOf(stereo, N, B0);
    ghost var sym := SymbolOf(model, qn, itheta);
    Partition(model, qn, itheta);
    match model {
      case StepPdf =>
        var x, x0 := itheta, qn / 2;
        var ft := P0 * (x0 + 1) + x0;
        ec.Encode(if x <= x0 then P0 * x else x - 1 - x0 + (x0 + 1) * P0,
                  if x <= x0 then P0 * (x + 1) else x - x0 + (x0 + 1) * P0, ft);
      case UniformPdf =>
        ec.EncodeUint(itheta, qn + 1);
      case TriangularPdf =>
        var ft := (qn / 2 + 1) * (qn / 2 + 1);
        var fs := if itheta <= qn / 2 then itheta + 1 else qn + 1 - itheta;
        var fl := if itheta <= qn / 2 then itheta * (itheta + 1) / 2
                  else ft - (qn + 1 - itheta) * (qn + 2 - itheta) / 2;
        ec.Encode(fl, fl + fs, ft);
    }
  }

  /** Below the middle. */
  method LowerAngle(qn: nat, fm: nat) returns (itheta: nat, fl: nat, fh: nat)
    requires ValidQn(qn) && fm < Triangle(qn / 2) && fm < Total(TriangularPdf, qn)
    ensures itheta == Angle(TriangularPdf, qn, fm) && itheta <= qn
    ensures fl == First(TriangularPdf, qn, itheta) && fh == Past(TriangularPdf, qn, itheta)
  {
    hide Isqrt;
    LowerHalfOwns(qn, fm);
    RootInRange(qn, fm);
    var root := Isqrt32(8 * fm + 1);
    itheta := (root - 1) / 2;
    var fs := itheta + 1;
    fl := itheta * (itheta + 1) / 2;
    fh := fl + fs;
  }

  /** From the middle on; there the mirrored interval is the same one. */
  method UpperAngle(qn: nat, fm: nat) returns (itheta: nat, fl: nat, fh: nat)
    requires ValidQn(qn) && Triangle(qn / 2) <= fm < Total(TriangularPdf, qn)
    ensures itheta == Angle(TriangularPdf, qn, fm) && itheta <= qn
    ensures fl == First(TriangularPdf, qn, itheta) && fh == Past(TriangularPdf, qn, itheta)
  {
    hide Isqrt, Triangle, Total, First, Past;
    UpperHalfOwns(qn, fm);
    var ft := Total(TriangularPdf, qn);
    RootInRange(qn, ft - fm - 1);
    var root := Isqrt32(8 * (ft - fm - 1) + 1);
    itheta := (2 * (qn + 1) - root) / 2;
    MirrorHalf(qn, itheta);
    TriangleStep(qn - itheta);
    Partition(TriangularPdf, qn, itheta);
    var fs := qn + 1 - itheta;
    fl := ft - Triangle(qn + 1 - itheta);
    fh := fl + fs;
  }

  lemma RootInRange(qn: nat, fm: nat)
    requires ValidQn(qn) && fm < Total(TriangularPdf, qn)
    ensures 8 * fm + 1 < 0x1_0000_0000
  {
    Partition(TriangularPdf, qn, 0);
  }

  /** The angle for a frequency, the root taken by isqrt32, and its interval. */
  method AngleOf(model: Model, qn: nat, fm: nat) returns (itheta: nat, fl: nat, fh: nat)
    requires ValidQn(qn) && fm < Total(model, qn) && model != UniformPdf
    ensures itheta == Angle(model, qn, fm)
    ensures itheta <= qn && fl == First(model, qn, itheta) && fh == Past(model, qn, itheta)
  {
    var h := qn / 2;
    if model == StepPdf {
      AngleOwns(model, qn, fm);
      itheta := if fm < (h + 1) * P0 then fm / P0 else h + 1 + (fm - (h + 1) * P0);
      fl := if itheta <= h then P0 * itheta else itheta - 1 - h + (h + 1) * P0;
      fh := if itheta <= h then P0 * (itheta + 1) else itheta - h + (h + 1) * P0;
    } else if fm < Triangle(h) {
      itheta, fl, fh := LowerAngle(qn, fm);
    } else {
      itheta, fl, fh := UpperAngle(qn, fm);
    }
  }

  /** The decoder's side. */
  method DecodeTheta(ec: C.EcCtx, stereo: bool, N: nat, B0: nat, qn: nat) returns (itheta: nat)
    requires ec.Reading() && ValidQn(qn) && EC_CODE_BOT < ec.rng && ec.val < ec.rng
    modifies ec
    ensures ec.Reading() && ec.buf == old(ec.buf)
    ensures (ec.DecView(), itheta) == DecodeAngle(old(ec.DecView()), ModelOf(stereo, N, B0), qn)
  {
    var model := ModelOf(stereo, N, B0);
    hide D.DecodeUint, D.Update, D.DecodeFreq, Angle, First, Past, Total, Below;
    if model == UniformPdf {
      itheta := ec.DecodeUint(qn + 1);
      return;
    }
    Partition(model, qn, 0);
    var ft := Total(model, qn);
    UnitBounds(ec.rng, ft);
    var fm := ec.Decode(ft);
    FreqBelowTotal(ec.val, ec.rng / ft, ft);
    AngleOwns(model, qn, fm);
    var fl, fh;
    itheta, fl, fh := AngleOf(model, qn, fm);
    Partition(model, qn, itheta);
    D.DecodeFreqMatches(ec.rng, ec.val, fl, fh, ft);
    ec.DecUpdate(fl, fh, ft);
  }

  lemma FreqBelowTotal(val: nat, unit: nat, ft: nat)
    requires unit > 0 && ft > 0
    ensures D.DecodeFreq(val, unit, ft) < ft
  {
  }
}
