/** What the Haar steps of quant_band (bands.c) add up to: a Walsh-Hadamard transform over 2^t samples, and
    the order its rows are put in. */
module Walsh {
  import opened Arith
  import opened Bits
  import opened Hadamard
  import L = Lpc

  // ---- the Hadamard matrix ---------------------------------------------------------------------

  predicate BitSet(u: nat, k: nat) {
    DivMod(u, Pow2(k));
    u / Pow2(k) % 2 == 1
  }

  /** Have u and j an odd number of one bits in common, among the lowest t? */
  predicate Odd(t: nat, u: nat, j: nat) {
    t > 0 && Odd(t - 1, u, j) != (BitSet(u, t - 1) && BitSet(j, t - 1))
  }

  function Sign(t: nat, u: nat, j: nat): real {
    if Odd(t, u, j) then -1.0 else 1.0
  }

  /** A high bit more leaves the low ones. */
  lemma LowBits(u: nat, t: nat, k: nat)
    requires k < t
    ensures BitSet(u + Pow2(t), k) == BitSet(u, k)
  {
    var w, n := Pow2(k), Pow2(t - k - 1);
    Pow2Add(k, t - k);
    assert Pow2(t - k) == 2 * n;
    hide Pow2;
    DivMod(u, w);
    MulDist(w, u / w, 2 * n);
    DivUnique(u + Pow2(t), w, u / w + 2 * n, u % w);
    TwiceMore(u / w, n);
  }

  lemma TwiceMore(q: nat, n: nat)
    ensures (q + 2 * n) % 2 == q % 2
  {
  }

  lemma {:induction false} OddBelow(t: nat, u: nat, j: nat, m: nat)
    requires t <= m
    ensures Odd(t, u + Pow2(m), j) == Odd(t, u, j) == Odd(t, u, j + Pow2(m))
  {
    hide BitSet;
    if t > 0 {
      OddBelow(t - 1, u, j, m);
      LowBits(u, m, t - 1);
      LowBits(j, m, t - 1);
    }
  }

  lemma HighBit(u: nat, t: nat)
    ensures BitSet(u + Pow2(t), t) == !BitSet(u, t)
  {
    hide Pow2;
    var w := Pow2(t);
    DivMod(u, w);
    var q := u / w;
    MulDist(w, q, 1);
    DivUnique(u + w, w, q + 1, u % w);
    OneMore(q);
  }

  lemma OneMore(q: nat)
    ensures (q + 1) % 2 == 1 <==> q % 2 != 1
  {
  }

  lemma SmallBit(j: nat, t: nat)
    requires j < Pow2(t)
    ensures !BitSet(j, t)
  {
    DivUnique(j, Pow2(t), 0, j);
  }

  // ---- sums ------------------------------------------------------------------------------------

  lemma {:induction false} SumSplit(f: int -> real, n: nat, m: nat)
    ensures L.Sum(f, n + m) == L.Sum(f, n) + L.Sum(j => f(n + j), m)
  {
    if m > 0 {
      SumSplit(f, n, m - 1);
      var g := j => f(n + j);
      assert L.Sum(g, m) == L.Sum(g, m - 1) + g(m - 1);
    }
  }

  /** The 2^t samples at stride b that row u is applied to, the first at block base. */
  function Term(x: seq<real>, b: nat, t: nat, u: nat, base: int, w: nat): int -> real {
    j => if j < 0 then 0.0 else Sign(t, u, j) * L.At(x, b * (base + j) + w)
  }

  /** Row u of the matrix applied to the samples from base on. */
  ghost function RowSum(x: seq<real>, b: nat, t: nat, u: nat, base: int, w: nat): real {
    L.Sum(Term(x, b, t, u, base, w), Pow2(t))
  }

  /** A row of twice the size is the sum or difference of two rows of half the size. */
  lemma RowHalves(x: seq<real>, b: nat, t: nat, u: nat, base: int, w: nat)
    ensures RowSum(x, b, t + 1, u, base, w)
         == RowSum(x, b, t, u, base, w) + (if BitSet(u, t) then -1.0 else 1.0) * RowSum(x, b, t, u, base + Pow2(t), w)
  {
    hide BitSet, Sign, Pow2;
    Pow2Doubles(t);
    var n, r := Pow2(t), if BitSet(u, t) then -1.0 else 1.0;
    var f, g, h := Term(x, b, t + 1, u, base, w), Term(x, b, t, u, base, w), Term(x, b, t, u, base + n, w);
    forall j | 0 <= j < n
      ensures f(j) == g(j) && f(n + j) == r * h(j)
    {
      TermStep(x, b, t, u, base, w, j);
    }
    hide Term;
    SumHalves(f, g, h, r, n);
  }

  lemma Pow2Doubles(t: nat)
    ensures Pow2(t + 1) == Pow2(t) + Pow2(t)
  {
  }

  lemma SumHalves(f: int -> real, g: int -> real, h: int -> real, r: real, n: nat)
    requires forall j :: 0 <= j < n ==> f(j) == g(j) && f(n + j) == r * h(j)
    ensures L.Sum(f, n + n) == L.Sum(g, n) + r * L.Sum(h, n)
  {
    var later, scaled := j => f(n + j), j => r * h(j);
    SumSplit(f, n, n);
    L.SumEqual(f, g, n);
    assert forall j :: 0 <= j < n ==> later(j) == scaled(j);
    L.SumEqual(later, scaled, n);
    SumScaled(h, r, n);
  }

  lemma TermStep(x: seq<real>, b: nat, t: nat, u: nat, base: int, w: nat, j: nat)
    requires j < Pow2(t)
    ensures Term(x, b, t + 1, u, base, w)(j) == Term(x, b, t, u, base, w)(j)
    ensures Term(x, b, t + 1, u, base, w)(Pow2(t) + j)
         == (if BitSet(u, t) then -1.0 else 1.0) * Term(x, b, t, u, base + Pow2(t), w)(j)
  {
    hide BitSet, Sign, Pow2;
    OddStep(t, u, j);
    assert base + (Pow2(t) + j) == base + Pow2(t) + j;
    var v := L.At(x, b * (base + Pow2(t) + j) + w);
    Regroup(if BitSet(u, t) then -1.0 else 1.0, Sign(t, u, j), v);
  }

  lemma Regroup(r: real, s: real, v: real)
    ensures r * s * v == r * (s * v)
  {
  }

  lemma OddStep(t: nat, u: nat, j: nat)
    requires j < Pow2(t)
    ensures Odd(t + 1, u, j) == Odd(t, u, j) && Odd(t + 1, u, Pow2(t) + j) == (Odd(t, u, j) != BitSet(u, t))
    ensures Sign(t + 1, u, j) == Sign(t, u, j)
    ensures Sign(t + 1, u, Pow2(t) + j) == (if BitSet(u, t) then -1.0 else 1.0) * Sign(t, u, j)
  {
    hide BitSet;
    SmallBit(j, t);
    HighBit(j, t);
    OddBelow(t, u, j, t);
  }

  lemma {:induction false} SumScaled(f: int -> real, r: real, n: nat)
    ensures L.Sum(j => r * f(j), n) == r * L.Sum(f, n)
  {
    if n > 0 {
      SumScaled(f, r, n - 1);
      var g := j => r * f(j);
      assert L.Sum(g, n) == L.Sum(g, n - 1) + g(n - 1);
      L.Distribute(r, L.Sum(f, n - 1), f(n - 1));
    }
  }

  function Scale(c: real, t: nat): real {
    if t == 0 then 1.0 else c * Scale(c, t - 1)
  }

  // ---- the transform ---------------------------------------------------------------------------

  /** The low bits of u alone choose the row. */
  lemma RowLow(x: seq<real>, b: nat, t: nat, u: nat, base: int, w: nat)
    ensures RowSum(x, b, t, u + Pow2(t), base, w) == RowSum(x, b, t, u, base, w)
  {
    hide BitSet, Pow2;
    var f, g := Term(x, b, t, u + Pow2(t), base, w), Term(x, b, t, u, base, w);
    forall j | 0 <= j < Pow2(t)
      ensures f(j) == g(j)
    {
      OddBelow(t, u, j, t);
    }
    L.SumEqual(f, g, Pow2(t));
  }

  /** Where u lies: the first sample of its block of 2^t. */
  function Base(u: nat, t: nat): nat {
    DivMod(u, Pow2(t));
    MulLe(0, u / Pow2(t), Pow2(t));
    u / Pow2(t) * Pow2(t)
  }

  /** u begins a pair of the stage at 2^t, in block m of 2^(t + 1). */
  lemma PairBlocks(u: nat, t: nat, nb: nat)
    requires !BitSet(u, t) && u / Pow2(t + 1) < nb / Pow2(t + 1)
    ensures var n, m := Pow2(t), u / Pow2(t + 1);
      && m >= 0 && u == 2 * n * m + u % n && 0 <= u % n < n
      && m < Pairs(nb, t)
      && u / n < nb / n && (u + n) / n < nb / n && (u + n) / Pow2(t + 1) == m
      && Base(u, t) == Base(u, t + 1) == Base(u + n, t + 1) && Base(u + n, t) == Base(u, t + 1) + n
  {
    var n := Pow2(t);
    assert Pow2(t + 1) == 2 * n;
    hide Pow2;
    HalfBlocks(u, n, nb);
  }

  lemma HalfBlocks(u: nat, n: nat, nb: nat)
    requires n > 0 && u / n % 2 == 0 && u / (2 * n) < nb / (2 * n)
    ensures var m := u / (2 * n);
      && m >= 0 && u / n == 2 * m && u == 2 * n * m + u % n && 0 <= u % n < n
      && 2 * m + 1 < nb / n && (u + n) / n == 2 * m + 1 && (u + n) / (2 * n) == m
      && u / n * n == m * (2 * n) && (u + n) / n * n == m * (2 * n) + n
  {
    DivMod(u, n);
    DivMod(nb, n);
    DivDiv(u, n, 2);
    DivDiv(nb, n, 2);
    assert n * 2 == 2 * n;
    var m, r := u / (2 * n), u % n;
    MulAssoc(n, 2, m);
    MulDist(n, 2 * m, 1);
    DivUnique(u + n, n, 2 * m + 1, r);
    DivUnique(u + n, 2 * n, m, n + r);
    MulCommute(n, 2 * m);
    MulCommute(n, 2 * m + 1);
    MulCommute(m, 2 * n);
  }

  /** Places in terms of sample groups of b. */
  lemma PlaceOfPair(b: nat, n: nat, m: nat, l: nat, w: nat, u: nat)
    requires w < b && l < n && u == 2 * n * m + l
    ensures b * n > 0 && 0 <= b * l + w < b * n
    ensures 2 * (b * n) * m + (b * l + w) == b * u + w
    ensures b * u + w + b * n == b * (u + n) + w
  {
    MulLe(l + 1, n, b);
    MulDist(b, l, 1);
    MulLe(0, l, b);
    MulCommute(b, l + 1);
    MulCommute(b, n);
    MulDist(b, 2 * n * m, l);
    MulDist(b, 2 * n * m + l, n);
    MulAssoc(b, 2 * n, m);
    MulAssoc(b, 2, n);
    MulCommute(b, 2);
    MulAssoc(2, b, n);
  }

  lemma HaarPairAt(x: seq<real>, s: nat, h: nat, c: real, i: nat, j: nat, p: nat, q: nat)
    requires Fits(|x|, s, h) && i < s && j < h && p == 2 * s * j + i && q == p + s
    ensures p < |x| && q < |x|
    ensures var y := Haar(x, s, h, c); y[p] == c * (x[p] + x[q]) && y[q] == c * (x[p] - x[q])
  {
    hide Haar;
    HaarPair(x, s, h, c, i, j);
    var y := Haar(x, s, h, c);
    SumAndDifference(c, x[p], x[q], y[p], y[q]);
  }

  /** One stage takes the pair at u to its sum and difference. */
  lemma StagePair(x: seq<real>, nb: nat, b: nat, t: nat, c: real, u: nat, w: nat, p: int, q: int)
    requires b > 0 && b * nb <= |x| && w < b && !BitSet(u, t) && u / Pow2(t + 1) < nb / Pow2(t + 1)
    requires p == b * u + w && q == b * (u + Pow2(t)) + w
    ensures 0 <= p < |x| && 0 <= q < |x|
    ensures var y := Stage(x, nb, b, t, c); y[p] == c * (x[p] + x[q]) && y[q] == c * (x[p] - x[q])
  {
    hide Pow2, Pairs, Haar, BitSet, Base, Fits;
    var n, m := Pow2(t), u / Pow2(t + 1);
    PairBlocks(u, t, nb);
    PlaceOfPair(b, n, m, u % n, w, u);
    StageFits(|x|, nb, b, t);
    MulLe(0, m, 2 * (b * n));
    HaarPairAt(x, b * n, Pairs(nb, t), c, b * (u % n) + w, m, p, q);
  }

  lemma SumAndDifference(c: real, a: real, d: real, y: real, z: real)
    requires y + z == 2.0 * c * a && y - z == 2.0 * c * d
    ensures y == c * (a + d) && z == c * (a - d)
  {
    L.Distribute(c, a, d);
    L.Distribute(c, a, -d);
  }

  /** The rows of the two halves of a pair. */
  lemma PairRows(x: seq<real>, b: nat, t: nat, u: nat, base: int, w: nat)
    requires !BitSet(u, t)
    ensures var lower, upper := RowSum(x, b, t, u, base, w), RowSum(x, b, t, u + Pow2(t), base + Pow2(t), w);
      && RowSum(x, b, t + 1, u, base, w) == lower + upper
      && RowSum(x, b, t + 1, u + Pow2(t), base, w) == lower - upper
  {
    hide Pow2, BitSet, RowSum;
    RowHalves(x, b, t, u, base, w);
    RowHalves(x, b, t, u + Pow2(t), base, w);
    HighBit(u, t);
    RowLow(x, b, t, u, base, w);
    RowLow(x, b, t, u, base + Pow2(t), w);
  }

  /** Place p holds what row u makes of the samples from base on. */
  ghost predicate RowAt(x: seq<real>, nb: nat, b: nat, t: nat, c: real, u: nat, w: nat, base: int, p: int)
    requires b > 0 && b * nb <= |x|
  {
    0 <= p < |x| && Divided(x, nb, b, t, c)[p] == Scale(c, t) * RowSum(x, b, t, u, base, w)
  }

  lemma {:induction false} DividedRows(x: seq<real>, nb: nat, b: nat, t: nat, c: real, u: nat, w: nat)
    requires b > 0 && b * nb <= |x| && w < b && u / Pow2(t) < nb / Pow2(t)
    ensures RowAt(x, nb, b, t, c, u, w, Base(u, t), b * u + w)
    decreases t
  {
    hide Pow2, BitSet, Base, RowAt;
    if t == 0 {
      OneSample(x, nb, b, c, u, w);
    } else {
      var n := Pow2(t - 1);
      var v := if BitSet(u, t - 1) then u - n else u;
      FirstOfPair(u, t - 1);
      PairBlocks(v, t - 1, nb);
      DividedRows(x, nb, b, t - 1, c, v, w);
      DividedRows(x, nb, b, t - 1, c, v + n, w);
      WalshStep(x, nb, b, t - 1, c, v, w, b * v + w, b * (v + n) + w, Base(u, t));
    }
  }

  /** t stages turn every complete block of 2^t samples at stride b into its Walsh-Hadamard transform. */
  lemma DividedIsWalsh(x: seq<real>, nb: nat, b: nat, t: nat, c: real, u: nat, w: nat)
    requires b > 0 && b * nb <= |x| && w < b && u / Pow2(t) < nb / Pow2(t)
    ensures 0 <= b * u + w < |x|
    ensures Divided(x, nb, b, t, c)[b * u + w] == Scale(c, t) * RowSum(x, b, t, u, Base(u, t), w)
  {
    hide Pow2, Base, RowSum, Divided, Scale;
    DividedRows(x, nb, b, t, c, u, w);
  }

  lemma Scaled(c: real, s: real, a: real, d: real, y: real, z: real, r: real)
    requires y == s * a && z == s * d && r == c * s
    ensures c * (y + z) == r * (a + d) && c * (y - z) == r * (a - d)
  {
    L.Distribute(s, a, d);
    L.Distribute(s, a, -d);
    assert c * (s * (a + d)) == c * s * (a + d);
    assert c * (s * (a - d)) == c * s * (a - d);
  }

  /** One stage more for the pair at u. */
  lemma WalshStep(x: seq<real>, nb: nat, b: nat, t: nat, c: real, u: nat, w: nat, p: int, q: int, base: int)
    requires b > 0 && b * nb <= |x| && w < b && !BitSet(u, t) && u / Pow2(t + 1) < nb / Pow2(t + 1)
    requires p == b * u + w && q == b * (u + Pow2(t)) + w
    requires RowAt(x, nb, b, t, c, u, w, base, p) && RowAt(x, nb, b, t, c, u + Pow2(t), w, base + Pow2(t), q)
    ensures RowAt(x, nb, b, t + 1, c, u, w, base, p) && RowAt(x, nb, b, t + 1, c, u + Pow2(t), w, base, q)
  {
    hide Pow2, BitSet, RowSum, Stage;
    var y := Divided(x, nb, b, t, c);
    StagePair(y, nb, b, t, c, u, w, p, q);
    PairRows(x, b, t, u, base, w);
    Scaled(c, Scale(c, t), RowSum(x, b, t, u, base, w), RowSum(x, b, t, u + Pow2(t), base + Pow2(t), w),
           y[p], y[q], Scale(c, t + 1));
  }

  lemma FirstOfPair(u: nat, t: nat)
    ensures BitSet(u, t) ==>
      u >= Pow2(t) && !BitSet(u - Pow2(t), t) && (u - Pow2(t)) / Pow2(t + 1) == u / Pow2(t + 1)
  {
    var n := Pow2(t);
    assert Pow2(t + 1) == 2 * n;
    hide Pow2;
    if BitSet(u, t) {
      DivMod(u, n);
      DivDiv(u, n, 2);
      var q, r := u / n, u % n;
      MulLe(1, q, n);
      MulCommute(q, n);
      MulSub(n, q, 1);
      DivUnique(u - n, n, q - 1, r);
      DivDiv(u - n, n, 2);
      assert n * 2 == 2 * n;
    }
  }

  lemma OneSample(x: seq<real>, nb: nat, b: nat, c: real, u: nat, w: nat)
    requires b > 0 && b * nb <= |x| && w < b && u / Pow2(0) < nb / Pow2(0)
    ensures RowAt(x, nb, b, 0, c, u, w, Base(u, 0), b * u + w)
  {
    assert Pow2(0) == 1 && u < nb;
    MulLe(0, u, b);
    MulLe(u + 1, nb, b);
    MulDist(b, u, 1);
    MulCommute(b, u);
    MulCommute(b, nb);
    MulCommute(b, u + 1);
    var f := Term(x, b, 0, u, Base(u, 0), w);
    assert L.Sum(f, 1) == L.Sum(f, 0) + f(0);
    assert Base(u, 0) == u && f(0) == L.At(x, b * (u + 0) + w);
  }

  /** The recombining levels are the same stages at stride 1. */
  lemma {:induction false} RecombinedIsDivided(x: seq<real>, k: nat, c: real)
    ensures Recombined(x, k, c) == Divided(x, |x|, 1, k, c)
  {
    if k > 0 {
      RecombinedIsDivided(x, k - 1, c);
      LevelFits(|x|, k - 1);
    }
  }

  /** So recombining k levels transforms every complete block of 2^k neighbours. */
  lemma RecombinedIsWalsh(x: seq<real>, k: nat, c: real, u: nat)
    requires u / Pow2(k) < |x| / Pow2(k)
    ensures u < |x| && Recombined(x, k, c)[u] == Scale(c, k) * RowSum(x, 1, k, u, Base(u, k), 0)
  {
    hide Pow2, Base, RowSum, Divided, Scale, Recombined;
    RecombinedIsDivided(x, k, c);
    DividedIsWalsh(x, |x|, 1, k, c, u, 0);
  }

  // ---- the order of the rows -----------------------------------------------------------------------

  /** How often row u changes sign among its first n + 1 entries. */
  function SignChanges(t: nat, u: nat, n: nat): nat {
    if n == 0 then 0
    else SignChanges(t, u, n - 1) + if Sign(t, u, n - 1) != Sign(t, u, n) then 1 else 0
  }

  lemma {:induction false} FirstColumn(t: nat, u: nat)
    ensures !Odd(t, u, 0)
  {
    if t > 0 {
      FirstColumn(t - 1, u);
      SmallBit(0, t - 1);
    }
  }

  lemma {:induction false} HalvesAlike(t: nat, u: nat, n: nat)
    requires n < Pow2(t)
    ensures SignChanges(t + 1, u, n) == SignChanges(t, u, n)
    ensures SignChanges(t + 1, u, Pow2(t) + n) == SignChanges(t + 1, u, Pow2(t)) + SignChanges(t, u, n)
    decreases n
  {
    hide Pow2, Odd, BitSet;
    OddStep(t, u, n);
    if n > 0 {
      OddStep(t, u, n - 1);
      HalvesAlike(t, u, n - 1);
    }
  }

  /** A row of twice the size changes sign twice as often, and once more if it does in the middle. */
  lemma SignsDouble(t: nat, u: nat)
    ensures SignChanges(t + 1, u, Pow2(t + 1) - 1)
         == 2 * SignChanges(t, u, Pow2(t) - 1) + if Odd(t, u, Pow2(t) - 1) != BitSet(u, t) then 1 else 0
  {
    var n := Pow2(t);
    Pow2Doubles(t);
    hide Pow2, Odd, BitSet;
    HalvesAlike(t, u, n - 1);
    OddStep(t, u, n - 1);
    OddStep(t, u, 0);
    FirstColumn(t, u);
  }

  /** Sign changes of rows 2, 4, 8 and 16 long, from the bits of the row's number. */
  lemma SmallRows(i: nat, a: bool, b: bool, c: bool, d: bool)
    requires a == BitSet(i, 0) && b == (a != BitSet(i, 1)) && c == (b != BitSet(i, 2)) && d == (c != BitSet(i, 3))
    ensures SignChanges(1, i, 1) == Bit(a) && SignChanges(2, i, 3) == 2 * Bit(a) + Bit(b)
    ensures SignChanges(3, i, 7) == 4 * Bit(a) + 2 * Bit(b) + Bit(c)
    ensures SignChanges(4, i, 15) == 8 * Bit(a) + 4 * Bit(b) + 2 * Bit(c) + Bit(d)
  {
    Pow2Small();
    hide Pow2, BitSet;
    SignsDouble(0, i);
    SignsDouble(1, i);
    SignsDouble(2, i);
    SignsDouble(3, i);
    OddStep(0, i, 0);
    OddStep(1, i, 1);
    OddStep(2, i, 3);
    assert !Odd(0, i, 0) && SignChanges(0, i, 0) == 0;
    hide SignChanges, Odd;
  }

  function Bit(b: bool): nat {
    if b then 1 else 0
  }

  lemma Pow2Small()
    ensures Pow2(0) == 1 && Pow2(1) == 2 && Pow2(2) == 4 && Pow2(3) == 8 && Pow2(4) == 16
  {
  }

  lemma RowBits(i: nat)
    requires i < 16
    ensures i == Bit(BitSet(i, 0)) + 2 * Bit(BitSet(i, 1)) + 4 * Bit(BitSet(i, 2)) + 8 * Bit(BitSet(i, 3))
  {
    Pow2Small();
    hide Pow2;
  }

  /** The lines of ordery_table, from the bits of i: the inverse of a bit-reversed Gray code, inverted. */
  lemma GrayLine(t: nat, i: nat, a: bool, b: bool, c: bool, d: bool)
    requires 1 <= t <= 4 && (t == 1 ==> i < 2) && (t == 2 ==> i < 4) && (t == 3 ==> i < 8) && i < 16
    requires i == Bit(a) + 2 * Bit(a != b) + 4 * Bit(b != c) + 8 * Bit(c != d)
    ensures t == 1 ==> Order(2, true, i) == 1 - Bit(a)
    ensures t == 2 ==> Order(4, true, i) == 3 - (2 * Bit(a) + Bit(b))
    ensures t == 3 ==> Order(8, true, i) == 7 - (4 * Bit(a) + 2 * Bit(b) + Bit(c))
    ensures t == 4 ==> Order(16, true, i) == 15 - (8 * Bit(a) + 4 * Bit(b) + 2 * Bit(c) + Bit(d))
  {
  }

  /** deinterleave_hadamard puts the row that changes sign most often first, the constant one last. */
  lemma OrderIsSequency(t: nat, i: nat)
    requires 1 <= t <= 4 && i < Pow2(t)
    ensures HasOrder(Pow2(t), true) && Order(Pow2(t), true, i) == Pow2(t) - 1 - SignChanges(t, i, Pow2(t) - 1)
  {
    Pow2Small();
    Pow2Monotone(t, 4);
    RowBits(i);
    var a := BitSet(i, 0);
    var b := a != BitSet(i, 1);
    var c := b != BitSet(i, 2);
    var d := c != BitSet(i, 3);
    SmallRows(i, a, b, c, d);
    hide Pow2, BitSet, SignChanges, Order;
    GrayLine(t, i, a, b, c, d);
  }

  // ---- quant_band ------------------------------------------------------------------------------------

  lemma PlaceInGroups(B: nat, n: nat, r: nat, w: nat, j: nat)
    requires w < B && r < n
    ensures 0 <= B * r + w < B * n && 0 <= j * n
    ensures j * (B * n) + (B * r + w) == B * (j * n + r) + w
    ensures n > 0 && (j * n + r) / n == j
  {
    MulLe(r + 1, n, B);
    MulDist(B, r, 1);
    MulLe(0, r, B);
    MulCommute(B, r);
    MulCommute(B, r + 1);
    MulCommute(B, n);
    MulLe(0, j, n);
    MulDist(B, j * n, r);
    MulSwap(j, B, n);
    MulCommute(j, n);
    DivUnique(j * n + r, n, j, r);
  }

  /** What quant_partition is given when the time resolution of B blocks is raised t times: group
      Order(B * r + w) holds coefficient r of the transforms of block w, one for each 2^t of its samples. */
  lemma AnalysedIsWalsh(x: seq<real>, B: nat, tfChange: int, c: real, j: nat, r: nat, w: nat)
    requires ValidBand(|x|, B, tfChange) && tfChange <= 0 && Blocks(|x|, B, tfChange) > 1 && w < B
    requires var t := TimeDivide(|x|, B, tfChange); r < Pow2(t) && j < Length(|x|, B, tfChange)
    ensures var t, len, stride := TimeDivide(|x|, B, tfChange), Length(|x|, B, tfChange), Stride(|x|, B, tfChange);
      && stride == B * Pow2(t) && 0 <= B * r + w < stride && HasOrder(stride, B == 1)
      && var q := Order(stride, B == 1, B * r + w) * len + j;
      && 0 <= q < |x|
      && 0 <= j * Pow2(t)
      && Analysed(x, B, tfChange, c)[q] == Scale(c, t) * RowSum(x, B, t, j * Pow2(t) + r, j * Pow2(t), w)
  {
    hide Pow2, Order, Unorder, Divided, RowSum, Scale, Deinterleaved, HasOrder, TimeDivide, Base, Analysed, Length,
         Stride, Blocks;
    var t, nb := TimeDivide(|x|, B, tfChange), |x| / B;
    DivMod(|x|, B);
    LayoutFits(|x|, B, tfChange);
    StrideIs(|x|, B, tfChange);
    PlaceInGroups(B, Pow2(t), r, w, j);
    BaseIs(j, r, t);
    DividedIsWalsh(x, nb, B, t, c, j * Pow2(t) + r, w);
    AnalysedIs(x, B, tfChange, c);
    InterleavedPlaces(Divided(x, nb, B, t, c), Length(|x|, B, tfChange), Stride(|x|, B, tfChange), B == 1, j,
                      B * r + w);
  }

  lemma BaseIs(j: nat, r: nat, t: nat)
    requires r < Pow2(t)
    ensures 0 <= j * Pow2(t) && (j * Pow2(t) + r) / Pow2(t) == j && Base(j * Pow2(t) + r, t) == j * Pow2(t)
  {
    hide Pow2;
    MulLe(0, j, Pow2(t));
    MulCommute(j, Pow2(t));
    DivUnique(j * Pow2(t) + r, Pow2(t), j, r);
  }

  lemma AnalysedIs(x: seq<real>, B: nat, tfChange: int, c: real)
    requires ValidBand(|x|, B, tfChange) && tfChange <= 0 && Blocks(|x|, B, tfChange) > 1
    ensures |x| / B >= 0 && B * (|x| / B) <= |x|
    ensures HasOrder(Stride(|x|, B, tfChange), B == 1)
    ensures Length(|x|, B, tfChange) * Stride(|x|, B, tfChange) <= |x|
    ensures Analysed(x, B, tfChange, c)
         == Deinterleaved(Divided(x, |x| / B, B, TimeDivide(|x|, B, tfChange), c), Length(|x|, B, tfChange),
                          Stride(|x|, B, tfChange), B == 1)
  {
    hide Pow2, Order, Unorder, Divided, Deinterleaved, HasOrder, TimeDivide, Length, Stride, Blocks;
    DivMod(|x|, B);
    LayoutFits(|x|, B, tfChange);
  }

  lemma StrideIs(n: nat, B: nat, tfChange: int)
    requires B > 0 && tfChange <= 0
    ensures Stride(n, B, tfChange) == B * Pow2(TimeDivide(n, B, tfChange)) && Recombine(tfChange) == 0
    ensures n / B >= 0 && Length(n, B, tfChange) == n / B / Pow2(TimeDivide(n, B, tfChange))
  {
    assert Pow2(0) == 1;
    DivMod(n, B);
  }

  /** And when it is lowered k times: the levels' transforms, with the samples of each block collected if
      there is still more than one. */
  lemma AnalysedIsRecombined(x: seq<real>, B: nat, k: nat, c: real, j: nat, i: nat)
    requires ValidBand(|x|, B, k) && k > 0
    ensures B / Pow2(k) <= 1 ==> Analysed(x, B, k, c) == Recombined(x, k, c)
    ensures B / Pow2(k) > 1 ==> var stride, len := B / Pow2(k) * Pow2(k), |x| / B;
      j < len && i < stride ==>
        && 0 <= j * stride + i < |x| && 0 <= i * len + j < |x|
        && Analysed(x, B, k, c)[i * len + j] == Recombined(x, k, c)[j * stride + i]
  {
    hide Pow2, Recombined, Deinterleaved, HasOrder, Order, Unorder, Analysed, TimeDivide, Length, Stride, Blocks;
    LowerStride(|x|, B, k);
    LoweredIs(x, B, k, c);
    if B / Pow2(k) > 1 {
      var stride, len := B / Pow2(k) * Pow2(k), |x| / B;
      if j < len && i < stride {
        NoOrder(stride, i);
        InterleavedPlaces(Recombined(x, k, c), len, stride, false, j, i);
      }
    }
  }

  lemma LoweredIs(x: seq<real>, B: nat, k: nat, c: real)
    requires ValidBand(|x|, B, k) && k > 0
    ensures Blocks(|x|, B, k) <= 1 ==> Analysed(x, B, k, c) == Recombined(x, k, c)
    ensures Blocks(|x|, B, k) > 1 ==> var stride, len := Stride(|x|, B, k), Length(|x|, B, k);
      && HasOrder(stride, false) && len * stride <= |x|
      && Analysed(x, B, k, c) == Deinterleaved(Recombined(x, k, c), len, stride, false)
  {
    hide Pow2, Recombined, Deinterleaved, HasOrder, Order, Unorder, Length, Stride, Blocks;
    LowerStride(|x|, B, k);
    DivMod(|x|, B);
    NoneDivided(Recombined(x, k, c), |x| / B, B, c);
    if Blocks(|x|, B, k) > 1 { LayoutFits(|x|, B, k); }
  }

  lemma NoOrder(stride: nat, i: nat)
    requires i < stride
    ensures HasOrder(stride, false) && Order(stride, false, i) == i
  {
  }

  lemma LowerStride(n: nat, B: nat, k: nat)
    requires B > 0 && k > 0
    ensures B / Pow2(k) >= 0 && Blocks(n, B, k) == B / Pow2(k) && Stride(n, B, k) == B / Pow2(k) * Pow2(k)
    ensures TimeDivide(n, B, k) == 0 && Recombine(k) == k && n / B >= 0 && Length(n, B, k) == n / B
    ensures B / Pow2(k) > 1 ==> B != 1
  {
    assert Pow2(0) == 1;
    DivMod(n, B);
    DivMod(B, Pow2(k));
    assert Pow2(k) == 2 * Pow2(k - 1);
    if B == 1 { DivUnique(1, Pow2(k), 0, 1); }
  }
}
