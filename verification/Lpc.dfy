/** celt_lpc.c over the reals, with the fixed-point macros of the float build as identities:
    the Levinson-Durbin recursion and the unrolled recursive filter. */
module Lpc {
  /** c + a * b, as in arch.h. */
  function Mac(c: real, a: real, b: real): real {
    c + a * b
  }

  // ---- sums --------------------------------------------------------------------

  ghost function Sum(f: int -> real, n: nat): real {
    if n == 0 then 0.0 else Sum(f, n - 1) + f(n - 1)
  }

  lemma {:induction false} SumEqual(f: int -> real, g: int -> real, n: nat)
    requires forall j :: 0 <= j < n ==> f(j) == g(j)
    ensures Sum(f, n) == Sum(g, n)
  {
    if n > 0 { SumEqual(f, g, n - 1); }
  }

  lemma {:induction false} SumFront(f: int -> real, n: nat)
    ensures Sum(f, n + 1) == f(0) + Sum(j => f(j + 1), n)
  {
    if n > 0 { SumFront(f, n - 1); }
  }

  lemma {:induction false} SumReverse(f: int -> real, n: nat)
    ensures Sum(j => f(n - 1 - j), n) == Sum(f, n)
  {
    if n > 0 {
      var g := j => f(n - 1 - j);
      SumFront(g, n - 1);
      SumReverse(f, n - 1);
      SumEqual(j => g(j + 1), j => f(n - 2 - j), n - 1);
    }
  }

  lemma {:induction false} SumLinear(f: int -> real, g: int -> real, r: real, n: nat)
    ensures Sum(j => f(j) + r * g(j), n) == Sum(f, n) + r * Sum(g, n)
  {
    if n > 0 {
      var h := j => f(j) + r * g(j);
      SumLinear(f, g, r, n - 1);
      assert Sum(h, n) == Sum(h, n - 1) + h(n - 1);
      Regroup(Sum(f, n - 1), f(n - 1), r, Sum(g, n - 1), g(n - 1));
    }
  }

  lemma Regroup(a: real, b: real, r: real, x: real, y: real)
    ensures (a + r * x) + (b + r * y) == (a + b) + r * (x + y)
  {
    Distribute(r, x, y);
  }

  lemma Distribute(r: real, x: real, y: real)
    ensures r * (x + y) == r * x + r * y
  {
  }

  // ---- the normal equations ------------------------------------------------------

  function At(a: seq<real>, j: int): real {
    if 0 <= j < |a| then a[j] else 0.0
  }

  ghost function Dot(a: seq<real>, w: int -> real): real {
    Sum(j => At(a, j) * w(j), |a|)
  }

  function Mirror(w: int -> real, n: int): int -> real {
    j => w(n - 1 - j)
  }

  function Lag(m: int, j: int): nat {
    if m < j then j - m else m - j
  }

  /** Row m of the Toeplitz matrix of ac. */
  function RowOf(ac: seq<real>, m: int): int -> real {
    j => At(ac, Lag(m, j))
  }

  /** The right-hand side of the normal equations, up to sign. */
  function Shifted(ac: seq<real>): int -> real {
    j => At(ac, j + 1)
  }

  /** sum_j a[j] * ac[|m - j|] */
  ghost function Apply(a: seq<real>, ac: seq<real>, m: int): real {
    Dot(a, RowOf(ac, m))
  }

  /** a solves the normal equations of its order. */
  ghost predicate Solves(a: seq<real>, ac: seq<real>)
    requires |a| < |ac|
  {
    forall m :: 0 <= m < |a| ==> Apply(a, ac, m) == -ac[m + 1]
  }

  /** The prediction error ac[0] + sum_j a[j] * ac[j + 1]. */
  ghost function Residual(a: seq<real>, ac: seq<real>): real
    requires |a| < |ac|
  {
    ac[0] + Dot(a, Shifted(ac))
  }

  /** rr of iteration |a|: row |a| of the matrix, plus ac[|a| + 1]. */
  ghost function Correlation(a: seq<real>, ac: seq<real>): real
    requires |a| + 1 < |ac|
  {
    Apply(a, ac, |a|) + ac[|a| + 1]
  }

  /** The coefficients of the next order, given the reflection coefficient r. */
  function Extend(a: seq<real>, r: real): (b: seq<real>)
    ensures |b| == |a| + 1
  {
    seq(|a|, j requires 0 <= j < |a| => Mac(a[j], r, a[|a| - 1 - j])) + [r]
  }

  lemma DotEqual(a: seq<real>, v: int -> real, w: int -> real)
    requires forall j :: 0 <= j < |a| ==> v(j) == w(j)
    ensures Dot(a, v) == Dot(a, w)
  {
    SumEqual(j => At(a, j) * v(j), j => At(a, j) * w(j), |a|);
  }

  lemma DotReverse(a: seq<real>, w: int -> real)
    ensures Sum(j => At(a, |a| - 1 - j) * w(j), |a|) == Dot(a, Mirror(w, |a|))
  {
    var n := |a|;
    var h := j => At(a, j) * Mirror(w, n)(j);
    var g := j => At(a, n - 1 - j) * w(j);
    SumReverse(h, n);
    forall j | 0 <= j < n
      ensures h(n - 1 - j) == g(j)
    {
      assert Mirror(w, n)(n - 1 - j) == w(j);
    }
    SumEqual(j => h(n - 1 - j), g, n);
  }

  lemma ExtendDot(a: seq<real>, r: real, w: int -> real)
    ensures Dot(Extend(a, r), w) == Dot(a, w) + r * Dot(a, Mirror(w, |a|)) + r * w(|a|)
  {
    var n, b := |a|, Extend(a, r);
    var h := j => At(b, j) * w(j);
    ExtendTerms(a, r, w);
    assert Sum(h, n + 1) == Sum(h, n) + h(n);
  }

  lemma ExtendTerms(a: seq<real>, r: real, w: int -> real)
    ensures Sum(j => At(Extend(a, r), j) * w(j), |a|) == Dot(a, w) + r * Dot(a, Mirror(w, |a|))
  {
    hide Extend, At, Sum, Mirror;
    var n := |a|;
    var f, g := j => At(a, j) * w(j), j => At(a, n - 1 - j) * w(j);
    var h := j => At(Extend(a, r), j) * w(j);
    DotReverse(a, w);
    SumLinear(f, g, r, n);
    forall j | 0 <= j < n
      ensures h(j) == f(j) + r * g(j)
    {
      ExtendTerm(a, r, w, j);
    }
    SumEqual(h, j => f(j) + r * g(j), n);
  }

  lemma ExtendTerm(a: seq<real>, r: real, w: int -> real, j: nat)
    requires j < |a|
    ensures At(Extend(a, r), j) * w(j) == At(a, j) * w(j) + r * (At(a, |a| - 1 - j) * w(j))
  {
    Expand(a[j], r, a[|a| - 1 - j], w(j));
  }

  lemma Expand(x: real, r: real, y: real, w: real)
    ensures (x + r * y) * w == x * w + r * (y * w)
  {
    var z := r * y;
    Distribute(w, x, z);
    RealCommute(w, x + z);
    RealCommute(w, x);
    RealCommute(w, z);
    RealAssoc(r, y, w);
  }

  lemma RealCommute(x: real, y: real)
    ensures x * y == y * x
  {
  }

  lemma RealAssoc(x: real, y: real, z: real)
    ensures (x * y) * z == x * (y * z)
  {
  }

  lemma Cancel(r: real, y: real)
    ensures r * (-y) + r * y == 0.0
  {
    Distribute(r, -y, y);
  }

  /** The old rows: the correction is a multiple of a row of the reversed system. */
  lemma OldRow(a: seq<real>, ac: seq<real>, r: real, m: nat)
    requires m < |a| && |a| + 1 < |ac| && Solves(a, ac)
    ensures Apply(Extend(a, r), ac, m) == -ac[m + 1]
  {
    var n := |a|;
    ExtendDot(a, r, RowOf(ac, m));
    DotEqual(a, Mirror(RowOf(ac, m), n), RowOf(ac, n - 1 - m));
    var y := ac[n - m];
    var k := n - 1 - m;
    assert 0 <= k < n && Apply(a, ac, k) == -ac[k + 1] == -y;
    assert Apply(a, ac, m) == -ac[m + 1] && RowOf(ac, m)(n) == y;
    Cancel(r, y);
  }

  /** The new row. */
  lemma NewRow(a: seq<real>, ac: seq<real>, r: real)
    requires |a| + 1 < |ac|
    requires r * Residual(a, ac) == -Correlation(a, ac)
    ensures Apply(Extend(a, r), ac, |a|) == -ac[|a| + 1]
  {
    var n := |a|;
    ExtendDot(a, r, RowOf(ac, n));
    DotEqual(a, Mirror(RowOf(ac, n), n), Shifted(ac));
    Distribute(r, Dot(a, Shifted(ac)), ac[0]);
  }

  lemma NewResidual(a: seq<real>, ac: seq<real>, r: real)
    requires |a| + 1 < |ac|
    ensures Residual(Extend(a, r), ac) == Residual(a, ac) + r * Correlation(a, ac)
  {
    var n := |a|;
    ExtendDot(a, r, Shifted(ac));
    DotEqual(a, Mirror(Shifted(ac), n), RowOf(ac, n));
    Distribute(r, Dot(a, RowOf(ac, n)), ac[n + 1]);
  }

  /** One iteration of Levinson-Durbin solves the next larger system. */
  lemma LevinsonStep(a: seq<real>, ac: seq<real>, r: real, error: real)
    requires |a| + 1 < |ac| && Solves(a, ac)
    requires error == Residual(a, ac) != 0.0 && r == -(Correlation(a, ac) / error)
    ensures Solves(Extend(a, r), ac) && Residual(Extend(a, r), ac) == error - r * r * error
  {
    var c := Correlation(a, ac);
    Quotient(c, error, r);
    NewRow(a, ac, r);
    NewResidual(a, ac, r);
    forall m | 0 <= m < |a| + 1
      ensures Apply(Extend(a, r), ac, m) == -ac[m + 1]
    {
      if m < |a| { OldRow(a, ac, r, m); }
    }
  }

  lemma Quotient(c: real, e: real, r: real)
    requires e != 0.0 && r == -(c / e)
    ensures r * e == -c && r * c == -(r * r * e)
  {
    assert (c / e) * e == c;
    assert r * (r * e) == r * r * e;
  }

  // ---- Levinson-Durbin in place ------------------------------------------------------

  /** j pairs are updated, from the ends inwards; the rest of a is still there. */
  ghost predicate Halfway(s: seq<real>, a: seq<real>, r: real, j: nat) {
    && |s| == |a| + 1 && s[|a|] == r && j <= (|a| + 1) / 2
    && (forall k :: 0 <= k < j || |a| - j <= k < |a| ==> s[k] == Mac(a[k], r, a[|a| - 1 - k]))
    && forall k :: j <= k < |a| - j ==> s[k] == a[k]
  }

  lemma HalfwayStep(s: seq<real>, a: seq<real>, r: real, j: nat)
    requires Halfway(s, a, r, j) && j < (|a| + 1) / 2
    ensures var q := |a| - 1 - j;
      0 <= q < |s| && Halfway(s[j := Mac(s[j], r, s[q])][q := Mac(s[q], r, s[j])], a, r, j + 1)
  {
    hide Mac;
  }

  /** The inner loop: both ends of lpc[..i] are updated towards the middle. */
  method Reflect(lpc: array<real>, i: nat, r: real)
    requires i < lpc.Length
    modifies lpc
    ensures lpc[..i + 1] == Extend(old(lpc[..i]), r)
    ensures forall k :: i < k < lpc.Length ==> lpc[k] == old(lpc[k])
  {
    hide Mac, Halfway;
    ghost var a := lpc[..i];
    lpc[i] := r;
    HalfwayStart(lpc[..i + 1], a, r);
    var j := 0;
    while j < (i + 1) / 2
      invariant 0 <= j <= (i + 1) / 2 && Halfway(lpc[..i + 1], a, r, j)
      invariant forall k :: i < k < lpc.Length ==> lpc[k] == old(lpc[k])
    {
      ghost var s := lpc[..i + 1];
      HalfwayStep(s, a, r, j);
      var tmp1, tmp2 := lpc[j], lpc[i - 1 - j];
      lpc[j] := Mac(tmp1, r, tmp2);
      lpc[i - 1 - j] := Mac(tmp2, r, tmp1);
      assert lpc[..i + 1] == s[j := Mac(tmp1, r, tmp2)][i - 1 - j := Mac(tmp2, r, tmp1)];
      j := j + 1;
    }
    HalfwayEnd(lpc[..i + 1], a, r, j);
  }

  lemma HalfwayStart(s: seq<real>, a: seq<real>, r: real)
    requires s == a + [r]
    ensures Halfway(s, a, r, 0)
  {
  }

  lemma HalfwayEnd(s: seq<real>, a: seq<real>, r: real, j: nat)
    requires Halfway(s, a, r, j) && j == (|a| + 1) / 2
    ensures s == Extend(a, r)
  {
    hide Mac;
  }

  /** The coefficients of order n, one reflection after another. */
  ghost function Levinson(ac: seq<real>, n: nat): (a: seq<real>)
    requires n < |ac|
    ensures |a| == n
  {
    if n == 0 then []
    else
      var a := Levinson(ac, n - 1);
      Extend(a, if Residual(a, ac) == 0.0 then 0.0 else -(Correlation(a, ac) / Residual(a, ac)))
  }

  /** As long as no error vanishes, every order solves its normal equations. */
  lemma {:induction false} LevinsonSolves(ac: seq<real>, n: nat)
    requires n < |ac| && forall s: nat :: s < n ==> Residual(Levinson(ac, s), ac) != 0.0
    ensures Solves(Levinson(ac, n), ac)
    ensures n > 0 ==> var a := Levinson(ac, n - 1);
      var r := Correlation(a, ac) / Residual(a, ac);
      Residual(Levinson(ac, n), ac) == Residual(a, ac) - r * r * Residual(a, ac)
  {
    hide Solves, Residual, Correlation, Extend;
    if n == 0 {
      EmptySolves(ac);
    } else {
      var a := Levinson(ac, n - 1);
      LevinsonSolves(ac, n - 1);
      var c, e := Correlation(a, ac), Residual(a, ac);
      LevinsonStep(a, ac, -(c / e), e);
    }
  }

  /** _celt_lpc: the first order t at which the gain exceeds 30 dB, or the last one, is reached; its
      coefficients solve the normal equations and the others are zero. The test keeps every division
      defined. */
  method CeltLpc(lpc: array<real>, ac: seq<real>) returns (ghost t: nat)
    requires |ac| == lpc.Length + 1 && ac[0] >= 0.0
    modifies lpc
    ensures t <= lpc.Length && lpc[..t] == Levinson(ac, t) && Solves(lpc[..t], ac)
    ensures forall k :: t <= k < lpc.Length ==> lpc[k] == 0.0
    ensures ac[0] == 0.0 ==> t == 0
    ensures ac[0] > 0.0 ==>
      && (forall s: nat :: s < t ==> 1000.0 * Residual(Levinson(ac, s), ac) >= ac[0])
      && (t < lpc.Length ==> 1000.0 * Residual(lpc[..t], ac) < ac[0])
  {
    hide Correlation, Residual, Solves, Extend;
    var p := lpc.Length;
    forall k | 0 <= k < p { lpc[k] := 0.0; }
    t := 0;
    EmptySolves(ac);
    assert lpc[..0] == [];
    if ac[0] != 0.0 {
      var error := ac[0];
      var i := 0;
      while i < p
        invariant 0 <= i <= p && t == i
        invariant lpc[..i] == Levinson(ac, i) && Solves(lpc[..i], ac)
        invariant error == Residual(lpc[..i], ac) >= 0.001 * ac[0]
        invariant forall k :: i <= k < p ==> lpc[k] == 0.0
        invariant forall s: nat :: s <= i ==> 1000.0 * Residual(Levinson(ac, s), ac) >= ac[0]
      {
        ghost var a := lpc[..i];
        var rr := InnerProduct(lpc, ac, i);
        rr := rr + ac[i + 1];
        CorrelationIs(a, ac, rr);
        var r := -(rr / error);
        LevinsonStep(a, ac, r, error);
        Reflect(lpc, i, r);
        error := error - r * r * error;
        i := i + 1;
        t := i;
        if error < 0.001 * ac[0] { break; }
      }
    }
  }

  lemma CorrelationIs(a: seq<real>, ac: seq<real>, rr: real)
    requires |a| + 1 < |ac| && rr == Apply(a, ac, |a|) + ac[|a| + 1]
    ensures rr == Correlation(a, ac)
  {
  }

  lemma EmptySolves(ac: seq<real>)
    requires |ac| > 0
    ensures Solves([], ac) && Residual([], ac) == ac[0]
  {
  }

  method InnerProduct(lpc: array<real>, ac: seq<real>, i: nat) returns (rr: real)
    requires i < lpc.Length && |ac| == lpc.Length + 1
    ensures rr == Apply(lpc[..i], ac, i)
  {
    rr := 0.0;
    var a := lpc[..i];
    var j := 0;
    ghost var f := k => At(a, k) * RowOf(ac, i)(k);
    while j < i
      invariant 0 <= j <= i && rr == Sum(f, j)
    {
      assert RowOf(ac, i)(j) == ac[i - j];
      assert f(j) == lpc[j] * ac[i - j];
      rr := rr + lpc[j] * ac[i - j];
      j := j + 1;
    }
  }
}
