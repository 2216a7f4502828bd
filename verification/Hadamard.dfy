/** The time-frequency changes of quant_band (bands.c) over the reals: Haar steps at several strides
    and the reordering of interleaved short blocks, applied before a band is quantised and undone
    after it. c stands for the factor sqrt(1/2). */
module Hadamard {
  import opened Arith
  import opened Bits

  // ---- one Haar step -------------------------------------------------------------

  function Block(p: nat, s: nat): nat
    requires s > 0
  {
    DivMod(p, s);
    p / s
  }

  /** Is p the first position of its pair? */
  predicate First(p: nat, s: nat)
    requires s > 0
  {
    Block(p, s) % 2 == 0
  }

  /** The other position of p's pair. */
  function Mate(p: nat, s: nat): (q: nat)
    requires s > 0
  {
    if First(p, s) then p + s else (DivMod(p, s); MulLe(1, p / s, s); p - s)
  }

  /** In a block of 2 * s the first s positions pair up with the last s; larger blocks that are
      made of whole blocks of 2 * s do not see the exchange. */
  lemma MateFacts(p: nat, s: nat)
    requires s > 0
    ensures Block(Mate(p, s), 2 * s) == Block(p, 2 * s)
    ensures Mate(Mate(p, s), s) == p && First(Mate(p, s), s) == !First(p, s)
  {
    DivMod(p, s);
    var e, w := p / s, p % s;
    DivDiv(p, s, 2);
    var e', q := if e % 2 == 0 then e + 1 else e - 1, Mate(p, s);
    MulDist(s, e, 1);
    MulSub(s, e, 1);
    DivUnique(q, s, e', w);
    DivDiv(q, s, 2);
  }

  lemma MateOuter(p: nat, s: nat, r: nat)
    requires s > 0 && r > 0
    ensures 2 * s * r > 0 && Block(Mate(p, s), 2 * s * r) == Block(p, 2 * s * r)
  {
    MateFacts(p, s);
    DivDiv(p, 2 * s, r);
    DivDiv(Mate(p, s), 2 * s, r);
  }

  lemma BlockBelow(p: nat, s: nat, h: nat)
    requires s > 0
    ensures Block(p, 2 * s) < h <==> p < 2 * s * h
  {
    DivLessIff(p, 2 * s, h);
  }

  /** Moving by a multiple of 2 * s keeps the place inside a pair of stride s. */
  lemma FirstKept(p: nat, s: nat, r: nat)
    requires s > 0 && r > 0
    ensures 2 * s * r > 0 && First(Mate(p, 2 * s * r), s) == First(p, s)
  {
    MulLe(1, r, 2 * s);
    var t := 2 * s * r;
    var q := Mate(p, t);
    DivMod(p, s);
    var e, w := p / s, p % s;
    var e' := if First(p, t) then e + 2 * r else e - 2 * r;
    MulAssoc(s, 2, r);
    MulDist(s, e, 2 * r);
    MulSub(s, e, 2 * r);
    assert q == s * e' + w;
    DivUnique(q, s, e', w);
  }

  lemma MatesCommute(p: nat, s: nat, r: nat)
    requires s > 0 && r > 0
    ensures 2 * s * r > 0
    ensures First(Mate(p, 2 * s * r), s) == First(p, s) && First(Mate(p, s), 2 * s * r) == First(p, 2 * s * r)
    ensures Mate(Mate(p, s), 2 * s * r) == Mate(Mate(p, 2 * s * r), s)
  {
    hide Block;
    MateOuter(p, s, r);
    FirstKept(p, s, r);
  }

  /** The places haar1 works on: h blocks of 2 * s. */
  predicate Fits(n: nat, s: nat, h: nat) {
    s > 0 && 2 * s * h <= n
  }

  lemma MateInside(p: nat, n: nat, s: nat, h: nat)
    requires Fits(n, s, h) && p < 2 * s * h
    ensures Mate(p, s) < 2 * s * h <= n
  {
    MateFacts(p, s);
    BlockBelow(p, s, h);
    BlockBelow(Mate(p, s), s, h);
  }

  /** One coordinate of haar1. */
  function HaarAt(x: seq<real>, s: nat, h: nat, c: real, p: nat): real
    requires Fits(|x|, s, h) && p < |x|
  {
    if p >= 2 * s * h then x[p]
    else
      MateInside(p, |x|, s, h);
      Turn(c, First(p, s), x[p], x[Mate(p, s)])
  }

  /** The sum for the first of a pair, the difference (first less second) for the second. */
  function Turn(c: real, first: bool, mine: real, other: real): real {
    if first then c * (mine + other) else c * (other - mine)
  }

  function Haar(x: seq<real>, s: nat, h: nat, c: real): (y: seq<real>)
    requires Fits(|x|, s, h)
    ensures |y| == |x|
  {
    seq(|x|, p requires 0 <= p < |x| => HaarAt(x, s, h, c, p))
  }

  lemma TurnPair(c: real, a: real, b: real)
    ensures Turn(c, true, a, b) == c * a + c * b && Turn(c, false, b, a) == c * a - c * b
  {
  }

  lemma TurnTwice(c: real, first: bool, a: real, b: real)
    requires 2.0 * c * c == 1.0
    ensures Turn(c, first, Turn(c, first, a, b), Turn(c, !first, b, a)) == a
  {
    assert c * (c * (a + b) + c * (a - b)) == (2.0 * c * c) * a;
  }

  lemma TurnsCommute(c: real, f: bool, g: bool, x: real, xs: real, xt: real, xst: real)
    ensures Turn(c, f, Turn(c, g, x, xt), Turn(c, g, xs, xst)) == Turn(c, g, Turn(c, f, x, xs), Turn(c, f, xt, xst))
  {
  }

  /** Doing the same step twice changes nothing. */
  lemma HaarInvolution(x: seq<real>, s: nat, h: nat, c: real)
    requires Fits(|x|, s, h) && 2.0 * c * c == 1.0
    ensures Haar(Haar(x, s, h, c), s, h, c) == x
  {
    hide Turn, Mate, First;
    var y := Haar(x, s, h, c);
    forall p | 0 <= p < |x|
      ensures HaarAt(y, s, h, c, p) == x[p]
    {
      if p < 2 * s * h {
        MateInside(p, |x|, s, h);
        MateFacts(p, s);
        TurnTwice(c, First(p, s), x[p], x[Mate(p, s)]);
      }
    }
  }

  /** Steps whose strides and ranges are nested commute. */
  lemma HaarsCommute(x: seq<real>, s: nat, h: nat, r: nat, g: nat, c: real)
    requires Fits(|x|, s, h) && r > 0 && Fits(|x|, 2 * s * r, g) && 2 * (2 * s * r) * g <= 2 * s * h
    ensures Haar(Haar(x, s, h, c), 2 * s * r, g, c) == Haar(Haar(x, 2 * s * r, g, c), s, h, c)
  {
    hide Turn, Mate, First;
    var t := 2 * s * r;
    var y, z := Haar(x, s, h, c), Haar(x, t, g, c);
    forall p | 0 <= p < |x|
      ensures HaarAt(y, t, g, c, p) == HaarAt(z, s, h, c, p)
    {
      if p < 2 * s * h {
        var ps := Mate(p, s);
        MateInside(p, |x|, s, h);
        SameSide(p, s, r, g);
        if p < 2 * t * g {
          var pt := Mate(p, t);
          MateInside(p, |x|, t, g);
          MateInside(ps, |x|, t, g);
          MateInside(pt, |x|, s, h);
          MatesCommute(p, s, r);
          TurnsCommute(c, First(p, s), First(p, t), x[p], x[ps], x[pt], x[Mate(ps, t)]);
        }
      }
    }
  }

  lemma SameSide(p: nat, s: nat, r: nat, g: nat)
    requires s > 0 && r > 0
    ensures Mate(p, s) < 2 * (2 * s * r) * g <==> p < 2 * (2 * s * r) * g
  {
    MateOuter(p, s, 2 * r);
    MulAssoc(2 * s, 2, r);
    assert 2 * s * (2 * r) == 2 * (2 * s * r);
    BlockBelow(p, 2 * s * r, g);
    BlockBelow(Mate(p, s), 2 * s * r, g);
  }

  /** Of the pair at p and q one becomes the sum and the other the difference, scaled: what they are is told
      by their own sum and difference. Nothing behind the last pair changes. */
  lemma HaarPair(x: seq<real>, s: nat, h: nat, c: real, i: nat, j: nat)
    requires Fits(|x|, s, h) && i < s && j < h
    ensures var y, p := Haar(x, s, h, c), 2 * s * j + i;
      && 0 <= p && p + s < 2 * s * h <= |x|
      && y[p] + y[p + s] == 2.0 * c * x[p]
      && y[p] - y[p + s] == 2.0 * c * x[p + s]
      && y[2 * s * h..] == x[2 * s * h..]
  {
    hide Mate, First, Turn;
    PairAt(s, i, j);
    DoneStep(2 * s * j + i, s, h, i, j);
    TurnPair(c, x[2 * s * j + i], x[2 * s * j + i + s]);
  }

  /** Is the pair of p among those already turned when the loops stand at (i, j)? */
  predicate Done(p: nat, s: nat, h: nat, i: nat, j: nat)
    requires s > 0
  {
    DivMod(p, s);
    p < 2 * s * h && (p % s < i || (p % s == i && Block(p, 2 * s) < j))
  }

  /** The pair the inner loop turns, in terms of positions. */
  lemma PairAt(s: nat, i: nat, j: nat)
    requires i < s
    ensures 0 <= 2 * s * j + i && s * (2 * j + 1) + i == 2 * s * j + i + s
    ensures First(2 * s * j + i, s) && Mate(2 * s * j + i, s) == 2 * s * j + i + s
    ensures !First(2 * s * j + i + s, s) && Mate(2 * s * j + i + s, s) == 2 * s * j + i
  {
    MulAssoc(s, 2, j);
    MulLe(0, j, 2 * s);
    DivUnique(2 * s * j + i, s, 2 * j, i);
    MateFacts(2 * s * j + i, s);
    MulDist(s, 2 * j, 1);
  }

  /** Exactly the pair at (i, j) becomes done there. */
  lemma DoneStep(p: nat, s: nat, h: nat, i: nat, j: nat)
    requires i < s && j < h
    ensures 0 <= 2 * s * j + i && 2 * s * j + i + s < 2 * s * h
    ensures Done(p, s, h, i, j + 1) <==> Done(p, s, h, i, j) || p == 2 * s * j + i || p == 2 * s * j + i + s
    ensures p == 2 * s * j + i || p == 2 * s * j + i + s ==> !Done(p, s, h, i, j)
  {
    MulLe(0, j, 2 * s);
    MulLe(j + 1, h, 2 * s);
    MulDist(2 * s, j, 1);
    MulAssoc(s, 2, j);
    DivMod(p, s);
    DivMod(p, 2 * s);
    DivDiv(p, s, 2);
    MulDist(s, 2 * j, 1);
    var e := p / s;
    assert e / 2 == j ==> e == 2 * j || e == 2 * j + 1;
    if p == 2 * s * j + i {
      DivUnique(p, s, 2 * j, i);
    } else if p == 2 * s * j + i + s {
      DivUnique(p, s, 2 * j + 1, i);
    }
  }

  lemma DoneEnds(p: nat, s: nat, h: nat, i: nat)
    requires i < s
    ensures Done(p, s, h, i + 1, 0) <==> Done(p, s, h, i, h)
    ensures !Done(p, s, h, 0, 0) && (Done(p, s, h, s, 0) <==> p < 2 * s * h)
  {
    DivMod(p, s);
    BlockBelow(p, s, h);
  }

  /** haar1: one step in place. */
  method Haar1(X: array<real>, N0: nat, stride: nat, c: real)
    requires Fits(X.Length, stride, N0 / 2)
    modifies X
    ensures X[..] == Haar(old(X[..]), stride, N0 / 2, c)
  {
    hide Turn, Mate, First, Done;
    var n0 := N0 / 2;
    ghost var x := X[..];
    ghost var y := Haar(x, stride, n0, c);
    forall p: nat | p < |x|
      ensures !Done(p, stride, n0, 0, 0)
    {
      DoneEnds(p, stride, n0, 0);
    }
    var i := 0;
    while i < stride
      invariant 0 <= i <= stride
      invariant forall p: nat :: p < |x| ==> X[p] == if Done(p, stride, n0, i, 0) then y[p] else x[p]
    {
      var j := 0;
      while j < n0
        invariant 0 <= j <= n0
        invariant forall p: nat :: p < |x| ==> X[p] == if Done(p, stride, n0, i, j) then y[p] else x[p]
      {
        ghost var before := X[..];
        PairAt(stride, i, j);
        DoneStep(2 * stride * j + i, stride, n0, i, j);
        DoneStep(2 * stride * j + i + stride, stride, n0, i, j);
        var p, q := stride * 2 * j + i, stride * (2 * j + 1) + i;
        assert X[p] == x[p] && X[q] == x[q];
        TurnPair(c, X[p], X[q]);
        var tmp1, tmp2 := c * X[p], c * X[q];
        X[p] := tmp1 + tmp2;
        X[q] := tmp1 - tmp2;
        assert X[p] == y[p] && X[q] == y[q];
        forall r: nat | r < |x|
          ensures X[r] == if Done(r, stride, n0, i, j + 1) then y[r] else x[r]
        {
          DoneStep(r, stride, n0, i, j);
          assert r != p && r != q ==> X[r] == before[r];
        }
        j := j + 1;
      }
      forall p: nat | p < |x|
        ensures X[p] == if Done(p, stride, n0, i + 1, 0) then y[p] else x[p]
      {
        DoneEnds(p, stride, n0, i);
      }
      i := i + 1;
    }
    forall p: nat | p < |x|
      ensures X[p] == y[p]
    {
      DoneEnds(p, stride, n0, 0);
    }
  }

  // ---- recombining: levels undone in the order they were applied -----------------------

  /** How many blocks of 2 << k there are in n. */
  function Pairs(n: nat, k: nat): nat {
    DivMod(n, Pow2(k + 1));
    n / Pow2(k + 1)
  }

  lemma LevelFits(n: nat, k: nat)
    ensures Fits(n, Pow2(k), Pairs(n, k))
  {
    DivMod(n, Pow2(k + 1));
    assert Pow2(k + 1) == 2 * Pow2(k);
  }

  lemma PairsIsShift(n: nat, k: nat)
    ensures n / Pow2(k) >= 0 && n / Pow2(k) / 2 == Pairs(n, k)
  {
    DivDiv(n, Pow2(k), 2);
  }

  /** A larger level does not reach further than a smaller one. */
  lemma LevelsNest(n: nat, j: nat, k: nat)
    requires j < k
    ensures Pow2(k) == 2 * Pow2(j) * Pow2(k - j - 1)
    ensures 2 * Pow2(k) * Pairs(n, k) <= 2 * Pow2(j) * Pairs(n, j)
  {
    var w, r := 2 * Pow2(j), Pow2(k - j);
    Pow2Add(j + 1, k - j - 1);
    Pow2Add(j + 1, k - j);
    DivDiv(n, w, r);
    DivMod(n / w, r);
    var g := n / w / r;
    MulAssoc(w, r, g);
    MulLe(r * g, n / w, w);
    MulCommute(w, r * g);
    MulCommute(w, n / w);
  }

  /** haar1(X, N >> k, 1 << k). */
  function Level(x: seq<real>, k: nat, c: real): (y: seq<real>)
    ensures |y| == |x|
  {
    LevelFits(|x|, k);
    Haar(x, Pow2(k), Pairs(|x|, k), c)
  }

  /** The first k levels, from stride 1 up. */
  ghost function Recombined(x: seq<real>, k: nat, c: real): (y: seq<real>)
    ensures |y| == |x|
  {
    if k == 0 then x else Level(Recombined(x, k - 1, c), k - 1, c)
  }

  lemma LevelInvolution(x: seq<real>, k: nat, c: real)
    requires 2.0 * c * c == 1.0
    ensures Level(Level(x, k, c), k, c) == x
  {
    LevelFits(|x|, k);
    HaarInvolution(x, Pow2(k), Pairs(|x|, k), c);
  }

  lemma LevelsCommute(x: seq<real>, j: nat, k: nat, c: real)
    requires j < k
    ensures Level(Level(x, j, c), k, c) == Level(Level(x, k, c), j, c)
  {
    hide Pow2, Pairs, Haar;
    LevelFits(|x|, j);
    LevelFits(|x|, k);
    LevelsNest(|x|, j, k);
    HaarsCommute(x, Pow2(j), Pairs(|x|, j), Pow2(k - j - 1), Pairs(|x|, k), c);
  }

  lemma {:induction false} LevelPasses(x: seq<real>, j: nat, k: nat, c: real)
    requires j <= k
    ensures Recombined(Level(x, k, c), j, c) == Level(Recombined(x, j, c), k, c)
  {
    hide Level;
    if j > 0 {
      LevelPasses(x, j - 1, k, c);
      LevelsCommute(Recombined(x, j - 1, c), j - 1, k, c);
    }
  }

  /** Applying the same levels again, in the same order, undoes them. */
  lemma {:induction false} RecombinedTwice(x: seq<real>, k: nat, c: real)
    requires 2.0 * c * c == 1.0
    ensures Recombined(Recombined(x, k, c), k, c) == x
  {
    hide Level;
    if k > 0 {
      var y := Recombined(x, k - 1, c);
      LevelPasses(y, k - 1, k - 1, c);
      LevelInvolution(Recombined(y, k - 1, c), k - 1, c);
      RecombinedTwice(x, k - 1, c);
    }
  }

  // ---- increasing the time resolution -----------------------------------------------------

  /** How often the block length can be halved when tf_change asks for -tf halvings. */
  function Halvings(nb: nat, tf: int): (t: nat)
    ensures t <= if tf < 0 then -tf else 0
    decreases if tf < 0 then -tf else 0
  {
    if nb % 2 == 0 && tf < 0 then 1 + Halvings(nb / 2, tf + 1) else 0
  }

  lemma {:induction false} HalvingsExact(nb: nat, tf: int, i: nat)
    requires i <= Halvings(nb, tf)
    ensures nb / Pow2(i) * Pow2(i) == nb
    ensures Halvings(nb, tf) == i + Halvings(nb / Pow2(i), tf + i)
    ensures i < Halvings(nb, tf) <==> (nb / Pow2(i)) % 2 == 0 && tf + i < 0
    decreases i
  {
    if i > 0 {
      HalvingsExact(nb / 2, tf + 1, i - 1);
      DivDiv(nb, 2, Pow2(i - 1));
      var q, w := nb / Pow2(i), Pow2(i - 1);
      assert q * (2 * w) == 2 * (q * w);
    }
  }

  lemma StageFits(n: nat, nb: nat, b: nat, i: nat)
    requires b > 0 && b * nb <= n
    ensures Fits(n, b * Pow2(i), Pairs(nb, i))
  {
    LevelFits(nb, i);
    var w, g := Pow2(i), Pairs(nb, i);
    MulLe(2 * w * g, nb, b);
    MulLe(1, w, b);
    MulAssoc(2 * w, g, b);
    assert 2 * (b * w) * g == 2 * w * g * b;
  }

  /** Turn i of the loop: stride b << i, blocks of nb >> i samples. */
  ghost function Stage(x: seq<real>, nb: nat, b: nat, i: nat, c: real): (y: seq<real>)
    requires b > 0 && b * nb <= |x|
    ensures |y| == |x|
  {
    StageFits(|x|, nb, b, i);
    Haar(x, b * Pow2(i), Pairs(nb, i), c)
  }

  lemma StageInvolution(x: seq<real>, nb: nat, b: nat, i: nat, c: real)
    requires b > 0 && b * nb <= |x| && 2.0 * c * c == 1.0
    ensures Stage(Stage(x, nb, b, i, c), nb, b, i, c) == x
  {
    StageFits(|x|, nb, b, i);
    HaarInvolution(x, b * Pow2(i), Pairs(nb, i), c);
  }

  ghost function Divided(x: seq<real>, nb: nat, b: nat, t: nat, c: real): (y: seq<real>)
    requires b > 0 && b * nb <= |x|
    ensures |y| == |x|
  {
    if t == 0 then x else Stage(Divided(x, nb, b, t - 1, c), nb, b, t - 1, c)
  }

  /** The stages undone from the last one down. */
  ghost function Undivided(y: seq<real>, nb: nat, b: nat, t: nat, c: real): (x: seq<real>)
    requires b > 0 && b * nb <= |y|
    ensures |x| == |y|
    decreases t
  {
    if t == 0 then y else Undivided(Stage(y, nb, b, t - 1, c), nb, b, t - 1, c)
  }

  lemma {:induction false} UndividedDivided(x: seq<real>, nb: nat, b: nat, t: nat, c: real)
    requires b > 0 && b * nb <= |x| && 2.0 * c * c == 1.0
    ensures Undivided(Divided(x, nb, b, t, c), nb, b, t, c) == x
  {
    hide Stage;
    if t > 0 {
      var y := Divided(x, nb, b, t - 1, c);
      StageInvolution(y, nb, b, t - 1, c);
      UndividedDivided(x, nb, b, t - 1, c);
    }
  }

  // ---- reordering the samples of short blocks -----------------------------------------------

  predicate HasOrder(stride: nat, hadamard: bool) {
    stride > 0 && (hadamard ==> stride == 2 || stride == 4 || stride == 8 || stride == 16)
  }

  /** ordery_table + stride - 2: its lines for 2, 4, 8 and 16 blocks. */
  function Order(stride: nat, hadamard: bool, i: nat): nat
    requires HasOrder(stride, hadamard) && i < stride
  {
    if !hadamard then i
    else if stride == 2 then [1, 0][i]
    else if stride == 4 then [3, 0, 2, 1][i]
    else if stride == 8 then [7, 0, 4, 3, 6, 1, 5, 2][i]
    else [15, 0, 8, 7, 12, 3, 11, 4, 14, 1, 9, 6, 13, 2, 10, 5][i]
  }

  /** The inverse of each line. */
  function Unorder(stride: nat, hadamard: bool, i: nat): nat
    requires HasOrder(stride, hadamard) && i < stride
  {
    if !hadamard then i
    else if stride == 2 then [1, 0][i]
    else if stride == 4 then [1, 3, 2, 0][i]
    else if stride == 8 then [1, 5, 7, 3, 2, 6, 4, 0][i]
    else [1, 9, 13, 5, 7, 15, 11, 3, 2, 10, 14, 6, 4, 12, 8, 0][i]
  }

  lemma Line16(i: nat)
    requires i < 16
    ensures Order(16, true, i) < 16 && Unorder(16, true, i) < 16
    ensures Unorder(16, true, Order(16, true, i)) == i && Order(16, true, Unorder(16, true, i)) == i
  {
  }

  /** Every line of the table is a permutation. */
  lemma OrderIsPermutation(stride: nat, hadamard: bool, i: nat)
    requires HasOrder(stride, hadamard) && i < stride
    ensures Order(stride, hadamard, i) < stride && Unorder(stride, hadamard, i) < stride
    ensures Unorder(stride, hadamard, Order(stride, hadamard, i)) == i
    ensures Order(stride, hadamard, Unorder(stride, hadamard, i)) == i
  {
    if hadamard && stride == 16 {
      hide Order, Unorder;
      Line16(i);
    }
  }

  lemma Place(n0: nat, stride: nat, j: nat, i: nat)
    requires j < n0 && i < stride
    ensures 0 <= j * stride + i < n0 * stride
    ensures (j * stride + i) / stride == j && (j * stride + i) % stride == i
  {
    MulCommute(j, stride);
    DivUnique(j * stride + i, stride, j, i);
    MulLe(j + 1, n0, stride);
    MulDist(stride, j, 1);
  }

  lemma PlaceOf(n0: nat, stride: nat, p: nat)
    requires stride > 0 && p < n0 * stride
    ensures 0 <= p / stride < n0 && 0 <= p % stride < stride && p == p / stride * stride + p % stride
  {
    DivMod(p, stride);
    MulCommute(n0, stride);
    DivLess(p, stride, n0);
  }

  function DeinterleavedAt(x: seq<real>, n0: nat, stride: nat, hadamard: bool, q: nat): real
    requires HasOrder(stride, hadamard) && n0 * stride <= |x| && q < |x|
  {
    if q >= n0 * stride then x[q]
    else
      MulCommute(n0, stride);
      MulLe(0, n0, stride);
      assert n0 > 0;
      PlaceOf(stride, n0, q);
      OrderIsPermutation(stride, hadamard, q / n0);
      Place(n0, stride, q % n0, Unorder(stride, hadamard, q / n0));
      x[q % n0 * stride + Unorder(stride, hadamard, q / n0)]
  }

  /** deinterleave_hadamard: block Order(i) collects every stride-th sample from i on. */
  ghost function Deinterleaved(x: seq<real>, n0: nat, stride: nat, hadamard: bool): (y: seq<real>)
    requires HasOrder(stride, hadamard) && n0 * stride <= |x|
    ensures |y| == |x|
  {
    seq(|x|, q requires 0 <= q < |x| => DeinterleavedAt(x, n0, stride, hadamard, q))
  }

  function InterleavedAt(y: seq<real>, n0: nat, stride: nat, hadamard: bool, p: nat): real
    requires HasOrder(stride, hadamard) && n0 * stride <= |y| && p < |y|
  {
    if p >= n0 * stride then y[p]
    else
      PlaceOf(n0, stride, p);
      OrderIsPermutation(stride, hadamard, p % stride);
      Place(stride, n0, Order(stride, hadamard, p % stride), p / stride);
      MulCommute(n0, stride);
      y[Order(stride, hadamard, p % stride) * n0 + p / stride]
  }

  /** interleave_hadamard. */
  ghost function Interleaved(y: seq<real>, n0: nat, stride: nat, hadamard: bool): (x: seq<real>)
    requires HasOrder(stride, hadamard) && n0 * stride <= |y|
    ensures |x| == |y|
  {
    seq(|y|, p requires 0 <= p < |y| => InterleavedAt(y, n0, stride, hadamard, p))
  }

  /** Place Order(i) * n0 + j of the one is place j * stride + i of the other. */
  lemma InterleavedPlaces(x: seq<real>, n0: nat, stride: nat, hadamard: bool, j: nat, i: nat)
    requires HasOrder(stride, hadamard) && n0 * stride <= |x| && j < n0 && i < stride
    ensures var p, q := j * stride + i, Order(stride, hadamard, i) * n0 + j;
      && 0 <= p < n0 * stride && 0 <= q < n0 * stride
      && Deinterleaved(x, n0, stride, hadamard)[q] == x[p]
      && Interleaved(x, n0, stride, hadamard)[p] == x[q]
  {
    hide Order, Unorder;
    Place(n0, stride, j, i);
    OrderIsPermutation(stride, hadamard, i);
    Place(stride, n0, Order(stride, hadamard, i), j);
    MulCommute(n0, stride);
  }

  lemma InterleavedBack(x: seq<real>, n0: nat, stride: nat, hadamard: bool)
    requires HasOrder(stride, hadamard) && n0 * stride <= |x|
    ensures Interleaved(Deinterleaved(x, n0, stride, hadamard), n0, stride, hadamard) == x
  {
    hide Order, Unorder;
    var y := Deinterleaved(x, n0, stride, hadamard);
    forall p | 0 <= p < |x|
      ensures Interleaved(y, n0, stride, hadamard)[p] == x[p]
    {
      if p < n0 * stride {
        PlaceOf(n0, stride, p);
        InterleavedPlaces(x, n0, stride, hadamard, p / stride, p % stride);
        InterleavedPlaces(y, n0, stride, hadamard, p / stride, p % stride);
      }
    }
  }

  lemma DeinterleavedBack(x: seq<real>, n0: nat, stride: nat, hadamard: bool)
    requires HasOrder(stride, hadamard) && n0 * stride <= |x|
    ensures Deinterleaved(Interleaved(x, n0, stride, hadamard), n0, stride, hadamard) == x
  {
    hide Order, Unorder;
    var z := Interleaved(x, n0, stride, hadamard);
    forall q | 0 <= q < |x|
      ensures Deinterleaved(z, n0, stride, hadamard)[q] == x[q]
    {
      if q < n0 * stride {
        MulCommute(n0, stride);
        MulLe(0, n0, stride);
        PlaceOf(stride, n0, q);
        OrderIsPermutation(stride, hadamard, q / n0);
        var i := Unorder(stride, hadamard, q / n0);
        InterleavedPlaces(x, n0, stride, hadamard, q % n0, i);
        InterleavedPlaces(z, n0, stride, hadamard, q % n0, i);
      }
    }
  }

  /** The two reorderings undo each other. */
  lemma InterleavedInverse(x: seq<real>, n0: nat, stride: nat, hadamard: bool)
    requires HasOrder(stride, hadamard) && n0 * stride <= |x|
    ensures Interleaved(Deinterleaved(x, n0, stride, hadamard), n0, stride, hadamard) == x
    ensures Deinterleaved(Interleaved(x, n0, stride, hadamard), n0, stride, hadamard) == x
  {
    hide Interleaved, Deinterleaved;
    InterleavedBack(x, n0, stride, hadamard);
    DeinterleavedBack(x, n0, stride, hadamard);
  }

  /** Is place q of the output written when the loops stand at (i, j)? */
  predicate Written(n0: nat, stride: nat, hadamard: bool, q: nat, i: nat, j: nat)
    requires HasOrder(stride, hadamard) && q < n0 * stride && n0 > 0
  {
    MulCommute(n0, stride);
    PlaceOf(stride, n0, q);
    var k := Unorder(stride, hadamard, q / n0);
    k < i || (k == i && q % n0 < j)
  }

  lemma WrittenStep(n0: nat, stride: nat, hadamard: bool, q: nat, i: nat, j: nat)
    requires HasOrder(stride, hadamard) && q < n0 * stride && i < stride && j < n0
    ensures Written(n0, stride, hadamard, q, i, j + 1) <==>
      Written(n0, stride, hadamard, q, i, j) || q == Order(stride, hadamard, i) * n0 + j
  {
    hide Order, Unorder;
    MulCommute(n0, stride);
    PlaceOf(stride, n0, q);
    OrderIsPermutation(stride, hadamard, q / n0);
    OrderIsPermutation(stride, hadamard, i);
    Place(stride, n0, Order(stride, hadamard, i), j);
  }

  lemma WrittenEnds(n0: nat, stride: nat, hadamard: bool, q: nat, i: nat)
    requires HasOrder(stride, hadamard) && q < n0 * stride && n0 > 0
    ensures Written(n0, stride, hadamard, q, i + 1, 0) <==> Written(n0, stride, hadamard, q, i, n0)
    ensures !Written(n0, stride, hadamard, q, 0, 0) && Written(n0, stride, hadamard, q, stride, 0)
  {
    MulCommute(n0, stride);
    PlaceOf(stride, n0, q);
    OrderIsPermutation(stride, hadamard, q / n0);
  }

  /** OPUS_COPY(X, tmp, N). */
  method CopyBack(X: array<real>, tmp: array<real>, ghost y: seq<real>)
    requires X != tmp && tmp.Length <= X.Length == |y|
    requires forall p: nat :: p < |y| ==> y[p] == if p < tmp.Length then tmp[p] else X[p]
    modifies X
    ensures X[..] == y
  {
    forall p | 0 <= p < tmp.Length { X[p] := tmp[p]; }
  }

  lemma RestKept(x: seq<real>, n0: nat, stride: nat, hadamard: bool)
    requires HasOrder(stride, hadamard) && n0 * stride <= |x|
    ensures forall p: nat :: n0 * stride <= p < |x| ==>
      Deinterleaved(x, n0, stride, hadamard)[p] == x[p] && Interleaved(x, n0, stride, hadamard)[p] == x[p]
  {
  }

  method DeinterleaveHadamard(X: array<real>, N0: nat, stride: nat, hadamard: bool)
    requires HasOrder(stride, hadamard) && N0 * stride <= X.Length
    modifies X
    ensures X[..] == Deinterleaved(old(X[..]), N0, stride, hadamard)
  {
    hide Order, Unorder, Written, Deinterleaved, Interleaved;
    MulLe(0, N0, stride);
    var N := N0 * stride;
    var tmp := new real[N];
    ghost var x := X[..];
    RestKept(x, N0, stride, hadamard);
    ghost var y := Deinterleaved(x, N0, stride, hadamard);
    if N0 == 0 {
      assert N == 0;
      assert X[..] == y;
      return;
    }
    forall q: nat | q < N
      ensures !Written(N0, stride, hadamard, q, 0, 0) && Written(N0, stride, hadamard, q, stride, 0)
    {
      WrittenEnds(N0, stride, hadamard, q, 0);
    }
    var i := 0;
    while i < stride
      invariant 0 <= i <= stride
      invariant X[..] == x
      invariant forall q: nat :: q < N && Written(N0, stride, hadamard, q, i, 0) ==> tmp[q] == y[q]
    {
      var j := 0;
      while j < N0
        invariant 0 <= j <= N0
        invariant X[..] == x
        invariant forall q: nat :: q < N && Written(N0, stride, hadamard, q, i, j) ==> tmp[q] == y[q]
      {
        InterleavedPlaces(x, N0, stride, hadamard, j, i);
        var at := Order(stride, hadamard, i) * N0 + j;
        tmp[at] := X[j * stride + i];
        assert tmp[at] == y[at];
        forall q: nat | q < N && Written(N0, stride, hadamard, q, i, j + 1)
          ensures tmp[q] == y[q]
        {
          WrittenStep(N0, stride, hadamard, q, i, j);
        }
        j := j + 1;
      }
      forall q: nat | q < N
        ensures Written(N0, stride, hadamard, q, i + 1, 0) <==> Written(N0, stride, hadamard, q, i, j)
      {
        WrittenEnds(N0, stride, hadamard, q, i);
      }
      i := i + 1;
    }
    CopyBack(X, tmp, y);
  }

  lemma InnerPlace(n0: nat, stride: nat, p: nat, i: nat, j: nat)
    requires i < stride && j < n0 && p < n0 * stride
    ensures 0 <= p / stride && 0 <= p % stride
    ensures p % stride == i && p / stride == j <==> p == j * stride + i
  {
    PlaceOf(n0, stride, p);
    Place(n0, stride, j, i);
  }

  method InterleaveHadamard(X: array<real>, N0: nat, stride: nat, hadamard: bool)
    requires HasOrder(stride, hadamard) && N0 * stride <= X.Length
    modifies X
    ensures X[..] == Interleaved(old(X[..]), N0, stride, hadamard)
  {
    hide Order, Unorder, Deinterleaved, Interleaved;
    MulLe(0, N0, stride);
    var N := N0 * stride;
    var tmp := new real[N];
    ghost var y := X[..];
    RestKept(y, N0, stride, hadamard);
    ghost var x := Interleaved(y, N0, stride, hadamard);
    var i := 0;
    while i < stride
      invariant 0 <= i <= stride
      invariant X[..] == y
      invariant forall p: nat :: p < N && p % stride < i ==> tmp[p] == x[p]
    {
      var j := 0;
      while j < N0
        invariant 0 <= j <= N0
        invariant X[..] == y
        invariant forall p: nat :: p < N && (p % stride < i || (p % stride == i && p / stride < j)) ==> tmp[p] == x[p]
      {
        InterleavedPlaces(y, N0, stride, hadamard, j, i);
        tmp[j * stride + i] := X[Order(stride, hadamard, i) * N0 + j];
        forall p: nat | p < N
          ensures 0 <= p / stride && 0 <= p % stride
          ensures p % stride == i && p / stride == j <==> p == j * stride + i
        {
          InnerPlace(N0, stride, p, i, j);
        }
        j := j + 1;
      }
      forall p: nat | p < N
        ensures p / stride < N0
      {
        PlaceOf(N0, stride, p);
      }
      i := i + 1;
    }
    forall p: nat | p < N
      ensures p % stride < stride
    {
      PlaceOf(N0, stride, p);
    }
    CopyBack(X, tmp, x);
  }

  // ---- quant_band -------------------------------------------------------------------------------

  /** A band of n samples in B short blocks. ordery_table has lines for at most 16 blocks. */
  ghost predicate ValidBand(n: nat, B: nat, tfChange: int) {
    B > 0 && (B == 1 ==> tfChange >= -4)
  }

  function Recombine(tfChange: int): nat {
    if tfChange > 0 then tfChange else 0
  }

  function TimeDivide(n: nat, B: nat, tfChange: int): nat
    requires B > 0
  {
    DivMod(n, B);
    if tfChange > 0 then 0 else Halvings(n / B, tfChange)
  }

  /** B0: the number of blocks once the resolution is changed. */
  function Blocks(n: nat, B: nat, tfChange: int): nat
    requires B > 0
  {
    DivMod(B, Pow2(Recombine(tfChange)));
    MulLe(0, B, Pow2(TimeDivide(n, B, tfChange)));
    B / Pow2(Recombine(tfChange)) * Pow2(TimeDivide(n, B, tfChange))
  }

  /** The stride and the block length of the reordering: B0 << recombine and N_B >> recombine. */
  function Stride(n: nat, B: nat, tfChange: int): nat
    requires B > 0
  {
    MulLe(0, Blocks(n, B, tfChange), Pow2(Recombine(tfChange)));
    Blocks(n, B, tfChange) * Pow2(Recombine(tfChange))
  }

  function Length(n: nat, B: nat, tfChange: int): nat
    requires B > 0
  {
    DivMod(n, B);
    DivMod(n / B, Pow2(TimeDivide(n, B, tfChange)));
    n / B / Pow2(TimeDivide(n, B, tfChange))
  }

  lemma HasOrderPow2(t: nat)
    requires t <= 4
    ensures Pow2(t) > 1 ==> HasOrder(Pow2(t), true)
  {
    assert Pow2(1) == 2 && Pow2(2) == 4 && Pow2(3) == 8 && Pow2(4) == 16;
  }

  lemma RecombinedFits(nb: nat, B: nat, r: nat)
    requires B > 0
    ensures B / Pow2(r) >= 0 && 0 <= nb * (B / Pow2(r) * Pow2(r)) <= B * nb
    ensures r > 0 && B == 1 ==> B / Pow2(r) == 0
  {
    var w := Pow2(r);
    DivMod(B, w);
    MulCommute(w, B / w);
    MulLe(0, B / w, w);
    MulLe(0, nb, B / w * w);
    MulLe(B / w * w, B, nb);
    MulCommute(nb, B / w * w);
    if r > 0 && B == 1 {
      assert w == 2 * Pow2(r - 1);
      DivUnique(B, w, 0, 1);
    }
  }

  lemma DividedFits(nb: nat, B: nat, tfChange: int)
    requires tfChange <= 0
    ensures var w := Pow2(Halvings(nb, tfChange)); nb / w * (B * w) == B * nb
  {
    var t := Halvings(nb, tfChange);
    var w := Pow2(t);
    HalvingsExact(nb, tfChange, t);
    MulSwap(nb / w, B, w);
  }

  lemma MulSwap(q: int, b: int, w: int)
    ensures q * (b * w) == b * (q * w)
  {
    MulAssoc(q, b, w);
    MulCommute(q, b);
    MulAssoc(b, q, w);
  }

  lemma LayoutFits(n: nat, B: nat, tfChange: int)
    requires ValidBand(n, B, tfChange) && Blocks(n, B, tfChange) > 1
    ensures HasOrder(Stride(n, B, tfChange), B == 1)
    ensures Length(n, B, tfChange) * Stride(n, B, tfChange) <= n
  {
    var nb := n / B;
    DivMod(n, B);
    if tfChange > 0 {
      RecombinedFits(nb, B, tfChange);
    } else {
      var t := TimeDivide(n, B, tfChange);
      DividedFits(nb, B, tfChange);
      HasOrderPow2(if t <= 4 then t else 0);
    }
  }

  /** What quant_partition is given. */
  ghost function Analysed(x: seq<real>, B: nat, tfChange: int, c: real): (y: seq<real>)
    requires ValidBand(|x|, B, tfChange)
    ensures |y| == |x|
  {
    var n := |x|;
    var recombined := Recombined(x, Recombine(tfChange), c);
    DivMod(n, B);
    var divided := Divided(recombined, n / B, B, TimeDivide(n, B, tfChange), c);
    if Blocks(n, B, tfChange) > 1 then
      LayoutFits(n, B, tfChange);
      Deinterleaved(divided, Length(n, B, tfChange), Stride(n, B, tfChange), B == 1)
    else divided
  }

  /** What resynthesis makes of the quantised band. */
  ghost function Synthesised(y: seq<real>, B: nat, tfChange: int, c: real): (x: seq<real>)
    requires ValidBand(|y|, B, tfChange)
    ensures |x| == |y|
  {
    var n := |y|;
    var ordered :=
      if Blocks(n, B, tfChange) > 1 then
        LayoutFits(n, B, tfChange);
        Interleaved(y, Length(n, B, tfChange), Stride(n, B, tfChange), B == 1)
      else y;
    DivMod(n, B);
    var undivided := Undivided(ordered, n / B, B, TimeDivide(n, B, tfChange), c);
    Recombined(undivided, Recombine(tfChange), c)
  }

  /** Resynthesis undoes the analysis, for every band, block count and change of resolution. */
  lemma SynthesisUndoesAnalysis(x: seq<real>, B: nat, tfChange: int, c: real)
    requires ValidBand(|x|, B, tfChange) && 2.0 * c * c == 1.0
    ensures Synthesised(Analysed(x, B, tfChange, c), B, tfChange, c) == x
  {
    hide Blocks, Stride, Length, Recombined, Divided, Undivided, TimeDivide, Recombine;
    var n, r, t := |x|, Recombine(tfChange), TimeDivide(|x|, B, tfChange);
    DivMod(n, B);
    var recombined := Recombined(x, r, c);
    var divided := Divided(recombined, n / B, B, t, c);
    if Blocks(n, B, tfChange) > 1 {
      LayoutFits(n, B, tfChange);
      InterleavedInverse(divided, Length(n, B, tfChange), Stride(n, B, tfChange), B == 1);
    }
    UndividedDivided(recombined, n / B, B, t, c);
    RecombinedTwice(x, r, c);
  }

  /** One turn of either loop over B and N_B is one stage. */
  lemma StageIsHaar(x: seq<real>, nb: nat, b: nat, i: nat, c: real)
    requires b > 0 && b * nb <= |x|
    ensures b * Pow2(i) > 0 && nb / Pow2(i) >= 0
    ensures Fits(|x|, b * Pow2(i), nb / Pow2(i) / 2)
    ensures Haar(x, b * Pow2(i), nb / Pow2(i) / 2, c) == Stage(x, nb, b, i, c)
  {
    StageFits(|x|, nb, b, i);
    PairsIsShift(nb, i);
  }

  lemma HalvingStep(nb: nat, b: nat, i: nat)
    ensures b * Pow2(i) * 2 == b * Pow2(i + 1) && nb / Pow2(i) >= 0 && nb / Pow2(i) / 2 == nb / Pow2(i + 1)
  {
    DivDiv(nb, Pow2(i), 2);
    assert b * (2 * Pow2(i)) == b * Pow2(i) * 2;
  }

  /** for (k=0;k<recombine;k++) haar1(X, N>>k, 1<<k): the same loop before and after quantising. */
  method RecombineLevels(X: array<real>, recombine: nat, c: real)
    modifies X
    ensures X[..] == Recombined(old(X[..]), recombine, c)
  {
    hide Pow2, Pairs, Haar, Fits;
    ghost var x := X[..];
    for k := 0 to recombine
      invariant X[..] == Recombined(x, k, c)
    {
      LevelFits(X.Length, k);
      PairsIsShift(X.Length, k);
      Haar1(X, X.Length / Pow2(k), Pow2(k), c);
    }
  }

  /** The loop that increases the time resolution. */
  method DivideTime(X: array<real>, B_: nat, N_B_: nat, tfChange_: int, c: real)
    returns (B: nat, N_B: nat, timeDivide: nat)
    requires tfChange_ < 0 ==> B_ > 0 && B_ * N_B_ <= X.Length
    modifies X
    ensures timeDivide == Halvings(N_B_, tfChange_) && B == B_ * Pow2(timeDivide)
    ensures N_B == N_B_ / Pow2(timeDivide) && N_B_ == N_B * Pow2(timeDivide)
    ensures tfChange_ >= 0 ==> X[..] == old(X[..])
    ensures tfChange_ < 0 ==> X[..] == Divided(old(X[..]), N_B_, B_, timeDivide, c)
  {
    hide Haar, Fits, Stage;
    ghost var x := X[..];
    var tfChange := tfChange_;
    B, N_B, timeDivide := B_, N_B_, 0;
    HalvingsExact(N_B_, tfChange_, 0);
    while N_B % 2 == 0 && tfChange < 0
      invariant timeDivide <= Halvings(N_B_, tfChange_) && tfChange == tfChange_ + timeDivide
      invariant B == B_ * Pow2(timeDivide) && N_B == N_B_ / Pow2(timeDivide) && N_B_ == N_B * Pow2(timeDivide)
      invariant N_B % 2 == 0 && tfChange < 0 <==> timeDivide < Halvings(N_B_, tfChange_)
      invariant tfChange_ >= 0 ==> X[..] == x
      invariant tfChange_ < 0 ==> X[..] == Divided(x, N_B_, B_, timeDivide, c)
      decreases -tfChange
    {
      StageIsHaar(X[..], N_B_, B_, timeDivide, c);
      Haar1(X, N_B, B, c);
      HalvingStep(N_B_, B_, timeDivide);
      B, N_B := B * 2, N_B / 2;
      timeDivide, tfChange := timeDivide + 1, tfChange + 1;
      HalvingsExact(N_B_, tfChange_, timeDivide);
    }
  }

  /** Undoing it, from the last turn back. */
  method UndoDivide(X: array<real>, B_: nat, N_B_: nat, timeDivide: nat, ghost b: nat, ghost nb: nat, c: real)
    requires b > 0 && b * nb <= X.Length && B_ == b * Pow2(timeDivide) && nb == N_B_ * Pow2(timeDivide)
    modifies X
    ensures X[..] == Undivided(old(X[..]), nb, b, timeDivide, c)
  {
    hide Haar, Fits, Stage;
    var B, N_B := B_, N_B_;
    var k := 0;
    while k < timeDivide
      invariant 0 <= k <= timeDivide
      invariant B == b * Pow2(timeDivide - k) && nb == N_B * Pow2(timeDivide - k)
      invariant Undivided(X[..], nb, b, timeDivide - k, c) == Undivided(old(X[..]), nb, b, timeDivide, c)
    {
      var i := timeDivide - k - 1;
      UndoStep(nb, b, i, B, N_B);
      B, N_B := B / 2, N_B * 2;
      StageIsHaar(X[..], nb, b, i, c);
      Haar1(X, N_B, B, c);
      k := k + 1;
    }
  }

  lemma UndoStep(nb: nat, b: nat, i: nat, B: nat, m: nat)
    requires B == b * Pow2(i + 1) && nb == m * Pow2(i + 1)
    ensures B / 2 == b * Pow2(i) && nb == m * 2 * Pow2(i) && nb / Pow2(i) == m * 2
  {
    assert b * (2 * Pow2(i)) == 2 * (b * Pow2(i));
    assert m * (2 * Pow2(i)) == m * 2 * Pow2(i);
    MulCommute(m * 2, Pow2(i));
    DivUnique(nb, Pow2(i), m * 2, 0);
  }

  lemma RecombinedLayout(n: nat, B: nat, r: nat)
    requires B > 0
    ensures n / B >= 0 && n / B * Pow2(r) >= 0 && n / B * Pow2(r) / Pow2(r) == n / B
  {
    DivMod(n, B);
    MulLe(0, n / B, Pow2(r));
    MulCommute(n / B, Pow2(r));
    DivUnique(n / B * Pow2(r), Pow2(r), n / B, 0);
  }

  lemma NoneDivided(x: seq<real>, nb: nat, b: nat, c: real)
    requires b > 0 && b * nb <= |x|
    ensures Divided(x, nb, b, 0, c) == x && Undivided(x, nb, b, 0, c) == x
  {
  }

  /** quant_band up to quant_partition. */
  method Analyse(X: array<real>, B_: nat, tfChange: int, c: real)
    returns (B0: nat, N_B0: nat, timeDivide: nat, recombine: nat)
    requires ValidBand(X.Length, B_, tfChange)
    modifies X
    ensures X[..] == Analysed(old(X[..]), B_, tfChange, c)
    ensures Handover(X.Length, B_, tfChange, B0, N_B0, timeDivide, recombine)
  {
    hide Recombined, Divided, Deinterleaved, HasOrder;
    var N := X.Length;
    DivMod(N, B_);
    MulCommute(N / B_, B_);
    var longBlocks, B, N_B := B_ == 1, B_, N / B_;
    recombine := 0;
    if tfChange > 0 { recombine := tfChange; }
    RecombineLevels(X, recombine, c);
    ghost var y := X[..];
    RecombinedLayout(N, B_, recombine);
    DivMod(B, Pow2(recombine));
    B, N_B := B / Pow2(recombine), N_B * Pow2(recombine);
    B, N_B, timeDivide := DivideTime(X, B, N_B, tfChange, c);
    NoneDivided(y, N / B_, B_, c);
    B0, N_B0 := B, N_B;
    MulLe(0, B0, Pow2(recombine));
    DivMod(N_B0, Pow2(recombine));
    if B0 > 1 {
      LayoutFits(N, B_, tfChange);
      DeinterleaveHadamard(X, N_B0 / Pow2(recombine), B0 * Pow2(recombine), longBlocks);
    }
  }

  /** The locals of quant_band that the resynthesis uses. */
  ghost predicate Handover(n: nat, B: nat, tfChange: int, B0: nat, N_B0: nat, timeDivide: nat, recombine: nat)
    requires B > 0
  {
    && recombine == Recombine(tfChange) && timeDivide == TimeDivide(n, B, tfChange)
    && B0 == Blocks(n, B, tfChange)
    && N_B0 * Pow2(timeDivide) == n / B * Pow2(recombine)
  }

  /** quant_band after quant_partition. */
  method Resynthesise(X: array<real>, B_: nat, ghost tfChange: int, B0: nat, N_B0: nat, timeDivide: nat,
                      recombine: nat, c: real)
    requires ValidBand(X.Length, B_, tfChange)
    requires Handover(X.Length, B_, tfChange, B0, N_B0, timeDivide, recombine)
    modifies X
    ensures X[..] == Synthesised(old(X[..]), B_, tfChange, c)
  {
    hide Recombined, Undivided, Interleaved, HasOrder;
    var N := X.Length;
    DivMod(N, B_);
    MulCommute(N / B_, B_);
    RecombinedLayout(N, B_, recombine);
    RecombinedLayout(N_B0, 1, timeDivide);
    if B0 > 1 {
      LayoutFits(N, B_, tfChange);
      InterleaveHadamard(X, N_B0 / Pow2(recombine), B0 * Pow2(recombine), B_ == 1);
    }
    ghost var y := X[..];
    if timeDivide > 0 {
      UndoDivide(X, B0, N_B0, timeDivide, B_, N / B_, c);
    }
    NoneDivided(y, N / B_, B_, c);
    RecombineLevels(X, recombine, c);
  }
}
