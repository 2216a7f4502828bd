/** How many bits a coder has used: ec_tell and the two forms of ec_tell_frac (entcode.c, entcode.h),
    and ec_ilog. */
module Tell {
  import opened Arith
  import opened Bits
  import opened IntervalCoder

  const BITRES: nat := 3

  // ---- powers ----------------------------------------------------------------------

  function Power(x: nat, n: nat): nat {
    if n == 0 then 1 else x * Power(x, n - 1)
  }

  lemma {:induction false} PowerAdd(x: nat, a: nat, b: nat)
    ensures Power(x, a + b) == Power(x, a) * Power(x, b)
  {
    if a > 0 {
      PowerAdd(x, a - 1, b);
      MulAssoc(x, Power(x, a - 1), Power(x, b));
    }
  }

  lemma Rearrange(x: nat, y: nat, p: nat, q: nat)
    ensures x * y * (p * q) == (x * p) * (y * q)
  {
    MulAssoc(x * y, p, q);
    MulAssoc(x, y, p);
    MulCommute(y, p);
    MulAssoc(x, p, y);
    MulAssoc(x * p, y, q);
  }

  lemma {:induction false} PowerMul(x: nat, y: nat, n: nat)
    ensures x * y >= 0 && Power(x * y, n) == Power(x, n) * Power(y, n)
  {
    MulLe(0, x, y);
    if n > 0 {
      PowerMul(x, y, n - 1);
      Rearrange(x, y, Power(x, n - 1), Power(y, n - 1));
    }
  }

  lemma {:induction false} PowerMonotone(x: nat, y: nat, n: nat)
    requires x <= y
    ensures Power(x, n) <= Power(y, n)
  {
    if n > 0 {
      PowerMonotone(x, y, n - 1);
      MulLe(x, y, Power(x, n - 1));
      MulLe(Power(x, n - 1), Power(y, n - 1), y);
      MulCommute(y, Power(x, n - 1));
      MulCommute(y, Power(y, n - 1));
    }
  }

  lemma {:induction false} PowerOfPow2(k: nat, n: nat)
    ensures k * n >= 0 && Power(Pow2(k), n) == Pow2(k * n)
  {
    MulLe(0, n, k);
    MulCommute(k, n);
    if n == 0 {
      assert k * n == 0;
    } else {
      PowerOfPow2(k, n - 1);
      MulSub(k, n, 1);
      Pow2Add(k, k * (n - 1));
    }
  }

  /** x to the power of 2^(n + 1) is x squared to the power of 2^n. */
  lemma PowerSquare(x: nat, n: nat)
    ensures Power(x, Pow2(n + 1)) == Power(x * x, Pow2(n))
  {
    PowerAdd(x, Pow2(n), Pow2(n));
    PowerMul(x, x, Pow2(n));
  }

  // ---- the logarithm in eighths of a bit ------------------------------------------------

  predicate Leading(r: nat) {
    0x8000 <= r < 0x1_0000
  }

  function Square(r: nat): (w: nat)
    ensures Leading(r) ==> 0x8000 <= w < 0x2_0000 && r * r < 0x1_0000_0000
  {
    SquareRange(r);
    r * r / 0x8000
  }

  lemma SquareRange(r: nat)
    ensures r * r >= 0
    ensures Leading(r) ==> 0x8000 <= r * r / 0x8000 < 0x2_0000 && r * r < 0x1_0000_0000
  {
    MulLe(0, r, r);
    if Leading(r) {
      MulLe(0x8000, r, 0x8000);
      MulLe(0x8000, r, r);
      MulLe(r, 0xFFFF, r);
      MulLe(r, 0xFFFF, 0xFFFF);
    }
  }

  /** The bit one squaring yields, and what is left to square. */
  function Bit(r: nat): (b: nat)
    ensures b <= 1
  {
    High(Square(r))
  }

  function Rest(r: nat): (v: nat)
    ensures Leading(r) ==> Leading(v)
  {
    Halved(Square(r))
  }

  /** The n bits of the binary logarithm of r / 2^15 that repeated squaring finds. */
  function SquaredLog(r: nat, n: nat): nat
    decreases n
  {
    if n == 0 then 0 else (if Bit(r) == 1 then Pow2(n - 1) else 0) + SquaredLog(Rest(r), n - 1)
  }

  lemma {:induction false} SquaredLogBelow(r: nat, n: nat)
    requires Leading(r)
    ensures SquaredLog(r, n) < Pow2(n)
    decreases n
  {
    hide Leading, Bit, Rest;
    if n > 0 { SquaredLogBelow(Rest(r), n - 1); }
  }

  lemma BitMonotone(r: nat, s: nat)
    requires Leading(r) && Leading(s) && r <= s
    ensures Bit(r) <= Bit(s) && (Bit(r) == Bit(s) ==> Rest(r) <= Rest(s))
  {
    MulLe(r, s, r);
    MulLe(r, s, s);
    MulCommute(r, s);
    SquareRange(r);
    SquareRange(s);
    DivMonotone(r * r, s * s, 0x8000);
  }

  lemma {:induction false} SquaredLogMonotone(r: nat, s: nat, n: nat)
    requires Leading(r) && Leading(s) && r <= s
    ensures SquaredLog(r, n) <= SquaredLog(s, n)
    decreases n
  {
    hide Leading, Bit, Rest;
    if n > 0 {
      BitMonotone(r, s);
      if Bit(r) == Bit(s) {
        SquaredLogMonotone(Rest(r), Rest(s), n - 1);
      } else {
        SquaredLogBelow(Rest(r), n - 1);
      }
    }
  }

  lemma RestUnder(r: nat)
    requires Leading(r)
    ensures 0 <= Rest(r) * Pow2(15 + Bit(r)) <= r * r
  {
    assert Pow2(15) == 0x8000 && Pow2(16) == 0x1_0000;
    SquareRange(r);
    DivMod(r * r, 0x8000);
    var w := Square(r);
    assert w >= 0x1_0000 ==> w / 2 * 0x1_0000 <= w * 0x8000;
  }

  lemma SquaredLogUnderBase(r: nat)
    requires Leading(r)
    ensures Power(r, Pow2(0)) >= Pow2(15 * Pow2(0) + SquaredLog(r, 0))
  {
    assert Power(r, 1) == r * Power(r, 0);
    assert Pow2(15) == 0x8000;
  }

  /** Rounding is always down: r / 2^15 is at least 2 to the logarithm found. */
  lemma {:induction false} SquaredLogUnder(r: nat, n: nat)
    requires Leading(r)
    ensures Power(r, Pow2(n)) >= Pow2(15 * Pow2(n) + SquaredLog(r, n))
    decreases n
  {
    hide Leading, Bit, Rest, Power, Pow2;
    if n == 0 {
      SquaredLogUnderBase(r);
    } else {
      SquaredLogUnder(Rest(r), n - 1);
      RestUnder(r);
      OneSquaring(r, Bit(r), Rest(r), n - 1, SquaredLog(Rest(r), n - 1));
    }
  }

  /** One squaring: r squared is at least v * 2^(15 + b). */
  lemma OneSquaring(r: nat, b: nat, v: nat, k: nat, u: nat)
    requires b <= 1 && 0 <= v * Pow2(15 + b) <= r * r && Power(v, Pow2(k)) >= Pow2(15 * Pow2(k) + u)
    ensures Power(r, Pow2(k + 1)) >= Pow2(15 * Pow2(k + 1) + ((if b == 1 then Pow2(k) else 0) + u))
  {
    PowerSquare(r, k);
    hide Power;
    var m := Pow2(k);
    assert Pow2(k + 1) == 2 * m;
    hide Pow2;
    PowerMonotone(v * Pow2(15 + b), r * r, m);
    PowerMul(v, Pow2(15 + b), m);
    PowerOfPow2(15 + b, m);
    Combine(Power(v, m), 15 * m + u, (15 + b) * m);
    MulDist(m, 15, b);
  }

  lemma Combine(p: nat, a: nat, b: nat)
    requires p >= Pow2(a)
    ensures p * Pow2(b) >= Pow2(a + b)
  {
    MulLe(Pow2(a), p, Pow2(b));
    Pow2Add(a, b);
  }

  // ---- ec_tell_frac -----------------------------------------------------------------------

  function Correction(b: nat): nat
    requires b < 8
  {
    [35733, 38967, 42495, 46340, 50535, 55109, 60097, 65535][b]
  }

  /** The table form: a linear guess and one comparison. */
  function TableLog(r: nat): nat
    requires Leading(r)
  {
    var b := r / 0x1000 - 8;
    b + if r > Correction(b) then 1 else 0
  }

  /** w, w1 and w2 are the three squares in turn. */
  lemma Squarings(r: nat, w: nat, w1: nat, w2: nat)
    requires Leading(r) && Leading(Halved(w)) && Leading(Halved(w1))
    requires w == r * r / 0x8000
    requires w1 == Halved(w) * Halved(w) / 0x8000
    requires w2 == Halved(w1) * Halved(w1) / 0x8000
    ensures SquaredLog(r, BITRES) == 4 * High(w) + 2 * High(w1) + High(w2)
  {
    assert Rest(r) == Halved(w) && Rest(Rest(r)) == Halved(w1);
    assert Bit(r) == High(w) && Bit(Rest(r)) == High(w1) && Bit(Rest(Rest(r))) == High(w2);
    hide Bit, Rest, Halved, High, Leading, Square;
    assert Pow2(2) == 4 && Pow2(1) == 2 && Pow2(0) == 1;
    assert SquaredLog(Rest(Rest(Rest(r))), 0) == 0;
  }

  /** The leading bit of a 17-bit number. */
  function High(w: nat): (b: nat)
    ensures b <= 1
  {
    if w >= 0x1_0000 then 1 else 0
  }

  function Halved(w: nat): nat {
    if w >= 0x1_0000 then w / 2 else w
  }

  /** Around each threshold of the table the squarings agree with it. */
  lemma Thresholds(k: nat)
    requires k < 7
    ensures Leading(Correction(k)) && Leading(Correction(k) + 1)
    ensures SquaredLog(Correction(k), BITRES) == k && SquaredLog(Correction(k) + 1, BITRES) == k + 1
  {
    hide SquaredLog;
    match k
    case 0 => Squarings(35733, 38966, 46336, 65522); Squarings(35734, 38968, 46341, 65536);
    case 1 => Squarings(38967, 46338, 65527, 131036); Squarings(38968, 46341, 65536, 32768);
    case 2 => Squarings(42495, 55109, 92681, 65533); Squarings(42496, 55112, 92692, 65550);
    case 3 => Squarings(46340, 65533, 131060, 131048); Squarings(46341, 65536, 32768, 32768);
    case 4 => Squarings(50535, 77935, 46338, 65527); Squarings(50536, 77938, 46343, 65541);
    case 5 => Squarings(55109, 92681, 65533, 131060); Squarings(55110, 92685, 65538, 32770);
    case 6 => Squarings(60097, 110218, 92681, 65533); Squarings(60098, 110222, 92688, 65544);
  }

  lemma TableBounds(r: nat)
    requires Leading(r)
    ensures var t := TableLog(r); t < 8 && (t > 0 ==> r > Correction(t - 1)) && (t < 7 ==> r <= Correction(t))
  {
    var b := r / 0x1000 - 8;
    assert 0x1000 * (b + 8) <= r < 0x1000 * (b + 9);
    assert b > 0 ==> Correction(b - 1) < 0x1000 * (b + 8);
    assert b < 7 ==> 0x1000 * (b + 9) <= Correction(b + 1);
    assert r <= 0xFFFF == Correction(7);
  }

  /** The table form finds exactly what the three squarings find. */
  lemma TableIsSquared(r: nat)
    requires Leading(r)
    ensures TableLog(r) == SquaredLog(r, BITRES) < 8
  {
    hide TableLog, SquaredLog, Correction, Leading, Pow2;
    TableBounds(r);
    var t := TableLog(r);
    if t > 0 {
      Thresholds(t - 1);
      SquaredLogMonotone(Correction(t - 1) + 1, r, BITRES);
    }
    if t < 7 {
      Thresholds(t);
      SquaredLogMonotone(r, Correction(t), BITRES);
    }
    SquaredLogBelow(r, BITRES);
    Pow2Of3();
  }

  // ---- any range ------------------------------------------------------------------------------

  /** The leading 16 bits of a range of at least as many. */
  function Top(rng: nat): (r: nat)
    requires rng >= 0x8000
    ensures Leading(r) && Ilog(rng) >= 16
  {
    TopRange(rng);
    Shr(rng, Ilog(rng) - 16)
  }

  lemma Pow2Of15()
    ensures Pow2(15) == 0x8000 && Pow2(16) == 0x1_0000
  {
    Pow2Values();
  }

  lemma TopRange(rng: nat)
    requires rng >= 0x8000
    ensures Ilog(rng) >= 16 && Leading(Shr(rng, Ilog(rng) - 16))
  {
    hide Ilog, Pow2;
    var l := Ilog(rng);
    IlogBounds(rng);
    Pow2Of15();
    if l < 16 { Pow2Monotone(l, 15); }
    Pow2Add(l - 16, 15);
    Pow2Add(l - 16, 16);
    var w := Pow2(l - 16);
    assert 0x8000 * w == w * 0x8000 && 0x1_0000 * w == w * 0x1_0000;
    DivLessIff(rng, w, 0x8000);
    DivLessIff(rng, w, 0x1_0000);
  }

  /** The logarithm of rng in eighths, plus one bit: the final l of ec_tell_frac. */
  function Log8(rng: nat): nat
    requires rng >= 0x8000
  {
    8 * Ilog(rng) + TableLog(Top(rng))
  }

  /** ec_tell_frac, table form. */
  function TellFrac(nbitsTotal: nat, rng: nat): int
    requires rng > EC_CODE_BOT
  {
    8 * nbitsTotal - Log8(rng)
  }

  lemma HighIs(r: nat, w: nat)
    requires Leading(r) && w == Square(r)
    ensures w / 0x1_0000 == High(w)
  {
  }

  /** ec_tell_frac, repeated squaring. */
  method TellFracBySquaring(nbitsTotal: nat, rng: nat) returns (tell: int)
    requires rng > EC_CODE_BOT
    ensures tell == TellFrac(nbitsTotal, rng)
  {
    hide Leading, TableLog, Shr, Ilog;
    TopRange(rng);
    TableIsSquared(Top(rng));
    var nbits := nbitsTotal * 8;
    var l := Ilog(rng);
    var r := Shr(rng, l - 16);
    ghost var l0, r0 := l, r;
    var i: nat := BITRES;
    Pow2Of3();
    while i > 0
      invariant i <= BITRES && Leading(r)
      invariant l * Pow2(i) + SquaredLog(r, i) == l0 * Pow2(BITRES) + SquaredLog(r0, BITRES)
    {
      i := i - 1;
      ghost var before := r;
      SquareRange(r);
      r := r * r / 0x8000;
      assert r == Square(before) && Bit(before) == High(r) && Rest(before) == Halved(r);
      var b := r / 0x1_0000;
      HighIs(before, r);
      assert l * Pow2(i + 1) == 2 * l * Pow2(i);
      MulDist(Pow2(i), 2 * l, b);
      l := 2 * l + b;
      r := if b == 1 then r / 2 else r;
    }
    assert Pow2(0) == 1;
    tell := nbits - l;
  }

  lemma Pow2Of3()
    ensures Pow2(BITRES) == 8
  {
    assert Pow2(3) == 8;
  }

  lemma ShrUnder(x: nat, k: nat)
    ensures 0 <= Shr(x, k) * Pow2(k) <= x
  {
    DivMod(x, Pow2(k));
    MulCommute(Shr(x, k), Pow2(k));
    MulLe(0, Shr(x, k), Pow2(k));
  }

  /** A range holds at least as many bits as ec_tell_frac takes it to hold: the count of used bits
      is never too low. */
  lemma NeverUnderReports(rng: nat)
    requires rng >= 0x8000
    ensures Log8(rng) >= 8 && Power(rng, 8) >= Pow2(Log8(rng) - 8)
  {
    hide Leading, TableLog, Ilog, Shr;
    var l, r := Ilog(rng), Top(rng);
    TableIsSquared(r);
    Pow2Of3();
    SquaredLogUnder(r, BITRES);
    var w := Pow2(l - 16);
    ShrUnder(rng, l - 16);
    PowerMonotone(r * w, rng, 8);
    PowerMul(r, w, 8);
    PowerOfPow2(l - 16, 8);
    Combine(Power(r, 8), 120 + TableLog(r), (l - 16) * 8);
  }

  lemma {:induction false} IlogMonotone(a: nat, b: nat)
    requires a <= b
    ensures Ilog(a) <= Ilog(b)
  {
    if a > 0 { IlogMonotone(a / 2, b / 2); }
  }

  lemma Log8Monotone(a: nat, b: nat)
    requires 0x8000 <= a <= b
    ensures Log8(a) <= Log8(b)
  {
    hide Leading, TableLog, Ilog;
    TableIsSquared(Top(a));
    TableIsSquared(Top(b));
    IlogMonotone(a, b);
    if Ilog(a) == Ilog(b) {
      DivMonotone(a, b, Pow2(Ilog(a) - 16));
      SquaredLogMonotone(Top(a), Top(b), BITRES);
    }
  }

  lemma IlogShift(x: nat, m: nat)
    requires x > 0
    ensures x * Pow2(m) > 0 && Ilog(x * Pow2(m)) == Ilog(x) + m
  {
    hide Ilog, Pow2;
    var l, w := Ilog(x), Pow2(m);
    IlogBounds(x);
    var lo, hi, y := Pow2(l - 1), Pow2(l), x * w;
    MulLe(1, x, w);
    MulLe(lo, x, w);
    MulLe(x + 1, hi, w);
    MulDist(w, x, 1);
    Pow2Add(l - 1, m);
    Pow2Add(l, m);
    IlogUnique(y, l + m - 1);
  }

  lemma Log8Shift(x: nat, m: nat)
    requires x >= 0x8000
    ensures x * Pow2(m) >= 0x8000 && Log8(x * Pow2(m)) == Log8(x) + 8 * m
  {
    hide Leading, TableLog, Ilog;
    var l, w := Ilog(x), Pow2(m);
    MulLe(1, w, x);
    MulCommute(x, w);
    IlogShift(x, m);
    TopRange(x);
    assert Shr(x * w, l + m - 16) == Shr(x, l - 16) by {
      Pow2Add(m, l - 16);
      DivDiv(x * w, w, Pow2(l - 16));
      DivUnique(x * w, w, x, 0);
    }
  }

  // ---- the coders only use up bits -----------------------------------------------------------

  lemma {:induction false} NormScales(rng: nat)
    requires 0 < rng <= EC_CODE_TOP
    ensures NormRng(rng) == rng * Pow2(8 * NormShifts(rng)) > EC_CODE_BOT
    decreases EC_CODE_TOP - rng
  {
    if rng <= EC_CODE_BOT {
      NormScales(256 * rng);
      var k := 8 * NormShifts(256 * rng);
      Pow2Add(8, k);
      assert Pow2(8) == 256;
      MulAssoc(rng, 256, Pow2(k));
    } else {
      assert Pow2(0) == 1;
    }
  }

  /** Narrowing a range to cut and normalising never lowers either count. */
  lemma CountsGrow(nbits: nat, rng: nat, cut: nat)
    requires EC_CODE_BOT < rng <= EC_CODE_TOP && 0 < cut <= rng
    ensures NormRng(cut) > EC_CODE_BOT
    ensures TellFrac(nbits, rng) <= TellFrac(nbits + 8 * NormShifts(cut), NormRng(cut))
    ensures nbits - Ilog(rng) <= nbits + 8 * NormShifts(cut) - Ilog(NormRng(cut))
  {
    hide Log8, Ilog, NormRng, NormShifts;
    NormScales(cut);
    var k := 8 * NormShifts(cut);
    MulLe(cut, rng, Pow2(k));
    Log8Shift(rng, k);
    IlogShift(rng, k);
    Log8Monotone(NormRng(cut), rng * Pow2(k));
    IlogMonotone(NormRng(cut), rng * Pow2(k));
  }

  /** ec_tell is ec_tell_frac rounded up. */
  lemma TellRoundsUp(nbits: nat, rng: nat)
    requires rng > EC_CODE_BOT
    ensures 8 * (nbits - Ilog(rng)) - 7 <= TellFrac(nbits, rng) <= 8 * (nbits - Ilog(rng))
  {
    TableIsSquared(Top(rng));
  }

  // ---- ec_ilog -------------------------------------------------------------------------------

  lemma {:induction false} IlogShr(v: nat, m: nat)
    requires v >= Pow2(m)
    ensures Ilog(v) == m + Ilog(Shr(v, m))
    decreases m
  {
    if m > 0 {
      IlogShr(v / 2, m - 1);
      DivDiv(v, 2, Pow2(m - 1));
    } else {
      assert Pow2(0) == 1;
    }
  }

  /** v & mask, where the mask has the bits of v from m up, and then v >>= m, ret |= m. */
  method Halve(v: nat, ret: nat, m: nat) returns (v': nat, ret': nat)
    requires v > 0
    ensures v' > 0 && ret' + Ilog(v') == ret + Ilog(v)
    ensures v >= Pow2(m) ==> v' == Shr(v, m)
    ensures v < Pow2(m) ==> v' == v
  {
    v', ret' := v, ret;
    if v >= Pow2(m) {
      IlogShr(v, m);
      v', ret' := Shr(v, m), ret + m;
      DivMonotone(Pow2(m), v, Pow2(m));
      DivUnique(Pow2(m), Pow2(m), 1, 0);
    }
  }

  /** ec_ilog: the position of the leading bit by halving the word. */
  method EcIlog(v_: nat) returns (ret: nat)
    requires v_ < 0x1_0000_0000
    ensures ret == Ilog(v_)
  {
    assert Ilog(0) == 0;
    hide Ilog;
    if v_ == 0 { return 0; }
    Pow2Values();
    assert Pow2(4) == 16 && Pow2(2) == 4;
    var v;
    ret := 1;
    v, ret := Halve(v_, ret, 16);
    v, ret := Halve(v, ret, 8);
    v, ret := Halve(v, ret, 4);
    v, ret := Halve(v, ret, 2);
    assert v < 4;
    ret := ret + v / 2;
    IlogSmall(v);
  }

  lemma IlogSmall(v: nat)
    requires 1 <= v < 4
    ensures Ilog(v) == 1 + v / 2
  {
    assert Ilog(0) == 0 && Ilog(1) == 1;
  }
}
