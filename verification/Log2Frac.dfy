/** log2_frac (cwrs.c): a binary logarithm with frac fractional bits that never comes out too low. */
module Log2Frac {
  import opened Arith
  import opened Bits
  import opened Tell

  /** The test for an exact power of two. */
  lemma {:induction false} PowerOfTwoTest(v: nat)
    requires v > 0
    ensures Ilog(v) >= 1 && (BitAnd(v, v - 1) == 0 <==> v == Pow2(Ilog(v) - 1))
  {
    if v == 1 {
      assert Ilog(1) == 1 + Ilog(0);
    } else if v % 2 == 1 {
      BitAndSelf(v / 2);
      assert (v - 1) / 2 == v / 2 && (v - 1) % 2 == 0;
      assert Ilog(v / 2) >= 1;
    } else {
      PowerOfTwoTest(v / 2);
      assert (v - 1) / 2 == v / 2 - 1;
      assert BitAnd(v, v - 1) == 2 * BitAnd(v / 2, v / 2 - 1);
    }
  }

  /** The 17-bit values of the loop. */
  predicate InLoop(v: nat) {
    0x8000 <= v < 0x1_FFFF
  }

  function Carry(v: nat): nat {
    v / 0x1_0000
  }

  /** (val + b) >> b, rounded up. */
  function Shrunk(v: nat): nat {
    if Carry(v) == 1 then (v + 1) / 2 else v
  }

  /** (val * val + 0x7FFF) >> 15: the square, rounded up. */
  function SquareUp(v: nat): nat {
    MulLe(0, v, v);
    (v * v + 0x7FFF) / 0x8000
  }

  /** The squaring fits 32 bits and the loop's values stay in range. */
  lemma LoopRange(v: nat)
    requires InLoop(v)
    ensures Carry(v) <= 1 && 0x8000 <= Shrunk(v) <= 0xFFFF
    ensures 0 <= Shrunk(v) * Shrunk(v) && Shrunk(v) * Shrunk(v) + 0x7FFF < 0x1_0000_0000
    ensures InLoop(SquareUp(Shrunk(v)))
  {
    var s := Shrunk(v);
    MulLe(0x8000, s, 0x8000);
    MulLe(0x8000, s, s);
    MulLe(s, 0xFFFF, s);
    MulLe(s, 0xFFFF, 0xFFFF);
  }

  /** What the loop adds to l, with the final rounding. */
  function UpLog(v: nat, frac: nat): nat
    decreases frac
  {
    var next := SquareUp(Shrunk(v));
    Carry(v) * Pow2(frac) + if frac == 0 then (if next > 0x8000 then 1 else 0) else UpLog(next, frac - 1)
  }

  lemma StepUp(v: nat)
    requires InLoop(v)
    ensures v <= Shrunk(v) * Pow2(Carry(v))
    ensures 0 <= Shrunk(v) * Shrunk(v) <= SquareUp(Shrunk(v)) * Pow2(15)
    ensures SquareUp(Shrunk(v)) <= 0x8000 ==> Shrunk(v) == 0x8000
  {
    LoopRange(v);
    Pow2Of15();
    assert Pow2(1) == 2;
    var s := Shrunk(v);
    if s > 0x8000 {
      MulLe(0x8001, s, s);
      MulLe(0x8001, s, 0x8001);
    }
  }

  lemma Pow2Next(k: nat)
    ensures Pow2(k + 1) == 2 * Pow2(k)
  {
  }

  lemma Bounded(x: nat, y: nat, k: nat, n: nat)
    requires x <= y * Pow2(k)
    ensures k * n >= 0 && Power(x, n) <= Power(y, n) * Pow2(k * n)
  {
    PowerMonotone(x, y * Pow2(k), n);
    PowerMul(y, Pow2(k), n);
    PowerOfPow2(k, n);
  }

  /** One turn of the loop: v is at most s * 2^b and s squared at most next * 2^15. */
  lemma OneTurn(v: nat, b: nat, s: nat, next: nat, k: nat, u: nat)
    requires v <= s * Pow2(b) && 0 <= s * s <= next * Pow2(15)
    requires Power(next, Pow2(k)) <= Pow2(15 * Pow2(k) + u)
    ensures b * Pow2(k + 1) >= 0 && Power(v, Pow2(k + 1)) <= Pow2(15 * Pow2(k + 1) + (b * Pow2(k + 1) + u))
  {
    hide Pow2, Power;
    var m, f := Pow2(k), Pow2(k + 1);
    Pow2Next(k);
    PowerSquare(s, k);
    Bounded(v, s, b, f);
    Bounded(s * s, next, 15, m);
    Chain(Power(next, m), 15 * m + u, 15 * m, Power(s, f), b * f);
  }

  /** v / 2^15 is at most 2 to the logarithm found. */
  lemma {:induction false} UpLogOver(v: nat, frac: nat)
    requires InLoop(v)
    ensures Power(v, Pow2(frac)) <= Pow2(15 * Pow2(frac) + UpLog(v, frac))
    decreases frac
  {
    hide InLoop, Carry, Shrunk, SquareUp, Pow2, Power;
    var b, s, next := Carry(v), Shrunk(v), SquareUp(Shrunk(v));
    LoopRange(v);
    StepUp(v);
    if frac == 0 {
      UpLogEnd(v, b, s, next);
    } else {
      UpLogOver(next, frac - 1);
      OneTurn(v, b, s, next, frac - 1, UpLog(next, frac - 1));
    }
  }

  lemma UpLogEnd(v: nat, b: nat, s: nat, next: nat)
    requires v <= s * Pow2(b) && 0 <= s <= 0xFFFF && (next <= 0x8000 ==> s == 0x8000)
    ensures Power(v, Pow2(0)) <= Pow2(15 * Pow2(0) + (b * Pow2(0) + if next > 0x8000 then 1 else 0))
  {
    assert Pow2(0) == 1 && Power(v, 1) == v * Power(v, 0);
    hide Pow2;
    Pow2Of15();
    MulLe(s, if next > 0x8000 then 0x1_0000 else 0x8000, Pow2(b));
    Pow2Add(15, b);
    Pow2Add(16, b);
  }

  lemma Scaled(p: nat, a: nat, b: nat)
    requires p <= Pow2(a)
    ensures p * Pow2(b) <= Pow2(a + b)
  {
    MulLe(p, Pow2(a), Pow2(b));
    Pow2Add(a, b);
  }

  lemma ShiftedUp(val: nat, v: nat, l: nat, f: nat, u: nat)
    requires 1 <= l <= 16 && v == Shl(val, 16 - l) && Power(v, f) <= Pow2(15 * f + u)
    ensures 0 <= (l - 1) * f && Power(val, f) <= Pow2((l - 1) * f + u)
  {
    hide Pow2;
    var d := 16 - l;
    MulLe(0, l - 1, f);
    MulLe(0, d, f);
    PowerMul(val, Pow2(d), f);
    PowerOfPow2(d, f);
    MulDist(f, l - 1, d);
    Pow2Add((l - 1) * f + u, d * f);
    var x, y, p := Power(val, f), Pow2((l - 1) * f + u), Pow2(d * f);
    if x > y {
      MulLe(y + 1, x, p);
      MulDist(p, y, 1);
    }
  }

  lemma Chain(p: nat, a: nat, c: nat, q: nat, d: nat)
    requires p <= Pow2(a) && q <= p * Pow2(c)
    ensures q * Pow2(d) <= Pow2(a + c + d)
  {
    Scaled(p, a, c);
    Scaled(q, a + c, d);
  }

  /** The 16 leading bits of val, rounded up. */
  function Aligned16(val: nat): nat
    requires val > 0
  {
    if Ilog(val) > 16 then Shr(val - 1, Ilog(val) - 16) + 1 else Shl(val, 16 - Ilog(val))
  }

  ghost function Log2(val: nat, frac: nat): int
    requires val > 0
  {
    (Ilog(val) - 1) * Pow2(frac) + if BitAnd(val, val - 1) != 0 then UpLog(Aligned16(val), frac) else 0
  }

  method Log2Frac(val_: nat, frac_: nat) returns (l: int)
    requires 0 < val_ < 0x1_0000_0000
    ensures l == Log2(val_, frac_)
  {
    hide InLoop, Carry, Shrunk, SquareUp, BitAnd, Ilog, Aligned16, Pow2;
    ghost var goal := Log2(val_, frac_);
    var val, frac := val_, frac_;
    l := Ilog(val);
    if BitAnd(val, val - 1) != 0 {
      AlignedRange(val);
      val := Aligned16(val);
      l := (l - 1) * Pow2(frac);
      while true
        invariant InLoop(val)
        invariant l + UpLog(val, frac) == goal
        decreases frac
      {
        LoopRange(val);
        var b := Carry(val);
        l := l + b * Pow2(frac);
        val := Shrunk(val);
        assert val * val + 0x7FFF < 0x1_0000_0000;
        val := SquareUp(val);
        if frac == 0 { break; }
        frac := frac - 1;
      }
      l := l + if val > 0x8000 then 1 else 0;
    } else {
      l := (l - 1) * Pow2(frac);
    }
  }

  lemma AlignedRange(val: nat)
    requires val > 0
    ensures InLoop(Aligned16(val))
    ensures Ilog(val) > 16 ==> val <= Aligned16(val) * Pow2(Ilog(val) - 16)
  {
    hide Ilog, Pow2;
    var l := Ilog(val);
    IlogBounds(val);
    Pow2Of15();
    if l > 16 {
      var w := Pow2(l - 16);
      Pow2Add(l - 16, 15);
      Pow2Add(l - 16, 16);
      var q := (val - 1) / w;
      DivMod(val - 1, w);
      MulDist(w, q, 1);
      MulCommute(w, q + 1);
      DivLessIff(val - 1, w, 0x1_0000);
      MulCommute(w, 0x8000);
      MulCommute(w, 0x1_0000);
      if q + 1 < 0x8000 { MulLe(q + 1, 0x7FFF, w); }
    } else {
      var w := Pow2(16 - l);
      Pow2Add(l - 1, 16 - l);
      Pow2Add(l, 16 - l);
      MulLe(Pow2(l - 1), val, w);
      MulLe(val, Pow2(l) - 1, w);
      MulSub(w, Pow2(l), 1);
      MulCommute(w, Pow2(l));
      MulCommute(w, Pow2(l) - 1);
    }
  }

  lemma AlignedSmall(val: nat)
    requires 0 < val && Ilog(val) <= 16
    ensures Aligned16(val) == Shl(val, 16 - Ilog(val))
  {
  }

  /** log2_frac never comes out low. */
  lemma NeverTooLow(val: nat, frac: nat)
    requires val > 0
    ensures Log2(val, frac) >= 0 && Power(val, Pow2(frac)) <= Pow2(Log2(val, frac))
    ensures val == Pow2(Ilog(val) - 1) ==> Power(val, Pow2(frac)) == Pow2(Log2(val, frac))
  {
    hide Ilog, Aligned16, BitAnd, InLoop, UpLog, Pow2, Power;
    var l, f := Ilog(val), Pow2(frac);
    IlogBounds(val);
    PowerOfTwoTest(val);
    MulLe(0, l - 1, f);
    if BitAnd(val, val - 1) == 0 {
      PowerOfPow2(l - 1, f);
    } else {
      var v := Aligned16(val);
      AlignedRange(val);
      UpLogOver(v, frac);
      if l > 16 {
        ShiftedDown(val, v, l, f, UpLog(v, frac));
      } else {
        AlignedSmall(val);
        ShiftedUp(val, v, l, f, UpLog(v, frac));
      }
    }
  }

  lemma ShiftedDown(val: nat, v: nat, l: nat, f: nat, u: nat)
    requires l > 16 && val <= v * Pow2(l - 16) && Power(v, f) <= Pow2(15 * f + u)
    ensures 0 <= (l - 1) * f && Power(val, f) <= Pow2((l - 1) * f + u)
  {
    hide Pow2, Power;
    Bounded(val, v, l - 16, f);
    MulDist(f, 15, l - 16);
    Scaled(Power(v, f), 15 * f + u, (l - 16) * f);
  }
}
