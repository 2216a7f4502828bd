/** celt_udiv and celt_sudiv (entcode.h): division by a small number as a multiplication by a
    tabulated reciprocal, one correction, and no division instruction. */
module SmallDiv {
  import opened Arith
  import opened Bits

  // ---- the table ---------------------------------------------------------------------

  /** 2^32 / (2 * i + 1) rounded down, but one less for i = 0, where that would not fit. */
  predicate IsReciprocal(i: nat, t: nat) {
    t * (2 * i + 1) < 0x1_0000_0000 <= t * (2 * i + 1) + 2 * i + 1
  }

  /** SMALL_DIV_TABLE, sixteen entries a row. */
  function Reciprocal(i: nat): nat
    requires i < 128
  {
    if i < 64 then
      if i < 32 then if i < 16 then Row0(i) else Row1(i - 16)
      else if i < 48 then Row2(i - 32) else Row3(i - 48)
    else if i < 96 then if i < 80 then Row4(i - 64) else Row5(i - 80)
    else if i < 112 then Row6(i - 96) else Row7(i - 112)
  }

  function Row0(i: nat): nat
    requires i < 16
  {
    [ 0xFFFFFFFF, 0x55555555, 0x33333333, 0x24924924,
      0x1C71C71C, 0x1745D174, 0x13B13B13, 0x11111111,
      0x0F0F0F0F, 0x0D79435E, 0x0C30C30C, 0x0B21642C,
      0x0A3D70A3, 0x097B425E, 0x08D3DCB0, 0x08421084][i]
  }

  lemma Row0Exact(i: nat)
    requires i < 16
    ensures IsReciprocal(0 + i, Row0(i))
  {
  }

  function Row1(i: nat): nat
    requires i < 16
  {
    [ 0x07C1F07C, 0x07507507, 0x06EB3E45, 0x06906906,
      0x063E7063, 0x05F417D0, 0x05B05B05, 0x0572620A,
      0x05397829, 0x05050505, 0x04D4873E, 0x04A7904A,
      0x047DC11F, 0x0456C797, 0x04325C53, 0x04104104][i]
  }

  lemma Row1Exact(i: nat)
    requires i < 16
    ensures IsReciprocal(16 + i, Row1(i))
  {
  }

  function Row2(i: nat): nat
    requires i < 16
  {
    [ 0x03F03F03, 0x03D22635, 0x03B5CC0E, 0x039B0AD1,
      0x0381C0E0, 0x0369D036, 0x03531DEC, 0x033D91D2,
      0x0329161F, 0x03159721, 0x03030303, 0x02F14990,
      0x02E05C0B, 0x02D02D02, 0x02C0B02C, 0x02B1DA46][i]
  }

  lemma Row2Exact(i: nat)
    requires i < 16
    ensures IsReciprocal(32 + i, Row2(i))
  {
  }

  function Row3(i: nat): nat
    requires i < 16
  {
    [ 0x02A3A0FD, 0x0295FAD4, 0x0288DF0C, 0x027C4597,
      0x02702702, 0x02647C69, 0x02593F69, 0x024E6A17,
      0x0243F6F0, 0x0239E0D5, 0x02302302, 0x0226B902,
      0x021D9EAD, 0x0214D021, 0x020C49BA, 0x02040810][i]
  }

  lemma Row3Exact(i: nat)
    requires i < 16
    ensures IsReciprocal(48 + i, Row3(i))
  {
  }

  function Row4(i: nat): nat
    requires i < 16
  {
    [ 0x01FC07F0, 0x01F44659, 0x01ECC07B, 0x01E573AC,
      0x01DE5D6E, 0x01D77B65, 0x01D0CB58, 0x01CA4B30,
      0x01C3F8F0, 0x01BDD2B8, 0x01B7D6C3, 0x01B20364,
      0x01AC5701, 0x01A6D01A, 0x01A16D3F, 0x019C2D14][i]
  }

  lemma Row4Exact(i: nat)
    requires i < 16
    ensures IsReciprocal(64 + i, Row4(i))
  {
  }

  function Row5(i: nat): nat
    requires i < 16
  {
    [ 0x01970E4F, 0x01920FB4, 0x018D3018, 0x01886E5F,
      0x0183C977, 0x017F405F, 0x017AD220, 0x01767DCE,
      0x01724287, 0x016E1F76, 0x016A13CD, 0x01661EC6,
      0x01623FA7, 0x015E75BB, 0x015AC056, 0x01571ED3][i]
  }

  lemma Row5Exact(i: nat)
    requires i < 16
    ensures IsReciprocal(80 + i, Row5(i))
  {
  }

  function Row6(i: nat): nat
    requires i < 16
  {
    [ 0x01539094, 0x01501501, 0x014CAB88, 0x0149539E,
      0x01460CBC, 0x0142D662, 0x013FB013, 0x013C995A,
      0x013991C2, 0x013698DF, 0x0133AE45, 0x0130D190,
      0x012E025C, 0x012B404A, 0x01288B01, 0x0125E227][i]
  }

  lemma Row6Exact(i: nat)
    requires i < 16
    ensures IsReciprocal(96 + i, Row6(i))
  {
  }

  function Row7(i: nat): nat
    requires i < 16
  {
    [ 0x01234567, 0x0120B470, 0x011E2EF3, 0x011BB4A4,
      0x01194538, 0x0116E068, 0x011485F0, 0x0112358E,
      0x010FEF01, 0x010DB20A, 0x010B7E6E, 0x010953F3,
      0x01073260, 0x0105197F, 0x0103091B, 0x01010101][i]
  }

  lemma Row7Exact(i: nat)
    requires i < 16
    ensures IsReciprocal(112 + i, Row7(i))
  {
  }

  lemma TableExact(i: nat)
    requires i < 128
    ensures IsReciprocal(i, Reciprocal(i))
  {
    hide IsReciprocal, Row0, Row1, Row2, Row3, Row4, Row5, Row6, Row7;
    if i < 16 { Row0Exact(i); }
    else if i < 32 { Row1Exact(i - 16); }
    else if i < 48 { Row2Exact(i - 32); }
    else if i < 64 { Row3Exact(i - 48); }
    else if i < 80 { Row4Exact(i - 64); }
    else if i < 96 { Row5Exact(i - 80); }
    else if i < 112 { Row6Exact(i - 96); }
    else { Row7Exact(i - 112); }
  }

  // ---- celt_udiv -----------------------------------------------------------------------

  /** The lowest bit set in d. */
  function LowestBit(d: nat): nat {
    if d == 0 then 0 else if d % 2 == 1 then 1 else 2 * LowestBit(d / 2)
  }

  lemma {:induction false} AndComplement(x: nat, k: nat)
    requires x < Pow2(k)
    ensures BitAnd(x, Pow2(k) - 1 - x) == 0
  {
    if x > 0 {
      AndComplement(x / 2, k - 1);
      assert (Pow2(k) - 1 - x) / 2 == Pow2(k - 1) - 1 - x / 2;
    }
  }

  /** d & -d in k-bit arithmetic. */
  lemma {:induction false} AndNegated(d: nat, k: nat)
    requires 0 < d < Pow2(k)
    ensures BitAnd(d, Pow2(k) - d) == LowestBit(d)
  {
    var y := Pow2(k) - d;
    if d % 2 == 1 {
      AndComplement(d / 2, k - 1);
      assert y / 2 == Pow2(k - 1) - 1 - d / 2 && y % 2 == 1;
    } else {
      AndNegated(d / 2, k - 1);
      assert y / 2 == Pow2(k - 1) - d / 2 && y % 2 == 0;
    }
  }

  /** d is an odd number 2 * i + 1 shifted by t - 1. */
  lemma {:induction false} OddPart(d: nat)
    requires d > 0
    ensures var t := Ilog(LowestBit(d));
      t >= 1 && d == Pow2(t - 1) * (2 * Shr(d, t) + 1)
  {
    if d % 2 == 1 {
      assert Ilog(1) == 1 + Ilog(0);
      assert Pow2(1) == 2 && Pow2(0) == 1;
    } else {
      OddPart(d / 2);
      LowestBitEven(d);
      OddPartEven(d, Ilog(LowestBit(d / 2)));
    }
  }

  lemma LowestBitEven(d: nat)
    requires d > 0 && d % 2 == 0
    ensures Ilog(LowestBit(d)) == 1 + Ilog(LowestBit(d / 2))
  {
    LowestBitPositive(d / 2);
    IlogDouble(LowestBit(d / 2));
  }

  lemma {:induction false} LowestBitPositive(d: nat)
    requires d > 0
    ensures LowestBit(d) > 0
  {
    if d % 2 == 0 { LowestBitPositive(d / 2); }
  }

  lemma IlogDouble(b: nat)
    requires b > 0
    ensures Ilog(2 * b) == 1 + Ilog(b)
  {
    assert 2 * b / 2 == b;
  }

  lemma OddPartEven(d: nat, t: nat)
    requires d > 0 && d % 2 == 0 && t >= 1 && d / 2 == Pow2(t - 1) * (2 * Shr(d / 2, t) + 1)
    ensures d == Pow2(t) * (2 * Shr(d, t + 1) + 1)
  {
    DivDiv(d, 2, Pow2(t));
    MulAssoc(2, Pow2(t - 1), 2 * Shr(d / 2, t) + 1);
  }

  /** celt_udiv with the table. */
  function Udiv(n: nat, d: nat): nat
    requires n < 0x1_0000_0000 && 0 < d < 0x1_0000_0000
  {
    if d > 256 then n / d
    else
      var t := Ilog(BitAnd(d, 0x1_0000_0000 - d));
      TableIndex(d);
      var i := Shr(d, t);
      MulLe(0, Reciprocal(i), Shr(n, t - 1));
      var q := Reciprocal(i) * Shr(n, t - 1) / 0x1_0000_0000;
      q + if n - q * d >= d then 1 else 0
  }

  lemma TableIndex(d: nat)
    requires 0 < d <= 256
    ensures var t := Ilog(BitAnd(d, 0x1_0000_0000 - d));
      t >= 1 && Shr(d, t) < 128 && d == Pow2(t - 1) * (2 * Shr(d, t) + 1)
  {
    hide BitAnd, LowestBit, Ilog;
    Pow2Values();
    AndNegated(d, 32);
    OddPart(d);
    var t, i := Ilog(LowestBit(d)), Shr(d, Ilog(LowestBit(d)));
    hide Pow2, Shr;
    MulLe(1, Pow2(t - 1), 2 * i + 1);
  }

  /** The estimate is never high, and low by at most one. */
  lemma Estimate(x: nat, m: nat, r: nat)
    requires m > 0 && x < 0x1_0000_0000
    requires r * m < 0x1_0000_0000 <= r * m + m
    ensures r * x >= 0 && x / m >= 0 && x / m - 1 <= r * x / 0x1_0000_0000 <= x / m
  {
    var e, q := r * x, x / m;
    MulLe(0, r, x);
    DivMod(x, m);
    var lost := 0x1_0000_0000 - r * m;
    // x * 2^32 == m * e + x * lost
    assert x * (r * m) == m * e;
    MulDist(x, r * m, lost);
    MulLe(0, lost, x);
    MulLe(lost, m, x);
    MulCommute(x, lost);
    MulCommute(x, m);
    // hence m * e <= 2^32 * x < m * e + m * 2^32
    MulLe(x + 1, 0x1_0000_0000, m);
    UpperBound(e, q, x, m);
    LowerBound(e, q, x, m);
  }

  lemma UpperBound(e: nat, q: nat, x: nat, m: nat)
    requires m > 0 && m * e <= 0x1_0000_0000 * x && q == x / m
    ensures e / 0x1_0000_0000 <= q
  {
    DivMod(x, m);
    MulCommute(m, e);
    assert 0x1_0000_0000 * (q + 1) * m == 0x1_0000_0000 * (m * q + m);
    if e >= 0x1_0000_0000 * (q + 1) { MulLe(0x1_0000_0000 * (q + 1), e, m); }
  }

  lemma LowerBound(e: nat, q: nat, x: nat, m: nat)
    requires m > 0 && 0x1_0000_0000 * x <= m * e + 0x1_0000_0000 * m && q == x / m
    ensures q - 1 <= e / 0x1_0000_0000
  {
    DivMod(x, m);
    MulDist(m, e, 1);
    MulCommute(m, e);
    assert 0x1_0000_0000 * (q - 1) * m == 0x1_0000_0000 * (m * q - m);
    if e < 0x1_0000_0000 * (q - 1) { MulLe(e + 1, 0x1_0000_0000 * (q - 1), m); }
  }

  /** The table form divides exactly, for every 32-bit dividend and divisor. */
  lemma UdivExact(n: nat, d: nat)
    requires n < 0x1_0000_0000 && 0 < d < 0x1_0000_0000
    ensures Udiv(n, d) == n / d
  {
    if d <= 256 {
      hide BitAnd, Ilog, Reciprocal, Pow2, Shr;
      TableIndex(d);
      var t := Ilog(BitAnd(d, 0x1_0000_0000 - d));
      var i := Shr(d, t);
      TableExact(i);
      Shifted(n, d, t, i);
      Estimate(Shr(n, t - 1), 2 * i + 1, Reciprocal(i));
      Correct(n, d, Reciprocal(i) * Shr(n, t - 1) / 0x1_0000_0000);
    }
  }

  /** Shifting both numbers leaves an odd divisor. */
  lemma Shifted(n: nat, d: nat, t: nat, i: nat)
    requires t >= 1 && d == Pow2(t - 1) * (2 * i + 1)
    ensures d > 0 && Shr(n, t - 1) <= n && n / d >= 0 && Shr(n, t - 1) / (2 * i + 1) == n / d
  {
    hide Pow2;
    var w, m := Pow2(t - 1), 2 * i + 1;
    DivDiv(n, w, m);
    ShrAtMost(n, t - 1);
  }

  lemma ShrAtMost(n: nat, k: nat)
    ensures Shr(n, k) <= n
  {
    DivMod(n, Pow2(k));
    MulLe(1, Pow2(k), Shr(n, k));
  }

  lemma Correct(n: nat, d: nat, q: nat)
    requires d > 0 && n / d - 1 <= q <= n / d
    ensures q * d <= n && q + (if n - q * d >= d then 1 else 0) == n / d
  {
    DivMod(n, d);
    MulLe(q, n / d, d);
    MulCommute(n / d, d);
    MulDist(d, q, 1);
    MulCommute(q, d);
  }

  /** celt_sudiv rounds towards zero. */
  function Sudiv(n: int, d: nat): int
    requires -0x8000_0000 < n < 0x8000_0000 && 0 < d < 0x8000_0000
  {
    if n < 0 then 0 - Udiv(-n, d) else Udiv(n, d)
  }

  lemma SudivTruncates(n: int, d: nat)
    requires -0x8000_0000 < n < 0x8000_0000 && 0 < d < 0x8000_0000
    ensures var r := n - Sudiv(n, d) * d; 0 - d < r < d && (r > 0 ==> n > 0) && (r < 0 ==> n < 0)
  {
    hide Udiv;
    var a := if n < 0 then -n else n;
    UdivExact(a, d);
    DivMod(a, d);
    MulCommute(d, a / d);
    assert n < 0 ==> Sudiv(n, d) * d == -(a / d * d);
  }
}
