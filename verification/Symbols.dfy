/** The alphabets a range-coded symbol can come from, and the slice of the current range that
    each symbol owns, measured down from the top of the range. */
module Symbols {
  import opened Arith
  import opened Bits
  import opened IntervalCoder

  datatype Symbol =
    | Freq(fl: nat, fh: nat, ft: nat)              // ec_encode / ec_decode
    | BinFreq(fl: nat, fh: nat, bits: nat)         // ec_encode_bin / ec_decode_bin
    | Flag(one: bool, logp: nat)                   // ec_enc_bit_logp / ec_dec_bit_logp
    | FromIcdf(s: nat, icdf: seq<byte>, ftb: nat)  // ec_enc_icdf / ec_dec_icdf

  /** Tail probabilities of the symbols in order, scaled by 2^ftb: they fall, or stay, down to 0. */
  ghost predicate ValidIcdf(icdf: seq<byte>, ftb: nat) {
    && |icdf| > 0 && icdf[|icdf| - 1] == 0 && icdf[0] <= Pow2(ftb) <= EC_CODE_BOT
    && forall i, j :: 0 <= i < j < |icdf| ==> icdf[i] >= icdf[j]
  }

  /** The alphabet fits the range and the symbol has a nonzero share of it. */
  ghost predicate ValidSymbol(sym: Symbol) {
    match sym
    case Freq(fl, fh, ft) => fl < fh <= ft <= EC_CODE_BOT
    case BinFreq(fl, fh, bits) => fl < fh <= Pow2(bits) <= EC_CODE_BOT
    case Flag(_, logp) => 1 <= logp && Pow2(logp) <= EC_CODE_BOT
    case FromIcdf(s, icdf, ftb) =>
      && ValidIcdf(icdf, ftb) && s < |icdf|
      && icdf[s] < (if s > 0 then icdf[s - 1] else Pow2(ftb))
  }

  /** Symbol (fl, fh) out of ft owns [Below(fh), Below(fl)), counted from the top. */
  function Below(rng: nat, f: nat, ft: nat): nat
    requires f <= ft && ft > 0
  {
    DivMod(rng, ft);
    if f == 0 then rng else (rng / ft) * (ft - f)
  }

  ghost function CutHigh(sym: Symbol, rng: nat): nat
    requires ValidSymbol(sym)
  {
    match sym
    case Freq(fl, fh, ft) => Below(rng, fh, ft)
    case BinFreq(fl, fh, bits) => Below(rng, fh, Pow2(bits))
    case Flag(one, logp) => if one then 0 else Shr(rng, logp)
    case FromIcdf(s, icdf, ftb) => Shr(rng, ftb) * icdf[s]
  }

  ghost function CutLow(sym: Symbol, rng: nat): nat
    requires ValidSymbol(sym)
  {
    match sym
    case Freq(fl, fh, ft) => Below(rng, fl, ft)
    case BinFreq(fl, fh, bits) => Below(rng, fl, Pow2(bits))
    case Flag(one, logp) => if one then Shr(rng, logp) else rng
    case FromIcdf(s, icdf, ftb) => if s > 0 then Shr(rng, ftb) * icdf[s - 1] else rng
  }

  lemma UnitBounds(rng: nat, ft: int)
    requires 0 < ft <= rng
    ensures rng / ft >= 1 && (rng / ft) * ft <= rng
  {
    DivMod(rng, ft);
    DivUnique(ft, ft, 1, 0);
    DivMonotone(ft, rng, ft);
  }

  lemma BelowDecreases(rng: nat, f: nat, g: nat, ft: nat)
    requires f < g <= ft && 0 < ft <= rng
    ensures Below(rng, g, ft) < Below(rng, f, ft) <= rng
  {
    UnitBounds(rng, ft);
    var r := rng / ft;
    MulDist(r, ft - g, g);
    MulDist(r, ft - f, f);
    MulLe(1, r, g - f);
    MulLe(1, r, g);
    MulDist(r, g - f, f);
    MulLe(0, f, r);
  }

  lemma HalfBounds(rng: nat, logp: nat)
    requires 1 <= logp && Pow2(logp) <= rng
    ensures 0 < Shr(rng, logp) < rng
  {
    var p := Pow2(logp);
    UnitBounds(rng, p);
    assert p == 2 * Pow2(logp - 1);
    MulLe(2, p, rng / p);
    assert (rng / p) * p == p * (rng / p);
  }

  lemma IcdfBounds(rng: nat, ftb: nat, lo: nat, hi: nat)
    requires lo < hi <= Pow2(ftb) <= rng
    ensures 0 <= Shr(rng, ftb) * lo < Shr(rng, ftb) * hi <= rng
  {
    var p, r := Pow2(ftb), Shr(rng, ftb);
    UnitBounds(rng, p);
    MulDist(r, lo, hi - lo);
    MulLe(1, hi - lo, r);
    MulLe(hi, p, r);
    MulLe(0, lo, r);
  }

  /** Every symbol owns a nonempty slice of every normalised range. */
  lemma CutBounds(sym: Symbol, rng: nat)
    requires ValidSymbol(sym) && EC_CODE_BOT < rng
    ensures 0 <= CutHigh(sym, rng) < CutLow(sym, rng) <= rng
  {
    match sym
    case Freq(fl, fh, ft) => BelowDecreases(rng, fl, fh, ft);
    case BinFreq(fl, fh, bits) => BelowDecreases(rng, fl, fh, Pow2(bits));
    case Flag(one, logp) => HalfBounds(rng, logp);
    case FromIcdf(s, icdf, ftb) => IcdfBounds(rng, ftb, icdf[s], if s > 0 then icdf[s - 1] else Pow2(ftb));
  }

  /** The slices of an alphabet tile the range in order: the first one starts at the top, each next one
      where the one before ends, the last one ends at the bottom. */
  lemma SlicesTile(fl: nat, fh: nat, next: nat, ft: nat, rng: nat)
    requires fl < fh <= ft <= EC_CODE_BOT < rng
    ensures fl == 0 ==> CutLow(Freq(fl, fh, ft), rng) == rng
    ensures fh < next <= ft ==> CutHigh(Freq(fl, fh, ft), rng) == CutLow(Freq(fh, next, ft), rng)
    ensures fh == ft ==> CutHigh(Freq(fl, fh, ft), rng) == 0
  {
  }

  /** A slice is the symbol's share of the range, rounded down for each unit of frequency; what the
      rounding leaves goes to the first symbol. */
  lemma FairShare(fl: nat, fh: nat, ft: nat, rng: nat)
    requires fl < fh <= ft <= EC_CODE_BOT < rng
    ensures var w := CutLow(Freq(fl, fh, ft), rng) - CutHigh(Freq(fl, fh, ft), rng);
      && (fl > 0 ==> w * ft <= rng * (fh - fl) < (w + (fh - fl)) * ft)
      && (fl == 0 ==> rng * fh <= w * ft)
  {
    var q := rng / ft;
    DivMod(rng, ft);
    MulCommute(q, ft);
    MulDist(ft, q, 1);
    if fl == 0 {
      Rounded(q, ft - fh, ft, rng);
      Remainder(rng, q * (ft - fh), fh, ft);
    } else {
      Rounded(q, fh - fl, ft, rng);
      MulSub(q, ft - fl, ft - fh);
    }
  }

  lemma Rounded(q: nat, n: nat, ft: nat, rng: nat)
    requires q * ft <= rng < (q + 1) * ft
    ensures 0 <= q * n && q * n * ft <= rng * n && (n > 0 ==> rng * n < (q * n + n) * ft)
  {
    MulLe(0, q, n);
    MulLe(q * ft, rng, n);
    Swapped(q, n, ft);
    Swapped(q + 1, n, ft);
    MulDist(n, q, 1);
    MulLe(rng + 1, (q + 1) * ft, n);
    MulDist(n, rng, 1);
  }

  lemma Remainder(rng: nat, others: nat, fh: nat, ft: nat)
    requires fh <= ft && others * ft <= rng * (ft - fh)
    ensures rng * fh <= (rng - others) * ft
  {
    MulSub(rng, ft, fh);
    MulSub(ft, rng, others);
    MulCommute(ft, rng - others);
    MulCommute(ft, rng);
    MulCommute(ft, others);
  }

  lemma Swapped(q: int, n: int, ft: int)
    ensures q * n * ft == q * ft * n
  {
    MulAssoc(q, n, ft);
    MulCommute(n, ft);
    MulAssoc(q, ft, n);
  }

  /** A flag is a binary alphabet in which 1 has one part in 2^logp, behind 0 (section 4.1.3.2 of RFC 6716). */
  lemma FlagIsFreq(one: bool, logp: nat, rng: nat)
    requires ValidSymbol(Flag(one, logp)) && EC_CODE_BOT < rng
    ensures var p := Pow2(logp);
      var sym := if one then Freq(p - 1, p, p) else Freq(0, p - 1, p);
      && ValidSymbol(sym)
      && CutLow(Flag(one, logp), rng) == CutLow(sym, rng) && CutHigh(Flag(one, logp), rng) == CutHigh(sym, rng)
  {
    assert Pow2(logp) == 2 * Pow2(logp - 1);
  }

  /** An inverse cumulative table counts frequencies down from 2^ftb (section 4.1.3.3 of RFC 6716). Only
      where the first symbol has no share does the rounding go to no one. */
  lemma IcdfIsFreq(s: nat, icdf: seq<byte>, ftb: nat, rng: nat)
    requires ValidSymbol(FromIcdf(s, icdf, ftb)) && EC_CODE_BOT < rng
    ensures var p := Pow2(ftb);
      var fl := if s > 0 then p - icdf[s - 1] else 0;
      var sym := Freq(fl, p - icdf[s], p);
      && ValidSymbol(sym)
      && CutHigh(FromIcdf(s, icdf, ftb), rng) == CutHigh(sym, rng)
      && (s == 0 || fl > 0 ==> CutLow(FromIcdf(s, icdf, ftb), rng) == CutLow(sym, rng))
      && (s > 0 && fl == 0 ==> CutLow(FromIcdf(s, icdf, ftb), rng) == rng / p * p)
  {
    hide Pow2, Shr;
    var p := Pow2(ftb);
    ShrIs(rng, ftb);
    TopDown(p, icdf[s]);
    if s > 0 { TopDown(p, icdf[s - 1]); }
  }

  lemma ShrIs(rng: nat, k: nat)
    ensures Shr(rng, k) == rng / Pow2(k)
  {
  }

  lemma TopDown(p: nat, x: nat)
    requires x <= p
    ensures p - (p - x) == x && p - x >= 0
  {
  }

  const EC_UINT_BITS := 8

  /** The range-coded part of a large integer has at most 256 values. */
  lemma UintArithmetic(fl: nat, ft: nat)
    requires fl < ft && 2 <= ft < 0x1_0000_0000
    ensures var ftb := Ilog(ft - 1);
      if ftb > EC_UINT_BITS then
        var k := ftb - EC_UINT_BITS;
        k <= 24 && Shr(fl, k) <= Shr(ft - 1, k) < 256
      else ft <= 256
  {
    var ftb := Ilog(ft - 1);
    IlogBounds(ft - 1);
    Pow2Values();
    if ftb > 32 { Pow2Monotone(32, ftb - 1); }
    if ftb > EC_UINT_BITS {
      var k := ftb - EC_UINT_BITS;
      assert ftb == k + EC_SYM_BITS;
      ShrBounds(fl, ft - 1, k, EC_SYM_BITS);
    } else {
      Pow2Monotone(ftb, EC_SYM_BITS);
    }
  }

  /** It has all of 8 bits: its alphabet is the finest that fits. */
  lemma UintTop(ft: nat)
    requires 2 <= ft < 0x1_0000_0000
    ensures if ft <= 256 then Ilog(ft - 1) <= EC_UINT_BITS
      else Ilog(ft - 1) > EC_UINT_BITS && 128 <= Shr(ft - 1, Ilog(ft - 1) - EC_UINT_BITS) <= 255
  {
    hide Ilog;
    var ftb := Ilog(ft - 1);
    UintArithmetic(0, ft);
    IlogBounds(ft - 1);
    Pow2Values();
    Pow2Monotone(if ftb <= 8 then ftb else 8, 8);
    Pow2Monotone(8, if ftb > 8 then ftb - 1 else 8);
    if ft > 256 {
      var k := ftb - EC_UINT_BITS;
      Pow2Add(k, 7);
      assert Pow2(7) == 128;
      DivMonotone(Pow2(ftb - 1), ft - 1, Pow2(k));
      DivUnique(Pow2(ftb - 1), Pow2(k), 128, 0);
    }
  }
}
