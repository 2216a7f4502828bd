/** The budget tests of a CELT frame: what a symbol can cost, that every test asks for the dearest symbol
    that may follow it, and what the coded fields come to when the budget runs out or lasts. */
module Budgets {
  import opened Arith
  import opened Integers
  import opened Bits
  import opened IntervalCoder
  import opened Symbols
  import T = Tell
  import E = Encoder
  import R = RoundTrip
  import opened TfAnalysis
  import opened FrameSyntax
  import opened Postfilter

  // ---- costs ---------------------------------------------------------------------------------

  /** SymbolCost in eighths of a bit. */
  lemma SymbolFracCost(e: E.Enc, sym: Symbol)
    requires R.Inv(e) && ValidSymbol(sym) && CutLow(sym, e.rng) - CutHigh(sym, e.rng) >= 0x8000
    ensures UsedFrac(Put(e, sym)) == UsedFrac(e) + T.Log8(e.rng) - T.Log8(CutLow(sym, e.rng) - CutHigh(sym, e.rng))
  {
    hide Ilog, E.EncodeSymbol, NormRng, NormShifts, T.Log8;
    E.EncodeSymbolRefines(e, sym);
    CutBounds(sym, e.rng);
    var cut := CutLow(sym, e.rng) - CutHigh(sym, e.rng);
    T.NormScales(cut);
    T.Log8Shift(cut, 8 * NormShifts(cut));
  }

  /** Shifting a range down loses none of the bits its logarithm is taken from. */
  lemma Log8Shr(rng: nat, m: nat)
    requires EC_CODE_BOT < rng && m <= 8
    ensures Shr(rng, m) >= 0x8000 && T.Log8(Shr(rng, m)) == T.Log8(rng) - 8 * m
    ensures Ilog(Shr(rng, m)) == Ilog(rng) - m
  {
    hide Ilog, Pow2, T.TableLog, Shr, T.Leading;
    Pow2Monotone(m, 8);
    Pow2Values();
    WideEnough(rng, m);
    T.IlogShr(rng, m);
    T.TopRange(rng);
    T.TopRange(Shr(rng, m));
    ShrShr(rng, m, Ilog(rng) - m - 16);
  }

  lemma WideEnough(rng: nat, m: nat)
    requires EC_CODE_BOT < rng && m <= 8
    ensures Shr(rng, m) >= 0x8000
  {
    Pow2Monotone(m, 8);
    Pow2Values();
    MulLe(Pow2(m), 0x100, 0x8000);
    DivMonotone(0x8000 * Pow2(m), rng, Pow2(m));
    MulCommute(0x8000, Pow2(m));
    DivUnique(0x8000 * Pow2(m), Pow2(m), 0x8000, 0);
  }

  lemma ShrShr(x: nat, a: nat, b: nat)
    ensures Shr(Shr(x, a), b) == Shr(x, a + b)
  {
    DivDiv(x, Pow2(a), Pow2(b));
    Pow2Add(a, b);
  }

  /** A flag of 1 costs exactly logp bits, one of 0 at most one bit. */
  lemma BitCost(e: E.Enc, logp: nat)
    requires R.Inv(e) && 1 <= logp <= 8
    ensures Used(Put(e, Bit(1, logp))) == Used(e) + logp && Used(Put(e, Bit(0, logp))) <= Used(e) + 1
    ensures UsedFrac(Put(e, Bit(1, logp))) == UsedFrac(e) + 8 * logp
    ensures UsedFrac(Put(e, Bit(0, logp))) <= UsedFrac(e) + 8
  {
    hide Ilog, Put, Used, UsedFrac, R.Inv, T.Log8, Shr;
    InvRegisters(e);
    SymbolCost(e, Bit(1, logp));
    SymbolCost(e, Bit(0, logp));
    HalfAtLeast(e.rng, logp);
    Log8Shr(e.rng, logp);
    Log8Shr(e.rng, 1);
    SymbolFracCost(e, Bit(1, logp));
    SymbolFracCost(e, Bit(0, logp));
    T.Log8Monotone(Shr(e.rng, 1), e.rng - Shr(e.rng, logp));
    T.IlogMonotone(Shr(e.rng, 1), e.rng - Shr(e.rng, logp));
  }

  lemma HalfAtLeast(rng: nat, logp: nat)
    requires logp >= 1
    ensures Shr(rng, 1) <= rng - Shr(rng, logp)
  {
    Pow2Monotone(1, logp);
    assert Pow2(1) == 2;
    var q := rng / Pow2(logp);
    DivMod(rng, Pow2(logp));
    MulLe(2, Pow2(logp), q);
    MulCommute(q, Pow2(logp));
  }

  /** The share of symbol s of an alphabet, out of 2^ftb. */
  function Share(icdf: seq<byte>, ftb: nat, s: nat): int
    requires s < |icdf|
  {
    (if s > 0 then icdf[s - 1] else Pow2(ftb)) - icdf[s]
  }

  lemma ShareCut(s: nat, icdf: seq<byte>, ftb: nat, rng: nat)
    requires ValidSymbol(FromIcdf(s, icdf, ftb)) && EC_CODE_BOT < rng
    ensures var cut := CutLow(FromIcdf(s, icdf, ftb), rng) - CutHigh(FromIcdf(s, icdf, ftb), rng);
      cut >= Shr(rng, ftb) * Share(icdf, ftb, s) && (s > 0 ==> cut == Shr(rng, ftb) * Share(icdf, ftb, s))
  {
    var r := Shr(rng, ftb);
    var hi := if s > 0 then icdf[s - 1] else Pow2(ftb);
    MulSub(r, hi, icdf[s]);
    UnitBounds(rng, Pow2(ftb));
  }

  /** A symbol whose share is 2^m or more costs at most ftb - m bits; a later one of share 2^m exactly that. */
  lemma IcdfCost(e: E.Enc, s: nat, icdf: seq<byte>, ftb: nat, m: nat)
    requires R.Inv(e) && ValidSymbol(FromIcdf(s, icdf, ftb)) && m <= ftb <= 8 && Share(icdf, ftb, s) >= Pow2(m)
    ensures Used(Put(e, FromIcdf(s, icdf, ftb))) <= Used(e) + ftb - m
    ensures UsedFrac(Put(e, FromIcdf(s, icdf, ftb))) <= UsedFrac(e) + 8 * (ftb - m)
    ensures s > 0 && Share(icdf, ftb, s) == Pow2(m) ==>
      && Used(Put(e, FromIcdf(s, icdf, ftb))) == Used(e) + ftb - m
      && UsedFrac(Put(e, FromIcdf(s, icdf, ftb))) == UsedFrac(e) + 8 * (ftb - m)
  {
    hide Ilog, Put, Used, UsedFrac, R.Inv, T.Log8, Shr, Pow2, CutLow, CutHigh;
    var sym := FromIcdf(s, icdf, ftb);
    InvRegisters(e);
    SymbolCost(e, sym);
    Log8Shr(e.rng, ftb);
    ShareCut(s, icdf, ftb, e.rng);
    var cut, r := CutLow(sym, e.rng) - CutHigh(sym, e.rng), Shr(e.rng, ftb);
    MulLe(Pow2(m), Share(icdf, ftb, s), r);
    MulCommute(r, Share(icdf, ftb, s));
    T.IlogShift(r, m);
    T.Log8Shift(r, m);
    SymbolFracCost(e, sym);
    MulCommute(r, Pow2(m));
    T.Log8Monotone(r * Pow2(m), cut);
    T.IlogMonotone(r * Pow2(m), cut);
  }

  // ---- tf_encode -----------------------------------------------------------------------------

  /** What n flags cost at most. */
  function FlagBits(n: nat, logp: nat, later: nat): nat {
    if n == 0 then 0 else logp + (MulLe(0, n - 1, later); (n - 1) * later)
  }

  lemma FlagBitsStep(n: nat, logp: nat, later: nat)
    ensures FlagBits(n + 1, logp, later) == logp + FlagBits(n, later, later)
  {
    if n > 0 { MulDist(later, n - 1, 1); }
  }

  lemma OneFlag(e: E.Enc, b: flag, logp: nat)
    requires R.Inv(e) && 1 <= logp <= 5
    ensures R.Inv(Put(e, Bit(b, logp))) && Used(e) <= Used(Put(e, Bit(b, logp))) <= Used(e) + logp
  {
    hide R.Inv, R.Extends, UsedFrac, Put;
    BitCost(e, logp);
    var f := Put(e, Bit(b, logp));
    assert After(f, e);
  }

  /** Once the dearest flag does not fit, none is sent. */
  lemma {:induction false} FlagsNone(e: E.Enc, flags: seq<flag>, budget: int, logp: nat, later: nat, curr: flag,
                                     changed: flag)
    requires R.Inv(e) && Likelihoods(logp, later) && logp <= later && Used(e) + logp > budget
    ensures var (f, out, c) := EncodeFlags(e, flags, budget, logp, later, curr, changed);
      f == e && c == changed && forall i :: 0 <= i < |out| ==> out[i] == curr
    decreases |flags|
  {
    hide R.Inv, Used, UsedFrac;
    if flags != [] { FlagsNone(e, flags[1..], budget, later, later, curr, changed); }
  }

  /** m flags are sent, as long as a 1 would fit; from then on the last one sent stands for the others. */
  lemma {:induction false} FlagsUntil(e: E.Enc, flags: seq<flag>, budget: int, logp: nat, later: nat, curr: flag,
                                      changed: flag) returns (m: nat)
    requires R.Inv(e) && Likelihoods(logp, later) && logp <= later
    ensures m <= |flags|
    ensures var (f, out, c) := EncodeFlags(e, flags, budget, logp, later, curr, changed);
      && out[..m] == flags[..m]
      && (forall i :: m <= i < |out| ==> out[i] == if m == 0 then curr else flags[m - 1])
      && (c == 1 <==> changed == 1 || exists i :: 0 <= i < m && flags[i] == 1)
      && (m < |flags| ==> Used(f) + (if m == 0 then logp else later) > budget)
      && Used(f) <= Used(e) + FlagBits(m, logp, later)
      && (m > 0 ==> Used(f) <= budget)
    decreases |flags|
  {
    hide R.Inv, Used, UsedFrac, FlagBits, Put, Bit;
    FlagBitsZero(logp, later);
    FlagBitsZero(later, later);
    if flags == [] {
      m := 0;
    } else if Used(e) + logp > budget {
      m := 0;
      FlagsNone(e, flags, budget, logp, later, curr, changed);
    } else {
      var b := Xor(flags[0], curr);
      OneFlag(e, b, logp);
      var e1 := Put(e, Bit(b, logp));
      var rest := FlagsUntil(e1, flags[1..], budget, later, later, flags[0], Or(changed, flags[0]));
      m := rest + 1;
      FlagBitsStep(rest, logp, later);
      var (f, out, c) := EncodeFlags(e1, flags[1..], budget, later, later, flags[0], Or(changed, flags[0]));
      assert ([flags[0]] + out)[..m] == [flags[0]] + out[..rest] == flags[..m];
      FlagSet(flags, rest);
    }
  }

  lemma FlagBitsZero(logp: nat, later: nat)
    ensures FlagBits(0, logp, later) == 0
  {
  }

  lemma FlagSet(flags: seq<flag>, rest: nat)
    requires rest < |flags|
    ensures (exists i :: 0 <= i < rest + 1 && flags[i] == 1)
      <==> flags[0] == 1 || exists i :: 0 <= i < rest && flags[1..][i] == 1
  {
    var rests := flags[1..];
    assert forall i :: 0 <= i < rest ==> rests[i] == flags[i + 1];
    if j :| 0 <= j < rest + 1 && flags[j] == 1 {
      if j > 0 { assert rests[j - 1] == 1; }
    }
  }

  lemma FlagBitsMonotone(m: nat, n: nat, logp: nat, later: nat)
    requires m <= n
    ensures FlagBits(m, logp, later) <= FlagBits(n, logp, later)
    ensures FlagBits(m + 1, logp, later) == FlagBits(m, logp, later) + if m == 0 then logp else later
  {
    if m > 0 {
      MulLe(m - 1, n - 1, later);
      MulDist(later, m - 1, 1);
    } else if n > 0 {
      MulLe(0, n - 1, later);
    }
  }

  /** Every flag is sent if the dearest flags would fit. */
  lemma AllFlags(e: E.Enc, flags: seq<flag>, budget: int, logp: nat, later: nat)
    requires R.Inv(e) && Likelihoods(logp, later) && logp <= later
    requires Used(e) + FlagBits(|flags|, logp, later) <= budget
    ensures var (f, out, c) := EncodeFlags(e, flags, budget, logp, later, 0, 0);
      out == flags && (c == 1 <==> exists i :: 0 <= i < |flags| && flags[i] == 1)
  {
    hide EncodeFlags, FlagBits, R.Inv, Used;
    var m := FlagsUntil(e, flags, budget, logp, later, 0, 0);
    if m < |flags| { FlagBitsMonotone(m + 1, |flags|, logp, later); FlagBitsMonotone(m, |flags|, logp, later); }
    var out := EncodeFlags(e, flags, budget, logp, later, 0, 0).1;
    assert out[..|flags|] == out && flags[..|flags|] == flags;
  }

  /** tf_select is sent if and only if it would make a difference to some band. */
  lemma SelectMattersExactly(lm: nat, isTransient: bool, flags: seq<flag>, changed: flag)
    requires lm < 4 && flags != [] && (changed == 1 <==> exists i :: 0 <= i < |flags| && flags[i] == 1)
    ensures SelectMatters(lm, isTransient, changed)
      <==> TfChanges(flags, lm, isTransient, 0) != TfChanges(flags, lm, isTransient, 1)
  {
    var x, y := TfChanges(flags, lm, isTransient, 0), TfChanges(flags, lm, isTransient, 1);
    forall i | 0 <= i < |flags|
      ensures x[i] == TfChange(lm, isTransient, 0, flags[i]) && y[i] == TfChange(lm, isTransient, 1, flags[i])
      ensures flags[i] <= changed
      ensures SelectMatters(lm, isTransient, flags[i]) ==> SelectMatters(lm, isTransient, changed)
    {
      MattersMore(lm, isTransient, flags[i]);
    }
    hide SelectMatters, TfChanges;
    if SelectMatters(lm, isTransient, changed) {
      var k := if changed == 1 then (var k :| 0 <= k < |flags| && flags[k] == 1; k) else 0;
      assert flags[k] == changed;
      MattersIs(lm, isTransient, changed);
      assert x[k] != y[k];
    } else {
      forall i | 0 <= i < |flags|
        ensures x[i] == y[i]
      {
        MattersIs(lm, isTransient, flags[i]);
      }
    }
  }

  lemma MattersIs(lm: nat, isTransient: bool, b: flag)
    requires lm < 4
    ensures SelectMatters(lm, isTransient, b) <==> TfChange(lm, isTransient, 0, b) != TfChange(lm, isTransient, 1, b)
  {
  }

  lemma MattersMore(lm: nat, isTransient: bool, b: flag)
    requires lm < 4
    ensures SelectMatters(lm, isTransient, b) ==> SelectMatters(lm, isTransient, 1)
  {
  }

  /** With room for the dearest flags and tf_select, tf_res stands for the flags and the selection asked for. */
  lemma TfKept(e: E.Enc, flags: seq<flag>, isTransient: bool, lm: nat, tfSelect: flag)
    requires R.Inv(e) && lm < 4 && flags != []
    requires Used(e) + (if isTransient then 2 + 4 * (|flags| - 1) else 4 + 5 * (|flags| - 1)) + 1 <= 8 * e.storage
    ensures TfEncode(e, flags, isTransient, lm, tfSelect).1 == TfChanges(flags, lm, isTransient, tfSelect)
  {
    hide R.Inv, Used, EncodeFlags, SelectMatters, TfChanges, Put, Bit;
    var logp, later := FirstLogp(isTransient), LaterLogp(isTransient);
    var rsv := lm > 0 && Used(e) + logp + 1 <= 8 * e.storage;
    var budget := 8 * e.storage - if rsv then 1 else 0;
    AllFlags(e, flags, budget, logp, later);
    SelectMattersExactly(lm, isTransient, flags, EncodeFlags(e, flags, budget, logp, later, 0, 0).2);
    if lm == 0 { SelectIdle(flags, isTransient, tfSelect); }
  }

  lemma SelectIdle(flags: seq<flag>, isTransient: bool, tfSelect: flag)
    ensures TfChanges(flags, 0, isTransient, tfSelect) == TfChanges(flags, 0, isTransient, 0)
  {
  }

  /** Flags that change from band to band cost 2 and then 4 bits each in a transient frame, 4 and then 5
      in others. */
  lemma TfDearest(e: E.Enc, flags: seq<flag>, isTransient: bool, tfSelect: flag)
    requires R.Inv(e) && flags != [] && flags[0] == 1
    requires forall i :: 0 < i < |flags| ==> flags[i] != flags[i - 1]
    requires Used(e) + (if isTransient then 2 + 4 * (|flags| - 1) else 4 + 5 * (|flags| - 1)) <= 8 * e.storage
    ensures Used(TfEncode(e, flags, isTransient, 0, tfSelect).0)
         == Used(e) + if isTransient then 2 + 4 * (|flags| - 1) else 4 + 5 * (|flags| - 1)
  {
    hide R.Inv, Used, EncodeFlags;
    Alternating(e, flags, 8 * e.storage, FirstLogp(isTransient), LaterLogp(isTransient), 0, 0);
  }

  lemma {:induction false} Alternating(e: E.Enc, flags: seq<flag>, budget: int, logp: nat, later: nat, curr: flag,
                                       changed: flag)
    requires R.Inv(e) && Likelihoods(logp, later) && Used(e) + FlagBits(|flags|, logp, later) <= budget
    requires flags != [] ==> flags[0] != curr
    requires forall i :: 0 < i < |flags| ==> flags[i] != flags[i - 1]
    ensures Used(EncodeFlags(e, flags, budget, logp, later, curr, changed).0)
         == Used(e) + FlagBits(|flags|, logp, later)
    decreases |flags|
  {
    hide R.Inv, Used, UsedFrac, FlagBits, Put, Bit;
    if flags == [] {
      FlagBitsZero(logp, later);
    } else {
      BitCost(e, logp);
      FlagBitsStep(|flags| - 1, logp, later);
      Alternating(Put(e, Bit(1, logp)), flags[1..], budget, later, later, flags[0], Or(changed, flags[0]));
    }
  }

  /** tf_encode never uses more bits than the packet has. */
  lemma TfFits(e: E.Enc, flags: seq<flag>, isTransient: bool, lm: nat, tfSelect: flag)
    requires R.Inv(e) && lm < 4 && Used(e) <= 8 * e.storage
    ensures Used(TfEncode(e, flags, isTransient, lm, tfSelect).0) <= 8 * e.storage
  {
    hide R.Inv, Used, UsedFrac, EncodeFlags, SelectMatters, FlagBits, TfChanges, Put, Bit, R.Extends;
    var logp, later := FirstLogp(isTransient), LaterLogp(isTransient);
    var rsv := lm > 0 && Used(e) + logp + 1 <= 8 * e.storage;
    var budget := 8 * e.storage - if rsv then 1 else 0;
    var m := FlagsUntil(e, flags, budget, logp, later, 0, 0);
    FlagBitsZero(logp, later);
    var f := EncodeFlags(e, flags, budget, logp, later, 0, 0).0;
    if rsv { OneFlag(f, tfSelect, 1); }
  }

  /** With 6 bits left behind it, nothing in tf_encode was cut short. */
  lemma TfComplete(e: E.Enc, flags: seq<flag>, isTransient: bool, lm: nat, tfSelect: flag)
    requires R.Inv(e) && lm < 4 && Used(TfEncode(e, flags, isTransient, lm, tfSelect).0) + 6 <= 8 * e.storage
    ensures TfEncode(e, flags, isTransient, lm, tfSelect).1 == TfChanges(flags, lm, isTransient, tfSelect)
  {
    hide R.Inv, Used, EncodeFlags, SelectMatters, FlagBits, Put, Bit;
    var logp, later := FirstLogp(isTransient), LaterLogp(isTransient);
    var rsv := lm > 0 && Used(e) + logp + 1 <= 8 * e.storage;
    var budget := 8 * e.storage - if rsv then 1 else 0;
    var f := EncodeFlags(e, flags, budget, logp, later, 0, 0).0;
    assert Used(e) <= Used(f) <= Used(TfEncode(e, flags, isTransient, lm, tfSelect).0);
    if flags != [] {
      var m := FlagsUntil(e, flags, budget, logp, later, 0, 0);
      var (_, out, c) := EncodeFlags(e, flags, budget, logp, later, 0, 0);
      assert m == |flags|;
      assert out[..m] == out && flags[..m] == flags;
      SelectMattersExactly(lm, isTransient, flags, c);
      if lm == 0 { SelectIdle(flags, isTransient, tfSelect); }
    }
  }

  // ---- band boosts ---------------------------------------------------------------------------

  /** A step of boost lies between 1 and 8 eighths a sample, and no value in between is nearer to 6 bits. */
  lemma QuantaNearest(width: nat, x: int)
    requires width > 0
    ensures width <= Quanta(width) <= 8 * width
    ensures width <= x <= 8 * width ==> Abs(Quanta(width) - 48) <= Abs(x - 48)
  {
  }

  /** Bits for starting a boost, once some bands have been boosted. */
  function LogpAfter(boosted: seq<bool>): nat {
    if boosted == [] then 6 else NextLogp(LogpAfter(boosted[..|boosted| - 1]), boosted[|boosted| - 1])
  }

  function CountTrue(b: seq<bool>): nat {
    if b == [] then 0 else CountTrue(b[..|b| - 1]) + if b[|b| - 1] then 1 else 0
  }

  /** A boosted band makes the next boost one bit cheaper, down to two. */
  lemma {:induction false} BoostsGetCheaper(boosted: seq<bool>)
    ensures LogpAfter(boosted) == Max(2, 6 - CountTrue(boosted))
  {
    if boosted != [] { BoostsGetCheaper(boosted[..|boosted| - 1]); }
  }

  /** A band is boosted by whole steps until it has what it wants, has reached its cap, or the next step
      would not leave room for the boosts granted. */
  lemma {:induction false} BoostExactly(e: E.Enc, want: int, j: nat, boost: nat, total: int, logp: nat, cap: int,
                                        quanta: nat)
    requires R.Inv(e) && quanta > 0 && 1 <= logp <= 6 && boost == j * quanta
    ensures j > 0 <==> boost > 0
    ensures var (f, b, k) := EncodeBoost(e, want, j, boost, total, logp, cap, quanta);
      && k >= j && b == k * quanta
      && (k > j ==> k <= want && b - quanta < cap)
      && (k < want && b < cap ==> UsedFrac(f) + 8 * (if k == j then logp else 1) >= total - b)
      && UsedFrac(e) <= UsedFrac(f) && (UsedFrac(f) <= UsedFrac(e) || UsedFrac(f) < total - boost)
    decreases Max(0, cap - boost)
  {
    hide R.Inv, Used, UsedFrac, Put, Bit, R.Extends;
    StepsPositive(j, quanta);
    InvRegisters(e);
    if UsedFrac(e) + 8 * logp < total - boost && boost < cap {
      BitCost(e, logp);
      var b: flag := if j < want then 1 else 0;
      var e1 := Put(e, Bit(b, logp));
      assert After(e1, e);
      if b == 1 {
        MulDist(quanta, j, 1);
        BoostExactly(e1, want, j + 1, boost + quanta, total, 1, cap, quanta);
      }
    }
  }

  lemma StepsPositive(j: nat, quanta: nat)
    requires quanta > 0
    ensures j > 0 <==> j * quanta > 0
  {
    if j > 0 { MulLe(1, j, quanta); }
  }

  function TotalBoost(boosts: seq<nat>): nat {
    if boosts == [] then 0 else boosts[0] + TotalBoost(boosts[1..])
  }

  /** A whole number of steps, none beyond what is wanted or begun at the cap; fewer only if out of bits. */
  ghost predicate Granted(boost: nat, want: int, band: Band, out: bool) {
    exists k: nat :: Steps(k, boost, want, band, out)
  }

  predicate Steps(k: nat, boost: nat, want: int, band: Band, out: bool) {
    var quanta := Quanta(band.width);
    && boost == k * quanta
    && (k > 0 ==> k <= want && boost - quanta < band.cap)
    && (out || k >= want || boost >= band.cap)
  }

  lemma GrantedShorter(boost: nat, want: int, band: Band, out: bool, out': bool)
    requires Granted(boost, want, band, out) && (out ==> out')
    ensures Granted(boost, want, band, out')
  {
    var k: nat :| Steps(k, boost, want, band, out);
    assert Steps(k, boost, want, band, out');
  }

  /** The first band's boost, in terms of the coder behind it. */
  lemma FirstBand(e: E.Enc, band: Band, want: int, logp: nat, total: int)
    requires R.Inv(e) && 2 <= logp <= 6 && band.width > 0
    ensures var (f, b, k) := EncodeBoost(e, want, 0, 0, total, logp, band.cap, Quanta(band.width));
      && Granted(b, want, band, UsedFrac(f) + 48 >= total - b)
      && UsedFrac(f) <= Max(UsedFrac(e), total)
  {
    hide R.Inv, Used, UsedFrac, EncodeBoost, Quanta;
    var quanta := Quanta(band.width);
    BoostExactly(e, want, 0, 0, total, logp, band.cap, quanta);
    var (f, b, k) := EncodeBoost(e, want, 0, 0, total, logp, band.cap, quanta);
    InvRegisters(f);
    assert Steps(k, b, want, band, UsedFrac(f) + 48 >= total - b);
  }

  ghost predicate AllGranted(boosts: seq<nat>, want: seq<int>, bands: seq<Band>, out: bool)
    requires |boosts| == |want| == |bands|
  {
    forall i :: 0 <= i < |bands| ==> Granted(boosts[i], want[i], bands[i], out)
  }

  lemma OneMoreGranted(b: nat, rest: seq<nat>, want: seq<int>, bands: seq<Band>, out: bool)
    requires |want| == |bands| == |rest| + 1 && Granted(b, want[0], bands[0], out)
    requires AllGranted(rest, want[1..], bands[1..], out)
    ensures AllGranted([b] + rest, want, bands, out) && TotalBoost([b] + rest) == b + TotalBoost(rest)
  {
    hide Granted;
    var boosts := [b] + rest;
    assert boosts[1..] == rest;
    forall i | 0 <= i < |bands|
      ensures Granted(boosts[i], want[i], bands[i], out)
    {
      if i > 0 { assert Granted(rest[i - 1], want[1..][i - 1], bands[1..][i - 1], out); }
    }
  }

  /** r is what dynalloc leaves, starting from e with total: every band has what it wants, or what its cap
      allows, unless less than 6 bits are left. What is left is the total less all boosts, and coding them
      never uses more than the total. */
  ghost predicate Settled(e: E.Enc, r: (E.Enc, seq<nat>, int), bands: seq<Band>, want: seq<int>, total: int)
    requires e.rng > EC_CODE_BOT && |want| == |bands|
  {
    && r.0.rng > EC_CODE_BOT && |r.1| == |bands| && r.2 == total - TotalBoost(r.1)
    && AllGranted(r.1, want, bands, UsedFrac(r.0) + 48 >= r.2)
    && UsedFrac(r.0) <= Max(UsedFrac(e), total)
  }

  lemma OneMoreSettled(e: E.Enc, e1: E.Enc, b: nat, r: (E.Enc, seq<nat>, int), bands: seq<Band>, want: seq<int>,
                       total: int)
    requires e.rng > EC_CODE_BOT && e1.rng > EC_CODE_BOT && |want| == |bands| > 0
    requires Granted(b, want[0], bands[0], UsedFrac(e1) + 48 >= total - b) && UsedFrac(e1) <= Max(UsedFrac(e), total)
    requires r.0.rng > EC_CODE_BOT && UsedFrac(e1) <= UsedFrac(r.0) && r.2 <= total - b
    requires Settled(e1, r, bands[1..], want[1..], total - b)
    ensures Settled(e, (r.0, [b] + r.1, r.2), bands, want, total)
  {
    hide UsedFrac, Granted, AllGranted;
    GrantedShorter(b, want[0], bands[0], UsedFrac(e1) + 48 >= total - b, UsedFrac(r.0) + 48 >= r.2);
    OneMoreGranted(b, r.1, want, bands, UsedFrac(r.0) + 48 >= r.2);
  }

  lemma DynallocUnfolds(e: E.Enc, bands: seq<Band>, want: seq<int>, logp: nat, total: int, first: (E.Enc, nat, nat))
    requires R.Inv(e) && 2 <= logp <= 6 && |want| == |bands| > 0 && Wide(bands)
    requires first == EncodeBoost(e, want[0], 0, 0, total, logp, bands[0].cap, Quanta(bands[0].width))
    ensures R.Inv(first.0)
    ensures var r := EncodeDynalloc(first.0, bands[1..], want[1..], NextLogp(logp, first.2 > 0), total - first.1);
      EncodeDynalloc(e, bands, want, logp, total) == (r.0, [first.1] + r.1, r.2)
  {
    hide R.Inv, Used, UsedFrac, EncodeBoost, Quanta, R.Extends;
  }

  lemma RestAfter(e: E.Enc, bands: seq<Band>, want: seq<int>, logp: nat, total: int)
    requires R.Inv(e) && 2 <= logp <= 6 && |want| == |bands| && Wide(bands)
    ensures var r := EncodeDynalloc(e, bands, want, logp, total);
      e.rng > EC_CODE_BOT && r.0.rng > EC_CODE_BOT && UsedFrac(e) <= UsedFrac(r.0) && r.2 <= total
  {
    hide R.Inv, Used, UsedFrac, EncodeDynalloc;
    InvRegisters(e);
    InvRegisters(EncodeDynalloc(e, bands, want, logp, total).0);
  }

  lemma {:induction false} BoostsExactly(e: E.Enc, bands: seq<Band>, want: seq<int>, logp: nat, total: int)
    requires R.Inv(e) && 2 <= logp <= 6 && |want| == |bands| && Wide(bands)
    ensures e.rng > EC_CODE_BOT && Settled(e, EncodeDynalloc(e, bands, want, logp, total), bands, want, total)
    decreases |bands|
  {
    hide R.Inv, Used, UsedFrac, EncodeBoost, Quanta, Granted, AllGranted;
    InvRegisters(e);
    if bands == [] {
      NoneGranted(UsedFrac(e) + 48 >= total);
    } else {
      hide EncodeDynalloc, Settled;
      FirstBand(e, bands[0], want[0], logp, total);
      var first := EncodeBoost(e, want[0], 0, 0, total, logp, bands[0].cap, Quanta(bands[0].width));
      DynallocUnfolds(e, bands, want, logp, total, first);
      var next := NextLogp(logp, first.2 > 0);
      BoostsExactly(first.0, bands[1..], want[1..], next, total - first.1);
      RestAfter(first.0, bands[1..], want[1..], next, total - first.1);
      var r := EncodeDynalloc(first.0, bands[1..], want[1..], next, total - first.1);
      OneMoreSettled(e, first.0, first.1, r, bands, want, total);
    }
  }

  lemma NoneGranted(out: bool)
    ensures AllGranted([], [], [], out) && TotalBoost([]) == 0
  {
  }

  // ---- the header ----------------------------------------------------------------------------

  /** The shares of the spread decision, the trim and the tapset; a default is the likeliest value. */
  lemma SpreadShares(s: nat)
    requires s < 4
    ensures Share(SPREAD_ICDF, 5, s) == [7, 2, 21, 2][s] <= Share(SPREAD_ICDF, 5, SPREAD_NORMAL)
  {
    assert Pow2(5) == 32;
  }

  lemma TrimShares(s: nat)
    requires s < 11
    ensures Share(TRIM_ICDF, 7, s) == [2, 2, 5, 10, 22, 46, 22, 10, 5, 2, 2][s] <= Share(TRIM_ICDF, 7, DEFAULT_TRIM)
  {
    assert Pow2(7) == 128;
  }

  lemma TapsetShares(s: nat)
    requires s < 3
    ensures Share(TAPSET_ICDF, 2, s) == [2, 1, 1][s]
  {
    assert Pow2(2) == 4;
  }

  /** The least packet that holds what is used and boosted, in whole bytes, and two more. */
  lemma MinAllowedLeast(usedFrac: int, boosted: int, size: int)
    ensures MinAllowed(usedFrac, boosted) <= size <==> usedFrac + boosted <= 64 * (size - 2)
  {
  }

  lemma FracFits(e: E.Enc, bytes: int)
    requires R.Inv(e)
    ensures Used(e) <= 8 * bytes <==> UsedFrac(e) <= 64 * bytes
    ensures UsedFrac(e) <= 8 * Used(e) <= UsedFrac(e) + 7
  {
    hide Ilog, T.TellFrac;
    InvRegisters(e);
    T.TellRoundsUp(e.nbitsTotal, e.rng);
  }

  /** The spread decision costs at most 4 bits, and the last one exactly that. */
  lemma SpreadCost(e: E.Enc, s: nat)
    requires R.Inv(e) && s < 4 && ValidSymbol(FromIcdf(s, SPREAD_ICDF, 5)) && ValidSymbol(FromIcdf(3, SPREAD_ICDF, 5))
    ensures Used(Put(e, FromIcdf(s, SPREAD_ICDF, 5))) <= Used(e) + 4
    ensures Used(Put(e, FromIcdf(3, SPREAD_ICDF, 5))) == Used(e) + 4
  {
    hide R.Inv, Used, UsedFrac, Put;
    SpreadShares(s);
    SpreadShares(3);
    assert Pow2(1) == 2;
    IcdfCost(e, s, SPREAD_ICDF, 5, 1);
    IcdfCost(e, 3, SPREAD_ICDF, 5, 1);
  }

  /** The trim costs at most 6 bits, and the last one exactly that. */
  lemma TrimCost(e: E.Enc, s: nat)
    requires R.Inv(e) && s < 11 && ValidSymbol(FromIcdf(s, TRIM_ICDF, 7)) && ValidSymbol(FromIcdf(10, TRIM_ICDF, 7))
    ensures UsedFrac(Put(e, FromIcdf(s, TRIM_ICDF, 7))) <= UsedFrac(e) + 48
    ensures UsedFrac(Put(e, FromIcdf(10, TRIM_ICDF, 7))) == UsedFrac(e) + 48
  {
    hide R.Inv, Used, UsedFrac, Put;
    TrimShares(s);
    TrimShares(10);
    assert Pow2(1) == 2;
    IcdfCost(e, s, TRIM_ICDF, 7, 1);
    IcdfCost(e, 10, TRIM_ICDF, 7, 1);
  }

  /** The spread decision is sent if and only if the dearest one would fit; otherwise it is 2. */
  lemma SpreadSent(e: E.Enc, h: Header)
    requires R.Inv(e) && ValidHeader(h) && ValidSymbol(FromIcdf(3, SPREAD_ICDF, 5))
    ensures var e1 := TfEncode(e, h.flags, h.isTransient, h.lm, h.tfSelect).0;
      EncodeHeader(e, h).1.spread
        == if Used(Put(e1, FromIcdf(3, SPREAD_ICDF, 5))) <= 8 * e.storage then h.spread else 2
  {
    hide R.Inv, Used, UsedFrac, TfEncode, EncodeDynalloc, Put, PutIf, SpreadSymbol, TrimSymbol;
    SpreadCost(TfEncode(e, h.flags, h.isTransient, h.lm, h.tfSelect).0, 3);
  }

  /** What stands between the spread decision and the trim. */
  function Boosts(e: E.Enc, h: Header): (E.Enc, seq<nat>, int)
    requires R.Inv(e) && ValidHeader(h)
  {
    var e1 := TfEncode(e, h.flags, h.isTransient, h.lm, h.tfSelect).0;
    EncodeDynalloc(PutIf(Used(e1) + 4 <= 8 * e.storage, e1, SpreadSymbol(h)), h.bands, h.want, 6, 64 * e.storage)
  }

  /** The trim is sent if and only if the dearest one would leave room for the boosts; otherwise it is 5. */
  lemma TrimSent(e: E.Enc, h: Header)
    requires R.Inv(e) && ValidHeader(h) && ValidSymbol(FromIcdf(10, TRIM_ICDF, 7))
    ensures var (e3, boosts, left) := Boosts(e, h);
      && R.Inv(e3) && EncodeHeader(e, h).1.boosts == boosts
      && var dearest := Put(e3, FromIcdf(10, TRIM_ICDF, 7));
      && dearest.rng > EC_CODE_BOT
      && EncodeHeader(e, h).1.trim == if UsedFrac(dearest) <= left then h.trim else 5
  {
    hide R.Inv, Used, UsedFrac, TfEncode, EncodeDynalloc, Put, PutIf, SpreadSymbol, TrimSymbol;
    var e3 := Boosts(e, h).0;
    TrimCost(e3, 10);
    InvRegisters(Put(e3, FromIcdf(10, TRIM_ICDF, 7)));
  }

  /** The header never uses more bits than the packet has. */
  lemma HeaderFits(e: E.Enc, h: Header)
    requires R.Inv(e) && ValidHeader(h) && Used(e) <= 8 * e.storage
    ensures Used(EncodeHeader(e, h).0) <= 8 * e.storage
  {
    hide R.Inv, Used, UsedFrac, TfEncode, EncodeDynalloc, Put;
    HeaderSymbols(h);
    var e1 := TfEncode(e, h.flags, h.isTransient, h.lm, h.tfSelect).0;
    TfFits(e, h.flags, h.isTransient, h.lm, h.tfSelect);
    SpreadFits(e1, h);
    var e2 := PutIf(Used(e1) + 4 <= 8 * e.storage, e1, SpreadSymbol(h));
    FracFits(e2, e.storage);
    BoostsExactly(e2, h.bands, h.want, 6, 64 * e.storage);
    var (e3, boosts, left) := EncodeDynalloc(e2, h.bands, h.want, 6, 64 * e.storage);
    TrimFits(e3, h, left);
    FracFits(EncodeHeader(e, h).0, e.storage);
  }

  lemma SpreadFits(e: E.Enc, h: Header)
    requires R.Inv(e) && ValidHeader(h) && Used(e) <= 8 * e.storage
    ensures Used(PutIf(Used(e) + 4 <= 8 * e.storage, e, SpreadSymbol(h))) <= 8 * e.storage
  {
    hide R.Inv, Used, UsedFrac, Put;
    HeaderSymbols(h);
    IcdfsValid();
    SpreadCost(e, h.spread);
  }

  lemma TrimFits(e: E.Enc, h: Header, left: int)
    requires R.Inv(e) && ValidHeader(h)
    ensures var f := PutIf(UsedFrac(e) + 48 <= left, e, TrimSymbol(h));
      f.rng > EC_CODE_BOT && UsedFrac(f) <= Max(UsedFrac(e), left)
  {
    hide R.Inv, Used, UsedFrac, Put;
    HeaderSymbols(h);
    IcdfsValid();
    InvRegisters(e);
    TrimCost(e, h.trim);
    InvRegisters(PutIf(UsedFrac(e) + 48 <= left, e, TrimSymbol(h)));
  }

  /** With more than 6 bits left behind the header, nothing in it was cut short: every flag, the selection,
      the spread decision and the trim are those asked for, and every band has its boost. */
  lemma HeaderComplete(e: E.Enc, h: Header)
    requires R.Inv(e) && ValidHeader(h) && EncodeHeader(e, h).0.rng > EC_CODE_BOT
    requires UsedFrac(EncodeHeader(e, h).0) + 48 < 64 * e.storage - EncodeHeader(e, h).1.boosted
    ensures var fields := EncodeHeader(e, h).1;
      && fields.tfRes == TfChanges(h.flags, h.lm, h.isTransient, h.tfSelect)
      && fields.spread == h.spread && fields.trim == h.trim
      && |fields.boosts| == |h.bands| && AllGranted(fields.boosts, h.want, h.bands, false)
      && fields.boosted == TotalBoost(fields.boosts)
  {
    hide R.Inv, Used, UsedFrac, TfEncode, EncodeDynalloc, Put, TfChanges, SpreadSymbol, TrimSymbol, AllGranted;
    var e1 := TfEncode(e, h.flags, h.isTransient, h.lm, h.tfSelect).0;
    var e2 := PutIf(Used(e1) + 4 <= 8 * e.storage, e1, SpreadSymbol(h));
    var (e3, boosts, left) := EncodeDynalloc(e2, h.bands, h.want, 6, 64 * e.storage);
    InvRegisters(e3);
    var f := PutIf(UsedFrac(e3) + 48 <= left, e3, TrimSymbol(h));
    BoostsExactly(e2, h.bands, h.want, 6, 64 * e.storage);
    hide PutIf;
    assert e3.storage == e.storage && UsedFrac(e3) <= UsedFrac(f);
    assert Used(e1) <= Used(e2) <= Used(e3);
    FracFits(e3, e.storage);
    TfComplete(e, h.flags, h.isTransient, h.lm, h.tfSelect);
  }

  /** Where each symbol goes: the flags of tf_encode, the spread decision, the boosts, the trim. */
  lemma HeaderOrder(e: E.Enc, h: Header, b: flag, band: Band)
    requires R.Inv(e) && ValidHeader(h) && h.lm == 0 && !h.isTransient && h.flags == [b] && h.bands == [band]
    requires h.want[0] <= 0 < band.cap && Used(e) + 24 <= 8 * e.storage
    requires ValidSymbol(FromIcdf(h.spread, SPREAD_ICDF, 5)) && ValidSymbol(FromIcdf(h.trim, TRIM_ICDF, 7))
    ensures EncodeHeader(e, h).0 ==
      Put(Put(Put(Put(e, Bit(b, 4)), FromIcdf(h.spread, SPREAD_ICDF, 5)), Bit(0, 6)), FromIcdf(h.trim, TRIM_ICDF, 7))
  {
    hide R.Inv, Used, UsedFrac, Put, Bit, TfEncode, EncodeDynalloc, SpreadSymbol, TrimSymbol;
    HeaderSymbols(h);
    OneFlag(e, b, 4);
    var e1 := Put(e, Bit(b, 4));
    OnlyFlag(e, b, h.tfSelect);
    var e2 := Put(e1, FromIcdf(h.spread, SPREAD_ICDF, 5));
    RoomBehind(e1, h.spread, h.trim);
    assert h.bands[0] == band && h.want == [h.want[0]];
    OnlyBand(e2, band, h.want[0], 64 * e.storage);
  }

  lemma RoomBehind(e: E.Enc, spread: nat, trim: nat)
    requires R.Inv(e) && spread < 4 && trim < 11 && Used(e) + 20 <= 8 * e.storage
    requires ValidSymbol(FromIcdf(spread, SPREAD_ICDF, 5)) && ValidSymbol(FromIcdf(trim, TRIM_ICDF, 7))
    ensures var e2 := Put(e, FromIcdf(spread, SPREAD_ICDF, 5));
      && e2.rng > EC_CODE_BOT && e2.storage == e.storage && UsedFrac(e2) + 48 < 64 * e.storage
      && var e3 := Put(e2, Bit(0, 6));
      && e3.rng > EC_CODE_BOT && UsedFrac(e3) + 48 <= 64 * e.storage
  {
    hide R.Inv, Used, UsedFrac, Put, Bit;
    IcdfsValid();
    SpreadCost(e, spread);
    var e2 := Put(e, FromIcdf(spread, SPREAD_ICDF, 5));
    InvRegisters(e2);
    FracFits(e2, e.storage);
    BitCost(e2, 6);
    InvRegisters(Put(e2, Bit(0, 6)));
  }

  lemma OnlyFlag(e: E.Enc, b: flag, tfSelect: flag)
    requires R.Inv(e) && Used(e) + 4 <= 8 * e.storage
    ensures TfEncode(e, [b], false, 0, tfSelect).0 == Put(e, Bit(b, 4))
  {
    hide R.Inv, Used, UsedFrac, Put, Bit;
    assert Xor(b, 0) == b && [b][1..] == [];
    var e1, c := Put(e, Bit(b, 4)), Or(0, b);
    assert EncodeFlags(e1, [], 8 * e.storage, 5, 5, b, c).0 == e1;
    assert EncodeFlags(e, [b], 8 * e.storage, 4, 5, 0, 0).0 == e1;
  }

  lemma OnlyBand(e: E.Enc, band: Band, want: int, total: int)
    requires R.Inv(e) && e.rng > EC_CODE_BOT && band.width > 0 && want <= 0 < band.cap && UsedFrac(e) + 48 < total
    ensures Wide([band]) && EncodeDynalloc(e, [band], [want], 6, total) == (Put(e, Bit(0, 6)), [0], total)
  {
    hide R.Inv, Used, UsedFrac, Put, Bit, Quanta;
    var e1 := Put(e, Bit(0, 6));
    assert EncodeBoost(e, want, 0, 0, total, 6, band.cap, Quanta(band.width)) == (e1, 0, 0);
    DynallocUnfolds(e, [band], [want], 6, total, (e1, 0, 0));
    assert [band][1..] == [] && [want][1..] == [];
    var none: seq<nat>, zero: seq<nat> := [], [0];
    assert EncodeDynalloc(e1, [], [], 6, total) == (e1, none, total) && zero + none == zero;
  }

  // ---- the postfilter and the transient flag --------------------------------------------------------

  /** The first of the decoder's postfilter tests asks for the 16 bits the parameters before the tapset can
      cost, the second for the 2 bits the dearest tapsets cost. */
  lemma PostfilterTests(e: E.Enc, s: nat)
    requires R.Inv(e) && s < 3 && ValidSymbol(FromIcdf(s, TAPSET_ICDF, 2))
    ensures EC_CODE_BOT < EC_CODE_TOP && MainCost(EC_CODE_TOP, MAXPERIOD - 2) == 16
    ensures Used(Put(e, FromIcdf(s, TAPSET_ICDF, 2))) <= Used(e) + 2
    ensures s == 2 ==> Used(Put(e, FromIcdf(s, TAPSET_ICDF, 2))) == Used(e) + 2
  {
    hide R.Inv, Used, UsedFrac, Put, MainCost;
    TapsetShares(s);
    assert Pow2(0) == 1;
    IcdfCost(e, s, TAPSET_ICDF, 2, 0);
    DearestMain();
  }

  lemma DearestMain()
    ensures MainCost(EC_CODE_TOP, MAXPERIOD - 2) == 16
  {
    hide Ilog;
    Pow2Values();
    assert Pow2(9) == 512 && Pow2(10) == 1024 && Pow2(1) == 2;
    Pow2Add(14, 14);
    Pow2Add(14, 15);
    Pow2Add(14, 16);
    assert Pow2(14) == 0x4000;
    assert Pow2(15) == 0x8000;
    assert Pow2(16) == 0x1_0000;
    IlogUnique(1023, 9);
    IlogUnique(0x4000_0000, 30);
    IlogUnique(0x4000_0000 / 6, 27);
    assert Shr(EC_CODE_TOP, 1) == 0x4000_0000;
  }
}
