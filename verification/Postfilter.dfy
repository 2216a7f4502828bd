/** The pitch postfilter parameters at the head of a CELT frame (celt_encoder.c, celt_decoder.c). The
    encoder writes them without asking the bit count; the decoder asks twice. Both sides first test a
    bit count `tell` taken before the silence flag, which may by then have added one to it. */
module Postfilter {
  import opened Arith
  import opened Bits
  import opened IntervalCoder
  import opened Symbols
  import E = Encoder
  import D = Decoder
  import R = RoundTrip
  import T = Tell
  import opened FrameSyntax

  const TAPSET_ICDF: seq<byte> := [2, 1, 0]
  const MINPERIOD := 15
  const MAXPERIOD := 1024

  datatype Params = Off | On(pitch: nat, qg: nat, tapset: nat)

  /** run_prefilter keeps the pitch within these bounds. */
  predicate ValidParams(p: Params) {
    p.On? ==> MINPERIOD <= p.pitch <= MAXPERIOD - 2 && p.qg < 8 && p.tapset < 3
  }

  function Octave(pitch: nat): int {
    Ilog(pitch + 1) - 5
  }

  function Fine(pitch: nat, octave: nat): int {
    pitch + 1 - 16 * Pow2(octave)
  }

  /** The pitch is an octave and a fine part of that octave's size. */
  lemma PitchSplits(pitch: nat)
    requires MINPERIOD <= pitch <= MAXPERIOD - 2
    ensures var o := Octave(pitch);
      0 <= o < 6 && 0 <= Fine(pitch, o) < Pow2(4 + o)
  {
    var l := Ilog(pitch + 1);
    IlogBounds(pitch + 1);
    assert Pow2(4) == 16 && Pow2(10) == 1024;
    if l < 5 { Pow2Monotone(l, 4); }
    if l > 10 { Pow2Monotone(10, l - 1); }
    Pow2Add(4, l - 5);
    Pow2Add(1, l - 1);
    assert Pow2(1) == 2;
  }

  lemma TapsetValid(s: nat)
    requires s < 3
    ensures ValidSymbol(FromIcdf(s, TAPSET_ICDF, 2))
  {
    assert Pow2(2) == 4;
  }

  lemma TapsetIcdfValid()
    ensures ValidIcdf(TAPSET_ICDF, 2)
  {
    assert Pow2(2) == 4;
  }

  // ---- the encoder ---------------------------------------------------------------------------

  /** Up to the gain: the flag, the octave, the rest of the pitch, the gain. */
  function MainOps(pitch: nat, qg: nat): (ops: seq<R.Op>)
    requires MINPERIOD <= pitch <= MAXPERIOD - 2 && qg < 8
    ensures forall i :: 0 <= i < |ops| ==> R.ValidOp(ops[i]) && !ops[i].Resize?
  {
    PitchSplits(pitch);
    var o := Octave(pitch);
    assert Pow2(3) == 8 && Pow2(1) == 2;
    [R.Coded(Flag(true, 1)), R.Uint(o, 6), R.Raw(Fine(pitch, o), 4 + o), R.Raw(qg, 3)]
  }

  function PutMain(e: E.Enc, pitch: nat, qg: nat): (f: E.Enc)
    requires R.Inv(e) && MINPERIOD <= pitch <= MAXPERIOD - 2 && qg < 8
    ensures After(f, e)
  {
    RunAfter(e, MainOps(pitch, qg));
    R.Run(e, MainOps(pitch, qg))
  }

  /** The silence flag, coded at the start of a packet, moves ec_tell by at most one. */
  ghost predicate Behind(tell: int, e: E.Enc) {
    tell <= Used(e) <= tell + 1
  }

  /** total is the packet's size in bits. */
  function PutParams(e: E.Enc, p: Params, tell: int, total: int): (f: E.Enc)
    requires R.Inv(e) && ValidParams(p)
    ensures After(f, e)
  {
    AfterSelf(e);
    match p
    case Off => if tell + 16 <= total then Put(e, Bit(0, 1)) else e
    case On(pitch, qg, tapset) =>
      TapsetValid(tapset);
      var g := PutMain(e, pitch, qg);
      AfterTransitive(Put(g, FromIcdf(tapset, TAPSET_ICDF, 2)), g, e);
      Put(g, FromIcdf(tapset, TAPSET_ICDF, 2))
  }

  /** In this order: the flag, the octave, the rest of the pitch, the gain, the tapset. */
  lemma ParamsOrder(e: E.Enc, p: Params, tell: int, total: int, o: nat, fine: nat)
    requires R.Inv(e) && ValidParams(p) && p.On? && p.pitch + 1 == 16 * Pow2(o) + fine && fine < 16 * Pow2(o)
    ensures ValidSymbol(FromIcdf(p.tapset, TAPSET_ICDF, 2))
    ensures var ops := [R.Coded(Flag(true, 1)), R.Uint(o, 6), R.Raw(fine, 4 + o), R.Raw(p.qg, 3)];
      && R.Runnable(e, ops) && R.Inv(R.Run(e, ops))
      && PutParams(e, p, tell, total) == Put(R.Run(e, ops), FromIcdf(p.tapset, TAPSET_ICDF, 2))
  {
    hide R.Inv, R.Run, R.Runnable, Put, Ilog, Pow2;
    TapsetValid(p.tapset);
    Pow2Add(4, o);
    Pow2Add(5, o);
    PowersHere();
    IlogUnique(p.pitch + 1, 4 + o);
    RunAfter(e, MainOps(p.pitch, p.qg));
  }

  lemma PowersHere()
    ensures Pow2(4) == 16 && Pow2(5) == 32
  {
  }

  // ---- the decoder -----------------------------------------------------------------------------

  lemma UniformReady(d: D.Dec, ft: nat)
    requires Ready(d) && 1 <= ft <= EC_CODE_BOT
    ensures var r := D.DecodeUniform(d, ft).0; Ready(r) && r.buf == d.buf
  {
    UnitBounds(d.rng, ft);
    var s := D.DecodeFreq(d.val, d.rng / ft, ft);
    hide D.Normalize, D.Update, D.DecodeFreq, Below;
    UniformSlice(d.rng, d.val, ft, s);
    var u := d.(ext := d.rng / ft);
    D.UpdateCuts(u, s, s + 1, ft);
    NormalizeReady(D.Cut(u, Below(d.rng, s + 1, ft), Below(d.rng, s, ft)));
  }

  /** The value read owns the slice of the input. */
  lemma UniformSlice(rng: nat, val: nat, ft: nat, s: nat)
    requires val < rng && 1 <= ft <= rng && rng / ft > 0 && s == D.DecodeFreq(val, rng / ft, ft) < ft
    ensures Below(rng, s + 1, ft) <= val < Below(rng, s, ft) <= rng
  {
    D.DecodeFreqMatches(rng, val, s, s + 1, ft);
    BelowDecreases(rng, s, s + 1, ft);
  }

  function GetOctave(d: D.Dec): (r: (D.Dec, nat))
    requires Ready(d)
    ensures Ready(r.0) && r.0.buf == d.buf && r.1 < 6
  {
    assert Ilog(5) == 3 by { assert Ilog(2) == 2 && Ilog(1) == 1 && Ilog(0) == 0; }
    UniformReady(d, 6);
    D.DecodeUint(d, 6)
  }

  lemma {:induction false} RefillFrame(d: D.Dec)
    ensures D.Refill(d) == d.(endWindow := D.Refill(d).endWindow, nendBits := D.Refill(d).nendBits,
                              endOffs := D.Refill(d).endOffs)
    decreases 32 - d.nendBits
  {
    if D.RefillStep(d).nendBits <= 24 { RefillFrame(D.RefillStep(d)); }
  }

  function GetRaw(d: D.Dec, bits: nat): (r: (D.Dec, nat))
    requires Ready(d) && bits <= 25
    ensures Ready(r.0) && r.0.buf == d.buf && r.1 < Pow2(bits)
  {
    RefillFrame(d);
    D.DecodeBits(d, bits)
  }

  function GetParams(d: D.Dec, tell: int): (r: (D.Dec, Params))
    requires Ready(d)
    ensures Ready(r.0) && r.0.buf == d.buf
  {
    var total := 8 * |d.buf|;
    if tell + 16 <= total then
      var (d1, on) := GetBit(d, 1);
      if on == 0 then (d1, Off)
      else
        var (d2, octave) := GetOctave(d1);
        var (d3, fine) := GetRaw(d2, 4 + octave);
        var (d4, qg) := GetRaw(d3, 3);
        TapsetIcdfValid();
        MulLe(1, Pow2(octave), 16);
        var (d5, tapset) := GetIf(R.Tell(d4.nbitsTotal, d4.rng) + 2 <= total, d4, TAPSET_ICDF, 2, 0);
        (d5, On(16 * Pow2(octave) + fine - 1, qg, tapset))
    else (d, Off)
  }

  // ---- in step ---------------------------------------------------------------------------------------

  /** One call, when the stream is known to carry a later state. */
  lemma OpStepTo(e: E.Enc, d: D.Dec, op: R.Op, rest: seq<R.Op>)
    requires R.Runnable(e, [op] + rest) && R.Related(e, d)
    requires R.Run(e, [op] + rest).rem < 256 && R.Carries(d.buf, R.Run(e, [op] + rest))
    ensures R.Applicable(e, op) && R.Runnable(R.EncodeOp(e, op), rest)
    ensures R.Run(e, [op] + rest) == R.Run(R.EncodeOp(e, op), rest)
    ensures R.Returned(op, R.DecodeOp(d, op).1)
    ensures R.Related(R.EncodeOp(e, op), R.DecodeOp(d, op).0) && R.DecodeOp(d, op).0.buf == d.buf
  {
    hide R.EncodeOp, R.DecodeOp, R.Related, R.Carries, R.Extends, R.Returned;
    var ops := [op] + rest;
    assert ops[0] == op && ops[1..] == rest;
    var e1 := R.EncodeOp(e, op);
    R.OpExtends(e, op);
    R.RunExtends(e1, rest);
    R.CarriesEarlier(d.buf, R.Run(e1, rest), e1);
    R.OpStep(e, d, op);
  }

  /** What the decoder makes of the calls MainOps. */
  function GetMain(d: D.Dec): (r: (D.Dec, nat, nat))
    requires Ready(d)
    ensures Ready(r.0) && r.0.buf == d.buf && r.1 >= MINPERIOD
  {
    var (d2, octave) := GetOctave(d);
    var (d3, fine) := GetRaw(d2, 4 + octave);
    var (d4, qg) := GetRaw(d3, 3);
    MulLe(1, Pow2(octave), 16);
    (d4, 16 * Pow2(octave) + fine - 1, qg)
  }

  lemma DecodeFlagOp(d: D.Dec)
    requires Ready(d) && R.ValidOp(R.Coded(Flag(true, 1)))
    ensures var (r, v) := R.DecodeOp(d, R.Coded(Flag(true, 1))); GetBit(d, 1).0 == r && GetBit(d, 1).1 == v
  {
  }

  lemma DecodeOctaveOp(d: D.Dec, o: nat)
    requires Ready(d) && o < 6
    ensures R.DecodeOp(d, R.Uint(o, 6)) == GetOctave(d)
  {
  }

  lemma DecodeRawOp(d: D.Dec, v: nat, bits: nat)
    requires Ready(d) && 1 <= bits <= 25 && v < Pow2(bits)
    ensures R.DecodeOp(d, R.Raw(v, bits)) == GetRaw(d, bits)
  {
  }

  lemma FineIs(pitch: nat, o: nat)
    ensures pitch == 16 * Pow2(o) + Fine(pitch, o) - 1
  {
  }

  lemma MainStep(e: E.Enc, d: D.Dec, pitch: nat, qg: nat)
    requires R.Inv(e) && R.Related(e, d) && MINPERIOD <= pitch <= MAXPERIOD - 2 && qg < 8
    requires R.Carries(d.buf, PutMain(e, pitch, qg))
    ensures Ready(d)
    ensures var (d1, on) := GetBit(d, 1);
      var (d4, pitch', qg') := GetMain(d1);
      on == 1 && pitch' == pitch && qg' == qg && R.Related(PutMain(e, pitch, qg), d4)
  {
    hide R.EncodeOp, R.Related, R.Carries, R.Inv, GetBit, GetOctave, GetRaw, R.DecodeOp, R.Applicable, Octave, Fine;
    PitchSplits(pitch);
    var o := Octave(pitch);
    var fine := Fine(pitch, o);
    var op1, op2, op3, op4 := R.Coded(Flag(true, 1)), R.Uint(o, 6), R.Raw(fine, 4 + o), R.Raw(qg, 3);
    R.AlwaysRunnable(e, MainOps(pitch, qg));
    assert MainOps(pitch, qg) == [op1] + [op2, op3, op4];
    StateAgrees(e, d);
    InvRegisters(PutMain(e, pitch, qg));
    OpStepTo(e, d, op1, [op2, op3, op4]);
    DecodeFlagOp(d);
    var e1, d1 := R.EncodeOp(e, op1), GetBit(d, 1).0;
    assert [op2, op3, op4] == [op2] + [op3, op4];
    OpStepTo(e1, d1, op2, [op3, op4]);
    DecodeOctaveOp(d1, o);
    var e2, d2 := R.EncodeOp(e1, op2), GetOctave(d1).0;
    assert [op3, op4] == [op3] + [op4];
    OpStepTo(e2, d2, op3, [op4]);
    DecodeRawOp(d2, fine, 4 + o);
    var e3, d3 := R.EncodeOp(e2, op3), GetRaw(d2, 4 + o).0;
    assert [op4] == [op4] + [];
    OpStepTo(e3, d3, op4, []);
    DecodeRawOp(d3, qg, 3);
    FineIs(pitch, o);
  }

  // ---- what the parameters cost ---------------------------------------------------------------------

  /** A symbol moves ec_tell by the logarithm of its share of the range. */
  lemma SymbolCost(e: E.Enc, sym: Symbol)
    requires R.Inv(e) && ValidSymbol(sym)
    ensures CutHigh(sym, e.rng) < CutLow(sym, e.rng)
    ensures Used(Put(e, sym)) == Used(e) + Ilog(e.rng) - Ilog(CutLow(sym, e.rng) - CutHigh(sym, e.rng))
  {
    hide Ilog, E.EncodeSymbol, NormRng, NormShifts;
    E.EncodeSymbolRefines(e, sym);
    CutBounds(sym, e.rng);
    var cut := CutLow(sym, e.rng) - CutHigh(sym, e.rng);
    T.NormScales(cut);
    T.IlogShift(cut, 8 * NormShifts(cut));
  }

  lemma SilenceFlag(e: E.Enc)
    requires R.Inv(e)
    ensures Behind(Used(e), Put(e, Bit(0, 15)))
  {
    hide Ilog, E.EncodeSymbol, Used;
    SymbolCost(e, Bit(0, 15));
    var cut := e.rng - Shr(e.rng, 15);
    Pow2Monotone(1, 15);
    assert Pow2(1) == 2;
    DivMod(e.rng, Pow2(15));
    MulLe(2, Pow2(15), Shr(e.rng, 15));
    MulCommute(Shr(e.rng, 15), Pow2(15));
    T.IlogShift(cut, 1);
    T.IlogMonotone(e.rng, cut * Pow2(1));
  }

  /** The share of octave o out of 6. */
  function OctaveShare(rng: nat, o: nat): nat {
    if o == 0 then rng - rng / 6 * 5 else rng / 6
  }

  /** ec_tell for the flag, the octave, the rest of the pitch and the gain, from the range before. */
  function MainCost(rng: nat, pitch: nat): int
    requires EC_CODE_BOT < rng <= EC_CODE_TOP && MINPERIOD <= pitch <= MAXPERIOD - 2
  {
    HalfRange(rng);
    PitchSplits(pitch);
    var r, o := NormRng(Shr(rng, 1)), Octave(pitch);
    1 + (Ilog(r) - Ilog(OctaveShare(r, o))) + (4 + o) + 3
  }

  lemma HalfRange(rng: nat)
    requires EC_CODE_BOT < rng <= EC_CODE_TOP
    ensures 0 < Shr(rng, 1) <= EC_CODE_TOP && Ilog(Shr(rng, 1)) == Ilog(rng) - 1
    ensures NormRng(Shr(rng, 1)) > EC_CODE_BOT
  {
    hide Ilog, NormRng;
    assert Pow2(1) == 2;
    T.IlogShr(rng, 1);
    T.NormScales(Shr(rng, 1));
  }

  /** The octave costs two or three bits. */
  lemma OctaveCost(rng: nat, o: nat)
    requires EC_CODE_BOT < rng && o < 6
    ensures 2 <= Ilog(rng) - Ilog(OctaveShare(rng, o)) <= 3
  {
    hide Ilog;
    var share := OctaveShare(rng, o);
    assert 4 * share <= rng <= 8 * share;
    assert Pow2(2) == 4 && Pow2(3) == 8;
    T.IlogShift(share, 2);
    T.IlogShift(share, 3);
    T.IlogMonotone(share * Pow2(2), rng);
    T.IlogMonotone(rng, share * Pow2(3));
  }

  lemma OctaveCut(rng: nat, o: nat)
    requires EC_CODE_BOT < rng && o < 6
    ensures var sym := Freq(o, o + 1, 6);
      ValidSymbol(sym) && CutLow(sym, rng) - CutHigh(sym, rng) == OctaveShare(rng, o)
  {
    var u := rng / 6;
    MulSub(u, 6 - o, 1);
  }

  /** Between 10 and 16 bits. */
  lemma MainCostBounds(rng: nat, pitch: nat)
    requires EC_CODE_BOT < rng <= EC_CODE_TOP && MINPERIOD <= pitch <= MAXPERIOD - 2
    ensures Octave(pitch) + 10 <= MainCost(rng, pitch) <= Octave(pitch) + 11
    ensures 10 <= MainCost(rng, pitch) <= 16
  {
    hide Ilog, NormRng, Octave, OctaveShare;
    HalfRange(rng);
    PitchSplits(pitch);
    OctaveCost(NormRng(Shr(rng, 1)), Octave(pitch));
  }

  lemma FlagCost(e: E.Enc)
    requires R.Inv(e) && R.ValidOp(R.Coded(Flag(true, 1)))
    ensures var f := R.EncodeOp(e, R.Coded(Flag(true, 1)));
      R.Inv(f) && Used(f) == Used(e) + 1 && 0 < Shr(e.rng, 1) <= EC_CODE_TOP && f.rng == NormRng(Shr(e.rng, 1))
  {
    hide Ilog, E.EncodeSymbol, NormRng, Shr;
    HalfRange(e.rng);
    R.SymbolExtends(e, Flag(true, 1));
    SymbolCost(e, Flag(true, 1));
    E.EncodeSymbolRefines(e, Flag(true, 1));
  }

  lemma OctaveOpCost(e: E.Enc, o: nat)
    requires R.Inv(e) && o < 6
    ensures var f := R.EncodeOp(e, R.Uint(o, 6));
      R.Inv(f) && Used(f) == Used(e) + Ilog(e.rng) - Ilog(OctaveShare(e.rng, o))
  {
    assert Ilog(5) == 3 by { assert Ilog(2) == 2 && Ilog(1) == 1 && Ilog(0) == 0; }
    hide Ilog, E.EncodeSymbol, E.EncodeUint, OctaveShare;
    R.UintExtends(e, o, 6);
    R.EncodeUintSmall(e, o, 6);
    OctaveCut(e.rng, o);
    SymbolCost(e, Freq(o, o + 1, 6));
  }

  lemma RawOpCost(e: E.Enc, v: nat, bits: nat)
    requires R.Inv(e) && 1 <= bits <= 25 && v < Pow2(bits)
    ensures var f := R.EncodeOp(e, R.Raw(v, bits)); R.Inv(f) && Used(f) == Used(e) + bits
  {
    hide Ilog, E.EncodeBits;
    R.RawExtends(e, v, bits);
    E.EncodeBitsAppends(e, v, bits);
  }

  lemma RunFour(e: E.Enc, a: R.Op, b: R.Op, c: R.Op, d: R.Op)
    requires R.Runnable(e, [a, b, c, d])
    ensures R.Applicable(e, a)
    ensures var e1 := R.EncodeOp(e, a);
      R.Applicable(e1, b) && var e2 := R.EncodeOp(e1, b);
      R.Applicable(e2, c) && var e3 := R.EncodeOp(e2, c);
      R.Applicable(e3, d) && R.Run(e, [a, b, c, d]) == R.EncodeOp(e3, d)
  {
    hide R.EncodeOp, R.Applicable;
    var e1 := R.EncodeOp(e, a);
    assert [a, b, c, d][1..] == [b, c, d];
    assert R.Runnable(e1, [b, c, d]);
    var e2 := R.EncodeOp(e1, b);
    assert [b, c, d][1..] == [c, d];
    assert R.Runnable(e2, [c, d]);
    var e3 := R.EncodeOp(e2, c);
    assert [c, d][1..] == [d] && [d][1..] == [];
    assert R.Runnable(e3, [d]);
    assert R.Run(e3, [d]) == R.EncodeOp(e3, d);
    assert R.Run(e2, [c, d]) == R.Run(e3, [d]);
  }

  lemma MainCostExact(e: E.Enc, pitch: nat, qg: nat)
    requires R.Inv(e) && MINPERIOD <= pitch <= MAXPERIOD - 2 && qg < 8
    ensures Used(PutMain(e, pitch, qg)) == Used(e) + MainCost(e.rng, pitch)
  {
    hide Ilog, R.EncodeOp, R.Applicable, R.Inv, Octave, Fine, OctaveShare, NormRng, Used, Shr;
    InvRegisters(e);
    PitchSplits(pitch);
    R.AlwaysRunnable(e, MainOps(pitch, qg));
    var o := Octave(pitch);
    var op1, op2, op3, op4 := R.Coded(Flag(true, 1)), R.Uint(o, 6), R.Raw(Fine(pitch, o), 4 + o), R.Raw(qg, 3);
    RunFour(e, op1, op2, op3, op4);
    FlagCost(e);
    var e1 := R.EncodeOp(e, op1);
    OctaveOpCost(e1, o);
    var e2 := R.EncodeOp(e1, op2);
    RawOpCost(e2, Fine(pitch, o), 4 + o);
    RawOpCost(R.EncodeOp(e2, op3), qg, 3);
  }

  // ---- what arrives -----------------------------------------------------------------------------------

  /** What the decoder of a packet of `total` bits gets. */
  function Received(e: E.Enc, p: Params, tell: int, total: int): Params
    requires R.Inv(e) && ValidParams(p)
  {
    if p.Off? || tell + 16 > total then Off
    else if Used(e) + MainCost(e.rng, p.pitch) + 2 > total then p.(tapset := 0)
    else p
  }

  /** The decoder's two tests, in terms of the encoder before it writes the parameters. */
  predicate BothTests(e: E.Enc, p: Params, tell: int, total: int)
    requires R.Inv(e) && ValidParams(p)
  {
    p.On? ==> tell + 16 <= total && Used(e) + MainCost(e.rng, p.pitch) + 2 <= total
  }

  /** A tapset of 0 also arrives if the second test fails, as it is the default. */
  predicate Arrives(e: E.Enc, p: Params, tell: int, total: int)
    requires R.Inv(e) && ValidParams(p)
  {
    BothTests(e, p, tell, total) || (p.On? && p.tapset == 0 && tell + 16 <= total)
  }

  lemma OffStep(e: E.Enc, d: D.Dec, tell: int, total: int)
    requires R.Inv(e) && R.Related(e, d) && R.Carries(d.buf, PutParams(e, Off, tell, total))
    requires tell + 16 <= total <==> tell + 16 <= 8 * |d.buf|
    ensures Ready(d) && GetParams(d, tell).1 == Off && R.Related(PutParams(e, Off, tell, total), GetParams(d, tell).0)
  {
    hide R.Related, R.Carries, R.Inv, GetBit, Put;
    StateAgrees(e, d);
    if tell + 16 <= total {
      AfterSelf(PutParams(e, Off, tell, total));
      BitStepTo(e, d, 0, 1, PutParams(e, Off, tell, total));
    }
  }

  lemma GetParamsOn(d: D.Dec, tell: int)
    requires Ready(d) && tell + 16 <= 8 * |d.buf| && GetBit(d, 1).1 == 1
    ensures ValidIcdf(TAPSET_ICDF, 2)
    ensures var (d4, pitch, qg) := GetMain(GetBit(d, 1).0);
      var (d5, tapset) := GetIf(R.Tell(d4.nbitsTotal, d4.rng) + 2 <= 8 * |d.buf|, d4, TAPSET_ICDF, 2, 0);
      GetParams(d, tell) == (d5, On(pitch, qg, tapset))
  {
    hide GetBit, GetOctave, GetRaw, GetIf, R.Tell;
    TapsetIcdfValid();
  }

  /** A decoder that has skipped a symbol which narrows the range is out of step. */
  lemma SkippedSymbol(f: E.Enc, d: D.Dec, sym: Symbol)
    requires R.Inv(f) && R.Related(f, d) && ValidSymbol(sym) && CutLow(sym, f.rng) - CutHigh(sym, f.rng) < f.rng
    ensures R.Inv(Put(f, sym)) && !R.Related(Put(f, sym), d)
  {
    hide E.EncodeSymbol, CutLow, CutHigh, Ilog;
    E.EncodeSymbolRefines(f, sym);
    StateAgrees(f, d);
    if R.Related(Put(f, sym), d) { StateAgrees(Put(f, sym), d); }
  }

  /** No tapset has the whole range. */
  lemma TapsetNarrows(rng: nat, s: nat)
    requires EC_CODE_BOT < rng && s < 3
    ensures var sym := FromIcdf(s, TAPSET_ICDF, 2);
      ValidSymbol(sym) && CutLow(sym, rng) - CutHigh(sym, rng) < rng
  {
    TapsetValid(s);
    assert Pow2(2) == 4;
  }

  /** A decoder that has not followed the bit count is out of step. */
  lemma BehindIsOut(e: E.Enc, d: D.Dec, f: E.Enc)
    requires R.Inv(e) && R.Related(e, d) && R.Inv(f) && Used(f) > Used(e)
    ensures !R.Related(f, d)
  {
    hide R.Inv, R.Related, Used, R.Tell, UsedFrac;
    InvRegisters(f);
    StateAgrees(e, d);
    if R.Related(f, d) { StateAgrees(f, d); }
  }

  lemma ParamsCost(e: E.Enc, p: Params, tell: int, total: int)
    requires R.Inv(e) && ValidParams(p) && p.On?
    ensures Used(PutParams(e, p, tell, total)) >= Used(e) + 10
  {
    hide R.Inv, R.Extends, Put, PutMain, MainCost, Used, UsedFrac;
    InvRegisters(e);
    TapsetValid(p.tapset);
    var f, sym := PutMain(e, p.pitch, p.qg), FromIcdf(p.tapset, TAPSET_ICDF, 2);
    assert PutParams(e, p, tell, total) == Put(f, sym);
    hide PutParams;
    MainCostExact(e, p.pitch, p.qg);
    MainCostBounds(e.rng, p.pitch);
  }

  /** The parameters that are on: what the decoder gets, and when the coders stay in step. */
  lemma OnStep(e: E.Enc, d: D.Dec, p: Params, tell: int, total: int)
    requires R.Inv(e) && R.Related(e, d) && ValidParams(p) && p.On? && R.Carries(d.buf, PutParams(e, p, tell, total))
    ensures Ready(d) && GetParams(d, tell).1 == Received(e, p, tell, 8 * |d.buf|)
    ensures R.Related(PutParams(e, p, tell, total), GetParams(d, tell).0) <==> BothTests(e, p, tell, 8 * |d.buf|)
  {
    hide R.Related, R.Carries, R.Inv, R.Extends, GetBit, Put, PutMain, GetMain, GetIcdf, Used, R.Tell, UsedFrac,
         MainCost;
    StateAgrees(e, d);
    if tell + 16 <= 8 * |d.buf| {
      var f := PutMain(e, p.pitch, p.qg);
      MainCostExact(e, p.pitch, p.qg);
      TapsetValid(p.tapset);
      CarriesBefore(d.buf, PutParams(e, p, tell, total), f);
      MainStep(e, d, p.pitch, p.qg);
      var d1 := GetBit(d, 1).0;
      StateAgrees(f, GetMain(d1).0);
      GetParamsOn(d, tell);
      if Used(f) + 2 <= 8 * |d.buf| {
        IcdfStep(f, GetMain(d1).0, p.tapset, TAPSET_ICDF, 2);
      } else {
        InvRegisters(f);
        TapsetNarrows(f.rng, p.tapset);
        SkippedSymbol(f, GetMain(d1).0, FromIcdf(p.tapset, TAPSET_ICDF, 2));
      }
    } else {
      ParamsCost(e, p, tell, total);
      BehindIsOut(e, d, PutParams(e, p, tell, total));
    }
  }

  /** Whatever the parameters and the size of the packet, the decoder gets what Received says. It gets
      all of them, and stays in step, if and only if conditions hold that the encoder could have
      checked beforehand. */
  lemma ParamsStep(e: E.Enc, d: D.Dec, p: Params, tell: int, total: int)
    requires R.Inv(e) && R.Related(e, d) && ValidParams(p) && R.Carries(d.buf, PutParams(e, p, tell, total))
    requires p.Off? ==> (tell + 16 <= total <==> tell + 16 <= 8 * |d.buf|)
    ensures Ready(d) && GetParams(d, tell).1 == Received(e, p, tell, 8 * |d.buf|)
    ensures GetParams(d, tell).1 == p <==> Arrives(e, p, tell, 8 * |d.buf|)
    ensures R.Related(PutParams(e, p, tell, total), GetParams(d, tell).0) <==> BothTests(e, p, tell, 8 * |d.buf|)
  {
    hide R.Related, R.Carries, R.Inv, R.Extends, PutParams, GetParams, MainCost, Used;
    if p.Off? { OffStep(e, d, tell, total); } else { OnStep(e, d, p, tell, total); }
  }

  // ---- the encoder's guard -----------------------------------------------------------------------------

  /** nbAvailableBytes, when the packet is to have `bytes` bytes. */
  function Available(bytes: nat, tell: nat): int {
    bytes - (tell + 4) / 8
  }

  /** The size test of `enabled`; without it the parameters are off. */
  predicate Enabled(available: int, lfe: bool, channels: nat) {
    (lfe && available > 3) || available > 12 * channels
  }

  /** In a packet of the size the guard was computed for, both tests pass. */
  lemma GuardEnough(e: E.Enc, p: Params, tell: nat, bytes: nat, lfe: bool, channels: nat)
    requires R.Inv(e) && ValidParams(p) && Behind(tell, e) && channels >= 1
    requires p.On? ==> Enabled(Available(bytes, tell), lfe, channels)
    ensures BothTests(e, p, tell, 8 * bytes) && Arrives(e, p, tell, 8 * bytes)
  {
    hide MainCost, Used;
    InvRegisters(e);
    if p.On? { MainCostBounds(e.rng, p.pitch); }
  }

  /** Behind the silence flag of a fresh coder the tests come down to the size of the packet: everything
      arrives in three bytes or more, and nothing in less. */
  lemma FreshExactly(e: E.Enc, p: Params, bytes: nat)
    requires R.Inv(e) && ValidParams(p) && p.On? && Behind(1, e)
    ensures BothTests(e, p, 1, 8 * bytes) <==> bytes >= 3
    ensures Arrives(e, p, 1, 8 * bytes) <==> bytes >= 3
    ensures Received(e, p, 1, 8 * bytes) == if bytes >= 3 then p else Off
  {
    hide MainCost, Used;
    InvRegisters(e);
    MainCostBounds(e.rng, p.pitch);
  }

  /** And so they do after a later shrink to min_allowed. */
  lemma ShrinkHarmless(e: E.Enc, p: Params, tell: nat, larger: nat, f: E.Enc, boosted: nat, size: nat)
    requires R.Inv(e) && ValidParams(p) && Behind(tell, e) && BothTests(e, p, tell, 8 * larger)
    requires After(f, PutParams(e, p, tell, 8 * larger))
    requires MinAllowed(UsedFrac(f), boosted) <= size <= larger
    ensures BothTests(e, p, tell, 8 * size) && (tell + 16 <= 8 * larger <==> tell + 16 <= 8 * size)
  {
    hide MainCost, Used, Put, PutMain, T.TellFrac;
    var g := PutParams(e, p, tell, 8 * larger);
    InvRegisters(e);
    InvRegisters(f);
    TellBound(f, size, boosted);
    if p.On? {
      TapsetValid(p.tapset);
      MainCostExact(e, p.pitch, p.qg);
      MainCostBounds(e.rng, p.pitch);
    }
  }

  /** Whole bytes round up past any whole bit count. */
  lemma TellBound(f: E.Enc, size: nat, boosted: nat)
    requires R.Inv(f) && MinAllowed(UsedFrac(f), boosted) <= size
    ensures Used(f) + 16 <= 8 * size
  {
    T.TellRoundsUp(f.nbitsTotal, f.rng);
  }

  lemma TapsetCut(rng: nat, s: nat)
    requires EC_CODE_BOT < rng && 1 <= s < 3
    ensures var sym := FromIcdf(s, TAPSET_ICDF, 2);
      ValidSymbol(sym) && CutLow(sym, rng) - CutHigh(sym, rng) == Shr(rng, 2)
  {
    TapsetValid(s);
  }

  /** A tapset other than 0 costs exactly two bits. */
  lemma TapsetCost(f: E.Enc, s: nat)
    requires R.Inv(f) && 1 <= s < 3
    ensures ValidSymbol(FromIcdf(s, TAPSET_ICDF, 2))
    ensures Used(Put(f, FromIcdf(s, TAPSET_ICDF, 2))) == Used(f) + 2
  {
    hide Ilog, E.EncodeSymbol, CutLow, CutHigh, Shr, ValidSymbol, Used;
    TapsetCut(f.rng, s);
    SymbolCost(f, FromIcdf(s, TAPSET_ICDF, 2));
    assert Pow2(2) == 4;
    T.IlogShr(f.rng, 2);
  }

  /** In a packet that the parameters do not overrun, only the first test can fail. */
  lemma SecondTestHarmless(e: E.Enc, p: Params, tell: int, total: int)
    requires R.Inv(e) && ValidParams(p) && p.On? && Used(PutParams(e, p, tell, total)) <= total
    ensures Arrives(e, p, tell, total) <==> tell + 16 <= total
  {
    hide Used, PutMain, Put, MainCost;
    MainCostExact(e, p.pitch, p.qg);
    if p.tapset > 0 { TapsetCost(PutMain(e, p.pitch, p.qg), p.tapset); }
  }
}
