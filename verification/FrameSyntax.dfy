/** The side information of a CELT frame (celt_encoder.c, celt_decoder.c): time-frequency flags,
    spreading, band boosts and allocation trim, each coded only while a bit budget lasts. Encoder
    and decoder take every such decision from their own coder state. */
module FrameSyntax {
  import opened Arith
  import opened Integers
  import opened Bits
  import opened IntervalCoder
  import opened Symbols
  import T = Tell
  import E = Encoder
  import D = Decoder
  import R = RoundTrip
  import opened Flush
  import opened TfAnalysis

  // ---- single symbols under a budget ------------------------------------------------------

  function Used(e: E.Enc): int {
    R.Tell(e.nbitsTotal, e.rng)
  }

  function UsedFrac(e: E.Enc): int
    requires e.rng > EC_CODE_BOT
  {
    T.TellFrac(e.nbitsTotal, e.rng)
  }

  /** f comes from e by coding symbols: what e has committed to stays, and bits are only used up. */
  ghost predicate After(f: E.Enc, e: E.Enc)
    requires R.Inv(e)
  {
    && R.Inv(f) && R.Extends(f, e) && f.storage == e.storage
    && Used(e) <= Used(f) && UsedFrac(e) <= UsedFrac(f)
  }

  lemma AfterSelf(e: E.Enc)
    requires R.Inv(e)
    ensures After(e, e)
  {
    R.NestedSelf(E.Abs(e));
  }

  lemma InvRegisters(e: E.Enc)
    requires R.Inv(e)
    ensures e.rem < 256 && EC_CODE_BOT < e.rng <= EC_CODE_TOP && UsedFrac(e) == T.TellFrac(e.nbitsTotal, e.rng)
  {
  }

  lemma AfterTransitive(g: E.Enc, f: E.Enc, e: E.Enc)
    requires R.Inv(e) && After(f, e) && After(g, f)
    ensures After(g, e)
  {
    hide R.Inv, R.Extends, Used, UsedFrac;
    InvRegisters(e);
    InvRegisters(f);
    InvRegisters(g);
    R.ExtendsTransitive(g, f, e);
  }

  lemma SymbolAfter(e: E.Enc, sym: Symbol)
    requires R.Inv(e) && ValidSymbol(sym)
    ensures After(E.EncodeSymbol(e, sym), e)
  {
    hide E.EncodeSymbol, Nested, E.Abs, E.RawBits;
    R.SymbolExtends(e, sym);
    E.EncodeSymbolRefines(e, sym);
    CutBounds(sym, e.rng);
    T.CountsGrow(e.nbitsTotal, e.rng, CutLow(sym, e.rng) - CutHigh(sym, e.rng));
  }

  lemma RawAfter(e: E.Enc, v: nat, bits: nat)
    requires R.Inv(e) && bits <= 25 && v < Pow2(bits)
    ensures After(E.EncodeBits(e, v, bits), e)
  {
    hide E.EncodeBits, Nested, E.Abs, E.RawBits, Ilog, T.Log8;
    R.RawExtends(e, v, bits);
    E.EncodeBitsAppends(e, v, bits);
  }

  /** Every call but a shrink. */
  lemma OpAfter(e: E.Enc, op: R.Op)
    requires R.Applicable(e, op) && !op.Resize?
    ensures After(R.EncodeOp(e, op), e)
  {
    hide E.EncodeSymbol, E.EncodeBits, E.EncodeUint, After;
    match op
    case Coded(sym) => SymbolAfter(e, sym);
    case Raw(v, bits) => RawAfter(e, v, bits);
    case Uint(v, ft) =>
      if Ilog(ft - 1) > EC_UINT_BITS {
        var k := Ilog(ft - 1) - EC_UINT_BITS;
        var sym := R.EncodeUintLarge(e, v, ft, k);
        R.SymbolExtends(e, sym);
        SymbolAfter(e, sym);
        RawAfter(E.EncodeSymbol(e, sym), Low(v, k), k);
        AfterTransitive(E.EncodeUint(e, v, ft), E.EncodeSymbol(e, sym), e);
      } else {
        R.EncodeUintSmall(e, v, ft);
        SymbolAfter(e, Freq(v, v + 1, ft));
      }
  }

  /** Every run of calls without a shrink. */
  lemma {:induction false} RunAfter(e: E.Enc, ops: seq<R.Op>)
    requires R.Inv(e) && forall i :: 0 <= i < |ops| ==> R.ValidOp(ops[i]) && !ops[i].Resize?
    ensures R.Runnable(e, ops) && After(R.Run(e, ops), e)
    decreases |ops|
  {
    hide After, R.EncodeOp;
    R.AlwaysRunnable(e, ops);
    if ops == [] {
      AfterSelf(e);
    } else {
      var e1 := R.EncodeOp(e, ops[0]);
      R.OpExtends(e, ops[0]);
      OpAfter(e, ops[0]);
      RunAfter(e1, ops[1..]);
      AfterTransitive(R.Run(e1, ops[1..]), e1, e);
    }
  }

  function Put(e: E.Enc, sym: Symbol): (r: E.Enc)
    requires R.Inv(e) && ValidSymbol(sym)
    ensures After(r, e)
  {
    SymbolAfter(e, sym);
    E.EncodeSymbol(e, sym)
  }

  /** A decoder state in which any call is defined, whatever the stream holds. */
  predicate Ready(d: D.Dec) {
    EC_CODE_BOT < d.rng <= EC_CODE_TOP && 0 <= d.val < d.rng
  }

  lemma {:induction false} NormalizeReady(d: D.Dec)
    requires 0 < d.rng <= EC_CODE_TOP && 0 <= d.val < d.rng
    ensures Ready(D.Normalize(d)) && D.Normalize(d).buf == d.buf
    decreases EC_CODE_TOP - d.rng
  {
    if d.rng <= EC_CODE_BOT {
      var n := D.NormalizeStep(d);
      assert 256 * d.val + 255 < 256 * d.rng <= EC_CODE_TOP;
      NormalizeReady(n);
    }
  }

  function GetBit(d: D.Dec, logp: nat): (r: (D.Dec, flag))
    requires Ready(d) && 1 <= logp <= 16
    ensures Ready(r.0) && r.0.buf == d.buf
  {
    Pow2Monotone(logp, 16);
    Pow2Values();
    HalfBounds(d.rng, logp);
    var s := Shr(d.rng, logp);
    NormalizeReady(if d.val < s then d.(rng := s) else d.(val := d.val - s, rng := d.rng - s));
    var (r, one) := D.DecodeBit(d, logp);
    (r, if one then 1 else 0)
  }

  function Bit(b: flag, logp: nat): (sym: Symbol)
    requires 1 <= logp <= 16
    ensures ValidSymbol(sym)
  {
    Pow2Monotone(logp, 16);
    Pow2Values();
    Flag(b == 1, logp)
  }

  /** One bit, when the stream is known to carry this state or a later one. */
  lemma BitStepTo(e: E.Enc, d: D.Dec, b: flag, logp: nat, f: E.Enc)
    requires 1 <= logp <= 16 && R.Inv(e) && R.Related(e, d)
    requires After(f, Put(e, Bit(b, logp))) && R.Carries(d.buf, f)
    ensures Ready(d)
    ensures var (r, v) := GetBit(d, logp); v == b && R.Related(Put(e, Bit(b, logp)), r)
  {
    hide E.EncodeSymbol;
    R.CarriesEarlier(d.buf, f, Put(e, Bit(b, logp)));
    R.SymbolStep(e, d, Bit(b, logp));
  }

  lemma StateAgrees(e: E.Enc, d: D.Dec)
    requires R.Inv(e) && R.Related(e, d)
    ensures Ready(d) && d.rng == e.rng && d.nbitsTotal == e.nbitsTotal && Used(e) == R.Tell(d.nbitsTotal, d.rng)
  {
  }

  function GetIcdf(d: D.Dec, icdf: seq<byte>, ftb: nat): (r: (D.Dec, nat))
    requires Ready(d) && ValidIcdf(icdf, ftb)
    ensures Ready(r.0) && r.0.buf == d.buf && r.1 < |icdf|
  {
    var s := D.IcdfSearch(d.val, Shr(d.rng, ftb), icdf, 0);
    IcdfSearchStops(d, icdf, ftb);
    NormalizeReady(d.(val := d.val - Shr(d.rng, ftb) * icdf[s],
                      rng := D.IcdfTop(d.rng, s, icdf, ftb) - Shr(d.rng, ftb) * icdf[s]));
    (D.DecodeIcdf(d, s, icdf, ftb), s)
  }

  /** The search finds the slice of the input. */
  lemma IcdfSearchStops(d: D.Dec, icdf: seq<byte>, ftb: nat)
    requires Ready(d) && ValidIcdf(icdf, ftb)
    ensures var s := D.IcdfSearch(d.val, Shr(d.rng, ftb), icdf, 0);
      s < |icdf| && 0 <= Shr(d.rng, ftb) * icdf[s] <= d.val < D.IcdfTop(d.rng, s, icdf, ftb) <= EC_CODE_TOP
  {
    var r := Shr(d.rng, ftb);
    D.IcdfSearchBeyond(d.val, r, icdf, 0);
    var s := D.IcdfSearch(d.val, r, icdf, 0);
    D.IcdfSearchMatches(d.val, r, icdf, s, 0);
    MulLe(0, r, icdf[s]);
    if s > 0 {
      UnitBounds(d.rng, Pow2(ftb));
      MulLe(icdf[s - 1], Pow2(ftb), r);
      MulCommute(icdf[s - 1], r);
      MulCommute(Pow2(ftb), r);
    }
  }

  lemma IcdfStep(e: E.Enc, d: D.Dec, s: nat, icdf: seq<byte>, ftb: nat)
    requires ValidSymbol(FromIcdf(s, icdf, ftb)) && R.Inv(e) && R.Related(e, d)
    requires R.Carries(d.buf, Put(e, FromIcdf(s, icdf, ftb)))
    ensures Ready(d)
    ensures var (r, v) := GetIcdf(d, icdf, ftb); v == s && R.Related(Put(e, FromIcdf(s, icdf, ftb)), r)
  {
    hide E.EncodeSymbol;
    R.SymbolStep(e, d, FromIcdf(s, icdf, ftb));
  }

  /** The decoder may have fewer bits than the encoder reckoned with (the packet was shrunk later),
      as long as there are enough for every test that succeeded: none used more than top. */
  predicate SameTests(encoderBits: int, decoderBits: int, top: int) {
    decoderBits == encoderBits || top <= decoderBits <= encoderBits
  }

  // ---- tf_encode and tf_decode -------------------------------------------------------------------

  predicate Likelihoods(logp: nat, later: nat) {
    1 <= logp <= 5 && 1 <= later <= 5
  }

  function Or(a: flag, b: flag): flag {
    if a == 1 then 1 else b
  }

  function Xor(a: flag, b: flag): flag {
    if a == b then 0 else 1
  }

  lemma XorTwice(a: flag, b: flag)
    ensures Xor(a, Xor(b, a)) == b
  {
  }

  /** One flag per band, coded as a change from the band before; where the budget does not allow
      it the flag is not sent and stays as it was. */
  function EncodeFlags(e: E.Enc, flags: seq<flag>, budget: int, logp: nat, later: nat, curr: flag, changed: flag)
    : (r: (E.Enc, seq<flag>, flag))
    requires R.Inv(e) && Likelihoods(logp, later)
    ensures After(r.0, e) && |r.1| == |flags|
    decreases |flags|
  {
    AfterSelf(e);
    if flags == [] then (e, [], changed)
    else if Used(e) + logp <= budget then
      var e1 := Put(e, Bit(Xor(flags[0], curr), logp));
      var (f, out, c) := EncodeFlags(e1, flags[1..], budget, later, later, flags[0], Or(changed, flags[0]));
      AfterTransitive(f, e1, e);
      (f, [flags[0]] + out, c)
    else
      var (f, out, c) := EncodeFlags(e, flags[1..], budget, later, later, curr, changed);
      (f, [curr] + out, c)
  }

  function DecodeFlags(d: D.Dec, n: nat, budget: int, logp: nat, later: nat, curr: flag, changed: flag)
    : (r: (D.Dec, seq<flag>, flag))
    requires Ready(d) && Likelihoods(logp, later)
    ensures Ready(r.0) && r.0.buf == d.buf && |r.1| == n
    decreases n
  {
    if n == 0 then (d, [], changed)
    else if R.Tell(d.nbitsTotal, d.rng) + logp <= budget then
      var (d1, b) := GetBit(d, logp);
      var now := Xor(curr, b);
      var (r, out, c) := DecodeFlags(d1, n - 1, budget, later, later, now, Or(changed, now));
      (r, [now] + out, c)
    else
      var (r, out, c) := DecodeFlags(d, n - 1, budget, later, later, curr, changed);
      (r, [curr] + out, c)
  }

  lemma {:induction false} FlagsStep(e: E.Enc, d: D.Dec, flags: seq<flag>, be: int, bd: int, logp: nat, later: nat,
                                     curr: flag, changed: flag)
    requires R.Inv(e) && Likelihoods(logp, later) && R.Related(e, d)
    requires var f := EncodeFlags(e, flags, be, logp, later, curr, changed).0;
      R.Carries(d.buf, f) && SameTests(be, bd, Used(f) + 5)
    ensures Ready(d)
    ensures var (f, out, c) := EncodeFlags(e, flags, be, logp, later, curr, changed);
      var (r, out', c') := DecodeFlags(d, |flags|, bd, logp, later, curr, changed);
      out' == out && c' == c && R.Related(f, r)
    decreases |flags|
  {
    hide GetBit, Bit, Put, R.Inv, R.Related, R.Extends, R.Carries, Used, UsedFrac, R.Tell, Or, Xor;
    StateAgrees(e, d);
    if flags == [] {
    } else {
      var now := if Used(e) + logp <= be then flags[0] else curr;
      var changed' := if Used(e) + logp <= be then Or(changed, flags[0]) else changed;
      var b := Xor(flags[0], curr);
      var e1, d1 := e, d;
      if Used(e) + logp <= be {
        e1 := Put(e, Bit(b, logp));
        var f := EncodeFlags(e1, flags[1..], be, later, later, now, changed').0;
        BitStepTo(e, d, b, logp, f);
        d1 := GetBit(d, logp).0;
        XorTwice(curr, flags[0]);
      }
      FlagsStep(e1, d1, flags[1..], be, bd, later, later, now, changed');
    }
  }

  /** The resolution changes the flags stand for. */
  function TfChanges(flags: seq<flag>, lm: nat, isTransient: bool, sel: flag): (res: seq<int>)
    requires lm < 4
    ensures |res| == |flags|
  {
    seq(|flags|, i requires 0 <= i < |flags| => TfChange(lm, isTransient, sel, flags[i]))
  }

  /** tf_select is only coded if it makes a difference. */
  predicate SelectMatters(lm: nat, isTransient: bool, changed: flag)
    requires lm < 4
  {
    TfChange(lm, isTransient, 0, changed) != TfChange(lm, isTransient, 1, changed)
  }

  function FirstLogp(isTransient: bool): nat {
    if isTransient then 2 else 4
  }

  function LaterLogp(isTransient: bool): nat {
    if isTransient then 4 else 5
  }

  /** tf_encode: the encoder, and what it leaves in tf_res. */
  function TfEncode(e: E.Enc, flags: seq<flag>, isTransient: bool, lm: nat, tfSelect: flag): (r: (E.Enc, seq<int>))
    requires R.Inv(e) && lm < 4
    ensures After(r.0, e) && |r.1| == |flags|
  {
    var logp := FirstLogp(isTransient);
    var rsv := lm > 0 && Used(e) + logp + 1 <= 8 * e.storage;
    var budget := 8 * e.storage - if rsv then 1 else 0;
    var (f, out, changed) := EncodeFlags(e, flags, budget, logp, LaterLogp(isTransient), 0, 0);
    if rsv && SelectMatters(lm, isTransient, changed) then
      var g := Put(f, Bit(tfSelect, 1));
      AfterTransitive(g, f, e);
      (g, TfChanges(out, lm, isTransient, tfSelect))
    else
      (f, TfChanges(out, lm, isTransient, 0))
  }

  /** tf_decode */
  function TfDecode(d: D.Dec, n: nat, isTransient: bool, lm: nat): (r: (D.Dec, seq<int>))
    requires Ready(d) && lm < 4
    ensures Ready(r.0) && r.0.buf == d.buf && |r.1| == n
  {
    var logp := FirstLogp(isTransient);
    var rsv := lm > 0 && R.Tell(d.nbitsTotal, d.rng) + logp + 1 <= 8 * |d.buf|;
    var budget := 8 * |d.buf| - if rsv then 1 else 0;
    var (f, out, changed) := DecodeFlags(d, n, budget, logp, LaterLogp(isTransient), 0, 0);
    var (g, tfSelect) := if rsv && SelectMatters(lm, isTransient, changed) then GetBit(f, 1) else (f, 0 as flag);
    (g, TfChanges(out, lm, isTransient, tfSelect))
  }

  /** The decoder ends with the encoder's tf_res, also where the budget ran out. */
  lemma TfStep(e: E.Enc, d: D.Dec, flags: seq<flag>, isTransient: bool, lm: nat, tfSelect: flag, f: E.Enc)
    requires R.Inv(e) && lm < 4 && R.Related(e, d)
    requires After(f, TfEncode(e, flags, isTransient, lm, tfSelect).0) && R.Carries(d.buf, f)
    requires SameTests(8 * e.storage, 8 * |d.buf|, Used(f) + 6)
    ensures Ready(d)
    ensures var (e1, res) := TfEncode(e, flags, isTransient, lm, tfSelect);
      var (d1, res') := TfDecode(d, |flags|, isTransient, lm);
      res' == res && R.Related(e1, d1)
  {
    hide GetBit, Bit, Put, R.Inv, R.Related, R.Extends, R.Carries, Used, UsedFrac, R.Tell, SelectMatters, TfChanges,
         EncodeFlags, DecodeFlags;
    StateAgrees(e, d);
    var logp := FirstLogp(isTransient);
    var rsv := lm > 0 && Used(e) + logp + 1 <= 8 * e.storage;
    var r := if rsv then 1 else 0;
    var (g, out, changed) := EncodeFlags(e, flags, 8 * e.storage - r, logp, LaterLogp(isTransient), 0, 0);
    var e1 := TfEncode(e, flags, isTransient, lm, tfSelect).0;
    AfterSelf(g);
    AfterTransitive(f, e1, g);
    CarriesBefore(d.buf, f, g);
    CarriesBefore(d.buf, f, e1);
    FlagsStep(e, d, flags, 8 * e.storage - r, 8 * |d.buf| - r, logp, LaterLogp(isTransient), 0, 0);
    if rsv && SelectMatters(lm, isTransient, changed) {
      var d1 := DecodeFlags(d, |flags|, 8 * |d.buf| - r, logp, LaterLogp(isTransient), 0, 0).0;
      BitStepTo(g, d1, tfSelect, 1, f);
    }
  }

  // ---- band boosts (dynalloc) -------------------------------------------------------------------

  /** What both sides know of a band: its samples and the most it may be boosted. */
  datatype Band = Band(width: nat, cap: int)

  ghost predicate Wide(bands: seq<Band>) {
    forall i :: 0 <= i < |bands| ==> bands[i].width > 0
  }

  /** One step of boost: 6 bits, but between 1/8 bit and 1 bit a sample. */
  function Quanta(width: nat): (q: nat)
    ensures width > 0 ==> q > 0
  {
    Min(8 * width, Max(48, width))
  }

  /** The cost of starting a boost falls with each boosted band. */
  function NextLogp(logp: nat, boosted: bool): nat {
    if boosted then Max(2, logp - 1) else logp
  }

  /** One band: a bit per step taken and one to stop. Returns the encoder, the boost and the steps. */
  function EncodeBoost(e: E.Enc, want: int, j: nat, boost: nat, total: int, logp: nat, cap: int, quanta: nat)
    : (r: (E.Enc, nat, nat))
    requires R.Inv(e) && quanta > 0 && 1 <= logp <= 6 && (j > 0 <==> boost > 0)
    ensures After(r.0, e) && r.1 >= boost && (r.2 > 0 <==> r.1 > 0)
    decreases Max(0, cap - boost)
  {
    AfterSelf(e);
    if UsedFrac(e) + 8 * logp < total - boost && boost < cap then
      var b: flag := if j < want then 1 else 0;
      var e1 := Put(e, Bit(b, logp));
      if b == 0 then (e1, boost, j)
      else
        var r := EncodeBoost(e1, want, j + 1, boost + quanta, total, 1, cap, quanta);
        AfterTransitive(r.0, e1, e);
        r
    else (e, boost, j)
  }

  function DecodeBoost(d: D.Dec, boost: nat, total: int, logp: nat, cap: int, quanta: nat): (r: (D.Dec, nat))
    requires Ready(d) && quanta > 0 && 1 <= logp <= 6
    ensures Ready(r.0) && r.0.buf == d.buf && r.1 >= boost
    decreases Max(0, cap - boost)
  {
    if T.TellFrac(d.nbitsTotal, d.rng) + 8 * logp < total - boost && boost < cap then
      var (d1, b) := GetBit(d, logp);
      if b == 0 then (d1, boost) else DecodeBoost(d1, boost + quanta, total, 1, cap, quanta)
    else (d, boost)
  }

  /** be and bd are what the two sides have before the boosts of this band. */
  lemma {:induction false} BoostStep(e: E.Enc, d: D.Dec, want: int, j: nat, boost: nat, be: int, bd: int, logp: nat,
                                     cap: int, quanta: nat)
    requires R.Inv(e) && quanta > 0 && 1 <= logp <= 6 && (j > 0 <==> boost > 0) && R.Related(e, d)
    requires var (f, b, _) := EncodeBoost(e, want, j, boost, be, logp, cap, quanta);
      R.Carries(d.buf, f) && SameTests(be, bd, UsedFrac(f) + 49 + b)
    ensures Ready(d)
    ensures var (f, b, _) := EncodeBoost(e, want, j, boost, be, logp, cap, quanta);
      var (r, b') := DecodeBoost(d, boost, bd, logp, cap, quanta);
      b' == b && R.Related(f, r)
    decreases Max(0, cap - boost)
  {
    hide GetBit, Bit, Put, R.Inv, R.Related, R.Extends, R.Carries, Used, R.Tell, T.TellFrac;
    StateAgrees(e, d);
    if UsedFrac(e) + 8 * logp < be - boost && boost < cap {
      var b: flag := if j < want then 1 else 0;
      var e1 := Put(e, Bit(b, logp));
      var f := EncodeBoost(e, want, j, boost, be, logp, cap, quanta).0;
      if b == 0 { AfterSelf(e1); }
      BitStepTo(e, d, b, logp, f);
      if b == 1 {
        BoostStep(e1, GetBit(d, logp).0, want, j + 1, boost + quanta, be, bd, 1, cap, quanta);
      }
    }
  }

  /** All bands: the encoder, the boosts, and the bits left. */
  function EncodeDynalloc(e: E.Enc, bands: seq<Band>, want: seq<int>, logp: nat, total: int)
    : (r: (E.Enc, seq<nat>, int))
    requires R.Inv(e) && 2 <= logp <= 6 && |want| == |bands| && Wide(bands)
    ensures After(r.0, e) && |r.1| == |bands| && r.2 <= total
    decreases |bands|
  {
    AfterSelf(e);
    if bands == [] then (e, [], total)
    else
      var (e1, boost, j) := EncodeBoost(e, want[0], 0, 0, total, logp, bands[0].cap, Quanta(bands[0].width));
      var (f, rest, left) := EncodeDynalloc(e1, bands[1..], want[1..], NextLogp(logp, j > 0), total - boost);
      AfterTransitive(f, e1, e);
      (f, [boost] + rest, left)
  }

  function DecodeDynalloc(d: D.Dec, bands: seq<Band>, logp: nat, total: int): (r: (D.Dec, seq<nat>, int))
    requires Ready(d) && 2 <= logp <= 6 && Wide(bands)
    ensures Ready(r.0) && r.0.buf == d.buf && |r.1| == |bands|
    decreases |bands|
  {
    if bands == [] then (d, [], total)
    else
      var (d1, boost) := DecodeBoost(d, 0, total, logp, bands[0].cap, Quanta(bands[0].width));
      var (r, rest, left) := DecodeDynalloc(d1, bands[1..], NextLogp(logp, boost > 0), total - boost);
      (r, [boost] + rest, left)
  }

  /** The decoder recovers every boost, and both sides count the same bits as spent on them. */
  lemma {:induction false} DynallocStep(e: E.Enc, d: D.Dec, bands: seq<Band>, want: seq<int>, logp: nat, be: int,
                                        bd: int, g: E.Enc)
    requires R.Inv(e) && 2 <= logp <= 6 && |want| == |bands| && Wide(bands) && R.Related(e, d)
    requires var (f, _, left) := EncodeDynalloc(e, bands, want, logp, be);
      After(g, f) && R.Carries(d.buf, g) && SameTests(be, bd, UsedFrac(g) + 49 + (be - left))
    ensures Ready(d)
    ensures var (f, boosts, left) := EncodeDynalloc(e, bands, want, logp, be);
      var (r, boosts', left') := DecodeDynalloc(d, bands, logp, bd);
      boosts' == boosts && bd - left' == be - left && R.Related(f, r)
    decreases |bands|
  {
    hide EncodeBoost, DecodeBoost, R.Inv, R.Related, R.Extends, R.Carries, Used, R.Tell, T.TellFrac, UsedFrac;
    StateAgrees(e, d);
    if bands != [] {
      var cap, quanta := bands[0].cap, Quanta(bands[0].width);
      var (e1, boost, j) := EncodeBoost(e, want[0], 0, 0, be, logp, cap, quanta);
      var f := EncodeDynalloc(e1, bands[1..], want[1..], NextLogp(logp, j > 0), be - boost).0;
      AfterTransitive(g, f, e1);
      CarriesBefore(d.buf, g, e1);
      BoostStep(e, d, want[0], 0, 0, be, bd, logp, cap, quanta);
      var d1 := DecodeBoost(d, 0, bd, logp, cap, quanta).0;
      DynallocStep(e1, d1, bands[1..], want[1..], NextLogp(logp, j > 0), be - boost, bd - boost, g);
    }
  }

  lemma CarriesBefore(s: seq<byte>, f: E.Enc, e: E.Enc)
    requires R.Inv(e) && After(f, e) && R.Carries(s, f)
    ensures R.Carries(s, e)
  {
    R.CarriesEarlier(s, f, e);
  }

  // ---- the header as a whole ------------------------------------------------------------------------

  const SPREAD_ICDF: seq<byte> := [25, 23, 2, 0]
  const SPREAD_NORMAL := 2
  const TRIM_ICDF: seq<byte> := [126, 124, 119, 109, 87, 41, 19, 9, 4, 2, 0]
  const DEFAULT_TRIM := 5

  datatype Header = Header(flags: seq<flag>, isTransient: bool, lm: nat, tfSelect: flag, spread: nat,
                           bands: seq<Band>, want: seq<int>, trim: nat)

  ghost predicate ValidHeader(h: Header) {
    h.lm < 4 && h.spread < 4 && h.trim < 11 && |h.want| == |h.bands| && Wide(h.bands)
  }

  lemma IcdfsValid()
    ensures Pow2(5) == 32 && Pow2(7) == 128 && ValidIcdf(SPREAD_ICDF, 5) && ValidIcdf(TRIM_ICDF, 7)
    ensures forall s: nat :: s < 4 ==> ValidSymbol(FromIcdf(s, SPREAD_ICDF, 5))
    ensures forall s: nat :: s < 11 ==> ValidSymbol(FromIcdf(s, TRIM_ICDF, 7))
  {
  }

  /** A symbol that is only coded if the budget allows it, and its default. */
  function PutIf(ok: bool, e: E.Enc, sym: Symbol): (r: E.Enc)
    requires R.Inv(e) && ValidSymbol(sym)
    ensures After(r, e)
  {
    AfterSelf(e);
    if ok then Put(e, sym) else e
  }

  function GetIf(ok: bool, d: D.Dec, icdf: seq<byte>, ftb: nat, default: nat): (r: (D.Dec, nat))
    requires Ready(d) && ValidIcdf(icdf, ftb)
    ensures Ready(r.0) && r.0.buf == d.buf
  {
    if ok then GetIcdf(d, icdf, ftb) else (d, default)
  }

  lemma GuardedStep(ok: bool, e: E.Enc, d: D.Dec, s: nat, icdf: seq<byte>, ftb: nat, default: nat, f: E.Enc)
    requires ValidSymbol(FromIcdf(s, icdf, ftb)) && R.Inv(e) && R.Related(e, d)
    requires After(f, PutIf(ok, e, FromIcdf(s, icdf, ftb))) && R.Carries(d.buf, f)
    ensures Ready(d)
    ensures var (r, v) := GetIf(ok, d, icdf, ftb, default);
      v == (if ok then s else default) && R.Related(PutIf(ok, e, FromIcdf(s, icdf, ftb)), r)
  {
    hide Put, GetIcdf, R.Inv, R.Related, R.Carries;
    StateAgrees(e, d);
    CarriesBefore(d.buf, f, PutIf(ok, e, FromIcdf(s, icdf, ftb)));
    if ok { IcdfStep(e, d, s, icdf, ftb); }
  }

  function SpreadSymbol(h: Header): (sym: Symbol)
    requires ValidHeader(h)
    ensures ValidSymbol(sym)
  {
    IcdfsValid();
    FromIcdf(h.spread, SPREAD_ICDF, 5)
  }

  function TrimSymbol(h: Header): (sym: Symbol)
    requires ValidHeader(h)
    ensures ValidSymbol(sym)
  {
    IcdfsValid();
    FromIcdf(h.trim, TRIM_ICDF, 7)
  }

  /** What the decoder needs from the header. */
  datatype Fields = Fields(tfRes: seq<int>, spread: nat, boosts: seq<nat>, boosted: int, trim: nat)

  /** From tf_encode to the allocation trim, for a packet of e.storage bytes. */
  function EncodeHeader(e: E.Enc, h: Header): (r: (E.Enc, Fields))
    requires R.Inv(e) && ValidHeader(h)
    ensures After(r.0, e)
  {
    var (e1, tfRes) := TfEncode(e, h.flags, h.isTransient, h.lm, h.tfSelect);
    var spreadOk := Used(e1) + 4 <= 8 * e.storage;
    var e2 := PutIf(spreadOk, e1, SpreadSymbol(h));
    AfterTransitive(e2, e1, e);
    var total := 64 * e.storage;
    var (e3, boosts, left) := EncodeDynalloc(e2, h.bands, h.want, 6, total);
    AfterTransitive(e3, e2, e);
    var trimOk := UsedFrac(e3) + 48 <= left;
    var e4 := PutIf(trimOk, e3, TrimSymbol(h));
    AfterTransitive(e4, e3, e);
    (e4, Fields(tfRes, if spreadOk then h.spread else SPREAD_NORMAL, boosts, total - left,
                if trimOk then h.trim else DEFAULT_TRIM))
  }

  /** The decoder knows the bands, the frame size and whether the frame is transient. */
  function DecodeHeader(d: D.Dec, n: nat, isTransient: bool, lm: nat, bands: seq<Band>): (r: (D.Dec, Fields))
    requires Ready(d) && lm < 4 && Wide(bands)
    ensures Ready(r.0) && r.0.buf == d.buf
  {
    IcdfsValid();
    var (d1, tfRes) := TfDecode(d, n, isTransient, lm);
    var (d2, spread) := GetIf(R.Tell(d1.nbitsTotal, d1.rng) + 4 <= 8 * |d.buf|, d1, SPREAD_ICDF, 5, SPREAD_NORMAL);
    var total := 64 * |d.buf|;
    var (d3, boosts, left) := DecodeDynalloc(d2, bands, 6, total);
    var (d4, trim) := GetIf(T.TellFrac(d3.nbitsTotal, d3.rng) + 48 <= left, d3, TRIM_ICDF, 7, DEFAULT_TRIM);
    (d4, Fields(tfRes, spread, boosts, total - left, trim))
  }

  /** min_allowed: the least size a frame may be shrunk to once its header is written. */
  function MinAllowed(usedFrac: int, boosted: int): int {
    (usedFrac + boosted + 63) / 64 + 2
  }

  /** A packet of min_allowed bytes or more passes every test the encoder's larger packet passed. */
  lemma MarginEnough(f: E.Enc, boosted: nat, larger: nat, size: nat)
    requires R.Inv(f) && (size == larger || MinAllowed(UsedFrac(f), boosted) <= size <= larger)
    ensures SameTests(8 * larger, 8 * size, Used(f) + 6)
    ensures SameTests(64 * larger, 64 * size, UsedFrac(f) + 49 + boosted)
  {
    T.TellRoundsUp(f.nbitsTotal, f.rng);
  }

  ghost predicate Agrees(f: E.Enc, fields: Fields, r: (D.Dec, Fields))
    requires f.rem < 256
  {
    r.1 == fields && R.Related(f, r.0)
  }

  /** The decoder recovers the whole header, from the packet as encoded or shrunk to min_allowed. */
  lemma HeaderStep(e: E.Enc, d: D.Dec, h: Header)
    requires R.Inv(e) && ValidHeader(h) && R.Related(e, d)
    requires var (f, fields) := EncodeHeader(e, h);
      && R.Carries(d.buf, f)
      && (|d.buf| == e.storage || MinAllowed(UsedFrac(f), fields.boosted) <= |d.buf| <= e.storage)
    ensures Ready(d)
    ensures var (f, fields) := EncodeHeader(e, h);
      Agrees(f, fields, DecodeHeader(d, |h.flags|, h.isTransient, h.lm, h.bands))
  {
    hide TfEncode, TfDecode, EncodeDynalloc, DecodeDynalloc, PutIf, GetIf, SpreadSymbol, TrimSymbol,
         R.Inv, R.Related, R.Carries, R.Extends, Used, UsedFrac, R.Tell, T.TellFrac, MinAllowed;
    StateAgrees(e, d);
    var (e1, tfRes) := TfEncode(e, h.flags, h.isTransient, h.lm, h.tfSelect);
    var spreadOk := Used(e1) + 4 <= 8 * e.storage;
    var e2 := PutIf(spreadOk, e1, SpreadSymbol(h));
    var (e3, boosts, left) := EncodeDynalloc(e2, h.bands, h.want, 6, 64 * e.storage);
    InvRegisters(e3);
    var trimOk := UsedFrac(e3) + 48 <= left;
    var f := PutIf(trimOk, e3, TrimSymbol(h));
    MarginEnough(f, 64 * e.storage - left, e.storage, |d.buf|);
    AfterTransitive(f, e3, e2);
    AfterTransitive(f, e2, e1);
    AfterSelf(f);
    TfStep(e, d, h.flags, h.isTransient, h.lm, h.tfSelect, f);
    var d1 := TfDecode(d, |h.flags|, h.isTransient, h.lm).0;
    HeaderSymbols(h);
    CarriesBefore(d.buf, f, e2);
    GuardedStep(spreadOk, e1, d1, h.spread, SPREAD_ICDF, 5, SPREAD_NORMAL, f);
    var d2 := GetIf(spreadOk, d1, SPREAD_ICDF, 5, SPREAD_NORMAL).0;
    DynallocStep(e2, d2, h.bands, h.want, 6, 64 * e.storage, 64 * |d.buf|, f);
    var d3 := DecodeDynalloc(d2, h.bands, 6, 64 * |d.buf|).0;
    GuardedStep(trimOk, e3, d3, h.trim, TRIM_ICDF, 7, DEFAULT_TRIM, f);
    StateAgrees(e1, d1);
    StateAgrees(e3, d3);
  }

  lemma HeaderSymbols(h: Header)
    requires ValidHeader(h)
    ensures SpreadSymbol(h) == FromIcdf(h.spread, SPREAD_ICDF, 5) && ValidIcdf(SPREAD_ICDF, 5)
    ensures TrimSymbol(h) == FromIcdf(h.trim, TRIM_ICDF, 7) && ValidIcdf(TRIM_ICDF, 7)
  {
    IcdfsValid();
  }

  // ---- a whole frame ------------------------------------------------------------------------------

  /** The decoder after the calls that match ops. */
  ghost function DecodeRun(e: E.Enc, d: D.Dec, ops: seq<R.Op>): D.Dec
    requires R.Runnable(e, ops) && R.Lockstep(e, d, ops)
    decreases |ops|
  {
    if ops == [] then d else DecodeRun(R.EncodeOp(e, ops[0]), R.DecodeOp(d, ops[0]).0, ops[1..])
  }

  lemma {:induction false} RunStep(e: E.Enc, d: D.Dec, ops: seq<R.Op>)
    requires R.Runnable(e, ops) && R.Related(e, d)
    requires R.Run(e, ops).rem < 256 && R.Carries(d.buf, R.Run(e, ops))
    ensures R.Lockstep(e, d, ops) && R.Inv(R.Run(e, ops))
    ensures R.Related(R.Run(e, ops), DecodeRun(e, d, ops)) && DecodeRun(e, d, ops).buf == d.buf
    decreases |ops|
  {
    hide R.Related, R.Carries, R.EncodeOp, R.DecodeOp, R.Extends;
    R.LockstepHolds(e, d, ops);
    R.RunExtends(e, ops);
    if ops != [] {
      var e1 := R.EncodeOp(e, ops[0]);
      R.OpExtends(e, ops[0]);
      R.RunExtends(e1, ops[1..]);
      R.CarriesEarlier(d.buf, R.Run(e1, ops[1..]), e1);
      R.OpStep(e, d, ops[0]);
      RunStep(e1, R.DecodeOp(d, ops[0]).0, ops[1..]);
    }
  }

  /** Shrinking to min_allowed always leaves room for what is written. */
  lemma ShrinkFits(f: E.Enc, boosted: nat, size: nat)
    requires R.Inv(f) && !f.error && MinAllowed(UsedFrac(f), boosted) <= size <= f.storage
    ensures R.Applicable(f, R.Resize(size))
  {
    hide T.TellFrac, Used;
    T.TellRoundsUp(f.nbitsTotal, f.rng);
    IlogBounds(f.rng);
    Pow2Values();
    if Ilog(f.rng) > 32 { Pow2Monotone(32, Ilog(f.rng) - 1); }
    Written(f);
  }

  /** Bytes written are among the bits counted. */
  lemma Written(f: E.Enc)
    requires R.Inv(f) && !f.error
    ensures 8 * (|f.out| + |f.tail|) <= f.nbitsTotal - 33
  {
  }

  /** A frame from coupled coders e0 and d0 on: e is the encoder once the header is due, f once it is
      written, s once shrunk to no less than min_allowed, g at the end; what is coded before and after
      is any run of calls. On a packet of the final size the decoder recovers everything. */
  lemma FrameStep(e0: E.Enc, d0: D.Dec, before: seq<R.Op>, e: E.Enc, h: Header, f: E.Enc, fields: Fields, s: E.Enc,
                  after: seq<R.Op>, g: E.Enc)
    requires R.Runnable(e0, before) && e == R.Run(e0, before) && R.Inv(e0) && R.Related(e0, d0)
    requires R.Inv(e) && ValidHeader(h) && (f, fields) == EncodeHeader(e, h)
    requires s.storage == f.storage || MinAllowed(UsedFrac(f), fields.boosted) <= s.storage <= f.storage
    requires R.Applicable(f, R.Resize(s.storage)) && s == E.Shrink(f, s.storage)
    requires R.Runnable(s, after) && g == R.Run(s, after)
    requires R.Inv(g) && R.Carries(d0.buf, g) && |d0.buf| == s.storage
    ensures R.Lockstep(e0, d0, before)
    ensures var d := DecodeRun(e0, d0, before);
      && Ready(d)
      && var (r, fields') := DecodeHeader(d, |h.flags|, h.isTransient, h.lm, h.bands);
      && fields' == fields
      && R.Lockstep(s, r, after)
  {
    hide EncodeHeader, DecodeHeader, MinAllowed, R.Related, R.Carries, R.Extends, R.Lockstep, UsedFrac, E.Shrink;
    var buf := d0.buf;
    R.OpExtends(f, R.Resize(s.storage));
    R.RunExtends(s, after);
    InvRegisters(s);
    InvRegisters(f);
    R.CarriesEarlier(buf, g, s);
    R.CarriesEarlier(buf, s, f);
    CarriesBefore(buf, f, e);
    RunStep(e0, d0, before);
    var d := DecodeRun(e0, d0, before);
    HeaderStep(e, d, h);
    var r := DecodeHeader(d, |h.flags|, h.isTransient, h.lm, h.bands).0;
    R.OpStep(f, r, R.Resize(s.storage));
    RunStep(s, r, after);
  }

  /** A frame from a fresh encoder on: if ec_enc_done reports no error, the decoder recovers it. */
  lemma FrameRoundTrip(size0: nat, before: seq<R.Op>, e: E.Enc, h: Header, f: E.Enc, fields: Fields, s: E.Enc,
                       after: seq<R.Op>, g: E.Enc)
    requires R.Runnable(E.Init(size0), before) && e == R.Run(E.Init(size0), before)
    requires R.Inv(e) && ValidHeader(h) && (f, fields) == EncodeHeader(e, h)
    requires s.storage == f.storage || MinAllowed(UsedFrac(f), fields.boosted) <= s.storage <= f.storage
    requires R.Applicable(f, R.Resize(s.storage)) && s == E.Shrink(f, s.storage)
    requires R.Runnable(s, after) && g == R.Run(s, after)
    requires R.Inv(g) && g.storage == s.storage && Finish(g).Done?
    ensures var d0 := D.Init(Finish(g).buf);
      && R.Lockstep(E.Init(size0), d0, before)
      && var d := DecodeRun(E.Init(size0), d0, before);
      && Ready(d)
      && var (r, fields') := DecodeHeader(d, |h.flags|, h.isTransient, h.lm, h.bands);
      && fields' == fields
      && R.Lockstep(s, r, after)
  {
    hide EncodeHeader, DecodeHeader, Finish, MinAllowed, R.Related, R.Carries, R.Extends, R.Lockstep, UsedFrac,
         E.Shrink;
    R.FinishCarries(g);
    R.InitRelated(size0, Finish(g).buf);
    FrameStep(E.Init(size0), D.Init(Finish(g).buf), before, e, h, f, fields, s, after, g);
  }
}
