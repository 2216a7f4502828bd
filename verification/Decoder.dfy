/** The range decoder of entdec.c, step by step and with its own registers. Unlike the encoder
    it keeps the distance from the top of the range to the input, minus one. */
module Decoder {
  import opened Arith
  import opened Integers
  import opened Bits
  import opened IntervalCoder
  import opened Symbols

  datatype Dec = Dec(buf: seq<byte>, offs: nat, endOffs: nat, endWindow: nat, nendBits: nat,
                     nbitsTotal: nat, rng: nat, val: int, ext: nat, rem: byte, error: bool)

  // ---- input -------------------------------------------------------------------

  function ReadByte(d: Dec): byte {
    if d.offs < |d.buf| then d.buf[d.offs] else 0
  }

  function ReadByteFromEnd(d: Dec): byte {
    if d.endOffs < |d.buf| then d.buf[|d.buf| - (d.endOffs + 1)] else 0
  }

  function NormalizeStep(d: Dec): Dec {
    var next := ReadByte(d);
    var sym := (256 * d.rem + next) / 2;
    d.(nbitsTotal := d.nbitsTotal + 8, rng := 256 * d.rng, rem := next,
       offs := if d.offs < |d.buf| then d.offs + 1 else d.offs,
       val := (256 * d.val + (255 - sym % 256)) % EC_CODE_TOP)
  }

  function Normalize(d: Dec): Dec
    requires d.rng > 0
    decreases EC_CODE_TOP - d.rng
  {
    if d.rng <= EC_CODE_BOT then Normalize(NormalizeStep(d)) else d
  }

  function Start(s: seq<byte>): Dec {
    var rem := if |s| > 0 then s[0] else 0;
    Dec(s, if |s| > 0 then 1 else 0, 0, 0, 0, 33 - 24, 128, 127 - rem / 2, 0, rem, false)
  }

  function Init(s: seq<byte>): Dec {
    Normalize(Start(s))
  }

  // ---- symbols -----------------------------------------------------------------

  /** The cumulative frequency at the input, in an alphabet of total ft. */
  function DecodeFreq(val: nat, unit: nat, ft: nat): nat
    requires unit > 0
  {
    DivMod(val, unit);
    ft - Min(val / unit + 1, ft)
  }

  function Update(d: Dec, fl: nat, fh: nat, ft: nat): Dec
    requires fl < fh <= ft <= EC_CODE_BOT < d.rng && d.ext == d.rng / ft
  {
    BelowDecreases(d.rng, fl, fh, ft);
    UnitBounds(d.rng, ft);
    MulLe(1, fh - fl, d.ext);
    var s := d.ext * (ft - fh);
    Normalize(d.(val := d.val - s, rng := if fl > 0 then d.ext * (fh - fl) else d.rng - s))
  }

  function DecodeBit(d: Dec, logp: nat): (r: (Dec, bool))
    requires 1 <= logp && Pow2(logp) <= EC_CODE_BOT < d.rng
  {
    HalfBounds(d.rng, logp);
    var s := Shr(d.rng, logp);
    var ret := d.val < s;
    (Normalize(d.(val := if ret then d.val else d.val - s, rng := if ret then s else d.rng - s)), ret)
  }

  /** The first k with val >= r * icdf[k]. */
  function IcdfSearch(val: nat, r: nat, icdf: seq<byte>, k: nat): nat
    requires k < |icdf| && icdf[|icdf| - 1] == 0
    decreases |icdf| - k
  {
    if val < r * icdf[k] && k + 1 < |icdf| then IcdfSearch(val, r, icdf, k + 1) else k
  }

  /** What the decoder returns for the alphabet of sym. */
  function Decoded(d: Dec, sym: Symbol): nat
    requires ValidSymbol(sym) && EC_CODE_BOT < d.rng && 0 <= d.val
  {
    match sym
    case Freq(fl, fh, ft) => UnitBounds(d.rng, ft); DecodeFreq(d.val, d.rng / ft, ft)
    case BinFreq(fl, fh, bits) => UnitBounds(d.rng, Pow2(bits)); DecodeFreq(d.val, Shr(d.rng, bits), Pow2(bits))
    case Flag(one, logp) => if DecodeBit(d, logp).1 then 1 else 0
    case FromIcdf(s, icdf, ftb) => IcdfSearch(d.val, Shr(d.rng, ftb), icdf, 0)
  }

  /** What it should return: a frequency inside the symbol's interval, or the symbol itself. */
  predicate Matches(sym: Symbol, v: nat) {
    match sym
    case Freq(fl, fh, ft) => fl <= v < fh
    case BinFreq(fl, fh, bits) => fl <= v < fh
    case Flag(one, _) => v == (if one then 1 else 0)
    case FromIcdf(s, _, _) => v == s
  }

  /** The threshold just above symbol s. */
  function IcdfTop(rng: nat, s: nat, icdf: seq<byte>, ftb: nat): nat
    requires s < |icdf|
  {
    if s > 0 then Shr(rng, ftb) * icdf[s - 1] else rng
  }

  function DecodeIcdf(d: Dec, s: nat, icdf: seq<byte>, ftb: nat): Dec
    requires s < |icdf| && Shr(d.rng, ftb) * icdf[s] < IcdfTop(d.rng, s, icdf, ftb)
  {
    var r := Shr(d.rng, ftb);
    Normalize(d.(val := d.val - r * icdf[s], rng := IcdfTop(d.rng, s, icdf, ftb) - r * icdf[s]))
  }

  /** The decoder after reading sym. */
  function Advance(d: Dec, sym: Symbol): Dec
    requires ValidSymbol(sym) && EC_CODE_BOT < d.rng
  {
    match sym
    case Freq(fl, fh, ft) => Update(d.(ext := d.rng / ft), fl, fh, ft)
    case BinFreq(fl, fh, bits) => Update(d.(ext := Shr(d.rng, bits)), fl, fh, Pow2(bits))
    case Flag(one, logp) => DecodeBit(d, logp).0
    case FromIcdf(s, icdf, ftb) => CutBounds(sym, d.rng); DecodeIcdf(d, s, icdf, ftb)
  }

  // ---- what the registers mean -------------------------------------------------

  /** m bytes have been read, all but the last bit of which are in use. */
  ghost predicate Reading(d: Dec, top: nat, m: nat) {
    && m >= 1
    && d.val == top - 1 - Prefix(d.buf, m) / 2
    && d.rem == ByteAt(d.buf, m - 1)
    && d.offs == Min(m, |d.buf|)
  }

  /** The decoder stands at interval i, which contains its input. */
  ghost predicate At(d: Dec, i: Interval) {
    && d.rng == i.rng <= EC_CODE_TOP && 0 <= d.val < d.rng
    && Reading(d, i.low + i.rng, i.shifts + 4)
  }

  /** The eight bits shifted in straddle two bytes: one bit of rem and seven of next. */
  lemma ShiftIn(p: nat, q: nat, rem: byte, next: byte, val: int, top: int)
    requires p == 256 * q + rem && val == top - 1 - p / 2 && 0 <= val < EC_CODE_BOT
    ensures var sym := (256 * rem + next) / 2;
      var v := (256 * val + (255 - sym % 256)) % EC_CODE_TOP;
      v == 256 * top - 1 - (256 * p + next) / 2 && 256 * val <= v < 256 * val + 256
  {
    var sym := (256 * rem + next) / 2;
    DivUnique(p, 2, 128 * q + rem / 2, rem % 2);
    DivUnique(256 * p + next, 2, 128 * p + next / 2, next % 2);
    DivUnique(256 * rem + next, 2, 128 * rem + next / 2, next % 2);
    DivUnique(sym, 256, rem / 2, 128 * (rem % 2) + next / 2);
  }

  lemma ReadingStep(d: Dec, top: nat, m: nat)
    requires Reading(d, top, m) && 0 <= d.val < EC_CODE_BOT
    ensures var r := NormalizeStep(d);
      && Reading(r, 256 * top, m + 1)
      && 256 * d.val <= r.val < 256 * d.val + 256
      && r == d.(nbitsTotal := d.nbitsTotal + 8, rng := 256 * d.rng, rem := r.rem, offs := r.offs, val := r.val)
  {
    ShiftIn(Prefix(d.buf, m), Prefix(d.buf, m - 1), d.rem, ReadByte(d), d.val, top);
  }

  lemma {:induction false} NormalizeAt(d: Dec, i: Interval)
    requires At(d, i) && i.rng > 0
    ensures var r := Normalize(d);
      && At(r, Rescale(i))
      && r.rng == NormRng(d.rng) && r.nbitsTotal == d.nbitsTotal + 8 * NormShifts(d.rng)
      && r == d.(nbitsTotal := r.nbitsTotal, rng := r.rng, rem := r.rem, offs := r.offs, val := r.val)
    decreases EC_CODE_TOP - i.rng
  {
    if d.rng <= EC_CODE_BOT {
      ReadingStep(d, i.low + i.rng, i.shifts + 4);
      NormalizeAt(NormalizeStep(d), Interval(256 * i.low, 256 * i.rng, i.shifts + 1));
    }
  }

  /** Whatever the input, decoding starts at the whole range. */
  lemma InitAt(s: seq<byte>)
    ensures At(Init(s), Whole)
    ensures Init(s).nbitsTotal == 33 && Init(s).buf == s && !Init(s).error
    ensures Init(s).endOffs == 0 && Init(s).endWindow == 0 && Init(s).nendBits == 0
  {
    var d0 := Start(s);
    assert Prefix(s, 1) == 256 * Prefix(s, 0) + ByteAt(s, 0);
    ReadingStep(d0, 128, 1);
    var d1 := NormalizeStep(d0);
    ReadingStep(d1, 0x8000, 2);
    var d2 := NormalizeStep(d1);
    ReadingStep(d2, EC_CODE_BOT, 3);
    var d3 := NormalizeStep(d2);
    assert Normalize(d0) == Normalize(d1) == Normalize(d2) == Normalize(d3) == d3;
  }

  /** The decoder's distance from the top says whether the input lies in a slice. */
  lemma CutCovers(d: Dec, i: Interval, a: nat, b: nat)
    requires At(d, i) && a < b <= i.rng
    ensures Covers(Narrow(i, a, b), d.buf) <==> a <= d.val < b
  {
  }

  /** ec_decode returns a frequency of the symbol exactly when the input is in its slice. */
  lemma DecodeFreqMatches(rng: nat, val: nat, fl: nat, fh: nat, ft: nat)
    requires fl < fh <= ft <= rng && val < rng
    ensures rng / ft > 0
    ensures fl <= DecodeFreq(val, rng / ft, ft) < fh <==> Below(rng, fh, ft) <= val < Below(rng, fl, ft)
  {
    UnitBounds(rng, ft);
    var u := rng / ft;
    DivLessIff(val, u, ft - fl);
    DivLessIff(val, u, ft - fh);
  }

  /** The search stops at the symbol whose slice holds the input, and only there. */
  lemma {:induction false} IcdfSearchMatches(val: nat, r: nat, icdf: seq<byte>, s: nat, k: nat)
    requires k <= s < |icdf| && icdf[|icdf| - 1] == 0
    requires forall i, j :: 0 <= i < j < |icdf| ==> icdf[i] >= icdf[j]
    requires k > 0 ==> val < r * icdf[k - 1]
    ensures IcdfSearch(val, r, icdf, k) == s <==> r * icdf[s] <= val && (s > 0 ==> val < r * icdf[s - 1])
    decreases s - k
  {
    if k < s {
      MulLe(icdf[s - 1], icdf[k], r);
      assert icdf[s - 1] * r == r * icdf[s - 1] && icdf[k] * r == r * icdf[k];
      if val < r * icdf[k] {
        IcdfSearchMatches(val, r, icdf, s, k + 1);
      }
    } else if val < r * icdf[k] && k + 1 < |icdf| {
      IcdfSearchBeyond(val, r, icdf, k + 1);
    } else if k + 1 == |icdf| {
      assert icdf[k] == 0 && r * icdf[k] == 0;
    }
  }

  lemma {:induction false} IcdfSearchBeyond(val: nat, r: nat, icdf: seq<byte>, k: nat)
    requires k < |icdf| && icdf[|icdf| - 1] == 0
    ensures k <= IcdfSearch(val, r, icdf, k) < |icdf|
    decreases |icdf| - k
  {
    if val < r * icdf[k] && k + 1 < |icdf| { IcdfSearchBeyond(val, r, icdf, k + 1); }
  }

  /** For every alphabet: the right symbol is decoded if and only if the input is in its slice. */
  lemma DecodedMatches(d: Dec, sym: Symbol)
    requires ValidSymbol(sym) && EC_CODE_BOT < d.rng && 0 <= d.val < d.rng
    ensures Matches(sym, Decoded(d, sym)) <==> CutHigh(sym, d.rng) <= d.val < CutLow(sym, d.rng)
  {
    match sym
    case Freq(fl, fh, ft) => DecodeFreqMatches(d.rng, d.val, fl, fh, ft);
    case BinFreq(fl, fh, bits) => DecodeFreqMatches(d.rng, d.val, fl, fh, Pow2(bits));
    case Flag(one, logp) => HalfBounds(d.rng, logp);
    case FromIcdf(s, icdf, ftb) => IcdfSearchMatches(d.val, Shr(d.rng, ftb), icdf, s, 0);
  }

  function Cut(d: Dec, a: nat, b: nat): Dec
    requires a < b
  {
    d.(val := d.val - a, rng := b - a)
  }

  /** The factor ec_decode leaves in ext for ec_dec_update. */
  ghost function SavedUnit(d: Dec, sym: Symbol): nat
    requires ValidSymbol(sym)
  {
    match sym
    case Freq(fl, fh, ft) => DivMod(d.rng, ft); d.rng / ft
    case BinFreq(_, _, bits) => Shr(d.rng, bits)
    case _ => d.ext
  }

  lemma UpdateCuts(d: Dec, fl: nat, fh: nat, ft: nat)
    requires fl < fh <= ft <= EC_CODE_BOT < d.rng && d.ext == d.rng / ft
    ensures Below(d.rng, fh, ft) < Below(d.rng, fl, ft)
    ensures Update(d, fl, fh, ft) == Normalize(Cut(d, Below(d.rng, fh, ft), Below(d.rng, fl, ft)))
  {
    BelowDecreases(d.rng, fl, fh, ft);
    MulDist(d.ext, ft - fh, fh - fl);
  }

  lemma AdvanceCuts(d: Dec, sym: Symbol)
    requires ValidSymbol(sym) && EC_CODE_BOT < d.rng
    requires CutHigh(sym, d.rng) <= d.val < CutLow(sym, d.rng)
    ensures CutHigh(sym, d.rng) < CutLow(sym, d.rng)
    ensures Advance(d, sym) == Normalize(Cut(d.(ext := SavedUnit(d, sym)), CutHigh(sym, d.rng), CutLow(sym, d.rng)))
  {
    CutBounds(sym, d.rng);
    match sym
    case Freq(fl, fh, ft) =>
      UnitBounds(d.rng, ft);
      UpdateCuts(d.(ext := d.rng / ft), fl, fh, ft);
    case BinFreq(fl, fh, bits) =>
      UpdateCuts(d.(ext := Shr(d.rng, bits)), fl, fh, Pow2(bits));
    case Flag(one, logp) =>
      HalfBounds(d.rng, logp);
    case FromIcdf(s, icdf, ftb) =>
  }

  /** Reading the right symbol moves the decoder to that symbol's slice of the interval. */
  lemma AdvanceAt(d: Dec, i: Interval, sym: Symbol)
    requires ValidSymbol(sym) && At(d, i) && EC_CODE_BOT < d.rng
    requires Matches(sym, Decoded(d, sym))
    ensures var a, b, r := CutHigh(sym, d.rng), CutLow(sym, d.rng), Advance(d, sym);
      && a < b <= i.rng && At(r, Rescale(Narrow(i, a, b)))
      && r.rng == NormRng(b - a) && r.nbitsTotal == d.nbitsTotal + 8 * NormShifts(b - a)
      && r == d.(nbitsTotal := r.nbitsTotal, rng := r.rng, rem := r.rem, offs := r.offs, val := r.val, ext := r.ext)
  {
    DecodedMatches(d, sym);
    CutBounds(sym, d.rng);
    AdvanceCuts(d, sym);
    var a, b := CutHigh(sym, d.rng), CutLow(sym, d.rng);
    NormalizeAt(Cut(d.(ext := SavedUnit(d, sym)), a, b), Narrow(i, a, b));
  }

  // ---- raw bits ------------------------------------------------------------------

  /** Add bytes to the window, at least one, while there is room. */
  function Refill(d: Dec): (r: Dec)
    ensures r.nendBits > 24
    decreases 32 - d.nendBits
  {
    var r := RefillStep(d);
    if r.nendBits <= 24 then Refill(r) else r
  }

  function RefillStep(d: Dec): Dec {
    d.(endWindow := BitOr(d.endWindow, Shl(ReadByteFromEnd(d), d.nendBits)), nendBits := d.nendBits + 8,
       endOffs := if d.endOffs < |d.buf| then d.endOffs + 1 else d.endOffs)
  }

  function DecodeBits(d: Dec, bits: nat): (r: (Dec, nat))
    requires bits <= 25
    ensures r.1 < Pow2(bits)
  {
    var f := if d.nendBits < bits then Refill(d) else d;
    (f.(endWindow := Shr(f.endWindow, bits), nendBits := f.nendBits - bits,
        nbitsTotal := f.nbitsTotal + bits),
     Low(f.endWindow, bits))
  }

  /** pos raw bits have been consumed; the window holds the next ones. */
  ghost predicate RawAt(d: Dec, pos: nat) {
    WindowAt(d.buf, d.endOffs, d.endWindow, d.nendBits, pos)
  }

  ghost predicate WindowAt(buf: seq<byte>, endOffs: nat, window: nat, available: nat, pos: nat) {
    var n := (pos + available) / 8;
    && pos + available == 8 * n && available <= 32
    && endOffs == Min(n, |buf|)
    && window < Pow2(available)
    && ToBits(window, available) == TailBits(buf, n)[pos..]
  }

  lemma ByteFits(v: byte)
    ensures v < Pow2(EC_SYM_BITS)
  {
    Pow2Values();
  }

  lemma WindowGrows(buf: seq<byte>, n: nat, window: nat, available: nat, pos: nat)
    requires WindowAt(buf, Min(n, |buf|), window, available, pos) && available <= 24 && pos + available == 8 * n
    ensures WindowAt(buf, Min(n + 1, |buf|), BitOr(window, Shl(TailByte(buf, n), available)),
                     available + EC_SYM_BITS, pos)
  {
    hide Pow2, BitOr, Shl, ToBits, TailBits;
    var v := TailByte(buf, n);
    ByteFits(v);
    PackWindow(window, available, v, EC_SYM_BITS);
    TailBitsSnoc(buf, n);
    assert (pos + available) / 8 == n && (pos + (available + EC_SYM_BITS)) / 8 == n + 1;
    assert TailBits(buf, n + 1)[pos..] == TailBits(buf, n)[pos..] + ToBits(v, EC_SYM_BITS);
  }

  lemma RefillStepAt(d: Dec, pos: nat)
    requires RawAt(d, pos) && d.nendBits <= 24
    ensures RawAt(RefillStep(d), pos)
  {
    var n := (pos + d.nendBits) / 8;
    WindowGrows(d.buf, n, d.endWindow, d.nendBits, pos);
    assert ReadByteFromEnd(d) == TailByte(d.buf, n);
  }

  lemma {:induction false} RefillAt(d: Dec, pos: nat)
    requires RawAt(d, pos) && d.nendBits <= 24
    ensures var r := Refill(d);
      && RawAt(r, pos) && 24 < r.nendBits
      && r == d.(endWindow := r.endWindow, nendBits := r.nendBits, endOffs := r.endOffs)
    decreases 32 - d.nendBits
  {
    RefillStepAt(d, pos);
    if RefillStep(d).nendBits <= 24 { RefillAt(RefillStep(d), pos); }
  }

  lemma TakeBitsAt(f: Dec, pos: nat, bits: nat)
    requires RawAt(f, pos) && bits <= f.nendBits
    ensures var n := (pos + f.nendBits) / 8;
      && pos + bits <= 8 * n
      && WindowAt(f.buf, f.endOffs, Shr(f.endWindow, bits), f.nendBits - bits, pos + bits)
      && ToBits(Low(f.endWindow, bits), bits) == TailBits(f.buf, n)[pos..pos + bits]
  {
    var n := (pos + f.nendBits) / 8;
    var rest := f.nendBits - bits;
    ToBitsSplit(f.endWindow, bits, rest);
    ShrBounds(f.endWindow, f.endWindow, bits, rest);
    SplitSuffix(TailBits(f.buf, n), pos, ToBits(Low(f.endWindow, bits), bits), ToBits(Shr(f.endWindow, bits), rest));
  }

  lemma EnoughBits(d: Dec, pos: nat, bits: nat)
    requires RawAt(d, pos) && bits <= 25
    ensures var f := if d.nendBits < bits then Refill(d) else d;
      && RawAt(f, pos) && bits <= f.nendBits
      && f == d.(endWindow := f.endWindow, nendBits := f.nendBits, endOffs := f.endOffs)
      && DecodeBits(d, bits).0 == f.(endWindow := Shr(f.endWindow, bits), nendBits := f.nendBits - bits,
                                     nbitsTotal := f.nbitsTotal + bits)
      && DecodeBits(d, bits).1 == Low(f.endWindow, bits)
  {
    if d.nendBits < bits { RefillAt(d, pos); }
  }

  lemma DecodeBitsMoves(d: Dec, pos: nat, bits: nat)
    requires RawAt(d, pos) && bits <= 25
    ensures RawAt(DecodeBits(d, bits).0, pos + bits)
  {
    hide Refill, ToBits, TailBits, Pow2;
    EnoughBits(d, pos, bits);
    TakeBitsAt(if d.nendBits < bits then Refill(d) else d, pos, bits);
  }

  /** The bits returned are the next ones of the raw stream; the range coder is not disturbed. */
  lemma DecodeBitsValue(d: Dec, pos: nat, bits: nat, n: nat)
    requires RawAt(d, pos) && bits <= 25 && pos + bits <= 8 * n
    ensures var (r, v) := DecodeBits(d, bits);
      && ToBits(v, bits) == TailBits(d.buf, n)[pos..pos + bits]
      && r == d.(endWindow := r.endWindow, nendBits := r.nendBits, endOffs := r.endOffs,
                 nbitsTotal := d.nbitsTotal + bits)
  {
    hide Refill, ToBits, TailBits, Pow2, DecodeBits, BitOr;
    EnoughBits(d, pos, bits);
    var f := if d.nendBits < bits then Refill(d) else d;
    TakeBitsAt(f, pos, bits);
    TailBitsAgree(d.buf, (pos + f.nendBits) / 8, n, pos, pos + bits);
  }

  /** ec_decode and ec_dec_update for one of ft equally likely values. */
  function DecodeUniform(d: Dec, ft: nat): (r: (Dec, nat))
    requires 1 <= ft <= EC_CODE_BOT < d.rng && 0 <= d.val
    ensures r.1 < ft
  {
    UnitBounds(d.rng, ft);
    var s := DecodeFreq(d.val, d.rng / ft, ft);
    (Update(d.(ext := d.rng / ft), s, s + 1, ft), s)
  }

  function DecodeUint(d: Dec, ft: nat): (Dec, nat)
    requires 2 <= ft < 0x1_0000_0000 && EC_CODE_BOT < d.rng && 0 <= d.val
  {
    UintArithmetic(0, ft);
    var ftb := Ilog(ft - 1);
    if ftb > EC_UINT_BITS then
      var k := ftb - EC_UINT_BITS;
      var (d1, s) := DecodeUniform(d, Shr(ft - 1, k) + 1);
      var (d2, low) := DecodeBits(d1, k);
      var t := BitOr(Shl(s, k), low);
      if t <= ft - 1 then (d2, t) else (d2.(error := true), ft - 1)
    else
      DecodeUniform(d, ft)
  }

  /** The range-coded part of a large integer, and k raw bits below it. */
  function Composed(d: Dec, ft: nat): (r: (Dec, nat))
    requires 256 < ft < 0x1_0000_0000 && EC_CODE_BOT < d.rng && 0 <= d.val
  {
    UintTop(ft);
    UintArithmetic(0, ft);
    var k := Ilog(ft - 1) - EC_UINT_BITS;
    var (d1, s) := DecodeUniform(d, Shr(ft - 1, k) + 1);
    var (d2, low) := DecodeBits(d1, k);
    MulLe(0, s, Pow2(k));
    (d2, s * Pow2(k) + low)
  }

  /** What ec_dec_uint makes of any stream: the smaller of the composed value and ft - 1, and error is set
      exactly when the composed value is out of range. A small alphabet yields no such value. */
  lemma UintClamps(d: Dec, ft: nat)
    requires 2 <= ft < 0x1_0000_0000 && EC_CODE_BOT < d.rng && 0 <= d.val
    ensures ft <= 256 ==> DecodeUint(d, ft) == DecodeUniform(d, ft) && DecodeUint(d, ft).1 < ft
    ensures ft > 256 ==> var (r, v) := Composed(d, ft);
      DecodeUint(d, ft) == (r.(error := r.error || v >= ft), Min(v, ft - 1))
  {
    hide Ilog, DecodeUniform, DecodeBits, Pow2, BitOr;
    UintTop(ft);
    UintArithmetic(0, ft);
    if ft > 256 {
      var k := Ilog(ft - 1) - EC_UINT_BITS;
      var (d1, s) := DecodeUniform(d, Shr(ft - 1, k) + 1);
      var low := DecodeBits(d1, k).1;
      OrDisjoint(low, s, k);
    }
  }
}
