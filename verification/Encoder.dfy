/** The range encoder of entenc.c, step by step and with its own registers: `out` is the part
    of the buffer already written from the front, `tail` the part written from the back
    (tail[0] is the last byte of the buffer). */
module Encoder {
  import opened Bits
  import opened IntervalCoder
  import opened Symbols
  import opened Arith

  const EC_SYM_MAX := 255

  datatype Enc = Enc(storage: nat, out: seq<byte>, tail: seq<byte>,
                     endWindow: nat, nendBits: nat, nbitsTotal: nat,
                     rng: nat, val: nat, rem: int, ext: nat, error: bool)

  function Init(size: nat): Enc {
    Enc(size, [], [], 0, 0, 33, EC_CODE_TOP, 0, -1, 0, false)
  }

  // ---- output ------------------------------------------------------------------

  function WriteByte(e: Enc, v: nat): Enc {
    if |e.out| + |e.tail| >= e.storage then e.(error := true) else e.(out := e.out + [ToByte(v)])
  }

  function WriteByteAtEnd(e: Enc, v: nat): Enc {
    if |e.out| + |e.tail| >= e.storage then e.(error := true) else e.(tail := e.tail + [ToByte(v)])
  }

  /** The buffered symbols that were awaiting a carry. */
  function FlushExt(e: Enc, sym: nat): Enc
    decreases e.ext
  {
    if e.ext == 0 then e else FlushExt(WriteByte(e, sym).(ext := e.ext - 1), sym)
  }

  function CarryOut(e: Enc, c: nat): Enc {
    if c != EC_SYM_MAX then
      var carry := c / 256;
      var e1 := if e.rem >= 0 then WriteByte(e, e.rem + carry) else e;
      FlushExt(e1, (EC_SYM_MAX + carry) % 256).(rem := c % 256)
    else
      e.(ext := e.ext + 1)
  }

  function NormalizeStep(e: Enc): Enc {
    CarryOut(e, e.val / EC_CODE_BOT).(val := (256 * e.val) % EC_CODE_TOP, rng := 256 * e.rng,
                                      nbitsTotal := e.nbitsTotal + 8)
  }

  function Normalize(e: Enc): Enc
    requires e.rng > 0
    decreases EC_CODE_TOP - e.rng
  {
    if e.rng <= EC_CODE_BOT then Normalize(NormalizeStep(e)) else e
  }

  // ---- what the registers mean -------------------------------------------------

  function Repeat(b: byte, k: nat): (s: seq<byte>)
    ensures |s| == k
  {
    if k == 0 then [] else Repeat(b, k - 1) + [b]
  }

  function Digits(e: Enc): seq<byte>
    requires e.rem < 256
  {
    (if e.rem >= 0 then e.out + [e.rem] else e.out) + Repeat(255, e.ext)
  }

  function Value(s: seq<byte>): nat {
    Prefix(s, |s|)
  }

  /** Bytes written, then rem, then ext bytes of 0xFF, then val: the low end of an interval. */
  ghost function Abs(e: Enc): Interval
    requires e.rem < 256
  {
    Interval(Value(Digits(e)) * EC_CODE_TOP + e.val, e.rng, |Digits(e)|)
  }

  /** A carry can be absorbed: it never reaches past the first byte, nor into a buffered byte
      that already is 255. */
  ghost predicate CarryInv(e: Enc) {
    && (!e.error ==> |e.out| + |e.tail| <= e.storage)
    && 0 < e.rng <= EC_CODE_TOP
    && e.val + e.rng < 0x1_0000_0000
    && -1 <= e.rem <= 255
    && (e.rem == -1 || e.rem == 255 ==> e.val + e.rng <= EC_CODE_TOP)
  }

  // ---- big-endian values ---------------------------------------------------------

  lemma {:induction false} PrefixAppend(s: seq<byte>, t: seq<byte>, m: nat)
    requires m <= |s|
    ensures Prefix(s + t, m) == Prefix(s, m)
  {
    if m > 0 {
      PrefixAppend(s, t, m - 1);
    }
  }

  lemma ValueSnoc(s: seq<byte>, c: byte)
    ensures Value(s + [c]) == 256 * Value(s) + c
  {
    PrefixAppend(s, [c], |s|);
  }

  /** A carry ripples through a run of 0xFF bytes and leaves zeros. */
  lemma {:induction false} CarryRipple(s: seq<byte>, t: seq<byte>, k: nat)
    requires Value(t) == Value(s) + 1
    ensures Value(t + Repeat(0, k)) == Value(s + Repeat(255, k)) + 1
  {
    if k == 0 {
      assert t + Repeat(0, k) == t && s + Repeat(255, k) == s;
    } else {
      CarryRipple(s, t, k - 1);
      ValueSnoc(t + Repeat(0, k - 1), 0);
      ValueSnoc(s + Repeat(255, k - 1), 255);
      assert t + Repeat(0, k) == t + Repeat(0, k - 1) + [0];
      assert s + Repeat(255, k) == s + Repeat(255, k - 1) + [255];
    }
  }

  lemma {:induction false} RepeatFront(b: byte, k: nat)
    ensures [b] + Repeat(b, k) == Repeat(b, k + 1)
  {
    if k > 0 {
      RepeatFront(b, k - 1);
      assert [b] + Repeat(b, k) == ([b] + Repeat(b, k - 1)) + [b];
    }
  }

  /** Only `out` and `error` depend on whether the writes found space. */
  lemma {:induction false} FlushExtResult(e: Enc, sym: byte)
    ensures var r := FlushExt(e, sym);
      && r == e.(out := r.out, ext := 0, error := r.error)
      && (e.error ==> r.error)
      && (!r.error ==> r.out == e.out + Repeat(sym, e.ext))
      && (!r.error && |e.out| + |e.tail| <= e.storage ==> |r.out| + |r.tail| <= r.storage)
      && (!e.error && |e.out| + |e.tail| + e.ext <= e.storage ==> !r.error)
    decreases e.ext
  {
    if e.ext == 0 {
      assert e.out + Repeat(sym, 0) == e.out;
    } else {
      var e1 := WriteByte(e, sym).(ext := e.ext - 1);
      FlushExtResult(e1, sym);
      RepeatFront(sym, e.ext - 1);
      if !FlushExt(e1, sym).error {
        assert e.out + Repeat(sym, e.ext) == (e.out + [sym]) + Repeat(sym, e.ext - 1);
      }
    }
  }

  /** The digits of e with a carry added to the last one that can take it. */
  lemma FlushedValue(e: Enc, carry: nat)
    requires carry <= 1 && -1 <= e.rem <= 255
    requires e.rem == -1 || e.rem == 255 ==> carry == 0
    ensures var front := if e.rem >= 0 then e.out + [e.rem + carry] else e.out;
      var body := front + Repeat(if carry == 1 then 0 else 255, e.ext);
      Value(body) == Value(Digits(e)) + carry && |body| == |Digits(e)|
  {
    if carry == 1 {
      ValueSnoc(e.out, e.rem);
      ValueSnoc(e.out, e.rem + 1);
      CarryRipple(e.out + [e.rem], e.out + [e.rem + 1], e.ext);
    }
  }

  lemma CarryOutFrame(e: Enc, c: nat)
    requires c < 512
    ensures var r := CarryOut(e, c);
      && r == e.(out := r.out, rem := r.rem, ext := r.ext, error := r.error)
      && (e.error ==> r.error)
      && (!r.error && |e.out| + |e.tail| <= e.storage ==> |r.out| + |r.tail| <= r.storage)
      && r.rem == (if c == EC_SYM_MAX then e.rem else c % 256)
  {
    if c != EC_SYM_MAX {
      var carry := c / 256;
      var e1 := if e.rem >= 0 then WriteByte(e, e.rem + carry) else e;
      FlushExtResult(e1, (EC_SYM_MAX + carry) % 256);
    }
  }

  lemma CarryOutFlushes(e: Enc, c: nat)
    requires c < 512 && c != EC_SYM_MAX && -1 <= e.rem <= 255
    requires e.rem == -1 || e.rem == 255 ==> c < 256
    requires !CarryOut(e, c).error
    ensures var carry, r := c / 256, CarryOut(e, c);
      && r.out == (if e.rem >= 0 then e.out + [e.rem + carry] else e.out) + Repeat(if carry == 1 then 0 else 255, e.ext)
      && r.rem == c % 256 && r.ext == 0
  {
    var carry := c / 256;
    var e1 := if e.rem >= 0 then WriteByte(e, e.rem + carry) else e;
    FlushExtResult(e1, (EC_SYM_MAX + carry) % 256);
  }

  /** Symbol c, with its carry bit, becomes the next digit of the number written so far. */
  lemma CarryOutDigit(e: Enc, c: nat)
    requires c < 512 && -1 <= e.rem <= 255
    requires e.rem == -1 || e.rem == 255 ==> c < 256
    requires !CarryOut(e, c).error
    ensures CarryOut(e, c).rem < 256
    ensures Value(Digits(CarryOut(e, c))) == 256 * Value(Digits(e)) + c
    ensures |Digits(CarryOut(e, c))| == |Digits(e)| + 1
  {
    var r := CarryOut(e, c);
    if c == EC_SYM_MAX {
      ValueSnoc(Digits(e), 255);
      assert Digits(r) == Digits(e) + [255];
    } else {
      CarryOutFlushes(e, c);
      FlushedValue(e, c / 256);
      DigitsFlushed(r);
    }
  }

  lemma DigitsFlushed(r: Enc)
    requires 0 <= r.rem < 256 && r.ext == 0
    ensures Value(Digits(r)) == 256 * Value(r.out) + r.rem && |Digits(r)| == |r.out| + 1
  {
    ValueSnoc(r.out, r.rem);
    assert Digits(r) == r.out + [r.rem];
  }

  lemma NormalizeStepRefines(e: Enc)
    requires CarryInv(e) && e.rng <= EC_CODE_BOT
    ensures var r := NormalizeStep(e);
      && CarryInv(r) && (e.error ==> r.error)
      && r == e.(out := r.out, rem := r.rem, ext := r.ext, error := r.error,
                 val := r.val, rng := 256 * e.rng, nbitsTotal := e.nbitsTotal + 8)
      && (!r.error ==> Abs(r) == Interval(256 * Abs(e).low, 256 * e.rng, Abs(e).shifts + 1))
  {
    var c := e.val / EC_CODE_BOT;
    CarryOutFrame(e, c);
    if !CarryOut(e, c).error {
      CarryOutDigit(e, c);
      assert Digits(NormalizeStep(e)) == Digits(CarryOut(e, c));
    }
  }

  /** Renormalising the finite registers is rescaling the ideal interval. */
  lemma {:induction false} NormalizeRefines(e: Enc)
    requires CarryInv(e)
    ensures var r := Normalize(e);
      && CarryInv(r) && EC_CODE_BOT < r.rng && (e.error ==> r.error)
      && r.rng == NormRng(e.rng) && r.nbitsTotal == e.nbitsTotal + 8 * NormShifts(e.rng)
      && r == e.(out := r.out, rem := r.rem, ext := r.ext, error := r.error,
                 val := r.val, rng := r.rng, nbitsTotal := r.nbitsTotal)
      && (!r.error ==> Abs(r) == Rescale(Abs(e)))
    decreases EC_CODE_TOP - e.rng
  {
    if e.rng <= EC_CODE_BOT {
      NormalizeStepRefines(e);
      NormalizeRefines(NormalizeStep(e));
    }
  }

  // ---- symbols -------------------------------------------------------------------

  ghost predicate RawInv(e: Enc) {
    && e.nendBits <= 32 && e.endWindow < Pow2(e.nendBits)
    && (!e.error ==> |e.out| + |e.tail| <= e.storage)
  }

  ghost predicate EncInv(e: Enc) {
    CarryInv(e) && EC_CODE_BOT < e.rng && RawInv(e)
  }

  function Encode(e: Enc, fl: nat, fh: nat, ft: nat): Enc
    requires fl < fh <= ft <= EC_CODE_BOT < e.rng
  {
    EncodeArithmetic(e.rng, fl, fh, ft);
    var r := e.rng / ft;
    Normalize(if fl > 0 then e.(val := e.val + e.rng - r * (ft - fl), rng := r * (fh - fl))
              else e.(rng := e.rng - r * (ft - fh)))
  }

  function EncodeBin(e: Enc, fl: nat, fh: nat, bits: nat): Enc
    requires fl < fh <= Pow2(bits) <= EC_CODE_BOT < e.rng
  {
    EncodeArithmetic(e.rng, fl, fh, Pow2(bits));
    var r := Shr(e.rng, bits);
    Normalize(if fl > 0 then e.(val := e.val + e.rng - r * (Pow2(bits) - fl), rng := r * (fh - fl))
              else e.(rng := e.rng - r * (Pow2(bits) - fh)))
  }

  function EncodeBit(e: Enc, one: bool, logp: nat): Enc
    requires 1 <= logp && Pow2(logp) <= EC_CODE_BOT < e.rng
  {
    HalfBounds(e.rng, logp);
    var s := Shr(e.rng, logp);
    var r := e.rng - s;
    Normalize(e.(val := if one then e.val + r else e.val, rng := if one then s else r))
  }

  function EncodeIcdf(e: Enc, s: nat, icdf: seq<byte>, ftb: nat): Enc
    requires ValidSymbol(FromIcdf(s, icdf, ftb)) && EC_CODE_BOT < e.rng
  {
    IcdfBounds(e.rng, ftb, icdf[s], if s > 0 then icdf[s - 1] else Pow2(ftb));
    var r := Shr(e.rng, ftb);
    if s > 0 then
      MulSub(r, icdf[s - 1], icdf[s]);
      Normalize(e.(val := e.val + e.rng - r * icdf[s - 1], rng := r * (icdf[s - 1] - icdf[s])))
    else
      Normalize(e.(rng := e.rng - r * icdf[s]))
  }

  /** In both branches of ec_encode the new width is the difference of two cuts. */
  lemma EncodeArithmetic(rng: nat, fl: nat, fh: nat, ft: nat)
    requires fl < fh <= ft <= rng
    ensures Below(rng, fh, ft) < Below(rng, fl, ft) <= rng
    ensures Below(rng, fh, ft) == (rng / ft) * (ft - fh)
    ensures fl > 0 ==> (rng / ft) * (ft - fl) == Below(rng, fl, ft) &&
                       (rng / ft) * (fh - fl) == Below(rng, fl, ft) - Below(rng, fh, ft)
  {
    BelowDecreases(rng, fl, fh, ft);
    MulDist(rng / ft, ft - fh, fh - fl);
  }

  function EncodeSymbol(e: Enc, sym: Symbol): Enc
    requires ValidSymbol(sym) && EC_CODE_BOT < e.rng
  {
    match sym
    case Freq(fl, fh, ft) => Encode(e, fl, fh, ft)
    case BinFreq(fl, fh, bits) => EncodeBin(e, fl, fh, bits)
    case Flag(one, logp) => EncodeBit(e, one, logp)
    case FromIcdf(s, icdf, ftb) => EncodeIcdf(e, s, icdf, ftb)
  }

  /** The registers after taking a slice of the range, before normalising. */
  function Cut(e: Enc, a: nat, b: nat): Enc
    requires a < b <= e.rng
  {
    e.(val := e.val + e.rng - b, rng := b - a)
  }

  lemma EncodeCuts(e: Enc, fl: nat, fh: nat, ft: nat)
    requires fl < fh <= ft <= EC_CODE_BOT < e.rng
    ensures Below(e.rng, fh, ft) < Below(e.rng, fl, ft) <= e.rng
    ensures Encode(e, fl, fh, ft) == Normalize(Cut(e, Below(e.rng, fh, ft), Below(e.rng, fl, ft)))
  {
    EncodeArithmetic(e.rng, fl, fh, ft);
  }

  lemma EncodeIcdfCuts(e: Enc, s: nat, icdf: seq<byte>, ftb: nat)
    requires ValidSymbol(FromIcdf(s, icdf, ftb)) && EC_CODE_BOT < e.rng
    ensures var sym := FromIcdf(s, icdf, ftb);
      CutHigh(sym, e.rng) < CutLow(sym, e.rng) <= e.rng &&
      EncodeIcdf(e, s, icdf, ftb) == Normalize(Cut(e, CutHigh(sym, e.rng), CutLow(sym, e.rng)))
  {
    CutBounds(FromIcdf(s, icdf, ftb), e.rng);
    if s > 0 { MulSub(Shr(e.rng, ftb), icdf[s - 1], icdf[s]); }
  }

  /** A total that is a power of two may be coded either way. */
  lemma EncodeBinIsEncode(e: Enc, fl: nat, fh: nat, bits: nat, ft: nat)
    requires fl < fh <= ft <= EC_CODE_BOT < e.rng && ft == Pow2(bits)
    ensures EncodeBin(e, fl, fh, bits) == Encode(e, fl, fh, ft)
  {
    EncodeArithmetic(e.rng, fl, fh, ft);
  }

  lemma EncodeBitCuts(e: Enc, one: bool, logp: nat)
    requires 1 <= logp && Pow2(logp) <= EC_CODE_BOT < e.rng
    ensures var a, b := if one then 0 else Shr(e.rng, logp), if one then Shr(e.rng, logp) else e.rng;
      a < b <= e.rng && EncodeBit(e, one, logp) == Normalize(Cut(e, a, b))
  {
    HalfBounds(e.rng, logp);
  }

  lemma EncodeSymbolCuts(e: Enc, sym: Symbol)
    requires ValidSymbol(sym) && EC_CODE_BOT < e.rng
    ensures CutHigh(sym, e.rng) < CutLow(sym, e.rng) <= e.rng
    ensures EncodeSymbol(e, sym) == Normalize(Cut(e, CutHigh(sym, e.rng), CutLow(sym, e.rng)))
  {
    match sym
    case Freq(fl, fh, ft) => EncodeCuts(e, fl, fh, ft);
    case BinFreq(fl, fh, bits) =>
      EncodeBinIsEncode(e, fl, fh, bits, Pow2(bits));
      EncodeCuts(e, fl, fh, Pow2(bits));
    case Flag(one, logp) => EncodeBitCuts(e, one, logp);
    case FromIcdf(s, icdf, ftb) => EncodeIcdfCuts(e, s, icdf, ftb);
  }

  /** Coding a symbol in finite registers is narrowing and rescaling the ideal interval. */
  lemma EncodeSymbolRefines(e: Enc, sym: Symbol)
    requires EncInv(e) && ValidSymbol(sym)
    ensures var a, b, r := CutHigh(sym, e.rng), CutLow(sym, e.rng), EncodeSymbol(e, sym);
      && a < b <= e.rng
      && EncInv(r) && (e.error ==> r.error)
      && r == e.(out := r.out, rem := r.rem, ext := r.ext, error := r.error,
                 val := r.val, rng := r.rng, nbitsTotal := r.nbitsTotal)
      && r.rng == NormRng(b - a) && r.nbitsTotal == e.nbitsTotal + 8 * NormShifts(b - a)
      && (!r.error ==> Abs(r) == Rescale(Narrow(Abs(e), a, b)))
  {
    EncodeSymbolCuts(e, sym);
    CutRefines(e, CutHigh(sym, e.rng), CutLow(sym, e.rng));
  }

  lemma CutRefines(e: Enc, a: nat, b: nat)
    requires EncInv(e) && a < b <= e.rng
    ensures var r := Normalize(Cut(e, a, b));
      && EncInv(r) && (e.error ==> r.error)
      && r == e.(out := r.out, rem := r.rem, ext := r.ext, error := r.error,
                 val := r.val, rng := r.rng, nbitsTotal := r.nbitsTotal)
      && r.rng == NormRng(b - a) && r.nbitsTotal == e.nbitsTotal + 8 * NormShifts(b - a)
      && (!r.error ==> Abs(r) == Rescale(Narrow(Abs(e), a, b)))
  {
    var c := Cut(e, a, b);
    NormalizeRefines(c);
    assert Abs(c) == Narrow(Abs(e), a, b);
  }

  // ---- raw bits --------------------------------------------------------------------

  const EC_WINDOW_SIZE := 32

  /** Write out whole bytes of the window, at least one. */
  function FlushStep(e: Enc): Enc
    requires e.nendBits >= 8
  {
    WriteByteAtEnd(e, Low(e.endWindow, EC_SYM_BITS)).(endWindow := Shr(e.endWindow, EC_SYM_BITS),
                                                      nendBits := e.nendBits - 8)
  }

  function FlushWindow(e: Enc): Enc
    requires e.nendBits >= 8
    decreases e.nendBits
  {
    if FlushStep(e).nendBits >= 8 then FlushWindow(FlushStep(e)) else FlushStep(e)
  }

  function EncodeBits(e: Enc, fl: nat, bits: nat): Enc
    requires bits <= 25
  {
    var f := if e.nendBits + bits > EC_WINDOW_SIZE then FlushWindow(e) else e;
    f.(endWindow := BitOr(f.endWindow, Shl(fl, f.nendBits)), nendBits := f.nendBits + bits,
       nbitsTotal := f.nbitsTotal + bits)
  }

  function EncodeUint(e: Enc, fl: nat, ft: nat): Enc
    requires fl < ft && 2 <= ft < 0x1_0000_0000 && EncInv(e)
  {
    var ftb := Ilog(ft - 1);
    if ftb > EC_UINT_BITS then
      UintArithmetic(fl, ft);
      var k := ftb - EC_UINT_BITS;
      EncodeBits(Encode(e, Shr(fl, k), Shr(fl, k) + 1, Shr(ft - 1, k) + 1), Low(fl, k), k)
    else
      UintArithmetic(fl, ft);
      Encode(e, fl, fl + 1, ft)
  }

  function Shrink(e: Enc, size: nat): Enc
    requires |e.out| + |e.tail| <= size <= e.storage
  {
    e.(storage := size)
  }

  /** All raw bits given to the encoder so far, first one first. */
  ghost function RawBits(e: Enc): (b: seq<bit>)
    ensures |b| == 8 * |e.tail| + e.nendBits
  {
    ByteBits(e.tail) + ToBits(e.endWindow, e.nendBits)
  }

  lemma FlushStepKeepsBits(e: Enc)
    requires RawInv(e) && e.nendBits >= 8
    ensures var r := FlushStep(e);
      RawInv(r) && (e.error ==> r.error) && (!r.error ==> RawBits(r) == RawBits(e))
  {
    var r := FlushStep(e);
    TakeByte(e.tail, e.endWindow, e.nendBits - 8);
    if !r.error {
      assert r.tail == e.tail + [Low(e.endWindow, EC_SYM_BITS)];
    }
  }

  lemma {:induction false} FlushWindowKeepsBits(e: Enc)
    requires RawInv(e) && e.nendBits >= 8
    ensures var r := FlushWindow(e);
      && RawInv(r) && r.nendBits < 8 && (e.error ==> r.error)
      && r == e.(tail := r.tail, endWindow := r.endWindow, nendBits := r.nendBits, error := r.error)
      && (!r.error ==> RawBits(r) == RawBits(e))
    decreases e.nendBits
  {
    FlushStepKeepsBits(e);
    if FlushStep(e).nendBits >= 8 {
      FlushWindowKeepsBits(FlushStep(e));
    }
  }

  lemma PackKeepsBits(f: Enc, fl: nat, bits: nat)
    requires fl < Pow2(bits) && f.endWindow < Pow2(f.nendBits)
    ensures var w := BitOr(f.endWindow, Shl(fl, f.nendBits));
      && w < Pow2(f.nendBits + bits)
      && ByteBits(f.tail) + ToBits(w, f.nendBits + bits) == RawBits(f) + ToBits(fl, bits)
  {
    PackWindow(f.endWindow, f.nendBits, fl, bits);
    var t, w, x := ByteBits(f.tail), ToBits(f.endWindow, f.nendBits), ToBits(fl, bits);
    assert t + (w + x) == (t + w) + x;
  }

  lemma RoomInWindow(e: Enc, bits: nat)
    requires RawInv(e) && bits <= 25
    ensures var f := if e.nendBits + bits > EC_WINDOW_SIZE then FlushWindow(e) else e;
      && RawInv(f) && f.nendBits + bits <= 32 && (e.error ==> f.error)
      && f == e.(tail := f.tail, endWindow := f.endWindow, nendBits := f.nendBits, error := f.error)
      && (!f.error ==> RawBits(f) == RawBits(e))
  {
    if e.nendBits + bits > EC_WINDOW_SIZE { FlushWindowKeepsBits(e); }
  }

  lemma EncodeBitsParts(e: Enc, fl: nat, bits: nat, f: Enc, w: nat)
    requires RawInv(e) && bits <= 25 && fl < Pow2(bits)
    requires f == (if e.nendBits + bits > EC_WINDOW_SIZE then FlushWindow(e) else e)
    requires w == BitOr(f.endWindow, Shl(fl, f.nendBits))
    ensures EncodeBits(e, fl, bits)
         == f.(endWindow := w, nendBits := f.nendBits + bits, nbitsTotal := f.nbitsTotal + bits)
    ensures RawInv(f) && f.nendBits + bits <= 32 && (e.error ==> f.error)
    ensures f == e.(tail := f.tail, endWindow := f.endWindow, nendBits := f.nendBits, error := f.error)
    ensures w < Pow2(f.nendBits + bits)
    ensures !f.error ==> ByteBits(f.tail) + ToBits(w, f.nendBits + bits) == RawBits(e) + ToBits(fl, bits)
  {
    RoomInWindow(e, bits);
    PackKeepsBits(f, fl, bits);
  }

  /** Raw bits are appended to the raw bit string; the range coder is not disturbed. */
  lemma EncodeBitsAppends(e: Enc, fl: nat, bits: nat)
    requires RawInv(e) && bits <= 25 && fl < Pow2(bits)
    ensures var r := EncodeBits(e, fl, bits);
      && RawInv(r) && (e.error ==> r.error)
      && r == e.(tail := r.tail, endWindow := r.endWindow, nendBits := r.nendBits, error := r.error,
                 nbitsTotal := e.nbitsTotal + bits)
      && (!r.error ==> RawBits(r) == RawBits(e) + ToBits(fl, bits))
  {
    hide FlushWindow, ToBits, ByteBits, BitOr, Shl, Pow2;
    var f := if e.nendBits + bits > EC_WINDOW_SIZE then FlushWindow(e) else e;
    var w := BitOr(f.endWindow, Shl(fl, f.nendBits));
    EncodeBitsParts(e, fl, bits, f, w);
  }
}
