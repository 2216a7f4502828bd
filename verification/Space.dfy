/** What ec_tell (entcode.h) says about errors: the encoder only runs out of space once ec_tell has
    passed the end of the buffer, so a caller who watches ec_tell needs to watch nothing else. */
module Space {
  import opened Bits
  import opened IntervalCoder
  import opened Symbols
  import opened Encoder
  import opened Flush
  import T = Tell
  import D = Decoder
  import opened RoundTrip

  /** An error means that ec_tell is past the end. */
  ghost predicate ErrorIsLate(e: Enc) {
    e.error ==> Tell(e.nbitsTotal, e.rng) > 8 * e.storage
  }

  /** Renormalising fails only once the digits to be written exceed the buffer. */
  lemma {:induction false} NormalizeSpace(e: Enc)
    requires CarryInv(e) && Room(e) && Normalize(e).error
    ensures NormShifts(e.rng) >= 1 && |Digits(e)| + |e.tail| + NormShifts(e.rng) - 1 > e.storage
    decreases EC_CODE_TOP - e.rng
  {
    NormalizeStepSpace(e);
    if !NormalizeStep(e).error {
      NormalizeStepRefines(e);
      NormalizeSpace(NormalizeStep(e));
    }
  }

  lemma NormalizeStepSpace(e: Enc)
    requires CarryInv(e) && Room(e) && e.rng <= EC_CODE_BOT
    ensures var r := NormalizeStep(e);
      if r.error then |Digits(e)| + |e.tail| > e.storage
      else Room(r) && |Digits(r)| == |Digits(e)| + 1 && r.tail == e.tail && r.storage == e.storage
  {
    hide CarryOut;
    var c := e.val / EC_CODE_BOT;
    CarryOutFrame(e, c);
    CarryOutSpace(e, c);
  }

  lemma IlogRange(rng: nat)
    requires rng < 0x1_0000_0000
    ensures Ilog(rng) <= 32
  {
    if rng > 0 {
      IlogBounds(rng);
      Pow2Values();
      if Ilog(rng) > 32 { Pow2Monotone(32, Ilog(rng) - 1); }
    }
  }

  lemma SymbolErrorIsLate(e: Enc, sym: Symbol)
    requires Inv(e) && ValidSymbol(sym) && !e.error
    ensures ErrorIsLate(EncodeSymbol(e, sym))
  {
    hide Normalize, Ilog;
    EncodeSymbolRefines(e, sym);
    EncodeSymbolCuts(e, sym);
    var c := Cut(e, CutHigh(sym, e.rng), CutLow(sym, e.rng));
    var r := Normalize(c);
    if r.error {
      NormalizeSpace(c);
      assert Digits(c) == Digits(e);
      IlogRange(r.rng);
    }
  }

  /** Moving whole bytes out of the window fails only if they exceed the buffer. */
  lemma {:induction false} FlushWindowSpace(e: Enc)
    requires RawInv(e) && Room(e) && e.nendBits >= 8 && FlushWindow(e).error
    ensures |e.out| + |e.tail| + e.nendBits / 8 > e.storage
    decreases e.nendBits
  {
    FlushStepKeepsBits(e);
    var r := FlushStep(e);
    if !r.error { FlushWindowSpace(r); }
  }

  lemma RawErrorIsLate(e: Enc, v: nat, bits: nat)
    requires Inv(e) && bits <= 25 && v < Pow2(bits) && !e.error
    ensures ErrorIsLate(EncodeBits(e, v, bits))
  {
    hide FlushWindow, BitOr, Shl, Pow2, Ilog, ToBits;
    EncodeBitsAppends(e, v, bits);
    if EncodeBits(e, v, bits).error {
      FlushWindowSpace(e);
      IlogRange(e.rng);
    }
  }

  /** Even after an error every symbol uses up bits. */
  lemma SymbolKeepsLate(e: Enc, sym: Symbol)
    requires Inv(e) && ValidSymbol(sym) && ErrorIsLate(e)
    ensures ErrorIsLate(EncodeSymbol(e, sym))
  {
    if e.error {
      hide EncodeSymbol, Ilog;
      EncodeSymbolRefines(e, sym);
      CutBounds(sym, e.rng);
      T.CountsGrow(e.nbitsTotal, e.rng, CutLow(sym, e.rng) - CutHigh(sym, e.rng));
    } else {
      SymbolErrorIsLate(e, sym);
    }
  }

  lemma RawKeepsLate(e: Enc, v: nat, bits: nat)
    requires Inv(e) && bits <= 25 && v < Pow2(bits) && ErrorIsLate(e)
    ensures ErrorIsLate(EncodeBits(e, v, bits))
  {
    hide EncodeBits, Ilog;
    EncodeBitsAppends(e, v, bits);
    if !e.error { RawErrorIsLate(e, v, bits); }
  }

  lemma OpKeepsLate(e: Enc, op: Op)
    requires Applicable(e, op) && ErrorIsLate(e)
    ensures ErrorIsLate(EncodeOp(e, op))
  {
    hide EncodeSymbol, EncodeBits, EncodeUint, ErrorIsLate;
    match op
    case Coded(sym) => SymbolKeepsLate(e, sym);
    case Raw(v, bits) => RawKeepsLate(e, v, bits);
    case Uint(v, ft) =>
      if Ilog(ft - 1) > EC_UINT_BITS {
        var k := Ilog(ft - 1) - EC_UINT_BITS;
        var sym := EncodeUintLarge(e, v, ft, k);
        SymbolExtends(e, sym);
        SymbolKeepsLate(e, sym);
        RawKeepsLate(EncodeSymbol(e, sym), Low(v, k), k);
      } else {
        EncodeUintSmall(e, v, ft);
        SymbolKeepsLate(e, Freq(v, v + 1, ft));
      }
    case Resize(size) => ShrinkKeepsLate(e, size);
  }

  lemma ShrinkKeepsLate(e: Enc, size: nat)
    requires Applicable(e, Resize(size)) && ErrorIsLate(e)
    ensures ErrorIsLate(Shrink(e, size))
  {
  }

  /** Over any run of calls, shrinks included, an error only shows once ec_tell is past the end. */
  lemma {:induction false} RunKeepsLate(e: Enc, ops: seq<Op>)
    requires Runnable(e, ops) && ErrorIsLate(e)
    ensures ErrorIsLate(Run(e, ops))
    decreases |ops|
  {
    hide ErrorIsLate;
    if ops != [] {
      OpKeepsLate(e, ops[0]);
      RunKeepsLate(EncodeOp(e, ops[0]), ops[1..]);
    }
  }

  /** If ec_tell ends within the buffer, there was no error, finishing succeeds, and the decoder
      recovers everything. */
  lemma FittingRun(size: nat, ops: seq<Op>)
    requires Runnable(Init(size), ops)
    requires var e := Run(Init(size), ops); Tell(e.nbitsTotal, e.rng) <= 8 * e.storage
    ensures var e := Run(Init(size), ops);
      EncInv(e) && !e.error && Finish(e).Done? && Lockstep(Init(size), D.Init(Finish(e).buf), ops)
  {
    hide Finish, Lockstep, Tell;
    RunExtends(Init(size), ops);
    RunKeepsLate(Init(size), ops);
    TellIsEnough(Run(Init(size), ops));
    StreamRoundTrip(size, ops);
  }

  /** Symbols, integers and raw bits can be encoded in any order: if ec_tell ends within the buffer,
      all of it is decoded. */
  lemma FittingStream(size: nat, ops: seq<Op>)
    requires forall i :: 0 <= i < |ops| ==> ValidOp(ops[i]) && !ops[i].Resize?
    ensures Runnable(Init(size), ops)
    ensures var e := Run(Init(size), ops);
      EncInv(e) && (Tell(e.nbitsTotal, e.rng) <= 8 * size ==>
        Finish(e).Done? && Lockstep(Init(size), D.Init(Finish(e).buf), ops))
  {
    hide Finish, Lockstep, Tell;
    InitInv(size);
    AlwaysRunnable(Init(size), ops);
    var e := Run(Init(size), ops);
    if Tell(e.nbitsTotal, e.rng) <= 8 * size { FittingRun(size, ops); }
  }
}
