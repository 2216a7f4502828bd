/** Whole streams: any mix of range coded symbols, integers, raw bits and buffer shrinks is
    decoded, in step, to what was encoded. */
module RoundTrip {
  import opened Bits
  import opened IntervalCoder
  import opened Symbols
  import opened Encoder
  import opened Flush
  import D = Decoder

  datatype Op =
    | Coded(sym: Symbol)
    | Uint(v: nat, ft: nat)
    | Raw(v: nat, bits: nat)
    | Resize(size: nat)

  ghost predicate ValidOp(op: Op) {
    match op
    case Coded(sym) => ValidSymbol(sym)
    case Uint(v, ft) => v < ft && 2 <= ft < 0x1_0000_0000
    case Raw(v, bits) => 1 <= bits <= 25 && v < Pow2(bits)
    case Resize(_) => true
  }

  /** The invariant of the encoder, with its bit count. */
  ghost predicate Inv(e: Enc) {
    EncInv(e) && (!e.error ==> e.nbitsTotal == 33 + 8 * |Digits(e)| + |RawBits(e)|)
  }

  /** A shrink must leave room for what has been written (entenc.h). */
  ghost predicate Applicable(e: Enc, op: Op) {
    Inv(e) && ValidOp(op) && (op.Resize? ==> |e.out| + |e.tail| <= op.size <= e.storage)
  }

  function EncodeOp(e: Enc, op: Op): Enc
    requires Applicable(e, op)
  {
    match op
    case Coded(sym) => EncodeSymbol(e, sym)
    case Uint(v, ft) => EncodeUint(e, v, ft)
    case Raw(v, bits) => EncodeBits(e, v, bits)
    case Resize(size) => Shrink(e, size)
  }

  ghost predicate Runnable(e: Enc, ops: seq<Op>)
    decreases |ops|
  {
    Inv(e) && (ops == [] || (Applicable(e, ops[0]) && Runnable(EncodeOp(e, ops[0]), ops[1..])))
  }

  function Run(e: Enc, ops: seq<Op>): Enc
    requires Runnable(e, ops)
    decreases |ops|
  {
    if ops == [] then e else Run(EncodeOp(e, ops[0]), ops[1..])
  }

  // ---- the encoder never goes back on its word -----------------------------------------

  /** f is reached from e: a finer interval inside e's, and e's raw bits followed by more. */
  ghost predicate Extends(f: Enc, e: Enc)
    requires e.rem < 256 && f.rem < 256
  {
    !f.error ==> !e.error && Nested(Abs(f), Abs(e)) && StartsWith(RawBits(f), RawBits(e))
  }

  lemma ExtendsTransitive(g: Enc, f: Enc, e: Enc)
    requires e.rem < 256 && f.rem < 256 && g.rem < 256
    requires Extends(g, f) && Extends(f, e)
    ensures Extends(g, e)
  {
    if !g.error {
      NestedTransitive(Abs(g), Abs(f), Abs(e));
      var a, b, c := RawBits(e), RawBits(f), RawBits(g);
      assert c[..|a|] == c[..|b|][..|a|];
    }
  }

  lemma SymbolExtends(e: Enc, sym: Symbol)
    requires Inv(e) && ValidSymbol(sym)
    ensures Inv(EncodeSymbol(e, sym)) && Extends(EncodeSymbol(e, sym), e)
  {
    EncodeSymbolRefines(e, sym);
    var a, b, r := CutHigh(sym, e.rng), CutLow(sym, e.rng), EncodeSymbol(e, sym);
    if !r.error {
      StepNests(Abs(e), a, b);
      RescaleWidth(Narrow(Abs(e), a, b));
      assert RawBits(r) == RawBits(e);
    }
  }

  lemma RawExtends(e: Enc, v: nat, bits: nat)
    requires Inv(e) && bits <= 25 && v < Pow2(bits)
    ensures Inv(EncodeBits(e, v, bits)) && Extends(EncodeBits(e, v, bits), e)
  {
    EncodeBitsAppends(e, v, bits);
    var r := EncodeBits(e, v, bits);
    assert Digits(r) == Digits(e);
    if !r.error { NestedSelf(Abs(e)); }
  }

  lemma NestedSelf(i: Interval)
    ensures Nested(i, i)
  {
  }

  /** A large integer is its leading bits, range coded, and its other k bits, raw. */
  lemma EncodeUintLarge(e: Enc, v: nat, ft: nat, k: nat) returns (sym: Symbol)
    requires EncInv(e) && v < ft && 2 <= ft < 0x1_0000_0000 && k > 0 && Ilog(ft - 1) == k + EC_UINT_BITS
    ensures ValidSymbol(sym) && k <= 24 && sym == Freq(Shr(v, k), Shr(v, k) + 1, Shr(ft - 1, k) + 1)
    ensures EncodeUint(e, v, ft) == EncodeBits(EncodeSymbol(e, sym), Low(v, k), k)
  {
    UintArithmetic(v, ft);
    sym := Freq(Shr(v, k), Shr(v, k) + 1, Shr(ft - 1, k) + 1);
  }

  lemma EncodeUintSmall(e: Enc, v: nat, ft: nat)
    requires EncInv(e) && v < ft && 2 <= ft < 0x1_0000_0000 && Ilog(ft - 1) <= EC_UINT_BITS
    ensures ft <= 256 && EncodeUint(e, v, ft) == EncodeSymbol(e, Freq(v, v + 1, ft))
  {
    UintArithmetic(v, ft);
  }

  lemma UintExtends(e: Enc, v: nat, ft: nat)
    requires Inv(e) && v < ft && 2 <= ft < 0x1_0000_0000
    ensures Inv(EncodeUint(e, v, ft)) && Extends(EncodeUint(e, v, ft), e)
  {
    if Ilog(ft - 1) > EC_UINT_BITS {
      var k := Ilog(ft - 1) - EC_UINT_BITS;
      var sym := EncodeUintLarge(e, v, ft, k);
      var e1, low := EncodeSymbol(e, sym), Low(v, k);
      SymbolExtends(e, sym);
      RawExtends(e1, low, k);
      ExtendsTransitive(EncodeBits(e1, low, k), e1, e);
    } else {
      EncodeUintSmall(e, v, ft);
      SymbolExtends(e, Freq(v, v + 1, ft));
    }
  }

  lemma OpExtends(e: Enc, op: Op)
    requires Applicable(e, op)
    ensures Inv(EncodeOp(e, op)) && Extends(EncodeOp(e, op), e)
  {
    match op
    case Coded(sym) => SymbolExtends(e, sym);
    case Uint(v, ft) => UintExtends(e, v, ft);
    case Raw(v, bits) => RawExtends(e, v, bits);
    case Resize(size) =>
      var r := Shrink(e, size);
      assert Digits(r) == Digits(e);
      NestedSelf(Abs(e));
  }

  lemma {:induction false} RunExtends(e: Enc, ops: seq<Op>)
    requires Runnable(e, ops)
    ensures Inv(Run(e, ops)) && Extends(Run(e, ops), e)
    decreases |ops|
  {
    if ops == [] {
      NestedSelf(Abs(e));
    } else {
      var e1 := EncodeOp(e, ops[0]);
      OpExtends(e, ops[0]);
      RunExtends(e1, ops[1..]);
      ExtendsTransitive(Run(e1, ops[1..]), e1, e);
    }
  }

  /** Calls other than a shrink can come in any order. */
  lemma {:induction false} AlwaysRunnable(e: Enc, ops: seq<Op>)
    requires Inv(e) && forall i :: 0 <= i < |ops| ==> ValidOp(ops[i]) && !ops[i].Resize?
    ensures Runnable(e, ops) && Inv(Run(e, ops)) && Run(e, ops).storage == e.storage
    decreases |ops|
  {
    if ops != [] {
      OpExtends(e, ops[0]);
      OpStorage(e, ops[0]);
      AlwaysRunnable(EncodeOp(e, ops[0]), ops[1..]);
    }
  }

  lemma OpStorage(e: Enc, op: Op)
    requires Applicable(e, op) && !op.Resize?
    ensures EncodeOp(e, op).storage == e.storage
  {
    match op
    case Coded(sym) => EncodeSymbolRefines(e, sym);
    case Raw(v, bits) => EncodeBitsAppends(e, v, bits);
    case Uint(v, ft) =>
      if Ilog(ft - 1) > EC_UINT_BITS {
        var k := Ilog(ft - 1) - EC_UINT_BITS;
        var sym := EncodeUintLarge(e, v, ft, k);
        EncodeSymbolRefines(e, sym);
        EncodeBitsAppends(EncodeSymbol(e, sym), Low(v, k), k);
      } else {
        EncodeUintSmall(e, v, ft);
        EncodeSymbolRefines(e, Freq(v, v + 1, ft));
      }
  }

  // ---- decoding --------------------------------------------------------------------------

  /** The decoder after the call that matches op, and the value the call returns. */
  function DecodeOp(d: D.Dec, op: Op): (D.Dec, nat)
    requires ValidOp(op) && EC_CODE_BOT < d.rng && 0 <= d.val
  {
    match op
    case Coded(sym) => (D.Advance(d, sym), D.Decoded(d, sym))
    case Uint(_, ft) => D.DecodeUint(d, ft)
    case Raw(_, bits) => D.DecodeBits(d, bits)
    case Resize(_) => (d, 0)
  }

  predicate Returned(op: Op, v: nat) {
    match op
    case Coded(sym) => D.Matches(sym, v)
    case Uint(w, _) => v == w
    case Raw(w, _) => v == w
    case Resize(_) => true
  }

  /** Encoder and decoder agree on rng and on the bit count before and after every call, so on
      ec_tell and ec_tell_frac too, and every call returns what was encoded. */
  ghost predicate Lockstep(e: Enc, d: D.Dec, ops: seq<Op>)
    requires Runnable(e, ops)
    decreases |ops|
  {
    && d.rng == e.rng && d.nbitsTotal == e.nbitsTotal && !d.error && 0 <= d.val
    && (ops != [] ==>
          && Returned(ops[0], DecodeOp(d, ops[0]).1)
          && Lockstep(EncodeOp(e, ops[0]), DecodeOp(d, ops[0]).0, ops[1..]))
  }

  ghost predicate Related(e: Enc, d: D.Dec)
    requires e.rem < 256
  {
    && D.At(d, Abs(e)) && D.RawAt(d, |RawBits(e)|)
    && d.nbitsTotal == e.nbitsTotal && !d.error
  }

  /** The stream s is what e has committed to, possibly continued. */
  ghost predicate Carries(s: seq<byte>, e: Enc)
    requires e.rem < 256
  {
    !e.error && Covers(Abs(e), s) && StartsWith(TailBits(s, |s|), RawBits(e))
  }

  lemma CarriesEarlier(s: seq<byte>, f: Enc, e: Enc)
    requires e.rem < 256 && f.rem < 256 && Extends(f, e) && Carries(s, f)
    ensures Carries(s, e)
  {
    CoversOuter(Abs(f), Abs(e), s);
    var a, b, c := RawBits(e), RawBits(f), TailBits(s, |s|);
    assert c[..|a|] == c[..|b|][..|a|];
  }

  lemma SymbolStep(e: Enc, d: D.Dec, sym: Symbol)
    requires Inv(e) && ValidSymbol(sym) && Related(e, d)
    requires EncodeSymbol(e, sym).rem < 256 && Carries(d.buf, EncodeSymbol(e, sym))
    ensures D.Matches(sym, D.Decoded(d, sym))
    ensures Related(EncodeSymbol(e, sym), D.Advance(d, sym)) && D.Advance(d, sym).buf == d.buf
  {
    hide EncodeSymbol, D.Advance, D.Decoded, CutHigh, CutLow, Rescale, D.Matches, RawBits, NormRng, NormShifts;
    SymbolExtends(e, sym);
    EncodeSymbolRefines(e, sym);
    var a, b, e1 := CutHigh(sym, e.rng), CutLow(sym, e.rng), EncodeSymbol(e, sym);
    var cut := Narrow(Abs(e), a, b);
    RescaleNests(cut);
    CoversOuter(Abs(e1), cut, d.buf);
    D.CutCovers(d, Abs(e), a, b);
    D.DecodedMatches(d, sym);
    D.AdvanceAt(d, Abs(e), sym);
    assert RawBits(e1) == RawBits(e);
  }

  /** The next raw bits in the stream are the ones encoded. */
  lemma RawStepValue(e: Enc, d: D.Dec, v: nat, bits: nat)
    requires Inv(e) && bits <= 25 && v < Pow2(bits) && D.RawAt(d, |RawBits(e)|)
    requires var e1 := EncodeBits(e, v, bits);
      !e1.error && StartsWith(TailBits(d.buf, |d.buf|), RawBits(e1))
    ensures D.DecodeBits(d, bits).1 == v
    ensures |RawBits(EncodeBits(e, v, bits))| == |RawBits(e)| + bits
  {
    EncodeBitsAppends(e, v, bits);
    var before, next, all := RawBits(e), ToBits(v, bits), TailBits(d.buf, |d.buf|);
    NextBits(all, before, next);
    D.DecodeBitsValue(d, |before|, bits, |d.buf|);
    SameBits(D.DecodeBits(d, bits).1, v, bits);
  }

  lemma RawFrame(d: D.Dec, r: D.Dec, i: Interval)
    requires D.At(d, i)
    requires r == d.(endWindow := r.endWindow, nendBits := r.nendBits, endOffs := r.endOffs, nbitsTotal := r.nbitsTotal)
    ensures D.At(r, i)
  {
  }

  lemma RawStep(e: Enc, d: D.Dec, v: nat, bits: nat, e1: Enc, d1: D.Dec, w: nat)
    requires Inv(e) && bits <= 25 && v < Pow2(bits) && Related(e, d)
    requires e1 == EncodeBits(e, v, bits) && (d1, w) == D.DecodeBits(d, bits)
    requires e1.rem < 256 && Carries(d.buf, e1)
    ensures w == v && Related(e1, d1) && d1.buf == d.buf
  {
    hide D.DecodeBits, D.Refill, EncodeBits, FlushWindow, D.At, Prefix, ToBits, ByteBits;
    var pos := |RawBits(e)|;
    RawStepValue(e, d, v, bits);
    EncodeBitsAppends(e, v, bits);
    D.EnoughBits(d, pos, bits);
    D.DecodeBitsMoves(d, pos, bits);
    RawFrame(d, d1, Abs(e));
    assert Digits(e1) == Digits(e);
  }

  lemma NextBits(all: seq<bit>, before: seq<bit>, next: seq<bit>)
    requires StartsWith(all, before + next)
    ensures |before| + |next| <= |all| && all[|before|..|before| + |next|] == next
  {
    assert all[|before|..|before| + |next|] == (before + next)[|before|..];
  }

  lemma SameBits(x: nat, y: nat, k: nat)
    requires x < Pow2(k) && y < Pow2(k) && ToBits(x, k) == ToBits(y, k)
    ensures x == y
  {
    FromToBits(x, k);
    FromToBits(y, k);
  }

  /** Reading the right one of ft equally likely values. */
  lemma UniformIs(d: D.Dec, v: nat, ft: nat)
    requires EC_CODE_BOT < d.rng && 0 <= d.val && v < ft <= EC_CODE_BOT
    requires D.Matches(Freq(v, v + 1, ft), D.Decoded(d, Freq(v, v + 1, ft)))
    ensures D.DecodeUniform(d, ft) == (D.Advance(d, Freq(v, v + 1, ft)), v)
  {
  }

  lemma JoinParts(v: nat, k: nat)
    ensures BitOr(Shl(Shr(v, k), k), Low(v, k)) == v
  {
    ToBitsSplit(v, k, 0);
    OrDisjoint(Low(v, k), Shr(v, k), k);
  }

  lemma DecodeUintLarge(d: D.Dec, v: nat, ft: nat, k: nat, d1: D.Dec, d2: D.Dec)
    requires EC_CODE_BOT < d.rng && 0 <= d.val
    requires v < ft && 2 <= ft < 0x1_0000_0000 && 0 < k <= 24 && Ilog(ft - 1) == k + EC_UINT_BITS
    requires Shr(ft - 1, k) + 1 <= EC_CODE_BOT && D.DecodeUniform(d, Shr(ft - 1, k) + 1) == (d1, Shr(v, k))
    requires D.DecodeBits(d1, k) == (d2, Low(v, k))
    ensures D.DecodeUint(d, ft) == (d2, v)
  {
    JoinParts(v, k);
  }

  lemma LargeUintStep(e: Enc, d: D.Dec, v: nat, ft: nat, k: nat)
    requires Inv(e) && v < ft && 2 <= ft < 0x1_0000_0000 && Related(e, d)
    requires k > 0 && Ilog(ft - 1) == k + EC_UINT_BITS
    requires EncodeUint(e, v, ft).rem < 256 && Carries(d.buf, EncodeUint(e, v, ft))
    ensures D.DecodeUint(d, ft).1 == v
    ensures Related(EncodeUint(e, v, ft), D.DecodeUint(d, ft).0) && D.DecodeUint(d, ft).0.buf == d.buf
  {
    hide D.DecodeBits, D.Refill, EncodeBits, FlushWindow, EncodeUint, D.DecodeUint, D.DecodeUniform, Encode, Ilog,
         Shr, Low, ToBits, Pow2;
    var sym := EncodeUintLarge(e, v, ft, k);
    var e1, hi, low, total := EncodeSymbol(e, sym), Shr(v, k), Low(v, k), Shr(ft - 1, k) + 1;
    SymbolExtends(e, sym);
    RawExtends(e1, low, k);
    CarriesEarlier(d.buf, EncodeBits(e1, low, k), e1);
    SymbolStep(e, d, Freq(hi, hi + 1, total));
    UniformIs(d, hi, total);
    var d1 := D.DecodeUniform(d, total).0;
    var (d2, w) := D.DecodeBits(d1, k);
    RawStep(e1, d1, low, k, EncodeBits(e1, low, k), d2, w);
    DecodeUintLarge(d, v, ft, k, d1, d2);
  }

  lemma UintStep(e: Enc, d: D.Dec, v: nat, ft: nat)
    requires Inv(e) && v < ft && 2 <= ft < 0x1_0000_0000 && Related(e, d)
    requires EncodeUint(e, v, ft).rem < 256 && Carries(d.buf, EncodeUint(e, v, ft))
    ensures D.DecodeUint(d, ft).1 == v
    ensures Related(EncodeUint(e, v, ft), D.DecodeUint(d, ft).0) && D.DecodeUint(d, ft).0.buf == d.buf
  {
    if Ilog(ft - 1) > EC_UINT_BITS {
      LargeUintStep(e, d, v, ft, Ilog(ft - 1) - EC_UINT_BITS);
    } else {
      EncodeUintSmall(e, v, ft);
      SymbolStep(e, d, Freq(v, v + 1, ft));
      UniformIs(d, v, ft);
    }
  }

  lemma OpStep(e: Enc, d: D.Dec, op: Op)
    requires Applicable(e, op) && Related(e, d)
    requires EncodeOp(e, op).rem < 256 && Carries(d.buf, EncodeOp(e, op))
    ensures Returned(op, DecodeOp(d, op).1)
    ensures Related(EncodeOp(e, op), DecodeOp(d, op).0) && DecodeOp(d, op).0.buf == d.buf
  {
    match op
    case Coded(sym) => SymbolStep(e, d, sym);
    case Uint(v, ft) => UintStep(e, d, v, ft);
    case Raw(v, bits) =>
      var (d1, w) := D.DecodeBits(d, bits);
      RawStep(e, d, v, bits, EncodeBits(e, v, bits), d1, w);
    case Resize(size) => assert Digits(Shrink(e, size)) == Digits(e);
  }

  lemma {:induction false} LockstepHolds(e: Enc, d: D.Dec, ops: seq<Op>)
    requires Runnable(e, ops) && Related(e, d)
    requires Run(e, ops).rem < 256 && Carries(d.buf, Run(e, ops))
    ensures Lockstep(e, d, ops)
    decreases |ops|
  {
    if ops != [] {
      var e1 := EncodeOp(e, ops[0]);
      OpExtends(e, ops[0]);
      RunExtends(e1, ops[1..]);
      CarriesEarlier(d.buf, Run(e1, ops[1..]), e1);
      OpStep(e, d, ops[0]);
      LockstepHolds(e1, DecodeOp(d, ops[0]).0, ops[1..]);
    }
  }

  // ---- whole streams -----------------------------------------------------------------------

  lemma InitInv(size: nat)
    ensures Inv(Init(size)) && Abs(Init(size)) == Whole && RawBits(Init(size)) == []
  {
    assert Digits(Init(size)) == [];
  }

  lemma InitRelated(size: nat, s: seq<byte>)
    ensures Inv(Init(size)) && Related(Init(size), D.Init(s)) && D.Init(s).buf == s
  {
    InitInv(size);
    D.InitAt(s);
    assert TailBits(s, 0) == [];
  }

  /** ec_enc_done leaves a buffer that carries the whole stream. */
  lemma FinishCarries(e: Enc)
    requires Inv(e) && Finish(e).Done?
    ensures Carries(Finish(e).buf, e) && |Finish(e).buf| == e.storage
  {
    ChooseFits(e.val, e.rng);
    var c := Choose(e.val, e.rng);
    FinishKeeps(e, c);
    var (f, m) := Flushed(e, c);
    FlushedFrame(e, c);
    MergeKeepsRaw(f, -m);
  }

  /** Whatever ec_enc_done reports, as long as the range coder bytes found space they decode. */
  lemma FinishKeeps(e: Enc, c: Choice)
    requires Inv(e) && c == Choose(e.val, e.rng) && Fits(c, e.val, e.rng) && !Flushed(e, c).0.error
    ensures var (f, m) := Flushed(e, c);
      && 0 <= -m < 8 && Aligned(Value(f.out), -m) && |f.out| + |f.tail| <= f.storage
      && |Merge(f, -m).buf| == e.storage && Covers(Abs(e), Merge(f, -m).buf)
  {
    if c.l == 0 { NoBitsNeeded(e.val, e.rng); }
    WrittenValue(e, c);
    FlushedFrame(e, c);
    var (f, m) := Flushed(e, c);
    MergeKeepsCode(f, -m);
    FixedBitsCover(e, c, Merge(f, -m).buf);
  }

  /** The round trip: a stream that was finished without error is decoded in lockstep. */
  lemma StreamRoundTrip(size: nat, ops: seq<Op>)
    requires Runnable(Init(size), ops)
    requires EncInv(Run(Init(size), ops)) && Finish(Run(Init(size), ops)).Done?
    ensures Lockstep(Init(size), D.Init(Finish(Run(Init(size), ops)).buf), ops)
  {
    var e := Run(Init(size), ops);
    RunExtends(Init(size), ops);
    FinishCarries(e);
    InitRelated(size, Finish(e).buf);
    LockstepHolds(Init(size), D.Init(Finish(e).buf), ops);
  }

  /** Bits beyond those ec_enc_done fixed may be anything: every stream that agrees with the fixed
      bits and carries the raw bits decodes the same way. */
  lemma AnyContinuation(size: nat, ops: seq<Op>, s: seq<byte>)
    requires Runnable(Init(size), ops)
    requires var e := Run(Init(size), ops);
      && Inv(e) && StartsWith(TailBits(s, |s|), RawBits(e))
      && var c := Choose(e.val, e.rng);
      var f := Flushed(e, c).0;
      !f.error && Shr(Prefix(s, |f.out|), Unused(c.l)) == Shr(Value(f.out), Unused(c.l))
    ensures Lockstep(Init(size), D.Init(s), ops)
  {
    var e := Run(Init(size), ops);
    var c := Choose(e.val, e.rng);
    ChooseFits(e.val, e.rng);
    if c.l == 0 { NoBitsNeeded(e.val, e.rng); }
    FlushedFrame(e, c);
    FixedBitsCover(e, c, s);
    InitRelated(size, s);
    LockstepHolds(Init(size), D.Init(s), ops);
  }

  /** ec_tell (entcode.h): whole bits used so far. */
  function Tell(nbitsTotal: nat, rng: nat): int {
    nbitsTotal - Ilog(rng)
  }

  /** If ec_tell says the stream fits, ec_enc_done does not fail. */
  lemma TellIsEnough(e: Enc)
    requires Inv(e) && !e.error && Tell(e.nbitsTotal, e.rng) <= 8 * e.storage
    ensures Finish(e).Done?
  {
    ChooseFits(e.val, e.rng);
    FinishFits(e, Choose(e.val, e.rng));
  }
}
