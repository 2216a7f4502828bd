/** ec_enc_done: the fewest bits that pin the code down, and the meeting of range coder bytes
    and raw bits in the middle of the buffer. */
module Flush {
  import opened Arith
  import opened Bits
  import opened IntervalCoder
  import opened Encoder

  /** How many bits to write (l), the mask of those left free, and the value to write. */
  datatype Choice = Choice(l: nat, msk: nat, end: nat)

  function RoundUp(val: nat, msk: nat): nat {
    BitAndNot(val + msk, msk)
  }

  function Choose(val: nat, rng: nat): Choice
    requires EC_CODE_BOT < rng <= EC_CODE_TOP
  {
    RangeLog(rng);
    var l := 32 - Ilog(rng);
    var msk := Shr(EC_CODE_TOP - 1, l);
    var end := RoundUp(val, msk);
    if BitOr(end, msk) >= val + rng then Choice(l + 1, msk / 2, RoundUp(val, msk / 2))
    else Choice(l, msk, end)
  }

  lemma RangeLog(rng: nat)
    requires EC_CODE_BOT < rng <= EC_CODE_TOP
    ensures 24 <= Ilog(rng) <= 32
    ensures Pow2(Ilog(rng) - 1) <= rng < Pow2(Ilog(rng))
  {
    IlogBounds(rng);
    Pow2Values();
    if Ilog(rng) < 24 { Pow2Monotone(Ilog(rng), 23); }
    if Ilog(rng) > 32 { Pow2Monotone(32, Ilog(rng) - 1); }
  }

  lemma MaskValue(l: nat)
    requires l <= 30
    ensures Shr(EC_CODE_TOP - 1, l) == Pow2(31 - l) - 1 == 2 * Pow2(30 - l) - 1
  {
    Pow2Values();
    Pow2Add(l, 31 - l);
    MulSub(Pow2(l), Pow2(31 - l), 1);
    DivUnique(EC_CODE_TOP - 1, Pow2(l), Pow2(31 - l) - 1, Pow2(l) - 1);
  }

  /** Rounding up to a multiple of 2^k, and filling the k low bits. */
  lemma RoundUpMultiple(val: nat, k: nat)
    ensures var m := Pow2(k);
      var end := RoundUp(val, m - 1);
      && val <= end < val + m && Aligned(end, k)
      && BitOr(end, m - 1) == end + m - 1
  {
    var m := Pow2(k);
    var x := val + m - 1;
    AndNotMask(x, k);
    DivMod(x, m);
    var q := x / m;
    MulCommute(q, m);
    assert RoundUp(val, m - 1) == Shl(q, k);
    OrDisjoint(m - 1, q, k);
  }

  /** Choose without bit operations: m of the rng points stay free, or half as many. */
  lemma ChooseCases(val: nat, rng: nat, k: nat, l: nat)
    requires EC_CODE_BOT < rng <= EC_CODE_TOP && l == 32 - Ilog(rng) && k == 31 - l && 22 < k
    ensures var m, h := Pow2(k), Pow2(k - 1);
      Choose(val, rng) == if RoundUp(val, m - 1) + m - 1 >= val + rng then Choice(l + 1, h - 1, RoundUp(val, h - 1))
                          else Choice(l, m - 1, RoundUp(val, m - 1))
  {
    var m, h := Pow2(k), Pow2(k - 1);
    MaskValue(l);
    var msk := Shr(EC_CODE_TOP - 1, l);
    assert msk == m - 1 && msk / 2 == h - 1;
    RoundUpMultiple(val, k);
  }

  lemma FirstFits(val: nat, rng: nat, k: nat, c: Choice)
    requires 23 <= k <= 31 && c == Choice(31 - k, Pow2(k) - 1, RoundUp(val, Pow2(k) - 1))
    requires c.end + Pow2(k) - 1 < val + rng
    ensures Fits(c, val, rng)
  {
    hide RoundUp, Pow2, Aligned, BitOr;
    RoundUpMultiple(val, k);
  }

  lemma SecondFits(val: nat, rng: nat, k: nat, c: Choice)
    requires 23 <= k <= 31 && Pow2(k) <= rng
    requires c == Choice(32 - k, Pow2(k - 1) - 1, RoundUp(val, Pow2(k - 1) - 1))
    ensures Fits(c, val, rng)
  {
    assert Pow2(k) == 2 * Pow2(k - 1);
    hide RoundUp, Pow2, Aligned, BitOr;
    RoundUpMultiple(val, k - 1);
  }

  /** All of [end, end | msk] lies inside [val, val + rng). */
  ghost predicate Fits(c: Choice, val: nat, rng: nat) {
    && c.l <= 9 && c.msk == Pow2(31 - c.l) - 1 && Aligned(c.end, 31 - c.l)
    && val <= c.end && c.end + c.msk < val + rng
  }

  /** The low k bits of x are zero. */
  ghost predicate Aligned(x: nat, k: nat) {
    exists q: nat :: x == Shl(q, k)
  }

  lemma AlignedQuotient(x: nat, k: nat) returns (q: nat)
    requires Aligned(x, k)
    ensures q == Shr(x, k) && x == q * Pow2(k)
  {
    q :| x == Shl(q, k);
    MulCommute(q, Pow2(k));
    DivUnique(x, Pow2(k), q, 0);
  }

  /** The bits written leave only points of the range: [end, end | msk] lies inside
      [val, val + rng), and the second, one bit longer choice is always good enough. */
  lemma ChooseFits(val: nat, rng: nat)
    requires EC_CODE_BOT < rng <= EC_CODE_TOP
    ensures Fits(Choose(val, rng), val, rng)
    ensures 24 <= Ilog(rng) <= 32 && 32 - Ilog(rng) <= Choose(val, rng).l <= 33 - Ilog(rng)
  {
    RangeLog(rng);
    var k, l, c := Ilog(rng) - 1, 32 - Ilog(rng), Choose(val, rng);
    ChooseCases(val, rng, k, l);
    if c.l == l { FirstFits(val, rng, k, c); } else { SecondFits(val, rng, k, c); }
  }

  lemma MultiplesOrdered(q: nat, r: nat, m: nat, val: nat)
    requires q * m < val + m && val <= r * m
    ensures q * m <= r * m
  {
    if r < q {
      MulLe(r + 1, q, m);
      MulDist(m, r, 1);
    } else {
      MulLe(q, r, m);
    }
  }

  /** Rounding up finds the least multiple of 2^k. */
  lemma LeastMultiple(val: nat, k: nat, end: nat)
    requires Aligned(end, k) && val <= end
    ensures RoundUp(val, Pow2(k) - 1) <= end
  {
    hide RoundUp, Pow2, Aligned, Shr, BitOr;
    RoundUpMultiple(val, k);
    var q := AlignedQuotient(RoundUp(val, Pow2(k) - 1), k);
    var r := AlignedQuotient(end, k);
    MultiplesOrdered(q, r, Pow2(k), val);
  }

  /** No fewer bits would do: whatever the value written, l bits that leave only points of the range are
      at least as many as chosen. */
  lemma ChooseMinimal(val: nat, rng: nat, l: nat, end: nat)
    requires EC_CODE_BOT < rng <= EC_CODE_TOP && l <= 31 && Aligned(end, 31 - l)
    requires val <= end && end + Pow2(31 - l) - 1 < val + rng
    ensures Choose(val, rng).l <= l
  {
    hide Pow2, RoundUp, Aligned, Ilog, Choose;
    RangeLog(rng);
    var k := Ilog(rng) - 1;
    ChooseCases(val, rng, k, 31 - k);
    if l < 31 - k {
      Pow2Monotone(k + 1, 31 - l);
    } else if l == 31 - k {
      LeastMultiple(val, k, end);
    } else {
      ChooseFits(val, rng);
    }
  }

  /** No bits are needed only when the whole range is still open. */
  lemma NoBitsNeeded(val: nat, rng: nat)
    requires EC_CODE_BOT < rng <= EC_CODE_TOP && val + rng < 0x1_0000_0000
    requires Choose(val, rng).l == 0
    ensures val == 0 == Choose(val, rng).end
  {
    ChooseFits(val, rng);
    Pow2Values();
    var q := AlignedQuotient(Choose(val, rng).end, 31);
  }

  // ---- writing the last bytes -------------------------------------------------------

  /** Send the l leading bits of end through the carry buffer; the result keeps -unused bits. */
  function PutEnd(e: Enc, l: int, end: nat): (Enc, int)
    decreases l
  {
    if l > 0 then PutEnd(CarryOut(e, end / EC_CODE_BOT), l - 8, (256 * end) % EC_CODE_TOP) else (e, l)
  }

  function FlushCarry(e: Enc): Enc {
    if e.rem >= 0 || e.ext > 0 then CarryOut(e, 0) else e
  }

  function FlushRaw(e: Enc): Enc {
    if e.nendBits >= 8 then FlushWindow(e) else e
  }

  /** NoSpace: a byte could not be written. Busted: only the last raw bits did not fit. */
  datatype Outcome = NoSpace | Busted(buf: seq<byte>) | Done(buf: seq<byte>)

  function Reverse(t: seq<byte>): (r: seq<byte>)
    ensures |r| == |t|
    ensures forall k :: 0 <= k < |t| ==> r[k] == t[|t| - 1 - k]
  {
    if t == [] then [] else Reverse(t[1..]) + [t[0]]
  }

  /** The buffer with the unused middle cleared. */
  function Layout(e: Enc): (s: seq<byte>)
    requires |e.out| + |e.tail| <= e.storage
    ensures |s| == e.storage
  {
    e.out + Repeat(0, e.storage - |e.out| - |e.tail|) + Reverse(e.tail)
  }

  function OrByte(s: seq<byte>, k: nat, w: nat): (r: seq<byte>)
    requires k < |s|
    ensures |r| == |s|
  {
    s[k := ToByte(BitOr(s[k], ToByte(w)))]
  }

  /** The flushed encoder f, with `unused` low bits free in its last range coder byte, takes in
      the raw bits that do not fill a byte. */
  function Merge(f: Enc, unused: nat): Outcome
    requires |f.out| + |f.tail| <= f.storage
  {
    var s := Layout(f);
    if f.nendBits == 0 then Done(s)
    else if |f.tail| >= f.storage then Busted(s)
    else if |f.out| + |f.tail| >= f.storage && unused < f.nendBits then
      Busted(OrByte(s, f.storage - |f.tail| - 1, Low(f.endWindow, unused)))
    else
      Done(OrByte(s, f.storage - |f.tail| - 1, f.endWindow))
  }

  function Flushed(e: Enc, c: Choice): (Enc, int) {
    var (e1, l) := PutEnd(e, c.l, c.end);
    (FlushRaw(FlushCarry(e1)), l)
  }

  function FinishWith(e: Enc, c: Choice): Outcome
    requires EncInv(e) && Fits(c, e.val, e.rng)
  {
    var (f, l) := Flushed(e, c);
    FlushedFrame(e, c);
    if f.error then NoSpace else Merge(f, if l <= 0 then -l else 0)
  }

  function Finish(e: Enc): Outcome
    requires EncInv(e)
  {
    ChooseFits(e.val, e.rng);
    FinishWith(e, Choose(e.val, e.rng))
  }

  // ---- range coder bytes --------------------------------------------------------------

  function Bytes(l: nat): nat {
    (l + 7) / 8
  }

  /** Weight of the last of c extra bytes in the 31 bit register. */
  function Weight(c: nat): nat
    requires c <= 2
  {
    if c == 0 then 0x8000_0000 else if c == 1 then 0x80_0000 else 0x8000
  }

  lemma FlushCarryValue(e: Enc)
    requires -1 <= e.rem <= 255 && !FlushCarry(e).error
    ensures var r := FlushCarry(e);
      && Value(r.out) == Value(Digits(e)) && |r.out| == |Digits(e)|
  {
    var r := FlushCarry(e);
    if e.rem >= 0 || e.ext > 0 {
      CarryOutDigit(e, 0);
      CarryOutFrame(e, 0);
      assert Repeat(255, 0) == [];
      assert Digits(r) == r.out + [0];
      ValueSnoc(r.out, 0);
    } else {
      assert Repeat(255, 0) == [];
      assert Digits(e) == e.out;
    }
  }

  lemma {:induction false} PutEndFrame(e: Enc, l: int, end: nat)
    requires end < 0x1_0000_0000
    ensures var (r, m) := PutEnd(e, l, end);
      && r == e.(out := r.out, rem := r.rem, ext := r.ext, error := r.error)
      && (e.error ==> r.error)
      && (!r.error && |e.out| + |e.tail| <= e.storage ==> |r.out| + |r.tail| <= r.storage)
      && (-1 <= e.rem <= 255 ==> -1 <= r.rem <= 255)
    decreases l
  {
    if l > 0 {
      CarryOutFrame(e, end / EC_CODE_BOT);
      PutEndFrame(CarryOut(e, end / EC_CODE_BOT), l - 8, (256 * end) % EC_CODE_TOP);
    }
  }

  /** Finishing leaves the raw bits alone. */
  lemma FlushedFrame(e: Enc, c: Choice)
    requires EncInv(e) && Fits(c, e.val, e.rng)
    ensures var f := Flushed(e, c).0;
      && f.storage == e.storage && f.nendBits < 8 && f.endWindow < Pow2(f.nendBits)
      && (e.error ==> f.error)
      && (!f.error ==> RawBits(f) == RawBits(e) && |f.out| + |f.tail| <= f.storage)
  {
    PutEndFrame(e, c.l, c.end);
    var e1 := PutEnd(e, c.l, c.end).0;
    CarryOutFrame(e1, 0);
    FlushRawFrame(FlushCarry(e1), e);
  }

  lemma FlushRawFrame(e2: Enc, e: Enc)
    requires EncInv(e) && (e.error ==> e2.error)
    requires e2 == e.(out := e2.out, rem := e2.rem, ext := e2.ext, error := e2.error)
    requires -1 <= e2.rem <= 255 && (!e2.error ==> |e2.out| + |e2.tail| <= e2.storage)
    ensures var f := FlushRaw(e2);
      && f == e2.(tail := f.tail, endWindow := f.endWindow, nendBits := f.nendBits, error := f.error)
      && f.nendBits < 8 && f.endWindow < Pow2(f.nendBits) && (e.error ==> f.error)
      && (e2.error ==> f.error)
      && (!f.error ==> RawBits(f) == RawBits(e) && |f.out| + |f.tail| <= f.storage)
  {
    if e2.nendBits >= 8 { FlushWindowKeepsBits(e2); }
  }

  ghost predicate CarryReady(e: Enc, end: nat) {
    && end < 0x1_0000_0000 && -1 <= e.rem <= 255
    && (e.rem == -1 || e.rem == 255 ==> end < EC_CODE_TOP)
  }

  lemma PutEndOnce(e: Enc, l: nat, end: nat)
    requires CarryReady(e, end) && 1 <= l <= 8 && !PutEnd(e, l, end).0.error
    ensures var (r, m) := PutEnd(e, l, end);
      && m == l - 8 && -1 <= r.rem <= 255
      && Value(Digits(r)) == 256 * Value(Digits(e)) + end / EC_CODE_BOT && |Digits(r)| == |Digits(e)| + 1
  {
    CarryOutDigit(e, end / EC_CODE_BOT);
    CarryOutFrame(e, end / EC_CODE_BOT);
  }

  lemma TwoBytes(end: nat)
    ensures 256 * (end / EC_CODE_BOT) + ((256 * end) % EC_CODE_TOP) / EC_CODE_BOT == end / 0x8000
  {
    var q, r := end / EC_CODE_BOT, end % EC_CODE_BOT;
    assert (256 * end) % EC_CODE_TOP == 256 * r;
  }

  lemma PutEndTwice(e: Enc, end: nat)
    requires CarryReady(e, end) && !PutEnd(e, 9, end).0.error
    ensures var (r, m) := PutEnd(e, 9, end);
      && m == -7 && -1 <= r.rem <= 255
      && Value(Digits(r)) == 0x1_0000 * Value(Digits(e)) + end / 0x8000 && |Digits(r)| == |Digits(e)| + 2
  {
    var e1, end1 := CarryOut(e, end / EC_CODE_BOT), (256 * end) % EC_CODE_TOP;
    assert PutEnd(e, 9, end) == PutEnd(e1, 1, end1);
    PutEndFrame(e1, 1, end1);
    CarryOutFrame(e, end / EC_CODE_BOT);
    CarryOutDigit(e, end / EC_CODE_BOT);
    PutEndOnce(e1, 1, end1);
    TwoBytes(end);
  }

  /** The bytes written, read as a number, are the code of low's prefix and then end. */
  lemma PutEndValue(e: Enc, l: nat, end: nat)
    requires CarryReady(e, end) && l <= 9 && (l == 0 ==> end == 0)
    requires !PutEnd(e, l, end).0.error
    ensures var (r, m) := PutEnd(e, l, end);
      && m == l - 8 * Bytes(l) && -1 <= r.rem <= 255
      && Bytes(l) <= 2
      && (end % Weight(Bytes(l)) == 0 ==>
           Value(Digits(r)) * Weight(Bytes(l)) == Value(Digits(e)) * EC_CODE_TOP + end)
      && |Digits(r)| == |Digits(e)| + Bytes(l)
  {
    hide Digits, Value, CarryOut;
    if l == 0 {
    } else if l <= 8 {
      PutEndOnce(e, l, end);
    } else {
      PutEndTwice(e, end);
    }
  }

  lemma AlignedDown(x: nat, u: nat, v: nat)
    requires Aligned(x, u + v)
    ensures x % Pow2(v) == 0
    ensures Aligned(Shr(x, v), u)
  {
    var q := AlignedQuotient(x, u + v);
    var a, b := Pow2(u), Pow2(v);
    Pow2Add(u, v);
    MulAssoc(q, a, b);
    var y := Shl(q, u);
    MulCommute(y, b);
    DivUnique(x, b, y, 0);
  }

  /** Bounds on a code whose first n + c bytes are given. */
  lemma CodeFromPrefix(s: seq<byte>, n: nat, c: nat)
    requires c <= 2
    ensures Prefix(s, n + c) * Weight(c) <= Code(s, n) < (Prefix(s, n + c) + 1) * Weight(c)
  {
    hide ByteAt, Prefix;
    OneByteMore(s, n + 3);
    OneByteMore(s, n + 2);
    OneByteMore(s, n + 1);
    OneByteMore(s, n);
  }

  lemma OneByteMore(s: seq<byte>, m: nat)
    ensures Prefix(s, m + 1) == 256 * Prefix(s, m) + ByteAt(s, m)
  {
  }

  lemma WeightIsPower(c: nat)
    requires c <= 2
    ensures Weight(c) == Pow2(31 - 8 * c)
  {
    Pow2Values();
    Pow2Add(8, 7);
    assert Pow2(7) == 128;
  }

  /** Low bits of the last byte that ec_enc_done leaves open. */
  function Unused(l: nat): nat {
    8 * Bytes(l) - l
  }

  /** w stands for the bytes of f, whose low `u` bits are zero and may become anything. */
  lemma FreeBits(p: nat, w: nat, u: nat)
    requires Aligned(w, u) && Shr(p, u) == Shr(w, u)
    ensures w <= p <= w + Pow2(u) - 1
  {
    DivMod(p, Pow2(u));
    var q := AlignedQuotient(w, u);
    MulCommute(q, Pow2(u));
  }

  lemma AlignedPlus(v: nat, l: nat, x: nat, k: nat)
    requires Aligned(x, k)
    ensures v * Pow2(l + k) >= 0 && Aligned(v * Pow2(l + k) + x, k)
  {
    Pow2Add(l, k);
    MulAssoc(v, Pow2(l), Pow2(k));
    MulLe(0, v, Pow2(l));
    var q := AlignedQuotient(x, k);
    var z: nat := v * Pow2(l) + q;
    MulDist(Pow2(k), v * Pow2(l), q);
    assert v * Pow2(l + k) + x == Shl(z, k);
  }

  lemma DigitsAligned(w: nat, v: nat, end: nat, l: nat)
    requires l <= 9 && Aligned(end, 31 - l)
    requires Bytes(l) <= 2 && w * Weight(Bytes(l)) == v * EC_CODE_TOP + end
    ensures Aligned(w, Unused(l))
  {
    var b := Bytes(l);
    WeightIsPower(b);
    Pow2Values();
    AlignedPlus(v, l, end, 31 - l);
    var x := v * EC_CODE_TOP + end;
    AlignedDown(x, Unused(l), 31 - 8 * b);
    DivUnique(x, Weight(b), w, 0);
  }

  lemma WrittenValue(e: Enc, c: Choice)
    requires EncInv(e) && Fits(c, e.val, e.rng) && !Flushed(e, c).0.error
    requires c.l == 0 ==> c.end == 0
    ensures Bytes(c.l) <= 2
    ensures var (f, m) := Flushed(e, c);
      && m + Unused(c.l) == 0
      && Aligned(Value(f.out), Unused(c.l))
      && Value(f.out) * Weight(Bytes(c.l)) == Value(Digits(e)) * EC_CODE_TOP + c.end
      && |f.out| == |Digits(e)| + Bytes(c.l)
  {
    hide Choose, CarryOut, PutEnd, FlushWindow, Digits, Value, Pow2, Aligned;
    var e1 := PutEnd(e, c.l, c.end).0;
    PutEndFrame(e, c.l, c.end);
    CarryOutFrame(e1, 0);
    FlushRawFrame(FlushCarry(e1), e);
    PutEndValue(e, c.l, c.end);
    FlushCarryValue(e1);
    WeightIsPower(Bytes(c.l));
    AlignedDown(c.end, Unused(c.l), 31 - 8 * Bytes(c.l));
    DigitsAligned(Value(Flushed(e, c).0.out), Value(Digits(e)), c.end, c.l);
  }

  /** Any stream that starts with the bits ec_enc_done fixed, whatever bits follow them, selects
      a point of the encoder's final interval. */
  lemma FixedBitsCover(e: Enc, c: Choice, s: seq<byte>)
    requires EncInv(e) && Fits(c, e.val, e.rng) && !Flushed(e, c).0.error
    requires c.l == 0 ==> c.end == 0
    requires var f := Flushed(e, c).0;
      Shr(Prefix(s, |f.out|), Unused(c.l)) == Shr(Value(f.out), Unused(c.l))
    ensures Covers(Abs(e), s)
  {
    WrittenValue(e, c);
    CoversFromBytes(s, Abs(e), Value(Digits(e)) * EC_CODE_TOP, c, Value(Flushed(e, c).0.out), e.val);
  }

  lemma CoversFromBytes(s: seq<byte>, i: Interval, base: nat, c: Choice, w: nat, val: nat)
    requires i.low == base + val && Fits(c, val, i.rng) && Bytes(c.l) <= 2 && Aligned(w, Unused(c.l))
    requires w * Weight(Bytes(c.l)) == base + c.end
    requires Shr(Prefix(s, i.shifts + Bytes(c.l)), Unused(c.l)) == Shr(w, Unused(c.l))
    ensures Covers(i, s)
  {
    var n, l, end := i.shifts, c.l, c.end;
    FreeBits(Prefix(s, n + Bytes(l)), w, Unused(l));
    CodeInRange(s, n, l, w, base + end);
  }

  lemma CodeInRange(s: seq<byte>, n: nat, l: nat, w: nat, low: nat)
    requires l <= 9 && Bytes(l) <= 2 && w * Weight(Bytes(l)) == low
    requires w <= Prefix(s, n + Bytes(l)) <= w + Pow2(Unused(l)) - 1
    ensures low <= Code(s, n) <= low + Pow2(31 - l) - 1
  {
    hide Prefix, Code, Pow2;
    var b, u := Bytes(l), Unused(l);
    var p, k := Prefix(s, n + b), Weight(b);
    CodeFromPrefix(s, n, b);
    WeightIsPower(b);
    Pow2Add(u, 31 - 8 * b);
    assert u + (31 - 8 * b) == 31 - l;
    MulLe(w, p, k);
    MulLe(p + 1, w + Pow2(u), k);
    MulDist(k, w, Pow2(u));
  }

  // ---- where range coder bytes and raw bits meet --------------------------------------

  lemma SharedByte(y: byte, w: nat, n: nat)
    requires w < Pow2(n) && n < 8
    ensures w < 256 && BitOr(y, w) < 256
    ensures Shr(BitOr(y, w), n) == Shr(y, n)
  {
    Pow2Values();
    Pow2Monotone(n, EC_SYM_BITS);
    OrBound(y, w, EC_SYM_BITS);
    OrLow(y, w, n);
  }

  /** Changing the low u bits of the last byte does not change the number above them. */
  lemma LastByteChange(p: nat, y: byte, y': byte, u: nat)
    requires u <= 8 && Shr(y, u) == Shr(y', u)
    ensures Shr(256 * p + y, u) == Shr(256 * p + y', u)
  {
    Pow2Add(8 - u, u);
    Pow2Values();
    var a, m := Pow2(8 - u), Pow2(u);
    MulAssoc(p, a, m);
    DivMod(y, m);
    DivMod(y', m);
    var q := p * a + Shr(y, u);
    MulDist(m, p * a, Shr(y, u));
    assert m * (p * a) == (p * a) * m;
    DivUnique(256 * p + y, m, q, y % m);
    DivUnique(256 * p + y', m, q, y' % m);
  }

  lemma LayoutParts(f: Enc)
    requires |f.out| + |f.tail| <= f.storage
    ensures var s := Layout(f);
      && (forall k :: 0 <= k < |f.out| ==> s[k] == f.out[k])
      && (forall k :: |f.out| <= k < f.storage - |f.tail| ==> s[k] == 0)
      && (forall k :: 0 <= k < |f.tail| ==> s[f.storage - 1 - k] == f.tail[k])
  {
    RepeatAt(0, f.storage - |f.out| - |f.tail|);
  }

  lemma {:induction false} RepeatAt(b: byte, k: nat)
    ensures forall i :: 0 <= i < k ==> Repeat(b, k)[i] == b
  {
    if k > 0 { RepeatAt(b, k - 1); }
  }

  lemma {:induction false} PrefixOfEqual(s: seq<byte>, t: seq<byte>, m: nat)
    requires m <= |s| && m <= |t| && forall k :: 0 <= k < m ==> s[k] == t[k]
    ensures Prefix(s, m) == Prefix(t, m)
  {
    if m > 0 { PrefixOfEqual(s, t, m - 1); }
  }

  lemma OrKeepsCode(s: seq<byte>, out: seq<byte>, k: nat, w: nat, n: nat, u: nat)
    requires |out| <= k + 1 <= |s| && forall i :: 0 <= i < |out| ==> s[i] == out[i]
    requires w < Pow2(n) && n < 8 && u < 8 && (k + 1 == |out| ==> n <= u)
    ensures Shr(Prefix(OrByte(s, k, w), |out|), u) == Shr(Value(out), u)
  {
    var r := OrByte(s, k, w);
    if k + 1 == |out| {
      Pow2Monotone(n, u);
      SharedByte(s[k], w, u);
      PrefixOfEqual(r, out, k);
      LastByteChange(Prefix(out, k), out[k], r[k], u);
    } else {
      PrefixOfEqual(r, out, |out|);
    }
  }

  /** The raw bits never disturb the bits the range coder has fixed, not even when they bust. */
  lemma MergeKeepsCode(f: Enc, unused: nat)
    requires |f.out| + |f.tail| <= f.storage && unused < 8
    requires f.nendBits < 8 && f.endWindow < Pow2(f.nendBits)
    ensures !Merge(f, unused).NoSpace? && |Merge(f, unused).buf| == f.storage
    ensures Shr(Prefix(Merge(f, unused).buf, |f.out|), unused) == Shr(Value(f.out), unused)
  {
    LayoutParts(f);
    var s := Layout(f);
    PrefixOfEqual(s, f.out, |f.out|);
    if f.nendBits != 0 && |f.tail| < f.storage {
      var k := f.storage - |f.tail| - 1;
      if |f.out| + |f.tail| >= f.storage && unused < f.nendBits {
        OrKeepsCode(s, f.out, k, Low(f.endWindow, unused), unused, unused);
      } else {
        OrKeepsCode(s, f.out, k, f.endWindow, f.nendBits, unused);
      }
    }
  }

  lemma LastByteAligned(p: nat, y: byte, u: nat, n: nat)
    requires n <= u <= 8 && Aligned(256 * p + y, u)
    ensures Aligned(y, n)
  {
    Pow2Values();
    Pow2Add(8 - u, u);
    Pow2Add(u - n, n);
    var x, a, b, m := 256 * p + y, Pow2(8 - u), Pow2(u - n), Pow2(n);
    var q := AlignedQuotient(x, u);
    assert 256 == a * (b * m) by { MulAssoc(a, b, m); }
    MulAssoc(q, b, m);
    MulAssoc(p, a * b, m);
    MulAssoc(a, b, m);
    var z := q * b - p * (a * b);
    MulSub(m, q * b, p * (a * b));
    assert y == m * z;
    if z < 0 { MulLe(z, -1, m); }
    MulCommute(m, z);
    assert y == Shl(z, n);
  }

  /** Raw bits or-ed below an aligned byte can be read back from it. */
  lemma SharedByteRaw(y: byte, w: nat, n: nat)
    requires w < Pow2(n) && n < 8 && Aligned(y, n)
    ensures BitOr(y, w) < 256 && w < 256
    ensures ToBits(BitOr(y, w), EC_SYM_BITS)[..n] == ToBits(w, n)
  {
    hide ToBits, BitOr, Pow2, Aligned;
    SharedByte(y, w, n);
    var q := AlignedQuotient(y, n);
    OrDisjoint(w, q, n);
    ToBitsConcat(w, q, n, EC_SYM_BITS - n);
  }

  lemma {:induction false} TailBytesEqual(s: seq<byte>, t: seq<byte>)
    requires |t| <= |s| && forall k :: 0 <= k < |t| ==> s[|s| - 1 - k] == t[k]
    ensures TailBytes(s, |t|) == t
  {
    if t != [] {
      var n := |t| - 1;
      TailBytesEqual(s, t[..n]);
      assert t == t[..n] + [t[n]];
    }
  }

  ghost predicate StartsWith(x: seq<bit>, p: seq<bit>) {
    |p| <= |x| && x[..|p|] == p
  }

  lemma OrKeepsRaw(s: seq<byte>, tail: seq<byte>, w: nat, n: nat)
    requires |tail| < |s| && forall k :: 0 <= k < |tail| ==> s[|s| - 1 - k] == tail[k]
    requires var y := s[|s| - |tail| - 1];
      BitOr(y, w) < 256 && w < 256 && n < 8 && ToBits(BitOr(y, w), EC_SYM_BITS)[..n] == ToBits(w, n)
    ensures StartsWith(TailBits(OrByte(s, |s| - |tail| - 1, w), |s|), ByteBits(tail) + ToBits(w, n))
  {
    var m, pos := |tail|, |s| - |tail| - 1;
    var r := OrByte(s, pos, w);
    TailBytesEqual(r, tail);
    TailBitsSnoc(r, m);
    TailBitsPrefix(r, m + 1, |s|);
    var v := BitOr(s[pos], w);
    assert TailByte(r, m) == v;
    PrefixTake(TailBits(r, |s|), ByteBits(tail), ToBits(v, EC_SYM_BITS), n);
  }

  lemma PrefixTake(x: seq<bit>, a: seq<bit>, b: seq<bit>, n: nat)
    requires n <= |b| && |a| + |b| <= |x| && x[..|a| + |b|] == a + b
    ensures StartsWith(x, a + b[..n])
  {
    assert x[..|a| + n] == x[..|a| + |b|][..|a| + n];
    assert (a + b)[..|a| + n] == a + b[..n];
  }

  /** The byte that raw bits are or-ed into has room for them. */
  lemma MiddleHasRoom(f: Enc, unused: nat)
    requires |f.out| + |f.tail| < f.storage || (|f.out| + |f.tail| == f.storage && f.nendBits <= unused < 8)
    requires |f.tail| < f.storage && Aligned(Value(f.out), unused)
    requires f.nendBits < 8 && f.endWindow < Pow2(f.nendBits)
    ensures var y, w, n := Layout(f)[f.storage - |f.tail| - 1], f.endWindow, f.nendBits;
      BitOr(y, w) < 256 && w < 256 && ToBits(BitOr(y, w), EC_SYM_BITS)[..n] == ToBits(w, n)
  {
    LayoutParts(f);
    var pos := f.storage - |f.tail| - 1;
    if pos < |f.out| {
      LastByteAligned(Prefix(f.out, pos), f.out[pos], unused, f.nendBits);
      SharedByteRaw(f.out[pos], f.endWindow, f.nendBits);
    } else {
      ZeroAligned(f.nendBits);
      SharedByteRaw(0, f.endWindow, f.nendBits);
    }
  }

  /** After a success the raw bits are at the end of the buffer, in order. */
  lemma MergeKeepsRaw(f: Enc, unused: nat)
    requires |f.out| + |f.tail| <= f.storage && unused < 8
    requires f.nendBits < 8 && f.endWindow < Pow2(f.nendBits)
    requires Aligned(Value(f.out), unused)
    requires Merge(f, unused).Done?
    ensures StartsWith(TailBits(Merge(f, unused).buf, f.storage), RawBits(f))
  {
    hide ToBits, ByteBits, BitOr, TailBits, Pow2, Layout, Aligned, Value;
    if f.nendBits == 0 {
      LayoutKeepsRaw(f);
    } else {
      MiddleHasRoom(f, unused);
      OrKeepsRawBits(f);
    }
  }

  lemma OrKeepsRawBits(f: Enc)
    requires |f.out| + |f.tail| <= f.storage && |f.tail| < f.storage
    requires var y, w, n := Layout(f)[f.storage - |f.tail| - 1], f.endWindow, f.nendBits;
      BitOr(y, w) < 256 && w < 256 && n < 8 && ToBits(BitOr(y, w), EC_SYM_BITS)[..n] == ToBits(w, n)
    ensures StartsWith(TailBits(OrByte(Layout(f), f.storage - |f.tail| - 1, f.endWindow), f.storage), RawBits(f))
  {
    hide Layout, OrByte, BitOr, ToBits, TailBits, ByteBits;
    LayoutParts(f);
    OrKeepsRaw(Layout(f), f.tail, f.endWindow, f.nendBits);
  }

  lemma LayoutKeepsRaw(f: Enc)
    requires |f.out| + |f.tail| <= f.storage && f.nendBits == 0
    ensures StartsWith(TailBits(Layout(f), f.storage), RawBits(f))
  {
    var s := Layout(f);
    LayoutParts(f);
    TailBytesEqual(s, f.tail);
    TailBitsPrefix(s, |f.tail|, f.storage);
    assert RawBits(f) == ByteBits(f.tail);
  }

  lemma ZeroAligned(n: nat)
    ensures Aligned(0, n)
  {
    assert 0 == Shl(0, n);
  }

  // ---- space ---------------------------------------------------------------------------

  ghost predicate Room(e: Enc) {
    !e.error && |e.out| + |e.tail| <= e.storage
  }

  lemma {:induction false} FlushExtSpace(e: Enc, sym: byte)
    requires Room(e)
    ensures FlushExt(e, sym).error <==> |e.out| + |e.tail| + e.ext > e.storage
    decreases e.ext
  {
    if e.ext > 0 {
      var e1 := WriteByte(e, sym).(ext := e.ext - 1);
      if e1.error {
        FlushExtResult(e1, sym);
      } else {
        FlushExtSpace(e1, sym);
      }
    }
  }

  /** Flushing fails exactly when the digits pending so far exceed the buffer. */
  lemma CarryOutSpace(e: Enc, c: nat)
    requires Room(e) && c < 512 && -1 <= e.rem <= 255
    ensures CarryOut(e, c).error <==> c != EC_SYM_MAX && |Digits(e)| + |e.tail| > e.storage
    ensures var r := CarryOut(e, c);
      !r.error ==> r.rem < 256 && |Digits(r)| == |Digits(e)| + 1 && (c != EC_SYM_MAX ==> |r.out| == |Digits(e)|)
  {
    if c != EC_SYM_MAX {
      var e1 := if e.rem >= 0 then WriteByte(e, e.rem + c / 256) else e;
      var sym: byte := (EC_SYM_MAX + c / 256) % 256;
      FlushExtResult(e1, sym);
      if !e1.error { FlushExtSpace(e1, sym); }
    }
  }

  lemma {:induction false} PutEndSpace(e: Enc, l: nat, end: nat)
    requires Room(e) && end < 0x1_0000_0000 && -1 <= e.rem <= 255
    ensures var r := FlushCarry(PutEnd(e, l, end).0);
      if |Digits(e)| + Bytes(l) + |e.tail| > e.storage then r.error
      else !r.error && |r.out| == |Digits(e)| + Bytes(l)
    decreases l
  {
    if l == 0 {
      CarryOutSpace(e, 0);
    } else {
      var c, end1 := end / EC_CODE_BOT, (256 * end) % EC_CODE_TOP;
      var e1 := CarryOut(e, c);
      CarryOutFrame(e, c);
      CarryOutSpace(e, c);
      PutEndFrame(e1, l - 8, end1);
      CarryOutFrame(PutEnd(e1, l - 8, end1).0, 0);
      if !e1.error {
        if l >= 8 {
          PutEndSpace(e1, l - 8, end1);
        } else {
          assert PutEnd(e1, l - 8, end1).0 == e1 == PutEnd(e1, 0, end1).0;
          PutEndSpace(e1, 0, end1);
        }
      }
    }
  }

  lemma {:induction false} FlushRawSpace(e: Enc)
    requires RawInv(e) && Room(e)
    ensures FlushRaw(e).error <==> |e.out| + |e.tail| + e.nendBits / 8 > e.storage
    decreases e.nendBits
  {
    if e.nendBits >= 8 {
      FlushStepKeepsBits(e);
      var r := FlushStep(e);
      if r.error {
        if r.nendBits >= 8 { FlushWindowKeepsBits(r); }
      } else {
        FlushRawSpace(r);
      }
    }
  }

  lemma FlushedSpace(e: Enc, c: Choice)
    requires EncInv(e) && !e.error && Fits(c, e.val, e.rng)
    ensures Flushed(e, c).0.error <==> |Digits(e)| + Bytes(c.l) + |RawBits(e)| / 8 > e.storage
  {
    PutEndFrame(e, c.l, c.end);
    PutEndSpace(e, c.l, c.end);
    var e1 := PutEnd(e, c.l, c.end).0;
    CarryOutFrame(e1, 0);
    var e2 := FlushCarry(e1);
    FlushRawFrame(e2, e);
    if !e2.error {
      FlushRawSpace(e2);
    }
  }

  /** ec_enc_done succeeds exactly when the bits it must keep fit in the buffer. */
  lemma FinishFits(e: Enc, c: Choice)
    requires EncInv(e) && !e.error && Fits(c, e.val, e.rng)
    ensures FinishWith(e, c).Done? <==> 8 * |Digits(e)| + c.l + |RawBits(e)| <= 8 * e.storage
  {
    FlushedSpace(e, c);
    FlushedFrame(e, c);
    PutEndLeft(e, c.l, c.end);
    var (f, l) := Flushed(e, c);
    var raw := |RawBits(e)|;
    if !f.error {
      assert |f.tail| == raw / 8 && f.nendBits == raw % 8;
      FlushedLength(e, c);
    }
  }

  lemma {:induction false} PutEndLeft(e: Enc, l: nat, end: nat)
    ensures PutEnd(e, l, end).1 + Unused(l) == 0
    decreases l
  {
    if l >= 8 {
      PutEndLeft(CarryOut(e, end / EC_CODE_BOT), l - 8, (256 * end) % EC_CODE_TOP);
    }
  }

  lemma FlushedLength(e: Enc, c: Choice)
    requires EncInv(e) && !e.error && Fits(c, e.val, e.rng) && !Flushed(e, c).0.error
    ensures |Flushed(e, c).0.out| == |Digits(e)| + Bytes(c.l)
  {
    var e1 := PutEnd(e, c.l, c.end).0;
    PutEndFrame(e, c.l, c.end);
    PutEndSpace(e, c.l, c.end);
    CarryOutFrame(e1, 0);
    FlushRawFrame(FlushCarry(e1), e);
  }
}
