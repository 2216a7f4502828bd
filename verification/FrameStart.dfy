/** A frame of the first band's coder from its first bit on: silence flag, postfilter parameters,
    transient flag (celt_encoder.c, celt_decoder.c), and with the header of FrameSyntax a whole frame. */
module FrameStart {
  import Bits
  import opened IntervalCoder
  import E = Encoder
  import D = Decoder
  import R = RoundTrip
  import B = Budgets
  import opened Flush
  import opened FrameSyntax
  import opened Postfilter
  import opened TfAnalysis

  /** What the encoder of a frame that is not silent starts with. */
  datatype Start = Start(params: Params, lm: nat, transient: flag)

  /** Written to a fresh encoder for a packet of `total` bits; the flag is 0 where it is not sent. */
  function EncodeStart(e0: E.Enc, s: Start, total: int): (r: (E.Enc, flag))
    requires R.Inv(e0) && ValidParams(s.params)
    ensures After(r.0, e0)
  {
    var e1 := Put(e0, Bit(0, 15));
    var e2 := PutParams(e1, s.params, Used(e0), total);
    AfterTransitive(e2, e1, e0);
    if s.lm > 0 && Used(e2) + 3 <= total then
      AfterTransitive(Put(e2, Bit(s.transient, 3)), e2, e0);
      (Put(e2, Bit(s.transient, 3)), s.transient)
    else (e2, 0)
  }

  /** In this order: the silence flag, the postfilter parameters, and the transient flag if a 1 would fit. */
  lemma StartOrder(e0: E.Enc, s: Start, total: int)
    requires R.Inv(e0) && ValidParams(s.params)
    ensures var e2 := PutParams(Put(e0, Bit(0, 15)), s.params, Used(e0), total);
      EncodeStart(e0, s, total) ==
        if s.lm > 0 && Used(Put(e2, Bit(1, 3))) <= total then (Put(e2, Bit(s.transient, 3)), s.transient)
        else (e2, 0)
  {
    hide R.Inv, Used, Put, Bit, PutParams;
    B.BitCost(PutParams(Put(e0, Bit(0, 15)), s.params, Used(e0), total), 3);
  }

  /** The bit count the decoder tests next: taken anew only behind the postfilter's block. */
  function TellBehind(d: D.Dec, tell: int): int {
    if tell + 16 <= 8 * |d.buf| then R.Tell(d.nbitsTotal, d.rng) else tell
  }

  /** The silence flag, the postfilter parameters and the transient flag; tell is that of the fresh coder. */
  function DecodeStart(d0: D.Dec, lm: nat, tell: int): (r: (D.Dec, flag, Params, flag))
    requires Ready(d0)
    ensures Ready(r.0) && r.0.buf == d0.buf
  {
    var (d1, silence) := GetBit(d0, 15);
    var (d2, params) := GetParams(d1, tell);
    var flagOk := lm > 0 && TellBehind(d2, tell) + 3 <= 8 * |d0.buf|;
    var (d3, transient) := if flagOk then GetBit(d2, 3) else (d2, 0 as flag);
    (d3, silence, params, transient)
  }

  /** The final packet has the size the encoder reckoned with, or was shrunk to min_allowed or more. */
  predicate SizeAllowed(f: E.Enc, boosted: int, larger: nat, size: nat)
    requires f.rng > EC_CODE_BOT
  {
    size == larger || MinAllowed(UsedFrac(f), boosted) <= size <= larger
  }

  /** All the tests of the start come out the same for the final packet. */
  lemma SameDecisions(e0: E.Enc, s: Start, larger: nat, f: E.Enc, boosted: nat, size: nat)
    requires R.Inv(e0) && ValidParams(s.params) && Used(e0) == 1
    requires BothTests(Put(e0, Bit(0, 15)), s.params, 1, 8 * larger)
    requires After(f, EncodeStart(e0, s, 8 * larger).0) && f.rng > EC_CODE_BOT && SizeAllowed(f, boosted, larger, size)
    ensures var e1 := Put(e0, Bit(0, 15));
      var e2 := PutParams(e1, s.params, 1, 8 * larger);
      && BothTests(e1, s.params, 1, 8 * size) && (17 <= 8 * larger <==> 17 <= 8 * size)
      && ((if 17 <= 8 * size then Used(e2) else 1) + 3 <= 8 * size <==> Used(e2) + 3 <= 8 * larger)
  {
    hide R.Inv, R.Extends, Used, UsedFrac, Put, MainCost, PutParams, MinAllowed;
    var e1 := Put(e0, Bit(0, 15));
    SilenceFlag(e0);
    var e2, e3 := PutParams(e1, s.params, 1, 8 * larger), EncodeStart(e0, s, 8 * larger).0;
    AfterSelf(e2);
    AfterTransitive(f, e3, e2);
    if size != larger {
      ShrinkHarmless(e1, s.params, 1, larger, f, boosted, size);
      TellBound(f, size, boosted);
    }
    SmallPacket(e1, s.params, larger);
  }

  /** A packet of at most two bytes has no postfilter block. */
  lemma SmallPacket(e1: E.Enc, p: Params, larger: nat)
    requires R.Inv(e1) && ValidParams(p) && Behind(1, e1) && BothTests(e1, p, 1, 8 * larger)
    ensures 17 > 8 * larger ==> PutParams(e1, p, 1, 8 * larger) == e1 && Used(e1) <= 2
  {
    hide R.Inv, Used, MainCost, Put, PutMain;
    InvRegisters(e1);
  }

  /** The decoder recovers the start of the frame. */
  lemma StartStep(e0: E.Enc, d0: D.Dec, s: Start, larger: nat, f: E.Enc, boosted: nat)
    requires R.Inv(e0) && R.Related(e0, d0) && ValidParams(s.params) && Used(e0) == 1
    requires BothTests(Put(e0, Bit(0, 15)), s.params, 1, 8 * larger)
    requires After(f, EncodeStart(e0, s, 8 * larger).0) && f.rng > EC_CODE_BOT && R.Carries(d0.buf, f)
    requires SizeAllowed(f, boosted, larger, |d0.buf|)
    ensures Ready(d0)
    ensures var (e3, transient) := EncodeStart(e0, s, 8 * larger);
      var (d3, silence, params, transient') := DecodeStart(d0, s.lm, 1);
      silence == 0 && params == s.params && transient' == transient && R.Related(e3, d3)
  {
    hide R.Inv, R.Related, R.Carries, R.Extends, Used, UsedFrac, R.Tell, Put, Bit, GetBit, PutParams, GetParams,
         MainCost, SizeAllowed;
    var buf := d0.buf;
    SameDecisions(e0, s, larger, f, boosted, |buf|);
    StateAgrees(e0, d0);
    var e1 := Put(e0, Bit(0, 15));
    var e2, e3 := PutParams(e1, s.params, 1, 8 * larger), EncodeStart(e0, s, 8 * larger).0;
    AfterSelf(e2);
    AfterTransitive(f, e3, e2);
    AfterTransitive(f, e2, e1);
    CarriesBefore(buf, f, e2);
    BitStepTo(e0, d0, 0, 15, f);
    var d1 := GetBit(d0, 15).0;
    ParamsStep(e1, d1, s.params, 1, 8 * larger);
    var d2 := GetParams(d1, 1).0;
    StateAgrees(e2, d2);
    if s.lm > 0 && Used(e2) + 3 <= 8 * larger { BitStepTo(e2, d2, s.transient, 3, f); }
  }

  /** What a run of calls after a shrink has committed to holds what was committed to before. */
  lemma CarriesFrom(buf: seq<Bits.byte>, f: E.Enc, s: E.Enc, after: seq<R.Op>, g: E.Enc)
    requires R.Inv(f) && R.Applicable(f, R.Resize(s.storage)) && s == E.Shrink(f, s.storage)
    requires R.Runnable(s, after) && g == R.Run(s, after) && R.Inv(g) && R.Carries(buf, g)
    ensures R.Carries(buf, f)
  {
    hide R.Carries, R.Extends, E.Shrink;
    R.OpExtends(f, R.Resize(s.storage));
    R.RunExtends(s, after);
    InvRegisters(s);
    InvRegisters(f);
    R.CarriesEarlier(buf, g, s);
    R.CarriesEarlier(buf, s, f);
  }

  /** A whole frame of an encoder fresh for size0 bytes: e3 behind its start, e behind the coarse energy
      (any calls), f behind the header, s once shrunk to no less than min_allowed, g at the end. The
      postfilter may be on from 3 bytes on. If ec_enc_done reports no error, the decoder recovers all of it. */
  lemma WholeFrame(size0: nat, start: Start, e3: E.Enc, transient: flag, energy: seq<R.Op>, e: E.Enc, h: Header,
                   f: E.Enc, fields: Fields, s: E.Enc, after: seq<R.Op>, g: E.Enc)
    requires R.Inv(E.Init(size0)) && ValidParams(start.params)
    requires start.params.On? ==> size0 >= 3
    requires (e3, transient) == EncodeStart(E.Init(size0), start, 8 * size0)
    requires forall i :: 0 <= i < |energy| ==> R.ValidOp(energy[i]) && !energy[i].Resize?
    requires R.Runnable(e3, energy) && e == R.Run(e3, energy) && R.Inv(e)
    requires ValidHeader(h) && h.lm == start.lm && h.isTransient == (transient == 1)
    requires (f, fields) == EncodeHeader(e, h)
    requires s.storage == f.storage || MinAllowed(UsedFrac(f), fields.boosted) <= s.storage <= f.storage
    requires R.Applicable(f, R.Resize(s.storage)) && s == E.Shrink(f, s.storage)
    requires R.Runnable(s, after) && g == R.Run(s, after)
    requires R.Inv(g) && g.storage == s.storage && Finish(g).Done?
    ensures var d0 := D.Init(Finish(g).buf);
      && Ready(d0)
      && var (d3, silence, params, transient') := DecodeStart(d0, start.lm, 1);
      && silence == 0 && params == start.params && transient' == transient
      && R.Lockstep(e3, d3, energy)
      && var d := DecodeRun(e3, d3, energy);
      && Ready(d)
      && var (r, fields') := DecodeHeader(d, |h.flags|, transient' == 1, start.lm, h.bands);
      && fields' == fields
      && R.Lockstep(s, r, after)
  {
    hide EncodeStart, DecodeStart, EncodeHeader, DecodeHeader, Finish, MinAllowed, BothTests, R.Related, R.Carries,
         R.Extends, R.Lockstep, UsedFrac, Used, E.Shrink;
    var e0, buf := E.Init(size0), Finish(g).buf;
    R.FinishCarries(g);
    R.InitRelated(size0, buf);
    FreshCount(size0);
    FreshTests(size0, start.params);
    RunAfter(e3, energy);
    AfterTransitive(f, e, e3);
    InvRegisters(f);
    CarriesFrom(buf, f, s, after, g);
    BoostedPositive(e, h);
    StartStep(e0, D.Init(buf), start, size0, f, fields.boosted);
    var d3 := DecodeStart(D.Init(buf), start.lm, 1).0;
    FrameStep(e3, d3, energy, e, h, f, fields, s, after, g);
  }

  lemma BoostedPositive(e: E.Enc, h: Header)
    requires R.Inv(e) && ValidHeader(h)
    ensures EncodeHeader(e, h).1.boosted >= 0
  {
    hide TfEncode, EncodeDynalloc, PutIf, R.Inv;
  }

  lemma FreshTests(size: nat, p: Params)
    requires R.Inv(E.Init(size)) && ValidParams(p) && (p.On? ==> size >= 3)
    ensures BothTests(Put(E.Init(size), Bit(0, 15)), p, 1, 8 * size)
  {
    hide MainCost, Put, Used, R.Inv;
    var e := Put(E.Init(size), Bit(0, 15));
    FreshCount(size);
    SilenceFlag(E.Init(size));
    if p.On? { FreshExactly(e, p, size); }
  }

  lemma FreshCount(size: nat)
    ensures Used(E.Init(size)) == 1 && E.Init(size).storage == size
  {
    Bits.Pow2Values();
    Bits.IlogUnique(EC_CODE_TOP, 31);
  }
}
