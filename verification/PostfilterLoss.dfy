/** Packets on which postfilter parameters are lost, because the encoder's guard does not hold for
    their size. */
module PostfilterLoss {
  import opened Bits
  import opened IntervalCoder
  import opened Symbols
  import opened Flush
  import E = Encoder
  import D = Decoder
  import R = RoundTrip
  import T = Tell
  import S = Space
  import opened FrameSyntax
  import opened Postfilter

  /** At a constant bitrate the packet is made smaller after nbAvailableBytes was computed. A packet of
      two bytes, in a buffer of 1275, for a postfilter of the lowest pitch: the guard passes, the
      parameters are written, ec_enc_done reports no error, and the decoder finds no postfilter and is out
      of step from there on. */
  lemma ConstantRateFails()
    ensures var e, p := Put(E.Init(2), Bit(0, 15)), On(MINPERIOD, 0, 0);
      && Behind(1, e) && Enabled(Available(1275, 1), false, 2) && !Arrives(e, p, 1, 16)
      && var f := PutParams(e, p, 1, 16);
      && E.EncInv(f) && Finish(f).Done?
      && var d := D.Init(Finish(f).buf);
      && Ready(d)
      && var (r, received) := GetParams(GetBit(d, 15).0, 1);
      && received == Off && !R.Related(f, r)
  {
    hide Ilog, Finish, Put, Bit, PutMain, GetBit, R.Inv, R.Related, R.Carries, R.Extends;
    var e0, p := E.Init(2), On(MINPERIOD, 0, 0);
    R.InitInv(2);
    var e := Put(e0, Bit(0, 15));
    var f := PutParams(e, p, 1, 16);
    SmallPacketFits(p);
    R.FinishCarries(f);
    var buf := Finish(f).buf;
    R.InitRelated(2, buf);
    TapsetValid(0);
    InvRegisters(e);
    InvRegisters(f);
    var g := PutMain(e, MINPERIOD, 0);
    InvRegisters(g);
    CarriesBefore(buf, f, g);
    R.CarriesEarlier(buf, g, e);
    AfterSelf(e);
    BitStepTo(e0, D.Init(buf), 0, 15, e);
    ParamsStep(e, GetBit(D.Init(buf), 15).0, p, 1, 16);
  }

  lemma SmallPacketFits(p: Params)
    requires p == On(MINPERIOD, 0, 0) && R.Inv(E.Init(2))
    ensures var e := Put(E.Init(2), Bit(0, 15));
      && Used(E.Init(2)) == 1 && Behind(1, e)
      && var f := PutParams(e, p, 1, 16);
      E.EncInv(f) && !f.error && Finish(f).Done? && f.storage == 2
  {
    hide Ilog, Finish, R.Extends, MainCost, E.EncodeSymbol, Octave;
    var e0 := E.Init(2);
    IlogOfPowers();
    SilenceFlag(e0);
    S.SymbolKeepsLate(e0, Bit(0, 15));
    var e := Put(e0, Bit(0, 15));
    var ops := MainOps(MINPERIOD, 0);
    R.AlwaysRunnable(e, ops);
    S.RunKeepsLate(e, ops);
    MainCostExact(e, MINPERIOD, 0);
    MainCostBounds(e.rng, MINPERIOD);
    var g := PutMain(e, MINPERIOD, 0);
    TapsetValid(0);
    S.SymbolKeepsLate(g, FromIcdf(0, TAPSET_ICDF, 2));
    DefaultTapsetCost(g);
    R.TellIsEnough(PutParams(e, p, 1, 16));
  }

  lemma IlogOfPowers()
    ensures Ilog(EC_CODE_TOP) == 32 && Octave(MINPERIOD) == 0
  {
    Pow2Values();
    IlogUnique(EC_CODE_TOP, 31);
    assert Pow2(4) == 16 && Pow2(5) == 32;
    IlogUnique(16, 4);
  }

  /** The tapset 0 costs at most a bit. */
  lemma DefaultTapsetCost(f: E.Enc)
    requires R.Inv(f) && ValidSymbol(FromIcdf(0, TAPSET_ICDF, 2))
    ensures Used(Put(f, FromIcdf(0, TAPSET_ICDF, 2))) <= Used(f) + 1
  {
    hide Ilog, E.EncodeSymbol;
    SymbolCost(f, FromIcdf(0, TAPSET_ICDF, 2));
    assert Pow2(2) == 4 && Pow2(1) == 2;
    var cut := f.rng - f.rng / 4 * 2;
    T.IlogShift(cut, 1);
    T.IlogMonotone(f.rng, cut * Pow2(1));
  }
}
