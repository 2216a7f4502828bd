/** The loops of celt_encoder.c and celt_decoder.c that write and read the header of a frame,
    working on the coder and on arrays in place. */
module FrameCode {
  import opened Bits
  import opened IntervalCoder
  import T = Tell
  import E = Encoder
  import D = Decoder
  import R = RoundTrip
  import opened EntropyContext
  import opened TfAnalysis
  import opened FrameSyntax

  /** ec_tell */
  method EcTell(ec: EcCtx) returns (tell: int)
    ensures tell == R.Tell(ec.nbitsTotal, ec.rng)
  {
    tell := ec.nbitsTotal - Ilog(ec.rng);
  }

  /** ec_enc_bit_logp */
  method PutBit(enc: EcCtx, b: flag, logp: nat)
    requires enc.Valid() && R.Inv(enc.View()) && 1 <= logp <= 16
    modifies enc, enc.buf
    ensures enc.Valid() && enc.buf == old(enc.buf) && enc.View() == Put(old(enc.View()), Bit(b, logp))
  {
    hide E.EncodeBit;
    Pow2Monotone(logp, 16);
    Pow2Values();
    enc.EncodeBit(b == 1, logp);
  }

  /** ec_dec_bit_logp */
  method TakeBit(dec: EcCtx, logp: nat) returns (b: flag)
    requires dec.Reading() && Ready(dec.DecView()) && 1 <= logp <= 16
    modifies dec
    ensures dec.Reading() && dec.buf == old(dec.buf) && (dec.DecView(), b) == GetBit(old(dec.DecView()), logp)
  {
    hide D.DecodeBit;
    Pow2Monotone(logp, 16);
    Pow2Values();
    var ret := dec.DecodeBit(logp);
    b := if ret then 1 else 0;
  }

  predicate AreFlags(s: seq<int>) {
    forall i :: 0 <= i < |s| ==> 0 <= s[i] < 2
  }

  function AsFlags(s: seq<int>): (r: seq<flag>)
    requires AreFlags(s)
    ensures r == s
  {
    seq(|s|, i requires 0 <= i < |s| => s[i])
  }

  /** Arrays that agree outside [start, end) have the same ends. */
  lemma SameEnds(a: seq<int>, b: seq<int>, start: nat, end: nat)
    requires start <= end <= |a| == |b| && forall k :: 0 <= k < start || end <= k < |a| ==> a[k] == b[k]
    ensures a[..start] == b[..start] && a[end..] == b[end..]
  {
    forall k | 0 <= k < |a| - end
      ensures a[end..][k] == b[end..][k]
    {
      assert a[end..][k] == a[end + k];
    }
  }

  /** What remains to be done, joined to what is done. */
  ghost function Joined<C>(done: seq<int>, rest: (C, seq<flag>, flag)): (C, seq<int>, flag) {
    (rest.0, done + rest.1, rest.2)
  }

  lemma JoinedNone<C>(rest: (C, seq<flag>, flag))
    ensures Joined([], rest) == rest
  {
    assert [] + rest.1 == rest.1;
  }

  lemma UsedIsTell(e: E.Enc)
    ensures Used(e) == R.Tell(e.nbitsTotal, e.rng)
  {
  }

  /** One turn of the loop of tf_encode. */
  lemma EncodeTurn(e: E.Enc, flags: seq<flag>, budget: int, logp: nat, later: nat, curr: flag, changed: flag,
                   done: seq<int>)
    requires R.Inv(e) && Likelihoods(logp, later) && flags != []
    ensures Joined(done, EncodeFlags(e, flags, budget, logp, later, curr, changed)) ==
      if Used(e) + logp <= budget then
        Joined(done + [flags[0]], EncodeFlags(Put(e, Bit(Xor(flags[0], curr), logp)), flags[1..], budget, later, later,
                                              flags[0], Or(changed, flags[0])))
      else Joined(done + [curr], EncodeFlags(e, flags[1..], budget, later, later, curr, changed))
  {
    hide Put, Bit, R.Inv, R.Extends, Used, UsedFrac, Or, Xor;
    if Used(e) + logp <= budget {
      var rest := EncodeFlags(Put(e, Bit(Xor(flags[0], curr), logp)), flags[1..], budget, later, later, flags[0],
                              Or(changed, flags[0]));
      assert done + ([flags[0]] + rest.1) == done + [flags[0]] + rest.1;
    } else {
      var rest := EncodeFlags(e, flags[1..], budget, later, later, curr, changed);
      assert done + ([curr] + rest.1) == done + [curr] + rest.1;
    }
  }

  /** tf_encode, first loop. */
  method EncodeTfFlags(enc: EcCtx, start: nat, end: nat, tfRes: array<int>, budget: int, logp_: nat, later: nat)
    returns (tfChanged: flag)
    requires enc.Valid() && R.Inv(enc.View()) && Likelihoods(logp_, later)
    requires start <= end <= tfRes.Length && AreFlags(tfRes[start..end])
    modifies enc, enc.buf, tfRes
    ensures enc.Valid() && enc.buf == old(enc.buf)
    ensures (enc.View(), tfRes[start..end], tfChanged)
         == Joined([], EncodeFlags(old(enc.View()), AsFlags(old(tfRes[start..end])), budget, logp_, later, 0, 0))
    ensures tfRes[..start] == old(tfRes[..start]) && tfRes[end..] == old(tfRes[end..])
  {
    hide Bit, Put, R.Inv, R.Extends, EncodeFlags, Used, UsedFrac, R.Tell, Or, Xor;
    ghost var flags := AsFlags(tfRes[start..end]);
    ghost var before, e0 := tfRes[..], enc.View();
    ghost var whole := Joined([], EncodeFlags(e0, flags, budget, logp_, later, 0, 0));
    var tell := EcTell(enc);
    var logp: nat, curr: flag := logp_, 0;
    tfChanged := 0;
    var i := start;
    assert flags == flags[0..] && tfRes[start..start] == [];
    UsedIsTell(enc.View());
    while i < end
      invariant start <= i <= end && enc.Valid() && enc.buf == old(enc.buf) && R.Inv(enc.View())
      invariant tell == Used(enc.View()) && Likelihoods(logp, later)
      invariant forall k :: 0 <= k < start || i <= k < tfRes.Length ==> tfRes[k] == before[k]
      invariant whole == Joined(tfRes[start..i],
        EncodeFlags(enc.View(), flags[i - start..], budget, logp, later, curr, tfChanged))
    {
      ghost var rest, sofar := flags[i - start..], tfRes[start..i];
      assert rest[0] == tfRes[i] && rest[1..] == flags[i + 1 - start..];
      EncodeTurn(enc.View(), rest, budget, logp, later, curr, tfChanged, sofar);
      if tell + logp <= budget {
        PutBit(enc, Xor(tfRes[i], curr), logp);
        tell := EcTell(enc);
        UsedIsTell(enc.View());
        curr := tfRes[i];
        tfChanged := Or(tfChanged, curr);
      } else {
        tfRes[i] := curr;
      }
      logp := later;
      assert tfRes[start..i + 1] == sofar + [tfRes[i]];
      i := i + 1;
    }
    EncodeFlagsEnd(enc.View(), flags[end - start..], budget, logp, later, curr, tfChanged, tfRes[start..end]);
    SameEnds(tfRes[..], before, start, end);
  }

  lemma EncodeFlagsEnd(e: E.Enc, none: seq<flag>, budget: int, logp: nat, later: nat, curr: flag, changed: flag,
                       done: seq<int>)
    requires R.Inv(e) && Likelihoods(logp, later) && none == []
    ensures Joined(done, EncodeFlags(e, none, budget, logp, later, curr, changed)) == (e, done, changed)
  {
    assert done + [] == done;
  }

  /** The last loop of tf_encode and tf_decode. */
  method ApplyTable(tfRes: array<int>, start: nat, end: nat, isTransient: bool, lm: nat, sel: flag)
    requires start <= end <= tfRes.Length && AreFlags(tfRes[start..end]) && lm < 4
    modifies tfRes
    ensures tfRes[start..end] == TfChanges(AsFlags(old(tfRes[start..end])), lm, isTransient, sel)
    ensures tfRes[..start] == old(tfRes[..start]) && tfRes[end..] == old(tfRes[end..])
  {
    hide TfChange;
    ghost var before := tfRes[..];
    ghost var flags := AsFlags(tfRes[start..end]);
    assert flags == before[start..end];
    for i := start to end
      invariant forall k :: 0 <= k < start || i <= k < tfRes.Length ==> tfRes[k] == before[k]
      invariant forall k :: start <= k < i ==> tfRes[k] == TfChange(lm, isTransient, sel, flags[k - start])
    {
      assert flags[i - start] == tfRes[i];
      tfRes[i] := TfChange(lm, isTransient, sel, tfRes[i]);
    }
    ghost var goal := TfChanges(flags, lm, isTransient, sel);
    forall k | 0 <= k < |goal|
      ensures tfRes[start..end][k] == goal[k]
    {
      assert tfRes[start..end][k] == tfRes[start + k];
    }
    assert tfRes[start..end] == goal;
    SameEnds(tfRes[..], before, start, end);
  }

  lemma TfEncodeParts(e: E.Enc, flags: seq<flag>, isTransient: bool, lm: nat, tfSelect: flag, rsv: bool, left: int)
    requires R.Inv(e) && lm < 4 && rsv == (lm > 0 && Used(e) + FirstLogp(isTransient) + 1 <= 8 * e.storage)
    requires left == 8 * e.storage - if rsv then 1 else 0
    ensures var (f, out, changed) := EncodeFlags(e, flags, left, FirstLogp(isTransient), LaterLogp(isTransient), 0, 0);
      TfEncode(e, flags, isTransient, lm, tfSelect) ==
        if rsv && SelectMatters(lm, isTransient, changed) then
          (Put(f, Bit(tfSelect, 1)), TfChanges(out, lm, isTransient, tfSelect))
        else (f, TfChanges(out, lm, isTransient, 0))
  {
    hide EncodeFlags, R.Inv, R.Extends, Used, UsedFrac, TfChanges, SelectMatters, Put, Bit;
  }

  /** tf_select where it is sent, else 0. */
  method PutSelect(enc: EcCtx, sent: bool, tfSelect_: flag) returns (tfSelect: flag)
    requires enc.Valid() && R.Inv(enc.View())
    modifies enc, enc.buf
    ensures enc.Valid() && enc.buf == old(enc.buf)
    ensures enc.View() == if sent then Put(old(enc.View()), Bit(tfSelect_, 1)) else old(enc.View())
    ensures tfSelect == if sent then tfSelect_ else 0
  {
    hide Bit, Put, R.Inv;
    tfSelect := tfSelect_;
    if sent {
      PutBit(enc, tfSelect, 1);
    } else {
      tfSelect := 0;
    }
  }

  /** tf_encode */
  method EncodeTf(enc: EcCtx, start: nat, end: nat, isTransient: bool, tfRes: array<int>, lm: nat, tfSelect_: flag)
    requires enc.Valid() && R.Inv(enc.View()) && lm < 4
    requires start <= end <= tfRes.Length && AreFlags(tfRes[start..end])
    modifies enc, enc.buf, tfRes
    ensures enc.Valid() && enc.buf == old(enc.buf)
    ensures (enc.View(), tfRes[start..end])
         == TfEncode(old(enc.View()), AsFlags(old(tfRes[start..end])), isTransient, lm, tfSelect_)
    ensures tfRes[..start] == old(tfRes[..start]) && tfRes[end..] == old(tfRes[end..])
  {
    hide Bit, Put, R.Inv, R.Extends, EncodeFlags, UsedFrac, R.Tell, TfChanges, SelectMatters, TfEncode;
    ghost var e, flags := enc.View(), AsFlags(tfRes[start..end]);
    var budget := enc.storage * 8;
    var tell := EcTell(enc);
    var logp := if isTransient then 2 else 4;
    var tfSelectRsv := lm > 0 && tell + logp + 1 <= budget;
    var left := budget - if tfSelectRsv then 1 else 0;
    TfEncodeParts(e, flags, isTransient, lm, tfSelect_, tfSelectRsv, left);
    JoinedNone(EncodeFlags(e, flags, left, FirstLogp(isTransient), LaterLogp(isTransient), 0, 0));
    var tfChanged := EncodeTfFlags(enc, start, end, tfRes, left, logp, if isTransient then 4 else 5);
    var tfSelect := PutSelect(enc, tfSelectRsv && SelectMatters(lm, isTransient, tfChanged), tfSelect_);
    ApplyTable(tfRes, start, end, isTransient, lm, tfSelect);
  }

  // ---- tf_decode --------------------------------------------------------------------------------------

  lemma DecodeTurn(d: D.Dec, n: nat, budget: int, logp: nat, later: nat, curr: flag, changed: flag, done: seq<int>)
    requires Ready(d) && Likelihoods(logp, later) && n > 0
    ensures Joined(done, DecodeFlags(d, n, budget, logp, later, curr, changed)) ==
      if R.Tell(d.nbitsTotal, d.rng) + logp <= budget then
        var (d1, b) := GetBit(d, logp);
        var now := Xor(curr, b);
        Joined(done + [now], DecodeFlags(d1, n - 1, budget, later, later, now, Or(changed, now)))
      else Joined(done + [curr], DecodeFlags(d, n - 1, budget, later, later, curr, changed))
  {
    hide GetBit, Ready, Or, Xor;
    if R.Tell(d.nbitsTotal, d.rng) + logp <= budget {
      var (d1, b) := GetBit(d, logp);
      var now := Xor(curr, b);
      var rest := DecodeFlags(d1, n - 1, budget, later, later, now, Or(changed, now));
      assert done + ([now] + rest.1) == done + [now] + rest.1;
    } else {
      var rest := DecodeFlags(d, n - 1, budget, later, later, curr, changed);
      assert done + ([curr] + rest.1) == done + [curr] + rest.1;
    }
  }

  lemma DecodeFlagsEnd(d: D.Dec, budget: int, logp: nat, later: nat, curr: flag, changed: flag, done: seq<int>)
    requires Ready(d) && Likelihoods(logp, later)
    ensures Joined(done, DecodeFlags(d, 0, budget, logp, later, curr, changed)) == (d, done, changed)
  {
    assert done + [] == done;
  }

  /** tf_decode, first loop. */
  method DecodeTfFlags(dec: EcCtx, start: nat, end: nat, tfRes: array<int>, budget: int, logp_: nat, later: nat)
    returns (tfChanged: flag)
    requires dec.Reading() && Ready(dec.DecView()) && Likelihoods(logp_, later) && start <= end <= tfRes.Length
    modifies dec, tfRes
    ensures dec.Reading() && dec.buf == old(dec.buf)
    ensures (dec.DecView(), tfRes[start..end], tfChanged)
         == Joined([], DecodeFlags(old(dec.DecView()), end - start, budget, logp_, later, 0, 0))
    ensures tfRes[..start] == old(tfRes[..start]) && tfRes[end..] == old(tfRes[end..])
  {
    hide GetBit, Ready, DecodeFlags, R.Tell, Or, Xor;
    ghost var before, d0 := tfRes[..], dec.DecView();
    ghost var whole := Joined([], DecodeFlags(d0, end - start, budget, logp_, later, 0, 0));
    var tell := EcTell(dec);
    var logp: nat, curr: flag := logp_, 0;
    tfChanged := 0;
    var i := start;
    assert tfRes[start..start] == [];
    while i < end
      invariant start <= i <= end && dec.Reading() && dec.buf == old(dec.buf) && Ready(dec.DecView())
      invariant tell == R.Tell(dec.nbitsTotal, dec.rng) && Likelihoods(logp, later)
      invariant forall k :: 0 <= k < start || end <= k < tfRes.Length ==> tfRes[k] == before[k]
      invariant whole == Joined(tfRes[start..i],
        DecodeFlags(dec.DecView(), end - i, budget, logp, later, curr, tfChanged))
    {
      ghost var sofar := tfRes[start..i];
      DecodeTurn(dec.DecView(), end - i, budget, logp, later, curr, tfChanged, sofar);
      if tell + logp <= budget {
        var b := TakeBit(dec, logp);
        curr := Xor(curr, b);
        tell := EcTell(dec);
        tfChanged := Or(tfChanged, curr);
      }
      tfRes[i] := curr;
      logp := later;
      assert tfRes[start..i + 1] == sofar + [curr];
      i := i + 1;
    }
    DecodeFlagsEnd(dec.DecView(), budget, logp, later, curr, tfChanged, tfRes[start..end]);
    SameEnds(tfRes[..], before, start, end);
  }

  /** tf_decode */
  method DecodeTf(dec: EcCtx, start: nat, end: nat, isTransient: bool, tfRes: array<int>, lm: nat)
    requires dec.Reading() && Ready(dec.DecView()) && lm < 4 && start <= end <= tfRes.Length
    modifies dec, tfRes
    ensures dec.Reading() && dec.buf == old(dec.buf)
    ensures (dec.DecView(), tfRes[start..end]) == TfDecode(old(dec.DecView()), end - start, isTransient, lm)
    ensures tfRes[..start] == old(tfRes[..start]) && tfRes[end..] == old(tfRes[end..])
  {
    hide GetBit, Ready, DecodeFlags, R.Tell, TfChanges, SelectMatters;
    var budget := dec.storage * 8;
    var tell := EcTell(dec);
    var logp := if isTransient then 2 else 4;
    var tfSelectRsv := lm > 0 && tell + logp + 1 <= budget;
    var left := budget - if tfSelectRsv then 1 else 0;
    ghost var d := dec.DecView();
    assert |d.buf| == dec.storage;
    JoinedNone(DecodeFlags(d, end - start, left, FirstLogp(isTransient), LaterLogp(isTransient), 0, 0));
    var tfChanged := DecodeTfFlags(dec, start, end, tfRes, left, logp, if isTransient then 4 else 5);
    var tfSelect: flag := 0;
    if tfSelectRsv && SelectMatters(lm, isTransient, tfChanged) {
      tfSelect := TakeBit(dec, 1);
    }
    ApplyTable(tfRes, start, end, isTransient, lm, tfSelect);
  }

  // ---- dynalloc ---------------------------------------------------------------------------------------

  /** ec_tell_frac */
  method EcTellFrac(ec: EcCtx) returns (tell: int)
    requires ec.rng > EC_CODE_BOT
    ensures tell == T.TellFrac(ec.nbitsTotal, ec.rng)
  {
    tell := T.TellFrac(ec.nbitsTotal, ec.rng);
  }

  /** The encoder's inner loop: boosts one band. */
  method BoostBand(enc: EcCtx, offset: int, cap: int, quanta: nat, totalBits: int, totalBoost_: int, logp: nat)
    returns (boost: nat, j: nat, totalBoost: int)
    requires enc.Valid() && R.Inv(enc.View()) && quanta > 0 && 1 <= logp <= 6
    modifies enc, enc.buf
    ensures enc.Valid() && enc.buf == old(enc.buf)
    ensures (enc.View(), boost, j)
         == EncodeBoost(old(enc.View()), offset, 0, 0, totalBits - totalBoost_, logp, cap, quanta)
    ensures totalBoost == totalBoost_ + boost && R.Inv(enc.View()) && (j > 0 <==> boost > 0)
  {
    hide Bit, Put, R.Inv, R.Extends, Used, T.TellFrac;
    ghost var whole := EncodeBoost(enc.View(), offset, 0, 0, totalBits - totalBoost_, logp, cap, quanta);
    InvRegisters(enc.View());
    var tell := EcTellFrac(enc);
    var loopLogp: nat := logp;
    boost, j, totalBoost := 0, 0, totalBoost_;
    while tell + 8 * loopLogp < totalBits - totalBoost && boost < cap
      invariant enc.Valid() && enc.buf == old(enc.buf) && R.Inv(enc.View())
      invariant 1 <= loopLogp <= 6 && enc.rng > EC_CODE_BOT && tell == T.TellFrac(enc.nbitsTotal, enc.rng)
      invariant totalBoost == totalBoost_ + boost && (j > 0 <==> boost > 0)
      invariant whole == EncodeBoost(enc.View(), offset, j, boost, totalBits - totalBoost_, loopLogp, cap, quanta)
      decreases cap - boost
    {
      var b: flag := if j < offset then 1 else 0;
      PutBit(enc, b, loopLogp);
      InvRegisters(enc.View());
      tell := EcTellFrac(enc);
      if b == 0 { return; }
      boost, totalBoost, loopLogp, j := boost + quanta, totalBoost + quanta, 1, j + 1;
    }
  }

  /** The decoder's inner loop. */
  method TakeBoost(dec: EcCtx, cap: int, quanta: nat, totalBits_: int, logp: nat) returns (boost: nat, totalBits: int)
    requires dec.Reading() && Ready(dec.DecView()) && quanta > 0 && 1 <= logp <= 6
    modifies dec
    ensures dec.Reading() && dec.buf == old(dec.buf)
    ensures (dec.DecView(), boost) == DecodeBoost(old(dec.DecView()), 0, totalBits_, logp, cap, quanta)
    ensures totalBits == totalBits_ - boost
  {
    hide GetBit, T.TellFrac;
    ghost var whole := DecodeBoost(dec.DecView(), 0, totalBits_, logp, cap, quanta);
    var tell := EcTellFrac(dec);
    var loopLogp: nat := logp;
    boost, totalBits := 0, totalBits_;
    while tell + 8 * loopLogp < totalBits && boost < cap
      invariant dec.Reading() && dec.buf == old(dec.buf) && Ready(dec.DecView())
      invariant 1 <= loopLogp <= 6 && tell == T.TellFrac(dec.nbitsTotal, dec.rng)
      invariant totalBits == totalBits_ - boost
      invariant whole == DecodeBoost(dec.DecView(), boost, totalBits_, loopLogp, cap, quanta)
      decreases cap - boost
    {
      var b := TakeBit(dec, loopLogp);
      tell := EcTellFrac(dec);
      if b == 0 { return; }
      boost, totalBits, loopLogp := boost + quanta, totalBits - quanta, 1;
    }
  }

  ghost function JoinedBoosts<C>(done: seq<int>, rest: (C, seq<nat>, int)): (C, seq<int>, int) {
    (rest.0, done + rest.1, rest.2)
  }

  lemma JoinedNoBoosts<C>(rest: (C, seq<nat>, int))
    ensures JoinedBoosts([], rest) == rest
  {
    assert [] + rest.1 == rest.1;
  }

  lemma DynallocTurn(e: E.Enc, bands: seq<Band>, want: seq<int>, logp: nat, total: int, done: seq<int>)
    requires R.Inv(e) && 2 <= logp <= 6 && |want| == |bands| && Wide(bands) && bands != []
    ensures var (e1, boost, j) := EncodeBoost(e, want[0], 0, 0, total, logp, bands[0].cap, Quanta(bands[0].width));
      JoinedBoosts(done, EncodeDynalloc(e, bands, want, logp, total)) ==
      JoinedBoosts(done + [boost], EncodeDynalloc(e1, bands[1..], want[1..], NextLogp(logp, j > 0), total - boost))
  {
    hide EncodeBoost, R.Inv, R.Extends, Used, UsedFrac;
    var (e1, boost, j) := EncodeBoost(e, want[0], 0, 0, total, logp, bands[0].cap, Quanta(bands[0].width));
    var rest := EncodeDynalloc(e1, bands[1..], want[1..], NextLogp(logp, j > 0), total - boost);
    assert done + ([boost] + rest.1) == done + [boost] + rest.1;
  }

  lemma DecodeDynallocTurn(d: D.Dec, bands: seq<Band>, logp: nat, total: int, done: seq<int>)
    requires Ready(d) && 2 <= logp <= 6 && Wide(bands) && bands != []
    ensures var (d1, boost) := DecodeBoost(d, 0, total, logp, bands[0].cap, Quanta(bands[0].width));
      JoinedBoosts(done, DecodeDynalloc(d, bands, logp, total)) ==
      JoinedBoosts(done + [boost], DecodeDynalloc(d1, bands[1..], NextLogp(logp, boost > 0), total - boost))
  {
    hide DecodeBoost, Ready;
    var (d1, boost) := DecodeBoost(d, 0, total, logp, bands[0].cap, Quanta(bands[0].width));
    var rest := DecodeDynalloc(d1, bands[1..], NextLogp(logp, boost > 0), total - boost);
    assert done + ([boost] + rest.1) == done + [boost] + rest.1;
  }

  lemma SliceNext<X>(all: seq<X>, k: nat)
    requires k < |all|
    ensures all[k..] != [] && all[k..][0] == all[k] && all[k..][1..] == all[k + 1..]
  {
  }

  lemma WideSlice(bands: seq<Band>, a: nat, b: nat)
    requires Wide(bands) && a <= b <= |bands|
    ensures Wide(bands[a..b]) && forall k: nat :: k <= b - a ==> Wide(bands[a..b][k..])
  {
  }

  lemma NextLogpRange(logp: nat)
    requires 2 <= logp <= 6
    ensures 2 <= NextLogp(logp, true) <= 6 && NextLogp(logp, false) == logp
  {
  }

  lemma QuantaPositive(bands: seq<Band>, i: nat)
    requires Wide(bands) && i < |bands|
    ensures Quanta(bands[i].width) > 0
  {
  }

  /** One band of the encoder's dynalloc block: its offset becomes its boost. */
  method BoostAt(enc: EcCtx, offsets: array<int>, i: nat, band: Band, totalBits: int, totalBoost_: int, logp_: nat)
    returns (totalBoost: int, logp: nat)
    requires enc.Valid() && R.Inv(enc.View()) && i < offsets.Length && band.width > 0 && 2 <= logp_ <= 6
    modifies enc, enc.buf, offsets
    ensures enc.Valid() && enc.buf == old(enc.buf) && R.Inv(enc.View()) && 2 <= logp <= 6
    ensures var (e, boost, j) := EncodeBoost(old(enc.View()), old(offsets[i]), 0, 0, totalBits - totalBoost_, logp_,
                                             band.cap, Quanta(band.width));
      && enc.View() == e && offsets[..] == old(offsets[..])[i := boost]
      && totalBoost == totalBoost_ + boost && logp == NextLogp(logp_, j > 0)
  {
    hide EncodeBoost, R.Inv, After, R.Extends, Used, UsedFrac;
    var boost, j;
    boost, j, totalBoost := BoostBand(enc, offsets[i], band.cap, Quanta(band.width), totalBits, totalBoost_, logp_);
    logp := NextLogp(logp_, j > 0);
    ghost var boosted := enc.View();
    offsets[i] := boost;
    assert enc.View() == boosted;
  }

  /** Bands start to i - 1 are done: what is left to do, behind them, makes up the whole. */
  ghost predicate Boosting(whole: (E.Enc, seq<nat>, int), e: E.Enc, s: seq<int>, before: seq<int>, bands: seq<Band>,
                           start: nat, i: nat, end: nat, logp: nat, left: int)
    requires start <= i <= end <= |s| == |before| == |bands| && Wide(bands)
  {
    && R.Inv(e) && 2 <= logp <= 6
    && (forall k :: 0 <= k < start || i <= k < |s| ==> s[k] == before[k])
    && whole == JoinedBoosts(s[start..i], EncodeDynalloc(e, bands[i..end], before[i..end], logp, left))
  }

  lemma BoostingStart(e: E.Enc, s: seq<int>, bands: seq<Band>, start: nat, end: nat, total: int)
    requires start <= end <= |s| == |bands| && Wide(bands) && R.Inv(e)
    ensures Boosting(EncodeDynalloc(e, bands[start..end], s[start..end], 6, total), e, s, s, bands,
                     start, start, end, 6, total)
  {
    hide R.Inv, EncodeDynalloc, JoinedBoosts;
    assert s[start..start] == [];
    JoinedNoBoosts(EncodeDynalloc(e, bands[start..end], s[start..end], 6, total));
  }

  lemma BoostingStep(whole: (E.Enc, seq<nat>, int), e: E.Enc, s: seq<int>, before: seq<int>, bands: seq<Band>,
                     start: nat, i: nat, end: nat, logp: nat, left: int, e1: E.Enc, boost: nat, j: nat)
    requires start <= i < end <= |s| == |before| == |bands| && Wide(bands)
    requires Boosting(whole, e, s, before, bands, start, i, end, logp, left)
    requires (e1, boost, j) == EncodeBoost(e, s[i], 0, 0, left, logp, bands[i].cap, Quanta(bands[i].width))
    ensures Boosting(whole, e1, s[i := boost], before, bands, start, i + 1, end, NextLogp(logp, j > 0), left - boost)
  {
    hide R.Inv, R.Extends, EncodeBoost, EncodeDynalloc, Used, UsedFrac, Quanta;
    var bs, ws := bands[i..end], before[i..end];
    assert bs[0] == bands[i] && bs[1..] == bands[i + 1..end] && ws[0] == s[i] && ws[1..] == before[i + 1..end];
    DynallocTurn(e, bs, ws, logp, left, s[start..i]);
    assert s[i := boost][start..i + 1] == s[start..i] + [boost];
  }

  lemma BoostingEnd(whole: (E.Enc, seq<nat>, int), e: E.Enc, s: seq<int>, before: seq<int>, bands: seq<Band>,
                    start: nat, end: nat, logp: nat, left: int)
    requires start <= end <= |s| == |before| == |bands| && Wide(bands)
    requires Boosting(whole, e, s, before, bands, start, end, end, logp, left)
    ensures whole == (e, s[start..end], left) && s[..start] == before[..start] && s[end..] == before[end..]
  {
    hide R.Inv, EncodeDynalloc;
    assert bands[end..end] == [] && before[end..end] == [];
    DynallocEnd(e, [], [], logp, left, s[start..end]);
    SameEnds(s, before, start, end);
  }

  /** The encoder's dynalloc block: offsets holds the wanted steps, then the boosts. */
  method EncodeBoosts(enc: EcCtx, start: nat, end: nat, bands: seq<Band>, offsets: array<int>, totalBits: int)
    returns (totalBoost: int)
    requires enc.Valid() && R.Inv(enc.View()) && start <= end <= offsets.Length == |bands| && Wide(bands)
    modifies enc, enc.buf, offsets
    ensures enc.Valid() && enc.buf == old(enc.buf)
    ensures (enc.View(), offsets[start..end], totalBits - totalBoost)
         == EncodeDynalloc(old(enc.View()), bands[start..end], old(offsets[start..end]), 6, totalBits)
    ensures offsets[..start] == old(offsets[..start]) && offsets[end..] == old(offsets[end..])
  {
    hide R.Inv, EncodeBoost, EncodeDynalloc, After, Boosting, Quanta, NextLogp;
    ghost var before := offsets[..];
    ghost var whole := EncodeDynalloc(enc.View(), bands[start..end], before[start..end], 6, totalBits);
    BoostingStart(enc.View(), before, bands, start, end, totalBits);
    var dynallocLogp: nat := 6;
    totalBoost := 0;
    var i := start;
    while i < end
      invariant start <= i <= end && enc.Valid() && enc.buf == old(enc.buf)
      invariant R.Inv(enc.View()) && 2 <= dynallocLogp <= 6
      invariant Boosting(whole, enc.View(), offsets[..], before, bands, start, i, end, dynallocLogp,
                         totalBits - totalBoost)
    {
      ghost var e, s, logp, left := enc.View(), offsets[..], dynallocLogp, totalBits - totalBoost;
      ghost var r := EncodeBoost(e, s[i], 0, 0, left, logp, bands[i].cap, Quanta(bands[i].width));
      BoostingStep(whole, e, s, before, bands, start, i, end, logp, left, r.0, r.1, r.2);
      totalBoost, dynallocLogp := BoostAt(enc, offsets, i, bands[i], totalBits, totalBoost, dynallocLogp);
      i := i + 1;
    }
    BoostingEnd(whole, enc.View(), offsets[..], before, bands, start, end, dynallocLogp, totalBits - totalBoost);
    assert offsets[..start] == offsets[..][..start] && offsets[end..] == offsets[..][end..];
  }

  lemma DynallocEnd(e: E.Enc, none: seq<Band>, nowant: seq<int>, logp: nat, total: int, done: seq<int>)
    requires R.Inv(e) && 2 <= logp <= 6 && none == [] && nowant == []
    ensures JoinedBoosts(done, EncodeDynalloc(e, none, nowant, logp, total)) == (e, done, total)
  {
    assert done + [] == done;
  }

  lemma DecodeDynallocEnd(d: D.Dec, none: seq<Band>, logp: nat, total: int, done: seq<int>)
    requires Ready(d) && 2 <= logp <= 6 && none == []
    ensures JoinedBoosts(done, DecodeDynalloc(d, none, logp, total)) == (d, done, total)
  {
    assert done + [] == done;
  }

  /** The decoder's dynalloc block. */
  method DecodeBoosts(dec: EcCtx, start: nat, end: nat, bands: seq<Band>, offsets: array<int>, totalBits_: int)
    returns (totalBits: int)
    requires dec.Reading() && Ready(dec.DecView()) && start <= end <= offsets.Length == |bands| && Wide(bands)
    modifies dec, offsets
    ensures dec.Reading() && dec.buf == old(dec.buf)
    ensures (dec.DecView(), offsets[start..end], totalBits)
         == DecodeDynalloc(old(dec.DecView()), bands[start..end], 6, totalBits_)
    ensures offsets[..start] == old(offsets[..start]) && offsets[end..] == old(offsets[end..])
  {
    hide Ready, DecodeBoost, DecodeDynalloc, Wide, Quanta, NextLogp;
    WideSlice(bands, start, end);
    ghost var before, d0 := offsets[..], dec.DecView();
    ghost var all := bands[start..end];
    ghost var whole := DecodeDynalloc(d0, all, 6, totalBits_);
    var dynallocLogp: nat := 6;
    totalBits := totalBits_;
    var i := start;
    JoinedNoBoosts(whole);
    assert offsets[start..start] == [] && all[0..] == all;
    while i < end
      invariant start <= i <= end && dec.Reading() && dec.buf == old(dec.buf)
      invariant Ready(dec.DecView()) && 2 <= dynallocLogp <= 6
      invariant forall k :: 0 <= k < start || end <= k < offsets.Length ==> offsets[k] == before[k]
      invariant whole == JoinedBoosts(offsets[start..i],
        DecodeDynalloc(dec.DecView(), all[i - start..], dynallocLogp, totalBits))
    {
      ghost var sofar, bands' := offsets[start..i], all[i - start..];
      SliceNext(all, i - start);
      QuantaPositive(bands, i);
      NextLogpRange(dynallocLogp);
      DecodeDynallocTurn(dec.DecView(), bands', dynallocLogp, totalBits, sofar);
      var quanta := Quanta(bands[i].width);
      var boost;
      boost, totalBits := TakeBoost(dec, bands[i].cap, quanta, totalBits, dynallocLogp);
      offsets[i] := boost;
      dynallocLogp := NextLogp(dynallocLogp, boost > 0);
      assert offsets[start..i + 1] == sofar + [boost];
      i := i + 1;
    }
    assert all[end - start..] == [];
    DecodeDynallocEnd(dec.DecView(), all[end - start..], dynallocLogp, totalBits, offsets[start..end]);
    SameEnds(offsets[..], before, start, end);
  }
}
