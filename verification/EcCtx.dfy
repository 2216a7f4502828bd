/** `struct ec_ctx` and the calls of entenc.c and entdec.c that update it and its buffer in
    place. Each call is proved to take one step of the value-level coder it implements. */
module EntropyContext {
  import opened Arith
  import opened Integers
  import opened Bits
  import opened IntervalCoder
  import opened Symbols
  import E = Encoder
  import D = Decoder
  import F = Flush
  import R = RoundTrip

  class EcCtx {
    var buf: array<byte>
    var storage: nat
    var endOffs: nat
    var endWindow: nat
    var nendBits: nat
    var nbitsTotal: nat
    var offs: nat
    var rng: nat
    var val: nat
    var ext: nat
    var rem: int
    var error: int

    ghost predicate Valid()
      reads this
    {
      storage <= buf.Length && offs + endOffs <= storage
    }

    /** The bytes written from the back, last byte of the buffer first. */
    ghost function Tail(): seq<byte>
      requires Valid()
      reads this, buf
    {
      seq(endOffs, i requires 0 <= i < endOffs reads this, buf requires Valid() => buf[storage - 1 - i])
    }

    /** The encoder state. */
    ghost function View(): E.Enc
      requires Valid()
      reads this, buf
    {
      E.Enc(storage, buf[..offs], Tail(), endWindow, nendBits, nbitsTotal, rng, val, rem, ext, error != 0)
    }

    constructor EncInit(b: array<byte>, size: nat)
      requires size <= b.Length
      ensures Valid() && buf == b && View() == E.Init(size)
    {
      buf := b;
      endOffs, endWindow, nendBits := 0, 0, 0;
      nbitsTotal := 33;
      offs, rng, rem, val, ext, storage, error := 0, EC_CODE_TOP, -1, 0, 0, size, 0;
    }

    /** error |= ec_write_byte(v) */
    method WriteByte(v: nat)
      requires Valid()
      modifies this`offs, this`error, buf
      ensures Valid() && View() == E.WriteByte(old(View()), v)
    {
      if offs + endOffs >= storage {
        error := -1;
      } else {
        buf[offs] := ToByte(v);
        offs := offs + 1;
      }
      assert Tail() == old(Tail());
    }

    /** error |= ec_write_byte_at_end(v) */
    method WriteByteAtEnd(v: nat)
      requires Valid()
      modifies this`endOffs, this`error, buf
      ensures Valid() && View() == E.WriteByteAtEnd(old(View()), v)
    {
      if offs + endOffs >= storage {
        error := -1;
      } else {
        endOffs := endOffs + 1;
        buf[storage - endOffs] := ToByte(v);
        assert Tail() == old(Tail()) + [ToByte(v)];
      }
      assert buf[..offs] == old(buf[..offs]);
    }

    method CarryOut(c: nat)
      requires Valid()
      modifies this`offs, this`error, this`ext, this`rem, buf
      ensures Valid() && View() == E.CarryOut(old(View()), c)
    {
      hide E.FlushExt, E.WriteByte;
      if c != E.EC_SYM_MAX {
        var carry := c / 256;
        PropagateCarry(carry);
        SetRem(c % 256);
      } else {
        ext := ext + 1;
        assert View() == old(View()).(ext := ext);
      }
    }

    method SetRem(r: int)
      requires Valid()
      modifies this`rem
      ensures Valid() && View() == old(View()).(rem := r)
    {
      rem := r;
    }

    /** Write the symbol that was awaiting a carry, then the run of 255s behind it. */
    method PropagateCarry(carry: nat)
      requires Valid()
      modifies this`offs, this`error, this`ext, buf
      ensures Valid()
      ensures View() == E.FlushExt(if old(rem) >= 0 then E.WriteByte(old(View()), old(rem) + carry) else old(View()),
                                   (E.EC_SYM_MAX + carry) % 256)
    {
      hide E.FlushExt, E.WriteByte;
      if rem >= 0 { WriteByte(rem + carry); }
      FlushExt((E.EC_SYM_MAX + carry) % 256);
    }

    /** The do-while loop that writes the buffered symbols. */
    method FlushExt(sym: nat)
      requires Valid()
      modifies this`offs, this`error, this`ext, buf
      ensures Valid() && View() == E.FlushExt(old(View()), sym)
    {
      while ext > 0
        invariant Valid() && E.FlushExt(View(), sym) == E.FlushExt(old(View()), sym)
        decreases ext
      {
        ghost var before := View();
        WriteByte(sym);
        ext := ext - 1;
        assert View() == E.WriteByte(before, sym).(ext := before.ext - 1);
      }
    }

    method EncNormalize()
      requires Valid() && rng > 0
      modifies this, buf
      ensures Valid() && buf == old(buf) && View() == E.Normalize(old(View()))
    {
      while rng <= EC_CODE_BOT
        invariant Valid() && rng > 0 && buf == old(buf)
        invariant E.Normalize(View()) == E.Normalize(old(View()))
        decreases EC_CODE_TOP - rng
      {
        ghost var before := View();
        CarryOut(val / EC_CODE_BOT);
        val := (256 * val) % EC_CODE_TOP;
        rng := 256 * rng;
        nbitsTotal := nbitsTotal + 8;
        assert View() == E.NormalizeStep(before);
      }
    }

    method Encode(fl: nat, fh: nat, ft: nat)
      requires Valid() && fl < fh <= ft <= EC_CODE_BOT < rng
      modifies this, buf
      ensures Valid() && buf == old(buf) && View() == E.Encode(old(View()), fl, fh, ft)
    {
      hide E.Normalize, Below;
      ghost var e := View();
      E.EncodeArithmetic(rng, fl, fh, ft);
      var r := rng / ft;
      if fl > 0 {
        val := val + rng - r * (ft - fl);
        rng := r * (fh - fl);
      } else {
        rng := rng - r * (ft - fh);
      }
      assert View() == e.(val := val, rng := rng);
      EncNormalize();
    }

    method EncodeBin(fl: nat, fh: nat, bits: nat)
      requires Valid() && fl < fh <= Pow2(bits) <= EC_CODE_BOT < rng
      modifies this, buf
      ensures Valid() && buf == old(buf) && View() == E.EncodeBin(old(View()), fl, fh, bits)
    {
      hide E.Normalize, Below;
      ghost var e := View();
      E.EncodeArithmetic(rng, fl, fh, Pow2(bits));
      var r := Shr(rng, bits);
      if fl > 0 {
        val := val + rng - r * (Pow2(bits) - fl);
        rng := r * (fh - fl);
      } else {
        rng := rng - r * (Pow2(bits) - fh);
      }
      assert View() == e.(val := val, rng := rng);
      EncNormalize();
    }

    method EncodeBit(one: bool, logp: nat)
      requires Valid() && 1 <= logp && Pow2(logp) <= EC_CODE_BOT < rng
      modifies this, buf
      ensures Valid() && buf == old(buf) && View() == E.EncodeBit(old(View()), one, logp)
    {
      hide E.Normalize, Shr;
      ghost var e := View();
      HalfBounds(rng, logp);
      var s := Shr(rng, logp);
      var r := rng - s;
      if one { val := val + r; }
      rng := if one then s else r;
      assert View() == e.(val := val, rng := rng);
      EncNormalize();
    }

    method EncodeIcdf(s: nat, icdf: seq<byte>, ftb: nat)
      requires Valid() && ValidSymbol(FromIcdf(s, icdf, ftb)) && EC_CODE_BOT < rng
      modifies this, buf
      ensures Valid() && buf == old(buf) && View() == E.EncodeIcdf(old(View()), s, icdf, ftb)
    {
      hide E.Normalize;
      ghost var e := View();
      IcdfBounds(rng, ftb, icdf[s], if s > 0 then icdf[s - 1] else Pow2(ftb));
      var r := Shr(rng, ftb);
      if s > 0 {
        MulSub(r, icdf[s - 1], icdf[s]);
        val := val + rng - r * icdf[s - 1];
        rng := r * (icdf[s - 1] - icdf[s]);
      } else {
        rng := rng - r * icdf[s];
      }
      assert View() == e.(val := val, rng := rng);
      EncNormalize();
    }

    /** The do-while loop shared by ec_enc_bits and ec_enc_done. */
    method FlushWindow()
      requires Valid() && nendBits >= 8
      modifies this, buf
      ensures Valid() && buf == old(buf) && View() == E.FlushWindow(old(View()))
    {
      hide E.FlushWindow;
      var more := true;
      while more
        invariant Valid() && buf == old(buf) && (more ==> nendBits >= 8)
        invariant E.FlushWindow(old(View())) == if more then E.FlushWindow(View()) else View()
        decreases nendBits, more
      {
        ghost var before := View();
        FlushWindowTurn(before);
        FlushByte();
        more := nendBits >= 8;
      }
    }

    method FlushByte()
      requires Valid() && nendBits >= 8
      modifies this, buf
      ensures Valid() && buf == old(buf) && View() == E.FlushStep(old(View())) && nendBits == old(nendBits) - 8
    {
      WriteByteAtEnd(Low(endWindow, EC_SYM_BITS));
      ghost var written := View();
      endWindow := Shr(endWindow, EC_SYM_BITS);
      nendBits := nendBits - 8;
      assert Tail() == written.tail;
    }

    static lemma FlushWindowTurn(e: E.Enc)
      requires e.nendBits >= 8
      ensures E.FlushWindow(e) == if E.FlushStep(e).nendBits >= 8 then E.FlushWindow(E.FlushStep(e)) else E.FlushStep(e)
    {
    }

    method EncodeBits(fl: nat, bits: nat)
      requires Valid() && bits <= 25 && E.RawInv(View())
      modifies this, buf
      ensures Valid() && buf == old(buf) && View() == E.EncodeBits(old(View()), fl, bits)
    {
      hide E.FlushWindow, BitOr, Shl;
      if nendBits + bits > E.EC_WINDOW_SIZE { FlushWindow(); }
      endWindow := BitOr(endWindow, Shl(fl, nendBits));
      nendBits := nendBits + bits;
      nbitsTotal := nbitsTotal + bits;
    }

    method EncodeUint(fl: nat, ft: nat)
      requires Valid() && fl < ft && 2 <= ft < 0x1_0000_0000 && E.EncInv(View())
      modifies this, buf
      ensures Valid() && buf == old(buf) && View() == E.EncodeUint(old(View()), fl, ft)
    {
      hide E.Encode, E.EncodeBits, E.EncodeUint, E.CarryInv, E.Abs;
      ghost var e := View();
      UintArithmetic(fl, ft);
      var ftb := Ilog(ft - 1);
      if ftb > EC_UINT_BITS {
        var k := ftb - EC_UINT_BITS;
        ghost var sym := R.EncodeUintLarge(e, fl, ft, k);
        E.EncodeSymbolRefines(e, sym);
        Encode(Shr(fl, k), Shr(fl, k) + 1, Shr(ft - 1, k) + 1);
        EncodeBits(Low(fl, k), k);
      } else {
        R.EncodeUintSmall(e, fl, ft);
        Encode(fl, fl + 1, ft);
      }
    }

    method EncShrink(size: nat)
      requires Valid() && offs + endOffs <= size <= storage
      modifies this`storage, buf
      ensures Valid() && View() == E.Shrink(old(View()), size)
      ensures storage == size && Tail() == old(Tail()) && buf[..offs] == old(buf[..offs])
    {
      var gap := storage - size;
      ghost var t := Tail();
      forall p | size - endOffs <= p < size { buf[p] := buf[p + gap]; }
      storage := size;
      assert Tail() == t;
    }

    /** The final symbols of ec_enc_done, with their carries. */
    method PutEnd(bits: nat, last: nat) returns (l: int)
      requires Valid()
      modifies this`offs, this`error, this`ext, this`rem, buf
      ensures Valid() && (View(), l) == F.PutEnd(old(View()), bits, last)
    {
      l := bits;
      var end: nat := last;
      while l > 0
        invariant Valid() && F.PutEnd(View(), l, end) == F.PutEnd(old(View()), bits, last)
        decreases l
      {
        CarryOut(end / EC_CODE_BOT);
        end := (256 * end) % EC_CODE_TOP;
        l := l - 8;
      }
    }

    /** Write out the whole bytes of the window; unlike ec_enc_bits, keep what is left in locals. */
    method FlushRaw() returns (window: nat, used: nat)
      requires Valid()
      modifies this`endOffs, this`error, buf
      ensures Valid() && View().(endWindow := window, nendBits := used) == F.FlushRaw(old(View()))
    {
      window, used := endWindow, nendBits;
      while used >= 8
        invariant Valid() && endWindow == old(endWindow) && nendBits == old(nendBits)
        invariant F.FlushRaw(View().(endWindow := window, nendBits := used)) == F.FlushRaw(old(View()))
        decreases used
      {
        ghost var before := View().(endWindow := window, nendBits := used);
        WriteByteAtEnd(Low(window, EC_SYM_BITS));
        window := Shr(window, EC_SYM_BITS);
        used := used - 8;
        assert View().(endWindow := window, nendBits := used) == E.FlushStep(before);
      }
    }

    method ClearMiddle()
      requires Valid()
      modifies buf
      ensures buf[..storage] == F.Layout(old(View()))
    {
      ghost var e := View();
      forall p | offs <= p < storage - endOffs { buf[p] := 0; }
      F.LayoutParts(e);
      assert forall k :: 0 <= k < endOffs ==> buf[storage - 1 - k] == e.tail[k];
      ghost var s := F.Layout(e);
      forall p | 0 <= p < storage
        ensures buf[p] == s[p]
      {
        if p >= storage - endOffs {
          assert s[storage - 1 - (storage - 1 - p)] == e.tail[storage - 1 - p];
        }
      }
    }

    /** Clear the unused middle and add the raw bits that do not fill a byte. */
    method Merge(window: nat, used: nat, unused: nat)
      requires Valid() && error == 0
      modifies this`error, buf
      ensures Valid()
      ensures var r := F.Merge(old(View()).(endWindow := window, nendBits := used), unused);
        buf[..storage] == r.buf && !r.NoSpace? && (error == 0 <==> r.Done?)
    {
      hide F.Layout;
      ghost var f := View().(endWindow := window, nendBits := used);
      LayoutIgnoresWindow(View(), window, used);
      ClearMiddle();
      if used > 0 {
        if endOffs >= storage {
          error := -1;
        } else {
          var w := window;
          if offs + endOffs >= storage && unused < used {
            w := Low(window, unused);
            error := -1;
          }
          var p := storage - endOffs - 1;
          buf[p] := ToByte(BitOr(buf[p], ToByte(w)));
          assert buf[..storage] == F.OrByte(F.Layout(f), p, w);
        }
      }
    }

    static lemma LayoutIgnoresWindow(e: E.Enc, window: nat, used: nat)
      requires |e.out| + |e.tail| <= e.storage
      ensures F.Layout(e.(endWindow := window, nendBits := used)) == F.Layout(e)
    {
    }

    /** The value ec_enc_done writes, how many bits of it count, and the mask of the others. */
    method ChooseEnd() returns (l: nat, msk: nat, end: nat)
      requires EC_CODE_BOT < rng <= EC_CODE_TOP
      ensures F.Choice(l, msk, end) == F.Choose(val, rng)
    {
      F.RangeLog(rng);
      l := 32 - Ilog(rng);
      msk := Shr(EC_CODE_TOP - 1, l);
      end := F.RoundUp(val, msk);
      if BitOr(end, msk) >= val + rng {
        l := l + 1;
        msk := msk / 2;
        end := F.RoundUp(val, msk);
      }
    }

    /** ec_enc_done */
    method EncDone()
      requires Valid() && E.EncInv(View())
      modifies this, buf
      ensures Valid() && storage == old(storage) && buf == old(buf)
      ensures error == 0 <==> F.Finish(old(View())).Done?
      ensures var r := F.Finish(old(View())); !r.NoSpace? ==> buf[..storage] == r.buf
    {
      hide F.Choose, F.PutEnd, E.FlushWindow, F.Merge, E.CarryOut;
      ghost var e, c := View(), F.Choose(val, rng);
      F.ChooseFits(val, rng);
      F.FlushedFrame(e, c);
      var left, msk, end := ChooseEnd();
      var l := PutEnd(left, end);
      if rem >= 0 || ext > 0 { CarryOut(0); }
      var window, used := FlushRaw();
      if error == 0 {
        Merge(window, used, if l <= 0 then -l else 0);
      }
    }

    // ---- decoder ---------------------------------------------------------------------------

    ghost predicate Reading()
      reads this
    {
      storage <= buf.Length && 0 <= rem < 256
    }

    /** The decoder state. */
    ghost function DecView(): D.Dec
      requires Reading()
      reads this, buf
    {
      D.Dec(buf[..storage], offs, endOffs, endWindow, nendBits, nbitsTotal, rng, val, ext, rem, error != 0)
    }

    method ReadByte() returns (b: byte)
      requires storage <= buf.Length
      modifies this`offs
      ensures b == (if old(offs) < storage then buf[old(offs)] else 0)
      ensures offs == (if old(offs) < storage then old(offs) + 1 else old(offs))
    {
      if offs < storage {
        b := buf[offs];
        offs := offs + 1;
      } else {
        b := 0;
      }
    }

    method ReadByteFromEnd() returns (b: byte)
      requires Reading()
      modifies this`endOffs
      ensures b == old(D.ReadByteFromEnd(DecView()))
      ensures endOffs == (if old(endOffs) < storage then old(endOffs) + 1 else old(endOffs))
    {
      if endOffs < storage {
        endOffs := endOffs + 1;
        b := buf[storage - endOffs];
      } else {
        b := 0;
      }
    }

    method DecNormalize()
      requires Reading() && rng > 0
      modifies this
      ensures Reading() && buf == old(buf) && DecView() == D.Normalize(old(DecView()))
    {
      while rng <= EC_CODE_BOT
        invariant Reading() && rng > 0 && buf == old(buf)
        invariant D.Normalize(DecView()) == D.Normalize(old(DecView()))
        decreases EC_CODE_TOP - rng
      {
        ghost var before := DecView();
        nbitsTotal := nbitsTotal + 8;
        rng := 256 * rng;
        var sym: int := rem;
        rem := ReadByte();
        sym := (256 * sym + rem) / 2;
        val := (256 * val + (255 - sym % 256)) % EC_CODE_TOP;
        assert DecView() == D.NormalizeStep(before);
      }
    }

    constructor DecInit(b: array<byte>, size: nat)
      requires size <= b.Length
      ensures Reading() && buf == b && DecView() == D.Init(b[..size])
    {
      buf := b;
      storage := size;
      endOffs, endWindow, nendBits, offs, ext, error := 0, 0, 0, 0, 0, 0;
      nbitsTotal := 33 - 24;
      rng := 128;
      rem, val := 0, 0;
      new;
      rem := ReadByte();
      val := rng - 1 - rem / 2;
      assert DecView() == D.Start(b[..size]);
      DecNormalize();
    }

    method Decode(ft: nat) returns (fs: nat)
      requires Reading() && 0 < ft <= EC_CODE_BOT < rng
      modifies this`ext
      ensures Reading() && rng / ft > 0 && DecView() == old(DecView()).(ext := rng / ft)
      ensures fs == D.DecodeFreq(val, rng / ft, ft)
    {
      UnitBounds(rng, ft);
      ext := rng / ft;
      DivMod(val, ext);
      var s := val / ext;
      fs := ft - Min(s + 1, ft);
    }

    /** Must follow a Decode that returned a value in [fl, fh). */
    method DecUpdate(fl: nat, fh: nat, ft: nat)
      requires Reading() && fl < fh <= ft <= EC_CODE_BOT < rng && ext == rng / ft
      requires Below(rng, fh, ft) <= val
      modifies this
      ensures Reading() && buf == old(buf) && DecView() == D.Update(old(DecView()), fl, fh, ft)
    {
      hide D.Normalize;
      BelowDecreases(rng, fl, fh, ft);
      MulDist(ext, ft - fh, fh - fl);
      ghost var d := DecView();
      var s := ext * (ft - fh);
      val := val - s;
      rng := if fl > 0 then ext * (fh - fl) else rng - s;
      assert DecView() == d.(val := val, rng := rng);
      DecNormalize();
    }

    method DecodeBin(bits: nat) returns (fs: nat)
      requires Reading() && Pow2(bits) <= EC_CODE_BOT < rng
      modifies this`ext
      ensures Reading() && Shr(rng, bits) > 0 && DecView() == old(DecView()).(ext := Shr(rng, bits))
      ensures fs == D.DecodeFreq(val, Shr(rng, bits), Pow2(bits))
    {
      UnitBounds(rng, Pow2(bits));
      ext := Shr(rng, bits);
      DivMod(val, ext);
      var s := val / ext;
      fs := Pow2(bits) - Min(s + 1, Pow2(bits));
    }

    method DecodeBit(logp: nat) returns (ret: bool)
      requires Reading() && 1 <= logp && Pow2(logp) <= EC_CODE_BOT < rng
      modifies this
      ensures Reading() && buf == old(buf) && (DecView(), ret) == D.DecodeBit(old(DecView()), logp)
    {
      hide D.Normalize, Shr;
      HalfBounds(rng, logp);
      ghost var d0 := DecView();
      var r, d := rng, val;
      var s := Shr(r, logp);
      ret := d < s;
      if !ret { val := d - s; }
      rng := if ret then s else r - s;
      assert DecView() == d0.(val := val, rng := rng);
      DecNormalize();
    }

    /** Returns the symbol whose slice of the range holds the input. */
    method DecodeIcdf(icdf: seq<byte>, ftb: nat) returns (ret: nat)
      requires Reading() && ValidIcdf(icdf, ftb) && val < rng
      modifies this
      ensures Reading() && buf == old(buf)
      ensures ret < |icdf| && ret == D.IcdfSearch(old(val), Shr(old(rng), ftb), icdf, 0)
      ensures Shr(old(rng), ftb) * icdf[ret] <= old(val) < D.IcdfTop(old(rng), ret, icdf, ftb)
      ensures DecView() == D.DecodeIcdf(old(DecView()), ret, icdf, ftb)
    {
      hide D.Normalize, Shr;
      ghost var d0 := DecView();
      var d, r := val, Shr(rng, ftb);
      var s, t := r * icdf[0], rng;
      ret := 0;
      while d < s
        invariant ret < |icdf| && s == r * icdf[ret] && t == D.IcdfTop(rng, ret, icdf, ftb) && d < t
        invariant D.IcdfSearch(d, r, icdf, 0) == D.IcdfSearch(d, r, icdf, ret)
        decreases |icdf| - ret
      {
        t := s;
        ret := ret + 1;
        s := r * icdf[ret];
      }
      val := d - s;
      rng := t - s;
      assert DecView() == d0.(val := val, rng := rng);
      DecNormalize();
    }

    method DecodeBits(bits: nat) returns (ret: nat)
      requires Reading() && bits <= 25
      modifies this
      ensures Reading() && buf == old(buf)
      ensures (DecView(), ret) == D.DecodeBits(old(DecView()), bits)
    {
      hide Shr, Low, BitOr;
      if nendBits < bits { Refill(); }
      ret := Low(endWindow, bits);
      endWindow := Shr(endWindow, bits);
      nendBits := nendBits - bits;
      nbitsTotal := nbitsTotal + bits;
    }

    /** The do-while loop of ec_dec_bits. */
    method Refill()
      requires Reading() && nendBits <= 24
      modifies this`endWindow, this`nendBits, this`endOffs
      ensures Reading() && nendBits > 24 && DecView() == D.Refill(old(DecView()))
    {
      hide BitOr, Shl;
      var more := true;
      while more
        invariant Reading() && (more <==> nendBits <= 24)
        invariant D.Refill(old(DecView())) == if more then D.Refill(DecView()) else DecView()
        decreases 32 - nendBits, more
      {
        ghost var before := DecView();
        var b := ReadByteFromEnd();
        endWindow := BitOr(endWindow, Shl(b, nendBits));
        nendBits := nendBits + 8;
        assert DecView() == D.RefillStep(before);
        more := nendBits <= 24;
      }
    }

    /** ec_decode and ec_dec_update for one of ft equally likely values. */
    method DecodeUniform(ft: nat) returns (s: nat)
      requires Reading() && 1 <= ft <= EC_CODE_BOT < rng && val < rng
      modifies this
      ensures Reading() && buf == old(buf) && (DecView(), s) == D.DecodeUniform(old(DecView()), ft)
    {
      hide D.Normalize, D.Update;
      ghost var v := val;
      s := Decode(ft);
      D.DecodeFreqMatches(rng, val, s, s + 1, ft);
      DecUpdate(s, s + 1, ft);
    }

    method DecodeUint(ft: nat) returns (v: nat)
      requires Reading() && 2 <= ft < 0x1_0000_0000 && EC_CODE_BOT < rng && val < rng
      modifies this
      ensures Reading() && buf == old(buf) && (DecView(), v) == D.DecodeUint(old(DecView()), ft)
    {
      hide D.DecodeBits, D.DecodeUniform, BitOr, Shl, Ilog;
      UintArithmetic(0, ft);
      var ftb := Ilog(ft - 1);
      if ftb > EC_UINT_BITS {
        var k := ftb - EC_UINT_BITS;
        var s := DecodeUniform(Shr(ft - 1, k) + 1);
        var low := DecodeBits(k);
        var t := BitOr(Shl(s, k), low);
        if t <= ft - 1 { return t; }
        error := 1;
        v := ft - 1;
      } else {
        v := DecodeUniform(ft);
      }
    }
  }
}
