/** encode_pulses and decode_pulses (cwrs.c): a PVQ vector through the range coder, as its number. */
module Pulses {
  import opened IntervalCoder
  import P = Pvq
  import E = Encoder
  import D = Decoder
  import R = RoundTrip
  import opened EntropyContext

  /** At least one pulse in at least two dimensions, and a codebook that can be numbered in 32 bits. */
  predicate ValidBook(n: nat, k: nat) {
    n >= 2 && 0 < k <= 32767 && P.V(n, k) < 0x1_0000_0000
  }

  lemma BookSize(n: nat, k: nat)
    requires ValidBook(n, k)
    ensures 2 <= P.V(n, k) < 0x1_0000_0000
  {
    P.SecondColumn(n);
    P.Monotone(n, 1, k);
    P.Monotone(n, 1, k + 1);
  }

  function EncodeVector(e: E.Enc, y: seq<int>): (r: E.Enc)
    requires R.Inv(e) && ValidBook(|y|, P.Norm(y))
    ensures R.Inv(r) && R.Extends(r, e)
  {
    BookSize(|y|, P.Norm(y));
    P.IndexBound(y);
    R.UintExtends(e, P.Index(y), P.V(|y|, P.Norm(y)));
    E.EncodeUint(e, P.Index(y), P.V(|y|, P.Norm(y)))
  }

  lemma DecodedBelow(d: D.Dec, ft: nat)
    requires 2 <= ft < 0x1_0000_0000 && EC_CODE_BOT < d.rng && 0 <= d.val
    ensures D.DecodeUint(d, ft).1 < ft
  {
  }

  /** On any stream the result is some vector of the right norm. */
  function DecodeVector(d: D.Dec, n: nat, k: nat): (D.Dec, seq<int>)
    requires ValidBook(n, k) && EC_CODE_BOT < d.rng && 0 <= d.val
  {
    BookSize(n, k);
    DecodedBelow(d, P.V(n, k));
    var (r, i) := D.DecodeUint(d, P.V(n, k));
    (r, P.Vector(n, k, i))
  }

  lemma DecodedNorm(d: D.Dec, n: nat, k: nat)
    requires ValidBook(n, k) && EC_CODE_BOT < d.rng && 0 <= d.val
    ensures var y := DecodeVector(d, n, k).1; |y| == n && P.Norm(y) == k
  {
    hide D.DecodeUint;
    BookSize(n, k);
    DecodedBelow(d, P.V(n, k));
    P.IndexOfVector(n, k, D.DecodeUint(d, P.V(n, k)).1);
  }

  /** The decoder reads back the vector itself and stays in step. */
  lemma VectorStep(e: E.Enc, d: D.Dec, y: seq<int>)
    requires R.Inv(e) && ValidBook(|y|, P.Norm(y)) && R.Related(e, d)
    requires R.Carries(d.buf, EncodeVector(e, y))
    ensures EC_CODE_BOT < d.rng && 0 <= d.val
    ensures var (r, z) := DecodeVector(d, |y|, P.Norm(y));
      z == y && R.Related(EncodeVector(e, y), r) && r.buf == d.buf
  {
    hide E.EncodeUint, D.DecodeUint, P.Vector, P.Index, P.V;
    BookSize(|y|, P.Norm(y));
    P.IndexBound(y);
    R.UintStep(e, d, P.Index(y), P.V(|y|, P.Norm(y)));
    P.VectorOfIndex(y);
  }

  method EncodePulses(y: array<int>, k: nat, enc: EcCtx)
    requires enc.Valid() && R.Inv(enc.View()) && ValidBook(y.Length, k) && k == P.Norm(y[..])
    modifies enc, enc.buf
    ensures enc.Valid() && enc.buf == old(enc.buf) && enc.View() == EncodeVector(old(enc.View()), y[..])
    ensures y[..] == old(y[..])
  {
    hide E.EncodeUint, P.Index, P.V;
    ghost var v := y[..];
    BookSize(|v|, k);
    P.IndexBound(v);
    var i := P.RankByTable(y);
    enc.EncodeUint(i, P.V(y.Length, k));
  }

  method DecodePulses(y: array<int>, k: nat, dec: EcCtx) returns (yy: nat)
    requires dec.Reading() && ValidBook(y.Length, k) && EC_CODE_BOT < dec.rng && dec.val < dec.rng
    modifies dec, y
    ensures dec.Reading() && dec.buf == old(dec.buf)
    ensures (dec.DecView(), y[..]) == DecodeVector(old(dec.DecView()), y.Length, k)
    ensures yy == P.SumOfSquares(y[..])
  {
    hide D.DecodeUint, P.Vector, P.V;
    BookSize(y.Length, k);
    DecodedBelow(dec.DecView(), P.V(y.Length, k));
    var i := dec.DecodeUint(P.V(y.Length, k));
    yy := P.UnrankByTable(y.Length, k, i, y);
  }
}
