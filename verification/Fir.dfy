/** celt_fir (celt_lpc.c), unrolled by four: the filter that celt_iir undoes, and that undoes celt_iir. */
module Fir {
  import opened Lpc
  import opened Iir

  /** Sample k of the input, which follows |num| samples of history, with all terms but the first n. */
  function Filtered(s: seq<real>, num: seq<real>, k: nat, n: nat): real
    requires n <= |num| && k + |num| < |s|
    decreases |num| - n
  {
    if n == |num| then s[k + |num|] else Mac(Filtered(s, num, k, n + 1), num[n], s[k + |num| - 1 - n])
  }

  // ---- the loops -------------------------------------------------------------------------------

  /** A lane of the kernel adds the terms from the oldest sample on. */
  lemma {:induction false} LaneIsFiltered(s: seq<real>, num: seq<real>, r: seq<real>, i: nat, c: nat, n: nat)
    requires Reversed(r, num) && n <= |num| && i + c + |num| < |s|
    ensures Lane(r, s[i..], c, n, s[i + c + |num|]) == Filtered(s, num, i + c, |num| - n)
  {
    hide Mac;
    if n > 0 { LaneIsFiltered(s, num, r, i, c, n - 1); }
  }

  /** celt_fir: x holds |num| samples of history and then the input, and may not be y. */
  method CeltFir(x: array<real>, num: seq<real>, y: array<real>)
    requires |num| >= 3 && x.Length == |num| + y.Length && x != y
    modifies y
    ensures forall k :: 0 <= k < y.Length ==> y[k] == Filtered(x[..], num, k, 0)
  {
    hide Mac, Filtered, Lane;
    var N, ord := y.Length, |num|;
    var rnum := seq(ord, j requires 0 <= j < ord => num[ord - j - 1]);
    ghost var s := x[..];
    var i := 0;
    while i < N - 3
      invariant 0 <= i <= N
      invariant forall k :: 0 <= k < i ==> y[k] == Filtered(s, num, k, 0)
    {
      FilterBlock(x, num, rnum, y, i);
      i := i + 4;
    }
    while i < N
      invariant 0 <= i <= N
      invariant forall k :: 0 <= k < i ==> y[k] == Filtered(s, num, k, 0)
    {
      y[i] := FilterSample(x, num, rnum, i);
      i := i + 1;
    }
  }

  method FilterBlock(x: array<real>, num: seq<real>, rnum: seq<real>, y: array<real>, i: nat)
    requires |num| >= 3 && x.Length == |num| + y.Length && x != y && Reversed(rnum, num) && i + 4 <= y.Length
    modifies y
    ensures forall c :: i <= c < i + 4 ==> y[c] == Filtered(x[..], num, c, 0)
    ensures forall k :: 0 <= k < y.Length && !(i <= k < i + 4) ==> y[k] == old(y[k])
  {
    hide Mac, Filtered, Lane;
    var ord := |num|;
    ghost var s := x[..];
    var sum := new real[4];
    sum[0], sum[1], sum[2], sum[3] := x[i + ord], x[i + 1 + ord], x[i + 2 + ord], x[i + 3 + ord];
    XcorrKernel(rnum, x[i..], sum, ord);
    assert x[i..] == s[i..];
    LaneIsFiltered(s, num, rnum, i, 0, ord);
    LaneIsFiltered(s, num, rnum, i, 1, ord);
    LaneIsFiltered(s, num, rnum, i, 2, ord);
    LaneIsFiltered(s, num, rnum, i, 3, ord);
    y[i], y[i + 1], y[i + 2], y[i + 3] := sum[0], sum[1], sum[2], sum[3];
  }

  method FilterSample(x: array<real>, num: seq<real>, rnum: seq<real>, i: nat) returns (sum: real)
    requires Reversed(rnum, num) && i + |num| < x.Length
    ensures sum == Filtered(x[..], num, i, 0)
  {
    var ord := |num|;
    sum := x[i + ord];
    var j := 0;
    while j < ord
      invariant 0 <= j <= ord && sum == Filtered(x[..], num, i, ord - j)
    {
      sum := Mac(sum, rnum[j], x[i + j]);
      j := j + 1;
    }
  }

  // ---- against celt_iir ------------------------------------------------------------------------

  /** The memory of f, oldest sample first, and its output. */
  ghost function Signal(f: Filter): seq<real>
    requires Iir.Valid(f)
  {
    seq(|f.mem| + |f.x|, p requires 0 <= p < |f.mem| + |f.x| => Output(f, p - |f.mem|))
  }

  lemma {:induction false} TermsCancel(f: Filter, s: seq<real>, k: nat, n: nat)
    requires Iir.Valid(f) && k < |f.x| && n <= |f.den| && |s| == |f.den| + |f.x|
    requires forall p :: 0 <= p < k + |f.den| ==> s[p] == Output(f, p - |f.den|)
    ensures Filtered(s, f.den, k, n) + Far(f, k, n) == s[k + |f.den|] + f.x[k]
    decreases |f.den| - n
  {
    hide Output;
    if n < |f.den| {
      TermsCancel(f, s, k, n + 1);
      assert s[k + |f.den| - 1 - n] == Output(f, k - 1 - n);
    }
  }

  /** celt_fir gives back the input of celt_iir with the same coefficients. */
  lemma FirUndoesIir(f: Filter, k: nat)
    requires Iir.Valid(f) && k < |f.x|
    ensures Filtered(Signal(f), f.den, k, 0) == f.x[k]
  {
    hide Output;
    TermsCancel(f, Signal(f), k, 0);
    OutputIsFar(f, k);
  }

  /** What celt_fir makes of s, to be filtered back from the same history. */
  ghost function Residue(s: seq<real>, num: seq<real>): (f: Filter)
    requires |num| <= |s|
    ensures Iir.Valid(f) && |f.mem| == |num| && |f.x| == |s| - |num| && f.den == num
  {
    Filter(seq(|s| - |num|, k requires 0 <= k < |s| - |num| => Filtered(s, num, k, 0)), num,
           seq(|num|, j requires 0 <= j < |num| => s[|num| - 1 - j]))
  }

  /** celt_iir gives back the signal celt_fir was applied to. */
  lemma {:induction false} IirUndoesFir(s: seq<real>, num: seq<real>, p: nat)
    requires |num| <= |s| && p < |s|
    ensures Output(Residue(s, num), p - |num|) == s[p]
    decreases p
  {
    var f := Residue(s, num);
    if p >= |num| {
      forall q: nat | q < p
        ensures Output(f, q - |num|) == s[q]
      {
        IirUndoesFir(s, num, q);
      }
      hide Output;
      TermsCancel(f, s, p - |num|, 0);
      OutputIsFar(f, p - |num|);
    }
  }
}
