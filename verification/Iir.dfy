/** celt_iir (celt_lpc.c): the form unrolled by four, with its inner product kernel (pitch.h),
    against the one-sample-at-a-time form of the same file. */
module Iir {
  import opened Lpc

  /** The input, the denominator and the memory a call starts from. */
  datatype Filter = Filter(x: seq<real>, den: seq<real>, mem: seq<real>)

  ghost predicate Valid(f: Filter) {
    |f.den| == |f.mem|
  }

  /** The output at time k; before time 0, the memory. */
  ghost function Output(f: Filter, k: int): real
    requires Valid(f) && -|f.mem| <= k < |f.x|
    decreases k + |f.mem|, |f.den| + 1
  {
    if k < 0 then f.mem[-k - 1] else Near(f, k, |f.den|)
  }

  /** x[k] less the first n feedback terms. */
  ghost function Near(f: Filter, k: nat, n: nat): real
    requires Valid(f) && k < |f.x| && n <= |f.den|
    decreases k + |f.mem|, n
  {
    if n == 0 then f.x[k] else Near(f, k, n - 1) - f.den[n - 1] * Output(f, k - n)
  }

  /** x[k] less all feedback terms but the first n. */
  ghost function Far(f: Filter, k: nat, n: nat): real
    requires Valid(f) && k < |f.x| && n <= |f.den|
    decreases |f.den| - n
  {
    if n == |f.den| then f.x[k] else Far(f, k, n + 1) - f.den[n] * Output(f, k - 1 - n)
  }

  lemma {:induction false} NearAndFar(f: Filter, k: nat, n: nat)
    requires Valid(f) && k < |f.x| && n <= |f.den|
    ensures Near(f, k, n) + Far(f, k, n) == f.x[k] + Output(f, k)
    decreases |f.den| - n
  {
    if n < |f.den| {
      NearAndFar(f, k, n + 1);
      assert Near(f, k, n + 1) == Near(f, k, n) - f.den[n] * Output(f, k - (n + 1));
    }
  }

  lemma BeforeStart(f: Filter)
    requires Valid(f)
    ensures forall j :: 0 <= j < |f.mem| ==> Output(f, -1 - j) == f.mem[j]
  {
  }

  // ---- one sample at a time (SMALL_FOOTPRINT) ------------------------------------------

  /** x and y may be the same array. */
  method FilterSimple(x: array<real>, den: seq<real>, y: array<real>, mem: array<real>)
    requires |den| == mem.Length >= 1 && y.Length == x.Length && y != mem && x != mem
    modifies y, mem
    ensures var f := Filter(old(x[..]), den, old(mem[..]));
      && (forall i :: 0 <= i < x.Length ==> y[i] == Output(f, i))
      && (forall j :: 0 <= j < |den| ==> mem[j] == Output(f, x.Length - 1 - j))
  {
    hide Near, Output;
    ghost var f := Filter(x[..], den, mem[..]);
    BeforeStart(f);
    var ord, i := |den|, 0;
    while i < x.Length
      invariant 0 <= i <= x.Length
      invariant forall t :: i <= t < x.Length ==> x[t] == f.x[t]
      invariant forall t :: 0 <= t < i ==> y[t] == Output(f, t)
      invariant forall j :: 0 <= j < ord ==> mem[j] == Output(f, i - 1 - j)
    {
      var sum := Feedback(f, i, x[i], mem, den);
      ghost var before := mem[..];
      Shift(mem, sum);
      y[i] := sum;
      forall t | 0 < t < ord
        ensures mem[t] == Output(f, i - t)
      {
        assert mem[t] == mem[..][t] == before[t - 1];
      }
      i := i + 1;
    }
  }

  method Shift(mem: array<real>, v: real)
    requires mem.Length >= 1
    modifies mem
    ensures mem[..] == [v] + old(mem[..mem.Length - 1])
  {
    var j := mem.Length - 1;
    while j >= 1
      invariant 0 <= j < mem.Length
      invariant forall t :: j < t < mem.Length ==> mem[t] == old(mem[t - 1])
      invariant forall t :: 0 <= t <= j ==> mem[t] == old(mem[t])
    {
      mem[j] := mem[j - 1];
      j := j - 1;
    }
    mem[0] := v;
  }

  method Feedback(ghost f: Filter, i: nat, xi: real, mem: array<real>, den: seq<real>) returns (sum: real)
    requires Valid(f) && i < |f.x| && xi == f.x[i] && den == f.den && mem.Length == |den|
    requires forall j :: 0 <= j < |den| ==> mem[j] == Output(f, i - 1 - j)
    ensures sum == Output(f, i)
  {
    sum := xi;
    var j := 0;
    while j < |den|
      invariant 0 <= j <= |den| && sum == Near(f, i, j)
    {
      sum := sum - den[j] * mem[j];
      j := j + 1;
    }
  }

  // ---- the kernel ------------------------------------------------------------------------

  /** s + x[0] * y[c] + ... + x[n - 1] * y[n - 1 + c], in this order. */
  function Lane(x: seq<real>, y: seq<real>, c: nat, n: nat, s: real): real
    requires n <= |x| && n + c <= |y|
  {
    if n == 0 then s else Mac(Lane(x, y, c, n - 1, s), x[n - 1], y[n - 1 + c])
  }

  ghost predicate Lanes(sum: array<real>, x: seq<real>, y: seq<real>, n: nat, s: seq<real>)
    requires sum.Length == 4 == |s| && n <= |x| && n + 3 <= |y|
    reads sum
  {
    && sum[0] == Lane(x, y, 0, n, s[0]) && sum[1] == Lane(x, y, 1, n, s[1])
    && sum[2] == Lane(x, y, 2, n, s[2]) && sum[3] == Lane(x, y, 3, n, s[3])
  }

  /** Four lanes at once, each sample of y being read once into one of four registers. */
  method XcorrKernel(x: seq<real>, y: seq<real>, sum: array<real>, len: nat)
    requires sum.Length == 4 && 3 <= len <= |x| && len + 3 <= |y|
    modifies sum
    ensures Lanes(sum, x, y, len, old(sum[..]))
  {
    hide Mac;
    ghost var s := sum[..];
    var y0, y1, y2, y3 := y[0], y[1], y[2], 0.0;
    var j := 0;
    while j + 3 < len
      invariant 0 <= j <= len && j % 4 == 0
      invariant y0 == y[j] && y1 == y[j + 1] && y2 == y[j + 2]
      invariant Lanes(sum, x, y, j, s)
    {
      y3 := y[j + 3];
      Taps(sum, x[j], y0, y1, y2, y3);
      assert Lanes(sum, x, y, j + 1, s);
      y0 := y[j + 4];
      Taps(sum, x[j + 1], y1, y2, y3, y0);
      assert Lanes(sum, x, y, j + 2, s);
      y1 := y[j + 5];
      Taps(sum, x[j + 2], y2, y3, y0, y1);
      assert Lanes(sum, x, y, j + 3, s);
      y2 := y[j + 6];
      Taps(sum, x[j + 3], y3, y0, y1, y2);
      j := j + 4;
    }
    if j < len {
      y3 := y[j + 3];
      Taps(sum, x[j], y0, y1, y2, y3);
      j := j + 1;
      assert Lanes(sum, x, y, j, s);
      if j < len {
        y0 := y[j + 3];
        Taps(sum, x[j], y1, y2, y3, y0);
        j := j + 1;
        assert Lanes(sum, x, y, j, s);
        if j < len {
          y1 := y[j + 3];
          Taps(sum, x[j], y2, y3, y0, y1);
          assert Lanes(sum, x, y, len, s);
        }
      }
    }
  }

  method Taps(sum: array<real>, x: real, a: real, b: real, c: real, d: real)
    requires sum.Length == 4
    modifies sum
    ensures sum[0] == Mac(old(sum[0]), x, a) && sum[1] == Mac(old(sum[1]), x, b)
    ensures sum[2] == Mac(old(sum[2]), x, c) && sum[3] == Mac(old(sum[3]), x, d)
  {
    sum[0] := Mac(sum[0], x, a);
    sum[1] := Mac(sum[1], x, b);
    sum[2] := Mac(sum[2], x, c);
    sum[3] := Mac(sum[3], x, d);
  }

  // ---- unrolled by four --------------------------------------------------------------------

  ghost predicate Reversed(r: seq<real>, den: seq<real>) {
    |r| == |den| && forall j :: 0 <= j < |r| ==> r[j] == den[|den| - 1 - j]
  }

  /** h is the negated history of the samples before i, followed by zeros. */
  ghost predicate Negated(f: Filter, h: seq<real>, i: nat)
    requires Valid(f) && i <= |f.x|
  {
    && |h| == |f.x| - i + |f.den|
    && (forall p :: 0 <= p < |f.den| ==> h[p] == -Output(f, i + p - |f.den|))
    && (forall p :: |f.den| <= p < |h| ==> h[p] == 0.0)
  }

  /** Lane c of the kernel has every feedback term of sample i + c but those of this block. */
  lemma {:induction false} LaneIsFar(f: Filter, r: seq<real>, h: seq<real>, i: nat, c: nat, n: nat)
    requires Valid(f) && c < 4 <= |f.den| && i + c < |f.x|
    requires Reversed(r, f.den) && Negated(f, h, i) && n <= |f.den| && |h| >= |f.den| + 3
    ensures var d := |f.den| - n;
      Lane(r, h, c, n, f.x[i + c]) == Far(f, i + c, if d > c then d else c)
  {
    var ord := |f.den|;
    if n == 0 {
    } else {
      LaneIsFar(f, r, h, i, c, n - 1);
      var p := n - 1 + c;
      if p < ord {
        Negate(f.den[ord - n], Output(f, i + p - ord));
      }
    }
  }

  lemma Negate(a: real, b: real)
    ensures a * (-b) == -(a * b)
  {
  }

  lemma OutputIsFar(f: Filter, k: nat)
    requires Valid(f) && k < |f.x|
    ensures Output(f, k) == Far(f, k, 0)
  {
    NearAndFar(f, k, 0);
  }

  /** Adding back the n-th feedback term. */
  lemma Patch(f: Filter, k: nat, n: nat, y: real)
    requires Valid(f) && k < |f.x| && n < |f.den| && y == -Output(f, k - 1 - n)
    ensures Far(f, k, n) == Mac(Far(f, k, n + 1), y, f.den[n])
  {
    Negate(f.den[n], Output(f, k - 1 - n));
  }

  /** The sums of one block, given the four lanes of the kernel: the outputs of the block feed
      back into its later samples. */
  lemma Patched(f: Filter, i: nat, s: seq<real>)
    requires Valid(f) && i + 4 <= |f.x| && 4 <= |f.den| && |s| == 4
    requires forall c :: 0 <= c < 4 ==> s[c] == Far(f, i + c, c)
    ensures var y0 := -s[0];
      var s1 := Mac(s[1], y0, f.den[0]);
      var s2 := Mac(Mac(s[2], -s1, f.den[0]), y0, f.den[1]);
      var s3 := Mac(Mac(Mac(s[3], -s2, f.den[0]), -s1, f.den[1]), y0, f.den[2]);
      && s[0] == Output(f, i) && s1 == Output(f, i + 1) && s2 == Output(f, i + 2) && s3 == Output(f, i + 3)
  {
    hide Output, Far, Mac;
    var d := f.den;
    var y0 := -s[0];
    OutputIsFar(f, i);
    Patch(f, i + 1, 0, y0);
    OutputIsFar(f, i + 1);
    var y1 := -Output(f, i + 1);
    Patch(f, i + 2, 1, y0);
    Patch(f, i + 2, 0, y1);
    MacSwap(s[2], y1, d[0], y0, d[1]);
    OutputIsFar(f, i + 2);
    var y2 := -Output(f, i + 2);
    Patch(f, i + 3, 2, y0);
    Patch(f, i + 3, 1, y1);
    Patch(f, i + 3, 0, y2);
    MacSwap(Mac(s[3], y2, d[0]), y1, d[1], y0, d[2]);
    MacSwap(s[3], y2, d[0], y0, d[2]);
    MacSwap(Mac(s[3], y0, d[2]), y2, d[0], y1, d[1]);
    OutputIsFar(f, i + 3);
  }

  lemma MacSwap(c: real, a: real, b: real, a': real, b': real)
    ensures Mac(Mac(c, a, b), a', b') == Mac(Mac(c, a', b'), a, b)
  {
  }

  /** Patch up the sums of a block in place, and store its samples. */
  method PatchBlock(den: seq<real>, sum: array<real>, y: array<real>, out: array<real>, i: nat)
    requires sum.Length == 4 <= |den| && i + 4 <= out.Length && i + |den| + 4 <= y.Length
    requires y != out && sum != y && sum != out
    modifies sum, y, out
    ensures var s := old(sum[..]);
      var s1 := Mac(s[1], -s[0], den[0]);
      var s2 := Mac(Mac(s[2], -s1, den[0]), -s[0], den[1]);
      var s3 := Mac(Mac(Mac(s[3], -s2, den[0]), -s1, den[1]), -s[0], den[2]);
      && out[i] == s[0] && out[i + 1] == s1 && out[i + 2] == s2 && out[i + 3] == s3
    ensures forall c :: i <= c < i + 4 ==> y[c + |den|] == -out[c]
    ensures forall t :: 0 <= t < out.Length && !(i <= t < i + 4) ==> out[t] == old(out[t])
    ensures forall t :: 0 <= t < y.Length && !(i + |den| <= t < i + |den| + 4) ==> y[t] == old(y[t])
  {
    hide Mac;
    var ord := |den|;
    y[i + ord] := -sum[0];
    out[i] := sum[0];
    sum[1] := Mac(sum[1], y[i + ord], den[0]);
    y[i + ord + 1] := -sum[1];
    out[i + 1] := sum[1];
    sum[2] := Mac(sum[2], y[i + ord + 1], den[0]);
    sum[2] := Mac(sum[2], y[i + ord], den[1]);
    y[i + ord + 2] := -sum[2];
    out[i + 2] := sum[2];
    sum[3] := Mac(sum[3], y[i + ord + 2], den[0]);
    sum[3] := Mac(sum[3], y[i + ord + 1], den[1]);
    sum[3] := Mac(sum[3], y[i + ord], den[2]);
    y[i + ord + 3] := -sum[3];
    out[i + 3] := sum[3];
  }

  /** x still holds the input from i on; before i it may hold output. */
  ghost predicate InputFrom(f: Filter, x: array<real>, i: nat)
    reads x
  {
    x.Length == |f.x| && forall t :: i <= t < |f.x| ==> x[t] == f.x[t]
  }

  /** The kernel's four sums for the block at i. */
  method BlockSums(ghost f: Filter, x: array<real>, r: seq<real>, h: seq<real>, i: nat) returns (sum: array<real>)
    requires Valid(f) && InputFrom(f, x, i) && 4 <= |r| && Reversed(r, f.den) && i + 4 <= x.Length && Negated(f, h, i)
    ensures fresh(sum) && sum.Length == 4
    ensures sum[0] == Far(f, i, 0) && sum[1] == Far(f, i + 1, 1)
    ensures sum[2] == Far(f, i + 2, 2) && sum[3] == Far(f, i + 3, 3)
  {
    hide Output, Far, Lane, Mac;
    var ord := |r|;
    sum := new real[4];
    sum[0], sum[1], sum[2], sum[3] := x[i], x[i + 1], x[i + 2], x[i + 3];
    XcorrKernel(r, h, sum, ord);
    LaneIsFar(f, r, h, i, 0, ord);
    LaneIsFar(f, r, h, i, 1, ord);
    LaneIsFar(f, r, h, i, 2, ord);
    LaneIsFar(f, r, h, i, 3, ord);
  }

  /** One round of the main loop. */
  method Block(ghost f: Filter, x: array<real>, den: seq<real>, r: seq<real>, y: array<real>, out: array<real>, i: nat)
    requires Valid(f) && InputFrom(f, x, i) && den == f.den && 4 <= |den| == |r| && Reversed(r, den)
    requires i + 4 <= |f.x| == out.Length && y.Length == |f.x| + |den| && y != out && y != x
    requires Negated(f, y[i..], i)
    modifies y, out
    ensures Negated(f, y[i + 4..], i + 4) && InputFrom(f, x, i + 4)
    ensures forall t :: 0 <= t < out.Length && !(i <= t < i + 4) ==> out[t] == old(out[t])
    ensures forall t :: i <= t < i + 4 ==> out[t] == Output(f, t)
  {
    hide Output, Far, Mac, Negated, Reversed;
    var ord := |den|;
    ghost var h := y[i..];
    var sum := BlockSums(f, x, r, y[i..], i);
    Patched(f, i, sum[..]);
    PatchBlock(den, sum, y, out, i);
    ghost var h' := y[i..];
    assert forall p :: ord <= p < ord + 4 ==> h'[p] == y[(i + p - ord) + ord];
    MoveOn(f, h, h', i);
    assert h'[4..] == y[i + 4..];
  }

  lemma MoveOn(f: Filter, h: seq<real>, h': seq<real>, i: nat)
    requires Valid(f) && i + 4 <= |f.x| && 4 <= |f.den| && Negated(f, h, i) && |h'| == |h| == |f.x| - i + |f.den|
    requires forall p :: 0 <= p < |h| && !(|f.den| <= p < |f.den| + 4) ==> h'[p] == h[p]
    requires forall p :: |f.den| <= p < |f.den| + 4 ==> h'[p] == -Output(f, i + p - |f.den|)
    ensures Negated(f, h'[4..], i + 4)
  {
    hide Output;
    var ord := |f.den|;
    forall p | 0 <= p < ord
      ensures h'[4..][p] == -Output(f, i + 4 + p - ord)
    {
      assert h'[4..][p] == h'[p + 4];
    }
  }

  // ---- the samples behind the last block -----------------------------------------------------

  /** What celt_iir outputs at time t if its whole blocks end at n: from n on the outputs are stored
      as they are, but those before n negated, and all are subtracted. */
  ghost function Unrolled(f: Filter, n: nat, t: int): real
    requires Valid(f) && n <= |f.x| && -|f.mem| <= t < |f.x|
    decreases t + |f.mem|, |f.den| + 1
  {
    if t < n then Output(f, t) else TailFar(f, n, t, 0)
  }

  ghost function Stored(f: Filter, n: nat, t: int): real
    requires Valid(f) && n <= |f.x| && -|f.mem| <= t < |f.x|
    decreases t + |f.mem|, |f.den| + 2
  {
    if t < n then -Output(f, t) else Unrolled(f, n, t)
  }

  /** x[t] less the stored samples at lags m + 1 and up, farthest first. */
  ghost function TailFar(f: Filter, n: nat, t: nat, m: nat): real
    requires Valid(f) && n <= t < |f.x| && m <= |f.den|
    decreases t + |f.mem|, |f.den| - m
  {
    if m == |f.den| then f.x[t] else TailFar(f, n, t, m + 1) - f.den[m] * Stored(f, n, t - 1 - m)
  }

  /** The feedback that samples before n contribute to time t, at lags m + 1 and up. */
  ghost function OldFeedback(f: Filter, n: nat, t: nat, m: nat): real
    requires Valid(f) && n <= t < |f.x| && m <= |f.den|
    decreases |f.den| - m
  {
    if m == |f.den| then 0.0
    else OldFeedback(f, n, t, m + 1) + if t - 1 - m < n then f.den[m] * Output(f, t - 1 - m) else 0.0
  }

  /** As long as the tail is right so far, the next sample is off by twice the old feedback. */
  lemma {:induction false} TailIsOff(f: Filter, n: nat, t: nat, m: nat)
    requires Valid(f) && n <= t < |f.x| && m <= |f.den|
    requires forall s :: n <= s < t ==> Unrolled(f, n, s) == Output(f, s)
    ensures TailFar(f, n, t, m) == Far(f, t, m) + 2.0 * OldFeedback(f, n, t, m)
    decreases |f.den| - m
  {
    hide Output, Unrolled;
    if m < |f.den| {
      TailIsOff(f, n, t, m + 1);
      var s := t - 1 - m;
      if s < n { Negate(f.den[m], Output(f, s)); }
    }
  }

  lemma SampleIsOff(f: Filter, n: nat, t: nat)
    requires Valid(f) && n <= t < |f.x|
    requires forall s :: n <= s < t ==> Unrolled(f, n, s) == Output(f, s)
    ensures Unrolled(f, n, t) == Output(f, t) + 2.0 * OldFeedback(f, n, t, 0)
  {
    hide Output, OldFeedback, Far;
    TailIsOff(f, n, t, 0);
    OutputIsFar(f, t);
  }

  /** Samples n to end - 1 come out right. */
  ghost predicate TailAgrees(f: Filter, n: nat, end: nat)
    requires Valid(f) && n <= end <= |f.x|
  {
    forall t :: n <= t < end ==> Unrolled(f, n, t) == Output(f, t)
  }

  /** The samples before n feed nothing back into times n to end - 1. */
  ghost predicate NothingOld(f: Filter, n: nat, end: nat)
    requires Valid(f) && n <= end <= |f.x|
  {
    forall t :: n <= t < end ==> OldFeedback(f, n, t, 0) == 0.0
  }

  /** The tail agrees with the simple form on an input if and only if the samples before it feed
      nothing back into any time of it. */
  lemma {:induction false} TailRight(f: Filter, n: nat, end: nat)
    requires Valid(f) && n <= end <= |f.x|
    ensures TailAgrees(f, n, end) <==> NothingOld(f, n, end)
    decreases end
  {
    hide Output, Unrolled, OldFeedback;
    if end > n {
      var t := end - 1;
      TailRight(f, n, t);
      assert TailAgrees(f, n, end) <==> TailAgrees(f, n, t) && Unrolled(f, n, t) == Output(f, t);
      assert NothingOld(f, n, end) <==> NothingOld(f, n, t) && OldFeedback(f, n, t, 0) == 0.0;
      if TailAgrees(f, n, t) { SampleIsOff(f, n, t); }
    }
  }

  /** Do the two forms agree on f, outputs and (being the last outputs) memory? */
  ghost predicate FormsAgree(f: Filter) {
    Valid(f) && forall t :: 0 <= t < |f.x| ==> Unrolled(f, |f.x| - |f.x| % 4, t) == Output(f, t)
  }

  /** On one input: exactly when nothing is fed back from the whole blocks into the tail. */
  lemma AgreeExactly(f: Filter)
    requires Valid(f)
    ensures FormsAgree(f) <==> NothingOld(f, |f.x| - |f.x| % 4, |f.x|)
  {
    hide Output, Unrolled, OldFeedback;
    var n := |f.x| - |f.x| % 4;
    TailRight(f, n, |f.x|);
    WholeBlocks(f, n);
    assert FormsAgree(f) <==> TailAgrees(f, n, |f.x|);
  }

  /** The two forms agree on all inputs of a length if and only if it is a multiple of four. */
  lemma WholeBlocksNeeded(ord: nat, len: nat)
    requires ord >= 4 && ord % 4 == 0 && len >= ord
    ensures (forall f: Filter :: Valid(f) && |f.den| == ord && |f.x| == len ==> FormsAgree(f)) <==> len % 4 == 0
  {
    hide Output;
    if len % 4 != 0 {
      var f := RemainderWrong(ord, len);
      assert !FormsAgree(f);
    } else {
      forall f: Filter | Valid(f) && |f.x| == len
        ensures FormsAgree(f)
      {
        WholeBlocks(f, len);
      }
    }
  }

  /** For every other length there is an input on which the first sample behind the last block comes
      out wrong (an impulse just before it, and one feedback tap of 1). */
  lemma RemainderWrong(ord: nat, len: nat) returns (f: Filter)
    requires ord >= 4 && ord % 4 == 0 && len >= ord && len % 4 != 0
    ensures Valid(f) && |f.den| == ord && |f.x| == len
    ensures var n := len - len % 4; Unrolled(f, n, n) != Output(f, n)
  {
    hide Unrolled, OldFeedback;
    var n := len - len % 4;
    f := Filter(seq(len, t => if t == n - 1 then 1.0 else 0.0), seq(ord, j => if j == 0 then 1.0 else 0.0),
                seq(ord, j => 0.0));
    Silence(f, n - 2);
    OneTap(f, n - 1, ord);
    OneTap(f, n, ord);
    SampleIsOff(f, n, n);
    AllOld(f, n, 0);
    OutputIsFar(f, n);
  }

  /** At the first time of the tail all feedback is old. */
  lemma {:induction false} AllOld(f: Filter, n: nat, m: nat)
    requires Valid(f) && n < |f.x| && m <= |f.den|
    ensures Far(f, n, m) == f.x[n] - OldFeedback(f, n, n, m)
    decreases |f.den| - m
  {
    hide Output;
    if m < |f.den| { AllOld(f, n, m + 1); }
  }

  /** With the only tap at 1, a sample is the input less the previous output. */
  lemma {:induction false} OneTap(f: Filter, k: nat, n: nat)
    requires Valid(f) && 1 <= n <= |f.den| && f.den[0] == 1.0 && k < |f.x|
    requires forall j :: 1 <= j < |f.den| ==> f.den[j] == 0.0
    ensures Near(f, k, n) == f.x[k] - Output(f, k - 1)
  {
    hide Output;
    if n > 1 {
      OneTap(f, k, n - 1);
      assert Near(f, k, n) == Near(f, k, n - 1) - f.den[n - 1] * Output(f, k - n);
    } else {
      assert Near(f, k, 1) == Near(f, k, 0) - f.den[0] * Output(f, k - 1);
    }
  }

  lemma {:induction false} Silence(f: Filter, k: int)
    requires Valid(f) && 1 <= |f.den| && f.den[0] == 1.0 && -1 <= k < |f.x|
    requires forall j :: 1 <= j < |f.den| ==> f.den[j] == 0.0
    requires f.mem[0] == 0.0 && forall t :: 0 <= t <= k ==> f.x[t] == 0.0
    ensures Output(f, k) == 0.0
    decreases k + 1
  {
    if k >= 0 {
      Silence(f, k - 1);
      OneTap(f, k, |f.den|);
    }
  }

  // ---- celt_iir ---------------------------------------------------------------------------------

  /** y holds the negated memory, then zeros. */
  method Prepare(ghost f: Filter, mem: array<real>, len: nat) returns (y: array<real>)
    requires Valid(f) && mem[..] == f.mem && len == |f.x|
    ensures fresh(y) && y.Length == len + mem.Length && Negated(f, y[0..], 0)
  {
    hide Output;
    BeforeStart(f);
    var ord := mem.Length;
    y := new real[len + ord];
    forall p | 0 <= p < ord { y[p] := -mem[ord - p - 1]; }
    forall p | ord <= p < len + ord { y[p] := 0.0; }
    forall p | 0 <= p < ord
      ensures y[0..][p] == -Output(f, 0 + p - ord)
    {
      assert Output(f, -1 - (ord - p - 1)) == mem[ord - p - 1];
    }
  }

  /** celt_iir, also in place (x == out). Whole blocks agree with the simple form; behind them the
      feedback of earlier samples has the wrong sign. */
  method CeltIir(x: array<real>, den: seq<real>, out: array<real>, mem: array<real>)
    requires |den| == mem.Length && |den| % 4 == 0 && |den| >= 4
    requires out.Length == x.Length >= |den| && out != mem && x != mem
    modifies out, mem
    ensures var f, n := Filter(old(x[..]), den, old(mem[..])), x.Length - x.Length % 4;
      && (forall t :: 0 <= t < x.Length ==> out[t] == Unrolled(f, n, t))
      && (forall t :: 0 <= t < n ==> out[t] == Output(f, t))
      && forall j :: 0 <= j < |den| ==> mem[j] == Unrolled(f, n, x.Length - 1 - j)
  {
    hide Output, Unrolled, Negated;
    ghost var f := Filter(x[..], den, mem[..]);
    var ord, len := |den|, x.Length;
    var r := seq(ord, j requires 0 <= j < ord => den[ord - 1 - j]);
    var y := Prepare(f, mem, len);
    var i := 0;
    while i + 3 < len
      invariant 0 <= i <= len && i % 4 == 0
      invariant Negated(f, y[i..], i) && InputFrom(f, x, i)
      invariant forall t :: 0 <= t < i ==> out[t] == Output(f, t)
    {
      Block(f, x, den, r, y, out, i);
      i := i + 4;
    }
    WholeBlocks(f, i);
    Remainder(f, x, r, y, out, i);
    forall j | 0 <= j < ord { mem[j] := out[len - j - 1]; }
  }

  lemma WholeBlocks(f: Filter, n: nat)
    requires Valid(f) && n <= |f.x|
    ensures forall t :: 0 <= t < n ==> Unrolled(f, n, t) == Output(f, t)
  {
  }

  /** The stored samples from time i - ord on. */
  ghost predicate History(f: Filter, y: seq<real>, i: nat, n: nat)
    requires Valid(f) && n <= i <= |f.x|
  {
    |y| == |f.x| + |f.den| && forall p :: n <= p < i + |f.den| ==> y[p] == Stored(f, n, p - |f.den|)
  }

  lemma NegatedIsHistory(f: Filter, y: seq<real>, n: nat)
    requires Valid(f) && n <= |f.x| && |y| == |f.x| + |f.den| && Negated(f, y[n..], n)
    ensures History(f, y, n, n)
  {
    hide Output;
    forall p | n <= p < n + |f.den|
      ensures y[p] == Stored(f, n, p - |f.den|)
    {
      assert y[n..][p - n] == y[p];
    }
  }

  /** The loop over the samples that do not fill a block. */
  method Remainder(ghost f: Filter, x: array<real>, r: seq<real>, y: array<real>, out: array<real>, n: nat)
    requires Valid(f) && InputFrom(f, x, n) && Reversed(r, f.den) && n <= x.Length
    requires out.Length == x.Length && y.Length == x.Length + |r| && y != out && y != x && Negated(f, y[n..], n)
    modifies y, out
    ensures forall t :: 0 <= t < n ==> out[t] == old(out[t])
    ensures forall t :: n <= t < x.Length ==> out[t] == Unrolled(f, n, t)
  {
    hide Output, Unrolled, Stored, Negated;
    var ord, i := |r|, n;
    ghost var was := out[..];
    assert y[..][n..] == y[n..];
    NegatedIsHistory(f, y[..], n);
    while i < x.Length
      invariant n <= i <= x.Length && History(f, y[..], i, n) && InputFrom(f, x, i)
      invariant forall t :: 0 <= t < n ==> out[t] == was[t]
      invariant forall t :: n <= t < i ==> out[t] == Unrolled(f, n, t)
    {
      var sum := RemainderSum(f, x[i], r, y, i, n);
      NewStored(f, n, i);
      y[i + ord] := sum;
      out[i] := sum;
      i := i + 1;
    }
  }

  lemma NewStored(f: Filter, n: nat, t: nat)
    requires Valid(f) && n <= t < |f.x|
    ensures Stored(f, n, t) == Unrolled(f, n, t) == TailFar(f, n, t, 0)
  {
  }

  method RemainderSum(ghost f: Filter, xi: real, r: seq<real>, y: array<real>, i: nat, ghost n: nat) returns (sum: real)
    requires Valid(f) && n <= i < |f.x| && xi == f.x[i] && Reversed(r, f.den) && History(f, y[..], i, n)
    ensures sum == TailFar(f, n, i, 0)
  {
    hide Output, Stored;
    var ord, j := |r|, 0;
    sum := xi;
    while j < ord
      invariant 0 <= j <= ord && sum == TailFar(f, n, i, ord - j)
    {
      assert y[i + j] == y[..][i + j] == Stored(f, n, i - 1 - (ord - j - 1));
      sum := sum - r[j] * y[i + j];
      j := j + 1;
    }
  }
}
