/** The two-state Viterbi search at the end of tf_analysis (celt_encoder.c): one time-frequency
    resolution flag per band, at least total cost. */
module TfAnalysis {
  import opened Arith
  import opened Integers

  type flag = x: int | 0 <= x < 2

  /** tf_select_table (celt.c), indexed by LM and by 4 * isTransient + 2 * tf_select + flag. */
  const TF_SELECT_TABLE: seq<seq<int>> := [
    [0, -1, 0, -1, 0, -1, 0, -1],
    [0, -1, 0, -2, 1, 0, 1, -1],
    [0, -2, 0, -3, 2, 0, 1, -1],
    [0, -2, 0, -3, 3, 0, 1, -1]]

  function TfChange(lm: nat, isTransient: bool, sel: flag, b: flag): int
    requires lm < 4
  {
    TF_SELECT_TABLE[lm][(if isTransient then 4 else 0) + 2 * sel + b]
  }

  /** The table entry by entry (Tables 60 to 63 of RFC 6716): flag 1 always asks for better time resolution
      than flag 0, which leaves a long frame alone and, unless tf_select is set, joins the short blocks of
      a transient into one. */
  lemma TfTable(lm: nat, sel: flag)
    requires lm < 4
    ensures forall t: bool :: TfChange(lm, t, sel, 1) < TfChange(lm, t, sel, 0) <= if t then lm else 0
    ensures TfChange(lm, false, sel, 0) == 0
    ensures TfChange(lm, true, sel, 0) == if sel == 0 then lm else Min(lm, 1)
    ensures TfChange(lm, false, sel, 1) == if sel == 0 then -(lm / 2 + 1) else -Min(lm + 1, 3)
    ensures TfChange(lm, true, sel, 1) == if sel == 0 && lm > 0 then 0 else -1
  {
  }

  datatype Search = Search(metric: seq<int>, importance: seq<int>, lambda: int, isTransient: bool, lm: nat)

  ghost predicate Valid(s: Search) {
    |s.metric| == |s.importance| >= 1 && s.lm < 4
  }

  /** The cost of giving band i the flag b. */
  function Local(s: Search, sel: flag, i: nat, b: flag): int
    requires Valid(s) && i < |s.metric|
  {
    s.importance[i] * Abs(s.metric[i] - 2 * TfChange(s.lm, s.isTransient, sel, b))
  }

  /** Without a transient, starting at 1 counts as a change. */
  function Start(s: Search, b: flag): int {
    if b == 1 && !s.isTransient then s.lambda else 0
  }

  function Change(s: Search, a: flag, b: flag): int {
    if a != b then s.lambda else 0
  }

  /** The cost of flags p for the first |p| bands. */
  ghost function PathCost(s: Search, sel: flag, p: seq<flag>): int
    requires Valid(s) && 1 <= |p| <= |s.metric|
  {
    var n := |p| - 1;
    Local(s, sel, n, p[n]) + if n == 0 then Start(s, p[0]) else PathCost(s, sel, p[..n]) + Change(s, p[n - 1], p[n])
  }

  ghost predicate Optimal(s: Search, sel: flag, p: seq<flag>)
    requires Valid(s)
  {
    |p| == |s.metric| && forall q: seq<flag> :: |q| == |s.metric| ==> PathCost(s, sel, p) <= PathCost(s, sel, q)
  }

  // ---- the recurrence ------------------------------------------------------------

  /** cost0 (b = 0) and cost1 (b = 1) after band i. */
  ghost function Best(s: Search, sel: flag, i: nat, b: flag): int
    requires Valid(s) && i < |s.metric|
  {
    Local(s, sel, i, b) +
    if i == 0 then Start(s, b)
    else Min(Best(s, sel, i - 1, 0) + Change(s, 0, b), Best(s, sel, i - 1, 1) + Change(s, 1, b))
  }

  /** The decision stored in path0[i] or path1[i]; ties go to 1. */
  ghost function From(s: Search, sel: flag, i: nat, b: flag): flag
    requires Valid(s) && 0 < i < |s.metric|
  {
    if Best(s, sel, i - 1, 0) + Change(s, 0, b) < Best(s, sel, i - 1, 1) + Change(s, 1, b) then 0 else 1
  }

  /** Following the decisions back from flag b at band i. */
  ghost function Trace(s: Search, sel: flag, i: nat, b: flag): (p: seq<flag>)
    requires Valid(s) && i < |s.metric|
    ensures |p| == i + 1 && p[i] == b
  {
    if i == 0 then [b] else Trace(s, sel, i - 1, From(s, sel, i, b)) + [b]
  }

  lemma {:induction false} BestIsLowerBound(s: Search, sel: flag, p: seq<flag>)
    requires Valid(s) && 1 <= |p| <= |s.metric|
    ensures Best(s, sel, |p| - 1, p[|p| - 1]) <= PathCost(s, sel, p)
  {
    if |p| > 1 {
      BestIsLowerBound(s, sel, p[..|p| - 1]);
    }
  }

  lemma {:induction false} TraceCost(s: Search, sel: flag, i: nat, b: flag)
    requires Valid(s) && i < |s.metric|
    ensures PathCost(s, sel, Trace(s, sel, i, b)) == Best(s, sel, i, b)
  {
    hide Local, TfChange;
    if i > 0 {
      var a := From(s, sel, i, b);
      TraceCost(s, sel, i - 1, a);
      assert Trace(s, sel, i, b)[..i] == Trace(s, sel, i - 1, a);
    }
  }

  /** The flag with the smaller final cost; ties go to 1. */
  ghost function Last(s: Search, sel: flag): flag
    requires Valid(s)
  {
    var n := |s.metric| - 1;
    if Best(s, sel, n, 0) < Best(s, sel, n, 1) then 0 else 1
  }

  /** The least cost over all paths, as selcost[sel] records it. */
  ghost function LeastCost(s: Search, sel: flag): int
    requires Valid(s)
  {
    Min(Best(s, sel, |s.metric| - 1, 0), Best(s, sel, |s.metric| - 1, 1))
  }

  lemma TraceIsOptimal(s: Search, sel: flag)
    requires Valid(s)
    ensures var p := Trace(s, sel, |s.metric| - 1, Last(s, sel));
      Optimal(s, sel, p) && PathCost(s, sel, p) == LeastCost(s, sel)
  {
    var n := |s.metric| - 1;
    TraceCost(s, sel, n, Last(s, sel));
    forall q: seq<flag> | |q| == n + 1
      ensures LeastCost(s, sel) <= PathCost(s, sel, q)
    {
      BestIsLowerBound(s, sel, q);
    }
  }

  /** Of two paths, p has the 1 where they differ last. */
  ghost predicate Later(p: seq<flag>, q: seq<flag>)
    requires |p| == |q|
  {
    exists i :: 0 <= i < |p| && p[i] == 1 && q[i] == 0 && p[i + 1..] == q[i + 1..]
  }

  lemma LaterLonger(p: seq<flag>, q: seq<flag>, b: flag)
    requires |p| == |q| && Later(p, q)
    ensures Later(p + [b], q + [b])
  {
    var i :| 0 <= i < |p| && p[i] == 1 && q[i] == 0 && p[i + 1..] == q[i + 1..];
    assert (p + [b])[i + 1..] == p[i + 1..] + [b] && (q + [b])[i + 1..] == q[i + 1..] + [b];
    Differs(p + [b], q + [b], i);
  }

  /** Among the cheapest paths to a flag, the decisions lead to the last one. */
  lemma {:induction false} TraceIsLast(s: Search, sel: flag, q: seq<flag>)
    requires Valid(s) && 1 <= |q| <= |s.metric| && PathCost(s, sel, q) == Best(s, sel, |q| - 1, q[|q| - 1])
    ensures var p := Trace(s, sel, |q| - 1, q[|q| - 1]); q != p ==> Later(p, q)
    decreases |q|
  {
    hide Local, TfChange, Later;
    var n := |q| - 1;
    var b := q[n];
    assert q == q[..n] + [b];
    if n == 0 {
      assert q == [b];
    } else {
      var a := From(s, sel, n, b);
      var front := Trace(s, sel, n - 1, a);
      BestIsLowerBound(s, sel, q[..n]);
      if q[n - 1] == a {
        TraceIsLast(s, sel, q[..n]);
        if q[..n] != front { LaterLonger(front, q[..n], b); }
      } else {
        Differs(front + [b], q, n - 1);
      }
    }
  }

  lemma Differs(p: seq<flag>, q: seq<flag>, i: nat)
    requires |p| == |q| && i < |p| && p[i] == 1 && q[i] == 0 && p[i + 1..] == q[i + 1..]
    ensures Later(p, q)
  {
  }

  /** Of all the cheapest paths the traced one is the last, so it is the only one with that property. */
  lemma TiesGoToOne(s: Search, sel: flag, q: seq<flag>)
    requires Valid(s) && Optimal(s, sel, q)
    ensures var p := Trace(s, sel, |s.metric| - 1, Last(s, sel)); q != p ==> Later(p, q)
  {
    hide Later, PathCost, Trace, Best;
    var n := |s.metric| - 1;
    TraceIsOptimal(s, sel);
    BestIsLowerBound(s, sel, q);
    var p := Trace(s, sel, n, Last(s, sel));
    assert PathCost(s, sel, q) <= LeastCost(s, sel);
    if q[n] == Last(s, sel) {
      TraceIsLast(s, sel, q);
    } else {
      assert p[n + 1..] == [] == q[n + 1..];
      Differs(p, q, n);
    }
  }

  /** A path whose flags stand for exactly the resolutions measured costs its changes alone. */
  lemma {:induction false} ExactMetrics(s: Search, sel: flag, p: seq<flag>)
    requires Valid(s) && 1 <= |p| <= |s.metric|
    requires forall i :: 0 <= i < |p| ==> s.metric[i] == 2 * TfChange(s.lm, s.isTransient, sel, p[i])
    ensures PathCost(s, sel, p) == Changes(if s.isTransient then p[0] else 0, p) * s.lambda
  {
    hide TfChange, Local, Changes;
    var n := |p| - 1;
    var a: flag := if s.isTransient then p[0] else 0;
    NothingOff(s, sel, n, p[n]);
    if n == 0 {
      OneChange(a, p);
    } else {
      ExactMetrics(s, sel, p[..n]);
      assert p[..n][0] == p[0] && p == p[..n] + [p[n]];
      ChangesSnoc(a, p[..n], p[n]);
      MulDist(s.lambda, Changes(a, p[..n]), 1);
    }
  }

  lemma NothingOff(s: Search, sel: flag, i: nat, b: flag)
    requires Valid(s) && i < |s.metric| && s.metric[i] == 2 * TfChange(s.lm, s.isTransient, sel, b)
    ensures Local(s, sel, i, b) == 0
  {
  }

  lemma OneChange(a: flag, p: seq<flag>)
    requires |p| == 1
    ensures Changes(a, p) == if p[0] != a then 1 else 0
  {
    assert Changes(p[0], p[1..]) == 0;
  }

  /** How often p changes, starting from flag a. */
  function Changes(a: flag, p: seq<flag>): nat
    decreases |p|
  {
    if p == [] then 0 else (if p[0] != a then 1 else 0) + Changes(p[0], p[1..])
  }

  lemma {:induction false} ChangesSnoc(a: flag, p: seq<flag>, b: flag)
    requires p != []
    ensures Changes(a, p + [b]) == Changes(a, p) + if p[|p| - 1] != b then 1 else 0
    decreases |p|
  {
    assert (p + [b])[1..] == p[1..] + [b];
    if |p| == 1 {
      assert p[1..] + [b] == [b] && [b][1..] == [];
      assert Changes(p[0], [b]) == (if b != p[0] then 1 else 0) + Changes(b, []);
    } else {
      ChangesSnoc(p[0], p[1..], b);
    }
  }

  // ---- the search ------------------------------------------------------------------

  /** The first pass: the least cost for one value of tf_select. */
  method SelCost(s: Search, sel: flag) returns (cost: int)
    requires Valid(s)
    ensures cost == LeastCost(s, sel)
  {
    hide Local;
    var cost0 := Local(s, sel, 0, 0);
    var cost1 := Local(s, sel, 0, 1) + if s.isTransient then 0 else s.lambda;
    var i := 1;
    while i < |s.metric|
      invariant 1 <= i <= |s.metric|
      invariant cost0 == Best(s, sel, i - 1, 0) && cost1 == Best(s, sel, i - 1, 1)
    {
      var curr0 := Min(cost0, cost1 + s.lambda);
      var curr1 := Min(cost0 + s.lambda, cost1);
      cost0 := curr0 + Local(s, sel, i, 0);
      cost1 := curr1 + Local(s, sel, i, 1);
      i := i + 1;
    }
    cost := Min(cost0, cost1);
  }

  /** The forward pass: final costs, and one decision per band and flag. */
  method Forward(s: Search, sel: flag, path0: array<flag>, path1: array<flag>) returns (cost0: int, cost1: int)
    requires Valid(s) && path0.Length == path1.Length == |s.metric| && path0 != path1
    modifies path0, path1
    ensures cost0 == Best(s, sel, |s.metric| - 1, 0) && cost1 == Best(s, sel, |s.metric| - 1, 1)
    ensures forall k :: 0 < k < |s.metric| ==> path0[k] == From(s, sel, k, 0) && path1[k] == From(s, sel, k, 1)
  {
    hide Local;
    cost0 := Local(s, sel, 0, 0);
    cost1 := Local(s, sel, 0, 1) + if s.isTransient then 0 else s.lambda;
    var i := 1;
    while i < |s.metric|
      invariant 1 <= i <= |s.metric|
      invariant cost0 == Best(s, sel, i - 1, 0) && cost1 == Best(s, sel, i - 1, 1)
      invariant forall k :: 0 < k < i ==> path0[k] == From(s, sel, k, 0) && path1[k] == From(s, sel, k, 1)
    {
      var curr0, curr1;
      var from0, from1 := cost0, cost1 + s.lambda;
      if from0 < from1 { curr0, path0[i] := from0, 0; } else { curr0, path0[i] := from1, 1; }
      from0, from1 := cost0 + s.lambda, cost1;
      if from0 < from1 { curr1, path1[i] := from0, 0; } else { curr1, path1[i] := from1, 1; }
      cost0 := curr0 + Local(s, sel, i, 0);
      cost1 := curr1 + Local(s, sel, i, 1);
      i := i + 1;
    }
  }

  /** The backward pass: follow the decisions from the last flag. */
  method Backward(ghost s: Search, ghost sel: flag, tfRes: array<flag>, path0: array<flag>, path1: array<flag>)
    requires Valid(s) && tfRes.Length == path0.Length == path1.Length == |s.metric|
    requires tfRes != path0 && tfRes != path1
    requires forall k :: 0 < k < |s.metric| ==> path0[k] == From(s, sel, k, 0) && path1[k] == From(s, sel, k, 1)
    modifies tfRes
    ensures tfRes[..] == Trace(s, sel, |s.metric| - 1, old(tfRes[tfRes.Length - 1]))
  {
    hide From, Trace;
    var len := tfRes.Length;
    ghost var all := Trace(s, sel, len - 1, tfRes[len - 1]);
    assert tfRes[len..] == [];
    var i := len - 2;
    while i >= 0
      invariant -1 <= i < len - 1
      invariant all == Trace(s, sel, i + 1, tfRes[i + 1]) + tfRes[i + 2..]
    {
      ghost var rest := tfRes[i + 1..];
      TraceStep(s, sel, i, tfRes[i + 1], tfRes[i + 2..]);
      tfRes[i] := if tfRes[i + 1] == 1 then path1[i + 1] else path0[i + 1];
      assert tfRes[i + 1..] == rest;
      i := i - 1;
    }
    TraceStart(s, sel, tfRes[0]);
    assert tfRes[..] == [tfRes[0]] + tfRes[1..];
  }

  lemma TraceStep(s: Search, sel: flag, i: nat, b: flag, rest: seq<flag>)
    requires Valid(s) && i + 1 < |s.metric|
    ensures Trace(s, sel, i + 1, b) + rest == Trace(s, sel, i, From(s, sel, i + 1, b)) + ([b] + rest)
  {
    var front := Trace(s, sel, i, From(s, sel, i + 1, b));
    assert front + [b] + rest == front + ([b] + rest);
  }

  lemma TraceStart(s: Search, sel: flag, b: flag)
    requires Valid(s)
    ensures Trace(s, sel, 0, b) == [b]
  {
  }

  /** tf_analysis from the metrics on: the flags cost least for the returned tf_select, and
      tf_select is 1 exactly for transients it makes strictly cheaper. */
  method TfAnalysis(s: Search, tfRes: array<flag>) returns (tfSelect: flag)
    requires Valid(s) && tfRes.Length == |s.metric|
    modifies tfRes
    ensures tfSelect == 1 <==> s.isTransient && LeastCost(s, 1) < LeastCost(s, 0)
    ensures Optimal(s, tfSelect, tfRes[..]) && PathCost(s, tfSelect, tfRes[..]) == LeastCost(s, tfSelect)
    ensures forall q :: Optimal(s, tfSelect, q) && q != tfRes[..] ==> Later(tfRes[..], q)
  {
    hide Best, PathCost, LeastCost, Local, Trace, From, Later;
    var len := |s.metric|;
    var selcost0 := SelCost(s, 0);
    var selcost1 := SelCost(s, 1);
    tfSelect := if selcost1 < selcost0 && s.isTransient then 1 else 0;
    var path0, path1 := new flag[len], new flag[len];
    var cost0, cost1 := Forward(s, tfSelect, path0, path1);
    tfRes[len - 1] := if cost0 < cost1 then 0 else 1;
    Backward(s, tfSelect, tfRes, path0, path1);
    TraceIsOptimal(s, tfSelect);
    forall q | Optimal(s, tfSelect, q) && q != tfRes[..]
      ensures |q| == |tfRes[..]| && Later(tfRes[..], q)
    {
      TiesGoToOne(s, tfSelect, q);
    }
  }
}
