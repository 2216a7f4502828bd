/** The pyramid vector quantiser codebook of cwrs.c (section 4.3.4.2 of RFC 6716): integer vectors
    of a given dimension and L1 norm, numbered from 0. */
module Pvq {
  import opened Integers

  // ---- counting ----------------------------------------------------------------

  /** U(n, k) as defined above CELT_PVQ_U. */
  function U(n: nat, k: nat): nat
    decreases n + k
  {
    if n > 0 then
      if k > 0 then U(n - 1, k) + U(n, k - 1) + U(n - 1, k - 1) else 0
    else if k > 0 then 0 else 1
  }

  /** The number of vectors of dimension n and norm k. */
  function V(n: nat, k: nat): nat {
    U(n, k) + U(n, k + 1)
  }

  lemma {:induction false} Symmetric(n: nat, k: nat)
    ensures U(n, k) == U(k, n)
    decreases n + k
  {
    if n > 0 && k > 0 {
      Symmetric(n - 1, k);
      Symmetric(n, k - 1);
      Symmetric(n - 1, k - 1);
    }
  }

  /** The vectors whose other n - 1 coordinates have norm k fill [U(n, k), U(n, k + 1)). */
  lemma Slice(n: nat, k: nat)
    requires n > 0
    ensures U(n, k + 1) == U(n, k) + V(n - 1, k)
  {
  }

  lemma {:induction false} Monotone(n: nat, j: nat, k: nat)
    requires n > 0 && j <= k
    ensures U(n, j) <= U(n, k)
    decreases k
  {
    if j < k {
      Slice(n, k - 1);
      Monotone(n, j, k - 1);
    }
  }

  lemma {:induction false} FirstRows(k: nat)
    ensures U(1, k) == (if k > 0 then 1 else 0)
    ensures U(2, k) == (if k > 0 then 2 * k - 1 else 0)
  {
    if k > 0 {
      FirstRows(k - 1);
    }
  }

  // ---- numbering ---------------------------------------------------------------

  function Norm(y: seq<int>): nat {
    if y == [] then 0 else Abs(y[0]) + Norm(y[1..])
  }

  function SumOfSquares(y: seq<int>): nat {
    if y == [] then 0 else Square(y[0]) + SumOfSquares(y[1..])
  }

  function Square(x: int): nat {
    x * x
  }

  /** Vectors are ordered by the sign of the first coordinate, then by the norm of the others,
      then by their number. */
  function Index(y: seq<int>): nat {
    if y == [] then 0
    else Index(y[1..]) + U(|y|, Norm(y[1..])) + (if y[0] < 0 then U(|y|, Norm(y) + 1) else 0)
  }

  /** The norm left for the other coordinates. */
  function Search(n: nat, k: nat, i: nat): (r: nat)
    requires n > 0
    ensures r <= k && U(n, r) <= i && (r < k ==> i < U(n, r + 1))
  {
    if k == 0 || U(n, k) <= i then k else Search(n, k - 1, i)
  }

  lemma {:induction false} SearchUnique(n: nat, k: nat, i: nat, r: nat)
    requires n > 0 && r <= k && U(n, r) <= i && (r < k ==> i < U(n, r + 1))
    ensures Search(n, k, i) == r
    decreases k
  {
    if r < k {
      Monotone(n, r + 1, k);
      SearchUnique(n, k - 1, i, r);
    }
  }

  /** Step 1 of decoding: is the first coordinate negative, and the number without its sign. */
  function Negative(n: nat, k: nat, i: nat): bool {
    i >= U(n, k + 1)
  }

  function Unsigned(n: nat, k: nat, i: nat): nat {
    if Negative(n, k, i) then i - U(n, k + 1) else i
  }

  /** The vector of dimension n and norm k with number i. */
  function Vector(n: nat, k: nat, i: nat): (y: seq<int>)
    requires i < V(n, k)
    ensures |y| == n
    decreases n
  {
    if n == 0 then []
    else
      var m := Unsigned(n, k, i);
      var r := Search(n, k, m);
      SearchFits(n, k, i);
      [if Negative(n, k, i) then r - k else k - r] + Vector(n - 1, r, m - U(n, r))
  }

  lemma SearchFits(n: nat, k: nat, i: nat)
    requires n > 0 && i < V(n, k)
    ensures var m := Unsigned(n, k, i);
      var r := Search(n, k, m);
      && m - U(n, r) < V(n - 1, r)
      && m < U(n, k + 1) && (Negative(n, k, i) ==> r < k)
  {
    var m := Unsigned(n, k, i);
    var r := Search(n, k, m);
    Slice(n, r);
  }

  lemma NoCoordinates(k: nat)
    ensures V(0, k) == (if k == 0 then 1 else 0)
  {
  }

  lemma {:induction false} IndexBound(y: seq<int>)
    ensures Index(y) < V(|y|, Norm(y))
    ensures y != [] ==> var n, r := |y|, Norm(y[1..]);
      U(n, r) <= Index(y[1..]) + U(n, r) < U(n, r + 1)
  {
    hide U;
    if y != [] {
      var n, k, r := |y|, Norm(y), Norm(y[1..]);
      IndexBound(y[1..]);
      Slice(n, r);
      Monotone(n, r + 1, k + 1);
      if y[0] < 0 { Monotone(n, r + 1, k); }
    } else {
      NoCoordinates(0);
    }
  }

  /** Numbering is one to one: a vector is recovered from its number. */
  lemma {:induction false} VectorOfIndex(y: seq<int>)
    ensures Index(y) < V(|y|, Norm(y))
    ensures Vector(|y|, Norm(y), Index(y)) == y
  {
    hide U;
    IndexBound(y);
    if y != [] {
      var n, k, r := |y|, Norm(y), Norm(y[1..]);
      var m := Index(y[1..]) + U(n, r);
      Monotone(n, r + 1, k + 1);
      assert Unsigned(n, k, Index(y)) == m;
      SearchUnique(n, k, m, r);
      VectorOfIndex(y[1..]);
      assert [y[0]] + y[1..] == y;
    }
  }

  /** Numbering is onto: every number below V(n, k) is the number of a vector of norm k. */
  lemma {:induction false} IndexOfVector(n: nat, k: nat, i: nat)
    requires i < V(n, k)
    ensures Norm(Vector(n, k, i)) == k && Index(Vector(n, k, i)) == i
    decreases n
  {
    hide U, V, Search;
    if n > 0 {
      var m := Unsigned(n, k, i);
      var r := Search(n, k, m);
      SearchFits(n, k, i);
      var y, rest := Vector(n, k, i), Vector(n - 1, r, m - U(n, r));
      IndexOfVector(n - 1, r, m - U(n, r));
      assert y[1..] == rest;
    } else {
      NoCoordinates(k);
    }
  }

  /** The order of the codebook, first coordinate first: vectors that begin with no negative value come
      before those that do, then the larger a first value the earlier, then the other coordinates decide. */
  lemma IndexOrder(y: seq<int>, z: seq<int>)
    requires |y| == |z| > 0 && Norm(y) == Norm(z)
    ensures y[0] >= 0 > z[0] ==> Index(y) < Index(z)
    ensures (y[0] < 0 <==> z[0] < 0) && Abs(y[0]) > Abs(z[0]) ==> Index(y) < Index(z)
    ensures y[0] == z[0] ==> (Index(y) < Index(z) <==> Index(y[1..]) < Index(z[1..]))
  {
    hide U, Index, Norm, V;
    var r, t := Norm(y[1..]), Norm(z[1..]);
    IndexParts(y, if r < t then t else r + 1);
    IndexParts(z, t);
  }

  lemma IndexParts(y: seq<int>, t: nat)
    requires y != []
    ensures var n, k, r := |y|, Norm(y), Norm(y[1..]);
      && k == Abs(y[0]) + r
      && Index(y) == Index(y[1..]) + U(n, r) + (if y[0] < 0 then U(n, k + 1) else 0)
      && Index(y[1..]) + U(n, r) < U(n, k + 1)
      && (r < t ==> Index(y[1..]) + U(n, r) < U(n, t))
  {
    hide U;
    var n, k, r := |y|, Norm(y), Norm(y[1..]);
    IndexBound(y);
    Monotone(n, r + 1, k + 1);
    if r < t { Monotone(n, r + 1, t); }
  }

  // ---- table-driven coding -----------------------------------------------------

  /** `x ^ s` for s in {0, -1}, in two's complement. */
  function XorSign(x: int, s: int): int
    requires s == 0 || s == -1
  {
    if s == 0 then x else -x - 1
  }

  /** icwrs: number the vector from its last coordinate to its first. */
  method RankByTable(y: array<int>) returns (i: nat)
    requires y.Length >= 2 && V(y.Length, Norm(y[..])) < 0x1_0000_0000
    ensures i == Index(y[..]) < 0x1_0000_0000
  {
    var n := y.Length;
    var j := n - 1;
    i := if y[j] < 0 then 1 else 0;
    var k: nat := Abs(y[j]);
    LastCoordinate(y[j]);
    assert y[j..] == [y[j]];
    while j > 0
      invariant 0 <= j < n && i == Index(y[j..]) && k == Norm(y[j..])
    {
      hide U, Index, Norm;
      j := j - 1;
      OneMore(y[j], y[j + 1..], y[j..]);
      i := i + U(n - j, k);
      k := k + Abs(y[j]);
      if y[j] < 0 { i := i + U(n - j, k + 1); }
    }
    assert y[0..] == y[..];
    IndexBound(y[..]);
  }

  lemma {:induction false} OneMoreNorm(x: int, rest: seq<int>, y: seq<int>)
    requires y == [x] + rest
    ensures Norm(y) == Abs(x) + Norm(rest)
  {
    assert y[1..] == rest;
  }

  lemma {:induction false} OneMore(x: int, rest: seq<int>, y: seq<int>)
    requires y == [x] + rest
    ensures Norm(y) == Abs(x) + Norm(rest)
    ensures Index(y) == Index(rest) + U(|y|, Norm(rest)) + if x < 0 then U(|y|, Norm(y) + 1) else 0
  {
    hide U, Norm, Abs;
    OneMoreNorm(x, rest, y);
    assert y[1..] == rest && y[0] == x;
  }

  lemma LastCoordinate(x: int)
    ensures Norm([x]) == Abs(x) && Index([x]) == (if x < 0 then 1 else 0)
  {
    FirstRows(Abs(x) + 1);
    assert Norm([]) == 0 && Index([]) == 0 && U(1, 0) == 0;
  }

  /** What one round of decoding does, whichever way the search runs. */
  lemma OneCoordinate(n: nat, k: nat, i: nat, r: nat)
    requires n > 0 && i < V(n, k) && r <= k
    requires var m := Unsigned(n, k, i); U(n, r) <= m && (r < k ==> m < U(n, r + 1))
    ensures var m, s := Unsigned(n, k, i), if Negative(n, k, i) then -1 else 0;
      && U(n, r) <= m && m - U(n, r) < V(n - 1, r)
      && Vector(n, k, i) == [XorSign(k - r + s, s)] + Vector(n - 1, r, m - U(n, r))
  {
    hide U;
    SearchUnique(n, k, Unsigned(n, k, i), r);
    SearchFits(n, k, i);
  }

  /** Lots of pulses: search row n, from n down if U(n, n) already is too large. */
  method SearchPulses(n: nat, k: nat, i: nat) returns (r: nat)
    requires n > 2 && k >= n && i < U(n, k + 1)
    ensures r <= k && U(n, r) <= i && (r < k ==> i < U(n, r + 1))
  {
    hide U;
    r := k;
    if U(n, n) > i {
      r := StepDown(n, n, i);
    } else {
      var p := U(n, r);
      while p > i
        invariant r <= k && p == U(n, r) && (r < k ==> i < U(n, r + 1))
        decreases r
      {
        RowStart(n);
        r := r - 1;
        p := U(n, r);
      }
    }
  }

  lemma RowStart(n: nat)
    requires n > 0
    ensures U(n, 0) == 0
  {
  }

  /** `do p = ROW[--k][n]; while (p > i);` */
  method StepDown(n: nat, k: nat, i: nat) returns (r: nat)
    requires n > 0 && 0 < k && i < U(n, k)
    ensures r < k && U(n, r) <= i < U(n, r + 1)
  {
    hide U;
    r := k - 1;
    var p := U(r, n);
    Symmetric(r, n);
    while p > i
      invariant r < k && i < U(n, r + 1) && p == U(n, r)
      decreases r
    {
      RowStart(n);
      r := r - 1;
      p := U(r, n);
      Symmetric(r, n);
    }
  }

  /** One round of the loop of cwrsi: the next coordinate, and the norm and number left. */
  method NextCoordinate(n: nat, k: nat, i0: nat) returns (val: int, r: nat, i: nat)
    requires n > 2 && i0 < V(n, k)
    ensures i < V(n - 1, r) && Vector(n, k, i0) == [val] + Vector(n - 1, r, i)
  {
    hide U, Vector;
    i := i0;
    if k >= n {
      // lots of pulses
      var p := U(n, k + 1);
      var s: int := if i >= p then -1 else 0;
      if i >= p { i := i - p; }
      SearchFits(n, k, i0);
      r := SearchPulses(n, k, i);
      OneCoordinate(n, k, i0, r);
      i := i - U(n, r);
      val := XorSign(k - r + s, s);
    } else {
      // lots of dimensions
      var p, q := U(k, n), U(k + 1, n);
      Symmetric(k, n);
      Symmetric(k + 1, n);
      if p <= i && i < q {
        r := k;
        OneCoordinate(n, k, i0, r);
        i := i - p;
        val := 0;
      } else {
        var s: int := if i >= q then -1 else 0;
        if i >= q { i := i - q; }
        NoPulses(n, k, i0);
        r := StepDown(n, k, i);
        OneCoordinate(n, k, i0, r);
        i := i - U(n, r);
        val := XorSign(k - r + s, s);
      }
    }
  }

  /** The end of cwrsi: the last two coordinates without a search. */
  method LastCoordinates(k: nat, i0: nat) returns (a: int, b: int)
    requires i0 < V(2, k)
    ensures Vector(2, k, i0) == [a, b]
  {
    hide U, Vector;
    var i := i0;
    var p := 2 * k + 1;
    var s: int := if i >= p then -1 else 0;
    if i >= p { i := i - p; }
    var r := (i + 1) / 2;
    if r > 0 { i := i - (2 * r - 1); }
    LastTwo(k, i0, r, i);
    a := XorSign(k - r + s, s);
    s := 0 - i;
    b := XorSign(r + s, s);
  }

  lemma TwoSquares(a: int, b: int)
    ensures SumOfSquares([a, b]) == Square(a) + Square(b)
  {
    assert [b][1..] == [] && SumOfSquares([b]) == Square(b);
    assert [a, b][1..] == [b];
  }

  /** cwrsi: the vector with number i, and the sum of its squares. */
  method UnrankByTable(n0: nat, k0: nat, i0: nat, y: array<int>) returns (yy: nat)
    requires n0 >= 2 && 0 < k0 <= 32767 && y.Length == n0 && i0 < V(n0, k0) < 0x1_0000_0000
    modifies y
    ensures y[..] == Vector(n0, k0, i0) && yy == SumOfSquares(y[..])
  {
    hide U, V, Vector, SumOfSquares, Square;
    var n: nat, k: nat, i: nat := n0, k0, i0;
    ghost var all := Vector(n, k, i);
    yy := 0;
    while n > 2
      invariant 2 <= n <= n0 && i < V(n, k)
      invariant all == y[..n0 - n] + Vector(n, k, i)
      invariant yy + SumOfSquares(Vector(n, k, i)) == SumOfSquares(all)
      decreases n
    {
      ghost var rest, before := Vector(n, k, i), y[..n0 - n];
      var val, r, i1 := NextCoordinate(n, k, i);
      y[n0 - n] := val;
      yy := yy + Square(val);
      SplitFirst(rest, val, Vector(n - 1, r, i1), before);
      n, k, i := n - 1, r, i1;
      assert y[..n0 - n] == before + [val];
    }
    ghost var before := y[..n0 - 2];
    var a, b := LastCoordinates(k, i);
    y[n0 - 2], y[n0 - 1] := a, b;
    yy := yy + Square(a) + Square(b);
    TwoSquares(a, b);
    assert y[..] == before + [a, b];
  }

  lemma SplitFirst(rest: seq<int>, val: int, tail: seq<int>, before: seq<int>)
    requires rest == [val] + tail
    ensures before + rest == before + [val] + tail
    ensures SumOfSquares(rest) == Square(val) + SumOfSquares(tail)
  {
    assert rest[1..] == tail;
  }

  lemma LastTwo(k: nat, i: nat, r: nat, last: int)
    requires i < V(2, k)
    requires var m := if i >= 2 * k + 1 then i - (2 * k + 1) else i;
      r == (m + 1) / 2 && last == if r > 0 then m - (2 * r - 1) else m
    ensures 0 <= last <= 1 && r <= k
    ensures var s := if i >= 2 * k + 1 then -1 else 0;
      Vector(2, k, i) == [XorSign(k - r + s, s), XorSign(r - last, -last)]
  {
    hide U, Vector;
    FirstRows(k);
    FirstRows(k + 1);
    FirstRows(r);
    FirstRows(r + 1);
    OneCoordinate(2, k, i, r);
    LastOne(r, last);
  }

  lemma LastOne(r: nat, last: nat)
    requires last < V(1, r)
    ensures last <= 1 && Vector(1, r, last) == [XorSign(r - last, -(last as int))]
  {
    FirstRows(r);
    FirstRows(r + 1);
    FirstRows(0);
    OneCoordinate(1, r, last, 0);
    assert Vector(0, 0, 0) == [];
  }

  lemma NoPulses(n: nat, k: nat, i: nat)
    requires n > 0 && i < V(n, k) && (i < U(n, k) || i >= U(n, k + 1))
    ensures k > 0
  {
    RowStart(n);
  }

  // ---- row recurrences (SMALL_FOOTPRINT) ----------------------------------------------

  /** Entries 0 .. len - 1 of row n of U, starting at column c. */
  function Row(n: nat, c: nat, len: nat): (row: seq<int>)
    ensures |row| == len && forall j :: 0 <= j < len ==> row[j] == U(n, c + j)
  {
    seq(len, j requires 0 <= j => U(n, c + j))
  }

  /** next[0] = base, next[j] = row[j] + row[j-1] + next[j-1] */
  function NextRow(row: seq<int>, base: int): (next: seq<int>)
    ensures |next| == |row|
  {
    if |row| <= 1 then (if row == [] then [] else [base])
    else
      var head := NextRow(row[..|row| - 1], base);
      head + [row[|row| - 1] + row[|row| - 2] + head[|row| - 2]]
  }

  /** prev[0] = base, prev[j] = row[j] - row[j-1] - prev[j-1] */
  function PrevRow(row: seq<int>, base: int): (prev: seq<int>)
    ensures |prev| == |row|
  {
    if |row| <= 1 then (if row == [] then [] else [base])
    else
      var head := PrevRow(row[..|row| - 1], base);
      head + [row[|row| - 1] - row[|row| - 2] - head[|row| - 2]]
  }

  /** unext and uprev undo each other. */
  lemma {:induction false} RowStepsInverse(row: seq<int>, base: int)
    requires |row| > 0
    ensures PrevRow(NextRow(row, base), row[0]) == row
    ensures NextRow(PrevRow(row, base), row[0]) == row
  {
    if |row| > 1 {
      var init := row[..|row| - 1];
      RowStepsInverse(init, base);
      assert NextRow(row, base)[..|row| - 1] == NextRow(init, base);
      assert PrevRow(row, base)[..|row| - 1] == PrevRow(init, base);
    }
  }

  /** unext moves a row of U one step up. */
  lemma {:induction false} NextRowIsU(n: nat, c: nat, len: nat)
    requires len > 0
    ensures NextRow(Row(n, c, len), U(n + 1, c)) == Row(n + 1, c, len)
  {
    if len > 1 {
      var k := c + len - 1;
      assert U(n + 1, k) == U(n, k) + U(n + 1, k - 1) + U(n, k - 1);
      hide U;
      NextRowIsU(n, c, len - 1);
      assert Row(n, c, len)[..len - 1] == Row(n, c, len - 1);
    }
  }

  /** uprev moves it one step down. */
  lemma PrevRowIsU(n: nat, c: nat, len: nat)
    requires len > 0
    ensures PrevRow(Row(n + 1, c, len), U(n, c)) == Row(n, c, len)
  {
    NextRowIsU(n, c, len);
    RowStepsInverse(Row(n, c, len), U(n + 1, c));
  }

  lemma NextStep(row: seq<int>, j: nat, base: int)
    requires 1 <= j < |row|
    ensures NextRow(row[..j + 1], base)
         == NextRow(row[..j], base) + [row[j] + row[j - 1] + NextRow(row[..j], base)[j - 1]]
  {
    assert row[..j + 1][..j] == row[..j];
  }

  lemma PrevStep(row: seq<int>, j: nat, base: int)
    requires 1 <= j < |row|
    ensures PrevRow(row[..j + 1], base)
         == PrevRow(row[..j], base) + [row[j] - row[j - 1] - PrevRow(row[..j], base)[j - 1]]
  {
    assert row[..j + 1][..j] == row[..j];
  }

  lemma FirstEntry(row: seq<int>, base: int)
    requires |row| > 0
    ensures NextRow(row[..1], base) == [base] == PrevRow(row[..1], base)
  {
  }

  /** unext on the len entries of u from `from` on. */
  method Unext(u: array<int>, from: nat, len: nat, base: int)
    requires len >= 2 && from + len <= u.Length
    modifies u
    ensures u[from..from + len] == NextRow(old(u[from..from + len]), base)
    ensures forall p :: 0 <= p < u.Length && !(from <= p < from + len) ==> u[p] == old(u[p])
  {
    hide NextRow;
    ghost var row := u[from..from + len];
    var ui0, j := base, 1;
    FirstEntry(row, base);
    while j < len
      invariant 1 <= j <= len
      invariant u[from..from + j - 1] + [ui0] == NextRow(row[..j], base)
      invariant forall p :: from + j - 1 <= p < from + len ==> u[p] == row[p - from]
      invariant forall p :: 0 <= p < u.Length && !(from <= p < from + len) ==> u[p] == old(u[p])
    {
      ghost var done := u[from..from + j - 1];
      NextStep(row, j, base);
      var ui1 := u[from + j] + u[from + j - 1] + ui0;
      u[from + j - 1] := ui0;
      assert u[from..from + j] == done + [ui0];
      ui0 := ui1;
      j := j + 1;
    }
    ghost var done := u[from..from + len - 1];
    u[from + j - 1] := ui0;
    assert u[from..from + len] == done + [ui0];
    assert row[..len] == row;
  }

  method Uprev(u: array<int>, len: nat, base: int)
    requires len >= 2 && len <= u.Length
    modifies u
    ensures u[..len] == PrevRow(old(u[..len]), base)
    ensures forall p :: len <= p < u.Length ==> u[p] == old(u[p])
  {
    hide PrevRow;
    ghost var row := u[..len];
    var ui0, j := base, 1;
    FirstEntry(row, base);
    while j < len
      invariant 1 <= j <= len
      invariant u[..j - 1] + [ui0] == PrevRow(row[..j], base)
      invariant forall p :: j - 1 <= p < len ==> u[p] == row[p]
      invariant forall p :: len <= p < u.Length ==> u[p] == old(u[p])
    {
      ghost var done := u[..j - 1];
      PrevStep(row, j, base);
      var ui1 := u[j] - u[j - 1] - ui0;
      u[j - 1] := ui0;
      assert u[..j] == done + [ui0];
      ui0 := ui1;
      j := j + 1;
    }
    ghost var done := u[..len - 1];
    u[j - 1] := ui0;
    assert u[..len] == done + [ui0];
    assert row[..len] == row;
  }

  lemma NormSuffix(y: seq<int>, j: nat)
    requires j <= |y|
    ensures Norm(y[j..]) <= Norm(y)
    decreases j
  {
    if j > 0 {
      NormSuffix(y, j - 1);
      assert y[j - 1..][1..] == y[j..];
    }
  }

  /** ncwrs_urow: row n of U, and the size of the codebook. */
  method FillRow(n: nat, k: nat, u: array<int>) returns (nc: int)
    requires n >= 2 && k > 0 && u.Length >= k + 2
    modifies u
    ensures HasRow(u, n, k + 2) && nc == V(n, k)
    ensures forall p :: k + 2 <= p < u.Length ==> u[p] == old(u[p])
  {
    hide U;
    var len := k + 2;
    u[0], u[1] := 0, 1;
    FirstRows(0);
    FirstRows(1);
    FillSecondRow(2, len, u);
    var m := 2;
    while m < n
      invariant 2 <= m <= n && HasRow(u, m, len)
      invariant forall p :: len <= p < u.Length ==> u[p] == old(u[p])
    {
      RaiseRowBehind(m, len, u);
      m := m + 1;
    }
    nc := u[k] + u[k + 1];
  }

  /** unext(_u+1,_k+1,1): column 0 stays 0. */
  method RaiseRowBehind(m: nat, len: nat, u: array<int>)
    requires m > 0 && len >= 3 && HasRow(u, m, len)
    modifies u
    ensures HasRow(u, m + 1, len)
    ensures forall p :: len <= p < u.Length ==> u[p] == old(u[p])
  {
    hide U;
    NextRowIsU(m, 1, len - 1);
    SecondColumn(m + 1);
    RowStart(m);
    RowStart(m + 1);
    assert u[1..1 + (len - 1)] == Row(m, 1, len - 1);
    Unext(u, 1, len - 1, 1);
    assert forall p :: 0 < p < len ==> u[p] == u[1..1 + (len - 1)][p - 1];
  }

  lemma {:induction false} SecondColumn(n: nat)
    requires n > 0
    ensures U(n, 1) == 1
  {
    if n > 1 {
      SecondColumn(n - 1);
      RowStart(n);
      RowStart(n - 1);
    }
  }

  /** u starts with row n of U. */
  ghost predicate HasRow(u: array<int>, n: nat, len: nat)
    reads u
  {
    len <= u.Length && forall j :: 0 <= j < len ==> u[j] == U(n, j)
  }

  /** One round of the row-based cwrsi; the row is left at the next lower dimension. */
  method NextCoordinateByRow(n: nat, k0: nat, i0: nat, u: array<int>) returns (val: int, k: nat, i: nat)
    requires n > 0 && i0 < V(n, k0) && HasRow(u, n, k0 + 2)
    modifies u
    ensures k <= k0 && i < V(n - 1, k) && Vector(n, k0, i0) == [val] + Vector(n - 1, k, i)
    ensures n > 1 ==> HasRow(u, n - 1, k + 2)
  {
    hide U, Vector;
    i, k := i0, k0;
    var p := u[k + 1];
    var s: int := if i >= p then -1 else 0;
    if i >= p { i := i - p; }
    var yj: int := k;
    p := u[k];
    RowStart(n);
    while p > i
      invariant k <= k0 && p == u[k] && (k < k0 ==> i < U(n, k + 1))
      decreases k
    {
      k := k - 1;
      p := u[k];
    }
    OneCoordinate(n, k0, i0, k);
    i := i - p;
    yj := yj - k;
    val := XorSign(yj + s, s);
    LowerRow(n, k, u);
  }

  method LowerRow(n: nat, k: nat, u: array<int>)
    requires n > 0 && HasRow(u, n, k + 2)
    modifies u
    ensures n > 1 ==> HasRow(u, n - 1, k + 2)
  {
    hide U;
    assert u[..k + 2] == Row(n, 0, k + 2);
    Uprev(u, k + 2, 0);
    if n > 1 {
      PrevRowIsU(n - 1, 0, k + 2);
      RowStart(n - 1);
      assert forall j :: 0 <= j < k + 2 ==> u[j] == u[..k + 2][j];
    }
  }

  /** The row-based cwrsi gives the same vector as the table-based one. */
  method UnrankByRow(n: nat, k0: nat, i0: nat, y: array<int>, u: array<int>) returns (yy: nat)
    requires n > 0 && k0 <= 32767 && y.Length == n && i0 < V(n, k0) < 0x1_0000_0000
    requires u != y && HasRow(u, n, k0 + 2)
    modifies y, u
    ensures y[..] == Vector(n, k0, i0) && yy == SumOfSquares(y[..])
  {
    hide U, Vector, V, SumOfSquares, Square;
    var k: nat, i: nat := k0, i0;
    ghost var all := Vector(n, k, i);
    yy := 0;
    var j := 0;
    while j < n
      invariant 0 <= j <= n && i < V(n - j, k)
      invariant j < n ==> HasRow(u, n - j, k + 2)
      invariant all == y[..j] + Vector(n - j, k, i)
      invariant yy + SumOfSquares(Vector(n - j, k, i)) == SumOfSquares(all)
    {
      ghost var rest, before := Vector(n - j, k, i), y[..j];
      var val, r, i1 := NextCoordinateByRow(n - j, k, i, u);
      y[j] := val;
      yy := yy + Square(val);
      SplitFirst(rest, val, Vector(n - j - 1, r, i1), before);
      k, i, j := r, i1, j + 1;
      assert y[..j] == before + [val];
    }
    NoSquares(Vector(n - j, k, i), y[..]);
  }

  lemma NoSquares(none: seq<int>, y: seq<int>)
    requires none == []
    ensures SumOfSquares(none) == 0 && y + none == y
  {
  }

  /** The rest of the row of dimension 2, where ncwrs_urow and icwrs start. */
  method FillSecondRow(from: nat, len: nat, u: array<int>)
    requires 1 <= from <= len <= u.Length && forall p :: 0 <= p < from ==> u[p] == U(2, p)
    modifies u
    ensures HasRow(u, 2, len)
    ensures forall p :: len <= p < u.Length ==> u[p] == old(u[p])
  {
    hide U;
    for c := from to len
      invariant forall p :: 0 <= p < c ==> u[p] == U(2, p)
      invariant forall p :: len <= p < u.Length ==> u[p] == old(u[p])
    {
      FirstRows(c);
      u[c] := 2 * c - 1;
    }
  }

  method RaiseRow(n: nat, len: nat, u: array<int>)
    requires n > 0 && len >= 2 && HasRow(u, n, len)
    modifies u
    ensures HasRow(u, n + 1, len)
  {
    hide U;
    NextRowIsU(n, 0, len);
    RowStart(n + 1);
    assert u[0..0 + len] == Row(n, 0, len);
    Unext(u, 0, len, 0);
    assert forall j :: 0 <= j < len ==> u[j] == u[0..0 + len][j];
  }

  /** The row-based icwrs gives the same number as the table-based one, and the codebook size. */
  method RankByRow(y: array<int>, k0: nat, u: array<int>) returns (i: int, nc: int)
    requires y.Length >= 2 && Norm(y[..]) == k0 && V(y.Length, k0) < 0x1_0000_0000
    requires u != y && u.Length >= k0 + 2
    modifies u
    ensures i == Index(y[..]) && nc == V(y.Length, k0)
  {
    hide U, Index, Norm;
    var n := y.Length;
    u[0] := 0;
    FirstRows(0);
    FillSecondRow(1, k0 + 2, u);
    i := if y[n - 1] < 0 then 1 else 0;
    var k: nat := Abs(y[n - 1]);
    LastCoordinate(y[n - 1]);
    assert y[n - 1..] == [y[n - 1]];
    var j := n - 2;
    i, k := AddCoordinate(y, j, k0, i, k, u);
    while j > 0
      invariant 0 <= j <= n - 2
      invariant HasRow(u, n - j, k0 + 2)
      invariant i == Index(y[j..]) && k == Norm(y[j..])
    {
      j := j - 1;
      RaiseRow(n - j - 1, k0 + 2, u);
      i, k := AddCoordinate(y, j, k0, i, k, u);
    }
    assert y[0..] == y[..];
    nc := u[k] + u[k + 1];
  }

  method AddCoordinate(y: array<int>, j: nat, k0: nat, i0: int, kr: nat, u: array<int>) returns (i: int, k: nat)
    requires j + 1 < y.Length && Norm(y[..]) == k0 && HasRow(u, y.Length - j, k0 + 2)
    requires i0 == Index(y[j + 1..]) && kr == Norm(y[j + 1..])
    ensures i == Index(y[j..]) && k == Norm(y[j..])
  {
    hide U;
    NormSuffix(y[..], j);
    NormSuffix(y[..], j + 1);
    assert y[..][j..] == y[j..] == [y[j]] + y[j + 1..] && y[..][j + 1..] == y[j + 1..];
    i := i0 + u[kr];
    k := kr + Abs(y[j]);
    if y[j] < 0 { i := i + u[k + 1]; }
  }
}
