/** The range coder with unbounded integers (sections 4.1 and 5.1 of RFC 6716): an interval
    [low, low + rng) of code points, of which 31 + 8 * shifts bits have been decided on.
    Both finite-precision machines are proved to represent this one. */
module IntervalCoder {
  import opened Arith
  import opened Bits

  const EC_CODE_TOP := 0x8000_0000
  const EC_CODE_BOT := 0x80_0000

  datatype Interval = Interval(low: nat, rng: nat, shifts: nat)

  const Whole := Interval(0, EC_CODE_TOP, 0)

  /** Keep the part that starts b below the top of i and ends a below it. */
  function Narrow(i: Interval, a: nat, b: nat): Interval
    requires a < b <= i.rng
  {
    Interval(i.low + i.rng - b, b - a, i.shifts)
  }

  /** Append bytes of precision until the width exceeds EC_CODE_BOT. */
  function Rescale(i: Interval): (j: Interval)
    requires 0 < i.rng <= EC_CODE_TOP
    ensures EC_CODE_BOT < j.rng <= EC_CODE_TOP
    decreases EC_CODE_TOP - i.rng
  {
    if i.rng <= EC_CODE_BOT then Rescale(Interval(256 * i.low, 256 * i.rng, i.shifts + 1)) else i
  }

  /** The width and the number of bytes after rescaling depend on the width alone. */
  function NormRng(rng: nat): nat
    requires 0 < rng <= EC_CODE_TOP
    decreases EC_CODE_TOP - rng
  {
    if rng <= EC_CODE_BOT then NormRng(256 * rng) else rng
  }

  function NormShifts(rng: nat): nat
    requires 0 < rng <= EC_CODE_TOP
    decreases EC_CODE_TOP - rng
  {
    if rng <= EC_CODE_BOT then NormShifts(256 * rng) + 1 else 0
  }

  lemma {:induction false} RescaleWidth(i: Interval)
    requires 0 < i.rng <= EC_CODE_TOP
    ensures Rescale(i).rng == NormRng(i.rng) && Rescale(i).shifts == i.shifts + NormShifts(i.rng)
    decreases EC_CODE_TOP - i.rng
  {
    if i.rng <= EC_CODE_BOT {
      RescaleWidth(Interval(256 * i.low, 256 * i.rng, i.shifts + 1));
    }
  }

  function Up(x: nat, k: nat): nat {
    if k == 0 then x else 256 * Up(x, k - 1)
  }

  /** j, at its finer precision, lies inside i. */
  ghost predicate Nested(j: Interval, i: Interval) {
    && i.shifts <= j.shifts
    && Up(i.low, j.shifts - i.shifts) <= j.low
    && j.low + j.rng <= Up(i.low + i.rng, j.shifts - i.shifts)
  }

  lemma {:induction false} UpStrict(x: nat, y: nat, k: nat)
    ensures x < y <==> Up(x, k) < Up(y, k)
    ensures x <= y <==> Up(x, k) <= Up(y, k)
  {
    if k > 0 {
      UpStrict(x, y, k - 1);
    }
  }

  lemma {:induction false} UpCompose(x: nat, k: nat, m: nat)
    ensures Up(Up(x, k), m) == Up(x, k + m)
  {
    if m > 0 {
      UpCompose(x, k, m - 1);
    }
  }

  lemma NestedTransitive(a: Interval, b: Interval, c: Interval)
    requires Nested(a, b) && Nested(b, c)
    ensures Nested(a, c)
  {
    var k, m := b.shifts - c.shifts, a.shifts - b.shifts;
    UpCompose(c.low, k, m);
    UpCompose(c.low + c.rng, k, m);
    UpStrict(Up(c.low, k), b.low, m);
    UpStrict(b.low + b.rng, Up(c.low + c.rng, k), m);
  }

  lemma {:induction false} RescaleNests(i: Interval)
    requires 0 < i.rng <= EC_CODE_TOP
    ensures Nested(Rescale(i), i)
    decreases EC_CODE_TOP - i.rng
  {
    if i.rng <= EC_CODE_BOT {
      var j := Interval(256 * i.low, 256 * i.rng, i.shifts + 1);
      assert Up(i.low, 1) == 256 * Up(i.low, 0) && Up(i.low + i.rng, 1) == 256 * Up(i.low + i.rng, 0);
      assert Nested(j, i);
      RescaleNests(j);
      NestedTransitive(Rescale(i), j, i);
    }
  }

  /** Coding a symbol never leaves the interval reached so far. */
  lemma StepNests(i: Interval, a: nat, b: nat)
    requires a < b <= i.rng <= EC_CODE_TOP
    ensures Nested(Rescale(Narrow(i, a, b)), i)
  {
    RescaleNests(Narrow(i, a, b));
    assert Nested(Narrow(i, a, b), i);
    NestedTransitive(Rescale(Narrow(i, a, b)), Narrow(i, a, b), i);
  }

  // ---- code streams ------------------------------------------------------------

  /** The stream of a finite buffer continues with zeros (entdec.c, ec_read_byte). */
  function ByteAt(s: seq<byte>, k: nat): byte {
    if k < |s| then s[k] else 0
  }

  /** The first m bytes of the stream as a big-endian number. */
  function Prefix(s: seq<byte>, m: nat): nat {
    if m == 0 then 0 else 256 * Prefix(s, m - 1) + ByteAt(s, m - 1)
  }

  /** The first 31 + 8 * n bits of the stream. */
  function Code(s: seq<byte>, n: nat): nat {
    Prefix(s, n + 4) / 2
  }

  /** The stream s selects a point of i. */
  ghost predicate Covers(i: Interval, s: seq<byte>) {
    i.low <= Code(s, i.shifts) < i.low + i.rng
  }

  lemma CodeStep(s: seq<byte>, n: nat)
    ensures Code(s, n + 1) == 256 * Code(s, n) + 128 * (ByteAt(s, n + 3) % 2) + ByteAt(s, n + 4) / 2
  {
    assert Prefix(s, n + 5) == 256 * Prefix(s, n + 4) + ByteAt(s, n + 4);
    assert Prefix(s, n + 4) == 256 * Prefix(s, n + 3) + ByteAt(s, n + 3);
    HalfStep(Prefix(s, n + 3), ByteAt(s, n + 3), ByteAt(s, n + 4));
  }

  /** A stream selects the same point as with zeros behind it. */
  lemma {:induction false} ZeroPadded(s: seq<byte>, zeros: seq<byte>, m: nat)
    requires forall k :: 0 <= k < |zeros| ==> zeros[k] == 0
    ensures Prefix(s + zeros, m) == Prefix(s, m)
  {
    if m > 0 { ZeroPadded(s, zeros, m - 1); }
  }

  lemma HalfStep(q: nat, a: byte, b: byte)
    ensures var p := 256 * q + a;
      (256 * p + b) / 2 == 256 * (p / 2) + 128 * (a % 2) + b / 2
  {
    var p := 256 * q + a;
    DivUnique(p, 2, 128 * q + a / 2, a % 2);
    DivUnique(256 * p + b, 2, 128 * p + b / 2, b % 2);
  }

  lemma {:induction false} CodeWithin(s: seq<byte>, n: nat, k: nat)
    ensures Up(Code(s, n), k) <= Code(s, n + k) < Up(Code(s, n) + 1, k)
  {
    if k > 0 {
      CodeWithin(s, n, k - 1);
      CodeStep(s, n + k - 1);
    }
  }

  /** A stream that ends inside an interval passed through every interval around it. */
  lemma CoversOuter(j: Interval, i: Interval, s: seq<byte>)
    requires Nested(j, i) && Covers(j, s)
    ensures Covers(i, s)
  {
    var k := j.shifts - i.shifts;
    CodeWithin(s, i.shifts, k);
    UpStrict(i.low, Code(s, i.shifts) + 1, k);
    UpStrict(Code(s, i.shifts), i.low + i.rng, k);
  }
}
