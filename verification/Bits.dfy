/** Binary arithmetic shared by the entropy coder models: powers of two, the integer
    logarithm, bit strings (least significant bit first) and the bitwise "or". */
module Bits {
  import opened Arith

  type byte = x: int | 0 <= x < 256
  type bit = x: int | 0 <= x < 2

  const EC_SYM_BITS: nat := 8

  /** The cast (unsigned char)x. */
  function ToByte(x: nat): (b: byte)
    ensures x < 256 ==> b == x
  {
    x % 256
  }

  function Pow2(n: nat): (p: nat)
    ensures p >= 1
  {
    if n == 0 then 1 else 2 * Pow2(n - 1)
  }

  lemma {:induction false} Pow2Add(a: nat, b: nat)
    ensures Pow2(a + b) == Pow2(a) * Pow2(b)
  {
    if a == 0 {
    } else {
      Pow2Add(a - 1, b);
      assert Pow2(a + b) == 2 * Pow2(a - 1 + b);
      assert 2 * (Pow2(a - 1) * Pow2(b)) == (2 * Pow2(a - 1)) * Pow2(b);
    }
  }

  lemma {:induction false} Pow2Monotone(a: nat, b: nat)
    requires a <= b
    ensures Pow2(a) <= Pow2(b)
    decreases b
  {
    if a < b {
      Pow2Monotone(a, b - 1);
    }
  }

  lemma Pow2Values()
    ensures Pow2(EC_SYM_BITS) == Pow2(8) == 256 && Pow2(16) == 0x1_0000
    ensures Pow2(23) == 0x80_0000 && Pow2(24) == 0x100_0000
    ensures Pow2(31) == 0x8000_0000 && Pow2(32) == 0x1_0000_0000
  {
    assert Pow2(7) == 128;
    assert Pow2(8) == 256;
    Pow2Add(8, 8);
    Pow2Add(16, 7);
    Pow2Add(16, 8);
    Pow2Add(24, 7);
    Pow2Add(24, 8);
  }

  /** Number of bits of v: the position of its leading one, counted from 1; 0 for 0. */
  function Ilog(v: nat): nat {
    if v == 0 then 0 else 1 + Ilog(v / 2)
  }

  lemma {:induction false} IlogBounds(v: nat)
    requires v > 0
    ensures Ilog(v) >= 1 && Pow2(Ilog(v) - 1) <= v < Pow2(Ilog(v))
  {
    if v > 1 {
      IlogBounds(v / 2);
    } else {
      assert v / 2 == 0;
    }
  }

  lemma {:induction false} IlogUnique(v: nat, k: nat)
    requires Pow2(k) <= v < Pow2(k + 1)
    ensures Ilog(v) == k + 1
    decreases k
  {
    if k == 0 {
      assert v == 1 && Ilog(0) == 0;
    } else {
      IlogUnique(v / 2, k - 1);
    }
  }

  // ---- bit strings -------------------------------------------------------------

  function ToBits(x: nat, k: nat): (b: seq<bit>)
    ensures |b| == k
  {
    if k == 0 then [] else [x % 2] + ToBits(x / 2, k - 1)
  }

  function FromBits(b: seq<bit>): nat {
    if b == [] then 0 else b[0] + 2 * FromBits(b[1..])
  }

  lemma {:induction false} FromToBits(x: nat, k: nat)
    requires x < Pow2(k)
    ensures FromBits(ToBits(x, k)) == x
  {
    if k > 0 {
      FromToBits(x / 2, k - 1);
      assert ToBits(x, k)[1..] == ToBits(x / 2, k - 1);
    }
  }

  lemma {:induction false} ToBitsConcat(x: nat, y: nat, k: nat, m: nat)
    requires x < Pow2(k)
    ensures ToBits(x + y * Pow2(k), k + m) == ToBits(x, k) + ToBits(y, m)
    decreases k
  {
    if k == 0 {
      assert x == 0 && y * Pow2(0) == y;
      assert ToBits(x, k) + ToBits(y, m) == ToBits(y, m);
    } else {
      var p := Pow2(k - 1);
      MulDouble(y, p);
      var t := y * p;
      var z := x + 2 * t;
      ToBitsConcat(x / 2, y, k - 1, m);
      assert z % 2 == x % 2 && z / 2 == x / 2 + t;
      assert ToBits(z, k + m) == [z % 2] + ToBits(z / 2, k - 1 + m);
    }
  }

  /** `z << k`, `z >> k` and `z & ((1 << k) - 1)`. */
  function Shl(z: nat, k: nat): nat {
    MulLe(0, z, Pow2(k));
    z * Pow2(k)
  }

  function Shr(z: nat, k: nat): nat {
    DivMod(z, Pow2(k));
    z / Pow2(k)
  }

  function Low(z: nat, k: nat): (r: nat)
    ensures r < Pow2(k)
  {
    DivMod(z, Pow2(k));
    z % Pow2(k)
  }

  /** Splitting a window: the low k bits and the rest. */
  lemma ToBitsSplit(z: nat, k: nat, m: nat)
    ensures z == Low(z, k) + Shr(z, k) * Pow2(k)
    ensures ToBits(z, k + m) == ToBits(Low(z, k), k) + ToBits(Shr(z, k), m)
  {
    var p := Pow2(k);
    DivMod(z, p);
    var q, r := Shr(z, k), Low(z, k);
    assert p * q == q * p;
    ToBitsConcat(r, q, k, m);
  }

  /** The bitwise "or" of two naturals. */
  function BitOr(x: nat, y: nat): nat
    decreases x + y
  {
    if x == 0 && y == 0 then 0
    else (if x % 2 == 1 || y % 2 == 1 then 1 else 0) + 2 * BitOr(x / 2, y / 2)
  }

  /** x & y */
  function BitAnd(x: nat, y: nat): nat {
    if x == 0 || y == 0 then 0 else (x % 2) * (y % 2) + 2 * BitAnd(x / 2, y / 2)
  }

  lemma {:induction false} BitAndSelf(x: nat)
    ensures BitAnd(x, x) == x
  {
    if x > 0 { BitAndSelf(x / 2); }
  }

  /** x & ~y */
  function BitAndNot(x: nat, y: nat): nat {
    if x == 0 then 0
    else (if x % 2 == 1 && y % 2 == 0 then 1 else 0) + 2 * BitAndNot(x / 2, y / 2)
  }

  lemma {:induction false} AndNotMask(x: nat, k: nat)
    ensures BitAndNot(x, Pow2(k) - 1) == x - Low(x, k)
    decreases k
  {
    var p := Pow2(k);
    if k == 0 {
      AndNotZero(x);
    } else {
      var h := Pow2(k - 1);
      AndNotMask(x / 2, k - 1);
      assert (p - 1) / 2 == h - 1 && (p - 1) % 2 == 1;
      LowHalf(x, k);
    }
  }

  lemma LowHalf(x: nat, k: nat)
    requires k > 0
    ensures Low(x, k) == 2 * Low(x / 2, k - 1) + x % 2
  {
    var h := Pow2(k - 1);
    DivMod(x / 2, h);
    var q := (x / 2) / h;
    MulAssoc(2, h, q);
    DivUnique(x, Pow2(k), q, 2 * ((x / 2) % h) + x % 2);
  }

  lemma {:induction false} AndNotZero(x: nat)
    ensures BitAndNot(x, 0) == x
  {
    if x > 0 { AndNotZero(x / 2); }
  }

  lemma {:induction false} OrDisjoint(x: nat, y: nat, k: nat)
    requires x < Pow2(k)
    ensures BitOr(x, y * Pow2(k)) == x + y * Pow2(k) == BitOr(y * Pow2(k), x)
    decreases k
  {
    if k == 0 {
      OrZero(y);
    } else {
      var p := Pow2(k - 1);
      MulDouble(y, p);
      OrDisjoint(x / 2, y, k - 1);
    }
  }

  lemma {:induction false} OrZero(y: nat)
    ensures BitOr(0, y) == y == BitOr(y, 0)
  {
    if y > 0 {
      OrZero(y / 2);
    }
  }

  lemma {:induction false} OrBound(x: nat, y: nat, k: nat)
    requires x < Pow2(k) && y < Pow2(k)
    ensures BitOr(x, y) < Pow2(k)
    decreases k
  {
    if k > 0 && x + y > 0 { OrBound(x / 2, y / 2, k - 1); }
  }

  /** Or-ing in a value below 2^k leaves everything above bit k alone. */
  lemma {:induction false} OrLow(x: nat, y: nat, k: nat)
    requires y < Pow2(k)
    ensures Shr(BitOr(x, y), k) == Shr(x, k)
  {
    if k == 0 {
      OrZero(x);
      assert BitOr(x, y) == x;
    } else {
      var p := Pow2(k - 1);
      OrLow(x / 2, y / 2, k - 1);
      DivDiv(x, 2, p);
      DivDiv(BitOr(x, y), 2, p);
      assert BitOr(x, y) / 2 == BitOr(x / 2, y / 2);
    }
  }

  /** Packing bits above a window: `window |= fl << used`. */
  lemma PackWindow(w: nat, used: nat, fl: nat, bits: nat)
    requires w < Pow2(used) && fl < Pow2(bits)
    ensures BitOr(w, Shl(fl, used)) < Pow2(used + bits)
    ensures ToBits(BitOr(w, Shl(fl, used)), used + bits) == ToBits(w, used) + ToBits(fl, bits)
  {
    var p := Pow2(used);
    MulLe(0, fl, p);
    OrDisjoint(w, fl, used);
    ToBitsConcat(w, fl, used, bits);
    Pow2Add(bits, used);
    MulLe(fl + 1, Pow2(bits), p);
    MulDist(p, fl, 1);
  }

  lemma ShrBounds(x: nat, y: nat, k: nat, m: nat)
    requires x <= y < Pow2(k + m)
    ensures Shr(x, k) <= Shr(y, k) < Pow2(m)
  {
    var p := Pow2(k);
    Pow2Add(k, m);
    DivMonotone(x, y, p);
    DivLess(y, p, Pow2(m));
  }

  /** A byte string as bits. */
  function ByteBits(t: seq<byte>): (b: seq<bit>)
    ensures |b| == 8 * |t|
  {
    if t == [] then [] else ByteBits(t[..|t| - 1]) + ToBits(t[|t| - 1], EC_SYM_BITS)
  }

  /** Moving the low byte of a window to a byte string. */
  lemma TakeByte(t: seq<byte>, window: nat, m: nat)
    requires window < Pow2(EC_SYM_BITS + m)
    ensures Low(window, EC_SYM_BITS) < 256 && Shr(window, EC_SYM_BITS) < Pow2(m)
    ensures ByteBits(t) + ToBits(window, EC_SYM_BITS + m) ==
            ByteBits(t + [Low(window, EC_SYM_BITS)]) + ToBits(Shr(window, EC_SYM_BITS), m)
  {
    Pow2Values();
    ToBitsSplit(window, EC_SYM_BITS, m);
    ShrBounds(window, window, EC_SYM_BITS, m);
    var v: byte := Low(window, EC_SYM_BITS);
    assert (t + [v])[..|t|] == t;
    var x, y, z := ByteBits(t), ToBits(v, EC_SYM_BITS), ToBits(Shr(window, EC_SYM_BITS), m);
    assert x + (y + z) == (x + y) + z;
  }

  /** The bytes of s from its end backwards, continued with zeros (entdec.c, ec_read_byte_from_end). */
  function TailByte(s: seq<byte>, k: nat): byte {
    if k < |s| then s[|s| - (k + 1)] else 0
  }

  function TailBytes(s: seq<byte>, n: nat): (t: seq<byte>)
    ensures |t| == n
  {
    if n == 0 then [] else TailBytes(s, n - 1) + [TailByte(s, n - 1)]
  }

  /** The first 8 * n bits of the raw bit stream at the end of s. */
  function TailBits(s: seq<byte>, n: nat): (b: seq<bit>)
    ensures |b| == 8 * n
  {
    ByteBits(TailBytes(s, n))
  }

  lemma TailBitsSnoc(s: seq<byte>, n: nat)
    ensures TailBits(s, n + 1) == TailBits(s, n) + ToBits(TailByte(s, n), EC_SYM_BITS)
  {
    assert TailBytes(s, n + 1)[..n] == TailBytes(s, n);
  }

  lemma {:induction false} TailBitsPrefix(s: seq<byte>, n: nat, m: nat)
    requires n <= m
    ensures TailBits(s, m)[..8 * n] == TailBits(s, n)
    decreases m
  {
    if n < m {
      TailBitsPrefix(s, n, m - 1);
      TailBitsSnoc(s, m - 1);
    }
  }

  lemma {:induction false} ToBitAt(x: nat, k: nat, j: nat)
    requires j < k
    ensures x / Pow2(j) >= 0 && ToBits(x, k)[j] == x / Pow2(j) % 2
  {
    if j > 0 {
      ToBitAt(x / 2, k - 1, j - 1);
      DivDiv(x, 2, Pow2(j - 1));
    } else {
      assert Pow2(0) == 1;
    }
  }

  /** Raw bits fill the buffer from its end, the lowest bit of each byte first. */
  lemma {:induction false} RawBitAt(s: seq<byte>, n: nat, k: nat, j: nat)
    requires k < n && j < 8
    ensures TailBits(s, n)[8 * k + j] == (if k < |s| then s[|s| - 1 - k] else 0) / Pow2(j) % 2
    decreases n
  {
    TailBitsSnoc(s, n - 1);
    if k == n - 1 { ToBitAt(TailByte(s, k), EC_SYM_BITS, j); } else { RawBitAt(s, n - 1, k, j); }
  }

  lemma SliceOfPrefix<T>(x: seq<T>, c: nat, a: nat, b: nat)
    requires a <= b <= c <= |x|
    ensures x[..c][a..b] == x[a..b]
  {
  }

  lemma SplitSuffix<T>(x: seq<T>, a: nat, u: seq<T>, v: seq<T>)
    requires a <= |x| && x[a..] == u + v
    ensures a + |u| <= |x| && x[a..a + |u|] == u && x[a + |u|..] == v
  {
    assert |x| == a + |u| + |v|;
    assert x[a..a + |u|] == x[a..][..|u|];
    assert x[a + |u|..] == x[a..][|u|..];
  }

  lemma TailBitsAgree(s: seq<byte>, n: nat, m: nat, a: nat, b: nat)
    requires a <= b <= 8 * n && b <= 8 * m
    ensures TailBits(s, n)[a..b] == TailBits(s, m)[a..b]
  {
    if n <= m {
      TailBitsPrefix(s, n, m);
      SliceOfPrefix(TailBits(s, m), 8 * n, a, b);
    } else {
      TailBitsPrefix(s, m, n);
      SliceOfPrefix(TailBits(s, n), 8 * m, a, b);
    }
  }
}
