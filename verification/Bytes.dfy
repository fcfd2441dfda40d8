/** Bytes, bit strings and the unsigned integer operations of C, written out on naturals. */
module Bytes {
  /** An `unsigned char`. */
  type byte = x: int | 0 <= x < 256

  function Pow2(n: nat): (r: nat)
    ensures r >= 1
  {
    if n == 0 then 1 else 2 * Pow2(n - 1)
  }

  /** The low `n` bits of `v`, least significant first. */
  function LsbBits(v: nat, n: nat): (r: seq<bool>)
    ensures |r| == n
  {
    if n == 0 then [] else [v % 2 == 1] + LsbBits(v / 2, n - 1)
  }

  /** The low `n` bits of `v`, most significant first. */
  function MsbBits(v: nat, n: nat): (r: seq<bool>)
    ensures |r| == n
  {
    if n == 0 then [] else MsbBits(v / 2, n - 1) + [v % 2 == 1]
  }

  /** The number whose bits, least significant first, are `bits`. */
  function LsbValue(bits: seq<bool>): nat {
    if |bits| == 0 then 0 else (if bits[0] then 1 else 0) + 2 * LsbValue(bits[1..])
  }

  /** The number whose bits, most significant first, are `bits`. */
  function MsbValue(bits: seq<bool>): nat {
    if |bits| == 0 then 0 else 2 * MsbValue(bits[..|bits| - 1]) + (if bits[|bits| - 1] then 1 else 0)
  }

  /** The bits of a byte string, each byte least significant bit first (section 3.1.1 of RFC 1951). */
  function LsbStream(bs: seq<byte>): (r: seq<bool>)
    ensures |r| == 8 * |bs|
  {
    if |bs| == 0 then [] else LsbBits(bs[0], 8) + LsbStream(bs[1..])
  }

  /** The bits of a byte string, each byte most significant bit first. */
  function MsbStream(bs: seq<byte>): (r: seq<bool>)
    ensures |r| == 8 * |bs|
  {
    if |bs| == 0 then [] else MsbBits(bs[0], 8) + MsbStream(bs[1..])
  }

  /** C's `a | b` on unsigned operands. */
  function BitOr(a: nat, b: nat): nat {
    if a == 0 then b else if b == 0 then a else
    2 * BitOr(a / 2, b / 2) + (if a % 2 == 1 || b % 2 == 1 then 1 else 0)
  }

  const WORD: nat := 0x1_0000_0000

  /** C's `a << n` on `unsigned int`. */
  function Shl32(a: nat, n: nat): nat {
    (a * Pow2(n)) % WORD
  }

  /** C's `a >> n` on unsigned operands. */
  function Shr(a: nat, n: nat): nat {
    if n == 0 then a else Shr(a / 2, n - 1)
  }

  lemma {:induction false} Pow2Add(m: nat, n: nat)
    ensures Pow2(m + n) == Pow2(m) * Pow2(n)
  {
    if m == 0 {
    } else {
      Pow2Add(m - 1, n);
    }
  }

  lemma {:induction false} Pow2Monotone(m: nat, n: nat)
    requires m <= n
    ensures Pow2(m) <= Pow2(n)
  {
    if m < n {
      Pow2Monotone(m, n - 1);
    }
  }

  lemma Pow2Values()
    ensures Pow2(1) == 2 && Pow2(2) == 4 && Pow2(3) == 8 && Pow2(4) == 16 && Pow2(5) == 32
    ensures Pow2(6) == 64 && Pow2(7) == 128 && Pow2(8) == 256 && Pow2(9) == 512
    ensures Pow2(10) == 1024 && Pow2(11) == 2048 && Pow2(12) == 4096 && Pow2(13) == 8192
    ensures Pow2(16) == 65536 && Pow2(24) == 0x100_0000 && Pow2(32) == WORD
  {
    assert Pow2(2) == 4 && Pow2(4) == 16 && Pow2(6) == 64 && Pow2(8) == 256;
    assert Pow2(10) == 1024 && Pow2(12) == 4096 && Pow2(14) == 16384 && Pow2(16) == 65536;
    Pow2Add(8, 16);
    Pow2Add(16, 16);
  }

  /** Splitting a value at bit `n` splits its bit string there. */
  lemma {:induction false} LsbSplit(v: nat, w: nat, n: nat, m: nat)
    requires v < Pow2(n)
    ensures LsbBits(v + w * Pow2(n), n + m) == LsbBits(v, n) + LsbBits(w, m)
  {
    if n == 0 {
      assert LsbBits(v, 0) + LsbBits(w, m) == LsbBits(w, m);
    } else {
      var whole := v + w * Pow2(n);
      assert w * Pow2(n) == 2 * (w * Pow2(n - 1));
      assert whole % 2 == v % 2;
      assert whole / 2 == v / 2 + w * Pow2(n - 1);
      LsbSplit(v / 2, w, n - 1, m);
      assert [v % 2 == 1] + (LsbBits(v / 2, n - 1) + LsbBits(w, m)) == LsbBits(v, n) + LsbBits(w, m);
    }
  }

  lemma {:induction false} LsbValueOf(v: nat, n: nat)
    requires v < Pow2(n)
    ensures LsbValue(LsbBits(v, n)) == v
  {
    if n == 0 {
    } else {
      LsbValueOf(v / 2, n - 1);
      assert LsbBits(v, n)[1..] == LsbBits(v / 2, n - 1);
    }
  }

  lemma {:induction false} MsbValueOf(v: nat, n: nat)
    requires v < Pow2(n)
    ensures MsbValue(MsbBits(v, n)) == v
  {
    if n == 0 {
    } else {
      MsbValueOf(v / 2, n - 1);
      assert MsbBits(v, n)[..n - 1] == MsbBits(v / 2, n - 1);
    }
  }

  /** The first `n` of the `n + m` most-significant-first bits of `v` are those of `v >> m`. */
  lemma {:induction false} MsbPrefix(v: nat, n: nat, m: nat)
    ensures MsbBits(v, n + m)[..n] == MsbBits(v / Pow2(m), n)
    ensures MsbBits(v, n + m)[n..] == MsbBits(v, m)
    decreases m
  {
    if m == 0 {
    } else {
      MsbPrefix(v / 2, n, m - 1);
      assert v / 2 / Pow2(m - 1) == v / Pow2(m) by { DivDiv(v, 2, Pow2(m - 1)); }
    }
  }

  lemma MulMonotone(a: int, b: int, c: nat)
    requires a <= b
    ensures a * c <= b * c
  {
  }

  lemma QuotientUnique(v: nat, d: nat, q: int, r: nat)
    requires d > 0 && v == q * d + r && r < d
    ensures v / d == q && v % d == r
  {
    var q', r' := v / d, v % d;
    assert v == q' * d + r';
    if q >= q' + 1 {
      MulMonotone(q' + 1, q, d);
    } else if q' >= q + 1 {
      MulMonotone(q + 1, q', d);
    }
  }

  lemma DivDiv(v: nat, a: nat, b: nat)
    requires a > 0 && b > 0
    ensures a * b > 0 && v / a / b == v / (a * b)
  {
    var s, t := v / a, v % a;
    var q, u := s / b, s % b;
    assert v == s * a + t && s == q * b + u;
    assert v == q * (a * b) + (u * a + t);
    MulMonotone(u, b - 1, a);
    QuotientUnique(v, a * b, q, u * a + t);
  }

  lemma {:induction false} ShrDivides(a: nat, n: nat)
    ensures Shr(a, n) == a / Pow2(n)
  {
    if n > 0 {
      ShrDivides(a / 2, n - 1);
      DivDiv(a, 2, Pow2(n - 1));
    }
  }

  lemma {:induction false} LsbStreamAppend(a: seq<byte>, b: seq<byte>)
    ensures LsbStream(a + b) == LsbStream(a) + LsbStream(b)
  {
    hide LsbBits;
    if |a| == 0 {
      assert a + b == b;
    } else {
      LsbStreamAppend(a[1..], b);
      assert (a + b)[1..] == a[1..] + b;
    }
  }

  lemma {:induction false} MsbStreamAppend(a: seq<byte>, b: seq<byte>)
    ensures MsbStream(a + b) == MsbStream(a) + MsbStream(b)
  {
    hide MsbBits;
    if |a| == 0 {
      assert a + b == b;
    } else {
      MsbStreamAppend(a[1..], b);
      assert (a + b)[1..] == a[1..] + b;
    }
  }

  /** Or-ing a shifted code above a smaller buffer adds it. */
  lemma {:induction false} BitOrAbove(a: nat, b: nat, n: nat)
    requires a < Pow2(n)
    ensures BitOr(a, b * Pow2(n)) == a + b * Pow2(n)
  {
    if n == 0 || a == 0 {
    } else {
      var c := b * Pow2(n);
      var half := b * Pow2(n - 1);
      assert c == 2 * half;
      BitOrAbove(a / 2, b, n - 1);
      if c != 0 {
        assert c / 2 == half && c % 2 == 0;
      }
    }
  }

  lemma {:induction false} BitOrCommutes(a: nat, b: nat)
    ensures BitOr(a, b) == BitOr(b, a)
  {
    if a != 0 && b != 0 { BitOrCommutes(a / 2, b / 2); }
  }

  /** High bits and low bits that do not meet. */
  lemma Glue(high: nat, low: nat, n: nat)
    requires low < Pow2(n)
    ensures BitOr(high * Pow2(n), low) == high * Pow2(n) + low
  {
    BitOrCommutes(high * Pow2(n), low);
    BitOrAbove(low, high, n);
  }
}
