/** The checksum loop of stbi_zlib_compress: the modulo is taken once per block of 5552 bytes. */
module Adler32 {
  import opened Bytes
  import opened Inflate

  const NMAX: nat := 5552

  /** Twice the largest value s2 can have after `i` bytes of a block. */
  function DoubleS2Bound(i: nat): nat {
    2 * 65520 * (i + 1) + 255 * (i * (i + 1))
  }

  lemma BoundSteps(i: nat, s1: nat, s2: nat)
    requires s1 <= 65520 + 255 * (i + 1) && 2 * s2 <= DoubleS2Bound(i)
    ensures 2 * (s2 + s1) <= DoubleS2Bound(i + 1)
  {
  }

  /** 5552 is the last block length that cannot overflow 32 bits. */
  lemma BoundFits(i: nat)
    ensures i <= NMAX ==> DoubleS2Bound(i) < 2 * WORD
    ensures i > NMAX ==> DoubleS2Bound(i) >= 2 * WORD
  {
    if i <= NMAX {
      MulMonotone(i, NMAX, i + 1);
      MulMonotone(i + 1, NMAX + 1, NMAX);
    } else {
      MulMonotone(NMAX + 1, i, i + 1);
      MulMonotone(NMAX + 2, i + 1, NMAX + 1);
    }
  }

  /** The sums after the bytes of a block, without a modulo. */
  function Sums(data: seq<byte>, s1: nat, s2: nat): (r: (nat, nat))
    decreases |data|
  {
    if data == [] then (s1, s2) else
    var (t1, t2) := Sums(data[..|data| - 1], s1, s2);
    var u := t1 + data[|data| - 1];
    (u, t2 + u)
  }

  lemma {:induction false} SumsBounded(data: seq<byte>, s1: nat, s2: nat)
    requires s1 < ADLER_BASE && s2 < ADLER_BASE
    ensures Sums(data, s1, s2).0 <= 65520 + 255 * |data| && 2 * Sums(data, s1, s2).1 <= DoubleS2Bound(|data|)
    decreases |data|
  {
    if data == [] {
      assert DoubleS2Bound(0) == 2 * 65520;
    } else {
      var n := |data| - 1;
      SumsBounded(data[..n], s1, s2);
      hide DoubleS2Bound;
      var t := Sums(data[..n], s1, s2);
      BoundSteps(n, t.0 + data[n], t.1);
    }
  }

  function Full(n: nat): (r: seq<byte>)
    ensures |r| == n
  {
    seq(n, _ => 255)
  }

  /** Bytes of 255 after the largest reduced sums reach the bound. */
  lemma {:induction false} BoundAttained(n: nat)
    ensures Sums(Full(n), 65520, 65520).0 == 65520 + 255 * n
    ensures 2 * Sums(Full(n), 65520, 65520).1 == DoubleS2Bound(n)
  {
    if n > 0 {
      BoundAttained(n - 1);
      assert Full(n)[..n - 1] == Full(n - 1);
    }
  }

  /** A block can be summed without wrapping 32 bits, whatever its bytes and the reduced sums before it, exactly when it
      has at most 5552 bytes. */
  lemma BlockLengthIsLargest(n: nat)
    ensures (forall data: seq<byte>, s1: nat, s2: nat :: |data| == n && s1 < ADLER_BASE && s2 < ADLER_BASE ==>
               Sums(data, s1, s2).1 < WORD)
            <==> n <= NMAX
  {
    BoundFits(n);
    hide DoubleS2Bound, Sums;
    if n <= NMAX {
      forall data: seq<byte>, s1: nat, s2: nat | |data| == n && s1 < ADLER_BASE && s2 < ADLER_BASE
        ensures Sums(data, s1, s2).1 < WORD { SumsBounded(data, s1, s2); }
    } else {
      BoundAttained(n);
      assert Sums(Full(n), 65520, 65520).1 >= WORD;
    }
  }

  lemma ModSum(a: nat, b: nat, m: nat)
    requires m > 0
    ensures (a + b) % m == (a % m + b) % m && (a + b) % m == (a + b % m) % m
  {
    hide *;
    ModLeft(a, b, m);
    ModLeft(b, a, m);
  }

  lemma ModLeft(a: nat, b: nat, m: nat)
    requires m > 0
    ensures (a + b) % m == (a % m + b) % m
  {
    ModShift(a % m + b, a / m, m);
    Euclid(a, m);
  }

  lemma Euclid(a: nat, m: nat)
    requires m > 0
    ensures a == a % m + (a / m) * m
  {
  }

  lemma ModShift(x: nat, k: nat, m: nat)
    requires m > 0
    ensures (x + k * m) % m == x % m
  {
    assert x + k * m == (x / m + k) * m + x % m;
    QuotientUnique(x + k * m, m, x / m + k, x % m);
  }

  /** Sums congruent to the checksum before a byte are congruent to it after. */
  lemma StepCongruent(data: seq<byte>, at: nat, s1: nat, s2: nat)
    requires at < |data|
    requires s1 % ADLER_BASE == AdlerOf(data[..at]).s1 && s2 % ADLER_BASE == AdlerOf(data[..at]).s2
    ensures var t1 := s1 + data[at]; var t2 := s2 + t1;
      Adler(t1 % ADLER_BASE, t2 % ADLER_BASE) == AdlerOf(data[..at + 1])
  {
    assert data[..at + 1][..at] == data[..at];
    var t1 := s1 + data[at];
    ModSum(s1, data[at], ADLER_BASE);
    ModSum(s2, t1, ADLER_BASE);
    ModSum(s2 % ADLER_BASE, t1, ADLER_BASE);
  }

  /** One byte: the running sums stay congruent to the checksum's and inside 32 bits. */
  method AddByte(data: seq<byte>, at: nat, i: nat, s1: nat, s2: nat) returns (t1: nat, t2: nat)
    requires at < |data| && i < NMAX
    requires s1 <= 65520 + 255 * i && 2 * s2 <= DoubleS2Bound(i)
    requires s1 % ADLER_BASE == AdlerOf(data[..at]).s1 && s2 % ADLER_BASE == AdlerOf(data[..at]).s2
    ensures t1 == s1 + data[at] && t2 == s2 + t1
    ensures t1 <= 65520 + 255 * (i + 1) && 2 * t2 <= DoubleS2Bound(i + 1)
    ensures t1 % ADLER_BASE == AdlerOf(data[..at + 1]).s1 && t2 % ADLER_BASE == AdlerOf(data[..at + 1]).s2
  {
    hide DoubleS2Bound, AdlerOf;
    BoundSteps(i, s1 + data[at], s2);
    BoundFits(i + 1);
    t1 := (s1 + data[at]) % WORD;
    t2 := (s2 + t1) % WORD;
    StepCongruent(data, at, s1, s2);
  }

  /** The first block may be empty; the loop still ends and computes RFC 1950's checksum. */
  method Sum(data: seq<byte>) returns (s1: nat, s2: nat)
    ensures Adler(s1, s2) == AdlerOf(data)
  {
    hide DoubleS2Bound, AdlerOf;
    s1, s2 := 1, 0;
    var blocklen: nat := |data| % NMAX;
    var j := 0;
    assert AdlerOf(data[..0]) == Adler(1, 0) by { EmptySum(data[..0]); }
    while j < |data|
      invariant j <= |data| && blocklen <= NMAX
      invariant (|data| - j) % NMAX == blocklen % NMAX
      invariant blocklen == NMAX || j == 0
      invariant Adler(s1, s2) == AdlerOf(data[..j])
      decreases |data| - j, if blocklen == 0 then 1 else 0
    {
      assert j + blocklen <= |data|;
      BlockStart(s1, s2);
      for i := 0 to blocklen
        invariant s1 <= 65520 + 255 * i && 2 * s2 <= DoubleS2Bound(i)
        invariant s1 % ADLER_BASE == AdlerOf(data[..j + i]).s1 && s2 % ADLER_BASE == AdlerOf(data[..j + i]).s2
      {
        s1, s2 := AddByte(data, j + i, i, s1, s2);
      }
      s1, s2 := s1 % ADLER_BASE, s2 % ADLER_BASE;
      j := j + blocklen;
      blocklen := NMAX;
    }
    assert data[..j] == data;
  }

  lemma EmptySum(data: seq<byte>)
    requires data == []
    ensures AdlerOf(data) == Adler(1, 0)
  {
  }

  lemma BlockStart(s1: nat, s2: nat)
    requires s1 < ADLER_BASE && s2 < ADLER_BASE
    ensures 2 * s2 <= DoubleS2Bound(0) && s1 % ADLER_BASE == s1 && s2 % ADLER_BASE == s2
  {
  }
}
