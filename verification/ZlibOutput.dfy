/** The compressor's output: a stretchy byte buffer behind an LSB-first bit buffer. */
module ZlibOutput {
  import opened Bytes

  class Output {
    var out: seq<byte>
    /** Allocated size of `out` (stbiw__sbm); 0 while the pointer is still NULL. */
    var cap: nat
    /** An `unsigned int` holding `bitcount` pending bits, the next one lowest. */
    var bitbuf: nat
    var bitcount: nat

    ghost predicate ValidBuffer()
      reads this
    {
      (cap == 0 ==> out == []) && (cap > 0 ==> |out| < cap) && bitbuf < Pow2(bitcount)
    }

    ghost predicate Valid()
      reads this
    {
      ValidBuffer() && bitcount < 8
    }

    /** Every bit added so far: the bytes already flushed, then the pending bits. */
    ghost function Stream(): seq<bool>
      reads this
    {
      LsbStream(out) + LsbBits(bitbuf, bitcount)
    }

    constructor ()
      ensures Valid() && out == [] && cap == 0 && bitcount == 0 && bitbuf == 0
    {
      out, cap, bitbuf, bitcount := [], 0, 0, 0;
    }

    /** stbiw__sbpush: grows first when the new element would reach the capacity. */
    method Push(v: byte)
      requires ValidBuffer()
      modifies `out, `cap
      ensures ValidBuffer() && out == old(out) + [v]
      ensures cap == if old(cap) > 0 && |old(out)| + 1 < old(cap) then old(cap)
                     else if old(cap) > 0 then 2 * old(cap) + 1 else 2
    {
      if cap == 0 || |out| + 1 >= cap {
        cap := if cap > 0 then 2 * cap + 1 else 2;
      }
      out := out + [v];
    }

    /** The memcpy of a stored block: nothing is grown, so the bytes must already fit. */
    method CopyIn(bytes: seq<byte>)
      requires ValidBuffer() && |out| + |bytes| < cap
      modifies `out
      ensures ValidBuffer() && out == old(out) + bytes
    {
      out := out + bytes;
    }

    /** Cuts the output back; the allocation stays. */
    method Truncate(n: nat)
      requires ValidBuffer() && n <= |out|
      modifies `out
      ensures ValidBuffer() && out == old(out)[..n]
    {
      out := out[..n];
    }

    /** One byte moves out of the bit buffer. */
    method FlushByte()
      requires ValidBuffer() && bitcount >= 8
      modifies this
      ensures ValidBuffer() && Stream() == old(Stream())
      ensures bitcount == old(bitcount) - 8 && |out| == |old(out)| + 1 && cap >= old(cap)
    {
      hide LsbBits, LsbStream, Pow2;
      LowByte(out, bitbuf, bitcount);
      ShrDivides(bitbuf, 8);
      Push(bitbuf % 256);
      bitbuf := Shr(bitbuf, 8);
      bitcount := bitcount - 8;
    }

    /** stbiw__zlib_flushf: moves whole bytes out of the bit buffer. */
    method Flush()
      requires ValidBuffer()
      modifies this
      ensures Valid() && Stream() == old(Stream())
      ensures bitcount == old(bitcount) % 8 && |out| == |old(out)| + old(bitcount) / 8
      ensures cap >= old(cap)
    {
      hide LsbBits, LsbStream;
      ghost var n: nat := 0;
      while bitcount >= 8
        invariant ValidBuffer() && Stream() == old(Stream())
        invariant old(bitcount) == bitcount + 8 * n && |out| == |old(out)| + n
        invariant cap >= old(cap)
      {
        FlushByte();
        n := n + 1;
      }
      QuotientIs(old(bitcount), n, bitcount);
    }

    /** stbiw__zlib_add. The code and the pending bits must fit the 32-bit buffer together. */
    method Add(code: nat, codebits: nat)
      requires Valid() && code < Pow2(codebits) && codebits <= 24
      modifies this
      ensures Valid() && Stream() == old(Stream()) + LsbBits(code, codebits)
      ensures bitcount == (old(bitcount) + codebits) % 8
      ensures |out| == |old(out)| + (old(bitcount) + codebits) / 8
      ensures cap >= old(cap)
    {
      hide LsbBits, LsbStream, Pow2;
      OrIntoBuffer(bitbuf, bitcount, code, codebits);
      bitbuf := BitOr(bitbuf, Shl32(code, bitcount));
      bitcount := bitcount + codebits;
      assert Stream() == old(Stream()) + LsbBits(code, codebits);
      Flush();
    }
  }

  /** Or-ing a code above the pending bits appends it, and no bit is shifted out of the 32. */
  lemma OrIntoBuffer(bitbuf: nat, bitcount: nat, code: nat, codebits: nat)
    requires bitbuf < Pow2(bitcount) && code < Pow2(codebits) && bitcount + codebits <= 32
    ensures var r := BitOr(bitbuf, Shl32(code, bitcount));
      r < Pow2(bitcount + codebits) && LsbBits(r, bitcount + codebits) == LsbBits(bitbuf, bitcount) + LsbBits(code, codebits)
  {
    hide *;
    NothingShiftedOut(bitcount, code, codebits);
    BitOrAbove(bitbuf, code, bitcount);
    LsbSplit(bitbuf, code, bitcount, codebits);
  }

  lemma NothingShiftedOut(bitcount: nat, code: nat, codebits: nat)
    requires code < Pow2(codebits) && bitcount + codebits <= 32
    ensures Shl32(code, bitcount) == code * Pow2(bitcount)
    ensures code * Pow2(bitcount) + Pow2(bitcount) <= Pow2(bitcount + codebits)
  {
    hide *;
    WordIsPow2();
    Pow2Monotone(bitcount + codebits, 32);
    Pow2Add(bitcount, codebits);
    Below(code, Pow2(codebits), Pow2(bitcount));
    ShiftFits(code, bitcount);
  }

  lemma ShiftFits(v: nat, s: nat)
    requires v * Pow2(s) < WORD
    ensures Shl32(v, s) == v * Pow2(s)
  {
    SmallRemainder(v * Pow2(s), WORD);
  }

  lemma WordIsPow2()
    ensures Pow2(32) == WORD
  {
    Pow2Values();
  }

  lemma Below(a: nat, b: nat, p: nat)
    requires a < b
    ensures a * p + p <= p * b && a * p + p <= b * p
  {
    MulMonotone(a + 1, b, p);
  }

  lemma SmallRemainder(v: nat, m: nat)
    requires v < m
    ensures v % m == v
  {
  }

  lemma QuotientIs(v: nat, q: nat, r: nat)
    requires v == r + 8 * q && r < 8
    ensures v / 8 == q && v % 8 == r
  {
  }

  lemma QuotientBelow(v: nat, d: nat, limit: nat)
    requires d > 0 && v < d * limit
    ensures v / d < limit
  {
    if v / d >= limit {
      MulMonotone(limit, v / d, d);
    }
  }

  lemma LowByte(out: seq<byte>, bitbuf: nat, bitcount: nat)
    requires bitcount >= 8 && bitbuf < Pow2(bitcount)
    ensures bitbuf / 256 == bitbuf / Pow2(8) && bitbuf / 256 < Pow2(bitcount - 8)
    ensures LsbStream(out + [bitbuf % 256]) + LsbBits(bitbuf / 256, bitcount - 8)
            == LsbStream(out) + LsbBits(bitbuf, bitcount)
  {
    hide LsbBits, Pow2;
    Pow2Values();
    var low, high := bitbuf % 256, bitbuf / 256;
    Pow2Add(8, bitcount - 8);
    LsbSplit(low, high, 8, bitcount - 8);
    LsbStreamAppend(out, [low]);
    assert LsbStream([low]) == LsbBits(low, 8);
    QuotientBelow(bitbuf, 256, Pow2(bitcount - 8));
  }
}
