/** The uncompressed fallback of stbi_zlib_compress (RFC 1951 section 3.2.4). */
module StoredBlocks {
  import opened Prelude
  import opened Bytes
  import opened ZlibOutput
  import Inflate

  const BLOCK: nat := 32767

  function Min(a: nat, b: nat): nat { if a < b then a else b }

  /** BFINAL and BTYPE in one byte, LEN, and NLEN = ~LEN, each low byte first. */
  function BlockHeader(blocklen: nat, last: bool): (h: seq<byte>)
    requires blocklen <= BLOCK
    ensures |h| == 5
  {
    [if last then 1 else 0, blocklen % 256, blocklen / 256, 255 - blocklen % 256, 255 - blocklen / 256]
  }

  function Stored(data: seq<byte>): (r: seq<byte>)
    ensures |r| == |data| + 5 * ((|data| + 32766) / 32767)
  {
    if |data| == 0 then [] else
    var n := Min(|data|, BLOCK);
    BlockHeader(n, n == |data|) + data[..n] + Stored(data[n..])
  }

  /** The loop that writes them; nothing is reallocated, because the room is already there. */
  method StoreBlocks(o: Output, data: seq<byte>)
    requires o.ValidBuffer() && |o.out| + |Stored(data)| + 1 < o.cap
    modifies o`out, o`cap
    ensures o.ValidBuffer() && o.out == old(o.out) + Stored(data) && o.cap == old(o.cap)
  {
    hide Stored, BlockHeader;
    var j := 0;
    assert data[0..] == data;
    while j < |data|
      invariant 0 <= j <= |data| && o.ValidBuffer() && o.cap == old(o.cap)
      invariant o.out + Stored(data[j..]) == old(o.out) + Stored(data)
    {
      var blocklen := |data| - j;
      if blocklen > 32767 { blocklen := 32767; }
      StoredUnfold(data, j);
      PushHeader(o, blocklen, |data| - j == blocklen);
      o.CopyIn(data[j..j + blocklen]);
      j := j + blocklen;
    }
    assert Stored(data[j..]) == [] by { NothingStored(data[j..]); }
  }

  lemma NothingStored(data: seq<byte>)
    requires data == []
    ensures Stored(data) == []
  {
  }

  lemma StoredUnfold(data: seq<byte>, j: nat)
    requires j < |data|
    ensures var n := Min(|data| - j, BLOCK);
      Stored(data[j..]) == BlockHeader(n, |data| - j == n) + (data[j..j + n] + Stored(data[j + n..]))
  {
    hide BlockHeader;
    var n := Min(|data| - j, BLOCK);
    assert data[j..][..n] == data[j..j + n] && data[j..][n..] == data[j + n..];
  }

  method PushHeader(o: Output, blocklen: nat, last: bool)
    requires o.ValidBuffer() && blocklen <= BLOCK && |o.out| + 6 < o.cap
    modifies o`out, o`cap
    ensures o.ValidBuffer() && o.cap == old(o.cap) && o.out == old(o.out) + BlockHeader(blocklen, last)
  {
    var complement: int := -1 - blocklen;
    o.Push(if last then 1 else 0);
    o.Push(blocklen % 256);
    o.Push(blocklen / 256 % 256);
    o.Push(complement % 256);
    o.Push(complement / 256 % 256);
    HeaderPushed(old(o.out), o.out, blocklen, last);
  }

  lemma HeaderPushed(before: seq<byte>, after: seq<byte>, blocklen: nat, last: bool)
    requires blocklen <= BLOCK
    requires after == before + [if last then 1 else 0] + [blocklen % 256] + [blocklen / 256 % 256]
      + [(-1 - blocklen) % 256] + [(-1 - blocklen) / 256 % 256]
    ensures after == before + BlockHeader(blocklen, last)
  {
    hide Pow2;
  }

  // ---- The decoder undoes it ----

  lemma {:induction false} BytesOfStream(data: seq<byte>, rest: seq<bool>)
    ensures Inflate.BytesOf(LsbStream(data) + rest, |data|) == data
  {
    if |data| == 0 {
    } else {
      hide LsbBits, LsbValue;
      var bits := LsbStream(data) + rest;
      assert bits[..8] == LsbBits(data[0], 8);
      assert bits[8..] == LsbStream(data[1..]) + rest;
      Pow2Values();
      LsbValueOf(data[0], 8);
      BytesOfStream(data[1..], rest);
    }
  }

  /** Bits of the five header bytes: one final bit, two zero type bits, padding, LEN, NLEN. */
  lemma HeaderBits(blocklen: nat, last: bool)
    requires blocklen <= BLOCK
    ensures var h := LsbStream(BlockHeader(blocklen, last));
      h[0] == last && LsbValue(h[1..3]) == 0 && LsbValue(h[8..24]) == blocklen && LsbValue(h[24..40]) == 65535 - blocklen
  {
    var h := BlockHeader(blocklen, last);
    assert h[0] == (if last then 1 else 0) && h[1] as int + 256 * h[2] as int == blocklen;
    assert h[3] as int + 256 * h[4] as int == 65535 - blocklen;
    FiveBytes(h);
    FlagByte(last);
    hide *;
    TwoBytes(h[1], h[2]);
    TwoBytes(h[3], h[4]);
    FiveParts(LsbBits(h[0], 8), LsbBits(h[1], 8), LsbBits(h[2], 8), LsbBits(h[3], 8), LsbBits(h[4], 8));
  }

  lemma FiveParts(a: seq<bool>, b: seq<bool>, c: seq<bool>, d: seq<bool>, e: seq<bool>)
    requires |a| == |b| == |c| == |d| == |e| == 8
    ensures var bits := a + b + c + d + e;
      bits[0] == a[0] && bits[1..3] == a[1..3] && bits[8..24] == b + c && bits[24..40] == d + e
  {
  }

  lemma FiveBytes(h: seq<byte>)
    requires |h| == 5
    ensures LsbStream(h) == LsbBits(h[0], 8) + LsbBits(h[1], 8) + LsbBits(h[2], 8) + LsbBits(h[3], 8) + LsbBits(h[4], 8)
  {
    hide LsbBits;
    assert h == [h[0]] + [h[1]] + [h[2]] + [h[3]] + [h[4]];
    LsbStreamAppend([h[0]] + [h[1]] + [h[2]] + [h[3]], [h[4]]);
    LsbStreamAppend([h[0]] + [h[1]] + [h[2]], [h[3]]);
    LsbStreamAppend([h[0]] + [h[1]], [h[2]]);
    LsbStreamAppend([h[0]], [h[1]]);
  }

  lemma FlagByte(last: bool)
    ensures var bits := LsbBits(if last then 1 else 0, 8); bits[0] == last && LsbValue(bits[1..3]) == 0
  {
    var b: nat := if last then 1 else 0;
    assert LsbBits(b, 8) == [b % 2 == 1] + LsbBits(0, 7);
    assert LsbBits(0, 7) == [false] + ([false] + LsbBits(0, 5));
    assert LsbBits(b, 8)[1..3] == [false, false];
    assert [false, false][1..] == [false] && [false][1..] == [];
  }

  lemma TwoBytes(a: byte, b: byte)
    ensures LsbValue(LsbBits(a, 8) + LsbBits(b, 8)) == a + 256 * b
  {
    hide LsbBits, LsbValue;
    Pow2Values();
    var v: nat := a as int + 256 * b as int;
    assert v == a + b * Pow2(8);
    LsbSplit(a, b, 8, 8);
    LsbValueOf(v, 16);
  }

  /** Stored data decodes to itself, whatever follows; `tail` is what comes after the last block. */
  lemma {:induction false} DecodeStored(data: seq<byte>, out: seq<byte>, tail: seq<byte>)
    requires |data| > 0
    ensures Inflate.DecodeBlocks(LsbStream(Stored(data) + tail), out) == Some((out + data, LsbStream(tail)))
    decreases |data|
  {
    hide BlockHeader, LsbStream, Inflate.DecodeBlocks, Stored;
    var n := Min(|data|, BLOCK);
    var header, block, more := BlockHeader(n, n == |data|), data[..n], Stored(data[n..]) + tail;
    StoredUnfold(data, 0);
    assert data[0..] == data && data[0..n] == block && data[0 + n..] == data[n..];
    assert Stored(data) + tail == header + (block + more);
    LsbStreamAppend(header, block + more);
    LsbStreamAppend(block, more);
    OneBlock(n, n == |data|, block, out, more);
    if n < |data| {
      DecodeStored(data[n..], out + block, tail);
      assert out + block + data[n..] == out + data;
    } else {
      NothingStored(data[n..]);
      assert block == data && more == tail;
    }
  }

  lemma OneBlock(n: nat, last: bool, block: seq<byte>, out: seq<byte>, more: seq<byte>)
    requires n <= BLOCK && |block| == n
    ensures var bits := LsbStream(BlockHeader(n, last)) + (LsbStream(block) + LsbStream(more));
      Inflate.DecodeBlocks(bits, out) ==
      if last then Some((out + block, LsbStream(more))) else Inflate.DecodeBlocks(LsbStream(more), out + block)
  {
    hide BlockHeader, LsbStream, LsbValue, Inflate.DecodeStored;
    var h, body := LsbStream(BlockHeader(n, last)), LsbStream(block) + LsbStream(more);
    HeaderBits(n, last);
    var bits := h + body;
    assert bits[1..3] == h[1..3] && bits[0] == last;
    OneBody(n, h, block, out, more);
  }

  lemma OneBody(n: nat, h: seq<bool>, block: seq<byte>, out: seq<byte>, more: seq<byte>)
    requires n <= BLOCK && |block| == n && |h| == 40
    requires LsbValue(h[8..24]) == n && LsbValue(h[24..40]) == 65535 - n
    ensures Inflate.DecodeStored((h + (LsbStream(block) + LsbStream(more)))[3..], out)
            == Some((out + block, LsbStream(more)))
  {
    hide LsbStream, LsbValue, Inflate.BytesOf;
    var body := LsbStream(block) + LsbStream(more);
    AfterHeader(h, body);
    BytesOfStream(block, LsbStream(more));
    RestOf(LsbStream(block), LsbStream(more), 8 * n);
  }

  /** The decoder skips to the next byte, and finds the two lengths there. */
  lemma AfterHeader(h: seq<bool>, body: seq<bool>)
    requires |h| == 40 && |body| % 8 == 0
    ensures var bits := (h + body)[3..];
      |bits| % 8 == 5 && bits[5..][..16] == h[8..24] && bits[5..][16..32] == h[24..40] && bits[5..][32..] == body
  {
    assert (h + body)[3..][5..] == (h + body)[8..];
  }

  lemma RestOf(a: seq<bool>, b: seq<bool>, n: nat)
    requires n == |a|
    ensures (a + b)[n..] == b
  {
  }
}
