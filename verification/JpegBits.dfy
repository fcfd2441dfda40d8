/** stbiw__jpg_writeBits: a 24-bit MSB-first buffer with byte stuffing. */
module JpegBits {
  import opened Prelude
  import opened Bytes

  // ---- Byte stuffing (section F.1.2.3 of ITU-T T.81) ----

  /** The bytes written for the bytes `raw`: each FF is followed by 00. */
  function Stuff(raw: seq<byte>): seq<byte> {
    if |raw| == 0 then [] else
    Stuff(raw[..|raw| - 1]) + (if raw[|raw| - 1] == 255 then [255, 0] else [raw[|raw| - 1]])
  }

  /** A reader's side: FF 00 stands for FF, and FF with anything else is a marker. */
  function Unstuff(s: seq<byte>): Option<seq<byte>>
    decreases |s|
  {
    if |s| == 0 then Some([]) else
    if s[0] == 255 && (|s| == 1 || s[1] != 0) then None else
    match Unstuff(s[if s[0] == 255 then 2 else 1..])
    case None => None
    case Some(rest) => Some([s[0]] + rest)
  }

  lemma {:induction false} UnstuffAppend(a: seq<byte>, b: seq<byte>)
    requires Unstuff(a).Some? && Unstuff(b).Some?
    ensures Unstuff(a + b) == Some(Unstuff(a).value + Unstuff(b).value)
    decreases |a|
  {
    if |a| == 0 {
      assert a + b == b && [] + Unstuff(b).value == Unstuff(b).value;
    } else {
      var k := if a[0] == 255 then 2 else 1;
      var rest := a[k..];
      UnstuffAppend(rest, b);
      assert (a + b)[k..] == rest + b && (a + b)[0] == a[0];
      if k == 2 { assert (a + b)[1] == a[1]; }
      UnfoldUnstuff(a, k);
      UnfoldUnstuff(a + b, k);
      hide Unstuff;
      assert [a[0]] + (Unstuff(rest).value + Unstuff(b).value) == [a[0]] + Unstuff(rest).value + Unstuff(b).value;
    }
  }

  lemma UnfoldUnstuff(s: seq<byte>, k: nat)
    requires 1 <= k <= 2 && k <= |s| && (if s[0] == 255 then k == 2 && s[1] == 0 else k == 1)
    ensures Unstuff(s) == match Unstuff(s[k..]) case None => None case Some(rest) => Some([s[0]] + rest)
  {
  }

  lemma {:induction false} UnstuffStuff(raw: seq<byte>)
    ensures Unstuff(Stuff(raw)) == Some(raw)
  {
    if |raw| > 0 {
      var c := raw[|raw| - 1];
      var last: seq<byte> := if c == 255 then [255, 0] else [c];
      UnstuffStuff(raw[..|raw| - 1]);
      UnfoldUnstuff(last, |last|);
      assert last[|last|..] == [] && [c] + [] == [c];
      UnstuffAppend(Stuff(raw[..|raw| - 1]), last);
      assert raw == raw[..|raw| - 1] + [c];
    }
  }

  /** No FF is left without its 00. */
  lemma {:induction false} EveryFFIsStuffed(raw: seq<byte>, k: nat)
    requires k < |Stuff(raw)| && Stuff(raw)[k] == 255
    ensures k + 1 < |Stuff(raw)| && Stuff(raw)[k + 1] == 0
  {
    var before := Stuff(raw[..|raw| - 1]);
    if k < |before| {
      EveryFFIsStuffed(raw[..|raw| - 1], k);
    }
  }

  // ---- MSB-first values ----

  lemma {:induction false} MsbSplit(v: nat, code: nat, m: nat, n: nat)
    requires code < Pow2(n)
    ensures MsbBits(v * Pow2(n) + code, m + n) == MsbBits(v, m) + MsbBits(code, n)
  {
    if n == 0 {
      assert MsbBits(v, m) + MsbBits(code, 0) == MsbBits(v, m);
    } else {
      var whole := v * Pow2(n) + code;
      assert v * Pow2(n) == 2 * (v * Pow2(n - 1));
      assert whole / 2 == v * Pow2(n - 1) + code / 2 && whole % 2 == code % 2;
      MsbSplit(v, code / 2, m, n - 1);
      assert MsbBits(v, m) + (MsbBits(code / 2, n - 1) + [code % 2 == 1])
          == MsbBits(v, m) + MsbBits(code / 2, n - 1) + [code % 2 == 1];
    }
  }

  const TOP: nat := 0x100_0000

  /** The buffer holds `pending`, `bitCnt` bits wide, just below bit 24; above it is what was already written. */
  ghost predicate Holds(bitBuf: nat, bitCnt: nat, pending: nat) {
    && bitBuf < WORD && bitCnt <= 24
    && pending < Pow2(bitCnt)
    && bitBuf % TOP == pending * Pow2(24 - bitCnt)
  }

  /** Or-ing a code below the pending bits appends it to their value. */
  lemma OrPending(bitBuf: nat, bitCnt: nat, pending: nat, code: nat, n: nat, shifted: nat, value: nat)
    requires Holds(bitBuf, bitCnt, pending) && code < Pow2(n) && bitCnt + n <= 24
    requires shifted == code * Pow2(24 - bitCnt - n) && value == pending * Pow2(n) + code
    ensures Holds(BitOr(bitBuf, shifted), bitCnt + n, value)
  {
    hide Pow2, BitOr;
    var k, j := 24 - bitCnt - n, 24 - bitCnt;
    Pow2Values();
    Pow2Add(n, k);
    Pow2Add(bitCnt, j);
    Pow2Add(bitCnt, n);
    var b := OrArithmetic(bitBuf, pending, code, Pow2(bitCnt), Pow2(n), Pow2(k), Pow2(j), shifted, value);
    hide Holds;
    OrIsSum(bitBuf, b, shifted, j);
    HoldsSum(shifted + bitBuf, bitCnt + n, value);
  }

  lemma OrIsSum(bitBuf: nat, b: nat, c: nat, j: nat)
    requires bitBuf == b * Pow2(j) && c < Pow2(j)
    ensures BitOr(bitBuf, c) == c + bitBuf
  {
    hide Pow2, BitOr;
    BitOrAbove(c, b, j);
    BitOrCommutes(bitBuf, c);
  }

  lemma HoldsSum(bitBuf: nat, bitCnt: nat, pending: nat)
    requires bitBuf < WORD && bitCnt <= 24 && pending < Pow2(bitCnt) && bitBuf % TOP == pending * Pow2(24 - bitCnt)
    ensures Holds(bitBuf, bitCnt, pending)
  {
  }

  /** With `r = p * q` and `w * r = 2^24`, the code fits exactly under the pending bits. */
  lemma OrArithmetic(bitBuf: nat, pending: nat, code: nat, w: nat, p: nat, q: nat, r: nat, shifted: nat, value: nat)
    returns (b: nat)
    requires bitBuf < WORD && bitBuf % TOP == pending * r
    requires pending < w && code < p && r == p * q && w * r == TOP
    requires shifted == code * q && value == pending * p + code
    ensures bitBuf == b * r && shifted < r
    ensures shifted + bitBuf < WORD && (shifted + bitBuf) % TOP == value * q && value < w * p
  {
    b := bitBuf / TOP * w + pending;
    BufferIsShifted(bitBuf, bitBuf / TOP, w, pending, r);
    AppendBelow(pending, w, code, p, q, r);
    SumStaysInWord(bitBuf, pending * r, shifted);
    MulMonotone(pending + 1, w, p);
    assert (pending + 1) * p == pending * p + p;
  }

  lemma BufferIsShifted(bitBuf: nat, hi: nat, w: nat, pending: nat, r: nat)
    requires hi == bitBuf / TOP && bitBuf % TOP == pending * r && w * r == TOP
    ensures bitBuf == (hi * w + pending) * r
  {
    assert hi * w * r == hi * TOP;
  }

  lemma AppendBelow(pending: nat, w: nat, code: nat, p: nat, q: nat, r: nat)
    requires pending < w && code < p && r == p * q && w * r == TOP
    ensures code * q < r && pending * r + code * q < TOP
    ensures pending * r + code * q == (pending * p + code) * q
  {
    assert q > 0;
    MulMonotone(code + 1, p, q);
    MulMonotone(pending + 1, w, r);
    assert (code + 1) * q == code * q + q && (pending + 1) * r == pending * r + r;
  }

  lemma SumStaysInWord(bitBuf: nat, low: nat, more: nat)
    requires bitBuf < WORD && bitBuf % TOP == low && low + more < TOP
    ensures bitBuf + more < WORD && (bitBuf + more) % TOP == low + more
  {
  }

  /** The byte at bits 16 to 23 is the oldest eight pending bits; shifting it out keeps the rest. */
  lemma TakeByte(bitBuf: nat, bitCnt: nat, pending: nat)
    requires Holds(bitBuf, bitCnt, pending) && bitCnt >= 8
    ensures var c, rest := bitBuf / 65536 % 256, pending % Pow2(bitCnt - 8);
      && Holds(bitBuf * 256 % WORD, bitCnt - 8, rest)
      && MsbBits(pending, bitCnt) == MsbBits(c, 8) + MsbBits(rest, bitCnt - 8)
  {
    hide Pow2, MsbBits;
    var m := bitCnt - 8;
    Pow2Values();
    Pow2Add(m, 16 - m);
    Pow2Add(m, 8);
    Pow2Add(16 - m, 8);
    var c, rest := TakeArithmetic(bitBuf, pending, Pow2(m), Pow2(16 - m), Pow2(24 - m));
    HoldsSum(bitBuf * 256 % WORD, m, rest);
    hide Holds;
    MsbSplit(c, rest, 8, m);
  }

  lemma TakeArithmetic(bitBuf: nat, pending: nat, p: nat, q: nat, r: nat) returns (c: nat, rest: nat)
    requires bitBuf < WORD && bitBuf % TOP == pending * q && p > 0
    requires p * q == 65536 && r == q * 256 && pending < p * 256
    ensures c == bitBuf / 65536 % 256 && rest == pending % p && pending == c * p + rest
    ensures bitBuf * 256 % WORD < WORD && bitBuf * 256 % WORD % TOP == rest * r
  {
    c, rest := pending / p, pending % p;
    QuotientBound(pending, p, 256);
    SplitBuffer(bitBuf, pending, c, rest, p, q);
  }

  lemma QuotientBound(v: nat, p: nat, limit: nat)
    requires p > 0 && v < p * limit
    ensures v / p < limit
  {
    if v / p >= limit {
      MulMonotone(limit, v / p, p);
    }
  }

  lemma Expand(c: nat, p: nat, q: nat, rest: nat)
    ensures (c * p + rest) * q == c * (p * q) + rest * q
    ensures rest * (256 * q) == 256 * (rest * q)
  {
  }

  lemma SplitBuffer(bitBuf: nat, pending: nat, c: nat, rest: nat, p: nat, q: nat)
    requires bitBuf < WORD && bitBuf % TOP == pending * q && pending == c * p + rest
    requires p * q == 65536 && rest < p && c < 256
    ensures bitBuf / 65536 % 256 == c
    ensures bitBuf * 256 % WORD < WORD && bitBuf * 256 % WORD % TOP == rest * (256 * q)
  {
    Expand(c, p, q, rest);
    assert q > 0;
    MulMonotone(rest + 1, p, q);
    assert (rest + 1) * q == rest * q + q;
    ShiftOutByte(bitBuf, c, rest * q);
  }

  lemma ShiftOutByte(bitBuf: nat, c: nat, low: nat)
    requires bitBuf < WORD && bitBuf % TOP == c * 65536 + low && low < 65536 && c < 256
    ensures bitBuf / 65536 % 256 == c && bitBuf * 256 % WORD % TOP == 256 * low
  {
    var hi := bitBuf / TOP;
    assert bitBuf == hi * TOP + c * 65536 + low;
    assert bitBuf / 65536 == hi * 256 + c;
    assert bitBuf * 256 == hi * WORD + (c * TOP + 256 * low);
    assert bitBuf * 256 % WORD == c * TOP + 256 * low;
  }

  class BitWriter {
    var out: seq<byte>
    var bitBuf: nat
    var bitCnt: nat
    /** The bytes before stuffing, and the value of the pending bits. */
    ghost var raw: seq<byte>
    ghost var pending: nat

    ghost predicate ValidBuffer()
      reads this
    {
      out == Stuff(raw) && Holds(bitBuf, bitCnt, pending)
    }

    ghost predicate Valid()
      reads this
    {
      ValidBuffer() && bitCnt < 8
    }

    /** Every bit written so far, most significant bit first. */
    ghost function Stream(): seq<bool>
      reads this
    {
      MsbStream(raw) + MsbBits(pending, bitCnt)
    }

    constructor ()
      ensures Valid() && Stream() == [] && raw == [] && bitCnt == 0 && pending == 0
    {
      out, bitBuf, bitCnt, raw, pending := [], 0, 0, [], 0;
    }

    /** stbiw__jpg_writeBits. */
    method WriteBits(code: nat, n: nat)
      requires Valid() && code < Pow2(n) && n <= 16
      modifies this
      ensures Valid() && Stream() == old(Stream()) + MsbBits(code, n)
      ensures bitCnt == (old(bitCnt) + n) % 8
    {
      hide MsbBits, MsbStream, Pow2, Holds, Stuff;
      Merge(code, n);
      while bitCnt >= 8
        invariant ValidBuffer() && Stream() == old(Stream()) + MsbBits(code, n)
        invariant bitCnt % 8 == (old(bitCnt) + n) % 8
        decreases bitCnt
      {
        EmitByte();
      }
    }

    /** A code joins the buffer just below the bits that are still pending. */
    method Merge(code: nat, n: nat)
      requires Valid() && code < Pow2(n) && n <= 16
      modifies this
      ensures ValidBuffer() && Stream() == old(Stream()) + MsbBits(code, n)
      ensures bitCnt == old(bitCnt) + n
    {
      hide MsbBits, MsbStream, Pow2, Holds, Stuff, BitOr, Shl32;
      CodeFits(bitCnt, code, n);
      ghost var value := pending * Pow2(n) + code;
      OrPending(bitBuf, bitCnt, pending, code, n, Shl32(code, 24 - bitCnt - n), value);
      MsbSplit(pending, code, bitCnt, n);
      bitCnt := bitCnt + n;
      bitBuf := BitOr(bitBuf, Shl32(code, 24 - bitCnt));
      pending := value;
    }

    method EmitByte()
      requires ValidBuffer() && bitCnt >= 8
      modifies this
      ensures ValidBuffer() && Stream() == old(Stream()) && bitCnt == old(bitCnt) - 8
    {
      hide MsbBits, MsbStream, Pow2, Holds, Stuff;
      TakeByte(bitBuf, bitCnt, pending);
      TakeFromStream(raw, bitCnt, pending, bitBuf / 65536 % 256);
      var c := bitBuf / 65536 % 256;
      out := out + [c];
      if c == 255 {
        out := out + [0];
      }
      StuffSnoc(raw, c);
      ghost var rest := pending % Pow2(bitCnt - 8);
      raw := raw + [c];
      bitBuf := bitBuf * 256 % WORD;
      bitCnt := bitCnt - 8;
      pending := rest;
    }
  }

  lemma StuffSnoc(raw: seq<byte>, c: byte)
    ensures Stuff(raw + [c]) == Stuff(raw) + [c] + (if c == 255 then [0] else [])
  {
    assert (raw + [c])[..|raw|] == raw;
    if c == 255 { assert [c] + [0] == [255, 0]; }
  }

  lemma TakeFromStream(raw: seq<byte>, bitCnt: nat, pending: nat, c: byte)
    requires bitCnt >= 8
    requires MsbBits(pending, bitCnt) == MsbBits(c, 8) + MsbBits(pending % Pow2(bitCnt - 8), bitCnt - 8)
    ensures MsbStream(raw + [c]) + MsbBits(pending % Pow2(bitCnt - 8), bitCnt - 8)
            == MsbStream(raw) + MsbBits(pending, bitCnt)
  {
    hide MsbBits, Pow2;
    MsbStreamAppend(raw, [c]);
    assert MsbStream([c]) == MsbBits(c, 8);
  }

  /** The shifted code stays below bit 24, so nothing is lost to the word size. */
  lemma CodeFits(bitCnt: nat, code: nat, n: nat)
    requires bitCnt + n <= 24 && code < Pow2(n)
    ensures Shl32(code, 24 - bitCnt - n) == code * Pow2(24 - bitCnt - n)
  {
    hide Pow2;
    var k := 24 - bitCnt - n;
    Pow2Values();
    Pow2Add(n, k);
    Pow2Monotone(n + k, 24);
    MulMonotone(code, Pow2(n), Pow2(k));
  }
}
