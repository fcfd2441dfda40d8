/** The entropy-coded segment of stbi_write_jpg_core: every block of a scan, then the fill bits. */
module JpegScan {
  import opened Prelude
  import opened Bytes
  import opened JpegBits
  import opened JpegEntropy

  /** A quantised block of component 0 (Y), 1 (U) or 2 (V). */
  datatype Block = Block(comp: nat, du: seq<int>)

  /** The DC predictions DCY, DCU, DCV. */
  datatype Predictions = Predictions(y: int, u: int, v: int) {
    function Of(comp: nat): int { if comp == 0 then y else if comp == 1 then u else v }

    function Set(comp: nat, dc: int): Predictions {
      if comp == 0 then Predictions(dc, u, v) else if comp == 1 then Predictions(y, dc, v) else Predictions(y, u, dc)
    }
  }

  /** Y has its own tables, U and V share theirs. */
  datatype Tables = Tables(ydc: Table, yac: Table, uvdc: Table, uvac: Table) {
    function Dc(comp: nat): Table { if comp == 0 then ydc else uvdc }

    function Ac(comp: nat): Table { if comp == 0 then yac else uvac }

    ghost predicate Usable() { DcTable(ydc) && DcTable(uvdc) && AcTable(yac) && AcTable(uvac) }
  }

  ghost predicate EncodableScan(blocks: seq<Block>, pred: Predictions) {
    |blocks| == 0 ||
    (blocks[0].comp < 3 && Encodable(blocks[0].du, pred.Of(blocks[0].comp)) &&
     EncodableScan(blocks[1..], pred.Set(blocks[0].comp, blocks[0].du[0])))
  }

  // ---- The decoder ----

  /** Decodes one block per entry of `comps`, the order of components in the scan. */
  function DecodeScan(t: Tables, comps: seq<nat>, pred: Predictions, bits: seq<bool>)
    : Option<(seq<Block>, seq<bool>)>
    decreases |comps|
  {
    if |comps| == 0 then Some(([], bits)) else
    match DecodeBlock(t.Dc(comps[0]), t.Ac(comps[0]), pred.Of(comps[0]), bits)
    case None => None
    case Some((du, rest)) =>
      if |du| == 0 then None else
      match DecodeScan(t, comps[1..], pred.Set(comps[0], du[0]), rest)
      case None => None
      case Some((more, rest')) => Some(([Block(comps[0], du)] + more, rest'))
  }

  predicate AllOnes(bits: seq<bool>) { forall i :: 0 <= i < |bits| ==> bits[i] }

  /** Unstuffs the segment, decodes the blocks, and accepts at most 7 padding bits, all ones. */
  function DecodeSegment(t: Tables, comps: seq<nat>, segment: seq<byte>): Option<seq<Block>> {
    match Unstuff(segment)
    case None => None
    case Some(raw) =>
      match DecodeScan(t, comps, Predictions(0, 0, 0), MsbStream(raw))
      case None => None
      case Some((blocks, rest)) => if |rest| < 8 && AllOnes(rest) then Some(blocks) else None
  }

  function Components(blocks: seq<Block>): (c: seq<nat>)
    ensures |c| == |blocks|
  {
    seq(|blocks|, i requires 0 <= i < |blocks| => blocks[i].comp)
  }

  // ---- The bits of a scan ----

  ghost function BitsOf(t: Tables, b: Block, pred: int): seq<bool>
    requires t.Usable() && Encodable(b.du, pred)
  {
    SizesFit(b.du, pred);
    BlockBits(t.Dc(b.comp), t.Ac(b.comp), pred, b.du)
  }

  lemma DecodeBitsOf(t: Tables, b: Block, pred: int, rest: seq<bool>)
    requires t.Usable() && Encodable(b.du, pred)
    ensures |b.du| == 64 && DecodeBlock(t.Dc(b.comp), t.Ac(b.comp), pred, BitsOf(t, b, pred) + rest) == Some((b.du, rest))
  {
    DecodeBlockBits(t.Dc(b.comp), t.Ac(b.comp), pred, b.du, rest);
  }

  method WriteBlock(w: BitWriter, t: Tables, b: Block, pred: int) returns (dc: int)
    requires w.Valid() && t.Usable() && Encodable(b.du, pred)
    modifies w
    ensures w.Valid() && w.Stream() == old(w.Stream()) + BitsOf(t, b, pred)
    ensures |b.du| == 64 && dc == b.du[0]
  {
    dc := ProcessDU(w, b.du, pred, t.Dc(b.comp), t.Ac(b.comp));
  }

  ghost function ScanBits(t: Tables, blocks: seq<Block>, pred: Predictions): seq<bool>
    requires t.Usable() && EncodableScan(blocks, pred)
    decreases |blocks|
  {
    if |blocks| == 0 then [] else
    var b := blocks[0];
    BitsOf(t, b, pred.Of(b.comp)) + ScanBits(t, blocks[1..], pred.Set(b.comp, b.du[0]))
  }

  lemma {:induction false} DecodeScanBits(t: Tables, blocks: seq<Block>, pred: Predictions, rest: seq<bool>)
    requires t.Usable() && EncodableScan(blocks, pred)
    ensures DecodeScan(t, Components(blocks), pred, ScanBits(t, blocks, pred) + rest) == Some((blocks, rest))
    decreases |blocks|
  {
    if |blocks| == 0 {
      assert [] + rest == rest;
    } else {
      var b, tail := blocks[0], blocks[1..];
      var p := pred.Of(b.comp);
      DecodeBitsOf(t, b, p, []);
      var next := pred.Set(b.comp, b.du[0]);
      hide DcTable, AcTable, Encodable, BitsOf, DecodeBlock, Predictions.Of, Predictions.Set;
      assert Components(blocks)[1..] == Components(tail);
      DecodeScanBits(t, tail, next, rest);
      DecodeBitsOf(t, b, p, ScanBits(t, tail, next) + rest);
      ConcatAssociates(BitsOf(t, b, p), ScanBits(t, tail, next), rest);
      assert [Block(b.comp, b.du)] + tail == blocks;
    }
  }

  /** Writes all blocks; the predictions are updated per component. */
  method WriteBlocks(w: BitWriter, t: Tables, blocks: seq<Block>)
    requires w.Valid() && t.Usable() && EncodableScan(blocks, Predictions(0, 0, 0))
    modifies w
    ensures w.Valid() && w.Stream() == old(w.Stream()) + ScanBits(t, blocks, Predictions(0, 0, 0))
  {
    hide DcTable, AcTable, Encodable, BitsOf;
    var pred := Predictions(0, 0, 0);
    ghost var start := ScanBits(t, blocks, pred);
    assert blocks[0..] == blocks;
    var k := 0;
    while k < |blocks|
      invariant 0 <= k <= |blocks| && w.Valid() && EncodableScan(blocks[k..], pred)
      invariant w.Stream() + ScanBits(t, blocks[k..], pred) == old(w.Stream()) + start
    {
      var b := blocks[k];
      assert blocks[k..][0] == b && blocks[k..][1..] == blocks[k + 1..];
      ghost var before, p := w.Stream(), pred.Of(b.comp);
      var dc := WriteBlock(w, t, b, pred.Of(b.comp));
      pred := pred.Set(b.comp, dc);
      ConcatAssociates(before, BitsOf(t, b, p), ScanBits(t, blocks[k + 1..], pred));
      k := k + 1;
    }
    assert blocks[k..] == [];
  }

  /** 7 one bits fill the last byte; whatever is left of them is not written. */
  lemma FilledStream(raw: seq<byte>, pending: nat, cnt: nat, s: seq<bool>)
    requires MsbStream(raw) + MsbBits(pending, cnt) == s + MsbBits(0x7F, 7) && cnt < 8
    ensures exists pad :: |pad| < 8 && AllOnes(pad) && MsbStream(raw) == s + pad
  {
    SevenOnes();
    hide MsbBits, MsbStream;
    var ones := MsbBits(0x7F, 7);
    var pad := ones[..7 - cnt];
    assert |MsbStream(raw)| == |s| + 7 - cnt;
    assert MsbStream(raw) == (MsbStream(raw) + MsbBits(pending, cnt))[..|s| + 7 - cnt];
    assert (s + ones)[..|s| + 7 - cnt] == s + pad;
  }

  lemma SevenOnes()
    ensures AllOnes(MsbBits(0x7F, 7))
  {
    OnesOnly(0x7F, 7);
  }

  lemma {:induction false} OnesOnly(v: nat, n: nat)
    requires v + 1 == Pow2(n)
    ensures AllOnes(MsbBits(v, n))
  {
    if n > 0 {
      OnesOnly(v / 2, n - 1);
    }
  }

  /**
   The whole segment: whatever the tables and the blocks, a decoder that knows the order of the
   components gets every coefficient back.
   */
  method EncodeSegment(t: Tables, blocks: seq<Block>) returns (segment: seq<byte>)
    requires t.Usable() && EncodableScan(blocks, Predictions(0, 0, 0))
    ensures DecodeSegment(t, Components(blocks), segment) == Some(blocks)
    ensures forall k :: 0 <= k < |segment| && segment[k] == 255 ==> k + 1 < |segment| && segment[k + 1] == 0
  {
    hide DcTable, AcTable, EncodableScan, ScanBits, DecodeScan, Stuff, Unstuff, MsbStream, MsbBits;
    var w := new BitWriter();
    WriteBlocks(w, t, blocks);
    ghost var s := ScanBits(t, blocks, Predictions(0, 0, 0));
    assert [] + s == s;
    Pow2Values();
    w.WriteBits(0x7F, 7);
    segment := w.out;
    FilledStream(w.raw, w.pending, w.bitCnt, s);
    ghost var pad :| |pad| < 8 && AllOnes(pad) && MsbStream(w.raw) == s + pad;
    DecodeScanBits(t, blocks, Predictions(0, 0, 0), pad);
    UnstuffStuff(w.raw);
    forall k | 0 <= k < |segment| && segment[k] == 255 ensures k + 1 < |segment| && segment[k + 1] == 0 {
      EveryFFIsStuffed(w.raw, k);
    }
  }
}
