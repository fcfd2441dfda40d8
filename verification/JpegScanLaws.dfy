/** What the bits of a scan are, with nothing kept from block to block: each block is coded against the last one of its own
    component, with the tables of that component. */
module JpegScanLaws {
  import opened Prelude
  import opened Bytes
  import opened JpegBits
  import opened JpegEntropy
  import opened JpegScan

  /** The DC value of the last block of a component; 0 when there is none. */
  function LastDc(blocks: seq<Block>, comp: nat): int {
    if blocks == [] then 0 else
    var b := blocks[|blocks| - 1];
    if b.comp == comp && |b.du| > 0 then b.du[0] else LastDc(blocks[..|blocks| - 1], comp)
  }

  /** Three components; DC differences and AC values have baseline categories. */
  ghost predicate Codable(blocks: seq<Block>) {
    forall i :: 0 <= i < |blocks| ==>
      blocks[i].comp < 3 && Encodable(blocks[i].du, LastDc(blocks[..i], blocks[i].comp))
  }

  function Standing(blocks: seq<Block>): Predictions {
    Predictions(LastDc(blocks, 0), LastDc(blocks, 1), LastDc(blocks, 2))
  }

  lemma NextStanding(blocks: seq<Block>, k: nat)
    requires k < |blocks| && blocks[k].comp < 3 && |blocks[k].du| == 64
    ensures Standing(blocks[..k]).Of(blocks[k].comp) == LastDc(blocks[..k], blocks[k].comp)
    ensures Standing(blocks[..k]).Set(blocks[k].comp, blocks[k].du[0]) == Standing(blocks[..k + 1])
  {
    assert blocks[..k + 1][..k] == blocks[..k];
  }

  ghost predicate CodableFrom(blocks: seq<Block>, k: nat)
    requires k <= |blocks|
  {
    forall i :: k <= i < |blocks| ==> blocks[i].comp < 3 && Encodable(blocks[i].du, LastDc(blocks[..i], blocks[i].comp))
  }

  lemma {:induction false} RestCodable(blocks: seq<Block>, k: nat)
    requires k <= |blocks|
    ensures EncodableScan(blocks[k..], Standing(blocks[..k])) <==> CodableFrom(blocks, k)
    decreases |blocks| - k
  {
    if k < |blocks| {
      assert blocks[k..][0] == blocks[k] && blocks[k..][1..] == blocks[k + 1..];
      if blocks[k].comp < 3 && |blocks[k].du| == 64 {
        NextStanding(blocks, k);
        RestCodable(blocks, k + 1);
      }
      hide LastDc, Predictions.Of, Predictions.Set;
    }
  }

  /** A scan can be encoded exactly when that holds of every block. */
  lemma CodableMeans(blocks: seq<Block>)
    ensures EncodableScan(blocks, Predictions(0, 0, 0)) <==> Codable(blocks)
  {
    RestCodable(blocks, 0);
    assert blocks[0..] == blocks && blocks[..0] == [] && Standing([]) == Predictions(0, 0, 0);
    hide EncodableScan, Encodable, LastDc, Standing;
  }

  /** The bits of the first `k` blocks: the luminance tables for component 0, the chrominance tables for the others. */
  ghost function Spelled(t: Tables, blocks: seq<Block>, k: nat): seq<bool>
    requires t.Usable() && Codable(blocks) && k <= |blocks|
  {
    if k == 0 then [] else
    var b, pred := blocks[k - 1], LastDc(blocks[..k - 1], blocks[k - 1].comp);
    SizesFit(b.du, pred);
    Spelled(t, blocks, k - 1)
      + BlockBits(if b.comp == 0 then t.ydc else t.uvdc, if b.comp == 0 then t.yac else t.uvac, pred, b.du)
  }

  lemma {:induction false} ScanMeansTo(t: Tables, blocks: seq<Block>, k: nat)
    requires t.Usable() && Codable(blocks) && EncodableScan(blocks, Predictions(0, 0, 0)) && k <= |blocks|
    ensures EncodableScan(blocks[k..], Standing(blocks[..k]))
    ensures ScanBits(t, blocks, Predictions(0, 0, 0))
         == Spelled(t, blocks, k) + ScanBits(t, blocks[k..], Standing(blocks[..k]))
  {
    RestCodable(blocks, k);
    if k == 0 {
      assert blocks[0..] == blocks && blocks[..0] == [] && Standing([]) == Predictions(0, 0, 0);
      NothingSpelled(t, blocks);
    } else {
      ScanMeansTo(t, blocks, k - 1);
      OneMoreSpelled(t, blocks, k - 1);
    }
    hide Spelled, ScanBits, Standing, EncodableScan, Codable;
  }

  lemma NothingSpelled(t: Tables, blocks: seq<Block>)
    requires t.Usable() && Codable(blocks) && EncodableScan(blocks, Predictions(0, 0, 0))
    ensures Spelled(t, blocks, 0) + ScanBits(t, blocks, Predictions(0, 0, 0))
         == ScanBits(t, blocks, Predictions(0, 0, 0))
  {
    hide ScanBits;
  }

  lemma OneMoreSpelled(t: Tables, blocks: seq<Block>, k: nat)
    requires t.Usable() && Codable(blocks) && k < |blocks|
    requires EncodableScan(blocks[k..], Standing(blocks[..k]))
    ensures EncodableScan(blocks[k + 1..], Standing(blocks[..k + 1]))
    ensures Spelled(t, blocks, k) + ScanBits(t, blocks[k..], Standing(blocks[..k]))
         == Spelled(t, blocks, k + 1) + ScanBits(t, blocks[k + 1..], Standing(blocks[..k + 1]))
  {
    var b, rest := blocks[k], blocks[k + 1..];
    var pred := LastDc(blocks[..k], b.comp);
    RestCodable(blocks, k + 1);
    assert |b.du| == 64;
    NextStanding(blocks, k);
    SizesFit(b.du, pred);
    assert blocks[k..][0] == b && blocks[k..][1..] == rest;
    assert BitsOf(t, b, pred)
        == BlockBits(if b.comp == 0 then t.ydc else t.uvdc, if b.comp == 0 then t.yac else t.uvac, pred, b.du);
    assert ScanBits(t, blocks[k..], Standing(blocks[..k])) == BitsOf(t, b, pred) + ScanBits(t, rest, Standing(blocks[..k + 1]));
    hide ScanBits, BitsOf, BlockBits, Standing, LastDc, Encodable, EncodableScan, DcTable, AcTable;
    ConcatAssociates(Spelled(t, blocks, k), BitsOf(t, b, pred), ScanBits(t, rest, Standing(blocks[..k + 1])));
  }

  /** The bits of a whole scan. */
  lemma ScanMeans(t: Tables, blocks: seq<Block>)
    requires t.Usable() && EncodableScan(blocks, Predictions(0, 0, 0))
    ensures Codable(blocks) && ScanBits(t, blocks, Predictions(0, 0, 0)) == Spelled(t, blocks, |blocks|)
  {
    CodableMeans(blocks);
    ScanMeansTo(t, blocks, |blocks|);
    NoBlocks(t, blocks[|blocks|..], Standing(blocks[..|blocks|]), Spelled(t, blocks, |blocks|));
    hide *;
  }

  lemma NoBlocks(t: Tables, none: seq<Block>, pred: Predictions, before: seq<bool>)
    requires t.Usable() && none == [] && EncodableScan(none, pred)
    ensures before + ScanBits(t, none, pred) == before
  {
  }
}
