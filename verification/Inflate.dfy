/**
 A reference decoder for zlib streams, written from the standards and not from the encoder:
 RFC 1950 section 2.2 (the wrapper) and section 8.2 (Adler-32), and
 RFC 1951 sections 3.2.3 to 3.2.6 (stored and fixed-Huffman blocks).
 */
module Inflate {
  import opened Prelude
  import opened Bytes

  // ---- Adler-32 (RFC 1950 section 8.2) ----

  const ADLER_BASE: nat := 65521

  datatype Adler = Adler(s1: nat, s2: nat)

  function AdlerOf(data: seq<byte>): (r: Adler)
    ensures r.s1 < ADLER_BASE && r.s2 < ADLER_BASE
  {
    if |data| == 0 then Adler(1, 0) else
    var p := AdlerOf(data[..|data| - 1]);
    var s1 := (p.s1 + data[|data| - 1]) % ADLER_BASE;
    Adler(s1, (p.s2 + s1) % ADLER_BASE)
  }

  /** Most significant byte first: s2 then s1. */
  function AdlerBytes(a: Adler): (r: seq<byte>)
    requires a.s1 < ADLER_BASE && a.s2 < ADLER_BASE
    ensures |r| == 4
  {
    [a.s2 / 256, a.s2 % 256, a.s1 / 256, a.s1 % 256]
  }

  // ---- Fixed Huffman symbols (RFC 1951 section 3.2.6) ----

  /** Codes are packed starting with their most significant bit: 7-bit codes are tried first. */
  function DecodeSymbol(bits: seq<bool>): (r: Option<(nat, seq<bool>)>)
    ensures r.Some? ==> |r.value.1| < |bits|
  {
    if |bits| < 7 then None else
    var v7 := MsbValue(bits[..7]);
    if v7 < 24 then Some((256 + v7, bits[7..])) else
    if |bits| < 8 then None else
    var v8 := MsbValue(bits[..8]);
    if 48 <= v8 < 192 then Some((v8 - 48, bits[8..])) else
    if 192 <= v8 < 200 then Some((280 + (v8 - 192), bits[8..])) else
    if |bits| < 9 then None else
    var v9 := MsbValue(bits[..9]);
    if v9 < 400 then None else Some((144 + (v9 - 400), bits[9..]))
  }

  // ---- Lengths and distances (RFC 1951 section 3.2.5) ----

  function LengthExtra(sym: nat): nat {
    if sym < 265 || sym >= 285 then 0 else (sym - 261) / 4
  }

  function LengthBase(sym: nat): nat
    requires 257 <= sym <= 285
  {
    if sym < 265 then sym - 254 else if sym == 285 then 258 else
    3 + (4 + (sym - 265) % 4) * Pow2(LengthExtra(sym))
  }

  function DistanceExtra(code: nat): nat {
    if code < 4 then 0 else code / 2 - 1
  }

  function DistanceBase(code: nat): nat {
    if code < 4 then code + 1 else 1 + (2 + code % 2) * Pow2(DistanceExtra(code))
  }

  /** A length symbol's extra bits, then the 5-bit distance code, then its extra bits. */
  function DecodeMatch(sym: nat, bits: seq<bool>): (r: Option<(nat, nat, seq<bool>)>)
    requires 257 <= sym
    ensures r.Some? ==> |r.value.2| <= |bits|
  {
    if sym > 285 then None else
    var le := LengthExtra(sym);
    if |bits| < le + 5 then None else
    var length := LengthBase(sym) + LsbValue(bits[..le]);
    var code := MsbValue(bits[le..][..5]);
    if code >= 30 then None else
    var de := DistanceExtra(code);
    var more := bits[le..][5..];
    if |more| < de then None else
    Some((length, DistanceBase(code) + LsbValue(more[..de]), more[de..]))
  }

  /** Copies `length` bytes from `distance` back, one at a time, so a copy may overlap itself. */
  function CopyBack(out: seq<byte>, distance: nat, length: nat): (r: seq<byte>)
    requires 1 <= distance <= |out|
    ensures |r| == |out| + length
    decreases length
  {
    if length == 0 then out else CopyBack(out + [out[|out| - distance]], distance, length - 1)
  }

  // ---- Blocks (RFC 1951 sections 3.2.3 and 3.2.4) ----

  function DecodeFixed(bits: seq<bool>, out: seq<byte>): (r: Option<(seq<byte>, seq<bool>)>)
    ensures r.Some? ==> |r.value.1| < |bits|
    decreases |bits|
  {
    match DecodeSymbol(bits)
    case None => None
    case Some((sym, rest)) =>
      if sym < 256 then DecodeFixed(rest, out + [sym])
      else if sym == 256 then Some((out, rest))
      else
        match DecodeMatch(sym, rest)
        case None => None
        case Some((length, distance, rest')) =>
          if 1 <= distance <= |out| then DecodeFixed(rest', CopyBack(out, distance, length)) else None
  }

  function BytesOf(bits: seq<bool>, n: nat): (r: seq<byte>)
    requires |bits| >= 8 * n
    ensures |r| == n
    decreases n
  {
    if n == 0 then [] else
    EightBitsAreAByte(bits[..8]);
    [LsbValue(bits[..8])] + BytesOf(bits[8..], n - 1)
  }

  lemma {:induction false} LsbValueBound(bits: seq<bool>)
    ensures LsbValue(bits) < Pow2(|bits|)
  {
    if |bits| > 0 {
      LsbValueBound(bits[1..]);
    }
  }

  lemma EightBitsAreAByte(bits: seq<bool>)
    requires |bits| == 8
    ensures LsbValue(bits) < 256
  {
    LsbValueBound(bits);
    Pow2Values();
  }

  /** The stream is a whole number of bytes, so the bits left over a byte boundary are |bits| % 8. */
  function DecodeStored(bits: seq<bool>, out: seq<byte>): (r: Option<(seq<byte>, seq<bool>)>)
    ensures r.Some? ==> |r.value.1| <= |bits|
  {
    var aligned := bits[|bits| % 8..];
    if |aligned| < 32 then None else
    var len := LsbValue(aligned[..16]);
    var nlen := LsbValue(aligned[16..32]);
    var body := aligned[32..];
    if len + nlen != 65535 || |body| < 8 * len then None else
    Some((out + BytesOf(body, len), body[8 * len..]))
  }

  function DecodeBlocks(bits: seq<bool>, out: seq<byte>): (r: Option<(seq<byte>, seq<bool>)>)
    decreases |bits|
  {
    if |bits| < 3 then None else
    var kind := LsbValue(bits[1..3]);
    var body := bits[3..];
    var block := if kind == 0 then DecodeStored(body, out)
                 else if kind == 1 then DecodeFixed(body, out)
                 else None;
    match block
    case None => None
    case Some((out', rest)) => if bits[0] then Some((out', rest)) else DecodeBlocks(rest, out')
  }

  /** The whole stream: header check, deflate data, and the checksum as the last four bytes. */
  function Decode(stream: seq<byte>): Option<seq<byte>> {
    if |stream| < 6 then None else
    var cmf: int, flg: int := stream[0], stream[1];
    if cmf % 16 != 8 || cmf / 16 > 7 || (cmf * 256 + flg) % 31 != 0 || flg / 32 % 2 == 1 then None else
    match DecodeBlocks(LsbStream(stream[2..]), [])
    case None => None
    case Some((out, rest)) =>
      if |rest| / 8 == 4 && stream[|stream| - 4..] == AdlerBytes(AdlerOf(out)) then Some(out) else None
  }
}
