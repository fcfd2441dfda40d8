/** PNG chunk framing (sections 3.2 and 3.4 of RFC 2083) and a reference parser for whole files. */
module PngChunks {
  import opened Prelude
  import opened Bytes
  import Crc32
  import Inflate
  import PngFilter

  const SIGNATURE: seq<byte> := [137, 80, 78, 71, 13, 10, 26, 10]
  const IHDR: seq<byte> := [73, 72, 68, 82]
  const IDAT: seq<byte> := [73, 68, 65, 84]
  const IEND: seq<byte> := [73, 69, 78, 68]

  /** stbiw__wp32. */
  function Be32(v: nat): (r: seq<byte>)
    ensures |r| == 4
  {
    [v / 0x100_0000 % 256, v / 0x1_0000 % 256, v / 0x100 % 256, v % 256]
  }

  function FromBe32(b: seq<byte>): nat
    requires |b| == 4
  {
    ((b[0] as int * 256 + b[1]) * 256 + b[2]) * 256 + b[3]
  }

  lemma Be32RoundTrip(v: nat)
    requires v < WORD
    ensures FromBe32(Be32(v)) == v
  {
    var a, b, c := v / 0x100, v / 0x1_0000, v / 0x100_0000;
    OneByteOff(v, 0x100);
    OneByteOff(v, 0x1_0000);
    assert v == a * 256 + v % 256 && a == b * 256 + a % 256 && b == c * 256 + b % 256 && c < 256;
  }

  lemma OneByteOff(v: nat, d: nat)
    requires d > 0
    ensures v / d / 256 == v / (d * 256)
  {
    DivDiv(v, d, 256);
  }

  function ByteAt(c: bv32, shift: bv5): byte {
    ((c >> shift) & 0xff) as int
  }

  /** A checksum, most significant byte first. */
  function CrcBytes(c: bv32): (r: seq<byte>)
    ensures |r| == 4
  {
    [ByteAt(c, 24), ByteAt(c, 16), ByteAt(c, 8), ByteAt(c, 0)]
  }

  function ToBv(data: seq<byte>): (r: seq<bv8>)
    ensures |r| == |data|
  {
    seq(|data|, i requires 0 <= i < |data| => data[i] as bv8)
  }

  // ---- The parser ----

  datatype Chunk = Chunk(tag: seq<byte>, data: seq<byte>)

  /** Length, type, data, and a CRC that must match the type and data. */
  function ParseChunk(s: seq<byte>): (r: Option<(Chunk, seq<byte>)>)
    ensures r.Some? ==> |r.value.1| < |s|
  {
    if |s| < 12 then None else
    var len := FromBe32(s[..4]);
    if |s| < 12 + len then None else
    var tag, data, crc := s[4..8], s[8..8 + len], s[8 + len..12 + len];
    if crc == CrcBytes(Crc32.Crc(ToBv(tag + data))) then Some((Chunk(tag, data), s[12 + len..])) else None
  }

  function ParseChunks(s: seq<byte>): (r: Option<seq<Chunk>>)
    decreases |s|
  {
    if |s| == 0 then Some([]) else
    match ParseChunk(s)
    case None => None
    case Some((c, rest)) =>
      match ParseChunks(rest)
      case None => None
      case Some(cs) => Some([c] + cs)
  }

  datatype Picture = Picture(width: nat, height: nat, channels: nat, rows: seq<seq<byte>>)

  function ChannelsOf(colorType: byte): nat {
    match colorType case 0 => 1 case 4 => 2 case 2 => 3 case 6 => 4 case _ => 0
  }

  /** All data chunks, concatenated; nothing else may stand between the header and the end. */
  function ImageData(cs: seq<Chunk>): Option<seq<byte>> {
    if |cs| == 0 then Some([]) else
    if cs[0].tag != IDAT then None else
    match ImageData(cs[1..]) case None => None case Some(rest) => Some(cs[0].data + rest)
  }

  function DecodePixels(width: nat, height: nat, n: nat, zlib: seq<byte>): Option<Picture>
    requires n > 0
  {
    match Inflate.Decode(zlib)
    case None => None
    case Some(filt) =>
      match PngFilter.Unfilter(filt, n, seq(width * n, _ => 0))
      case None => None
      case Some(rows) => if |rows| == height then Some(Picture(width, height, n, rows)) else None
  }

  /** 8-bit samples, no interlacing; zero dimensions are invalid (section 4.1.1 of RFC 2083). */
  function DecodePng(file: seq<byte>): Option<Picture> {
    if |file| < 8 || file[..8] != SIGNATURE then None else
    match ParseChunks(file[8..])
    case None => None
    case Some(cs) =>
      if |cs| < 2 || cs[|cs| - 1] != Chunk(IEND, []) || cs[0].tag != IHDR || |cs[0].data| != 13 then None else
      var h := cs[0].data;
      var width, height, n := FromBe32(h[0..4]), FromBe32(h[4..8]), ChannelsOf(h[9]);
      if width == 0 || height == 0 || n == 0 || h[8] != 8 || h[10..] != [0, 0, 0] then None else
      match ImageData(cs[1..|cs| - 1])
      case None => None
      case Some(zlib) => DecodePixels(width, height, n, zlib)
  }

  // ---- The framing the writer produces ----

  function Framed(tag: seq<byte>, data: seq<byte>): seq<byte>
    requires |tag| == 4
  {
    Be32(|data|) + tag + data + CrcBytes(Crc32.Crc(ToBv(tag + data)))
  }

  lemma ParseFramed(tag: seq<byte>, data: seq<byte>, rest: seq<byte>)
    requires |tag| == 4 && |data| < WORD
    ensures ParseChunk(Framed(tag, data) + rest) == Some((Chunk(tag, data), rest))
  {
    hide Be32, FromBe32, CrcBytes, Crc32.Crc, ToBv;
    Be32RoundTrip(|data|);
    var s := Framed(tag, data) + rest;
    var n := |data|;
    assert s[..4] == Be32(n) && s[4..8] == tag && s[8..8 + n] == data && s[12 + n..] == rest;
    assert s[8 + n..12 + n] == CrcBytes(Crc32.Crc(ToBv(tag + data)));
  }

  function HeaderData(width: nat, height: nat, colorType: byte): (h: seq<byte>)
    ensures |h| == 13
  {
    Be32(width) + Be32(height) + [8, colorType, 0, 0, 0]
  }

  /** `ctype[n]`. */
  function ColorType(n: nat): byte
    requires 1 <= n <= 4
  {
    match n case 1 => 0 case 2 => 4 case 3 => 2 case _ => 6
  }

  function File(width: nat, height: nat, n: nat, zlib: seq<byte>): seq<byte>
    requires 1 <= n <= 4
  {
    SIGNATURE + (Framed(IHDR, HeaderData(width, height, ColorType(n))) + (Framed(IDAT, zlib) + Framed(IEND, [])))
  }

  lemma ParseFile(width: nat, height: nat, n: nat, zlib: seq<byte>)
    requires 1 <= n <= 4 && |zlib| < WORD
    ensures ParseChunks(File(width, height, n, zlib)[8..]) ==
            Some([Chunk(IHDR, HeaderData(width, height, ColorType(n))), Chunk(IDAT, zlib), Chunk(IEND, [])])
  {
    hide Framed, ParseChunk, HeaderData;
    var h := HeaderData(width, height, ColorType(n));
    var s2 := Framed(IEND, []);
    var s1 := Framed(IDAT, zlib) + s2;
    var s0 := Framed(IHDR, h) + s1;
    assert File(width, height, n, zlib)[8..] == s0;
    assert s2 + [] == s2;
    ParseFramed(IEND, [], []);
    ParseFramed(IDAT, zlib, s2);
    ParseFramed(IHDR, h, s1);
    assert ParseChunks([]) == Some([]);
    assert [Chunk(IEND, [])] + [] == [Chunk(IEND, [])];
    assert ParseChunks(s2) == Some([Chunk(IEND, [])]);
    assert ParseChunks(s1) == Some([Chunk(IDAT, zlib)] + [Chunk(IEND, [])]);
    assert ParseChunks(s0) == Some([Chunk(IHDR, h)] + ([Chunk(IDAT, zlib)] + [Chunk(IEND, [])]));
    assert [Chunk(IHDR, h)] + ([Chunk(IDAT, zlib)] + [Chunk(IEND, [])])
        == [Chunk(IHDR, h), Chunk(IDAT, zlib), Chunk(IEND, [])];
  }

  lemma SplitHeader(a: seq<byte>, b: seq<byte>, c: seq<byte>)
    requires |a| == 4 && |b| == 4 && |c| == 5
    ensures var h := a + b + c;
      h[0..4] == a && h[4..8] == b && h[8] == c[0] && h[9] == c[1] && h[10..] == c[2..]
  {
  }

  lemma ReadHeader(width: nat, height: nat, n: nat)
    requires 1 <= n <= 4 && width < WORD && height < WORD
    ensures var h := HeaderData(width, height, ColorType(n));
      FromBe32(h[0..4]) == width && FromBe32(h[4..8]) == height && h[8] == 8 && ChannelsOf(h[9]) == n
      && h[10..] == [0, 0, 0]
  {
    Be32RoundTrip(width);
    Be32RoundTrip(height);
    hide Be32, FromBe32;
    var h := HeaderData(width, height, ColorType(n));
    var tail: seq<byte> := [8, ColorType(n), 0, 0, 0];
    SplitHeader(Be32(width), Be32(height), tail);
    assert h[10..] == tail[2..];
  }

  /** Parsing a written file leaves exactly the question what the pixel data decodes to. */
  lemma DecodeFile(width: nat, height: nat, n: nat, zlib: seq<byte>)
    requires 1 <= n <= 4 && |zlib| < WORD && width < WORD && height < WORD
    ensures DecodePng(File(width, height, n, zlib)) ==
            if width == 0 || height == 0 then None else DecodePixels(width, height, n, zlib)
  {
    hide HeaderData, ParseChunks, FromBe32, DecodePixels, Framed;
    var file := File(width, height, n, zlib);
    assert file[..8] == SIGNATURE;
    ParseFile(width, height, n, zlib);
    ReadHeader(width, height, n);
    var cs := [Chunk(IHDR, HeaderData(width, height, ColorType(n))), Chunk(IDAT, zlib), Chunk(IEND, [])];
    assert cs[1..2] == [Chunk(IDAT, zlib)] && cs[1..2][1..] == [];
    assert ImageData([]) == Some([]) && zlib + [] == zlib;
    assert ImageData(cs[1..2]) == Some(zlib);
  }
}
