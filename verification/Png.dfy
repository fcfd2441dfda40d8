/** stbi_write_png_to_mem: filter choice, scanlines, compression and chunk framing. */
module Png {
  import opened Prelude
  import opened Bytes
  import opened PngFilter
  import opened PngChunks
  import Crc32
  import Inflate
  import ZlibCompress

  // ---- The adaptive choice ----

  function Signed(b: byte): int { if b < 128 then b else b - 256 }

  /** The sum the writer minimises: residuals read as signed bytes. */
  function Residual(line: seq<byte>): nat {
    if |line| == 0 then 0 else Residual(line[..|line| - 1]) + Abs(Signed(line[|line| - 1]))
  }

  lemma {:induction false} ResidualBound(line: seq<byte>)
    ensures Residual(line) <= 128 * |line|
  {
    if |line| > 0 {
      ResidualBound(line[..|line| - 1]);
    }
  }

  function LineOf(img: Image, flip: bool, y: nat, filter: nat): (r: seq<byte>)
    requires img.InBounds() && y < img.height
    ensures |r| == img.RowBytes()
  {
    Filtered(filter, img.n, img.Prior(flip, y), img.Row(flip, y))
  }

  method Estimate(line: array<byte>) returns (est: nat)
    ensures est == Residual(line[..])
  {
    est := 0;
    for i := 0 to line.Length
      invariant est == Residual(line[..i])
    {
      assert line[..i + 1][..i] == line[..i];
      est := est + Abs(Signed(line[i]));
    }
    assert line[..line.Length] == line[..];
  }

  /** While the estimates fit an int, the choice is the first of the five filters with the least sum. */
  predicate IsBestFilter(img: Image, flip: bool, y: nat, best: nat)
    requires img.InBounds() && y < img.height
  {
    && best <= 4
    && (forall t: nat :: t <= 4 ==> Residual(LineOf(img, flip, y, best)) <= Residual(LineOf(img, flip, y, t)))
    && (forall t: nat :: t < best ==> Residual(LineOf(img, flip, y, best)) < Residual(LineOf(img, flip, y, t)))
  }

  /** All five filters are tried, so a row without pixels is overrun. */
  method BestFilter(img: Image, flip: bool, y: nat, line: array<byte>) returns (inside: bool, best: nat)
    requires img.InBounds() && y < img.height && line.Length == img.RowBytes()
    modifies line
    ensures inside <==> img.width > 0
    ensures best <= 4 && (inside ==> line[..] == LineOf(img, flip, y, best))
    ensures inside && 128 * img.RowBytes() < 0x7fff_ffff ==> IsBestFilter(img, flip, y, best)
  {
    hide LineOf, Residual;
    best := 0;
    var bestVal: nat := 0x7fff_ffff;
    for t := 0 to 5
      invariant best <= 4 && bestVal <= 0x7fff_ffff && (t > 1 ==> img.width > 0)
      invariant t == 0 ==> best == 0 && bestVal == 0x7fff_ffff
      invariant 128 * img.RowBytes() < 0x7fff_ffff && t > 0 ==>
        best < t && bestVal == Residual(LineOf(img, flip, y, best))
      invariant 128 * img.RowBytes() < 0x7fff_ffff ==>
        forall u: nat :: u < t ==> bestVal <= Residual(LineOf(img, flip, y, u))
      invariant 128 * img.RowBytes() < 0x7fff_ffff ==>
        forall u: nat :: u < best ==> bestVal < Residual(LineOf(img, flip, y, u))
    {
      inside := EncodeLine(img, flip, y, t, line);
      if !inside {
        return false, best;
      }
      var est := Estimate(line);
      ResidualBound(line[..]);
      assert est <= 128 * img.RowBytes();
      if est < bestVal {
        bestVal, best := est, t;
      }
    }
    inside := EncodeLine(img, flip, y, best, line);
  }

  method EncodeLine(img: Image, flip: bool, y: nat, filter: nat, line: array<byte>) returns (inside: bool)
    requires img.InBounds() && y < img.height && filter <= 4 && line.Length == img.RowBytes()
    modifies line
    ensures inside <==> img.width > 0 || TypeFor(y, filter) == 0
    ensures inside ==> line[..] == LineOf(img, flip, y, filter)
  {
    inside := EncodePngLine(img, flip, y, filter, line);
  }

  // ---- Scanlines ----

  function Scanline(img: Image, flip: bool, y: nat, filter: byte): seq<byte>
    requires img.InBounds() && y < img.height
  {
    [filter] + LineOf(img, flip, y, filter)
  }

  /** The filtered image from row `y` on, when row `k` uses filter `fs[k]`. */
  function Scanlines(img: Image, flip: bool, fs: seq<byte>, y: nat): seq<byte>
    requires img.InBounds() && |fs| == img.height && y <= img.height
    decreases img.height - y
  {
    if y == img.height then [] else Scanline(img, flip, y, fs[y]) + Scanlines(img, flip, fs, y + 1)
  }

  /** Undoing the filters gives the rows back, whichever filters were used. */
  lemma {:induction false} UnfilterScanlines(img: Image, flip: bool, fs: seq<byte>, y: nat)
    requires img.InBounds() && |fs| == img.height && y < img.height && forall f :: f in fs ==> f <= 4
    ensures Unfilter(Scanlines(img, flip, fs, y), img.n, img.Prior(flip, y)) == Some(img.Rows(flip, y))
    decreases img.height - y
  {
    var rest := Scanlines(img, flip, fs, y + 1);
    if y + 1 < img.height {
      UnfilterScanlines(img, flip, fs, y + 1);
      assert img.Prior(flip, y + 1) == img.Row(flip, y);
    } else {
      assert rest == [] && img.Rows(flip, y + 1) == [];
    }
    assert fs[y] in fs;
    hide Scanlines, Unfilter, Image.Row;
    OneScanline(img, flip, fs[y], y, rest);
    assert Scanlines(img, flip, fs, y) == Scanline(img, flip, y, fs[y]) + rest;
  }

  /** A decoder undoes the filter of the first line and goes on. */
  lemma OneScanline(img: Image, flip: bool, filter: byte, y: nat, rest: seq<byte>)
    requires img.InBounds() && y < img.height && filter <= 4
    ensures Unfilter(Scanline(img, flip, y, filter) + rest, img.n, img.Prior(flip, y)) ==
      match Unfilter(rest, img.n, img.Row(flip, y)) case None => None case Some(rows) => Some([img.Row(flip, y)] + rows)
  {
    var row, w := img.Row(flip, y), img.RowBytes();
    ReconstructFiltered(filter, img.n, img.Prior(flip, y), row, w);
    hide Filtered, Reconstruct, Image.Row, Image.Prior;
    var data := Scanline(img, flip, y, filter) + rest;
    assert data[0] == filter && data[1..1 + w] == LineOf(img, flip, y, filter) && data[1 + w..] == rest;
    assert row[..w] == row;
  }

  lemma {:induction false} ScanlinesLength(img: Image, flip: bool, fs: seq<byte>, y: nat)
    requires img.InBounds() && |fs| == img.height && y <= img.height
    ensures |Scanlines(img, flip, fs, y)| == (img.height - y) * (img.RowBytes() + 1)
    decreases img.height - y
  {
    hide LineOf, Image.RowBytes;
    if y < img.height {
      ScanlinesLength(img, flip, fs, y + 1);
      Distribute(img.height - y - 1, img.RowBytes() + 1);
    }
  }

  lemma Distribute(a: nat, b: nat)
    ensures (a + 1) * b == a * b + b
  {
  }

  /** The lines written so far are the lines before `j` of any completion of the filter list. */
  function LinesBefore(img: Image, flip: bool, fs: seq<byte>, j: nat): seq<byte>
    requires img.InBounds() && j <= |fs| && j <= img.height
  {
    if j == 0 then [] else LinesBefore(img, flip, fs, j - 1) + Scanline(img, flip, j - 1, fs[j - 1])
  }

  lemma {:induction false} LinesBeforeStable(img: Image, flip: bool, fs: seq<byte>, gs: seq<byte>, j: nat)
    requires img.InBounds() && j <= |fs| && j <= img.height
    ensures LinesBefore(img, flip, fs + gs, j) == LinesBefore(img, flip, fs, j)
  {
    hide Scanline;
    if j > 0 {
      LinesBeforeStable(img, flip, fs, gs, j - 1);
    }
  }

  lemma {:induction false} LinesMeet(img: Image, flip: bool, fs: seq<byte>, j: nat)
    requires img.InBounds() && |fs| == img.height && j <= img.height
    ensures LinesBefore(img, flip, fs, j) + Scanlines(img, flip, fs, j) == Scanlines(img, flip, fs, 0)
  {
    hide Scanline;
    if j == 0 {
      assert [] + Scanlines(img, flip, fs, 0) == Scanlines(img, flip, fs, 0);
    } else {
      LinesMeet(img, flip, fs, j - 1);
      assert LinesBefore(img, flip, fs, j) + Scanlines(img, flip, fs, j)
          == LinesBefore(img, flip, fs, j - 1) + (Scanline(img, flip, j - 1, fs[j - 1]) + Scanlines(img, flip, fs, j));
    }
  }

  /** How the filter of row `y` relates to the setting: forced when in range, adaptive otherwise. */
  predicate FilterObeys(img: Image, flip: bool, y: nat, force: int, filter: nat)
    requires img.InBounds() && y < img.height
  {
    if 0 <= force <= 4 then filter == force
    else filter <= 4 && (128 * img.RowBytes() < 0x7fff_ffff ==> IsBestFilter(img, flip, y, filter))
  }

  /** Filters for all rows, each the forced one or the best. */
  predicate FiltersObey(img: Image, flip: bool, force: int, fs: seq<byte>)
    requires img.InBounds()
  {
    |fs| == img.height && forall k :: 0 <= k < img.height ==> fs[k] <= 4 && FilterObeys(img, flip, k, force, fs[k])
  }

  ghost predicate IsFiltered(img: Image, flip: bool, force: int, filt: seq<byte>)
    requires img.InBounds()
  {
    exists fs: seq<byte> :: FiltersObey(img, flip, force, fs) && filt == Scanlines(img, flip, fs, 0)
  }

  /** One row with the forced filter or the best one. */
  method FilterRow(img: Image, flip: bool, y: nat, ghost force: int, forceFilter: int, line: array<byte>)
    returns (inside: bool, filter: nat)
    requires img.InBounds() && y < img.height && line.Length == img.RowBytes()
    requires forceFilter == if force >= 5 then -1 else force
    modifies line
    ensures inside <==> RowStays(img, y, force)
    ensures filter <= 4
    ensures inside ==> FilterObeys(img, flip, y, force, filter) && line[..] == LineOf(img, flip, y, filter)
  {
    hide LineOf, IsBestFilter;
    if forceFilter > -1 {
      filter := forceFilter;
      inside := EncodeLine(img, flip, y, forceFilter, line);
    } else {
      inside, filter := BestFilter(img, flip, y, line);
    }
  }

  /** No byte of row `y` is written outside the line buffer. */
  predicate RowStays(img: Image, y: nat, force: int) {
    img.width > 0 || (0 <= force <= 4 && TypeFor(y, force) == 0)
  }

  /** Rows without pixels are safe only where they are copied: with filter 0, or in the first row with filter 2. */
  predicate StaysInside(img: Image, force: int) {
    img.width > 0 || img.height == 0 || force == 0 || (force == 2 && img.height == 1)
  }

  lemma RowsStay(img: Image, force: int)
    ensures StaysInside(img, force) <==> forall y: nat :: y < img.height ==> RowStays(img, y, force)
  {
    if !StaysInside(img, force) {
      assert !RowStays(img, 0, force) || !RowStays(img, 1, force);
    }
  }

  /** The row loop of stbi_write_png_to_mem. */
  method FilterImage(img: Image, flip: bool, force: int) returns (inside: bool, filt: seq<byte>)
    requires img.InBounds()
    ensures inside <==> StaysInside(img, force)
    ensures inside ==> IsFiltered(img, flip, force, filt)
  {
    RowsStay(img, force);
    hide LineOf, FilterObeys, StaysInside, RowStays;
    ghost var fs: seq<byte>;
    var forceFilter := if force >= 5 then -1 else force;
    var line := new byte[img.RowBytes()];
    filt, fs := [], [];
    for j := 0 to img.height
      invariant |fs| == j && filt == LinesBefore(img, flip, fs, j)
      invariant forall k: nat :: k < j ==> RowStays(img, k, force)
      invariant forall k :: 0 <= k < j ==> fs[k] <= 4 && FilterObeys(img, flip, k, force, fs[k])
    {
      var filter;
      inside, filter := FilterRow(img, flip, j, force, forceFilter, line);
      if !inside {
        return false, [];
      }
      LinesBeforeStable(img, flip, fs, [filter], j);
      fs := fs + [filter];
      filt := filt + [filter] + line[..];
      assert LinesBefore(img, flip, fs, j + 1) == LinesBefore(img, flip, fs, j) + Scanline(img, flip, j, filter);
    }
    LinesMeet(img, flip, fs, img.height);
    assert filt + Scanlines(img, flip, fs, img.height) == filt;
    assert FiltersObey(img, flip, force, fs) && filt == Scanlines(img, flip, fs, 0);
    inside := true;
  }

  // ---- The file ----

  /** stbiw__wpcrc: the checksum of the last `len` + 4 bytes written. */
  method WpCrc(o: seq<byte>, len: nat) returns (o': seq<byte>)
    requires |o| >= len + 4
    ensures o' == o + CrcBytes(Crc32.Crc(ToBv(o[|o| - len - 4..])))
  {
    var crc := Crc32.StbiwCrc32(ToBv(o[|o| - len - 4..]));
    o' := o + CrcBytes(crc);
  }

  /** The appends of one chunk: length, tag, data, checksum. */
  method AppendChunk(o: seq<byte>, tag: seq<byte>, data: seq<byte>) returns (o': seq<byte>)
    requires |tag| == 4
    ensures o' == o + Framed(tag, data)
  {
    hide Be32, CrcBytes, Crc32.Crc, ToBv;
    o' := o + Be32(|data|);
    o' := o' + tag;
    o' := o' + data;
    assert o'[|o'| - |data| - 4..] == tag + data;
    o' := WpCrc(o', |data|);
  }

  /** Zlib data of any scanlines of the image decodes to its rows. */
  lemma PixelsDecode(img: Image, flip: bool, fs: seq<byte>, zlib: seq<byte>)
    requires img.InBounds() && |fs| == img.height > 0 && forall f :: f in fs ==> f <= 4
    requires Inflate.Decode(zlib) == Some(Scanlines(img, flip, fs, 0))
    ensures DecodePixels(img.width, img.height, img.n, zlib)
            == Some(Picture(img.width, img.height, img.n, img.Rows(flip, 0)))
  {
    hide Inflate.Decode, Scanlines, Unfilter;
    UnfilterScanlines(img, flip, fs, 0);
    RowCount(img, flip, 0);
  }

  lemma {:induction false} RowCount(img: Image, flip: bool, y: nat)
    requires img.InBounds() && y <= img.height
    ensures |img.Rows(flip, y)| == img.height - y
    decreases img.height - y
  {
    hide Image.Row;
    if y < img.height { RowCount(img, flip, y + 1); }
  }

  /** The file around the scanlines of the filter setting, compressed at that level. */
  ghost predicate WrittenAs(out: seq<byte>, img: Image, flip: bool, force: int, level: int)
    requires img.InBounds()
  {
    exists filt, zlib ::
      IsFiltered(img, flip, force, filt) && ZlibCompress.Deflated(zlib, filt, level)
      && out == File(img.width, img.height, img.n, zlib)
  }

  /**
   stbi_write_png_to_mem. It stays inside its buffers exactly when StaysInside says so. Then the file parses,
   every checksum matches, and the pixels come back, for every stride, channel count, orientation, filter setting
   and compression level, exactly when there is a pixel. The lengths must fit an int.
   */
  method WritePngToMem(pixels: Image, flip: bool, force: int, level: int) returns (inside: bool, out: seq<byte>)
    requires pixels.Strided().InBounds() && pixels.width < WORD && pixels.height < WORD
    requires 57 + ZlibCompress.MaxSize(pixels.height * (pixels.RowBytes() + 1)) <= 0x7fff_ffff
    ensures inside <==> StaysInside(pixels, force)
    ensures inside && (pixels.width == 0 || pixels.height == 0) ==> DecodePng(out) == None
    ensures inside && pixels.width > 0 && pixels.height > 0 ==>
      DecodePng(out) == Some(Picture(pixels.width, pixels.height, pixels.n, pixels.Strided().Rows(flip, 0)))
    ensures inside ==> WrittenAs(out, pixels.Strided(), flip, force, level)
  {
    hide ZlibCompress.Deflated;
    hide Inflate.Decode, Scanlines, DecodePng, Framed, HeaderData, FilterObeys, ZlibCompress.MaxSize;
    var img := pixels.Strided();
    var filt;
    inside, filt := FilterImage(img, flip, force);
    if !inside {
      return false, [];
    }
    ghost var fs: seq<byte> :| FiltersObey(img, flip, force, fs) && filt == Scanlines(img, flip, fs, 0);
    ScanlinesLength(img, flip, fs, 0);
    var zlib := ZlibCompress.Compress(filt, level);
    if img.height > 0 {
      MulMonotone(1, img.height, img.RowBytes() + 1);
      PixelsDecode(img, flip, fs, zlib);
    }
    out := SIGNATURE;
    out := AppendChunk(out, IHDR, HeaderData(img.width, img.height, ColorType(img.n)));
    out := AppendChunk(out, IDAT, zlib);
    out := AppendChunk(out, IEND, []);
    assert out == File(img.width, img.height, img.n, zlib);
    DecodeFile(img.width, img.height, img.n, zlib);
  }
}
