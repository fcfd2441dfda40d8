/** The PNG writer byte by byte: filters, the predictor, residuals, the framing of a file, and where its pixels come
    from. */
module PngLaws {
  import opened Prelude
  import opened Bytes
  import opened PngFilter
  import opened PngChunks
  import opened Png
  import Crc32

  // ---- Filters ----

  /** Section 6.6 of RFC 2083: of left, above and upper left the one nearest to left plus above minus upper left; on a tie
      left comes first, then above. */
  lemma PredictorIsNearest(a: byte, b: byte, c: byte)
    ensures var r, p := PaethPredictor(a, b, c), a as int + b as int - c as int;
      (r == a || r == b || r == c)
      && Abs(p - r) <= Abs(p - a) && Abs(p - r) <= Abs(p - b) && Abs(p - r) <= Abs(p - c)
      && (r != a ==> Abs(p - r) < Abs(p - a)) && (r != a && r != b ==> Abs(p - r) < Abs(p - b))
  {
  }

  /** A filtered byte and what was subtracted add up to the byte again. */
  predicate Differs(filtered: byte, x: byte, p: int) {
    (filtered as int + p - x as int) % 256 == 0
  }

  lemma FilteredAt(filter: nat, bpp: nat, prior: seq<byte>, row: seq<byte>, k: nat, p: int)
    requires |prior| == |row| && k < |row| && bpp > 0
    requires Predict(filter, Left(row, bpp, k), prior[k], Left(prior, bpp, k)) == p
    ensures Differs(Filtered(filter, bpp, prior, row)[k], row[k], p)
  {
    hide Predict, Left, Differs;
    assert Filtered(filter, bpp, prior, row)[k] == FilterByte(filter, bpp, prior, row, k);
    DifferenceFits(row[k], p);
  }

  lemma Predictions(left: byte, above: byte, corner: byte)
    ensures Predict(0, left, above, corner) == 0 && Predict(1, left, above, corner) == left
    ensures Predict(2, left, above, corner) == above
    ensures Predict(3, left, above, corner) == (left as int + above as int) / 2
    ensures Predict(4, left, above, corner) == PaethPredictor(left, above, corner)
  {
    hide PaethPredictor;
  }

  lemma OnlyItself(filtered: byte, x: byte)
    requires Differs(filtered, x, 0)
    ensures filtered == x
  {
  }

  lemma DifferenceFits(x: byte, p: int)
    ensures Differs((x as int - p) % 256, x, p)
  {
    var q := x as int - p;
    assert q % 256 + p - x as int == -(q / 256) * 256;
    Multiple(-(q / 256));
  }

  lemma Multiple(k: int)
    ensures k * 256 % 256 == 0
  {
  }

  /** What each filter subtracts: nothing, the byte `bpp` before, the byte above, half of their sum, the predictor; outside
      the image everything is zero. */
  lemma FiltersMean(bpp: nat, prior: seq<byte>, row: seq<byte>, k: nat)
    requires |prior| == |row| && k < |row| && bpp > 0
    ensures var left, above := if k < bpp then 0 else row[k - bpp], prior[k];
      var corner := if k < bpp then 0 else prior[k - bpp];
      Filtered(0, bpp, prior, row)[k] == row[k]
      && Differs(Filtered(1, bpp, prior, row)[k], row[k], left)
      && Differs(Filtered(2, bpp, prior, row)[k], row[k], above)
      && Differs(Filtered(3, bpp, prior, row)[k], row[k], (left as int + above as int) / 2)
      && Differs(Filtered(4, bpp, prior, row)[k], row[k], PaethPredictor(left, above, corner))
  {
    var left: byte, above := if k < bpp then 0 else row[k - bpp], prior[k];
    var corner: byte := if k < bpp then 0 else prior[k - bpp];
    Predictions(left, above, corner);
    assert Left(row, bpp, k) == left && Left(prior, bpp, k) == corner;
    hide *;
    FilteredAt(0, bpp, prior, row, k, 0);
    FilteredAt(1, bpp, prior, row, k, left);
    FilteredAt(2, bpp, prior, row, k, above);
    FilteredAt(3, bpp, prior, row, k, (left as int + above as int) / 2);
    FilteredAt(4, bpp, prior, row, k, PaethPredictor(left, above, corner));
    OnlyItself(Filtered(0, bpp, prior, row)[k], row[k]);
  }

  /** A residual counts for its distance from zero, going round at 256. */
  lemma ResidualCounts(line: seq<byte>, b: byte)
    ensures Residual([]) == 0
    ensures Residual(line + [b]) == Residual(line) + if b <= 128 then b as int else 256 - b as int
  {
    assert (line + [b])[..|line|] == line;
  }

  // ---- Where the pixels come from ----

  /** Byte `k` of a written row: rows are `stride` bytes apart, or follow without gaps for a stride of 0, and come bottom
      first when flipped. */
  lemma RowBytesAre(img: Image, flip: bool, y: nat, k: nat)
    requires img.Strided().InBounds() && y < img.height && k < img.width * img.n
    ensures var step := if img.stride == 0 then img.width * img.n else img.stride;
      var at := img.base + step * (if flip then img.height - 1 - y else y) + k;
      0 <= at < |img.buf| && |img.Strided().Rows(flip, 0)| == img.height
      && k < |img.Strided().Rows(flip, 0)[y]| && img.Strided().Rows(flip, 0)[y][k] == img.buf[at]
  {
    var s := img.Strided();
    RowsAre(s, flip, 0, y);
    RowCount(s, flip, 0);
    assert 0 <= s.At(if flip then img.height - 1 - y else y);
    hide Image.Rows;
  }

  lemma {:induction false} RowsAre(img: Image, flip: bool, from: nat, y: nat)
    requires img.InBounds() && from <= y < img.height
    ensures y - from < |img.Rows(flip, from)| && img.Rows(flip, from)[y - from] == img.Row(flip, y)
    decreases img.height - from
  {
    hide Image.Row, Image.InBounds;
    if from < y { RowsAre(img, flip, from + 1, y); }
  }

  // ---- The file ----

  /** The signature, and an IHDR chunk of 13 bytes: width and height with the highest byte first, 8 bits a sample, the
      colour type, and three zeros. */
  lemma FileStarts(width: nat, height: nat, n: nat, zlib: seq<byte>)
    requires 1 <= n <= 4 && width < WORD && height < WORD
    ensures var f := File(width, height, n, zlib);
      |f| >= 33 && f[..16] == [137, 80, 78, 71, 13, 10, 26, 10, 0, 0, 0, 13, 73, 72, 68, 82]
      && f[24..29] == [8, if n == 1 then 0 else if n == 2 then 4 else if n == 3 then 2 else 6, 0, 0, 0]
      && ((f[16] as int * 256 + f[17]) * 256 + f[18]) * 256 + f[19] == width
      && ((f[20] as int * 256 + f[21]) * 256 + f[22]) * 256 + f[23] == height
  {
    var f := File(width, height, n, zlib);
    Be32RoundTrip(width);
    Be32RoundTrip(height);
    assert Be32(13) == [0, 0, 0, 13];
    var data := HeaderData(width, height, ColorType(n));
    hide Be32, CrcBytes, Crc32.Crc, ToBv;
    var rest := CrcBytes(Crc32.Crc(ToBv(IHDR + data))) + (Framed(IDAT, zlib) + Framed(IEND, []));
    assert f == SIGNATURE + Be32(13) + IHDR + data + rest by { FiveParts(width, height, n, zlib, data, rest); }
    FromHeader(Be32(13), data, Be32(width), Be32(height), ColorType(n), rest);
  }

  lemma FiveParts(width: nat, height: nat, n: nat, zlib: seq<byte>, data: seq<byte>, rest: seq<byte>)
    requires 1 <= n <= 4 && data == HeaderData(width, height, ColorType(n))
    requires rest == CrcBytes(Crc32.Crc(ToBv(IHDR + data))) + (Framed(IDAT, zlib) + Framed(IEND, []))
    ensures File(width, height, n, zlib) == SIGNATURE + Be32(13) + IHDR + data + rest
  {
    hide Be32, CrcBytes, Crc32.Crc, ToBv, HeaderData;
    var more := Framed(IDAT, zlib) + Framed(IEND, []);
    assert Framed(IHDR, data) == Be32(13) + IHDR + data + CrcBytes(Crc32.Crc(ToBv(IHDR + data)));
    hide Framed;
    Regroup(SIGNATURE, Be32(13), IHDR, data, CrcBytes(Crc32.Crc(ToBv(IHDR + data))), more);
  }

  lemma Regroup(a: seq<byte>, b: seq<byte>, c: seq<byte>, d: seq<byte>, e: seq<byte>, f: seq<byte>)
    ensures a + ((b + c + d + e) + f) == a + b + c + d + (e + f)
  {
  }

  lemma FromHeader(len: seq<byte>, data: seq<byte>, w: seq<byte>, h: seq<byte>, kind: byte, rest: seq<byte>)
    requires |len| == 4 && |w| == 4 && |h| == 4 && data == w + h + [8, kind, 0, 0, 0]
    ensures var f := SIGNATURE + len + IHDR + data + rest;
      f[..16] == SIGNATURE + len + IHDR && f[16..20] == w && f[20..24] == h && f[24..29] == [8, kind, 0, 0, 0]
  {
  }

  /** It ends in an empty IEND chunk, whose twelve bytes are known. */
  lemma FileEnds(width: nat, height: nat, n: nat, zlib: seq<byte>)
    requires 1 <= n <= 4
    ensures var f := File(width, height, n, zlib);
      |f| >= 12 && f[|f| - 12..] == [0, 0, 0, 0, 73, 69, 78, 68, 0xAE, 0x42, 0x60, 0x82]
  {
    EndChunk();
    var f := File(width, height, n, zlib);
    hide Framed;
    var front := SIGNATURE + (Framed(IHDR, HeaderData(width, height, ColorType(n))) + Framed(IDAT, zlib));
    hide HeaderData;
    assert f == front + Framed(IEND, []);
  }

  /** The chunk of the pixels: length, tag, the zlib stream and four bytes of checksum. */
  lemma DataChunk(zlib: seq<byte>)
    requires |zlib| < WORD
    ensures var c := Framed(IDAT, zlib);
      |c| == |zlib| + 12 && c[4..8 + |zlib|] == [73, 68, 65, 84] + zlib
      && ((c[0] as int * 256 + c[1]) * 256 + c[2]) * 256 + c[3] == |zlib|
  {
    Be32RoundTrip(|zlib|);
    hide Crc32.Crc, ToBv;
  }

  lemma EndChunk()
    ensures Framed(IEND, []) == [0, 0, 0, 0, 73, 69, 78, 68, 0xAE, 0x42, 0x60, 0x82]
  {
    var tag: seq<bv8> := [73, 69, 78, 68];
    assert IEND + [] == IEND && ToBv(IEND) == tag;
    assert Be32(0) == [0, 0, 0, 0];
    Crc32.CheckIend();
    assert CrcBytes(0xAE42_6082) == [0xAE, 0x42, 0x60, 0x82];
    hide Crc32.Crc, CrcBytes, ToBv, Be32;
  }
}
