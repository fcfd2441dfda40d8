/** The per-row filters of the PNG writer, and the reconstruction of section 6 of RFC 2083. */
module PngFilter {
  import opened Prelude
  import opened Bytes

  // ---- Reconstruction (RFC 2083 sections 6.2 to 6.6) ----

  function PaethPredictor(a: byte, b: byte, c: byte): byte {
    var p := a as int + b - c;
    var pa, pb, pc := Abs(p - a), Abs(p - b), Abs(p - c);
    if pa <= pb && pa <= pc then a else if pb <= pc then b else c
  }

  /** The predictor from the byte to the left, above, and above left. */
  function Predict(filter: nat, a: byte, b: byte, c: byte): (r: nat)
    ensures r <= 255
  {
    match filter
    case 0 => 0
    case 1 => a
    case 2 => b
    case 3 => (a as int + b) / 2
    case _ => PaethPredictor(a, b, c)
  }

  /** Byte `k - bpp` of a row, 0 left of the row. */
  function Left(row: seq<byte>, bpp: nat, k: nat): byte
    requires k <= |row| && bpp > 0
  {
    if k < bpp then 0 else row[k - bpp]
  }

  /** The first `k` bytes of the row whose filtered form is `filt`. */
  function Reconstruct(filter: nat, bpp: nat, prior: seq<byte>, filt: seq<byte>, k: nat): (row: seq<byte>)
    requires |prior| == |filt| && k <= |filt| && bpp > 0
    ensures |row| == k
  {
    if k == 0 then [] else
    var done := Reconstruct(filter, bpp, prior, filt, k - 1);
    var p := Predict(filter, Left(done, bpp, k - 1), prior[k - 1], Left(prior, bpp, k - 1));
    done + [(filt[k - 1] as int + p) % 256]
  }

  /** Scanlines of a filter-type byte and `width` filtered bytes; the row above the first is zero. */
  function Unfilter(data: seq<byte>, bpp: nat, prior: seq<byte>): (rows: Option<seq<seq<byte>>>)
    requires bpp > 0
    decreases |data|
  {
    if |data| == 0 then Some([]) else
    if |data| < 1 + |prior| || data[0] > 4 then None else
    var row := Reconstruct(data[0], bpp, prior, data[1..1 + |prior|], |prior|);
    match Unfilter(data[1 + |prior|..], bpp, row)
    case None => None
    case Some(rest) => Some([row] + rest)
  }

  // ---- Filtering ----

  function FilterByte(filter: nat, bpp: nat, prior: seq<byte>, row: seq<byte>, k: nat): byte
    requires |prior| == |row| && k < |row| && bpp > 0
  {
    (row[k] as int - Predict(filter, Left(row, bpp, k), prior[k], Left(prior, bpp, k))) % 256
  }

  /** The filtered form of a row. */
  function Filtered(filter: nat, bpp: nat, prior: seq<byte>, row: seq<byte>): (r: seq<byte>)
    requires |prior| == |row| && bpp > 0
    ensures |r| == |row|
  {
    seq(|row|, k requires 0 <= k < |row| => FilterByte(filter, bpp, prior, row, k))
  }

  lemma AddBack(x: byte, p: nat)
    requires p <= 255
    ensures ((x as int - p) % 256 + p) % 256 == x
  {
  }

  /** Reconstruction undoes filtering, byte by byte. */
  lemma {:induction false} ReconstructFiltered(filter: nat, bpp: nat, prior: seq<byte>, row: seq<byte>, k: nat)
    requires |prior| == |row| && k <= |row| && bpp > 0
    ensures Reconstruct(filter, bpp, prior, Filtered(filter, bpp, prior, row), k) == row[..k]
  {
    hide Predict;
    if k > 0 {
      ReconstructFiltered(filter, bpp, prior, row, k - 1);
      assert Left(row[..k - 1], bpp, k - 1) == Left(row, bpp, k - 1);
      AddBack(row[k - 1], Predict(filter, Left(row, bpp, k - 1), prior[k - 1], Left(prior, bpp, k - 1)));
      assert row[..k] == row[..k - 1] + [row[k - 1]];
    }
  }

  // ---- Images ----

  /** `n` channels a pixel; row `r` starts `stride * r` bytes after `base`. Rows may overlap. */
  datatype Image = Image(buf: seq<byte>, base: nat, stride: int, width: nat, height: nat, n: nat) {
    function RowBytes(): nat { width * n }

    predicate InBounds() {
      1 <= n <= 4 &&
      forall r {:trigger At(r)} :: 0 <= r < height ==> 0 <= At(r) && At(r) + RowBytes() <= |buf|
    }

    function At(r: int): int { base + stride * r }

    /** A stride of 0 stands for rows without gaps. */
    function Strided(): Image {
      if stride == 0 then this.(stride := RowBytes()) else this
    }

    /** The row written as number `y`: bottom up when flipping. */
    function Row(flip: bool, y: nat): (row: seq<byte>)
      requires InBounds() && y < height
      ensures |row| == RowBytes()
    {
      var at := At(if flip then height - 1 - y else y);
      buf[at..at + RowBytes()]
    }

    /** What the filters see above row `y`. */
    function Prior(flip: bool, y: nat): (row: seq<byte>)
      requires InBounds() && y < height
      ensures |row| == RowBytes()
    {
      if y == 0 then seq(RowBytes(), _ => 0) else Row(flip, y - 1)
    }

    function Rows(flip: bool, from: nat): (rows: seq<seq<byte>>)
      requires InBounds() && from <= height
      decreases height - from
    {
      if from == height then [] else [Row(flip, from)] + Rows(flip, from + 1)
    }
  }

  // ---- stbiw__encode_png_line ----

  /** stbiw__paeth. */
  function StbiwPaeth(a: int, b: int, c: int): int {
    var p := a + b - c;
    var pa, pb, pc := Abs(p - a), Abs(p - b), Abs(p - c);
    if pa <= pb && pa <= pc then a else if pb <= pc then b else c
  }

  /** `mapping` and `firstmap`. */
  function TypeFor(y: nat, filter: nat): nat
    requires filter <= 4
  {
    if y != 0 then filter else match filter case 0 => 0 case 1 => 1 case 2 => 0 case 3 => 5 case _ => 6
  }

  /** The remapped types use the row above only where there is one. */
  predicate ReadsAbove(t: nat) { t == 2 || t == 3 || t == 4 }

  /** The switch for the first pixel; `at` is the byte's offset. */
  function FirstByte(buf: seq<byte>, t: nat, at: int, signedStride: int): byte
    requires 0 <= at < |buf| && (ReadsAbove(t) ==> 0 <= at - signedStride < |buf|)
  {
    match t
    case 2 => (buf[at] as int - buf[at - signedStride]) % 256
    case 3 => (buf[at] as int - buf[at - signedStride] / 2) % 256
    case 4 => (buf[at] as int - StbiwPaeth(0, buf[at - signedStride], 0)) % 256
    case _ => buf[at]
  }

  /** The loops for the other pixels. */
  function RestByte(buf: seq<byte>, t: nat, at: int, signedStride: int, n: nat): byte
    requires 0 <= at - n && at < |buf|
    requires ReadsAbove(t) ==> 0 <= at - signedStride - n && at - signedStride < |buf|
  {
    match t
    case 1 => (buf[at] as int - buf[at - n]) % 256
    case 2 => (buf[at] as int - buf[at - signedStride]) % 256
    case 3 => (buf[at] as int - (buf[at - n] as int + buf[at - signedStride]) / 2) % 256
    case 4 => (buf[at] as int - StbiwPaeth(buf[at - n], buf[at - signedStride], buf[at - signedStride - n])) % 256
    case 5 => (buf[at] as int - buf[at - n] / 2) % 256
    case 6 => (buf[at] as int - StbiwPaeth(buf[at - n], 0, 0)) % 256
    case _ => buf[at]
  }

  /** What the arithmetic of one byte comes to, in terms of the predictor. */
  lemma FirstByteArithmetic(z: byte, up: byte)
    ensures z == (z as int - Predict(0, 0, up, 0)) % 256 == (z as int - Predict(1, 0, up, 0)) % 256
    ensures Predict(2, 0, up, 0) == up && Predict(3, 0, up, 0) == up / 2 && Predict(4, 0, up, 0) == StbiwPaeth(0, up, 0)
  {
  }

  /** Above the first row everything is zero, which is what types 5 and 6 and the plain copy assume. */
  lemma ZeroRowArithmetic(z: byte, a: byte)
    ensures Predict(1, a, 0, 0) == a && Predict(2, a, 0, 0) == 0 && Predict(3, a, 0, 0) == a / 2
    ensures Predict(4, a, 0, 0) == StbiwPaeth(a, 0, 0)
    ensures Predict(3, 0, 0, 0) == 0 && Predict(4, 0, 0, 0) == 0
    ensures z as int % 256 == z
  {
  }

  lemma NextRow(img: Image, r: int)
    ensures img.At(r + 1) == img.At(r) + img.stride
  {
  }

  /** Where byte `i` of a written row and the byte above it lie in the buffer. */
  lemma Offsets(img: Image, flip: bool, y: nat, i: nat)
    requires img.InBounds() && y < img.height && i < img.RowBytes()
    ensures var z := img.At(if flip then img.height - 1 - y else y) + i;
      var up := z - (if flip then -img.stride else img.stride);
      && 0 <= z < |img.buf| && img.Row(flip, y)[i] == img.buf[z]
      && (y == 0 ==> img.Prior(flip, y)[i] == 0)
      && (y > 0 ==> 0 <= up < |img.buf| && img.Prior(flip, y)[i] == img.buf[up])
  {
    hide Image.At, Image.RowBytes;
    var r := if flip then img.height - 1 - y else y;
    assert 0 <= img.At(r) && img.At(r) + img.RowBytes() <= |img.buf|;
    if y > 0 {
      var r' := if flip then img.height - 1 - (y - 1) else y - 1;
      assert 0 <= img.At(r') && img.At(r') + img.RowBytes() <= |img.buf|;
      NextRow(img, if flip then r else r');
    }
  }

  lemma FirstByteIs(img: Image, flip: bool, y: nat, filter: nat, i: nat)
    requires img.InBounds() && img.width >= 1 && y < img.height && filter <= 4 && i < img.n
    ensures var z := img.At(if flip then img.height - 1 - y else y) + i;
      var signedStride := if flip then -img.stride else img.stride;
      var t := TypeFor(y, filter);
      && i < img.RowBytes()
      && 0 <= z < |img.buf| && (ReadsAbove(t) ==> 0 <= z - signedStride < |img.buf|)
      && FirstByte(img.buf, t, z, signedStride) == FilterByte(filter, img.n, img.Prior(flip, y), img.Row(flip, y), i)
  {
    MulMonotone(1, img.width, img.n);
    assert i < img.RowBytes();
    Offsets(img, flip, y, i);
    var row, prior := img.Row(flip, y), img.Prior(flip, y);
    hide Predict, StbiwPaeth;
    FirstByteArithmetic(row[i], prior[i]);
    ZeroRowArithmetic(row[i], 0);
  }

  lemma RestByteIs(img: Image, flip: bool, y: nat, filter: nat, i: nat)
    requires img.InBounds() && y < img.height && filter <= 4 && img.n <= i < img.RowBytes()
    ensures var z := img.At(if flip then img.height - 1 - y else y) + i;
      var signedStride := if flip then -img.stride else img.stride;
      var t := TypeFor(y, filter);
      && 0 <= z - img.n && z < |img.buf|
      && (ReadsAbove(t) ==> 0 <= z - signedStride - img.n && z - signedStride < |img.buf|)
      && RestByte(img.buf, t, z, signedStride, img.n)
         == FilterByte(filter, img.n, img.Prior(flip, y), img.Row(flip, y), i)
  {
    hide Image.Row, Image.Prior, Image.At, Image.RowBytes, Predict, StbiwPaeth;
    Offsets(img, flip, y, i);
    Offsets(img, flip, y, i - img.n);
    var row, prior := img.Row(flip, y), img.Prior(flip, y);
    RestByteArithmetic(row[i - img.n], prior[i], prior[i - img.n]);
    ZeroRowArithmetic(row[i], row[i - img.n]);
  }

  lemma RestByteArithmetic(a: byte, b: byte, c: byte)
    ensures Predict(0, a, b, c) == 0 && Predict(1, a, b, c) == a && Predict(2, a, b, c) == b
    ensures Predict(3, a, b, c) == (a as int + b) / 2 && Predict(4, a, b, c) == StbiwPaeth(a, b, c)
  {
  }

  /** stbiw__encode_png_line. The first pixel is filtered without a look at the width: a row without pixels stays inside
      the line buffer exactly when it is only copied. */
  method EncodePngLine(img: Image, flip: bool, y: nat, filter: nat, line: array<byte>) returns (inside: bool)
    requires img.InBounds() && y < img.height && filter <= 4 && line.Length == img.RowBytes()
    modifies line
    ensures inside <==> img.width > 0 || TypeFor(y, filter) == 0
    ensures inside ==> line[..] == Filtered(filter, img.n, img.Prior(flip, y), img.Row(flip, y))
  {
    hide FirstByte, RestByte, FilterByte;
    var t := TypeFor(y, filter);
    var n, len := img.n, img.RowBytes();
    if img.width > 0 { MulMonotone(1, img.width, n); }
    var z := img.At(if flip then img.height - 1 - y else y);
    var signedStride := if flip then -img.stride else img.stride;
    ghost var row, prior := img.Row(flip, y), img.Prior(flip, y);
    if t == 0 {
      for i := 0 to len
        invariant forall k :: 0 <= k < i ==> line[k] == FilterByte(filter, n, prior, row, k)
      {
        CopiedByteIs(img, flip, y, filter, i);
        line[i] := img.buf[z + i];
      }
      return true;
    }
    for i := 0 to n
      invariant i > 0 ==> img.width > 0
      invariant img.width > 0 ==> forall k :: 0 <= k < i ==> line[k] == FilterByte(filter, n, prior, row, k)
    {
      if i >= line.Length {
        return false;
      }
      FirstByteIs(img, flip, y, filter, i);
      line[i] := FirstByte(img.buf, t, z + i, signedStride);
    }
    for i := n to len
      invariant forall k :: 0 <= k < i ==> line[k] == FilterByte(filter, n, prior, row, k)
    {
      RestByteIs(img, flip, y, filter, i);
      line[i] := RestByte(img.buf, t, z + i, signedStride, n);
    }
    inside := true;
  }

  /** Type 0 is a plain copy: for filter 0 everywhere and for filter 2 on the first row. */
  lemma CopiedByteIs(img: Image, flip: bool, y: nat, filter: nat, i: nat)
    requires img.InBounds() && y < img.height && filter <= 4 && i < img.RowBytes() && TypeFor(y, filter) == 0
    ensures var z := img.At(if flip then img.height - 1 - y else y) + i;
      0 <= z < |img.buf| && img.buf[z] == FilterByte(filter, img.n, img.Prior(flip, y), img.Row(flip, y), i)
  {
    Offsets(img, flip, y, i);
  }
}
