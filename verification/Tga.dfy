/** stbi_write_tga_core in its run-length form, and a decoder for what it writes. */
module Tga {
  import opened Prelude
  import opened Bytes
  import opened RunLength
  import opened WriteContext

  /** One to four channel bytes. */
  type Pixel = seq<byte>

  predicate Pixels(row: seq<Pixel>, comp: nat) {
    forall i :: 0 <= i < |row| ==> |row[i]| == comp
  }

  /** Colour is stored blue first; grey and alpha stay where they are. */
  function Swapped(d: Pixel): (r: Pixel)
    ensures |r| == |d|
    ensures |d| <= 2 ==> r == d
    ensures |d| >= 3 ==> r[0] == d[2] && r[1] == d[1] && r[2] == d[0] && r[3..] == d[3..]
  {
    if |d| < 3 then d else [d[2], d[1], d[0]] + d[3..]
  }

  lemma SwappedTwice(d: Pixel)
    ensures Swapped(Swapped(d)) == d
  {
    var r := Swapped(Swapped(d));
    if |d| >= 3 {
      assert forall i :: 0 <= i < |d| ==> r[i] == d[i] by {
        forall i | 3 <= i < |d| ensures r[i] == d[i] {
          assert r[i] == r[3..][i - 3] && d[i] == d[3..][i - 3];
        }
      }
    }
  }

  // ---- The decoder ----

  function ReadPixels(s: seq<byte>, comp: nat, n: nat): (r: Option<(seq<Pixel>, seq<byte>)>)
    ensures r.Some? ==> |r.value.0| == n && |r.value.1| <= |s|
    decreases n
  {
    if n == 0 then Some(([], s)) else
    if |s| < comp then None else
    match ReadPixels(s[comp..], comp, n - 1)
    case None => None
    case Some((more, rest)) => Some(([Swapped(s[..comp])] + more, rest))
  }

  /** Packets for exactly `left` pixels; a packet that would cross the row end is an error. */
  function DecodeRow(s: seq<byte>, comp: nat, left: nat): (r: Option<(seq<Pixel>, seq<byte>)>)
    ensures r.Some? ==> |r.value.0| == left && |r.value.1| <= |s|
    decreases left
  {
    if left == 0 then Some(([], s)) else
    if |s| == 0 then None else
    var n: nat := if s[0] < 128 then s[0] + 1 else s[0] - 127;
    if n > left then None else
    match ReadPixels(s[1..], comp, if s[0] < 128 then n else 1)
    case None => None
    case Some((px, rest)) =>
      match DecodeRow(rest, comp, left - n)
      case None => None
      case Some((more, rest')) => Some(((if s[0] < 128 then px else seq(n, _ => px[0])) + more, rest'))
  }

  function DecodeRows(s: seq<byte>, comp: nat, width: nat, count: nat): Option<(seq<seq<Pixel>>, seq<byte>)>
    decreases count
  {
    if count == 0 then Some(([], s)) else
    match DecodeRow(s, comp, width)
    case None => None
    case Some((row, rest)) =>
      match DecodeRows(rest, comp, width, count - 1)
      case None => None
      case Some((more, rest')) => Some(([row] + more, rest'))
  }

  datatype Image = Image(width: nat, height: nat, comp: nat, rows: seq<seq<Pixel>>)

  /** Image types 10 and 11 with 8-bit channels; rows are bottom to top unless written flipped. */
  function ChannelsOf(kind: byte, bpp: byte, alpha: byte): nat {
    if kind == 11 && bpp == 8 && alpha == 0 then 1 else
    if kind == 11 && bpp == 16 && alpha == 8 then 2 else
    if kind == 10 && bpp == 24 && alpha == 0 then 3 else
    if kind == 10 && bpp == 32 && alpha == 8 then 4 else 0
  }

  function FromLe16(low: byte, high: byte): nat { low as int + 256 * (high as int) }

  function DecodeBody(h: seq<byte>, body: seq<byte>): Option<Image>
    requires |h| == 18
  {
    if h[0] != 0 || h[1] != 0 then None else
    var comp := ChannelsOf(h[2], h[16], h[17]);
    if comp == 0 then None else
    var width, height := FromLe16(h[12], h[13]), FromLe16(h[14], h[15]);
    Complete(width, height, comp, DecodeRows(body, comp, width, height))
  }

  /** Nothing may follow the rows. */
  function Complete(width: nat, height: nat, comp: nat, decoded: Option<(seq<seq<Pixel>>, seq<byte>)>): Option<Image> {
    match decoded
    case None => None
    case Some((rows, rest)) => if rest == [] then Some(Image(width, height, comp, rows)) else None
  }

  function Decode(file: seq<byte>): Option<Image> {
    if |file| < 18 then None else DecodeBody(file[..18], file[18..])
  }

  // ---- What the packets look like ----

  function Flat(px: seq<Pixel>): seq<byte> {
    if |px| == 0 then [] else Swapped(px[0]) + Flat(px[1..])
  }

  predicate ValidPacket(p: Packet<Pixel>, comp: nat) {
    1 <= p.Length() <= 128 && match p case Literal(items) => Pixels(items, comp) case Repeat(_, item) => |item| == comp
  }

  function PacketBytes(p: Packet<Pixel>, comp: nat): seq<byte>
    requires ValidPacket(p, comp)
  {
    match p
    case Literal(items) => [|items| - 1] + Flat(items)
    case Repeat(count, item) => [count + 127] + Swapped(item)
  }

  predicate ValidPackets(ps: seq<Packet<Pixel>>, comp: nat) {
    forall i :: 0 <= i < |ps| ==> ValidPacket(ps[i], comp)
  }

  function PacketsBytes(ps: seq<Packet<Pixel>>, comp: nat): seq<byte>
    requires ValidPackets(ps, comp)
  {
    if |ps| == 0 then [] else PacketBytes(ps[0], comp) + PacketsBytes(ps[1..], comp)
  }

  lemma {:induction false} PacketsBytesSnoc(ps: seq<Packet<Pixel>>, p: Packet<Pixel>, comp: nat)
    requires ValidPackets(ps, comp) && ValidPacket(p, comp)
    ensures ValidPackets(ps + [p], comp)
    ensures PacketsBytes(ps + [p], comp) == PacketsBytes(ps, comp) + PacketBytes(p, comp)
  {
    hide PacketBytes, ValidPacket;
    if |ps| == 0 {
      assert ps + [p] == [p] && [p][1..] == [];
      assert PacketsBytes([p], comp) == PacketBytes(p, comp) + PacketsBytes([], comp);
    } else {
      PacketsBytesSnoc(ps[1..], p, comp);
      assert (ps + [p])[1..] == ps[1..] + [p];
      ConcatAssociates(PacketBytes(ps[0], comp), PacketsBytes(ps[1..], comp), PacketBytes(p, comp));
    }
  }

  lemma {:induction false} ReadFlat(px: seq<Pixel>, comp: nat, rest: seq<byte>)
    requires Pixels(px, comp)
    ensures ReadPixels(Flat(px) + rest, comp, |px|) == Some((px, rest))
  {
    if |px| == 0 {
      assert Flat(px) + rest == rest;
    } else {
      ReadFlat(px[1..], comp, rest);
      ConcatAssociates(Swapped(px[0]), Flat(px[1..]), rest);
      var s := Swapped(px[0]) + (Flat(px[1..]) + rest);
      assert s[..comp] == Swapped(px[0]) && s[comp..] == Flat(px[1..]) + rest;
      SwappedTwice(px[0]);
      assert [px[0]] + px[1..] == px;
    }
  }

  lemma DecodeLiteral(items: seq<Pixel>, comp: nat, left: nat, tail: seq<byte>, more: seq<Pixel>, rest: seq<byte>)
    requires ValidPacket(Literal(items), comp) && |items| <= left
    requires DecodeRow(tail, comp, left - |items|) == Some((more, rest))
    ensures DecodeRow(PacketBytes(Literal(items), comp) + tail, comp, left) == Some((items + more, rest))
  {
    hide Swapped, Flat, ReadPixels;
    var s := PacketBytes(Literal(items), comp) + tail;
    assert s[1..] == Flat(items) + tail && s[0] == |items| - 1;
    ReadFlat(items, comp, tail);
  }

  lemma DecodeRepeat(count: nat, item: Pixel, comp: nat, left: nat, tail: seq<byte>, more: seq<Pixel>, rest: seq<byte>)
    requires ValidPacket(Repeat(count, item), comp) && count <= left
    requires DecodeRow(tail, comp, left - count) == Some((more, rest))
    ensures DecodeRow(PacketBytes(Repeat(count, item), comp) + tail, comp, left)
            == Some((seq(count, _ => item) + more, rest))
  {
    FlatOfOne(item);
    hide Swapped, Flat, ReadPixels;
    var s := PacketBytes(Repeat(count, item), comp) + tail;
    assert s[1..] == Flat([item]) + tail && s[0] == count + 127;
    ReadFlat([item], comp, tail);
  }

  lemma FlatOfOne(item: Pixel)
    ensures Flat([item]) == Swapped(item)
  {
    hide Swapped;
    assert [item][1..] == [];
    assert Flat([item]) == Swapped(item) + Flat([]);
  }

  lemma DecodePacket(p: Packet<Pixel>, comp: nat, left: nat, tail: seq<byte>, more: seq<Pixel>, rest: seq<byte>)
    requires ValidPacket(p, comp) && p.Length() <= left
    requires DecodeRow(tail, comp, left - p.Length()) == Some((more, rest))
    ensures DecodeRow(PacketBytes(p, comp) + tail, comp, left) == Some((p.Items() + more, rest))
  {
    hide DecodeRow, PacketBytes;
    match p {
      case Literal(items) => DecodeLiteral(items, comp, left, tail, more, rest);
      case Repeat(count, item) => DecodeRepeat(count, item, comp, left, tail, more, rest);
    }
  }

  lemma {:induction false} DecodePackets(ps: seq<Packet<Pixel>>, comp: nat, rest: seq<byte>)
    requires ValidPackets(ps, comp)
    ensures DecodeRow(PacketsBytes(ps, comp) + rest, comp, |Expand(ps)|) == Some((Expand(ps), rest))
    decreases |ps|
  {
    hide PacketBytes, ValidPacket;
    if |ps| == 0 {
      assert PacketsBytes(ps, comp) + rest == rest;
    } else {
      var tail := PacketsBytes(ps[1..], comp) + rest;
      DecodePackets(ps[1..], comp, rest);
      DecodePacket(ps[0], comp, |Expand(ps)|, tail, Expand(ps[1..]), rest);
      ConcatAssociates(PacketBytes(ps[0], comp), PacketsBytes(ps[1..], comp), rest);
    }
  }

  // ---- The encoder ----

  /** stbiw__write_pixel(s, -1, comp, has_alpha, 0, d). */
  method WritePixel(ctx: Context, d: Pixel)
    requires ctx.Valid() && 1 <= |d| <= 4
    modifies ctx`sink, ctx`bufUsed, ctx.buffer
    ensures ctx.Valid() && ctx.Written() == old(ctx.Written()) + Swapped(d)
  {
    var comp := |d|;
    if comp <= 2 {
      ctx.Write1(d[0]);
    } else {
      ctx.Write3(d[2], d[1], d[0]);
    }
    if comp == 2 || comp == 4 {
      ctx.Write1(d[comp - 1]);
    }
    assert ctx.Written() == old(ctx.Written()) + Swapped(d);
  }

  /**
   The scan for one packet from pixel `i`. A literal packet is compared two pixels apart
   (row[k] against row[k - 2]), so it ends before a pixel that equals the one two back.
   */
  method PacketLength(row: seq<Pixel>, i: nat) returns (len: nat, diff: bool)
    requires i < |row|
    ensures 1 <= len <= 128 && i + len <= |row|
    ensures !diff ==> len >= 2 && forall k :: i <= k < i + len ==> row[k] == row[i]
    ensures !diff ==> i + len == |row| || len == 128 || row[i + len] != row[i]
    ensures diff && len >= 2 ==> row[i] != row[i + 1] && forall k :: i + 2 <= k < i + len ==> row[k] != row[k - 2]
    ensures diff ==> i + len == |row| || len >= 127 || (i + len + 1 < |row| && row[i + len + 1] == row[i + len - 1])
  {
    diff := true;
    len := 1;
    if i + 1 < |row| {
      len := 2;
      diff := row[i] != row[i + 1];
      var k := i + 2;
      if diff {
        var prev := i;
        while k < |row| && len < 128
          invariant k == i + len && prev + 2 == k && 2 <= len <= 128 && k <= |row|
          invariant forall m :: i + 2 <= m < k ==> row[m] != row[m - 2]
        {
          if row[prev] != row[k] {
            prev := prev + 1;
            len := len + 1;
          } else {
            len := len - 1;
            break;
          }
          k := k + 1;
        }
      } else {
        while k < |row| && len < 128
          invariant k == i + len && 2 <= len <= 128 && k <= |row|
          invariant forall m :: i <= m < k ==> row[m] == row[i]
        {
          if row[i] == row[k] {
            len := len + 1;
          } else {
            break;
          }
          k := k + 1;
        }
      }
    }
  }

  /** Whatever follows them, these bytes are read as this row. */
  ghost predicate IsRow(bytes: seq<byte>, comp: nat, row: seq<Pixel>) {
    forall rest: seq<byte> :: DecodeRow(bytes + rest, comp, |row|) == Some((row, rest))
  }

  ghost predicate AreRows(bytes: seq<byte>, comp: nat, width: nat, rows: seq<seq<Pixel>>) {
    forall rest: seq<byte> :: DecodeRows(bytes + rest, comp, width, |rows|) == Some((rows, rest))
  }

  /** The packets of one row. */
  method WriteRow(ctx: Context, row: seq<Pixel>, comp: nat) returns (ghost bytes: seq<byte>)
    requires ctx.Valid() && 1 <= comp <= 4 && Pixels(row, comp)
    modifies ctx`sink, ctx`bufUsed, ctx.buffer
    ensures ctx.Valid() && ctx.Written() == old(ctx.Written()) + bytes
    ensures IsRow(bytes, comp, row)
  {
    hide PacketBytes, ValidPacket, DecodeRow;
    ghost var ps: seq<Packet<Pixel>> := [];
    var i: nat := 0;
    while i < |row|
      invariant i <= |row| && ctx.Valid() && ValidPackets(ps, comp) && Expand(ps) == row[..i]
      invariant ctx.Written() == old(ctx.Written()) + PacketsBytes(ps, comp)
      decreases |row| - i
    {
      ghost var p: Packet<Pixel>;
      i, p := WriteNext(ctx, row, i, comp);
      PacketsBytesSnoc(ps, p, comp);
      ExpandSnoc(ps, p);
      ConcatAssociates(old(ctx.Written()), PacketsBytes(ps, comp), PacketBytes(p, comp));
      ps := ps + [p];
    }
    assert row[..i] == row;
    bytes := PacketsBytes(ps, comp);
    forall rest: seq<byte> ensures DecodeRow(bytes + rest, comp, |row|) == Some((row, rest)) {
      DecodePackets(ps, comp, rest);
    }
  }

  /** One packet: it covers the pixels from `i` to `i'`. */
  method WriteNext(ctx: Context, row: seq<Pixel>, i: nat, comp: nat) returns (i': nat, ghost p: Packet<Pixel>)
    requires ctx.Valid() && 1 <= comp <= 4 && Pixels(row, comp) && i < |row|
    modifies ctx`sink, ctx`bufUsed, ctx.buffer
    ensures i < i' <= |row| && ValidPacket(p, comp) && row[..i'] == row[..i] + p.Items()
    ensures ctx.Valid() && ctx.Written() == old(ctx.Written()) + PacketBytes(p, comp)
  {
    hide PacketBytes;
    var len, diff := PacketLength(row, i);
    p := if diff then Literal(row[i..i + len]) else Repeat(len, row[i]);
    assert p.Items() == row[i..i + len];
    WritePacket(ctx, row, i, len, diff, comp, p);
    i' := i + len;
  }

  /** The pixels of a literal packet. */
  method WriteItems(ctx: Context, row: seq<Pixel>, i: nat, len: nat, comp: nat)
    requires ctx.Valid() && 1 <= comp <= 4 && Pixels(row, comp) && i + len <= |row|
    modifies ctx`sink, ctx`bufUsed, ctx.buffer
    ensures ctx.Valid() && ctx.Written() == old(ctx.Written()) + Flat(row[i..i + len])
  {
    hide Swapped, Flat;
    ghost var start := ctx.Written();
    ghost var items := row[i..i + len];
    FlatEmpty();
    for k := 0 to len
      invariant ctx.Valid() && ctx.Written() == start + Flat(items[..k])
    {
      assert items[..k + 1] == items[..k] + [items[k]];
      FlatSnoc(items[..k], items[k]);
      WritePixel(ctx, row[i + k]);
    }
    assert items[..len] == items;
  }

  method WritePacket(ctx: Context, row: seq<Pixel>, i: nat, len: nat, diff: bool, comp: nat, ghost p: Packet<Pixel>)
    requires ctx.Valid() && 1 <= comp <= 4 && Pixels(row, comp) && 1 <= len <= 128 && i + len <= |row|
    requires p == (if diff then Literal(row[i..i + len]) else Repeat(len, row[i])) && ValidPacket(p, comp)
    modifies ctx`sink, ctx`bufUsed, ctx.buffer
    ensures ctx.Valid() && ctx.Written() == old(ctx.Written()) + PacketBytes(p, comp)
  {
    hide Swapped, Flat;
    if diff {
      ctx.Write1(len - 1);
      ghost var items := row[i..i + len];
      WriteItems(ctx, row, i, len, comp);
      ConcatAssociates(old(ctx.Written()), [len - 1], Flat(items));
    } else {
      var header := (len - 129) % 256;
      ctx.Write1(header);
      WritePixel(ctx, row[i]);
      ConcatAssociates(old(ctx.Written()), [len + 127], Swapped(row[i]));
    }
  }

  lemma FlatEmpty()
    ensures Flat([]) == []
  {
  }

  lemma {:induction false} FlatSnoc(px: seq<Pixel>, d: Pixel)
    ensures Flat(px + [d]) == Flat(px) + Swapped(d)
  {
    hide Swapped;
    if |px| == 0 {
      assert px + [d] == [d];
      FlatOfOne(d);
    } else {
      FlatSnoc(px[1..], d);
      assert (px + [d])[1..] == px[1..] + [d];
    }
  }

  lemma {:induction false} DecodeRowsSplit(s: seq<byte>, comp: nat, width: nat, n: nat, rows: seq<seq<Pixel>>, rest: seq<byte>)
    requires DecodeRows(s, comp, width, n) == Some((rows, rest))
    ensures |rows| == n
    ensures DecodeRows(s, comp, width, n + 1) ==
            match DecodeRow(rest, comp, width)
            case None => None
            case Some((row, rest')) => Some((rows + [row], rest'))
    decreases n
  {
    hide DecodeRow;
    if n == 0 {
      if DecodeRow(rest, comp, width).Some? {
        assert [DecodeRow(rest, comp, width).value.0] + [] == [] + [DecodeRow(rest, comp, width).value.0];
      }
    } else {
      var (row, rest1) := DecodeRow(s, comp, width).value;
      DecodeRowsSplit(rest1, comp, width, n - 1, rows[1..], rest);
      if DecodeRow(rest, comp, width).Some? {
        var last := DecodeRow(rest, comp, width).value.0;
        assert [row] + (rows[1..] + [last]) == rows + [last];
      }
    }
  }

  lemma AppendRow(bytes: seq<byte>, more: seq<byte>, comp: nat, width: nat, rows: seq<seq<Pixel>>, row: seq<Pixel>)
    requires AreRows(bytes, comp, width, rows) && IsRow(more, comp, row) && |row| == width
    ensures AreRows(bytes + more, comp, width, rows + [row])
  {
    hide DecodeRow, DecodeRows;
    forall rest: seq<byte>
      ensures DecodeRows(bytes + more + rest, comp, width, |rows + [row]|) == Some((rows + [row], rest))
    {
      ConcatAssociates(bytes, more, rest);
      assert DecodeRows(bytes + (more + rest), comp, width, |rows|) == Some((rows, more + rest));
      assert DecodeRow(more + rest, comp, |row|) == Some((row, rest));
      DecodeRowsSplit(bytes + (more + rest), comp, width, |rows|, rows, more + rest);
    }
  }

  // ---- The file ----

  /** Pixel `i` of row `j` of data laid out without gaps. */
  function PixelAt(data: seq<byte>, x: nat, y: nat, comp: nat, j: nat, i: nat): (d: Pixel)
    requires |data| == y * x * comp && j < y && i < x
    ensures |d| == comp
  {
    RowIndex(x, y, comp, j, i);
    var at := (j * x + i) * comp;
    data[at..at + comp]
  }

  function RowAt(data: seq<byte>, x: nat, y: nat, comp: nat, j: nat): (row: seq<Pixel>)
    requires |data| == y * x * comp && j < y
    ensures |row| == x && Pixels(row, comp)
  {
    seq(x, i requires 0 <= i < x && |data| == y * x * comp && j < y => PixelAt(data, x, y, comp, j, i))
  }

  lemma RowIndex(x: nat, y: nat, comp: nat, j: nat, i: nat)
    requires j < y && i < x
    ensures 0 <= (j * x + i) * comp && (j * x + i) * comp + comp <= y * x * comp
  {
    MulMonotone(j + 1, y, x);
    assert (j + 1) * x == j * x + x;
    MulMonotone(j * x + i + 1, y * x, comp);
    assert (j * x + i + 1) * comp == (j * x + i) * comp + comp;
  }

  /** The rows in file order: bottom row first, top row first when flipped. */
  function RowsFrom(data: seq<byte>, x: nat, y: nat, comp: nat, flip: bool, k: nat): (rows: seq<seq<Pixel>>)
    requires |data| == y * x * comp && k <= y
    ensures |rows| == k
  {
    if k == 0 then [] else
    RowsFrom(data, x, y, comp, flip, k - 1) + [RowAt(data, x, y, comp, if flip then k - 1 else y - k)]
  }

  /** "111 221 2222 11": the 18 header bytes, 16-bit fields low byte first and cut to 16 bits. */
  function Header(x: nat, y: nat, comp: nat): seq<byte>
    requires 1 <= comp <= 4
  {
    var hasAlpha := if comp == 2 || comp == 4 then 1 else 0;
    var colorbytes := comp - hasAlpha;
    var format := if colorbytes < 2 then 3 else 2;
    [0, 0, format + 8, 0, 0, 0, 0, 0, 0, 0, 0, 0, x % 256, x / 256 % 256, y % 256, y / 256 % 256,
     (colorbytes + hasAlpha) * 8, hasAlpha * 8]
  }

  /**
   stbi_write_tga_core with run lengths. The file decodes to the image exactly when both sides fit the
   16-bit header fields; the decoder's 18 header bytes are the writer's.
   */
  method WriteTga(ctx: Context, x: int, y: int, comp: nat, data: seq<byte>, flip: bool) returns (ok: bool)
    requires ctx.Valid() && ctx.bufUsed == 0 && ctx.Written() == [] && 1 <= comp <= 4
    requires x >= 0 && y >= 0 ==> |data| == y * x * comp
    modifies ctx`sink, ctx`bufUsed, ctx.buffer
    ensures ok == (x >= 0 && y >= 0) && ctx.Valid()
    ensures !ok ==> ctx.sink == []
    ensures ok ==> (Decode(ctx.sink) == Some(Image(x, y, comp, RowsFrom(data, x, y, comp, flip, y)))
                    <==> x < 65536 && y < 65536)
  {
    ok := x >= 0 && y >= 0;
    if !ok {
      return;
    }
    hide IsRow, AreRows, DecodeRows, Decode, Header, RowAt;
    ctx.Direct(Header(x, y, comp));
    ghost var bytes: seq<byte>, rows: seq<seq<Pixel>> := [], [];
    NoRows(comp, x);
    for k := 0 to y
      invariant ctx.Valid() && ctx.Written() == Header(x, y, comp) + bytes
      invariant rows == RowsFrom(data, x, y, comp, flip, k) && AreRows(bytes, comp, x, rows)
    {
      var j := if flip then k else y - 1 - k;
      var row := RowAt(data, x, y, comp, j);
      ghost var more := WriteRow(ctx, row, comp);
      AppendRow(bytes, more, comp, x, rows, row);
      ConcatAssociates(Header(x, y, comp), bytes, more);
      bytes, rows := bytes + more, rows + [row];
    }
    ctx.Flush();
    DecodeFile(x, y, comp, bytes, rows);
  }

  lemma NoRows(comp: nat, width: nat)
    ensures AreRows([], comp, width, [])
  {
    forall rest: seq<byte> ensures DecodeRows([] + rest, comp, width, 0) == Some(([], rest)) {
      assert [] + rest == rest;
    }
  }

  lemma DecodeFile(x: nat, y: nat, comp: nat, bytes: seq<byte>, rows: seq<seq<Pixel>>)
    requires 1 <= comp <= 4 && |rows| == y && AreRows(bytes, comp, x, rows)
    ensures Decode(Header(x, y, comp) + bytes) == Some(Image(x, y, comp, rows)) <==> x < 65536 && y < 65536
  {
    HeaderFields(x, y, comp);
    var h := Header(x, y, comp);
    assert (h + bytes)[..18] == h && (h + bytes)[18..] == bytes;
    assert Decode(h + bytes) == DecodeBody(h, bytes);
    WhenComplete(comp, DecodeRows(bytes, comp, x % 65536, y % 65536), x, y, rows);
    hide *;
    BodyOf(h, bytes, comp, x % 65536, y % 65536);
    if x < 65536 && y < 65536 {
      Cut(x, y);
      RowsOf(bytes, comp, x, rows);
    } else {
      Wraps(x, y);
    }
  }

  lemma BodyOf(h: seq<byte>, body: seq<byte>, comp: nat, width: nat, height: nat)
    requires |h| == 18 && h[0] == 0 && h[1] == 0 && ChannelsOf(h[2], h[16], h[17]) == comp != 0
    requires FromLe16(h[12], h[13]) == width && FromLe16(h[14], h[15]) == height
    ensures DecodeBody(h, body) == Complete(width, height, comp, DecodeRows(body, comp, width, height))
  {
    hide DecodeRows, FromLe16, ChannelsOf;
  }

  /** Sides are part of the picture. */
  lemma WhenComplete(comp: nat, decoded: Option<(seq<seq<Pixel>>, seq<byte>)>, x: nat, y: nat, rows: seq<seq<Pixel>>)
    ensures decoded == Some((rows, [])) ==>
      Complete(x % 65536, y % 65536, comp, decoded) == Some(Image(x % 65536, y % 65536, comp, rows))
    ensures Complete(x % 65536, y % 65536, comp, decoded) == Some(Image(x, y, comp, rows)) ==>
      x % 65536 == x && y % 65536 == y
  {
  }

  lemma Cut(x: nat, y: nat)
    requires x < 65536 && y < 65536
    ensures x % 65536 == x && y % 65536 == y
  {
  }

  lemma Wraps(x: nat, y: nat)
    requires x >= 65536 || y >= 65536
    ensures x % 65536 != x || y % 65536 != y
  {
  }

  lemma RowsOf(bytes: seq<byte>, comp: nat, width: nat, rows: seq<seq<Pixel>>)
    requires AreRows(bytes, comp, width, rows)
    ensures DecodeRows(bytes, comp, width, |rows|) == Some((rows, []))
  {
    hide DecodeRows;
    assert bytes + [] == bytes;
    assert DecodeRows(bytes + [], comp, width, |rows|) == Some((rows, []));
  }

  lemma HeaderFields(x: nat, y: nat, comp: nat)
    requires 1 <= comp <= 4
    ensures var h := Header(x, y, comp);
      |h| == 18 && h[0] == 0 && h[1] == 0 && ChannelsOf(h[2], h[16], h[17]) == comp
      && FromLe16(h[12], h[13]) == x % 65536 && FromLe16(h[14], h[15]) == y % 65536
  {
  }
}
