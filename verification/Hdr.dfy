/** The run-length part of stbiw__write_hdr_scanline, and a Radiance scanline decoder. */
module Hdr {
  import opened Prelude
  import opened Bytes
  import opened RunLength

  /** Red, green, blue, exponent. */
  datatype Rgbe = Rgbe(r: byte, g: byte, b: byte, e: byte) {
    function Channel(c: nat): byte { if c == 0 then r else if c == 1 then g else if c == 2 then b else e }
  }

  // ---- The decoder ----

  /** A length byte above 128 is a run of the next byte; 1 to 128 is that many bytes as they are. */
  function DecodePlane(s: seq<byte>, left: nat): (r: Option<(seq<byte>, seq<byte>)>)
    ensures r.Some? ==> |r.value.0| == left
    decreases left
  {
    if left == 0 then Some(([], s)) else
    if |s| < 2 || s[0] == 0 then None else
    var run := s[0] > 128;
    var n: nat := if run then s[0] - 128 else s[0];
    var used := if run then 2 else 1 + n;
    if n > left || |s| < used then None else
    match DecodePlane(s[used..], left - n)
    case None => None
    case Some((more, rest)) => Some(((if run then seq(n, _ => s[1]) else s[1..used]) + more, rest))
  }

  function ReadFlat(s: seq<byte>, width: nat): (r: Option<(seq<Rgbe>, seq<byte>)>)
    ensures r.Some? ==> |r.value.0| == width
    decreases width
  {
    if width == 0 then Some(([], s)) else
    if |s| < 4 then None else
    match ReadFlat(s[4..], width - 1)
    case None => None
    case Some((more, rest)) => Some(([Rgbe(s[0], s[1], s[2], s[3])] + more, rest))
  }

  function Combine(p0: seq<byte>, p1: seq<byte>, p2: seq<byte>, p3: seq<byte>): seq<Rgbe>
    requires |p0| == |p1| == |p2| == |p3|
  {
    seq(|p0|, i requires 0 <= i < |p0| && |p0| == |p1| == |p2| == |p3| => Rgbe(p0[i], p1[i], p2[i], p3[i]))
  }

  /** Four planes after the marker 2 2 and the width; no run lengths for very small or large widths. */
  function DecodeScanline(s: seq<byte>, width: nat): Option<(seq<Rgbe>, seq<byte>)> {
    if width < 8 || width >= 32768 then ReadFlat(s, width) else
    if |s| < 4 || s[0] != 2 || s[1] != 2 || s[2] != width / 256 || s[3] != width % 256 then None else
    DecodePlanes(s[4..], width)
  }

  function DecodePlanes(s: seq<byte>, width: nat): Option<(seq<Rgbe>, seq<byte>)> {
    match DecodePlane(s, width)
    case None => None
    case Some((p0, s1)) => match DecodePlane(s1, width)
    case None => None
    case Some((p1, s2)) => match DecodePlane(s2, width)
    case None => None
    case Some((p2, s3)) => match DecodePlane(s3, width)
    case None => None
    case Some((p3, rest)) => Some((Combine(p0, p1, p2, p3), rest))
  }

  // ---- Packets ----

  /** The bounds the writer asserts: dumps of at most 128, runs of at most 127. */
  predicate ValidPacket(p: Packet<byte>) {
    match p case Literal(items) => 1 <= |items| <= 128 case Repeat(count, _) => 1 <= count <= 127
  }

  /** stbiw__write_dump_data and stbiw__write_run_data. */
  function PacketBytes(p: Packet<byte>): (r: seq<byte>)
    requires ValidPacket(p)
    ensures |r| >= 2
  {
    match p
    case Literal(items) => [|items|] + items
    case Repeat(count, item) => [count + 128, item]
  }

  predicate ValidPackets(ps: seq<Packet<byte>>) {
    forall i :: 0 <= i < |ps| ==> ValidPacket(ps[i])
  }

  function PacketsBytes(ps: seq<Packet<byte>>): seq<byte>
    requires ValidPackets(ps)
  {
    if |ps| == 0 then [] else PacketBytes(ps[0]) + PacketsBytes(ps[1..])
  }

  lemma {:induction false} PacketsBytesSnoc(ps: seq<Packet<byte>>, p: Packet<byte>)
    requires ValidPackets(ps) && ValidPacket(p)
    ensures ValidPackets(ps + [p]) && PacketsBytes(ps + [p]) == PacketsBytes(ps) + PacketBytes(p)
  {
    hide PacketBytes, ValidPacket;
    if |ps| == 0 {
      assert ps + [p] == [p] && [p][1..] == [];
      assert PacketsBytes([p]) == PacketBytes(p) + PacketsBytes([]);
    } else {
      PacketsBytesSnoc(ps[1..], p);
      assert (ps + [p])[1..] == ps[1..] + [p];
      ConcatAssociates(PacketBytes(ps[0]), PacketsBytes(ps[1..]), PacketBytes(p));
    }
  }

  lemma DecodeRepeat(count: nat, item: byte, left: nat, tail: seq<byte>, more: seq<byte>, rest: seq<byte>)
    requires 1 <= count <= 127 && count <= left && DecodePlane(tail, left - count) == Some((more, rest))
    ensures DecodePlane([count + 128, item] + tail, left) == Some((seq(count, _ => item) + more, rest))
  {
    var s: seq<byte> := [count + 128, item] + tail;
    assert s[0] == count + 128 && s[1] == item && s[2..] == tail;
    var n: nat := s[0] - 128;
    assert seq(n, _ => s[1]) == seq(count, _ => item);
  }

  lemma DecodePacket(p: Packet<byte>, left: nat, tail: seq<byte>, more: seq<byte>, rest: seq<byte>)
    requires ValidPacket(p) && p.Length() <= left && DecodePlane(tail, left - p.Length()) == Some((more, rest))
    ensures DecodePlane(PacketBytes(p) + tail, left) == Some((p.Items() + more, rest))
  {
    match p {
      case Literal(items) =>
        var s := PacketBytes(p) + tail;
        assert s[0] == |items| && s[1..1 + |items|] == items && s[1 + |items|..] == tail;
      case Repeat(count, item) =>
        DecodeRepeat(count, item, left, tail, more, rest);
        assert p.Items() == seq(count, _ => item);
    }
  }

  lemma {:induction false} DecodePackets(ps: seq<Packet<byte>>, rest: seq<byte>)
    requires ValidPackets(ps)
    ensures DecodePlane(PacketsBytes(ps) + rest, |Expand(ps)|) == Some((Expand(ps), rest))
    decreases |ps|
  {
    hide PacketBytes, ValidPacket, Packet<byte>.Items;
    if |ps| == 0 {
      assert PacketsBytes(ps) + rest == rest;
    } else {
      DecodePackets(ps[1..], rest);
      DecodePacket(ps[0], |Expand(ps)|, PacketsBytes(ps[1..]) + rest, Expand(ps[1..]), rest);
      ConcatAssociates(PacketBytes(ps[0]), PacketsBytes(ps[1..]), rest);
    }
  }

  // ---- The encoder ----

  /** Three equal bytes start at `r`. */
  predicate RunAt(comp: seq<byte>, r: nat) {
    r + 2 < |comp| && comp[r] == comp[r + 1] && comp[r] == comp[r + 2]
  }

  /** The first run of three at or after `x`, or the end. */
  method FindRun(comp: seq<byte>, x: nat) returns (r: nat)
    requires x < |comp|
    ensures x <= r <= |comp| && (forall k: nat :: x <= k < r ==> !RunAt(comp, k))
    ensures r < |comp| ==> RunAt(comp, r)
  {
    r := x;
    while r + 2 < |comp|
      invariant x <= r <= |comp| && forall k: nat :: x <= k < r ==> !RunAt(comp, k)
    {
      if comp[r] == comp[r + 1] && comp[r] == comp[r + 2] {
        break;
      }
      r := r + 1;
    }
    if r + 2 >= |comp| {
      r := |comp|;
    }
  }

  /** Bytes that stand as they are never hold a run of three. */
  predicate Tight(p: Packet<byte>) {
    p.Literal? ==> forall k: nat :: k < |p.items| ==> !RunAt(p.items, k)
  }

  predicate AllTight(ps: seq<Packet<byte>>) {
    forall i :: 0 <= i < |ps| ==> Tight(ps[i])
  }

  /** What has been written describes the first `x` bytes of the plane. */
  ghost predicate Encoded(ps: seq<Packet<byte>>, out: seq<byte>, start: seq<byte>, comp: seq<byte>, x: nat) {
    && x <= |comp| && ValidPackets(ps) && AllTight(ps) && Expand(ps) == comp[..x] && out == start + PacketsBytes(ps)
  }

  lemma PieceIsTight(comp: seq<byte>, from: nat, to: nat)
    requires from <= to <= |comp| && forall k: nat :: from <= k < to ==> !RunAt(comp, k)
    ensures Tight(Literal(comp[from..to]))
  {
    forall k: nat | k < to - from ensures !RunAt(comp[from..to], k) {
      if k + 2 < to - from { assert !RunAt(comp, from + k); }
    }
  }

  lemma EncodeOne(ps: seq<Packet<byte>>, out: seq<byte>, start: seq<byte>, comp: seq<byte>, x: nat, p: Packet<byte>)
    requires Encoded(ps, out, start, comp, x) && ValidPacket(p) && Tight(p)
    requires x + p.Length() <= |comp| && p.Items() == comp[x..x + p.Length()]
    ensures Encoded(ps + [p], out + PacketBytes(p), start, comp, x + p.Length())
  {
    hide PacketBytes, ValidPacket, ValidPackets, Tight;
    ExpandSnoc(ps, p);
    PacketsBytesSnoc(ps, p);
    ConcatAssociates(start, PacketsBytes(ps), PacketBytes(p));
  }

  /** Dumps the bytes from `x` to `r`, at most 128 at a time. */
  method Dump(out0: seq<byte>, comp: seq<byte>, x0: nat, r: nat, ghost ps0: seq<Packet<byte>>, ghost start: seq<byte>)
    returns (out: seq<byte>, ghost ps: seq<Packet<byte>>)
    requires Encoded(ps0, out0, start, comp, x0) && x0 <= r <= |comp|
    requires forall k: nat :: x0 <= k < r ==> !RunAt(comp, k)
    ensures Encoded(ps, out, start, comp, r)
    ensures ps0 <= ps && forall i :: |ps0| <= i < |ps| ==> ps[i].Literal?
  {
    hide Encoded, PacketBytes, Tight, RunAt;
    out, ps := out0, ps0;
    var x: nat := x0;
    while x < r
      invariant x0 <= x <= r && Encoded(ps, out, start, comp, x)
      invariant ps0 <= ps && forall i :: |ps0| <= i < |ps| ==> ps[i].Literal?
    {
      var len := r - x;
      if len > 128 { len := 128; }
      ghost var p := Literal(comp[x..x + len]);
      PieceIsTight(comp, x, x + len);
      EncodeOne(ps, out, start, comp, x, p);
      DumpBytes(comp[x..x + len]);
      out := out + ([len] + comp[x..x + len]);
      ps := ps + [p];
      x := x + len;
    }
  }

  lemma DumpBytes(items: seq<byte>)
    requires 1 <= |items| <= 128
    ensures PacketBytes(Literal(items)) == [|items|] + items
  {
  }

  /** Writes the run from `x` to `r`, at most 127 at a time. */
  method WriteRun(out0: seq<byte>, comp: seq<byte>, x0: nat, r: nat, ghost ps0: seq<Packet<byte>>, ghost start: seq<byte>)
    returns (out: seq<byte>, ghost ps: seq<Packet<byte>>)
    requires Encoded(ps0, out0, start, comp, x0) && x0 < r <= |comp| && forall k :: x0 <= k < r ==> comp[k] == comp[x0]
    ensures Encoded(ps, out, start, comp, r)
    ensures ps0 <= ps && forall i :: |ps0| <= i < |ps| ==> ps[i].Repeat? && ps[i].item == comp[x0]
  {
    hide Encoded, PacketBytes;
    out, ps := out0, ps0;
    var x: nat := x0;
    while x < r
      invariant x0 <= x <= r && Encoded(ps, out, start, comp, x)
      invariant ps0 <= ps && forall i :: |ps0| <= i < |ps| ==> ps[i].Repeat? && ps[i].item == comp[x0]
    {
      var len := r - x;
      if len > 127 { len := 127; }
      ghost var p := Repeat(len, comp[x]);
      EncodeOne(ps, out, start, comp, x, p);
      RunBytes(len, comp[x]);
      out := out + [len + 128, comp[x]];
      ps := ps + [p];
      x := x + len;
    }
  }

  lemma RunBytes(len: nat, item: byte)
    requires 1 <= len <= 127
    ensures PacketBytes(Repeat(len, item)) == [len + 128, item]
  {
  }

  /** Whatever follows, the bytes are read as this plane. */
  ghost predicate IsPlane(bytes: seq<byte>, comp: seq<byte>) {
    forall rest: seq<byte> :: DecodePlane(bytes + rest, |comp|) == Some((comp, rest))
  }

  /** The bytes are packets, none of which spells out a run of three. */
  ghost predicate Packed(bytes: seq<byte>) {
    exists ps :: ValidPackets(ps) && AllTight(ps) && bytes == PacketsBytes(ps)
  }

  /** The plane loop: dump up to the next run, then the run. */
  method EncodePlane(start: seq<byte>, comp: seq<byte>) returns (out: seq<byte>)
    ensures start <= out && IsPlane(out[|start|..], comp) && Packed(out[|start|..])
  {
    out := start;
    ghost var ps: seq<Packet<byte>> := [];
    assert Encoded(ps, out, start, comp, 0);
    hide Encoded, RunAt;
    var x: nat := 0;
    while x < |comp|
      invariant x <= |comp| && Encoded(ps, out, start, comp, x)
      decreases |comp| - x
    {
      var r := FindRun(comp, x);
      out, ps := Dump(out, comp, x, r, ps, start);
      x := r;
      if r + 2 < |comp| {
        while r < |comp| && comp[r] == comp[x]
          invariant x <= r <= |comp| && forall k :: x <= k < r ==> comp[k] == comp[x]
        {
          r := r + 1;
        }
        out, ps := WriteRun(out, comp, x, r, ps, start);
        x := r;
      }
    }
    Finished(ps, out, start, comp, x);
  }

  lemma Finished(ps: seq<Packet<byte>>, out: seq<byte>, start: seq<byte>, comp: seq<byte>, x: nat)
    requires Encoded(ps, out, start, comp, x) && x >= |comp|
    ensures start <= out && IsPlane(out[|start|..], comp) && Packed(out[|start|..])
  {
    assert out[|start|..] == PacketsBytes(ps);
    assert comp[..x] == comp;
    forall rest: seq<byte> ensures DecodePlane(PacketsBytes(ps) + rest, |comp|) == Some((comp, rest)) {
      DecodePackets(ps, rest);
    }
  }

  function Plane(line: seq<Rgbe>, c: nat): (p: seq<byte>)
    ensures |p| == |line|
  {
    seq(|line|, i requires 0 <= i < |line| => line[i].Channel(c))
  }

  lemma CombinePlanes(line: seq<Rgbe>)
    ensures Combine(Plane(line, 0), Plane(line, 1), Plane(line, 2), Plane(line, 3)) == line
  {
  }

  function Quad(p: Rgbe): seq<byte> { [p.r, p.g, p.b, p.e] }

  function Quads(line: seq<Rgbe>): seq<byte> {
    if |line| == 0 then [] else Quad(line[0]) + Quads(line[1..])
  }

  lemma {:induction false} ReadQuads(line: seq<Rgbe>, rest: seq<byte>)
    ensures ReadFlat(Quads(line) + rest, |line|) == Some((line, rest))
  {
    if |line| == 0 {
      assert Quads(line) + rest == rest;
    } else {
      ReadQuads(line[1..], rest);
      var s := Quad(line[0]) + (Quads(line[1..]) + rest);
      ConcatAssociates(Quad(line[0]), Quads(line[1..]), rest);
      assert s[4..] == Quads(line[1..]) + rest;
      assert [line[0]] + line[1..] == line;
    }
  }

  lemma {:induction false} QuadsSnoc(line: seq<Rgbe>, p: Rgbe)
    ensures Quads(line + [p]) == Quads(line) + Quad(p)
  {
    if |line| == 0 {
      assert line + [p] == [p] && [p][1..] == [];
      assert Quads([p]) == Quad(p) + Quads([]);
    } else {
      QuadsSnoc(line[1..], p);
      assert (line + [p])[1..] == line[1..] + [p];
      ConcatAssociates(Quad(line[0]), Quads(line[1..]), Quad(p));
    }
  }

  lemma DecodeFourPlanes(line: seq<Rgbe>, b0: seq<byte>, b1: seq<byte>, b2: seq<byte>, b3: seq<byte>, rest: seq<byte>)
    requires IsPlane(b0, Plane(line, 0)) && IsPlane(b1, Plane(line, 1))
    requires IsPlane(b2, Plane(line, 2)) && IsPlane(b3, Plane(line, 3))
    ensures DecodePlanes(b0 + (b1 + (b2 + (b3 + rest))), |line|) == Some((line, rest))
  {
    hide DecodePlane, Plane, Combine;
    CombinePlanes(line);
    assert DecodePlane(b3 + rest, |line|) == Some((Plane(line, 3), rest));
    assert DecodePlane(b2 + (b3 + rest), |line|) == Some((Plane(line, 2), b3 + rest));
    assert DecodePlane(b1 + (b2 + (b3 + rest)), |line|) == Some((Plane(line, 1), b2 + (b3 + rest)));
    assert DecodePlane(b0 + (b1 + (b2 + (b3 + rest))), |line|) == Some((Plane(line, 0), b1 + (b2 + (b3 + rest))));
  }

  /** Whatever follows, the bytes are read as this scanline. */
  ghost predicate IsScanline(bytes: seq<byte>, line: seq<Rgbe>) {
    forall rest: seq<byte> :: DecodeScanline(bytes + rest, |line|) == Some((line, rest))
  }

  /** stbiw__write_hdr_scanline, from RGBE pixels on; `scratch` holds the four planes. */
  method WriteScanline(out0: seq<byte>, line: seq<Rgbe>) returns (out: seq<byte>)
    ensures out0 <= out && IsScanline(out[|out0|..], line)
  {
    var width := |line|;
    out := out0;
    if width < 8 || width >= 32768 {
      for x := 0 to width
        invariant out == out0 + Quads(line[..x])
      {
        assert line[..x + 1] == line[..x] + [line[x]];
        QuadsSnoc(line[..x], line[x]);
        ConcatAssociates(out0, Quads(line[..x]), Quad(line[x]));
        out := out + Quad(line[x]);
      }
      assert line[..width] == line && out[|out0|..] == Quads(line);
      forall rest: seq<byte> ensures DecodeScanline(Quads(line) + rest, |line|) == Some((line, rest)) {
        ReadQuads(line, rest);
      }
    } else {
      out := WritePlanes(out0, line);
    }
  }

  method WritePlanes(out0: seq<byte>, line: seq<Rgbe>) returns (out: seq<byte>)
    requires 8 <= |line| < 32768
    ensures out0 <= out && IsScanline(out[|out0|..], line)
  {
    hide DecodePlane, DecodePlanes, Plane, IsPlane, Packed;
    var width := |line|;
    var header: seq<byte> := [2, 2, width / 256 % 256, width % 256];
    out := out0 + header;
    ghost var b: seq<seq<byte>> := [];
    for c := 0 to 4
      invariant |b| == c && out == out0 + (header + Joined(b))
      invariant forall k: nat :: k < c ==> IsPlane(b[k], Plane(line, k))
    {
      ghost var before := out;
      out := EncodePlane(out, Plane(line, c));
      ghost var more := out[|before|..];
      assert out == before + more;
      JoinedSnoc(b, more);
      ConcatAssociates(header, Joined(b), more);
      ConcatAssociates(out0, header + Joined(b), more);
      b := b + [more];
    }
    ghost var bytes := header + Joined(b);
    assert out[|out0|..] == bytes;
    forall rest: seq<byte> ensures DecodeScanline(bytes + rest, |line|) == Some((line, rest)) {
      JoinedFour(b, rest);
      DecodeFourPlanes(line, b[0], b[1], b[2], b[3], rest);
      ReadMarker(header, Joined(b) + rest, width);
      ConcatAssociates(header, Joined(b), rest);
    }
  }

  lemma ReadMarker(header: seq<byte>, body: seq<byte>, width: nat)
    requires 8 <= width < 32768 && header == [2, 2, width / 256, width % 256]
    ensures DecodeScanline(header + body, width) == DecodePlanes(body, width)
  {
    assert (header + body)[4..] == body;
  }

  function Joined(b: seq<seq<byte>>): seq<byte> {
    if |b| == 0 then [] else Joined(b[..|b| - 1]) + b[|b| - 1]
  }

  lemma JoinedSnoc(b: seq<seq<byte>>, more: seq<byte>)
    ensures Joined(b + [more]) == Joined(b) + more
  {
    assert (b + [more])[..|b|] == b;
  }

  lemma JoinedFour(b: seq<seq<byte>>, rest: seq<byte>)
    requires |b| == 4
    ensures Joined(b) + rest == b[0] + (b[1] + (b[2] + (b[3] + rest)))
  {
    var b1, b2, b3 := b[..1], b[..2], b[..3];
    assert b3[..2] == b2 && b2[..1] == b1 && b1[..0] == [];
    assert Joined(b1[..0]) == [];
    assert Joined(b1) == b[0];
    assert Joined(b2) == b[0] + b[1];
    assert Joined(b3) == b[0] + b[1] + b[2];
    assert Joined(b) == b[0] + b[1] + b[2] + b[3];
    hide *;
    Nest(b[0], b[1], b[2], b[3], rest);
  }

  lemma Nest(p: seq<byte>, q: seq<byte>, r: seq<byte>, t: seq<byte>, rest: seq<byte>)
    ensures p + q + r + t + rest == p + (q + (r + (t + rest)))
  {
    ConcatAssociates(p + q + r, t, rest);
    ConcatAssociates(p + q, r, t + rest);
    ConcatAssociates(p, q, r + (t + rest));
  }
}
