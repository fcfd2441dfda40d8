/** archive_file_zlib.c: the backward search for the end of the central directory. */
module Zip {
  import opened Prelude
  import opened Bytes

  const SIGNATURE: nat := 0x0605_4B50
  const BUFFER: nat := 1024
  /** Bytes of the record before its comment. */
  const RECORD: nat := 22

  /** The number whose bytes, least significant first, are `bs`. */
  function LeValue(bs: seq<byte>): nat {
    if bs == [] then 0 else bs[0] + 256 * LeValue(bs[1..])
  }

  lemma {:induction false} LeSnoc(bs: seq<byte>, b: byte)
    ensures LeValue(bs + [b]) == LeValue(bs) + b * Pow2(8 * |bs|)
    ensures LeValue(bs) < Pow2(8 * |bs|)
  {
    if bs == [] {
      assert [b][1..] == [];
    } else {
      LeSnoc(bs[1..], b);
      assert (bs + [b])[1..] == bs[1..] + [b];
      var p := Pow2(8 * |bs[1..]|);
      Pow2Add(8, 8 * |bs[1..]|);
      assert Pow2(8) == 256;
      Scale(bs[0], b, p, LeValue(bs[1..]), LeValue(bs[1..] + [b]));
    }
  }

  lemma NoByte(data: seq<byte>, at: nat)
    requires at <= |data|
    ensures LeValue(data[at..at + 0]) == 0
  {
  }

  /** Or-ing in the next byte, shifted into place. */
  lemma NextByte(data: seq<byte>, at: nat, i: nat, val: nat)
    requires at + i < |data| && val == LeValue(data[at..at + i])
    ensures BitOr(val, data[at + i] * Pow2(8 * i)) == LeValue(data[at..at + (i + 1)])
  {
    var b, bs := data[at + i], data[at..at + i];
    TakeMore(data, at, i);
    hide *;
    LeSnoc(bs, b);
    BitOrAbove(val, b, 8 * i);
  }

  lemma TakeMore(data: seq<byte>, at: nat, i: nat)
    requires at + i < |data|
    ensures data[at..at + (i + 1)] == data[at..at + i] + [data[at + i]] && |data[at..at + i]| == i
  {
  }

  lemma Scale(a: nat, b: nat, p: nat, v: nat, w: nat)
    requires w == v + b * p
    ensures a + 256 * w == a + 256 * v + b * (256 * p)
  {
  }

  /** read_le. */
  method ReadLe(data: seq<byte>, at: nat, len: nat) returns (val: nat)
    requires at + len <= |data|
    ensures val == LeValue(data[at..at + len])
  {
    hide *;
    val := 0;
    var i := 0;
    NoByte(data, at);
    while i < len
      invariant i <= len && val == LeValue(data[at..at + i])
    {
      NextByte(data, at, i, val);
      val := BitOr(val, data[at + i] * Pow2(8 * i));
      i := i + 1;
    }
  }

  // ---- The record (section 4.3.16 of the ZIP APPNOTE) ----

  /** A record starts at `o`: its signature is there, and its comment ends where the file does. */
  predicate RecordAt(file: seq<byte>, o: int) {
    && 0 <= o && o + RECORD <= |file| && LeValue(file[o..o + 4]) == SIGNATURE
    && o + RECORD + LeValue(file[o + 20..o + 22]) == |file|
  }

  /** The signature is the bytes "PK", 5, 6. */
  lemma SignatureBytes(file: seq<byte>, o: nat)
    requires o + 4 <= |file|
    ensures LeValue(file[o..o + 4]) == SIGNATURE <==> file[o..o + 4] == [0x50, 0x4B, 0x05, 0x06]
  {
    var s := file[o..o + 4];
    assert s == [s[0], s[1], s[2], s[3]];
    LeFour(s[0], s[1], s[2], s[3]);
  }

  lemma LeFour(a: byte, b: byte, c: byte, d: byte)
    ensures LeValue([a, b, c, d]) == a as int + 256 * (b as int + 256 * (c as int + 256 * d))
  {
    assert [a, b, c, d][1..] == [b, c, d] && [b, c, d][1..] == [c, d] && [c, d][1..] == [d] && [d][1..] == [];
    assert LeValue([d]) == d;
    assert LeValue([c, d]) == c as int + 256 * d;
    assert LeValue([b, c, d]) == b as int + 256 * (c as int + 256 * d);
  }

  /** One read of the file into the footer buffer. */
  method ReadBlock(file: seq<byte>, pos: nat, n: nat, buf: array<byte>)
    requires pos + n <= |file| && n <= buf.Length
    modifies buf
    ensures buf[..n] == file[pos..pos + n]
  {
    var i := 0;
    while i < n
      invariant i <= n && forall k :: 0 <= k < i ==> buf[k] == file[pos + k]
    {
      buf[i] := file[pos + i];
      i := i + 1;
    }
  }

  /** Whether the record test succeeds at an index of the buffer. */
  method TestFooter(file: seq<byte>, pos: nat, n: nat, buf: array<byte>, footer: nat) returns (found: bool)
    requires pos + n <= |file| && n <= buf.Length && buf[..n] == file[pos..pos + n] && footer + RECORD <= n
    ensures found == RecordAt(file, pos + footer)
  {
    SliceSlice(file, pos, n, footer, 4);
    SliceSlice(file, pos, n, footer + 20, 2);
    hide LeValue;
    var signature := ReadLe(buf[..n], footer, 4);
    if signature != SIGNATURE {
      return false;
    }
    var commentLen := ReadLe(buf[..n], footer + 20, 2);
    return pos + footer + RECORD + commentLen == |file|;
  }

  /** The search of zip_parse_file_init: blocks of up to 1024 bytes from the end, each but the first overlapping the
      one before by 21. It finds the last record, and fails exactly when there is none. */
  method FindFooter(file: seq<byte>) returns (at: int)
    ensures at == -1 <==> forall o :: !RecordAt(file, o)
    ensures at != -1 ==> RecordAt(file, at) && forall o :: RecordAt(file, o) ==> o <= at
  {
    hide LeValue;
    var size := |file|;
    var readBlock: nat := if size < BUFFER then size else BUFFER;
    if readBlock < RECORD {
      return -1;
    }
    var buf := new byte[BUFFER];
    var readPos: nat := size;
    var footer := 0;
    while true
      invariant readPos <= size && 0 <= footer <= readBlock + 1 - RECORD
      invariant readPos < size ==> readPos + readBlock <= size && buf[..readBlock] == file[readPos..readPos + readBlock]
      invariant readPos == size ==> footer == 0
      invariant forall o :: RecordAt(file, o) ==> o < readPos + footer
      decreases readPos, footer
    {
      footer := footer - 1;
      if footer < 0 {
        if readPos <= 0 {
          return -1;
        }
        if readPos == size {
          readPos := readPos - readBlock;
        } else {
          readPos := if readPos - readBlock + 21 > 0 then readPos - readBlock + 21 else 0;
        }
        ReadBlock(file, readPos, readBlock, buf);
        footer := readBlock - RECORD;
      }
      var found := TestFooter(file, readPos, readBlock, buf, footer);
      if found {
        return readPos + footer;
      }
    }
  }

  // ---- The rest of zip_parse_file_init ----

  /** What the record says of the central directory. */
  datatype Directory = Directory(bytes: seq<byte>, entries: nat)

  function Described(file: seq<byte>, o: nat): Option<Directory>
    requires RecordAt(file, o)
  {
    var size, offset := LeValue(file[o + 12..o + 16]), LeValue(file[o + 16..o + 20]);
    if size > |file| || offset > |file| || offset + size > |file| then None
    else Some(Directory(file[offset..offset + size], LeValue(file[o + 10..o + 12])))
  }

  /** The directory that the last record describes; None without a record, or when the directory is not in the file. */
  method ParseFileInit(file: seq<byte>) returns (directory: Option<Directory>)
    ensures (forall o :: !RecordAt(file, o)) ==> directory == None
    ensures forall o :: RecordAt(file, o) && (forall p :: RecordAt(file, p) ==> p <= o) ==> directory == Described(file, o)
  {
    hide LeValue;
    var at := FindFooter(file);
    if at == -1 {
      return None;
    }
    var size := ReadLe(file, at + 12, 4);
    var offset := ReadLe(file, at + 16, 4);
    if size > |file| || offset > |file| {
      return None;
    }
    if offset + size > |file| {
      return None;
    }
    var entries := ReadLe(file, at + 10, 2);
    return Some(Directory(file[offset..offset + size], entries));
  }

  // ---- An archive, byte by byte ----

  /** Two and four bytes, the lowest first. */
  function Two(b: seq<byte>, at: nat): int
    requires at + 2 <= |b|
  {
    b[at] as int + 256 * b[at + 1] as int
  }

  function Four(b: seq<byte>, at: nat): int
    requires at + 4 <= |b|
  {
    b[at] as int + 256 * b[at + 1] as int + 65536 * b[at + 2] as int + 16777216 * b[at + 3] as int
  }

  lemma LeTwo(b: seq<byte>, at: nat)
    requires at + 2 <= |b|
    ensures LeValue(b[at..at + 2]) == Two(b, at)
  {
    var s := b[at..at + 2];
    assert s[1..][1..] == [] && LeValue(s[1..]) == b[at + 1];
  }

  lemma LeFourAt(b: seq<byte>, at: nat)
    requires at + 4 <= |b|
    ensures LeValue(b[at..at + 4]) == Four(b, at)
  {
    var s := b[at..at + 4];
    assert s == [s[0], s[1], s[2], s[3]];
    LeFour(s[0], s[1], s[2], s[3]);
    hide LeValue;
  }

  /** 50 4B 05 06, 18 more bytes of which the last two are the length of the comment, and the comment up to the end. */
  predicate EndRecord(file: seq<byte>, o: nat) {
    && o + 22 <= |file| && file[o..o + 4] == [0x50, 0x4B, 0x05, 0x06]
    && o + 22 + Two(file, o + 20) == |file|
  }

  lemma RecordMeans(file: seq<byte>, o: nat)
    ensures RecordAt(file, o) <==> EndRecord(file, o)
  {
    if o + 22 <= |file| {
      SignatureBytes(file, o);
      LeTwo(file, o + 20);
      hide LeValue;
    }
  }

  /** For the last record, the directory is as many bytes as stand at 12 from the offset that stands at 16, and the number
      of entries stands at 10; there is none exactly when those bytes pass the end of the file. */
  method OpenLast(file: seq<byte>, ghost o: nat) returns (directory: Option<Directory>)
    requires EndRecord(file, o) && forall p: nat :: EndRecord(file, p) ==> p <= o
    ensures directory == None <==> Four(file, o + 16) + Four(file, o + 12) > |file|
    ensures directory.Some? ==> directory.value.entries == Two(file, o + 10)
    ensures directory.Some? ==>
      directory.value.bytes == file[Four(file, o + 16)..Four(file, o + 16) + Four(file, o + 12)]
  {
    RecordMeans(file, o);
    forall p | RecordAt(file, p) ensures p <= o { RecordMeans(file, p); }
    LeFourAt(file, o + 12);
    LeFourAt(file, o + 16);
    LeTwo(file, o + 10);
    hide LeValue, RecordAt, EndRecord;
    directory := ParseFileInit(file);
  }

  /** An archive is read back: anything, the directory, anything, the record that describes it, and its comment. */
  method OpenArchive(front: seq<byte>, dir: seq<byte>, gap: seq<byte>, rec: seq<byte>, comment: seq<byte>, count: nat)
    returns (directory: Option<Directory>)
    requires |rec| == 22 && rec[..4] == [0x50, 0x4B, 0x05, 0x06]
    requires Two(rec, 10) == count && Four(rec, 12) == |dir| && Four(rec, 16) == |front| && Two(rec, 20) == |comment|
    requires forall p: nat :: EndRecord(front + dir + gap + rec + comment, p) ==> p <= |front + dir + gap|
    ensures directory == Some(Directory(dir, count))
  {
    var file := front + dir + gap + rec + comment;
    ghost var o := |front + dir + gap|;
    InRecord(front + dir + gap, rec, comment);
    assert file == front + dir + (gap + rec + comment);
    MiddleOf(front, dir, gap + rec + comment);
    hide EndRecord;
    directory := OpenLast(file, o);
  }

  lemma InRecord(before: seq<byte>, rec: seq<byte>, comment: seq<byte>)
    requires |rec| == 22 && rec[..4] == [0x50, 0x4B, 0x05, 0x06] && Two(rec, 20) == |comment|
    ensures var file, o := before + rec + comment, |before|;
      EndRecord(file, o) && Two(file, o + 10) == Two(rec, 10)
      && Four(file, o + 12) == Four(rec, 12) && Four(file, o + 16) == Four(rec, 16)
  {
    var file, o := before + rec + comment, |before|;
    assert forall i :: 0 <= i < 22 ==> file[o + i] == rec[i];
    assert file[o..o + 4] == rec[..4];
  }

  lemma MiddleOf(a: seq<byte>, b: seq<byte>, c: seq<byte>)
    ensures (a + b + c)[|a|..|a| + |b|] == b
  {
  }
}
