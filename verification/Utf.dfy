/** encoding_utf.c: UTF-16 to UTF-8, UTF-8 to UTF-32, walking and counting. */
module Utf {
  import opened Prelude
  import opened Bytes

  type word = x: int | 0 <= x < 0x1_0000

  // ---- The encodings ----

  predicate Scalar(c: nat) {
    c < 0xD800 || 0xE000 <= c < 0x11_0000
  }

  predicate Scalars(points: seq<nat>) {
    forall i :: 0 <= i < |points| ==> Scalar(points[i])
  }

  /** Section 2.1 of RFC 2781. */
  function Unit16(c: nat): seq<word>
    requires Scalar(c)
  {
    if c < 0x1_0000 then [c] else [0xD800 + (c - 0x1_0000) / 1024, 0xDC00 + (c - 0x1_0000) % 1024]
  }

  function Utf16(points: seq<nat>): seq<word>
    requires Scalars(points)
  {
    if points == [] then [] else Unit16(points[0]) + Utf16(points[1..])
  }

  /** The table of section 3 of RFC 3629. */
  function Unit8(c: nat): seq<byte>
    requires c < 0x20_0000
  {
    if c < 0x80 then [c]
    else if c < 0x800 then [0xC0 + c / 64, 0x80 + c % 64]
    else if c < 0x1_0000 then [0xE0 + c / 4096, 0x80 + c / 64 % 64, 0x80 + c % 64]
    else [0xF0 + c / 262144, 0x80 + c / 4096 % 64, 0x80 + c / 64 % 64, 0x80 + c % 64]
  }

  function Utf8(points: seq<nat>): seq<byte>
    requires Scalars(points)
  {
    if points == [] then [] else Unit8(points[0]) + Utf8(points[1..])
  }

  // ---- Well-formed UTF-16 ----

  /** The code points up to the first unit that cannot be decoded, and whether there is none. */
  datatype Parsed = Parsed(points: seq<nat>, ok: bool)

  /** Section 2.2 of RFC 2781. */
  function Parse16(u: seq<word>): (r: Parsed)
    ensures Scalars(r.points)
  {
    if u == [] then Parsed([], true)
    else if u[0] < 0xD800 || u[0] >= 0xE000 then
      var rest := Parse16(u[1..]);
      Parsed([u[0] as nat] + rest.points, rest.ok)
    else if u[0] >= 0xDC00 || |u| == 1 || u[1] < 0xDC00 || u[1] >= 0xE000 then Parsed([], false)
    else
      var rest := Parse16(u[2..]);
      Parsed([Pair(u[0], u[1])] + rest.points, rest.ok)
  }

  function Pair(high: word, low: word): (c: nat)
    requires 0xD800 <= high < 0xDC00 <= low < 0xE000
    ensures Scalar(c)
  {
    (high - 0xD800) * 1024 + (low - 0xDC00) + 0x1_0000
  }

  lemma {:induction false} ParsedEncodes(u: seq<word>)
    requires Parse16(u).ok
    ensures Utf16(Parse16(u).points) == u
  {
    if u != [] {
      if u[0] < 0xD800 || u[0] >= 0xE000 {
        ParsedEncodes(u[1..]);
        assert u == [u[0]] + u[1..];
      } else {
        ParsedEncodes(u[2..]);
        assert Unit16(Pair(u[0], u[1])) == [u[0], u[1]];
        assert u == [u[0], u[1]] + u[2..];
      }
    }
  }

  lemma {:induction false} EncodedParses(points: seq<nat>)
    requires Scalars(points)
    ensures Parse16(Utf16(points)) == Parsed(points, true)
  {
    if points != [] {
      EncodedParses(points[1..]);
      var c, u := points[0], Utf16(points);
      if c < 0x1_0000 {
        assert u[1..] == Utf16(points[1..]);
      } else {
        assert u[2..] == Utf16(points[1..]);
        assert Pair(u[0], u[1]) == c;
      }
      assert points == [c] + points[1..];
    }
  }

  /** A unit string decodes exactly when it is the encoding of some code points, and then to those. */
  lemma WellFormed(u: seq<word>)
    ensures Parse16(u).ok <==> exists points :: Scalars(points) && Utf16(points) == u
    ensures Parse16(u).ok ==> Utf16(Parse16(u).points) == u
  {
    if Parse16(u).ok { ParsedEncodes(u); }
    forall points | Scalars(points) && Utf16(points) == u ensures Parse16(u).ok { EncodedParses(points); }
  }

  // ---- utf16_conv_utf8 ----

  /** The number of bytes after the first. */
  function Extra(c: nat): nat {
    if c < 0x80 then 0 else if c < 0x800 then 1 else if c < 0x1_0000 then 2 else 3
  }

  function Limit(n: nat): nat
    requires n < 5
  {
    match n case 0 => 0xC0 case 1 => 0xE0 case 2 => 0xF0 case 3 => 0xF8 case _ => 0xFC
  }

  /** A byte is stored only when there is a buffer. */
  method Put(out: array?<byte>, pos: nat, b: byte)
    requires out != null ==> pos < out.Length
    modifies out
    ensures out != null ==> out[pos] == b && forall k :: 0 <= k < out.Length && k != pos ==> out[k] == old(out[k])
  {
    if out != null {
      out[pos] := b;
    }
  }

  /** The loop that counts the bytes after the first. */
  method CountExtra(value: nat) returns (n: nat)
    requires 0x80 <= value < 0x11_0000
    ensures n == Extra(value)
  {
    n := 1;
    while n < 5 && value >= Pow2(n * 5 + 6)
      invariant 1 <= n <= Extra(value)
      decreases 5 - n
    {
      LimitsOf(n, value);
      n := n + 1;
    }
    LimitsOf(n, value);
  }

  /** Byte `j` of a code point, counted from the end. */
  lemma UnitFromEnd(value: nat, n: nat)
    requires 0x80 <= value < 0x11_0000 && n <= Extra(value)
    ensures |Unit8(value)| == Extra(value) + 1
    ensures n == Extra(value) ==> Unit8(value)[0] == Limit(n - 1) + Shr(value, 6 * n)
    ensures n < Extra(value) ==> Unit8(value)[Extra(value) - n] == 0x80 + Shr(value, 6 * n) % 64
  {
    ShiftOf(n, value);
  }

  /** The bytes of one code point above 0x7F. */
  method PutPoint(out: array?<byte>, start: nat, value: nat) returns (pos: nat)
    requires 0x80 <= value < 0x11_0000 && (out != null ==> start + |Unit8(value)| <= out.Length)
    modifies out
    ensures pos == start + |Unit8(value)|
    ensures out != null ==> out[..pos] == old(out[..start]) + Unit8(value)
  {
    var n: nat := CountExtra(value);
    UnitFromEnd(value, n);
    ghost var u, extra := Unit8(value), Extra(value);
    hide Unit8, Shr, Limit, Extra;
    pos := start;
    var lead := Limit(n - 1) + Shr(value, 6 * n);
    assert lead == u[0];
    Put(out, pos, lead);
    pos := pos + 1;
    while n != 0
      invariant pos == start + |u| - n && n <= extra
      invariant out != null ==> forall k :: start <= k < pos ==> out[k] == u[k - start]
      invariant out != null ==> forall k :: 0 <= k < start ==> out[k] == old(out[k])
      decreases n
    {
      n := n - 1;
      UnitFromEnd(value, n);
      Put(out, pos, 0x80 + Shr(value, 6 * n) % 64);
      pos := pos + 1;
    }
  }

  lemma LimitsOf(n: nat, value: nat)
    requires 1 <= n <= 3 && 0x80 <= value < 0x11_0000
    ensures value < Pow2(n * 5 + 6) <==> Extra(value) <= n
  {
    assert Pow2(11) == 0x800 && Pow2(16) == 0x1_0000 && Pow2(21) == 0x20_0000 by { Powers(); }
  }

  lemma Powers()
    ensures Pow2(6) == 64 && Pow2(11) == 0x800 && Pow2(12) == 4096 && Pow2(16) == 0x1_0000
    ensures Pow2(18) == 262144 && Pow2(21) == 0x20_0000
  {
  }

  lemma ShiftOf(n: nat, value: nat)
    requires n <= 3
    ensures Shr(value, 6 * n) == match n case 0 => value case 1 => value / 64 case 2 => value / 4096 case _ => value / 262144
  {
    ShrDivides(value, 6 * n);
    Powers();
  }

  lemma {:induction false} Utf8Snoc(points: seq<nat>, c: nat)
    requires Scalars(points) && Scalar(c)
    ensures Utf8(points + [c]) == Utf8(points) + Unit8(c)
  {
    hide Unit8;
    if points == [] {
      assert points + [c] == [c] && [c][1..] == [];
    } else {
      Utf8Snoc(points[1..], c);
      assert (points + [c])[1..] == points[1..] + [c];
      ConcatAssociates(Unit8(points[0]), Utf8(points[1..]), Unit8(c));
    }
  }

  lemma {:induction false} Utf8Append(a: seq<nat>, b: seq<nat>)
    requires Scalars(a) && Scalars(b)
    ensures Utf8(a + b) == Utf8(a) + Utf8(b)
    decreases |a|
  {
    hide Unit8;
    if a == [] {
      assert a + b == b;
    } else {
      Utf8Append(a[1..], b);
      assert (a + b)[1..] == a[1..] + b;
      ConcatAssociates(Unit8(a[0]), Utf8(a[1..]), Utf8(b));
    }
  }

  /** The code points decoded so far, and those still to come, are those of the whole input. */
  ghost predicate Decoded(u: seq<word>, done: seq<nat>, rest: seq<word>) {
    && Scalars(done) && Parse16(u) == Parsed(done + Parse16(rest).points, Parse16(rest).ok)
  }

  lemma DecodedNext(u: seq<word>, done: seq<nat>, rest: seq<word>, c: nat, n: nat)
    requires Decoded(u, done, rest) && Scalar(c) && n <= |rest|
    requires Parse16(rest) == Parsed([c] + Parse16(rest[n..]).points, Parse16(rest[n..]).ok)
    ensures Decoded(u, done + [c], rest[n..])
    ensures |Utf8(done)| + |Unit8(c)| <= |Utf8(Parse16(u).points)| && Utf8(done + [c]) == Utf8(done) + Unit8(c)
  {
    hide Parse16, Unit8, Utf8;
    var tail := Parse16(rest[n..]).points;
    ConcatAssociates(done, [c], tail);
    Utf8Snoc(done, c);
    Utf8Append(done + [c], tail);
  }

  /** utf16_conv_utf8: the length is the same with a buffer and without, and the input fails exactly when it is not
      well-formed. */
  method Utf16ConvUtf8(out: array?<byte>, u: seq<word>) returns (ok: bool, outChars: nat)
    requires out != null ==> |Utf8(Parse16(u).points)| <= out.Length
    modifies out
    ensures ok == Parse16(u).ok && outChars == |Utf8(Parse16(u).points)|
    ensures out != null ==> out[..outChars] == Utf8(Parse16(u).points)
  {
    ghost var done: seq<nat> := [];
    EmptyUtf8();
    assert Parse16([]) == Parsed([], true);
    hide Unit8, Utf8, Parse16;
    outChars := 0;
    var inPos := 0;
    assert u[0..] == u && [] + Parse16(u).points == Parse16(u).points;
    while true
      invariant inPos <= |u| && Decoded(u, done, u[inPos..]) && outChars == |Utf8(done)|
      invariant outChars <= |Utf8(Parse16(u).points)|
      invariant out != null ==> out[..outChars] == Utf8(done)
      decreases |u| - inPos
    {
      ghost var rest := u[inPos..];
      if inPos == |u| {
        assert rest == [] && done + [] == done;
        return true, outChars;
      }
      ParseStep(rest);
      var value: nat := u[inPos];
      inPos := inPos + 1;
      assert rest[1..] == u[inPos..];
      if 0xD800 <= value < 0xE000 {
        if value >= 0xDC00 || inPos == |u| {
          assert done + [] == done;
          return false, outChars;
        }
        var c2 := u[inPos];
        inPos := inPos + 1;
        assert rest[2..] == u[inPos..] && c2 == rest[1];
        if c2 < 0xDC00 || c2 >= 0xE000 {
          assert done + [] == done;
          return false, outChars;
        }
        value := Combine(value, c2);
        DecodedNext(u, done, rest, value, 2);
      } else {
        DecodedNext(u, done, rest, value, 1);
      }
      outChars := PutAny(out, outChars, value);
      done := done + [value];
    }
  }

  /** Ten bits from each surrogate. */
  method Combine(high: word, low: word) returns (value: nat)
    requires 0xD800 <= high < 0xDC00 <= low < 0xE000
    ensures value == Pair(high, low)
  {
    SurrogateOr(high, low);
    value := BitOr((high - 0xD800) * Pow2(10), low - 0xDC00) + 0x1_0000;
  }

  lemma ParseStep(u: seq<word>)
    requires u != []
    ensures u[0] < 0xD800 || u[0] >= 0xE000 ==>
      Parse16(u) == Parsed([u[0] as nat] + Parse16(u[1..]).points, Parse16(u[1..]).ok)
    ensures 0xDC00 <= u[0] < 0xE000 ==> Parse16(u) == Parsed([], false)
    ensures 0xD800 <= u[0] < 0xDC00 && (|u| == 1 || u[1] < 0xDC00 || u[1] >= 0xE000) ==> Parse16(u) == Parsed([], false)
    ensures 0xD800 <= u[0] < 0xDC00 && |u| > 1 && 0xDC00 <= u[1] < 0xE000 ==>
      Parse16(u) == Parsed([Pair(u[0], u[1])] + Parse16(u[2..]).points, Parse16(u[2..]).ok)
  {
  }

  lemma EmptyUtf8()
    ensures Utf8([]) == []
  {
  }

  /** One byte for ASCII, else the general form. */
  method PutAny(out: array?<byte>, start: nat, value: nat) returns (pos: nat)
    requires value < 0x11_0000 && (out != null ==> start + |Unit8(value)| <= out.Length)
    modifies out
    ensures pos == start + |Unit8(value)|
    ensures out != null ==> out[..pos] == old(out[..start]) + Unit8(value)
  {
    if value < 0x80 {
      Put(out, start, value);
      pos := start + 1;
    } else {
      pos := PutPoint(out, start, value);
    }
  }

  lemma SurrogateOr(high: nat, low: nat)
    requires 0xD800 <= high < 0xDC00 <= low < 0xE000
    ensures BitOr((high - 0xD800) * Pow2(10), low - 0xDC00) + 0x1_0000 == Pair(high, low)
  {
    assert Pow2(10) == 1024;
    Glue(high - 0xD800, low - 0xDC00, 10);
  }
}
