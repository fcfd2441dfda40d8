/** encoding_utf.c: the decoders, and what they make of what the encoder writes. */
module UtfDecode {
  import opened Prelude
  import opened Bytes
  import opened Utf

  // ---- leading_ones ----

  function LeadingOnes(c: byte): nat {
    if c < 0x80 then 0 else if c < 0xC0 then 1 else if c < 0xE0 then 2 else if c < 0xF0 then 3
    else if c < 0xF8 then 4 else if c < 0xFC then 5 else if c < 0xFE then 6 else if c < 0xFF then 7 else 8
  }

  method CountLeadingOnes(first: byte) returns (ones: nat)
    ensures ones == LeadingOnes(first)
  {
    ones := 0;
    var c: nat := first;
    while c >= 0x80
      invariant c < 0x100 && ones + LeadingOnes(c) == LeadingOnes(first)
      decreases LeadingOnes(c)
    {
      OneLess(c);
      ones := ones + 1;
      c := c * 2 % 0x100;
    }
  }

  lemma OneLess(c: nat)
    requires 0x80 <= c < 0x100
    ensures LeadingOnes(c) == 1 + LeadingOnes(c * 2 % 0x100)
  {
    assert c * 2 % 0x100 == c * 2 - 0x100;
  }

  // ---- utf8_conv_utf32 ----

  /** Six more bits for each byte. */
  function Accumulate(value: nat, rest: seq<byte>): nat {
    if rest == [] then value else Accumulate(value, rest[..|rest| - 1]) * 64 + rest[|rest| - 1] % 64
  }

  /** Code points from any bytes, at most `n` of them, up to the first byte that starts none. */
  function Conv32(s: seq<byte>, n: nat): seq<nat>
    decreases |s|
  {
    if s == [] || n == 0 then [] else
    var ones := LeadingOnes(s[0]);
    if ones > 6 || ones == 1 then [] else
    var extra := if ones == 0 then 0 else ones - 1;
    if 1 + extra > |s| then [] else
    [Accumulate(s[0] % Pow2(7 - ones), s[1..1 + extra])] + Conv32(s[1 + extra..], n - 1)
  }

  /** The bits of one code point, or-ed together from the top. */
  method Assemble(s: seq<byte>, pos: nat, ones: nat, extra: nat) returns (c: nat)
    requires pos + 1 + extra <= |s| && ones <= 6 && extra <= 5
    ensures c == Accumulate(s[pos] % Pow2(7 - ones), s[pos + 1..pos + 1 + extra])
  {
    ghost var head, rest := s[pos] % Pow2(7 - ones), s[pos + 1..pos + 1 + extra];
    AccumulateNone(head, rest);
    hide *;
    c := s[pos] as int % Pow2(7 - ones) * Pow2(6 * extra);
    var i := 0;
    while i < extra
      invariant i <= extra && c == Accumulate(head, rest[..i]) * Pow2(6 * (extra - i))
    {
      NextSix(head, rest, i, c);
      assert rest[i] == s[pos + 1 + i];
      c := BitOr(c, s[pos + 1 + i] as int % 64 * Pow2(6 * (extra - i - 1)));
      i := i + 1;
    }
    AllSix(head, rest, c);
  }

  lemma NextSix(head: nat, rest: seq<byte>, i: nat, c: nat)
    requires i < |rest| && c == Accumulate(head, rest[..i]) * Pow2(6 * (|rest| - i))
    ensures BitOr(c, rest[i] as int % 64 * Pow2(6 * (|rest| - i - 1)))
         == Accumulate(head, rest[..i + 1]) * Pow2(6 * (|rest| - (i + 1)))
  {
    hide *;
    AccumulateSnoc(head, rest, i);
    OneMore(Accumulate(head, rest[..i]), rest[i] % 64, |rest| - i - 1);
  }

  lemma AllSix(head: nat, rest: seq<byte>, c: nat)
    requires c == Accumulate(head, rest[..|rest|]) * Pow2(6 * (|rest| - |rest|))
    ensures c == Accumulate(head, rest)
  {
    hide Accumulate;
    assert rest[..|rest|] == rest;
  }

  lemma AccumulateNone(value: nat, rest: seq<byte>)
    ensures Accumulate(value, rest[..0]) == value
  {
  }

  lemma AccumulateSnoc(value: nat, rest: seq<byte>, i: nat)
    requires i < |rest|
    ensures Accumulate(value, rest[..i + 1]) == Accumulate(value, rest[..i]) * 64 + rest[i] % 64
  {
    assert rest[..i + 1][..i] == rest[..i];
  }

  lemma OneMore(high: nat, low: nat, k: nat)
    requires low < 64
    ensures BitOr(high * Pow2(6 * (k + 1)), low * Pow2(6 * k)) == (high * 64 + low) * Pow2(6 * k)
  {
    var p := Pow2(6 * k);
    Pow2Add(6, 6 * k);
    assert Pow2(6) == 64 by { Powers(); }
    assert Pow2(6 * (k + 1)) == 64 * p;
    MulMonotone(low, 63, p);
    Glue(high, low * p, 6 * (k + 1));
    Regroup(high, low, p);
  }

  lemma Regroup(high: nat, low: nat, p: nat)
    ensures high * (64 * p) + low * p == (high * 64 + low) * p
  {
  }

  method Utf8ConvUtf32(out: array<nat>, outChars: nat, s: seq<byte>) returns (ret: nat)
    requires outChars <= out.Length
    modifies out
    ensures ret == |Conv32(s, outChars)| <= outChars && out[..ret] == Conv32(s, outChars)
  {
    hide LeadingOnes, Accumulate, Conv32;
    var pos := 0;
    ret := 0;
    ghost var all := Conv32(s, outChars);
    assert s[0..] == s && out[..0] + all == all;
    while pos < |s| && ret < outChars
      invariant pos <= |s| && ret <= outChars && out[..ret] + Conv32(s[pos..], outChars - ret) == all
      decreases |s| - pos
    {
      Conv32Step(s, pos, outChars - ret);
      var ones := CountLeadingOnes(s[pos]);
      if ones > 6 || ones == 1 {
        break;
      }
      var extra := if ones == 0 then 0 else ones - 1;
      if 1 + extra > |s| - pos {
        break;
      }
      var c := Assemble(s, pos, ones, extra);
      ConcatAssociates(out[..ret], [c], Conv32(s[pos + 1 + extra..], outChars - ret - 1));
      ghost var before := out[..ret];
      out[ret] := c;
      assert out[..ret + 1] == before + [c];
      pos := pos + 1 + extra;
      ret := ret + 1;
    }
    Conv32Ends(s, pos, outChars - ret);
  }

  lemma Conv32Ends(s: seq<byte>, pos: nat, n: nat)
    requires pos <= |s|
    ensures pos == |s| || n == 0 ==> Conv32(s[pos..], n) == []
  {
  }

  /** One turn of the loop. */
  lemma Conv32Step(s: seq<byte>, pos: nat, n: nat)
    requires pos < |s| && n > 0
    ensures var ones := LeadingOnes(s[pos]); var extra := if ones == 0 then 0 else ones - 1;
      Conv32(s[pos..], n) ==
        if ones > 6 || ones == 1 || 1 + extra > |s| - pos then []
        else [Accumulate(s[pos] % Pow2(7 - ones), s[pos + 1..pos + 1 + extra])] + Conv32(s[pos + 1 + extra..], n - 1)
  {
    hide Accumulate, LeadingOnes;
    var rest, ones := s[pos..], LeadingOnes(s[pos]);
    var extra := if ones == 0 then 0 else ones - 1;
    if ones <= 6 && 1 + extra <= |s| - pos {
      assert rest[1..1 + extra] == s[pos + 1..pos + 1 + extra] && rest[1 + extra..] == s[pos + 1 + extra..];
    }
  }

  /** A code point as the encoder writes it is read back, whatever follows. */
  lemma Unit8Converts(c: nat, rest: seq<byte>, n: nat)
    requires Scalar(c) && n > 0
    ensures Conv32(Unit8(c) + rest, n) == [c] + Conv32(rest, n - 1)
  {
    var u := Unit8(c);
    var s := u + rest;
    var ones := LeadingOnes(s[0]);
    Widths(ones);
    var extra := if ones == 0 then 0 else ones - 1;
    assert |u| == 1 + extra;
    assert s[1..1 + extra] == u[1..] && s[1 + extra..] == rest;
    UnitTop(c);
    UnitValue(c);
  }

  lemma Widths(ones: nat)
    ensures Pow2(7) == 128 && Pow2(5) == 32 && Pow2(4) == 16 && Pow2(3) == 8
  {
  }

  /** The bits that the first byte holds. */
  function Top(c: nat): nat {
    if c < 0x80 then c else if c < 0x800 then c / 64 else if c < 0x1_0000 then c / 4096 else c / 262144
  }

  lemma UnitTop(c: nat)
    requires Scalar(c)
    ensures LeadingOnes(Unit8(c)[0]) <= 4 && Unit8(c)[0] % Pow2(7 - LeadingOnes(Unit8(c)[0])) == Top(c)
  {
    Widths(0);
    hide Pow2;
    TopMod(c);
  }

  lemma TopMod(c: nat)
    requires Scalar(c)
    ensures c < 0x80 ==> c % 128 == c
    ensures c < 0x800 ==> (0xC0 + c / 64) % 32 == c / 64
    ensures c < 0x1_0000 ==> (0xE0 + c / 4096) % 16 == c / 4096
    ensures (0xF0 + c / 262144) % 8 == c / 262144
  {
  }

  lemma UnitValue(c: nat)
    requires Scalar(c)
    ensures Accumulate(Top(c), Unit8(c)[1..]) == c
  {
    hide Accumulate;
    Digits(c);
    LowBits(c);
    if c < 0x80 {
      assert Unit8(c)[1..] == [];
      AccumulateNone(c, []);
    } else if c < 0x800 {
      assert Unit8(c)[1..] == [0x80 + c % 64];
      AccumulateOne(c / 64, 0x80 + c % 64);
    } else if c < 0x1_0000 {
      assert Unit8(c)[1..] == [0x80 + c / 64 % 64, 0x80 + c % 64];
      AccumulateTwo(c / 4096, 0x80 + c / 64 % 64, 0x80 + c % 64);
    } else {
      assert Unit8(c)[1..] == [0x80 + c / 4096 % 64, 0x80 + c / 64 % 64, 0x80 + c % 64];
      AccumulateThree(c / 262144, 0x80 + c / 4096 % 64, 0x80 + c / 64 % 64, 0x80 + c % 64);
    }
  }

  lemma LowBits(c: nat)
    ensures (0x80 + c % 64) % 64 == c % 64 && (0x80 + c / 64 % 64) % 64 == c / 64 % 64
    ensures (0x80 + c / 4096 % 64) % 64 == c / 4096 % 64
  {
  }

  lemma Digits(c: nat)
    ensures c / 64 == c / 4096 * 64 + c / 64 % 64 && c / 4096 == c / 262144 * 64 + c / 4096 % 64
  {
    DivDiv(c, 64, 64);
    DivDiv(c, 4096, 64);
    OneDigit(c / 64);
    OneDigit(c / 4096);
  }

  lemma OneDigit(q: nat)
    ensures q == q / 64 * 64 + q % 64
  {
  }

  lemma AccumulateOne(v: nat, a: byte)
    ensures Accumulate(v, [a]) == v * 64 + a % 64
  {
    assert [a][..0] == [];
  }

  lemma AccumulateTwo(v: nat, a: byte, b: byte)
    ensures Accumulate(v, [a, b]) == (v * 64 + a % 64) * 64 + b % 64
  {
    assert [a, b][..1] == [a];
    AccumulateOne(v, a);
  }

  lemma AccumulateThree(v: nat, a: byte, b: byte, c: byte)
    ensures Accumulate(v, [a, b, c]) == ((v * 64 + a % 64) * 64 + b % 64) * 64 + c % 64
  {
    assert [a, b, c][..2] == [a, b];
    AccumulateTwo(v, a, b);
  }

  /** utf8_conv_utf32 decodes what utf16_conv_utf8 writes, as far as there is room. */
  lemma {:induction false} Utf8Converts(points: seq<nat>, n: nat)
    requires Scalars(points)
    ensures Conv32(Utf8(points), n) == if n < |points| then points[..n] else points
    decreases |points|
  {
    if points == [] || n == 0 {
      assert Conv32(Utf8(points), 0) == [] && (points == [] ==> Utf8(points) == []);
    } else {
      assert Utf8(points) == Unit8(points[0]) + Utf8(points[1..]);
      assert Scalar(points[0]) && Scalars(points[1..]);
      hide *;
      Unit8Converts(points[0], Utf8(points[1..]), n);
      Utf8Converts(points[1..], n - 1);
      FirstPoints(points, n);
    }
  }

  lemma FirstPoints(points: seq<nat>, n: nat)
    requires points != [] && n > 0
    ensures points == [points[0]] + points[1..]
    ensures n < |points| ==> points[..n] == [points[0]] + points[1..][..n - 1]
  {
  }

  // ---- Any bytes at all ----

  /** What the value of a code point is made of: the low bits of the first byte and six of each other one. */
  function Value(top: nat, rest: seq<byte>): nat
    decreases |rest|
  {
    if rest == [] then top else Value(top * 64 + rest[0] % 64, rest[1..])
  }

  lemma {:induction false} ValueIs(top: nat, rest: seq<byte>)
    ensures Accumulate(top, rest) == Value(top, rest)
    decreases |rest|
  {
    if |rest| == 1 {
      assert rest[..0] == [] && rest[1..] == [];
      assert Accumulate(top, []) == top && Value(top * 64 + rest[0] % 64, []) == top * 64 + rest[0] % 64;
    } else if |rest| > 1 {
      var n := |rest| - 1;
      var init, tail := rest[..n], rest[1..];
      ValueIs(top, init);
      ValueIs(top * 64 + rest[0] % 64, tail);
      ValueIs(top * 64 + rest[0] % 64, tail[..n - 1]);
      assert init[1..] == tail[..n - 1] && init[0] == rest[0] && tail[n - 1] == rest[n];
    }
  }

  /** How many bytes follow a first byte; -1 for a byte that starts nothing, and ends the conversion. */
  function Following(b: byte): int {
    if b < 0x80 then 0 else if b < 0xC0 then -1 else if b < 0xE0 then 1 else if b < 0xF0 then 2
    else if b < 0xF8 then 3 else if b < 0xFC then 4 else if b < 0xFE then 5 else -1
  }

  /** What the first byte itself contributes. */
  function TopBits(b: byte): nat
    requires Following(b) >= 0
  {
    if b < 0x80 then b else if b < 0xE0 then b - 0xC0 else if b < 0xF0 then b - 0xE0
    else if b < 0xF8 then b - 0xF0 else if b < 0xFC then b - 0xF8 else b - 0xFC
  }

  /** One code point of any bytes: forms of five and six bytes are read as well, bytes that follow are not checked, and a
      first byte that starts nothing, or a form that is cut off, ends the conversion. */
  lemma AnyBytes(b: byte, more: seq<byte>, n: nat)
    requires n > 0
    ensures var k := Following(b);
      Conv32([b] + more, n) ==
      if k < 0 || k > |more| then [] else [Value(TopBits(b), more[..k])] + Conv32(more[k..], n - 1)
  {
    var s, k := [b] + more, Following(b);
    if 0 <= k <= |more| {
      assert s[1..1 + k] == more[..k] && s[1 + k..] == more[k..];
      ValueIs(TopBits(b), more[..k]);
      LowBitsAre(b);
    }
    hide Accumulate, Value, Pow2, TopBits;
  }

  lemma LowBitsAre(b: byte)
    requires Following(b) >= 0
    ensures b % Pow2(7 - LeadingOnes(b)) == TopBits(b) && LeadingOnes(b) <= 6
  {
    Powers();
    Pow2Values();
  }

  // ---- utf8_walk ----

  /** Six more bits. */
  function Six(ret: nat, b: byte): nat {
    ret * 64 + b % 64
  }

  /** A byte is cut to its low bits before it joins the others. */
  method WalkByte(s: seq<byte>, pos: nat, ret: nat) returns (ret': nat, pos': nat)
    requires pos < |s|
    ensures ret' == Six(ret, s[pos]) && pos' == pos + 1
  {
    assert Pow2(6) == 64 by { Powers(); }
    Glue(ret, s[pos] % 64, 6);
    ret' := BitOr(ret * Pow2(6), s[pos] as int % 64);
    pos' := pos + 1;
  }

  /** utf8_walk at the start of a code point that the encoder wrote. */
  method Utf8Walk(s: seq<byte>, pos: nat, ghost c: nat) returns (value: nat, pos': nat)
    requires Scalar(c) && pos + |Unit8(c)| <= |s| && s[pos..pos + |Unit8(c)|] == Unit8(c)
    ensures value == c && pos' == pos + |Unit8(c)|
  {
    ghost var u := Unit8(c);
    assert forall i :: 0 <= i < |u| ==> s[pos + i] == u[i];
    var first := s[pos];
    assert first == u[0];
    WalkBytes(c);
    hide Unit8, BitOr, Pow2;
    if first < 128 {
      return first, pos + 1;
    }
    var ret;
    ret, pos' := WalkByte(s, pos + 1, 0);
    if first >= 0xE0 {
      ret, pos' := WalkByte(s, pos', ret);
      if first >= 0xF0 {
        ret, pos' := WalkByte(s, pos', ret);
        return OrAbove(ret, first as int % 8, 18), pos';
      }
      return OrAbove(ret, first as int % 16, 12), pos';
    }
    return OrAbove(ret, first as int % 32, 6), pos';
  }

  /** The low bits, or-ed with the high bits of the first byte. */
  function OrAbove(low: nat, high: nat, n: nat): nat {
    BitOr(low, high * Pow2(n))
  }

  lemma WalkBytes(c: nat)
    requires Scalar(c)
    ensures var u := Unit8(c);
      && (u[0] < 128 <==> c < 0x80) && (u[0] >= 0xE0 <==> c >= 0x800) && (u[0] >= 0xF0 <==> c >= 0x1_0000)
      && (c < 0x80 ==> |u| == 1 && u[0] == c)
      && (0x80 <= c < 0x800 ==> |u| == 2 && OrAbove(Six(0, u[1]), u[0] % 32, 6) == c)
      && (0x800 <= c < 0x1_0000 ==> |u| == 3 && OrAbove(Six(Six(0, u[1]), u[2]), u[0] % 16, 12) == c)
      && (c >= 0x1_0000 ==>
            |u| == 4 && OrAbove(Six(Six(Six(0, u[1]), u[2]), u[3]), u[0] % 8, 18) == c)
  {
    hide OrAbove, Six;
    if 0x80 <= c < 0x800 { WalkTwo(c); } else if 0x800 <= c < 0x1_0000 { WalkThree(c); } else if c >= 0x1_0000 { WalkFour(c); }
  }

  lemma CutSix(r: nat, x: nat)
    requires x < 64
    ensures Six(r, 0x80 + x) == r * 64 + x
  {
  }

  lemma WalkTwo(c: nat)
    requires 0x80 <= c < 0x800
    ensures OrAbove(Six(0, 0x80 + c % 64), (0xC0 + c / 64) % 32, 6) == c
  {
    Powers();
    TopMod(c);
    CutSix(0, c % 64);
    BitOrAbove(c % 64, c / 64, 6);
  }

  lemma WalkThree(c: nat)
    requires 0x800 <= c < 0x1_0000 && Scalar(c)
    ensures OrAbove(Six(Six(0, 0x80 + c / 64 % 64), 0x80 + c % 64), (0xE0 + c / 4096) % 16, 12) == c
  {
    Powers();
    TopMod(c);
    CutSix(0, c / 64 % 64);
    CutSix(c / 64 % 64, c % 64);
    Digits(c);
    BitOrAbove(c / 64 % 64 * 64 + c % 64, c / 4096, 12);
  }

  lemma WalkFour(c: nat)
    requires 0x1_0000 <= c && Scalar(c)
    ensures OrAbove(Six(Six(Six(0, 0x80 + c / 4096 % 64), 0x80 + c / 64 % 64), 0x80 + c % 64), (0xF0 + c / 262144) % 8, 18) == c
  {
    Powers();
    TopMod(c);
    CutSix(0, c / 4096 % 64);
    CutSix(c / 4096 % 64, c / 64 % 64);
    CutSix(c / 4096 % 64 * 64 + c / 64 % 64, c % 64);
    Digits(c);
    BitOrAbove((c / 4096 % 64 * 64 + c / 64 % 64) * 64 + c % 64, c / 262144, 18);
  }

  /** Walking over encoder output gives the code points, one by one. */
  method WalkAll(s: seq<byte>, ghost points: seq<nat>) returns (walked: seq<nat>)
    requires Scalars(points) && s == Utf8(points)
    ensures walked == points
  {
    hide Unit8;
    walked := [];
    var pos := 0;
    assert s[0..] == s && points[0..] == points;
    while pos < |s|
      invariant pos <= |s| && |walked| <= |points| && walked == points[..|walked|]
      invariant s[pos..] == Utf8(points[|walked|..])
      decreases |s| - pos
    {
      ghost var n := |walked|;
      ghost var c, u := points[n], Unit8(points[n]);
      assert points[n..][0] == c && points[n..][1..] == points[n + 1..];
      assert s[pos..] == u + Utf8(points[n + 1..]);
      NotEmpty(c);
      assert s[pos..pos + |u|] == s[pos..][..|u|] == u;
      assert s[pos + |u|..] == s[pos..][|u|..] == Utf8(points[n + 1..]);
      var value;
      value, pos := Utf8Walk(s, pos, c);
      walked := walked + [value];
    }
    if |walked| < |points| { NotEmpty(points[|walked|]); }
  }

  lemma NotEmpty(c: nat)
    requires Scalar(c)
    ensures |Unit8(c)| > 0
  {
  }

  // ---- utf8len ----

  /** Bytes that start a character, up to the first NUL. */
  function Starts(s: seq<byte>): nat {
    if s == [] || s[0] == 0 then 0 else (if s[0] / 64 == 2 then 0 else 1) + Starts(s[1..])
  }

  /** utf8len, on a buffer whose content is followed by NUL. */
  method Utf8Len(s: seq<byte>) returns (ret: nat)
    ensures ret == Starts(s)
  {
    ret := 0;
    var i := 0;
    assert s[0..] == s;
    while i < |s| && s[i] != 0
      invariant i <= |s| && ret + Starts(s[i..]) == Starts(s)
    {
      assert s[i..][1..] == s[i + 1..];
      if s[i] / 64 != 2 {
        ret := ret + 1;
      }
      i := i + 1;
    }
  }

  /** Number of code points before the first NUL. */
  function BeforeNul(points: seq<nat>): nat {
    if points == [] || points[0] == 0 then 0 else 1 + BeforeNul(points[1..])
  }

  /** utf8len counts the code points of encoder output up to the first NUL, so all of them when there is none. */
  lemma {:induction false} CountsPoints(points: seq<nat>)
    requires Scalars(points)
    ensures Starts(Utf8(points)) == BeforeNul(points)
    ensures Starts(Utf8(points)) == |points| <==> 0 !in points
  {
    if points != [] {
      CountsPoints(points[1..]);
      UnitStarts(points[0], Utf8(points[1..]));
      assert points == [points[0]] + points[1..];
    }
  }

  lemma UnitStarts(c: nat, rest: seq<byte>)
    requires Scalar(c)
    ensures Starts(Unit8(c) + rest) == if c == 0 then 0 else 1 + Starts(rest)
  {
    var u := Unit8(c);
    var s := u + rest;
    if c < 0x80 {
      assert s[1..] == rest;
    } else {
      ContinuationBytes(c);
      assert s[1..] == u[1..] + rest;
      SkipContinuations(u[1..], rest);
    }
  }

  lemma ContinuationBytes(c: nat)
    requires Scalar(c) && c >= 0x80
    ensures Unit8(c)[0] / 64 == 3 && forall i :: 1 <= i < |Unit8(c)| ==> Unit8(c)[i] / 64 == 2
  {
  }

  lemma {:induction false} SkipContinuations(a: seq<byte>, rest: seq<byte>)
    requires forall i :: 0 <= i < |a| ==> a[i] / 64 == 2
    ensures Starts(a + rest) == Starts(rest)
  {
    if a == [] {
      assert a + rest == rest;
    } else {
      SkipContinuations(a[1..], rest);
      assert (a + rest)[1..] == a[1..] + rest;
    }
  }

  /** The three decoders on what the encoder makes of well-formed UTF-16: the original code points, and their number. */
  lemma RoundTrip(u: seq<word>, points: seq<nat>)
    requires Scalars(points) && u == Utf16(points)
    ensures Parse16(u).ok && Conv32(Utf8(Parse16(u).points), |points|) == points
    ensures 0 !in points ==> Starts(Utf8(Parse16(u).points)) == |points|
  {
    EncodedParses(points);
    Utf8Converts(points, |points|);
    CountsPoints(points);
  }
}
