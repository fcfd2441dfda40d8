/**
 What the compressor emits, as a list of tokens, and the proof that the reference decoder reads
 exactly those tokens back. The code tables are the compressor's own.
 */
module DeflateTokens {
  import opened Prelude
  import opened Bytes
  import Inflate

  datatype Token = Literal(value: byte) | Match(length: nat, distance: nat)

  // The static tables of stbi_zlib_compress, sentinels included.
  function Lengthc(j: nat): nat
    requires j <= 29
  {
    match j
    case 0 => 3 case 1 => 4 case 2 => 5 case 3 => 6 case 4 => 7
    case 5 => 8 case 6 => 9 case 7 => 10 case 8 => 11 case 9 => 13
    case 10 => 15 case 11 => 17 case 12 => 19 case 13 => 23 case 14 => 27
    case 15 => 31 case 16 => 35 case 17 => 43 case 18 => 51 case 19 => 59
    case 20 => 67 case 21 => 83 case 22 => 99 case 23 => 115 case 24 => 131
    case 25 => 163 case 26 => 195 case 27 => 227 case 28 => 258 case _ => 259
  }

  function Lengtheb(j: nat): (r: nat)
    requires j <= 28
    ensures r <= 5
  {
    match j
    case 0 => 0 case 1 => 0 case 2 => 0 case 3 => 0 case 4 => 0
    case 5 => 0 case 6 => 0 case 7 => 0 case 8 => 1 case 9 => 1
    case 10 => 1 case 11 => 1 case 12 => 2 case 13 => 2 case 14 => 2
    case 15 => 2 case 16 => 3 case 17 => 3 case 18 => 3 case 19 => 3
    case 20 => 4 case 21 => 4 case 22 => 4 case 23 => 4 case 24 => 5
    case 25 => 5 case 26 => 5 case 27 => 5 case _ => 0
  }

  function Distc(k: nat): nat
    requires k <= 30
  {
    match k
    case 0 => 1 case 1 => 2 case 2 => 3 case 3 => 4 case 4 => 5
    case 5 => 7 case 6 => 9 case 7 => 13 case 8 => 17 case 9 => 25
    case 10 => 33 case 11 => 49 case 12 => 65 case 13 => 97 case 14 => 129
    case 15 => 193 case 16 => 257 case 17 => 385 case 18 => 513 case 19 => 769
    case 20 => 1025 case 21 => 1537 case 22 => 2049 case 23 => 3073 case 24 => 4097
    case 25 => 6145 case 26 => 8193 case 27 => 12289 case 28 => 16385 case 29 => 24577
    case _ => 32768
  }

  function Disteb(k: nat): (r: nat)
    requires k <= 29
    ensures r <= 13
  {
    match k
    case 0 => 0 case 1 => 0 case 2 => 0 case 3 => 0 case 4 => 1
    case 5 => 1 case 6 => 2 case 7 => 2 case 8 => 3 case 9 => 3
    case 10 => 4 case 11 => 4 case 12 => 5 case 13 => 5 case 14 => 6
    case 15 => 6 case 16 => 7 case 17 => 7 case 18 => 8 case 19 => 8
    case 20 => 9 case 21 => 9 case 22 => 10 case 23 => 10 case 24 => 11
    case 25 => 11 case 26 => 12 case 27 => 12 case 28 => 13 case _ => 13
  }

  // ---- Bits of one token ----

  datatype Code = Code(value: nat, bits: nat)

  /** The four ranges of the stbiw__zlib_huff macros. */
  function SymbolCode(n: nat): Code
    requires n < 288
  {
    if n <= 143 then Code(0x30 + n, 8) else
    if n <= 255 then Code(0x190 + n - 144, 9) else
    if n <= 279 then Code(n - 256, 7) else
    Code(0xc0 + n - 280, 8)
  }

  function SymbolBits(n: nat): seq<bool>
    requires n < 288
  {
    MsbBits(SymbolCode(n).value, SymbolCode(n).bits)
  }

  /** Where the scan of the length table stops: the first place, from `from` on, whose successor is longer. */
  function LengthIndex(length: nat, from: nat): (j: nat)
    requires from <= 28 && Lengthc(from) <= length <= 258
    ensures j <= 28 && Lengthc(j) <= length < Lengthc(j + 1)
    decreases 28 - from
  {
    if length > Lengthc(from + 1) - 1 then LengthIndex(length, from + 1) else from
  }

  function DistanceIndex(distance: nat, from: nat): (j: nat)
    requires from <= 29 && Distc(from) <= distance <= 32767
    ensures j <= 29 && Distc(j) <= distance < Distc(j + 1)
    decreases 29 - from
  {
    if distance > Distc(from + 1) - 1 then DistanceIndex(distance, from + 1) else from
  }

  function LengthCode(length: nat): (j: nat)
    requires 3 <= length <= 258
    ensures j <= 28 && Lengthc(j) <= length < Lengthc(j + 1)
  {
    LengthIndex(length, 0)
  }

  function DistanceCode(distance: nat): (k: nat)
    requires 1 <= distance <= 32767
    ensures k <= 29 && Distc(k) <= distance < Distc(k + 1)
  {
    DistanceIndex(distance, 0)
  }

  /** The code is the only one whose interval holds the length. */
  lemma LengthCodeIs(length: nat, j: nat)
    requires 3 <= length <= 258 && j <= 28 && Lengthc(j) <= length < Lengthc(j + 1)
    ensures LengthCode(length) == j
  {
    hide LengthCode;
    var i := LengthCode(length);
    if i < j { LengthcIncreases(i + 1, j); } else if j < i { LengthcIncreases(j + 1, i); }
  }

  lemma {:induction false} LengthcIncreases(i: nat, j: nat)
    requires i <= j <= 29
    ensures Lengthc(i) <= Lengthc(j)
    decreases j - i
  {
    if i < j { LengthcIncreases(i + 1, j); }
  }

  lemma DistanceCodeIs(distance: nat, k: nat)
    requires 1 <= distance <= 32767 && k <= 29 && Distc(k) <= distance < Distc(k + 1)
    ensures DistanceCode(distance) == k
  {
    hide DistanceCode;
    var i := DistanceCode(distance);
    if i < k { DistcIncreases(i + 1, k); } else if k < i { DistcIncreases(k + 1, i); }
  }

  lemma {:induction false} DistcIncreases(i: nat, k: nat)
    requires i <= k <= 30
    ensures Distc(i) <= Distc(k)
    decreases k - i
  {
    if i < k { DistcIncreases(i + 1, k); }
  }

  /** Whether `t` may follow after `produced` bytes of output. */
  predicate Fits(t: Token, produced: nat) {
    t.Match? ==> 3 <= t.length <= 258 && 1 <= t.distance <= 32767 && t.distance <= produced
  }

  function LengthExtraBits(length: nat): seq<bool>
    requires 3 <= length <= 258
  {
    var j := LengthCode(length);
    LsbBits(length - Lengthc(j), Lengtheb(j))
  }

  function DistanceExtraBits(distance: nat): seq<bool>
    requires 1 <= distance <= 32767
  {
    var k := DistanceCode(distance);
    LsbBits(distance - Distc(k), Disteb(k))
  }

  /** What follows the length symbol: its extra bits, the distance code, the distance's extra bits. */
  function MatchArguments(length: nat, distance: nat): seq<bool>
    requires 3 <= length <= 258 && 1 <= distance <= 32767
  {
    LengthExtraBits(length) + (MsbBits(DistanceCode(distance), 5) + DistanceExtraBits(distance))
  }

  function MatchBits(length: nat, distance: nat): seq<bool>
    requires 3 <= length <= 258 && 1 <= distance <= 32767
  {
    SymbolBits(257 + LengthCode(length)) + MatchArguments(length, distance)
  }

  function TokenBits(t: Token): seq<bool>
    requires Fits(t, 32767)
  {
    match t
    case Literal(b) => SymbolBits(b)
    case Match(length, distance) => MatchBits(length, distance)
  }

  // ---- A list of tokens: its bytes and its bits ----

  function Apply(out: seq<byte>, t: Token): (r: seq<byte>)
    requires Fits(t, |out|)
    ensures |r| >= |out|
  {
    match t
    case Literal(b) => out + [b]
    case Match(length, distance) => Inflate.CopyBack(out, distance, length)
  }

  /** Every token fits where it stands when decoding starts after `out`. */
  predicate Valid(ts: seq<Token>, out: seq<byte>)
    decreases |ts|
  {
    |ts| == 0 || (Fits(ts[0], |out|) && Valid(ts[1..], Apply(out, ts[0])))
  }

  function Expand(ts: seq<Token>, out: seq<byte>): seq<byte>
    requires Valid(ts, out)
    decreases |ts|
  {
    if |ts| == 0 then out else Expand(ts[1..], Apply(out, ts[0]))
  }

  function TokensBits(ts: seq<Token>): seq<bool>
    requires forall t :: t in ts ==> Fits(t, 32767)
  {
    if |ts| == 0 then [] else TokenBits(ts[0]) + TokensBits(ts[1..])
  }

  /** Emitting one more token appends its bits and applies it to the bytes so far. */
  lemma {:induction false} Snoc(ts: seq<Token>, t: Token, out: seq<byte>)
    requires Valid(ts, out) && Fits(t, |Expand(ts, out)|)
    ensures Valid(ts + [t], out)
    ensures Expand(ts + [t], out) == Apply(Expand(ts, out), t)
    ensures forall u :: u in ts + [t] ==> Fits(u, 32767)
    ensures forall u :: u in ts ==> Fits(u, 32767)
    ensures TokensBits(ts + [t]) == TokensBits(ts) + TokenBits(t)
    decreases |ts|
  {
    hide TokenBits, Apply;
    if |ts| == 0 {
      assert ts + [t] == [t];
      assert TokensBits([t]) == TokenBits(t) + TokensBits([]);
    } else {
      var tail := ts[1..];
      Snoc(tail, t, Apply(out, ts[0]));
      assert (ts + [t])[1..] == tail + [t];
      assert forall u :: u in ts + [t] ==> u == ts[0] || u in tail + [t];
    }
  }

  // ---- The tables are those of section 3.2.5 of RFC 1951 ----

  lemma LengthTableIsStandard(j: nat)
    requires j <= 28
    ensures Lengthc(j) == Inflate.LengthBase(257 + j)
    ensures Lengtheb(j) == Inflate.LengthExtra(257 + j)
  {
    hide Pow2;
    Pow2Values();
  }

  /** Consecutive bases are no further apart than the extra bits can count. */
  lemma LengthTableHasNoGap(j: nat)
    requires j <= 28
    ensures Lengthc(j + 1) <= Lengthc(j) + Pow2(Lengtheb(j))
  {
    hide Pow2;
    Pow2Values();
  }

  lemma DistanceTableIsStandard(k: nat)
    requires k <= 29
    ensures Distc(k) == Inflate.DistanceBase(k)
    ensures Disteb(k) == Inflate.DistanceExtra(k)
  {
    if k < 10 { NearDistances(k); } else if k < 20 { MiddleDistances(k); } else { FarDistances(k); }
  }

  lemma NearDistances(k: nat)
    requires k < 10
    ensures Distc(k) == Inflate.DistanceBase(k) && Disteb(k) == Inflate.DistanceExtra(k)
  {
    hide Pow2;
    Pow2Values();
  }

  lemma MiddleDistances(k: nat)
    requires 10 <= k < 20
    ensures Distc(k) == Inflate.DistanceBase(k) && Disteb(k) == Inflate.DistanceExtra(k)
  {
    hide Pow2;
    Pow2Values();
  }

  lemma FarDistances(k: nat)
    requires 20 <= k <= 29
    ensures Distc(k) == Inflate.DistanceBase(k) && Disteb(k) == Inflate.DistanceExtra(k)
  {
    hide Pow2;
    Pow2Values();
  }

  lemma DistanceTableHasNoGap(k: nat)
    requires k <= 29
    ensures Distc(k + 1) <= Distc(k) + Pow2(Disteb(k))
  {
    hide Pow2;
    Pow2Values();
  }

  // ---- The decoder undoes the encoding ----

  lemma PrefixOfSum<T>(a: seq<T>, b: seq<T>, n: nat)
    requires n <= |a|
    ensures (a + b)[..n] == a[..n]
  {
  }

  lemma DecodeSymbolBits(n: nat, rest: seq<bool>)
    requires n < 288
    ensures Inflate.DecodeSymbol(SymbolBits(n) + rest) == Some((n, rest))
  {
    var Code(v, len) := SymbolCode(n);
    assert SymbolBits(n) == MsbBits(v, len) && 7 <= len <= 9 && v < 512 && (len == 8 ==> v < 256) && (len == 7 ==> v < 128);
    CodeBitsRead(v, len, rest);
    hide MsbBits, MsbValue;
  }

  /** The first 7, 8 and 9 bits of a code and what follows it, as numbers. */
  lemma CodeBitsRead(v: nat, len: nat, rest: seq<bool>)
    requires 7 <= len <= 9 && v < 512 && (len == 8 ==> v < 256) && (len == 7 ==> v < 128)
    ensures var bits := MsbBits(v, len) + rest;
      |bits| >= len && bits[len..] == rest && MsbValue(bits[..len]) == v
      && MsbValue(bits[..7]) == (if len == 7 then v else if len == 8 then v / 2 else v / 4)
      && (len == 9 ==> MsbValue(bits[..8]) == v / 2)
  {
    Pow2Values();
    assert Pow2(0) == 1;
    assert MsbBits(v, len)[..len] == MsbBits(v, len);
    hide *;
    FirstBits(v, len, rest, 0);
    FirstBits(v, len, rest, len - 7);
    if len == 9 { FirstBits(v, len, rest, 1); }
    assert (MsbBits(v, len) + rest)[len..] == rest;
  }

  lemma FirstBits(v: nat, len: nat, rest: seq<bool>, drop: nat)
    requires drop <= len && v < Pow2(len)
    ensures MsbValue((MsbBits(v, len) + rest)[..len - drop]) == v / Pow2(drop)
  {
    hide *;
    MsbPrefix(v, len - drop, drop);
    Pow2Add(len - drop, drop);
    Smaller(v, Pow2(len - drop), Pow2(drop));
    MsbValueOf(v / Pow2(drop), len - drop);
    PrefixOfSum(MsbBits(v, len), rest, len - drop);
  }

  lemma Smaller(v: nat, a: nat, d: nat)
    requires d > 0 && v < a * d
    ensures v / d < a
  {
    if v / d >= a { MulMonotone(a, v / d, d); }
  }

  lemma SplitThree<T>(a: seq<T>, b: seq<T>, c: seq<T>, d: seq<T>)
    ensures var s := a + (b + (c + d));
      && s[..|a|] == a && s[|a|..] == b + (c + d)
      && s[|a|..][..|b|] == b && s[|a|..][|b|..] == c + d
      && s[|a|..][|b|..][..|c|] == c && s[|a|..][|b|..][|c|..] == d
  {
    var s := a + (b + (c + d));
    assert s[|a|..] == b + (c + d);
    assert s[|a|..][|b|..] == c + d;
  }

  lemma ReadMatch(sym: nat, code: nat, a: seq<bool>, b: seq<bool>, c: seq<bool>, rest: seq<bool>)
    requires 257 <= sym <= 285 && code < 30
    requires |a| == Inflate.LengthExtra(sym) && |b| == 5 && |c| == Inflate.DistanceExtra(code)
    requires MsbValue(b) == code
    ensures Inflate.DecodeMatch(sym, a + (b + (c + rest))) ==
            Some((Inflate.LengthBase(sym) + LsbValue(a), Inflate.DistanceBase(code) + LsbValue(c), rest))
  {
    hide MsbValue, LsbValue, Inflate.LengthBase, Inflate.LengthExtra, Inflate.DistanceBase, Inflate.DistanceExtra;
    SplitThree(a, b, c, rest);
  }

  lemma ReadLength(length: nat)
    requires 3 <= length <= 258
    ensures var sym, a := 257 + LengthCode(length), LengthExtraBits(length);
      |a| == Inflate.LengthExtra(sym) && Inflate.LengthBase(sym) + LsbValue(a) == length
  {
    hide Pow2, LsbBits, LsbValue, LengthCode;
    var j := LengthCode(length);
    hide Lengthc, Lengtheb, Inflate.LengthBase, Inflate.LengthExtra;
    LengthTableIsStandard(j);
    LengthTableHasNoGap(j);
    LsbValueOf(length - Lengthc(j), Lengtheb(j));
  }

  lemma ReadDistance(distance: nat)
    requires 1 <= distance <= 32767
    ensures var k, c := DistanceCode(distance), DistanceExtraBits(distance);
      |c| == Inflate.DistanceExtra(k) && Inflate.DistanceBase(k) + LsbValue(c) == distance
  {
    hide Pow2, LsbBits, LsbValue, DistanceCode;
    var k := DistanceCode(distance);
    hide Distc, Disteb, Inflate.DistanceBase, Inflate.DistanceExtra;
    DistanceTableIsStandard(k);
    DistanceTableHasNoGap(k);
    LsbValueOf(distance - Distc(k), Disteb(k));
  }

  /** The base table and the extra bits together say the length; likewise the distance. */
  lemma DecodeMatchArguments(length: nat, distance: nat, rest: seq<bool>)
    requires 3 <= length <= 258 && 1 <= distance <= 32767
    ensures Inflate.DecodeMatch(257 + LengthCode(length), MatchArguments(length, distance) + rest)
            == Some((length, distance, rest))
  {
    hide LengthCode, DistanceCode, LengthExtraBits, DistanceExtraBits, MsbBits, MsbValue, LsbValue,
         Inflate.DecodeMatch;
    ReadLength(length);
    ReadDistance(distance);
    var k := DistanceCode(distance);
    Pow2Values();
    MsbValueOf(k, 5);
    var a, b, c := LengthExtraBits(length), MsbBits(k, 5), DistanceExtraBits(distance);
    ReadMatch(257 + LengthCode(length), k, a, b, c, rest);
    assert MatchArguments(length, distance) + rest == a + (b + (c + rest));
  }

  /** A token list followed by the end-of-block symbol decodes to its expansion and leaves the rest. */
  lemma {:induction false} DecodeTokens(ts: seq<Token>, out: seq<byte>, rest: seq<bool>)
    requires Valid(ts, out)
    requires forall t :: t in ts ==> Fits(t, 32767)
    ensures Inflate.DecodeFixed(TokensBits(ts) + (SymbolBits(256) + rest), out) == Some((Expand(ts, out), rest))
    decreases |ts|
  {
    hide SymbolBits, Inflate.DecodeSymbol;
    var tail := SymbolBits(256) + rest;
    if |ts| == 0 {
      assert TokensBits(ts) + tail == tail;
      DecodeSymbolBits(256, rest);
    } else {
      var more := TokensBits(ts[1..]) + tail;
      DecodeTokens(ts[1..], Apply(out, ts[0]), rest);
      DecodeOne(ts[0], out, more);
      assert TokensBits(ts) + tail == TokenBits(ts[0]) + more;
    }
  }

  lemma DecodeOne(t: Token, out: seq<byte>, more: seq<bool>)
    requires Fits(t, |out|) && Fits(t, 32767)
    ensures Inflate.DecodeFixed(TokenBits(t) + more, out) == Inflate.DecodeFixed(more, Apply(out, t))
  {
    hide SymbolBits, Inflate.DecodeSymbol, Inflate.DecodeMatch, MatchArguments, LengthCode;
    match t {
      case Literal(b) =>
        DecodeSymbolBits(b, more);
      case Match(length, distance) =>
        var symbol, args := 257 + LengthCode(length), MatchArguments(length, distance) + more;
        assert TokenBits(t) + more == SymbolBits(symbol) + args;
        DecodeSymbolBits(symbol, args);
        DecodeMatchArguments(length, distance, more);
    }
  }
}
