/**
 stbiw__jpg_processDU from the quantised coefficients on, against the baseline decoding procedure of
 sections F.2.2.1 and F.2.2.2 of ITU-T T.81 (the inverse of F.1.2.1 and F.1.2.2).
 */
module JpegEntropy {
  import opened Prelude
  import opened Bytes
  import opened JpegBits

  datatype Code = Code(value: nat, bits: nat)

  /** 256 codes; a length of 0 marks a symbol without a code. */
  type Table = seq<Code>

  function CodeBits(c: Code): seq<bool> {
    MsbBits(c.value, c.bits)
  }

  predicate ValidTable(t: Table) {
    |t| == 256 && forall s :: 0 <= s < 256 ==> t[s].bits <= 16 && t[s].value < Pow2(t[s].bits)
  }

  /** No symbol's code starts another symbol's code. */
  predicate PrefixFree(t: Table) {
    forall s, u {:trigger t[s], t[u]} ::
      0 <= s < |t| && 0 <= u < |t| && s != u && t[s].bits > 0 && t[u].bits > 0 ==> !(CodeBits(t[s]) <= CodeBits(t[u]))
  }

  /** A table every baseline DC difference can be coded with (categories 0 to 11). */
  predicate DcTable(t: Table) {
    ValidTable(t) && PrefixFree(t) && forall s :: 0 <= s <= 11 ==> t[s].bits > 0
  }

  /** A table every baseline AC coefficient can be coded with: EOB, ZRL, and run/size for sizes 1 to 10. */
  predicate AcTable(t: Table) {
    && ValidTable(t) && PrefixFree(t)
    && t[0x00].bits > 0 && t[0xF0].bits > 0
    && forall s :: 0 <= s < 256 && 1 <= s % 16 <= 10 ==> t[s].bits > 0
  }

  // ---- Values and categories (section F.1.2.1.2) ----

  /** The number of bits of `n`: the category SSSS of a coefficient of that magnitude. */
  function Size(n: nat): nat {
    if n == 0 then 0 else 1 + Size(n / 2)
  }

  lemma {:induction false} SizeBounds(n: nat)
    ensures n > 0 ==> Size(n) > 0 && Pow2(Size(n) - 1) <= n
    ensures n < Pow2(Size(n))
  {
    if n > 1 {
      SizeBounds(n / 2);
    }
  }

  lemma SizeAtMost(n: nat, k: nat)
    requires n < Pow2(k)
    ensures Size(n) <= k
  {
    if Size(n) > k {
      Pow2Monotone(k, Size(n) - 1);
      SizeBounds(n);
    }
  }

  /** The extra bits of a value: itself, or its ones' complement when negative. */
  function ExtraBits(v: int): seq<bool> {
    MsbBits(if v < 0 then (v - 1) % Pow2(Size(Abs(v))) else v, Size(Abs(v)))
  }

  /** EXTEND (Figure F.12). */
  function Extend(x: nat, t: nat): int {
    if t > 0 && x < Pow2(t - 1) then x as int - Pow2(t) + 1 else x
  }

  lemma ExtendUndoes(v: int)
    ensures Extend(MsbValue(ExtraBits(v)), Size(Abs(v))) == v
  {
    hide Size, MsbBits, MsbValue, Pow2;
    var n := Size(Abs(v));
    SizeBounds(Abs(v));
    if v == 0 {
      assert MsbBits(0, 0) == [];
      ZeroSize();
    } else {
      PowerHalves(n);
      if v < 0 {
        assert (v - 1) % Pow2(n) == v - 1 + Pow2(n) by { ModNegative(v - 1, Pow2(n)); }
        MsbValueOf((v - 1) % Pow2(n), n);
      } else {
        MsbValueOf(v, n);
      }
    }
  }

  lemma ZeroSize()
    ensures Size(0) == 0 && MsbValue([]) == 0
  {
  }

  lemma PowerHalves(n: nat)
    ensures n > 0 ==> Pow2(n) == 2 * Pow2(n - 1)
  {
  }

  lemma ModNegative(x: int, m: nat)
    requires x < 0 <= x + m && m > 0
    ensures x % m == x + m
  {
    QuotientUnique(x + m, m, 0, x + m);
    ModAddOnce(x, m);
  }

  lemma ModAddOnce(x: int, m: nat)
    requires m > 0
    ensures (x + m) % m == x % m
  {
    var q: int, r: nat := x / (m as int), x % (m as int);
    assert x + m == (q + 1) * m + r;
    RemainderUnique(x + m, m, q + 1, r);
  }

  lemma RemainderUnique(v: int, d: nat, q: int, r: nat)
    requires d > 0 && v == q * d + r && r < d
    ensures v % d == r
  {
    var q': int, r': nat := v / (d as int), v % (d as int);
    assert v == q' * d + r';
    if q >= q' + 1 {
      MulMonotone(q' + 1, q, d);
    } else if q' >= q + 1 {
      MulMonotone(q + 1, q', d);
    }
  }

  /** stbiw__jpg_calcBits. */
  method CalcBits(val: int) returns (bits: Code)
    requires val != 0
    ensures bits.bits == Size(Abs(val)) && bits.value < Pow2(bits.bits) && CodeBits(bits) == ExtraBits(val)
  {
    var tmp1: nat := if val < 0 then -val else val;
    var v := if val < 0 then val - 1 else val;
    var n: nat := 1;
    while tmp1 / 2 != 0
      invariant tmp1 > 0 && n - 1 + Size(tmp1) == Size(Abs(val))
      decreases tmp1
    {
      tmp1 := tmp1 / 2;
      n := n + 1;
    }
    SizeBounds(Abs(val));
    if val >= 0 { QuotientUnique(val, Pow2(n), 0, val); }
    bits := Code(v % Pow2(n), n);
  }

  // ---- The decoder ----

  /** The symbol, `from` or later, whose code the bits start with, and the bits after it. */
  function FindSymbol(t: Table, bits: seq<bool>, from: nat): (r: Option<(nat, seq<bool>)>)
    requires from <= |t|
    ensures r.Some? ==> r.value.0 < |t| && |r.value.1| < |bits|
    decreases |t| - from
  {
    if from == |t| then None else
    if t[from].bits > 0 && CodeBits(t[from]) <= bits then Some((from, bits[t[from].bits..])) else
    FindSymbol(t, bits, from + 1)
  }

  function DecodeSymbol(t: Table, bits: seq<bool>): (r: Option<(nat, seq<bool>)>)
    ensures r.Some? ==> r.value.0 < |t| && |r.value.1| < |bits|
  {
    FindSymbol(t, bits, 0)
  }

  /** RECEIVE and EXTEND. */
  function Receive(bits: seq<bool>, t: nat): (r: Option<(int, seq<bool>)>)
    ensures r.Some? ==> |r.value.1| == |bits| - t
  {
    if |bits| < t then None else Some((Extend(MsbValue(bits[..t]), t), bits[t..]))
  }

  function Zeros(n: nat): (z: seq<int>)
    ensures |z| == n
  {
    seq(n, _ => 0)
  }

  /** Decode_AC_coefficients (Figure F.13): the coefficients from `k` to 63. */
  function DecodeAc(t: Table, bits: seq<bool>, k: nat): (r: Option<(seq<int>, seq<bool>)>)
    requires k <= 64
    ensures r.Some? ==> |r.value.0| == 64 - k
    decreases |bits|
  {
    if k == 64 then Some(([], bits)) else
    match DecodeSymbol(t, bits)
    case None => None
    case Some((rs, rest)) =>
      var run, size := rs / 16, rs % 16;
      if size == 0 then
        if run != 15 then Some((Zeros(64 - k), rest)) else
        if k + 16 > 63 then None else
        match DecodeAc(t, rest, k + 16)
        case None => None
        case Some((more, rest')) => Some((Zeros(16) + more, rest'))
      else if k + run > 63 then None else
        match Receive(rest, size)
        case None => None
        case Some((v, rest')) =>
          match DecodeAc(t, rest', k + run + 1)
          case None => None
          case Some((more, rest'')) => Some((Zeros(run) + ([v] + more), rest''))
  }

  /** A whole block: the DC difference from the prediction (Figure F.12), then the AC coefficients. */
  function DecodeBlock(htdc: Table, htac: Table, pred: int, bits: seq<bool>): Option<(seq<int>, seq<bool>)> {
    match DecodeSymbol(htdc, bits)
    case None => None
    case Some((t, rest)) =>
      match Receive(rest, t)
      case None => None
      case Some((diff, rest')) =>
        match DecodeAllAc(htac, rest')
        case None => None
        case Some((ac, rest'')) => Some(([pred + diff] + ac, rest''))
  }

  lemma {:induction false} FindCode(t: Table, s: nat, rest: seq<bool>, from: nat)
    requires PrefixFree(t) && from <= s < |t| && t[s].bits > 0
    requires forall u {:trigger t[u]} :: from <= u < s && t[u].bits > 0 ==> !(CodeBits(t[u]) <= CodeBits(t[s]) + rest)
    ensures FindSymbol(t, CodeBits(t[s]) + rest, from) == Some((s, rest))
    decreases s - from
  {
    assert |CodeBits(t[s])| == t[s].bits;
    hide CodeBits;
    assert (CodeBits(t[s]) + rest)[t[s].bits..] == rest;
    if from < s {
      FindCode(t, s, rest, from + 1);
    }
  }

  lemma PrefixesCompare(a: seq<bool>, b: seq<bool>, rest: seq<bool>)
    requires a <= b + rest
    ensures a <= b || b <= a
  {
    if |a| <= |b| {
      assert b == (b + rest)[..|b|];
      assert a == (b + rest)[..|a|] == b[..|a|];
    } else {
      assert b == (b + rest)[..|b|] == a[..|b|];
    }
  }

  /** With prefix-free codes, the decoder finds the symbol that was coded. */
  lemma DecodeCode(t: Table, s: nat, rest: seq<bool>)
    requires PrefixFree(t) && s < |t| && t[s].bits > 0
    ensures DecodeSymbol(t, CodeBits(t[s]) + rest) == Some((s, rest))
  {
    hide CodeBits;
    forall u {:trigger t[u]} | 0 <= u < s && t[u].bits > 0 ensures !(CodeBits(t[u]) <= CodeBits(t[s]) + rest) {
      if CodeBits(t[u]) <= CodeBits(t[s]) + rest {
        PrefixesCompare(CodeBits(t[u]), CodeBits(t[s]), rest);
      }
    }
    FindCode(t, s, rest, 0);
  }

  lemma ReceiveExtra(v: int, rest: seq<bool>)
    ensures Receive(ExtraBits(v) + rest, Size(Abs(v))) == Some((v, rest))
  {
    hide MsbValue, Extend, Size;
    ExtendUndoes(v);
    assert (ExtraBits(v) + rest)[..Size(Abs(v))] == ExtraBits(v);
    assert (ExtraBits(v) + rest)[Size(Abs(v))..] == rest;
  }

  // ---- What the encoder writes ----

  /** 64 coefficients whose AC values have a baseline category (at most 10). */
  predicate Baseline(du: seq<int>) {
    |du| == 64 && forall i :: 1 <= i < 64 ==> Abs(du[i]) < 1024
  }

  /** The DC difference has one too (at most 11). */
  predicate Encodable(du: seq<int>, pred: int) {
    Baseline(du) && Abs(du[0] - pred) < 2048
  }

  /** The number of zeros from `k` on. */
  function Run(du: seq<int>, k: nat): (r: nat)
    requires k <= |du|
    ensures k + r <= |du| && (forall i :: k <= i < k + r ==> du[i] == 0) && (k + r < |du| ==> du[k + r] != 0)
    decreases |du| - k
  {
    if k == |du| || du[k] != 0 then 0 else 1 + Run(du, k + 1)
  }

  function ZrlBits(htac: Table, count: nat): seq<bool>
    requires |htac| == 256
  {
    if count == 0 then [] else ZrlBits(htac, count - 1) + CodeBits(htac[0xF0])
  }

  /** One coefficient after a run of zeros: ZRLs, the run/size code, the extra bits. */
  function CoefficientBits(htac: Table, run: nat, v: int): seq<bool>
    requires |htac| == 256 && Size(Abs(v)) <= 15
  {
    ZrlBits(htac, run / 16) + (CodeBits(htac[16 * (run % 16) + Size(Abs(v))]) + ExtraBits(v))
  }

  /** The sizes fit the low half of a run/size symbol. */
  predicate Sized(du: seq<int>) {
    |du| == 64 && forall i {:trigger du[i]} :: 1 <= i < 64 ==> Size(Abs(du[i])) <= 15
  }

  function AcBits(htac: Table, du: seq<int>, k: nat): seq<bool>
    requires |htac| == 256 && Sized(du) && 1 <= k <= 64
    decreases 64 - k
  {
    if k == 64 then [] else
    var run := Run(du, k);
    if k + run == 64 then CodeBits(htac[0]) else
    CoefficientBits(htac, run, du[k + run]) + AcBits(htac, du, k + run + 1)
  }

  function DcBits(htdc: Table, diff: int): seq<bool>
    requires |htdc| == 256 && Size(Abs(diff)) <= 15
  {
    CodeBits(htdc[Size(Abs(diff))]) + ExtraBits(diff)
  }

  lemma {:induction false} DecodeZrls(t: Table, count: nat, k: nat, bits: seq<bool>, ac: seq<int>, rest: seq<bool>)
    requires AcTable(t) && 1 <= k && k + 16 * count <= 63
    requires DecodeAc(t, bits, k + 16 * count) == Some((ac, rest))
    ensures |t| == 256
    ensures DecodeAc(t, ZrlBits(t, count) + bits, k) == Some((Zeros(16 * count) + ac, rest))
    decreases count
  {
    assert |t| == 256;
    hide *;
    if count == 0 {
      NoZrl(t, bits, ac);
    } else {
      OneZrl(t, k + 16 * (count - 1), bits, ac, rest);
      DecodeZrls(t, count - 1, k, CodeBits(t[0xF0]) + bits, Zeros(16) + ac, rest);
      ZrlSnoc(t, count, bits, ac);
    }
  }

  lemma NoZrl(t: Table, bits: seq<bool>, ac: seq<int>)
    requires |t| == 256
    ensures ZrlBits(t, 0) + bits == bits && Zeros(16 * 0) + ac == ac
  {
  }

  lemma ZrlSnoc(t: Table, count: nat, bits: seq<bool>, ac: seq<int>)
    requires |t| == 256 && count > 0
    ensures ZrlBits(t, count) + bits == ZrlBits(t, count - 1) + (CodeBits(t[0xF0]) + bits)
    ensures Zeros(16 * count) + ac == Zeros(16 * (count - 1)) + (Zeros(16) + ac)
  {
    ConcatAssociates(ZrlBits(t, count - 1), CodeBits(t[0xF0]), bits);
    ZerosMore(16 * (count - 1), 16, ac);
  }

  lemma OneZrl(t: Table, k: nat, bits: seq<bool>, ac: seq<int>, rest: seq<bool>)
    requires AcTable(t) && 1 <= k && k + 16 <= 63 && DecodeAc(t, bits, k + 16) == Some((ac, rest))
    ensures DecodeAc(t, CodeBits(t[0xF0]) + bits, k) == Some((Zeros(16) + ac, rest))
  {
    assert |t| == 256 && PrefixFree(t) && t[0xF0].bits > 0;
    hide CodeBits, PrefixFree, ValidTable, DecodeSymbol, AcTable, Zeros;
    DecodeCode(t, 0xF0, bits);
  }

  lemma ZerosMore(a: nat, b: nat, more: seq<int>)
    ensures Zeros(a) + (Zeros(b) + more) == Zeros(a + b) + more
  {
  }

  lemma DecodeRunSize(t: Table, low: nat, v: int, k: nat, bits: seq<bool>, ac: seq<int>, rest: seq<bool>)
    requires AcTable(t) && 1 <= k && low <= 15 && k + low <= 63 && 1 <= Size(Abs(v)) <= 10
    requires DecodeAc(t, bits, k + low + 1) == Some((ac, rest))
    ensures DecodeAc(t, CodeBits(t[16 * low + Size(Abs(v))]) + (ExtraBits(v) + bits), k)
            == Some((Zeros(low) + ([v] + ac), rest))
  {
    assert |t| == 256;
    hide CodeBits, PrefixFree, ValidTable, DecodeSymbol, Size, ExtraBits, Receive, Abs;
    var symbol := 16 * low + Size(Abs(v));
    assert symbol < 256 && symbol / 16 == low && symbol % 16 == Size(Abs(v));
    assert t[symbol].bits > 0;
    DecodeCode(t, symbol, ExtraBits(v) + bits);
    ReceiveExtra(v, bits);
  }

  /** ZRLs for the sixteens of a run, then the symbol of the rest of it. */
  lemma DecodeRun(t: Table, high: nat, low: nat, v: int, k: nat, bits: seq<bool>, ac: seq<int>, rest: seq<bool>)
    requires AcTable(t) && 1 <= k && low <= 15 && k + 16 * high + low <= 63 && 1 <= Size(Abs(v)) <= 10
    requires DecodeAc(t, bits, k + 16 * high + low + 1) == Some((ac, rest))
    ensures |t| == 256
    ensures DecodeAc(t, ZrlBits(t, high) + (CodeBits(t[16 * low + Size(Abs(v))]) + (ExtraBits(v) + bits)), k)
            == Some((Zeros(16 * high) + (Zeros(low) + ([v] + ac)), rest))
  {
    DecodeRunSize(t, low, v, k + 16 * high, bits, ac, rest);
    assert |t| == 256;
    hide *;
    DecodeZrls(t, high, k, CodeBits(t[16 * low + Size(Abs(v))]) + (ExtraBits(v) + bits), Zeros(low) + ([v] + ac), rest);
  }

  lemma DecodeCoefficient(t: Table, run: nat, v: int, k: nat, bits: seq<bool>, ac: seq<int>, rest: seq<bool>)
    requires AcTable(t) && 1 <= k && k + run <= 63 && 1 <= Size(Abs(v)) <= 10
    requires DecodeAc(t, bits, k + run + 1) == Some((ac, rest))
    ensures DecodeAc(t, CoefficientBits(t, run, v) + bits, k) == Some((Zeros(run) + ([v] + ac), rest))
  {
    DecodeRun(t, run / 16, run % 16, v, k, bits, ac, rest);
    JoinRun(t, run, v, bits);
    hide *;
    ZerosMore(16 * (run / 16), run % 16, [v] + ac);
  }

  lemma JoinRun(t: Table, run: nat, v: int, bits: seq<bool>)
    requires |t| == 256 && 1 <= Size(Abs(v)) <= 10
    ensures CoefficientBits(t, run, v) + bits
         == ZrlBits(t, run / 16) + (CodeBits(t[16 * (run % 16) + Size(Abs(v))]) + (ExtraBits(v) + bits))
  {
    hide CodeBits, ExtraBits, Size, Abs, ZrlBits;
    var code := CodeBits(t[16 * (run % 16) + Size(Abs(v))]);
    ConcatAssociates(ZrlBits(t, run / 16), code + ExtraBits(v), bits);
    ConcatAssociates(code, ExtraBits(v), bits);
  }

  lemma SizesFit(du: seq<int>, pred: int)
    requires Encodable(du, pred)
    ensures Size(Abs(du[0] - pred)) <= 11 && forall i {:trigger du[i]} :: 1 <= i < 64 ==> Size(Abs(du[i])) <= 10
  {
    hide Size;
    Pow2Values();
    SizeAtMost(Abs(du[0] - pred), 11);
    forall i {:trigger du[i]} | 1 <= i < 64 ensures Size(Abs(du[i])) <= 10 {
      SizeAtMost(Abs(du[i]), 10);
    }
  }

  lemma DecodeEob(t: Table, k: nat, rest: seq<bool>)
    requires AcTable(t) && 1 <= k <= 63
    ensures DecodeAc(t, CodeBits(t[0]) + rest, k) == Some((Zeros(64 - k), rest))
  {
    assert |t| == 256;
    hide CodeBits, PrefixFree, ValidTable, DecodeSymbol;
    DecodeCode(t, 0, rest);
  }

  lemma SizeOfNonzero(du: seq<int>, i: nat)
    requires Baseline(du) && 1 <= i < 64 && du[i] != 0
    ensures 1 <= Size(Abs(du[i])) <= 10
  {
    hide Size;
    var v := du[i];
    Pow2Values();
    SizeAtMost(Abs(v), 10);
    SizeBounds(Abs(v));
  }

  lemma UnfoldAcBits(t: Table, du: seq<int>, k: nat)
    requires |t| == 256 && Sized(du) && 1 <= k < 64
    ensures var run := Run(du, k);
      AcBits(t, du, k) == if k + run == 64 then CodeBits(t[0])
                          else CoefficientBits(t, run, du[k + run]) + AcBits(t, du, k + run + 1)
  {
    hide CodeBits, CoefficientBits, Size, Abs, Run;
  }

  lemma TailIsRun(du: seq<int>, k: nat)
    requires |du| == 64 && k < 64
    ensures var run := Run(du, k);
      du[k..] == if k + run == 64 then Zeros(64 - k) else Zeros(run) + ([du[k + run]] + du[k + run + 1..])
  {
    hide Run;
  }

  lemma {:induction false} DecodeAcBits(t: Table, du: seq<int>, k: nat, rest: seq<bool>)
    requires AcTable(t) && Sized(du) && 1 <= k <= 64 && Baseline(du)
    ensures DecodeAc(t, AcBits(t, du, k) + rest, k) == Some((du[k..], rest))
    decreases 64 - k
  {
    assert |t| == 256 && |du| == 64;
    if k == 64 {
      assert AcBits(t, du, k) + rest == rest && du[k..] == [];
      NoCoefficients(t, rest, k);
    } else {
      hide CodeBits, AcTable, DecodeAc, Size, CoefficientBits, Abs, Sized, AcBits, Zeros, Run, Baseline;
      UnfoldAcBits(t, du, k);
      TailIsRun(du, k);
      var run := Run(du, k);
      if k + run == 64 {
        DecodeEob(t, k, rest);
      } else {
        var v, bits := du[k + run], AcBits(t, du, k + run + 1) + rest;
        DecodeAcBits(t, du, k + run + 1, rest);
        SizeOfNonzero(du, k + run);
        DecodeCoefficient(t, run, v, k, bits, du[k + run + 1..], rest);
        ConcatAssociates(CoefficientBits(t, run, v), AcBits(t, du, k + run + 1), rest);
      }
    }
  }

  lemma NoCoefficients(t: Table, rest: seq<bool>, k: nat)
    requires k == 64
    ensures DecodeAc(t, rest, k) == Some(([], rest))
  {
  }

  function AllAcBits(htac: Table, du: seq<int>): seq<bool>
    requires |htac| == 256 && Sized(du)
  {
    AcBits(htac, du, 1)
  }

  function DecodeAllAc(t: Table, bits: seq<bool>): (r: Option<(seq<int>, seq<bool>)>)
    ensures r.Some? ==> |r.value.0| == 63
  {
    DecodeAc(t, bits, 1)
  }

  function BlockBits(htdc: Table, htac: Table, pred: int, du: seq<int>): seq<bool>
    requires |htdc| == 256 && |htac| == 256 && Sized(du) && Size(Abs(du[0] - pred)) <= 15
  {
    DcBits(htdc, du[0] - pred) + AllAcBits(htac, du)
  }

  lemma BlockFits(htdc: Table, htac: Table, du: seq<int>, pred: int)
    requires DcTable(htdc) && AcTable(htac) && Encodable(du, pred)
    ensures |htdc| == 256 && |htac| == 256 && |du| == 64 && Sized(du) && Baseline(du) && Size(Abs(du[0] - pred)) <= 11
  {
    SizesFit(du, pred);
  }

  lemma BlockUnfolds(htdc: Table, htac: Table, pred: int, du: seq<int>)
    requires |htdc| == 256 && |htac| == 256 && Sized(du) && Size(Abs(du[0] - pred)) <= 15
    ensures BlockBits(htdc, htac, pred, du) == DcBits(htdc, du[0] - pred) + AllAcBits(htac, du)
  {
  }

  /** The bits of a block decode to its 64 coefficients, and what follows is left alone. */
  lemma DecodeBlockBits(htdc: Table, htac: Table, pred: int, du: seq<int>, rest: seq<bool>)
    requires DcTable(htdc) && AcTable(htac) && Encodable(du, pred)
    ensures Size(Abs(du[0] - pred)) <= 15 && Sized(du)
    ensures DecodeBlock(htdc, htac, pred, BlockBits(htdc, htac, pred, du) + rest) == Some((du, rest))
  {
    hide *;
    BlockFits(htdc, htac, du, pred);
    HeadAndTail(du, pred);
    var diff, tail := du[0] - pred, AllAcBits(htac, du) + rest;
    BlockUnfolds(htdc, htac, pred, du);
    DecodeAllAcBits(htac, du, rest);
    DecodeDcBits(htdc, htac, pred, diff, tail, du[1..], rest);
    ConcatAssociates(DcBits(htdc, diff), AllAcBits(htac, du), rest);
  }

  lemma HeadAndTail(du: seq<int>, pred: int)
    requires |du| == 64
    ensures [pred + (du[0] - pred)] + du[1..] == du
  {
  }

  lemma DecodeAllAcBits(t: Table, du: seq<int>, rest: seq<bool>)
    requires AcTable(t) && Sized(du) && Baseline(du)
    ensures DecodeAllAc(t, AllAcBits(t, du) + rest) == Some((du[1..], rest))
  {
    hide AcTable, Sized, Abs, Baseline;
    var k: nat :| k == 1;
    DecodeAcBits(t, du, k, rest);
  }

  lemma DecodeDcBits(htdc: Table, htac: Table, pred: int, diff: int, tail: seq<bool>, ac: seq<int>, rest: seq<bool>)
    requires DcTable(htdc) && Size(Abs(diff)) <= 11 && DecodeAllAc(htac, tail) == Some((ac, rest))
    ensures DecodeBlock(htdc, htac, pred, DcBits(htdc, diff) + tail) == Some(([pred + diff] + ac, rest))
  {
    assert |htdc| == 256;
    hide PrefixFree, ValidTable, DecodeAllAc, CodeBits, Size, Abs, ExtraBits, DecodeSymbol, Receive;
    DecodeCode(htdc, Size(Abs(diff)), ExtraBits(diff) + tail);
    ReceiveExtra(diff, tail);
    ConcatAssociates(CodeBits(htdc[Size(Abs(diff))]), ExtraBits(diff), tail);
  }

  // ---- stbiw__jpg_processDU ----

  /** Codes that exist have a bit, and fit the writer. */
  method WriteCode(w: BitWriter, c: Code)
    requires w.Valid() && c.bits <= 16 && c.value < Pow2(c.bits)
    modifies w
    ensures w.Valid() && w.Stream() == old(w.Stream()) + CodeBits(c)
  {
    w.WriteBits(c.value, c.bits);
  }

  method WriteDc(w: BitWriter, htdc: Table, diff: int)
    requires w.Valid() && DcTable(htdc) && Size(Abs(diff)) <= 11
    modifies w
    ensures w.Valid() && w.Stream() == old(w.Stream()) + DcBits(htdc, diff)
  {
    hide CodeBits, Pow2, PrefixFree;
    if diff == 0 {
      ZeroHasNoBits();
      WriteCode(w, htdc[0]);
    } else {
      var bits := CalcBits(diff);
      WriteCode(w, htdc[bits.bits]);
      WriteCode(w, bits);
      ConcatAssociates(old(w.Stream()), CodeBits(htdc[bits.bits]), CodeBits(bits));
    }
  }

  lemma ZeroHasNoBits()
    ensures Size(Abs(0)) == 0 && ExtraBits(0) == []
  {
  }

  /** The ZRL loop, the run/size code and the value of one coefficient. */
  method WriteCoefficient(w: BitWriter, htac: Table, nrzeroes: nat, v: int)
    requires w.Valid() && AcTable(htac) && v != 0 && Size(Abs(v)) <= 10
    modifies w
    ensures w.Valid() && w.Stream() == old(w.Stream()) + CoefficientBits(htac, nrzeroes, v)
  {
    hide CodeBits, Pow2, PrefixFree, ExtraBits;
    var low: nat := nrzeroes;
    if nrzeroes >= 16 {
      var lng := nrzeroes / 16;
      for nrmarker := 1 to lng + 1
        invariant w.Valid() && w.Stream() == old(w.Stream()) + ZrlBits(htac, nrmarker - 1)
      {
        WriteCode(w, htac[0xF0]);
        ConcatAssociates(old(w.Stream()), ZrlBits(htac, nrmarker - 1), CodeBits(htac[0xF0]));
      }
      low := nrzeroes % 16;
    }
    assert low == nrzeroes % 16 && w.Stream() == old(w.Stream()) + ZrlBits(htac, nrzeroes / 16);
    var bits := CalcBits(v);
    WriteCode(w, htac[16 * low + bits.bits]);
    WriteCode(w, bits);
    var symbol := CodeBits(htac[16 * low + bits.bits]);
    ConcatAssociates(old(w.Stream()) + ZrlBits(htac, nrzeroes / 16), symbol, ExtraBits(v));
    ConcatAssociates(old(w.Stream()), ZrlBits(htac, nrzeroes / 16), symbol + ExtraBits(v));
  }

  /** The index of the last nonzero AC coefficient, or 0. */
  method LastNonzero(du: seq<int>) returns (end0pos: nat)
    requires |du| == 64
    ensures end0pos <= 63 && (end0pos > 0 ==> du[end0pos] != 0) && forall i :: end0pos < i < 64 ==> du[i] == 0
  {
    end0pos := 63;
    while end0pos > 0 && du[end0pos] == 0
      invariant end0pos <= 63 && forall i :: end0pos < i < 64 ==> du[i] == 0
    {
      end0pos := end0pos - 1;
    }
  }

  /** The inner loop: the run of zeros that starts at `startpos`. */
  method SkipZeros(du: seq<int>, startpos: nat, end0pos: nat) returns (i: nat)
    requires |du| == 64 && startpos <= end0pos <= 63 && du[end0pos] != 0
    ensures startpos <= i <= end0pos && du[i] != 0 && Run(du, startpos) == i - startpos
  {
    i := startpos;
    while du[i] == 0 && i <= end0pos
      invariant startpos <= i <= end0pos && forall k :: startpos <= k < i ==> du[k] == 0
      decreases end0pos - i
    {
      i := i + 1;
    }
    RunIs(du, startpos, i);
  }

  /** One turn of the main loop. */
  method WriteNext(w: BitWriter, htac: Table, du: seq<int>, startpos: nat, end0pos: nat) returns (i: nat)
    requires w.Valid() && AcTable(htac) && Sized(du) && Baseline(du)
    requires 1 <= startpos <= end0pos <= 63 && du[end0pos] != 0
    modifies w
    ensures startpos < i <= end0pos + 1 && w.Valid()
    ensures w.Stream() + AcBits(htac, du, i) == old(w.Stream()) + AcBits(htac, du, startpos)
  {
    assert |du| == 64;
    hide *;
    i := SkipZeros(du, startpos, end0pos);
    UnfoldAcBits(htac, du, startpos);
    SizeOfNonzero(du, i);
    WriteCoefficient(w, htac, i - startpos, du[i]);
    ConcatAssociates(old(w.Stream()), CoefficientBits(htac, i - startpos, du[i]), AcBits(htac, du, i + 1));
    i := i + 1;
  }

  method WriteAc(w: BitWriter, htac: Table, du: seq<int>)
    requires w.Valid() && AcTable(htac) && Sized(du) && Baseline(du)
    modifies w
    ensures w.Valid() && w.Stream() == old(w.Stream()) + AllAcBits(htac, du)
  {
    assert |du| == 64;
    hide CodeBits, Pow2, PrefixFree, AcBits, Sized, Baseline;
    var end0pos := LastNonzero(du);
    if end0pos == 0 {
      NothingAfter(htac, du, 1);
      WriteCode(w, htac[0]);
      return;
    }
    var i: nat := 1;
    while i <= end0pos
      invariant 1 <= i <= end0pos + 1 && w.Valid()
      invariant w.Stream() + AcBits(htac, du, i) == old(w.Stream()) + AllAcBits(htac, du)
    {
      i := WriteNext(w, htac, du, i, end0pos);
    }
    if end0pos != 63 {
      NothingAfter(htac, du, i);
      WriteCode(w, htac[0]);
    } else {
      NoBitsLeft(htac, du, i);
    }
  }

  lemma {:induction false} RunIs(du: seq<int>, k: nat, i: nat)
    requires k <= i < |du| && du[i] != 0 && forall j :: k <= j < i ==> du[j] == 0
    ensures Run(du, k) == i - k
    decreases i - k
  {
    if k < i {
      RunIs(du, k + 1, i);
    }
  }

  lemma NothingAfter(htac: Table, du: seq<int>, k: nat)
    requires |htac| == 256 && Sized(du) && 1 <= k < 64 && forall j :: k <= j < 64 ==> du[j] == 0
    ensures AcBits(htac, du, k) == CodeBits(htac[0])
  {
    hide CodeBits, Run, Size;
    assert k + Run(du, k) == 64;
  }

  lemma NoBitsLeft(htac: Table, du: seq<int>, k: nat)
    requires |htac| == 256 && Sized(du) && k == 64
    ensures AcBits(htac, du, k) == []
  {
  }

  /** Returns the DC value, the next block's prediction. */
  method ProcessDU(w: BitWriter, du: seq<int>, dc: int, htdc: Table, htac: Table) returns (dc': int)
    requires w.Valid() && DcTable(htdc) && AcTable(htac) && Encodable(du, dc)
    modifies w
    ensures Sized(du) && Size(Abs(du[0] - dc)) <= 15
    ensures w.Valid() && w.Stream() == old(w.Stream()) + BlockBits(htdc, htac, dc, du)
    ensures dc' == du[0]
  {
    SizesFit(du, dc);
    hide DcTable, AcTable, DcBits, AllAcBits, Size, Abs;
    WriteDc(w, htdc, du[0] - dc);
    WriteAc(w, htac, du);
    ConcatAssociates(old(w.Stream()), DcBits(htdc, du[0] - dc), AllAcBits(htac, du));
    dc' := du[0];
  }
}
