/** Code tables that agree with the lists in a file header: no code starts another, and a decoder that knows only the
    lists reads every symbol back. The writer's own tables are of this kind, and serve every baseline scan. */
module JpegStandard {
  import opened Prelude
  import opened Bytes
  import opened JpegEntropy
  import opened JpegScan
  import opened JpegTables

  /** How many codes each length has, the first of them and its place in the list of symbols, that list, and the codes. */
  datatype Coding = Coding(count: nat -> nat, minCode: nat -> nat, valPtr: nat -> nat, value: nat -> nat,
                           code: nat -> Code) {
    /** One more than the last code of a length. */
    function End(n: nat): nat { minCode(n) + count(n) }

    /** The code of a symbol is one of its length, and stands for that symbol in the list. */
    predicate Located(s: nat) {
      var c := code(s);
      && (c.bits == 0 ==> c.value == 0)
      && (c.bits > 0 ==> c.bits <= 16 && minCode(c.bits) <= c.value < End(c.bits)
                         && value(valPtr(c.bits) + c.value - minCode(c.bits)) == s)
    }

    /** Section C.2 of ITU-T T.81: longer codes begin where the shorter ones end, with a zero appended for each length. */
    predicate Canonical() {
      && (forall n :: 1 <= n < 16 ==> minCode(n + 1) == 2 * End(n))
      && End(16) <= 0x1_0000
      && (forall s :: 0 <= s < 256 ==> Located(s))
    }

    function Table(): (r: JpegEntropy.Table)
      ensures |r| == 256 && forall s :: 0 <= s < 256 ==> r[s] == code(s)
    {
      seq(256, s requires 0 <= s < 256 => code(s))
    }
  }

  // ---- Codes of different lengths ----

  /** The codes of a length, made longer, end where longer codes begin, or before. */
  lemma {:induction false} LongerStartLater(t: Coding, m: nat, n: nat)
    requires t.Canonical() && 1 <= m < n <= 16
    ensures t.End(m) * Pow2(n - m) <= t.minCode(n)
    decreases n
  {
    hide Pow2, Coding.Located;
    Doubles(n - m);
    if m + 1 < n {
      LongerStartLater(t, m, n - 1);
      Twice(t.End(m), Pow2(n - m - 1));
    }
    assert t.minCode(n - 1 + 1) == 2 * t.End(n - 1);
  }

  lemma Doubles(d: nat)
    requires d > 0
    ensures Pow2(d) == 2 * Pow2(d - 1) && (d == 1 ==> Pow2(d) == 2)
  {
  }

  lemma Twice(e: nat, p: nat)
    ensures e * (2 * p) == 2 * (e * p)
  {
  }

  /** Every code fits its length. */
  lemma CodeFits(t: Coding, s: nat)
    requires t.Canonical() && s < 256
    ensures t.code(s).bits <= 16 && t.code(s).value < Pow2(t.code(s).bits)
  {
    Pow2Values();
    assert t.Located(s) && Pow2(0) == 1;
    hide Pow2;
    var c := t.code(s);
    if 0 < c.bits < 16 {
      LongerStartLater(t, c.bits, 16);
      Pow2Add(c.bits, 16 - c.bits);
      Fewer(c.value, t.End(c.bits), Pow2(c.bits), Pow2(16 - c.bits));
    }
  }

  lemma Fewer(v: nat, e: nat, a: nat, b: nat)
    requires v < e && e * b <= a * b && b > 0
    ensures v < a
  {
    if v >= a {
      MulMonotone(a, v, b);
      MulMonotone(v + 1, e, b);
    }
  }

  /** The first `m` bits of a longer code lie beyond the codes of length `m`. */
  lemma StartsBeyond(t: Coding, s: nat, m: nat)
    requires t.Canonical() && s < 256 && 1 <= m < t.code(s).bits
    ensures t.code(s).bits <= 16
    ensures t.code(s).value / Pow2(t.code(s).bits - m) >= t.End(m)
  {
    assert t.Located(s);
    hide Pow2;
    var c := t.code(s);
    LongerStartLater(t, m, c.bits);
    QuotientAtLeast(c.value, t.End(m), Pow2(c.bits - m));
  }

  lemma QuotientAtLeast(u: nat, a: nat, d: nat)
    requires d > 0 && a * d <= u
    ensures u / d >= a
  {
    if u / d < a {
      MulMonotone(u / d + 1, a, d);
    }
  }

  lemma QuotientFits(u: nat, a: nat, d: nat)
    requires d > 0 && u < a * d
    ensures u / d < a
  {
    if u / d >= a {
      MulMonotone(a, u / d, d);
    }
  }

  // ---- No code starts another ----

  /** A code that starts another is the other's first bits. */
  lemma PrefixIsQuotient(v: nat, m: nat, u: nat, n: nat)
    requires v < Pow2(m) && u < Pow2(n) && m <= n && MsbBits(v, m) <= MsbBits(u, n)
    ensures v == u / Pow2(n - m)
  {
    hide *;
    var q := u / Pow2(n - m);
    SameFirstBits(v, m, u, n, q);
    Pow2Add(m, n - m);
    QuotientFits(u, Pow2(m), Pow2(n - m));
    MsbValueOf(v, m);
    MsbValueOf(q, m);
  }

  lemma SameFirstBits(v: nat, m: nat, u: nat, n: nat, q: nat)
    requires m <= n && q == u / Pow2(n - m) && MsbBits(v, m) <= MsbBits(u, n)
    ensures MsbBits(q, m) == MsbBits(v, m)
  {
    hide *;
    MsbPrefix(u, m, n - m);
    assert m + (n - m) == n;
    assert MsbBits(u, n)[..m] == MsbBits(v, m);
  }

  lemma NotPrefix(t: Coding, s: nat, u: nat)
    requires t.Canonical() && s < 256 && u < 256 && s != u && t.code(s).bits > 0 && t.code(u).bits > 0
    ensures !(CodeBits(t.code(s)) <= CodeBits(t.code(u)))
  {
    var c, e := t.code(s), t.code(u);
    assert t.Located(s) && t.Located(u) && Pow2(0) == 1;
    CodeFits(t, s);
    CodeFits(t, u);
    hide Pow2, MsbBits;
    if CodeBits(c) <= CodeBits(e) {
      PrefixIsQuotient(c.value, c.bits, e.value, e.bits);
      if c.bits < e.bits {
        StartsBeyond(t, u, c.bits);
      }
    }
  }

  lemma CanonicalIsPrefixFree(t: Coding)
    requires t.Canonical()
    ensures ValidTable(t.Table()) && PrefixFree(t.Table())
  {
    var r := t.Table();
    hide CodeBits, Pow2, Coding.Table, Coding.Canonical;
    forall s | 0 <= s < 256 ensures r[s].bits <= 16 && r[s].value < Pow2(r[s].bits) {
      CodeFits(t, s);
    }
    forall s, u | 0 <= s < 256 && 0 <= u < 256 && s != u && r[s].bits > 0 && r[u].bits > 0
      ensures !(CodeBits(r[s]) <= CodeBits(r[u])) {
      NotPrefix(t, s, u);
    }
  }

  // ---- A decoder that knows the header ----

  /** DECODE (Figure F.16): one bit at a time, until the code is not above the last one of its length. */
  function HeaderDecode(t: Coding, bits: seq<bool>, length: nat, code: nat): Option<(nat, seq<bool>)>
    decreases 16 - length
  {
    if length >= 16 || bits == [] then None else
    var n, c := length + 1, 2 * code + if bits[0] then 1 else 0;
    if t.count(n) > 0 && c < t.End(n)
    then (if c < t.minCode(n) then None else Some((t.value(t.valPtr(n) + c - t.minCode(n)), bits[1..])))
    else HeaderDecode(t, bits[1..], n, c)
  }

  /** From the counts and the symbols in the file header alone, a decoder reads each coded symbol back. */
  lemma HeaderDescribesCodes(t: Coding, s: nat, rest: seq<bool>)
    requires t.Canonical() && s < 256 && t.code(s).bits > 0
    ensures HeaderDecode(t, CodeBits(t.code(s)) + rest, 0, 0) == Some((s, rest))
  {
    var c := t.code(s);
    CodeFits(t, s);
    FromStart(t, s, c.value, c.bits, 0, rest);
  }

  lemma FromStart(t: Coding, s: nat, v: nat, n: nat, start: nat, rest: seq<bool>)
    requires t.Canonical() && s < 256 && t.code(s) == Code(v, n) && 0 < n <= 16 && v < Pow2(n) && start == 0
    ensures HeaderDecode(t, CodeBits(t.code(s)) + rest, start, start) == Some((s, rest))
  {
    assert CodeBits(t.code(s)) == MsbBits(v, n);
    hide *;
    QuotientZero(v, Pow2(n - start));
    FromLength(t, s, v, n, start, start, rest);
    WholeSlice(MsbBits(v, n), start);
  }

  lemma WholeSlice(bits: seq<bool>, start: nat)
    requires start == 0
    ensures bits[start..] == bits
  {
  }

  lemma QuotientZero(v: nat, d: nat)
    requires v < d
    ensures v / d == 0
  {
  }

  /** After `m` bits of a code, the decoder goes on with the others. */
  lemma {:induction false} FromLength(t: Coding, s: nat, v: nat, n: nat, m: nat, code: nat, rest: seq<bool>)
    requires t.Canonical() && s < 256 && t.code(s) == Code(v, n) && m < n <= 16 && code == v / Pow2(n - m)
    ensures HeaderDecode(t, MsbBits(v, n)[m..] + rest, m, code) == Some((s, rest))
    decreases 16 - m
  {
    assert t.Located(s);
    assert t.minCode(n) <= v < t.End(n) && t.value(t.valPtr(n) + v - t.minCode(n)) == s;
    hide *;
    var whole := MsbBits(v, n);
    var bits, next := whole[m..] + rest, 2 * code + if whole[m] then 1 else 0;
    NextBit(v, n, m, code, next);
    FirstOf(whole, m, rest);
    if m + 1 < n {
      EndsBefore(t, s, v, n, m + 1, next);
      FromLength(t, s, v, n, m + 1, next, rest);
      GoOn(t, bits, m, code);
    } else {
      Found(t, bits, m, code, s);
    }
  }

  lemma EndsBefore(t: Coding, s: nat, v: nat, n: nat, m: nat, code: nat)
    requires t.Canonical() && s < 256 && t.code(s) == Code(v, n) && 1 <= m < n && code == v / Pow2(n - m)
    ensures code >= t.End(m)
  {
    hide *;
    StartsBeyond(t, s, m);
  }

  lemma FirstOf(code: seq<bool>, m: nat, rest: seq<bool>)
    requires m < |code|
    ensures var bits := code[m..] + rest;
      bits[0] == code[m] && bits[1..] == code[m + 1..] + rest && (m + 1 == |code| ==> bits[1..] == rest)
  {
  }

  lemma GoOn(t: Coding, bits: seq<bool>, m: nat, code: nat)
    requires bits != [] && m < 15 && 2 * code + (if bits[0] then 1 else 0) >= t.End(m + 1)
    ensures HeaderDecode(t, bits, m, code) == HeaderDecode(t, bits[1..], m + 1, 2 * code + if bits[0] then 1 else 0)
  {
  }

  lemma Found(t: Coding, bits: seq<bool>, m: nat, code: nat, s: nat)
    requires bits != [] && m < 16
    requires var c := 2 * code + if bits[0] then 1 else 0;
      t.minCode(m + 1) <= c < t.End(m + 1) && t.value(t.valPtr(m + 1) + c - t.minCode(m + 1)) == s
    ensures HeaderDecode(t, bits, m, code) == Some((s, bits[1..]))
  {
  }

  lemma NextBit(v: nat, n: nat, m: nat, code: nat, next: nat)
    requires m < n && code == v / Pow2(n - m) && next == 2 * code + if MsbBits(v, n)[m] then 1 else 0
    ensures next == v / Pow2(n - (m + 1)) && (m + 1 == n ==> next == v)
  {
    hide *;
    var d := n - (m + 1);
    BitOf(v, n, m, d);
    QuotientHalves(v, d);
    assert d + 1 == n - m;
    Halve(v / Pow2(d));
    ByOne(v, d);
  }

  lemma ByOne(v: nat, d: nat)
    ensures d == 0 ==> v / Pow2(d) == v
  {
  }

  lemma BitOf(v: nat, n: nat, m: nat, d: nat)
    requires m + 1 + d == n
    ensures MsbBits(v, n)[m] == (v / Pow2(d) % 2 == 1)
  {
    hide *;
    MsbPrefix(v, m + 1, d);
    LastBit(v / Pow2(d), m);
    InTake(MsbBits(v, n), m);
  }

  lemma InTake(bits: seq<bool>, m: nat)
    requires m < |bits|
    ensures bits[..m + 1][m] == bits[m]
  {
  }

  lemma QuotientHalves(v: nat, d: nat)
    ensures v / Pow2(d) / 2 == v / Pow2(d + 1)
  {
    Doubles(d + 1);
    hide *;
    DivDiv(v, Pow2(d), 2);
    assert Pow2(d) * 2 == Pow2(d + 1);
  }

  lemma LastBit(q: nat, m: nat)
    ensures MsbBits(q, m + 1)[m] == (q % 2 == 1)
  {
  }

  lemma Halve(q: nat)
    ensures q == 2 * (q / 2) + if q % 2 == 1 then 1 else 0
  {
  }

  // ---- The writer's tables ----

  function CodingOf(t: Standard): Coding {
    Coding((n: nat) => t.Count(n), (n: nat) => t.MinCode(n), (n: nat) => t.ValPtr(n), (k: nat) => t.Value(k),
           (s: nat) => t.CodeOf(s))
  }

  lemma StandardIsCanonical(t: Standard)
    ensures CodingOf(t).Canonical()
    ensures forall s :: 0 <= s < 256 ==> (CodingOf(t).Table()[s].bits > 0 <==> t.Needs(s))
  {
    var c := CodingOf(t);
    hide Standard.Count, Standard.MinCode, Standard.ValPtr, Standard.Value, Standard.CodeOf, Standard.Needs;
    LengthsEnd(t);
    forall n | 1 <= n < 16 ensures c.minCode(n + 1) == 2 * c.End(n) { Lengths(t, n); }
    forall s | 0 <= s < 256 ensures c.Located(s) && (c.code(s).bits > 0 <==> t.Needs(s)) { SymbolIsOk(t, s); }
  }

  /** YDC_HT, YAC_HT, UVDC_HT and UVAC_HT. */
  function StandardTables(): Tables {
    Tables(CodingOf(LumaDc).Table(), CodingOf(LumaAc).Table(), CodingOf(ChromaDc).Table(), CodingOf(ChromaAc).Table())
  }

  lemma StandardTableServes(t: Standard)
    ensures if t.Dc() then DcTable(CodingOf(t).Table()) else AcTable(CodingOf(t).Table())
  {
    var r := CodingOf(t).Table();
    StandardIsCanonical(t);
    CanonicalIsPrefixFree(CodingOf(t));
    hide CodingOf, PrefixFree, ValidTable, Coding.Table;
    assert |r| == 256;
  }

  /** The writer's tables have every code that a baseline scan needs, and no code starts another. */
  lemma StandardTablesAreUsable()
    ensures StandardTables().Usable()
  {
    hide CodingOf, PrefixFree, ValidTable, Coding.Table, DcTable, AcTable;
    StandardTableServes(LumaDc);
    StandardTableServes(LumaAc);
    StandardTableServes(ChromaDc);
    StandardTableServes(ChromaAc);
  }

  /** The segment as stbi_write_jpg_core writes it: a decoder with the same tables gets every coefficient back. */
  method EncodeStandardSegment(blocks: seq<Block>) returns (segment: seq<byte>)
    requires EncodableScan(blocks, Predictions(0, 0, 0))
    ensures DecodeSegment(StandardTables(), Components(blocks), segment) == Some(blocks)
    ensures forall k :: 0 <= k < |segment| && segment[k] == 255 ==> k + 1 < |segment| && segment[k + 1] == 0
  {
    StandardTablesAreUsable();
    hide *;
    segment := EncodeSegment(StandardTables(), blocks);
  }
}
