/** stbi_zlib_compress: hash chains, lazy matching, fixed Huffman codes and the stored fallback. */
module ZlibCompress {
  import opened Prelude
  import opened Bytes
  import opened DeflateTokens
  import opened LazyMatching
  import opened ZlibOutput
  import Inflate
  import Adler32
  import StoredBlocks

  /** stbiw__zlib_countm: how far the two positions agree, up to `limit` and 258. */
  method CountMatch(data: seq<byte>, loc: nat, i: nat, limit: nat) returns (n: nat)
    requires loc < i && i + limit == |data|
    ensures n <= limit && n <= 258 && SameRun(data, loc, i, n)
    ensures n < limit && n < 258 ==> data[loc + n] != data[i + n]
  {
    n := 0;
    while n < limit && n < 258
      invariant n <= limit && n <= 258 && SameRun(data, loc, i, n)
    {
      if data[loc + n] != data[i + n] {
        break;
      }
      n := n + 1;
    }
  }

  /** Scans a whole chain for its longest run and, of several, the newest. */
  method LongestMatch(data: seq<byte>, i: nat, chain: seq<nat>)
    returns (best: nat, bestloc: Option<nat>, ghost at: nat)
    requires i < |data| && forall p :: p in chain ==> p < i
    ensures bestloc.Some? ==>
      at < |chain| && chain[at] == bestloc.value && GoodMatch(data, i, bestloc.value, best)
      && NewestLongest(data, i, chain, at, best)
    ensures bestloc.None? ==> NoneLonger(data, i, chain, 2)
  {
    best, bestloc, at := 3, None, 0;
    for j := 0 to |chain|
      invariant 3 <= best <= 258
      invariant bestloc.Some? ==> at < j && chain[at] == bestloc.value && GoodMatch(data, i, bestloc.value, best)
      invariant bestloc.Some? ==> NoneLonger(data, i, chain[..j], best) && NoneLonger(data, i, chain[at + 1..j], best - 1)
      invariant bestloc.None? ==> best == 3 && NoneLonger(data, i, chain[..j], 2)
    {
      assert chain[j] in chain && chain[..j + 1] == chain[..j] + [chain[j]];
      assert bestloc.Some? ==> chain[at + 1..j + 1] == chain[at + 1..j] + [chain[j]];
      if chain[j] as int > i - 32768 {
        var d := CountMatch(data, chain[j], i, |data| - i);
        if d >= best {
          best, bestloc, at := d, Some(chain[j]), j;
        }
      }
    }
    assert chain[..|chain|] == chain && (bestloc.Some? ==> chain[at + 1..|chain|] == chain[at + 1..]);
  }

  /** Lazy matching: does some chain entry match longer than `best` one byte further on? */
  method NextIsBetter(data: seq<byte>, i: nat, chain: seq<nat>, best: nat) returns (better: bool)
    requires i + 1 < |data| && forall p :: p in chain ==> p <= i
    ensures better <==> !NoneLonger(data, i + 1, chain, best)
  {
    for j := 0 to |chain|
      invariant NoneLonger(data, i + 1, chain[..j], best)
    {
      assert chain[j] in chain && chain[..j + 1] == chain[..j] + [chain[j]];
      if chain[j] as int > i - 32767 {
        var e := CountMatch(data, chain[j], i + 1, |data| - i - 1);
        if e > best {
          assert Longer(data, chain[j], i + 1, best);
          return true;
        }
      }
    }
    assert chain[..|chain|] == chain;
    return false;
  }

  /** Chains hold only positions below `i` and never outgrow twice the quality. */
  ghost predicate ChainsOk(table: array<seq<nat>>, i: nat, quality: nat)
    reads table
  {
    table.Length == ZHASH &&
    forall h: nat :: h < ZHASH ==> |table[h]| <= 2 * quality && forall p :: p in table[h] ==> p < i
  }

  /** Adds position `i` to chain `h`, first dropping the older half of a full chain. */
  method AddToChain(table: array<seq<nat>>, h: nat, i: nat, quality: nat)
    requires ChainsOk(table, i, quality) && h < ZHASH && quality >= 5
    modifies table
    ensures ChainsOk(table, i + 1, quality)
    ensures table[h] == (if |old(table[h])| == 2 * quality then old(table[h])[quality..] else old(table[h])) + [i]
    ensures forall k: nat :: k < ZHASH && k != h ==> table[k] == old(table[k])
  {
    var chain := table[h];
    if |chain| == 2 * quality {
      chain := chain[quality..];
    }
    assert forall p :: p in chain ==> p in table[h];
    table[h] := chain + [i];
  }

  // ---- Emission ----

  /** stbiw__zlib_bitrev. */
  method BitReverse(code: nat, codebits: nat) returns (res: nat)
    ensures res < Pow2(codebits) && LsbBits(res, codebits) == MsbBits(code, codebits)
  {
    hide BitOr, MsbBits, LsbBits;
    res := 0;
    var c: nat, n: nat := code, codebits;
    while n > 0
      invariant n <= codebits && res < Pow2(codebits - n)
      invariant MsbBits(c, n) + LsbBits(res, codebits - n) == MsbBits(code, codebits)
    {
      var next := BitOr(c % 2, res * 2);
      BitReverseStep(code, codebits, c, n, res);
      res, c, n := next, c / 2, n - 1;
    }
    assert MsbBits(c, 0) == [];
  }

  lemma BitReverseStep(code: nat, codebits: nat, c: nat, n: nat, res: nat)
    requires 0 < n <= codebits && res < Pow2(codebits - n)
    requires MsbBits(c, n) + LsbBits(res, codebits - n) == MsbBits(code, codebits)
    ensures var next := BitOr(c % 2, res * 2);
      next < Pow2(codebits - n + 1)
      && MsbBits(c / 2, n - 1) + LsbBits(next, codebits - n + 1) == MsbBits(code, codebits)
  {
    hide BitOr;
    assert Pow2(1) == 2;
    BitOrAbove(c % 2, res, 1);
    var next := BitOr(c % 2, res * 2);
    assert next % 2 == c % 2 && next / 2 == res;
    assert LsbBits(next, codebits - n + 1) == [c % 2 == 1] + LsbBits(res, codebits - n);
  }

  /** stbiw__zlib_huff and stbiw__zlib_huffb: a symbol's code, most significant bit first. */
  method EmitSymbol(o: Output, n: nat)
    requires o.Valid() && n < 288
    modifies o
    ensures o.Valid() && o.Stream() == old(o.Stream()) + SymbolBits(n)
    ensures o.cap >= old(o.cap)
  {
    var code := SymbolCode(n);
    var reversed := BitReverse(code.value, code.bits);
    o.Add(reversed, code.bits);
  }

  /** Extra bits are added only when the table has some. */
  method EmitExtra(o: Output, value: nat, bits: nat)
    requires o.Valid() && value < Pow2(bits) && bits <= 13
    modifies o
    ensures o.Valid() && o.Stream() == old(o.Stream()) + LsbBits(value, bits)
    ensures o.cap >= old(o.cap)
  {
    if bits != 0 {
      o.Add(value, bits);
    } else {
      assert LsbBits(value, 0) == [];
    }
  }

  /** The scan over `lengthc` for the length's code. */
  method FindLengthCode(best: nat) returns (j: nat)
    requires 3 <= best <= 258
    ensures j <= 28 && Lengthc(j) <= best < Lengthc(j + 1)
  {
    assert Lengthc(0) == 3 && Lengthc(29) == 259;
    hide Lengthc;
    j := 0;
    while best > Lengthc(j + 1) - 1
      invariant j <= 28 && Lengthc(j) <= best
      decreases 28 - j
    {
      j := j + 1;
    }
  }

  /** The scan over `distc` for the distance's code. */
  method FindDistanceCode(d: nat) returns (j: nat)
    requires 1 <= d <= 32767
    ensures j <= 29 && Distc(j) <= d < Distc(j + 1)
  {
    assert Distc(0) == 1 && Distc(30) == 32768;
    hide Distc;
    j := 0;
    while d > Distc(j + 1) - 1
      invariant j <= 29 && Distc(j) <= d
      decreases 29 - j
    {
      j := j + 1;
    }
  }

  method EmitLength(o: Output, best: nat)
    requires o.Valid() && 3 <= best <= 258
    modifies o
    ensures o.Valid() && o.cap >= old(o.cap)
    ensures o.Stream() == old(o.Stream()) + (SymbolBits(257 + LengthCode(best)) + LengthExtraBits(best))
  {
    hide SymbolBits, LsbBits, Pow2, LengthCode, Lengthc, Lengtheb;
    var j := FindLengthCode(best);
    LengthCodeIs(best, j);
    LengthTableHasNoGap(j);
    EmitSymbol(o, 257 + j);
    EmitExtra(o, best - Lengthc(j), Lengtheb(j));
  }

  method EmitDistance(o: Output, d: nat)
    requires o.Valid() && 1 <= d <= 32767
    modifies o
    ensures o.Valid() && o.cap >= old(o.cap)
    ensures o.Stream() == old(o.Stream()) + (MsbBits(DistanceCode(d), 5) + DistanceExtraBits(d))
  {
    hide LsbBits, MsbBits, Pow2, DistanceCode, Distc, Disteb;
    var j := FindDistanceCode(d);
    DistanceCodeIs(d, j);
    DistanceTableHasNoGap(j);
    var reversed := BitReverse(j, 5);
    o.Add(reversed, 5);
    EmitExtra(o, d - Distc(j), Disteb(j));
  }

  method EmitMatch(o: Output, best: nat, d: nat)
    requires o.Valid() && 3 <= best <= 258 && 1 <= d <= 32767
    modifies o
    ensures o.Valid() && o.Stream() == old(o.Stream()) + MatchBits(best, d)
    ensures o.cap >= old(o.cap)
  {
    hide SymbolBits, LengthExtraBits, DistanceExtraBits, LengthCode, DistanceCode, MsbBits;
    EmitLength(o, best);
    EmitDistance(o, d);
  }

  // ---- The main loop ----

  /** The zlib header bytes 78 5e, then BFINAL = 1 and BTYPE = 1. */
  function Header(): seq<bool> {
    LsbStream([0x78, 0x5e]) + LsbBits(1, 1) + LsbBits(1, 2)
  }

  /** What has been emitted so far is a valid token list for the first `i` bytes. */
  ghost predicate Emitted(o: Output, ts: seq<Token>, data: seq<byte>, i: nat)
    reads o
  {
    && i <= |data|
    && Valid(ts, []) && Expand(ts, []) == data[..i]
    && (forall t :: t in ts ==> Fits(t, 32767))
    && o.Valid() && o.Stream() == Header() + TokensBits(ts)
  }

  /** A run found in the data is what copying back produces, also when it overlaps itself. */
  lemma {:induction false} CopyReproducesRun(data: seq<byte>, i: nat, loc: nat, n: nat)
    requires loc < i && i + n <= |data| && SameRun(data, loc, i, n)
    ensures Inflate.CopyBack(data[..i], i - loc, n) == data[..i + n]
    decreases n
  {
    if n == 0 {
    } else {
      assert data[loc] == data[loc + i - loc];
      assert data[..i] + [data[loc]] == data[..i + 1];
      CopyReproducesRun(data, i + 1, loc + 1, n - 1);
    }
  }

  method EmitLiteral(o: Output, ghost ts: seq<Token>, data: seq<byte>, i: nat) returns (ghost ts': seq<Token>)
    requires Emitted(o, ts, data, i) && i < |data|
    modifies o
    ensures Emitted(o, ts', data, i + 1) && ts' == ts + [Literal(data[i])]
  {
    hide SymbolBits, TokensBits, Header;
    EmitSymbol(o, data[i]);
    ts' := ts + [Literal(data[i])];
    Snoc(ts, Literal(data[i]), []);
    assert data[..i] + [data[i]] == data[..i + 1];
  }

  method EmitReference(o: Output, ghost ts: seq<Token>, data: seq<byte>, i: nat, loc: nat, best: nat)
    returns (ghost ts': seq<Token>)
    requires Emitted(o, ts, data, i) && GoodMatch(data, i, loc, best)
    modifies o
    ensures Emitted(o, ts', data, i + best) && ts' == ts + [Match(best, i - loc)]
  {
    hide MatchBits, TokensBits, Header, Expand, Valid, Inflate.CopyBack;
    EmitMatch(o, best, i - loc);
    ts' := ts + [Match(best, i - loc)];
    Snoc(ts, Match(best, i - loc), []);
    CopyReproducesRun(data, i, loc, best);
  }

  // ---- The whole compressor ----

  /** The search stands at `i`: the tokens so far are the choices of lazy matching and the table their chains. */
  ghost predicate Searched(table: array<seq<nat>>, ts: seq<Token>, data: seq<byte>, i: nat, quality: nat)
    requires quality > 0
    reads table
  {
    && ChainsOk(table, i, quality) && Covered(ts) == i && Lazily(ts, data, quality)
    && forall h: nat :: h < ZHASH ==> table[h] == ChainOf(data, Starts(ts), h, quality)
  }

  /** One step of the search at position `i`: emit a literal or a reference and advance. */
  method CompressStep(o: Output, table: array<seq<nat>>, ghost ts: seq<Token>, data: seq<byte>, i: nat, quality: nat)
    returns (i': nat, ghost ts': seq<Token>)
    requires Emitted(o, ts, data, i) && i + 3 < |data|
    requires quality >= 5 && Searched(table, ts, data, i, quality)
    modifies o, table
    ensures i < i' && Emitted(o, ts', data, i') && Searched(table, ts', data, i', quality)
    ensures |ts'| == |ts| + 1 && ts' == ts + [ts'[|ts|]]
  {
    hide Emitted, Hash, Lazily, Covered, Starts, ChainOf, NewestLongest, NoneLonger;
    var h := Hash(data, i);
    var best, bestloc, at := LongestMatch(data, i, table[h]);
    ghost var chain := table[h];
    AddToChain(table, h, i, quality);
    ChainsAfter(data, ts, i, quality);
    var h' := Hash(data, i + 1);
    ghost var next := table[h'];
    assert forall k: nat :: k < ZHASH ==> table[k] == ChainOf(data, Starts(ts) + [i], k, quality);
    if bestloc.Some? {
      var better := NextIsBetter(data, i, table[h'], best);
      if better {
        bestloc := None;
      }
    }
    match bestloc {
      case Some(loc) =>
        ts' := EmitReference(o, ts, data, i, loc, best);
        i' := i + best;
      case None =>
        ts' := EmitLiteral(o, ts, data, i);
        i' := i + 1;
    }
    assert Chosen(ts'[|ts|], data, i, chain, next);
    OneMoreChoice(ts, ts'[|ts|], data, quality);
  }

  lemma ChainsAfter(data: seq<byte>, ts: seq<Token>, i: nat, quality: nat)
    requires quality > 0 && i + 3 < |data|
    ensures forall k: nat :: k < ZHASH ==>
      var chain := ChainOf(data, Starts(ts), k, quality);
      ChainOf(data, Starts(ts) + [i], k, quality)
      == (if k == Hash(data, i) then (if |chain| == 2 * quality then chain[quality..] else chain) + [i] else chain)
  {
    hide Hash, ChainOf, Starts;
    forall k: nat | k < ZHASH {
      OneMoreInChain(data, Starts(ts), i, k, quality);
    }
  }

  /** The search loop, from the start of the data to where at most 3 bytes are left. */
  method SearchAll(o: Output, data: seq<byte>, quality: nat) returns (i: nat, ghost ts: seq<Token>)
    requires o.Valid() && o.Stream() == Header() && quality >= 5
    modifies o
    ensures Emitted(o, ts, data, i) && i <= |data| <= i + 3
    ensures Lazily(ts, data, quality) && Covered(ts) == i
  {
    hide Lazily, Covered, Starts, ChainOf;
    var table := new seq<nat>[ZHASH](_ => []);
    i, ts := 0, [];
    StartEmitted(o, data);
    StartSearched(data, quality);
    hide Emitted;
    while i + 3 < |data|
      invariant i <= |data| && fresh(table) && Emitted(o, ts, data, i) && Searched(table, ts, data, i, quality)
      decreases |data| - i
    {
      i, ts := CompressStep(o, table, ts, data, i, quality);
      EmittedBound(o, ts, data, i);
    }
  }

  /** The last bytes, which are too few to hash. */
  method EmitRest(o: Output, data: seq<byte>, c: nat, ghost ts: seq<Token>) returns (ghost ts': seq<Token>)
    requires Emitted(o, ts, data, c) && c <= |data|
    modifies o
    ensures Emitted(o, ts', data, |data|) && ts' == ts + Literals(data[c..])
  {
    hide Emitted, Literals;
    var i := c;
    ts' := ts;
    NoLiterals(data, c);
    while i < |data|
      invariant c <= i <= |data| && Emitted(o, ts', data, i)
      invariant ts' == ts + Literals(data[c..i])
    {
      OneMoreLiteral(data, c, i);
      ts' := EmitLiteral(o, ts', data, i);
      i := i + 1;
    }
    assert data[c..|data|] == data[c..];
  }

  /** All tokens: the quality is raised to 5, then the search, then the rest. */
  method EmitAll(o: Output, data: seq<byte>, quality: int) returns (ghost ts: seq<Token>)
    requires o.Valid() && o.out == [] && o.bitcount == 0
    modifies o
    ensures Emitted(o, ts, data, |data|) && Planned(ts, data, quality)
  {
    hide Emitted, Lazily, Covered, Literals, Header;
    var q: nat := if quality < 5 then 5 else quality;
    StartStream(o);
    ghost var searched;
    var i;
    i, searched := SearchAll(o, data, q);
    ts := EmitRest(o, data, i, searched);
    assert ts[..|searched|] == searched && ts[|searched|..] == Literals(data[i..]);
    assert PlannedUpTo(ts, |searched|, data, quality);
  }

  lemma StartSearched(data: seq<byte>, quality: nat)
    requires quality > 0
    ensures Lazily([], data, quality) && Covered([]) == 0
    ensures forall h: nat :: ChainOf(data, Starts([]), h, quality) == []
  {
  }

  lemma NoLiterals(data: seq<byte>, c: nat)
    requires c <= |data|
    ensures Literals(data[c..c]) == []
  {
  }

  lemma OneMoreLiteral(data: seq<byte>, c: nat, i: nat)
    requires c <= i < |data|
    ensures Literals(data[c..i + 1]) == Literals(data[c..i]) + [Literal(data[i])]
  {
  }

  lemma EmittedBound(o: Output, ts: seq<Token>, data: seq<byte>, i: nat)
    requires Emitted(o, ts, data, i)
    ensures i <= |data|
  {
  }

  lemma StartEmitted(o: Output, data: seq<byte>)
    requires o.Valid() && o.Stream() == Header()
    ensures Emitted(o, [], data, 0)
  {
    assert Header() + TokensBits([]) == Header();
  }

  /** End of block and zero padding: `out` is then the fixed-Huffman form of the data. */
  method FinishBlock(o: Output, ghost ts: seq<Token>, data: seq<byte>) returns (ghost pad: seq<bool>)
    requires Emitted(o, ts, data, |data|)
    modifies o
    ensures o.Valid() && o.bitcount == 0 && |pad| < 8 && forall b :: b in pad ==> !b
    ensures LsbStream(o.out) == Header() + (TokensBits(ts) + (SymbolBits(256) + pad))
  {
    hide TokensBits, SymbolBits, LsbStream, Header, Expand, Valid;
    EmitSymbol(o, 256);
    pad := PadToByte(o);
    assert LsbBits(o.bitbuf, o.bitcount) == [];
    assert LsbStream(o.out) == o.Stream();
    assert o.Stream() == Header() + (TokensBits(ts) + (SymbolBits(256) + pad));
  }

  method StartStream(o: Output)
    requires o.Valid() && o.out == [] && o.bitcount == 0
    modifies o
    ensures o.Valid() && o.Stream() == Header()
  {
    hide Header;
    o.Push(0x78);
    o.Push(0x5e);
    assert o.Stream() == LsbStream([0x78, 0x5e]) by { assert LsbBits(o.bitbuf, 0) == []; }
    Pow2Values();
    o.Add(1, 1);
    o.Add(1, 2);
    HeaderIs();
  }

  lemma HeaderIs()
    ensures Header() == LsbStream([0x78, 0x5e]) + LsbBits(1, 1) + LsbBits(1, 2)
  {
  }

  lemma ZeroBit()
    ensures LsbBits(0, 1) == [false]
  {
  }

  method PadToByte(o: Output) returns (ghost pad: seq<bool>)
    requires o.Valid()
    modifies o
    ensures o.Valid() && o.bitcount == 0 && |pad| < 8 && o.Stream() == old(o.Stream()) + pad
    ensures forall b :: b in pad ==> !b
  {
    hide LsbBits, LsbStream, Pow2;
    assert 0 < Pow2(1);
    pad := [];
    while o.bitcount != 0
      invariant o.Valid() && o.Stream() == old(o.Stream()) + pad
      invariant o.bitcount != 0 ==> |pad| + old(o.bitcount) == o.bitcount
      invariant |pad| < 8 && forall b :: b in pad ==> !b
      decreases if o.bitcount == 0 then 0 else 8 - o.bitcount
    {
      o.Add(0, 1);
      ZeroBit();
      pad := pad + LsbBits(0, 1);
    }
  }

  // ---- What a decoder makes of the result ----

  /** The zlib wrapper around any blocks that decode to `data` and leave only the checksum. */
  lemma WrapDecodes(body: seq<byte>, data: seq<byte>, rest: seq<bool>)
    requires var sum := Inflate.AdlerBytes(Inflate.AdlerOf(data));
      Inflate.DecodeBlocks(LsbStream(body + sum), []) == Some((data, rest)) && |rest| / 8 == 4
    ensures Inflate.Decode([0x78, 0x5e] + body + Inflate.AdlerBytes(Inflate.AdlerOf(data))) == Some(data)
  {
    hide Inflate.DecodeBlocks, LsbStream, Inflate.AdlerOf;
    var sum := Inflate.AdlerBytes(Inflate.AdlerOf(data));
    var stream := [0x78, 0x5e] + body + sum;
    assert stream[2..] == body + sum && stream[|stream| - 4..] == sum;
  }

  lemma FixedBlockDecodes(ts: seq<Token>, data: seq<byte>, rest: seq<bool>)
    requires Valid(ts, []) && Expand(ts, []) == data && forall t :: t in ts ==> Fits(t, 32767)
    ensures Inflate.DecodeBlocks(LsbBits(1, 1) + LsbBits(1, 2) + (TokensBits(ts) + (SymbolBits(256) + rest)), [])
            == Some((data, rest))
  {
    hide TokensBits, SymbolBits, Expand, Valid, Inflate.DecodeFixed, Inflate.DecodeStored;
    var body := TokensBits(ts) + (SymbolBits(256) + rest);
    var bits := LsbBits(1, 1) + LsbBits(1, 2) + body;
    assert LsbBits(1, 1) == [true] && LsbBits(1, 2) == [true, false];
    assert bits[0] && bits[1..3] == [true, false] && bits[3..] == body;
    assert [true, false][1..] == [false] && [false][1..] == [];
    assert LsbValue([true, false]) == 1;
    DecodeTokens(ts, [], rest);
  }

  /** The fixed-Huffman output starts with the header bytes and, with the checksum, decodes to the data. */
  lemma FixedOutputDecodes(out: seq<byte>, ts: seq<Token>, data: seq<byte>, pad: seq<bool>)
    requires Valid(ts, []) && Expand(ts, []) == data && forall t :: t in ts ==> Fits(t, 32767)
    requires LsbStream(out) == Header() + (TokensBits(ts) + (SymbolBits(256) + pad)) && |pad| < 8
    ensures |out| >= 4 && out[..2] == [0x78, 0x5e]
    ensures Inflate.Decode(out + Inflate.AdlerBytes(Inflate.AdlerOf(data))) == Some(data)
  {
    var magic: seq<byte> := [0x78, 0x5e];
    assert |SymbolBits(256)| == 7 && |Inflate.AdlerBytes(Inflate.AdlerOf(data))| == 4;
    var tokens := LsbBits(1, 1) + LsbBits(1, 2) + (TokensBits(ts) + (SymbolBits(256) + pad));
    assert |tokens| >= 10;
    HeaderFirst(tokens, TokensBits(ts) + (SymbolBits(256) + pad));
    hide *;
    StartsWithMagic(out, magic, tokens);
    var body, sum := out[2..], Inflate.AdlerBytes(Inflate.AdlerOf(data));
    var rest := pad + LsbStream(sum);
    LsbStreamAppend(body, sum);
    FixedBlockDecodes(ts, data, rest);
    AppendInside(LsbBits(1, 1) + LsbBits(1, 2), TokensBits(ts), SymbolBits(256), pad, LsbStream(sum));
    WrapDecodes(body, data, rest);
    assert magic + body == out;
  }

  lemma HeaderFirst(tokens: seq<bool>, rest: seq<bool>)
    requires tokens == LsbBits(1, 1) + LsbBits(1, 2) + rest
    ensures Header() + rest == LsbStream([0x78, 0x5e]) + tokens
  {
    var a, b := LsbStream([0x78, 0x5e]), LsbBits(1, 1) + LsbBits(1, 2);
    assert Header() == a + LsbBits(1, 1) + LsbBits(1, 2);
    hide *;
    ConcatAssociates(a, LsbBits(1, 1), LsbBits(1, 2));
    ConcatAssociates(a, b, rest);
  }

  /** Bytes whose bits start with the bits of two others start with those. */
  lemma StartsWithMagic(out: seq<byte>, magic: seq<byte>, tokens: seq<bool>)
    requires |magic| == 2 && LsbStream(out) == LsbStream(magic) + tokens && |tokens| >= 10
    ensures |out| >= 4 && out[..2] == magic && out == magic + out[2..] && LsbStream(out[2..]) == tokens
  {
    hide *;
    var front, body := out[..2], out[2..];
    assert out == front + body;
    LsbStreamAppend(front, body);
    SamePrefix(LsbStream(front), LsbStream(body), LsbStream(magic), tokens);
    StoredBlocks.BytesOfStream(front, []);
    StoredBlocks.BytesOfStream(magic, []);
  }

  lemma AppendInside(a: seq<bool>, b: seq<bool>, c: seq<bool>, d: seq<bool>, e: seq<bool>)
    ensures a + (b + (c + d)) + e == a + (b + (c + (d + e)))
  {
    ConcatAssociates(a, b + (c + d), e);
    ConcatAssociates(b, c + d, e);
    ConcatAssociates(c, d, e);
  }

  lemma SamePrefix<T>(a: seq<T>, b: seq<T>, c: seq<T>, d: seq<T>)
    requires |a| == |c| && a + b == c + d
    ensures a == c && b == d
  {
    assert a == (a + b)[..|a|] && c == (c + d)[..|a|];
    assert b == (a + b)[|a|..] && d == (c + d)[|a|..];
  }

  /** The stored form decodes to the data, unless there is none: then no block was written. */
  lemma StoredOutputDecodes(data: seq<byte>)
    ensures Inflate.Decode([0x78, 0x5e] + StoredBlocks.Stored(data) + Inflate.AdlerBytes(Inflate.AdlerOf(data)))
            == if data == [] then None else Some(data)
  {
    hide Inflate.DecodeBlocks, LsbStream, Inflate.AdlerOf, StoredBlocks.Stored, Inflate.Decode, Inflate.AdlerBytes;
    if data == [] {
      EmptyDecodesToNothing();
    } else {
      var sum := Inflate.AdlerBytes(Inflate.AdlerOf(data));
      StoredBlocks.DecodeStored(data, [], sum);
      assert [] + data == data;
      WrapDecodes(StoredBlocks.Stored(data), data, LsbStream(sum));
    }
  }

  /** 78 5e 00 00 00 01 has no block to decode. */
  lemma EmptyDecodesToNothing()
    ensures StoredBlocks.Stored([]) == [] && Inflate.AdlerBytes(Inflate.AdlerOf([])) == [0, 0, 0, 1]
    ensures Inflate.Decode([0x78, 0x5e] + [] + [0, 0, 0, 1]) == None
  {
    hide Inflate.DecodeBlocks, LsbStream;
    var sum: seq<byte> := [0, 0, 0, 1];
    assert ([0x78, 0x5e] + [] + sum)[2..] == sum;
    NoBlock(sum);
  }

  lemma NoBlock(sum: seq<byte>)
    requires sum == [0, 0, 0, 1]
    ensures Inflate.DecodeBlocks(LsbStream(sum), []) == None
  {
    hide Inflate.DecodeFixed, LsbBits, LsbStream, LsbValue;
    FirstBits(sum);
  }

  lemma FirstBits(sum: seq<byte>)
    requires sum == [0, 0, 0, 1]
    ensures LsbValue(LsbStream(sum)[1..3]) == 0
  {
    var bits := LsbStream(sum);
    assert bits == LsbBits(0, 8) + LsbStream(sum[1..]);
    assert LsbBits(0, 8) == [false] + ([false] + ([false] + LsbBits(0, 5)));
    assert bits[1..3] == [false, false] && [false, false][1..] == [false] && [false][1..] == [];
  }

  /** Deflate never costs more than storing: header, five bytes a block, checksum. */
  function MaxSize(n: nat): nat {
    n + 6 + 5 * ((n + 32766) / 32767)
  }

  method PushChecksum(o: Output, data: seq<byte>)
    requires o.ValidBuffer()
    modifies o`out, o`cap
    ensures o.out == old(o.out) + Inflate.AdlerBytes(Inflate.AdlerOf(data))
  {
    hide Inflate.AdlerOf;
    var s1, s2 := Adler32.Sum(data);
    o.Push(s2 / 256 % 256);
    o.Push(s2 % 256);
    o.Push(s1 / 256 % 256);
    o.Push(s1 % 256);
    assert o.out == old(o.out) + Inflate.AdlerBytes(Inflate.AdlerOf(data));
  }

  /** The fixed-Huffman form of the tokens: header, codes, end-of-block code and fewer than eight zero bits. */
  ghost predicate Packed(packed: seq<byte>, ts: seq<Token>) {
    (forall t :: t in ts ==> Fits(t, 32767)) &&
    exists pad: seq<bool> ::
      |pad| < 8 && (forall b :: b in pad ==> !b)
      && LsbStream(packed) == Header() + (TokensBits(ts) + (SymbolBits(256) + pad))
  }

  /** The packed tokens, unless storing the data is shorter; then the checksum. */
  ghost function WithChecksum(packed: seq<byte>, data: seq<byte>): seq<byte> {
    var n := |data|;
    (if |packed| > n + 2 + ((n + 32766) / 32767) * 5 then [0x78, 0x5e] + StoredBlocks.Stored(data) else packed)
    + Inflate.AdlerBytes(Inflate.AdlerOf(data))
  }

  /** `result` carries the tokens of lazy matching, or the data as they are when those are shorter. */
  ghost predicate Deflated(result: seq<byte>, data: seq<byte>, quality: int) {
    exists packed, ts :: Planned(ts, data, quality) && Packed(packed, ts) && result == WithChecksum(packed, data)
  }

  lemma AllFalse(a: seq<bool>, c: seq<bool>)
    requires |a| == |c| && (forall b :: b in a ==> !b) && (forall b :: b in c ==> !b)
    ensures a == c
  {
    forall i | 0 <= i < |a| ensures a[i] == c[i] {
      assert a[i] in a && c[i] in c;
    }
  }

  lemma PackedIsUnique(p: seq<byte>, q: seq<byte>, ts: seq<Token>)
    requires Packed(p, ts) && Packed(q, ts)
    ensures p == q
  {
    hide TokensBits, SymbolBits, Header, LsbStream;
    var a: seq<bool> :| |a| < 8 && (forall b :: b in a ==> !b)
      && LsbStream(p) == Header() + (TokensBits(ts) + (SymbolBits(256) + a));
    var c: seq<bool> :| |c| < 8 && (forall b :: b in c ==> !b)
      && LsbStream(q) == Header() + (TokensBits(ts) + (SymbolBits(256) + c));
    assert 8 * |p| - |a| == 8 * |q| - |c|;
    AllFalse(a, c);
    StoredBlocks.BytesOfStream(p, []);
    StoredBlocks.BytesOfStream(q, []);
  }

  /** Data and quality determine the output. */
  lemma DeflatedIsUnique(r: seq<byte>, s: seq<byte>, data: seq<byte>, quality: int)
    requires Deflated(r, data, quality) && Deflated(s, data, quality)
    ensures r == s
  {
    hide Planned, Packed, WithChecksum;
    var p, ts :| Planned(ts, data, quality) && Packed(p, ts) && r == WithChecksum(p, data);
    var q, us :| Planned(us, data, quality) && Packed(q, us) && s == WithChecksum(q, data);
    PlanIsUnique(ts, us, data, quality);
    PackedIsUnique(p, q, ts);
  }

  /**
   stbi_zlib_compress. Decoding its result gives the input back, except that the empty input gives a
   stream without any block, which is not a zlib stream.
   */
  method Compress(data: seq<byte>, quality: int) returns (result: seq<byte>)
    ensures Inflate.Decode(result) == if data == [] then None else Some(data)
    ensures |result| <= MaxSize(|data|)
    ensures Deflated(result, data, quality)
  {
    hide Planned;
    hide TokensBits, Valid, Expand, Inflate.Decode, Inflate.AdlerOf, SymbolBits, StoredBlocks.Stored, LsbStream, Header;
    var o := new Output();
    ghost var ts := EmitAll(o, data, quality);
    ghost var pad := FinishBlock(o, ts, data);
    assert data[..|data|] == data;
    ghost var packed := o.out;
    assert Packed(packed, ts);
    FixedOutputDecodes(o.out, ts, data, pad);
    StoredOutputDecodes(data);
    if |o.out| > |data| + 2 + ((|data| + 32766) / 32767) * 5 {
      o.Truncate(2);
      StoredBlocks.StoreBlocks(o, data);
    }
    PushChecksum(o, data);
    result := o.out;
    assert result == WithChecksum(packed, data);
  }
}
