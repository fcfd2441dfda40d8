/** encoding_base64.c against section 4 of RFC 4648. */
module Base64 {
  import opened Prelude
  import opened Bytes

  // ---- The alphabet ----

  type sextet = x: int | 0 <= x < 64

  /** The table b64, as character codes. */
  function Letter(s: sextet): byte {
    if s < 26 then 65 + s else if s < 52 then 97 + (s - 26) else if s < 62 then 48 + (s - 52) else if s == 62 then 43 else 47
  }

  /** The table unb64: zero for what is not a letter. */
  function Unletter(c: byte): sextet {
    if 65 <= c <= 90 then c - 65 else if 97 <= c <= 122 then c - 97 + 26 else if 48 <= c <= 57 then c - 48 + 52
    else if c == 43 then 62 else if c == 47 then 63 else 0
  }

  const EQUALS: byte := 61

  lemma LetterRoundTrip(s: sextet)
    ensures Unletter(Letter(s)) == s && Letter(s) != EQUALS
  {
  }

  function Letters(ss: seq<sextet>): (r: seq<byte>)
    ensures |r| == |ss|
  {
    if ss == [] then [] else [Letter(ss[0])] + Letters(ss[1..])
  }

  // ---- Section 4 of RFC 4648: the bits of the input, six at a time ----

  function Sextets(bits: seq<bool>): seq<sextet>
    requires |bits| % 6 == 0
  {
    if bits == [] then [] else [SixBits(bits[..6])] + Sextets(bits[6..])
  }

  function SixBits(bits: seq<bool>): sextet
    requires |bits| == 6
  {
    MsbValueBound(bits);
    MsbValue(bits)
  }

  lemma {:induction false} MsbValueBound(bits: seq<bool>)
    ensures MsbValue(bits) < Pow2(|bits|)
    ensures |bits| == 6 ==> MsbValue(bits) < 64
  {
    if bits != [] { MsbValueBound(bits[..|bits| - 1]); }
    assert Pow2(6) == 64;
  }

  /** Zero bits up to a multiple of six. */
  function Padded(bits: seq<bool>): (r: seq<bool>)
    ensures |r| % 6 == 0
  {
    bits + MsbBits(0, (6 - |bits| % 6) % 6)
  }

  function Repeat(b: byte, n: nat): seq<byte> {
    if n == 0 then [] else [b] + Repeat(b, n - 1)
  }

  function Rfc4648(data: seq<byte>): seq<byte> {
    Letters(Sextets(Padded(MsbStream(data)))) + Signs(|data|)
  }

  /** One sign of equality for each byte that is missing in the last group. */
  function Signs(n: nat): seq<byte> {
    Repeat(EQUALS, (3 - n % 3) % 3)
  }

  // ---- The encoder, group by group ----

  /** Four sextets from three bytes. */
  function Group(a: byte, b: byte, c: byte): (r: seq<sextet>)
    ensures |r| == 4
  {
    [a / 4, a % 4 * 16 + b / 16, b % 16 * 4 + c / 64, c % 64]
  }

  function Encode(data: seq<byte>): seq<byte> {
    if |data| < 3 then LastLetters(data) else Letters(Group(data[0], data[1], data[2])) + Encode(data[3..])
  }

  /** Fewer than three bytes are padded. */
  function LastLetters(data: seq<byte>): seq<byte>
    requires |data| < 3
  {
    if |data| == 0 then [] else
    if |data| == 1 then Letters(Group(data[0], 0, 0)[..2]) + [EQUALS, EQUALS] else
    Letters(Group(data[0], data[1], 0)[..3]) + [EQUALS]
  }

  lemma {:induction false} MsbMod(v: nat, k: nat, n: nat)
    ensures MsbBits(v + k * Pow2(n), n) == MsbBits(v, n)
  {
    if n > 0 {
      var p := k * Pow2(n - 1);
      assert k * Pow2(n) == 2 * p;
      MsbMod(v / 2, k, n - 1);
      assert (v + 2 * p) / 2 == v / 2 + p && (v + 2 * p) % 2 == v % 2;
    }
  }

  /** Bits of two numbers, side by side. */
  lemma MsbJoin(a: nat, n: nat, b: nat, m: nat)
    requires b < Pow2(m)
    ensures MsbBits(a * Pow2(m) + b, n + m) == MsbBits(a, n) + MsbBits(b, m)
  {
    hide *;
    var v := a * Pow2(m) + b;
    MsbPrefix(v, n, m);
    QuotientUnique(v, Pow2(m), a, b);
    MsbMod(b, a, m);
    TwoParts(MsbBits(v, n + m), n);
  }

  lemma TwoParts(bits: seq<bool>, n: nat)
    requires n <= |bits|
    ensures bits == bits[..n] + bits[n..]
  {
  }

  lemma Powers64()
    ensures Pow2(2) == 4 && Pow2(4) == 16 && Pow2(6) == 64
  {
  }

  lemma SixTwo(v: byte)
    ensures MsbBits(v, 8) == MsbBits(v / 4, 6) + MsbBits(v % 4, 2)
  {
    Powers64();
    hide *;
    MsbJoin(v / 4, 6, v % 4, 2);
    assert v / 4 * 4 + v % 4 == v;
  }

  lemma FourFour(v: byte)
    ensures MsbBits(v, 8) == MsbBits(v / 16, 4) + MsbBits(v % 16, 4)
  {
    Powers64();
    hide *;
    MsbJoin(v / 16, 4, v % 16, 4);
    assert v / 16 * 16 + v % 16 == v;
  }

  lemma TwoSix(v: byte)
    ensures MsbBits(v, 8) == MsbBits(v / 64, 2) + MsbBits(v % 64, 6)
  {
    Powers64();
    hide *;
    MsbJoin(v / 64, 2, v % 64, 6);
    assert v / 64 * 64 + v % 64 == v;
  }

  lemma TwoFour(x: nat, y: nat)
    requires y < 16
    ensures MsbBits(x * 16 + y, 6) == MsbBits(x, 2) + MsbBits(y, 4)
  {
    Powers64();
    hide *;
    MsbJoin(x, 2, y, 4);
  }

  lemma FourTwo(x: nat, y: nat)
    requires y < 4
    ensures MsbBits(x * 4 + y, 6) == MsbBits(x, 4) + MsbBits(y, 2)
  {
    Powers64();
    hide *;
    MsbJoin(x, 4, y, 2);
  }

  /** The bits of three bytes are the bits of their four sextets. */
  lemma GroupBits(a: byte, b: byte, c: byte)
    ensures MsbBits(a, 8) + MsbBits(b, 8) + MsbBits(c, 8)
         == MsbBits(a / 4, 6) + MsbBits(a % 4 * 16 + b / 16, 6) + MsbBits(b % 16 * 4 + c / 64, 6) + MsbBits(c % 64, 6)
  {
    hide *;
    SixTwo(a);
    FourFour(b);
    TwoSix(c);
    TwoFour(a % 4, b / 16);
    FourTwo(b % 16, c / 64);
    Regroup(MsbBits(a / 4, 6), MsbBits(a % 4, 2), MsbBits(b / 16, 4), MsbBits(b % 16, 4), MsbBits(c / 64, 2), MsbBits(c % 64, 6));
  }

  lemma Regroup(p: seq<bool>, q: seq<bool>, r: seq<bool>, s: seq<bool>, t: seq<bool>, u: seq<bool>)
    ensures (p + q) + (r + s) + (t + u) == p + (q + r) + (s + t) + u
  {
  }

  /** Sextets of four groups of six bits in front. */
  lemma {:induction false} SextetsOf(ss: seq<sextet>, rest: seq<bool>)
    requires |rest| % 6 == 0
    ensures |SixBitsOf(ss) + rest| % 6 == 0 && Sextets(SixBitsOf(ss) + rest) == ss + Sextets(rest)
  {
    NoSixBits(rest);
    hide *;
    if ss != [] {
      SextetsOf(ss[1..], rest);
      OneMoreSextet(ss, rest, Sextets(rest));
    }
  }

  lemma OneMoreSextet(ss: seq<sextet>, rest: seq<bool>, more: seq<sextet>)
    requires ss != [] && |SixBitsOf(ss[1..]) + rest| % 6 == 0 && Sextets(SixBitsOf(ss[1..]) + rest) == ss[1..] + more
    ensures |SixBitsOf(ss) + rest| % 6 == 0 && Sextets(SixBitsOf(ss) + rest) == ss + more
  {
    var tail := SixBitsOf(ss[1..]) + rest;
    SixBitsStep(ss);
    hide *;
    ConcatAssociates(MsbBits(ss[0], 6), SixBitsOf(ss[1..]), rest);
    SextetsStep(ss[0], tail);
    SixMore(tail);
    FirstAndRest(ss, more);
  }

  lemma SixMore(tail: seq<bool>)
    requires |tail| % 6 == 0
    ensures (6 + |tail|) % 6 == 0
  {
  }

  lemma FirstAndRest(ss: seq<sextet>, more: seq<sextet>)
    requires ss != []
    ensures [ss[0]] + (ss[1..] + more) == ss + more
  {
  }

  lemma NoSixBits(rest: seq<bool>)
    requires |rest| % 6 == 0
    ensures SixBitsOf([]) + rest == rest && [] + Sextets(rest) == Sextets(rest)
  {
  }

  lemma SixBitsStep(ss: seq<sextet>)
    requires ss != []
    ensures SixBitsOf(ss) == MsbBits(ss[0], 6) + SixBitsOf(ss[1..])
  {
  }

  lemma SextetsStep(x: sextet, tail: seq<bool>)
    requires |tail| % 6 == 0
    ensures Sextets(MsbBits(x, 6) + tail) == [x] + Sextets(tail)
  {
    Powers64();
    MsbValueOf(x, 6);
    hide MsbBits, MsbValue, Pow2;
    var bits := MsbBits(x, 6) + tail;
    assert bits[..6] == MsbBits(x, 6) && bits[6..] == tail;
  }

  function SixBitsOf(ss: seq<sextet>): (r: seq<bool>)
    ensures |r| == 6 * |ss|
  {
    if ss == [] then [] else MsbBits(ss[0], 6) + SixBitsOf(ss[1..])
  }

  lemma {:induction false} LettersAppend(a: seq<sextet>, b: seq<sextet>)
    ensures Letters(a + b) == Letters(a) + Letters(b)
  {
    hide Letter;
    if a == [] {
      assert a + b == b;
      assert [] + Letters(b) == Letters(b);
    } else {
      var tail := a[1..];
      assert (a + b)[0] == a[0] && (a + b)[1..] == tail + b;
      assert Letters(a + b) == [Letter(a[0])] + Letters(tail + b) && Letters(a) == [Letter(a[0])] + Letters(tail);
      hide *;
      LettersAppend(tail, b);
      ConcatAssociates([Letter(a[0])], Letters(tail), Letters(b));
    }
  }

  lemma GroupAt(a: byte, b: byte, c: byte)
    ensures var g := Group(a, b, c);
      g[0] == a / 4 && g[1] == a % 4 * 16 + b / 16 && g[2] == b % 16 * 4 + c / 64 && g[3] == c % 64
  {
  }

  lemma GroupSixBits(a: byte, b: byte, c: byte)
    ensures SixBitsOf(Group(a, b, c)) == MsbBits(a, 8) + MsbBits(b, 8) + MsbBits(c, 8)
  {
    hide *;
    GroupBits(a, b, c);
    GroupAt(a, b, c);
    FourBits(Group(a, b, c));
  }

  lemma FourBits(g: seq<sextet>)
    requires |g| == 4
    ensures SixBitsOf(g) == MsbBits(g[0], 6) + MsbBits(g[1], 6) + MsbBits(g[2], 6) + MsbBits(g[3], 6)
  {
    hide MsbBits;
    assert g[1..][1..] == g[2..] && g[2..][1..] == g[3..] && g[3..][1..] == [];
    assert SixBitsOf(g[3..]) == MsbBits(g[3], 6) + [] == MsbBits(g[3], 6);
    assert SixBitsOf(g[2..]) == MsbBits(g[2], 6) + MsbBits(g[3], 6);
    var p, q, r, t := MsbBits(g[0], 6), MsbBits(g[1], 6), MsbBits(g[2], 6), MsbBits(g[3], 6);
    assert SixBitsOf(g[1..]) == q + (r + t);
    assert SixBitsOf(g) == p + (q + (r + t));
    assert p + (q + (r + t)) == p + q + r + t;
  }

  lemma OneByte(a: byte)
    ensures MsbStream([a]) == MsbBits(a, 8)
  {
    assert [a][1..] == [] && MsbBits(a, 8) + [] == MsbBits(a, 8);
  }

  lemma PaddedAfter(front: seq<bool>, bits: seq<bool>)
    requires |front| == 24
    ensures Padded(front + bits) == front + Padded(bits)
  {
    assert (6 - |front + bits| % 6) % 6 == (6 - |bits| % 6) % 6;
    ConcatAssociates(front, bits, MsbBits(0, (6 - |bits| % 6) % 6));
  }

  lemma PadFour(bits: seq<bool>)
    requires |bits| == 8
    ensures Padded(bits) == bits + MsbBits(0, 4)
  {
    hide MsbBits;
  }

  lemma PadTwo(bits: seq<bool>)
    requires |bits| == 16
    ensures Padded(bits) == bits + MsbBits(0, 2)
  {
    hide MsbBits;
  }

  lemma TwoSextets(a: byte)
    ensures Padded(MsbBits(a, 8)) == SixBitsOf(Group(a, 0, 0)[..2]) + []
  {
    hide *;
    var g := Group(a, 0, 0)[..2];
    GroupAt(a, 0, 0);
    PadFour(MsbBits(a, 8));
    TwoBits(g);
    SixTwo(a);
    TwoFour(a % 4, 0);
    ConcatAssociates(MsbBits(a / 4, 6), MsbBits(a % 4, 2), MsbBits(0, 4));
    assert SixBitsOf(g) + [] == SixBitsOf(g);
  }

  lemma TwoBits(g: seq<sextet>)
    requires |g| == 2
    ensures SixBitsOf(g) == MsbBits(g[0], 6) + MsbBits(g[1], 6)
  {
    hide MsbBits;
    assert g[1..][1..] == [];
    assert SixBitsOf(g[1..]) == MsbBits(g[1], 6) + [] == MsbBits(g[1], 6);
  }

  lemma ThreeSextets(a: byte, b: byte)
    ensures Padded(MsbBits(a, 8) + MsbBits(b, 8)) == SixBitsOf(Group(a, b, 0)[..3]) + []
  {
    hide *;
    var g := Group(a, b, 0)[..3];
    GroupAt(a, b, 0);
    PadTwo(MsbBits(a, 8) + MsbBits(b, 8));
    ThreeBits(g);
    SixTwo(a);
    FourFour(b);
    TwoFour(a % 4, b / 16);
    FourTwo(b % 16, 0);
    Regroup(MsbBits(a / 4, 6), MsbBits(a % 4, 2), MsbBits(b / 16, 4), MsbBits(b % 16, 4), MsbBits(0, 2), []);
    assert MsbBits(0, 2) + [] == MsbBits(0, 2) && SixBitsOf(g) + [] == SixBitsOf(g);
  }

  lemma ThreeBits(g: seq<sextet>)
    requires |g| == 3
    ensures SixBitsOf(g) == MsbBits(g[0], 6) + MsbBits(g[1], 6) + MsbBits(g[2], 6)
  {
    hide MsbBits;
    assert g[1..][1..] == g[2..] && g[2..][1..] == [];
    var p, q, r := MsbBits(g[0], 6), MsbBits(g[1], 6), MsbBits(g[2], 6);
    assert SixBitsOf(g[2..]) == r + [] == r;
    assert SixBitsOf(g[1..]) == q + r;
    assert p + (q + r) == p + q + r;
  }

  /** The encoder follows section 4 of RFC 4648. */
  lemma {:induction false} EncodeIsRfc4648(data: seq<byte>)
    ensures Encode(data) == Rfc4648(data)
    decreases |data|
  {
    if |data| == 0 {
      NothingEncodes();
    } else if |data| == 1 {
      assert data == [data[0]];
      OneEncodes(data[0]);
    } else if |data| == 2 {
      assert data == [data[0]] + [data[1]];
      TwoEncode(data[0], data[1]);
    } else {
      EncodeIsRfc4648(data[3..]);
      hide *;
      MoreEncode(data);
    }
  }

  lemma OneEncodes(a: byte)
    ensures Encode([a]) == Rfc4648([a])
  {
    hide MsbBits, Padded, Sextets, Group, SixBitsOf;
    OneByte(a);
    TwoSextets(a);
    SextetsOf(Group(a, 0, 0)[..2], []);
    NoSextets(Group(a, 0, 0)[..2]);
    Equals();
  }

  lemma TwoEncode(a: byte, b: byte)
    ensures Encode([a] + [b]) == Rfc4648([a] + [b])
  {
    hide MsbBits, Padded, Sextets, Group, SixBitsOf;
    OneByte(a);
    OneByte(b);
    MsbStreamAppend([a], [b]);
    ThreeSextets(a, b);
    SextetsOf(Group(a, b, 0)[..3], []);
    NoSextets(Group(a, b, 0)[..3]);
    Equals();
  }

  lemma MoreEncode(data: seq<byte>)
    requires |data| >= 3 && Encode(data[3..]) == Rfc4648(data[3..])
    ensures Encode(data) == Rfc4648(data)
  {
    hide *;
    var front, g, rest := MsbBits(data[0], 8) + MsbBits(data[1], 8) + MsbBits(data[2], 8),
      Group(data[0], data[1], data[2]), MsbStream(data[3..]);
    var signs := Signs(|data|);
    EncodeUnfolds(data);
    SameSigns(|data|);
    ThreeBytes(data);
    PaddedAfter(front, rest);
    GroupSixBits(data[0], data[1], data[2]);
    PaddedSixes(rest);
    SextetsOf(g, Padded(rest));
    LettersAppend(g, Sextets(Padded(rest)));
    ConcatAssociates(Letters(g), Letters(Sextets(Padded(rest))), signs);
    Rfc4648Is(data);
    Rfc4648Is(data[3..]);
  }

  lemma EncodeUnfolds(data: seq<byte>)
    requires |data| >= 3
    ensures Encode(data) == Letters(Group(data[0], data[1], data[2])) + Encode(data[3..])
  {
    hide Letters, Group;
  }

  lemma Rfc4648Is(data: seq<byte>)
    ensures |Padded(MsbStream(data))| % 6 == 0
    ensures Rfc4648(data) == Letters(Sextets(Padded(MsbStream(data)))) + Signs(|data|)
  {
    hide Padded, MsbStream, Letters, Sextets;
  }

  lemma SameSigns(n: nat)
    requires n >= 3
    ensures Signs(n) == Signs(n - 3)
  {
    assert (3 - n % 3) % 3 == (3 - (n - 3) % 3) % 3;
  }

  lemma PaddedSixes(bits: seq<bool>)
    ensures |Padded(bits)| % 6 == 0
  {
  }

  lemma NothingEncodes()
    ensures Padded([]) == [] && Sextets([]) == [] && Letters([]) == [] && Repeat(EQUALS, 0) == []
  {
  }

  lemma NoSextets(g: seq<sextet>)
    ensures g + Sextets([]) == g
  {
  }

  lemma Equals()
    ensures Repeat(EQUALS, 1) == [EQUALS] && Repeat(EQUALS, 2) == [EQUALS, EQUALS]
  {
  }

  lemma ThreeBytes(data: seq<byte>)
    requires |data| >= 3
    ensures MsbStream(data) == MsbBits(data[0], 8) + MsbBits(data[1], 8) + MsbBits(data[2], 8) + MsbStream(data[3..])
  {
    hide *;
    var p, q, r, t := MsbBits(data[0], 8), MsbBits(data[1], 8), MsbBits(data[2], 8), MsbStream(data[3..]);
    FirstOf(data, 2);
    FirstOf(data, 1);
    FirstOf(data, 0);
    assert data[0..] == data;
    ConcatAssociates(p, q, r + t);
    ConcatAssociates(p + q, r, t);
  }

  lemma FirstOf(data: seq<byte>, i: nat)
    requires i < |data|
    ensures MsbStream(data[i..]) == MsbBits(data[i], 8) + MsbStream(data[i + 1..])
  {
    hide MsbBits;
    assert data[i..][1..] == data[i + 1..];
  }

  // ---- The decoder ----

  /** Three bytes from four sextets. */
  function Bytes3(a: sextet, b: sextet, c: sextet, d: sextet): (r: seq<byte>)
    ensures |r| == 3
  {
    [a * 4 + b / 16, b % 16 * 16 + c / 4, c % 4 * 64 + d]
  }

  /** The bytes of the first four letters. */
  function GroupBytes(text: seq<byte>): (r: seq<byte>)
    requires |text| >= 4
    ensures |r| == 3
  {
    Bytes3(Unletter(text[0]), Unletter(text[1]), Unletter(text[2]), Unletter(text[3]))
  }

  /** Trailing signs of equality. */
  function Pads(text: seq<byte>): nat
    requires |text| >= 2
  {
    (if text[|text| - 1] == EQUALS then 1 else 0) + (if text[|text| - 2] == EQUALS then 1 else 0)
  }

  /** Four letters at a time; the padding shortens the last three bytes. */
  function Decode(text: seq<byte>): seq<byte>
    requires |text| % 4 == 0
  {
    if |text| == 0 then [] else
    if |text| == 4 then GroupBytes(text)[..3 - Pads(text)] else GroupBytes(text) + Decode(text[4..])
  }

  lemma {:induction false} EncodeLength(data: seq<byte>)
    ensures |Encode(data)| == (|data| + 2) / 3 * 4
    decreases |data|
  {
    hide Letters, Group;
    if |data| >= 3 { EncodeLength(data[3..]); }
  }

  lemma GroupBack(a: byte, b: byte, c: byte)
    ensures var g := Group(a, b, c); Bytes3(g[0], g[1], g[2], g[3]) == [a, b, c]
  {
    FirstBack(a, b);
    SecondBack(a, b, c);
    ThirdBack(b, c);
  }

  lemma FirstBack(a: byte, b: byte)
    ensures a / 4 * 4 + (a % 4 * 16 + b / 16) / 16 == a
  {
    Parts(a, b);
    assert a == a / 4 * 4 + a % 4;
  }

  lemma SecondBack(a: byte, b: byte, c: byte)
    ensures (a % 4 * 16 + b / 16) % 16 * 16 + (b % 16 * 4 + c / 64) / 4 == b
  {
    Parts(a, b);
    Parts(b, c);
    assert b == b / 16 * 16 + b % 16;
  }

  lemma ThirdBack(b: byte, c: byte)
    ensures (b % 16 * 4 + c / 64) % 4 * 64 + c % 64 == c
  {
    Parts(b, c);
    assert c == c / 64 * 64 + c % 64;
  }

  lemma Parts(a: nat, b: byte)
    ensures (a % 4 * 16 + b / 16) / 16 == a % 4 && (a % 4 * 16 + b / 16) % 16 == b / 16
    ensures (a % 16 * 4 + b / 64) / 4 == a % 16 && (a % 16 * 4 + b / 64) % 4 == b / 64
  {
  }

  lemma LettersAt(g: seq<sextet>, i: nat)
    requires i < |g|
    ensures Letters(g)[i] == Letter(g[i])
  {
    if i > 0 { LettersAt(g[1..], i - 1); }
  }

  lemma LettersBack(g: seq<sextet>, i: nat)
    requires i < |g|
    ensures Unletter(Letters(g)[i]) == g[i] && Letters(g)[i] != EQUALS
  {
    LettersAt(g, i);
    LetterRoundTrip(g[i]);
  }

  /** Four letters decode to the bytes they were made of. */
  lemma WholeGroup(a: byte, b: byte, c: byte)
    ensures GroupBytes(Letters(Group(a, b, c))) == [a, b, c]
    ensures Letters(Group(a, b, c))[2] != EQUALS && Letters(Group(a, b, c))[3] != EQUALS
  {
    var g := Group(a, b, c);
    GroupBack(a, b, c);
    hide Letters, Unletter, Group, Bytes3;
    LettersBack(g, 0);
    LettersBack(g, 1);
    LettersBack(g, 2);
    LettersBack(g, 3);
  }

  /** Decoding undoes encoding. */
  lemma {:induction false} RoundTrip(data: seq<byte>)
    ensures |Encode(data)| % 4 == 0 && Decode(Encode(data)) == data
    decreases |data|
  {
    EncodeLength(data);
    if |data| == 1 {
      LastOne(data[0]);
      assert data == [data[0]];
    } else if |data| == 2 {
      LastTwo(data[0], data[1]);
      assert data == [data[0], data[1]];
    } else if |data| >= 3 {
      RoundTrip(data[3..]);
      FrontGroup(data);
    }
  }

  lemma FrontGroup(data: seq<byte>)
    requires |data| >= 3 && |Encode(data[3..])| % 4 == 0 && Decode(Encode(data[3..])) == data[3..]
    ensures |Encode(data)| % 4 == 0 && Decode(Encode(data)) == data
  {
    hide *;
    var t, rest := Letters(Group(data[0], data[1], data[2])), Encode(data[3..]);
    assert data[0..] == data && data == [data[0], data[1], data[2]] + data[3..];
    EncodeThree(data, 0);
    EncodeLength(data[3..]);
    WholeGroup(data[0], data[1], data[2]);
    DecodeFront(t, rest);
    NoPads(t);
    if rest == [] {
      assert data[3..] == [];
    }
  }

  lemma NoPads(t: seq<byte>)
    requires |t| == 4 && t[2] != EQUALS && t[3] != EQUALS
    ensures Pads(t) == 0
  {
  }

  lemma DecodeFront(t: seq<byte>, rest: seq<byte>)
    requires |t| == 4 && |rest| % 4 == 0
    ensures rest == [] ==> Decode(t + rest) == GroupBytes(t)[..3 - Pads(t)]
    ensures rest != [] ==> Decode(t + rest) == GroupBytes(t) + Decode(rest)
  {
    var s := t + rest;
    assert GroupBytes(t) == GroupBytes(s[..4]) && s[4..] == rest;
    if rest == [] { assert s == t; }
    hide Unletter, Bytes3;
  }

  lemma LastOne(a: byte)
    ensures |Encode([a])| == 4 && Decode(Encode([a])) == [a]
  {
    var t := Encode([a]);
    OneLetters(a);
    hide *;
    DecodesTo(t, a / 4, a % 4 * 16, 0, 2);
    OneBack(a);
  }

  lemma OneLetters(a: byte)
    ensures |Encode([a])| == 4 && Encode([a])[2] == Encode([a])[3] == EQUALS
    ensures Unletter(Encode([a])[0]) == a / 4 && Unletter(Encode([a])[1]) == a % 4 * 16
  {
    var g := Group(a, 0, 0)[..2];
    var t := Encode([a]);
    assert t == Letters(g) + [EQUALS, EQUALS] && g[0] == a / 4 && g[1] == a % 4 * 16;
    hide *;
    LettersBack(g, 0);
    LettersBack(g, 1);
    assert t[0] == Letters(g)[0] && t[1] == Letters(g)[1];
  }

  lemma OneBack(a: byte)
    ensures Bytes3(a / 4, a % 4 * 16, 0, 0)[..1] == [a]
  {
    assert a == a / 4 * 4 + a % 4;
    assert a % 4 * 16 / 16 == a % 4;
  }

  lemma LastTwo(a: byte, b: byte)
    ensures |Encode([a, b])| == 4 && Decode(Encode([a, b])) == [a, b]
  {
    var t := Encode([a, b]);
    TwoLetters(a, b);
    hide *;
    DecodesTo(t, a / 4, a % 4 * 16 + b / 16, b % 16 * 4, 1);
    TwoBack(a, b);
  }

  lemma TwoLetters(a: byte, b: byte)
    ensures |Encode([a, b])| == 4 && Encode([a, b])[2] != EQUALS && Encode([a, b])[3] == EQUALS
    ensures Unletter(Encode([a, b])[0]) == a / 4 && Unletter(Encode([a, b])[1]) == a % 4 * 16 + b / 16
    ensures Unletter(Encode([a, b])[2]) == b % 16 * 4
  {
    var g := Group(a, b, 0)[..3];
    var t := Encode([a, b]);
    assert t == Letters(g) + [EQUALS] && g[0] == a / 4 && g[1] == a % 4 * 16 + b / 16 && g[2] == b % 16 * 4;
    hide *;
    LettersBack(g, 0);
    LettersBack(g, 1);
    LettersBack(g, 2);
    assert t[0] == Letters(g)[0] && t[1] == Letters(g)[1] && t[2] == Letters(g)[2];
  }

  lemma TwoBack(a: byte, b: byte)
    ensures Bytes3(a / 4, a % 4 * 16 + b / 16, b % 16 * 4, 0)[..2] == [a, b]
  {
    FirstBack(a, b);
    assert b == b / 16 * 16 + b % 16;
    Parts(a, b);
  }

  /** A last group of four characters, the last `pads` of them signs of equality. */
  lemma DecodesTo(t: seq<byte>, a: sextet, b: sextet, c: sextet, pads: nat)
    requires |t| == 4 && 1 <= pads <= 2 && Unletter(t[0]) == a && Unletter(t[1]) == b
    requires t[3] == EQUALS && (t[2] == EQUALS <==> pads == 2) && (pads == 1 ==> Unletter(t[2]) == c)
    ensures Decode(t) == Bytes3(a, b, c, 0)[..3 - pads]
  {
    hide Unletter;
  }

  // ---- base64 and unbase64 ----

  /** The four letters of a whole group. */
  method WriteGroup(res: array<byte>, rc: nat, a: byte, b: byte, c: byte)
    requires rc + 4 <= res.Length
    modifies res
    ensures res[..rc + 4] == old(res[..rc]) + Letters(Group(a, b, c))
  {
    hide *;
    res[rc] := Letter(a / 4);
    res[rc + 1] := Letter(a % 4 * 16 + b / 16);
    res[rc + 2] := Letter(b % 16 * 4 + c / 64);
    res[rc + 3] := Letter(c % 64);
    FourLetters(a, b, c);
  }

  /** The letters and signs of equality of one or two last bytes. */
  method WriteLast(res: array<byte>, rc: nat, bin: seq<byte>, byteNo: nat, pad: nat)
    requires byteNo < |bin| && pad == 3 - (|bin| - byteNo) && 1 <= pad <= 2 && rc + 4 <= res.Length
    modifies res
    ensures res[..rc + 4] == old(res[..rc]) + Encode(bin[byteNo..])
  {
    EncodeEnd(bin, byteNo);
    hide *;
    res[rc] := Letter(bin[byteNo] / 4);
    if pad == 2 {
      res[rc + 1] := Letter(bin[byteNo] % 4 * 16);
      res[rc + 2], res[rc + 3] := EQUALS, EQUALS;
    } else {
      res[rc + 1] := Letter(bin[byteNo] % 4 * 16 + bin[byteNo + 1] / 16);
      res[rc + 2] := Letter(bin[byteNo + 1] % 16 * 4);
      res[rc + 3] := EQUALS;
    }
  }

  /** How many signs of equality, and how many characters. */
  method OutputLength(len: nat) returns (pad: nat, flen: nat, ghost m: nat)
    ensures pad < 3 && len + pad == 3 * m && flen == 4 * m
  {
    var modulusLen := len % 3;
    pad := modulusLen % 2 * 2 + modulusLen / 2 % 2;
    flen := 4 * (len + pad) / 3;
    m := (len + pad) / 3;
  }

  lemma GroupsOf(len: nat, pad: nat, m: nat)
    requires pad < 3 && len + pad == 3 * m
    ensures (len + 2) / 3 == m
  {
  }

  /** base64: the characters and a NUL; the reported length is that of the characters. */
  method EncodeBase64(bin: seq<byte>) returns (res: array<byte>, flen: nat)
    ensures fresh(res) && flen == |Encode(bin)| && res.Length == flen + 1
    ensures res[..flen] == Encode(bin) && res[flen] == 0
  {
    hide *;
    var len := |bin|;
    var pad: nat;
    ghost var m: nat;
    pad, flen, m := OutputLength(len);
    EncodeLength(bin);
    GroupsOf(len, pad, m);
    res := new byte[flen + 1];
    var rc: nat, byteNo: nat := 0, 0;
    ghost var q: nat := 0;
    assert bin[0..] == bin && res[..0] + Encode(bin) == Encode(bin);
    while byteNo + 3 <= len
      invariant byteNo == 3 * q <= len && rc == 4 * q
      invariant res[..rc] + Encode(bin[byteNo..]) == Encode(bin)
    {
      EncodeThree(bin, byteNo);
      EncodeLength(bin[byteNo..]);
      ConcatAssociates(res[..rc], Letters(Group(bin[byteNo], bin[byteNo + 1], bin[byteNo + 2])), Encode(bin[byteNo + 3..]));
      WriteGroup(res, rc, bin[byteNo], bin[byteNo + 1], bin[byteNo + 2]);
      rc, byteNo, q := rc + 4, byteNo + 3, q + 1;
    }
    EncodeLength(bin[byteNo..]);
    if pad == 2 || pad == 1 {
      WriteLast(res, rc, bin, byteNo, pad);
      rc := rc + 4;
    } else {
      assert Encode(bin[byteNo..]) == [];
    }
    res[rc] := 0;
  }

  lemma EncodeThree(bin: seq<byte>, at: nat)
    requires at + 3 <= |bin|
    ensures Encode(bin[at..]) == Letters(Group(bin[at], bin[at + 1], bin[at + 2])) + Encode(bin[at + 3..])
  {
    hide Letters, Group;
    assert bin[at..][3..] == bin[at + 3..];
  }

  lemma FourLetters(a: byte, b: byte, c: byte)
    ensures Letters(Group(a, b, c))
         == [Letter(a / 4), Letter(a % 4 * 16 + b / 16), Letter(b % 16 * 4 + c / 64), Letter(c % 64)]
  {
    var g := Group(a, b, c);
    hide Letter;
    LettersAt(g, 0);
    LettersAt(g, 1);
    LettersAt(g, 2);
    LettersAt(g, 3);
  }

  lemma EncodeEnd(bin: seq<byte>, at: nat)
    requires at < |bin| < at + 3
    ensures Encode(bin[at..]) ==
      if at + 1 == |bin| then [Letter(bin[at] / 4), Letter(bin[at] % 4 * 16), EQUALS, EQUALS]
      else [Letter(bin[at] / 4), Letter(bin[at] % 4 * 16 + bin[at + 1] / 16), Letter(bin[at + 1] % 16 * 4), EQUALS]
  {
    hide Letter;
    if at + 1 == |bin| {
      var g := Group(bin[at], 0, 0)[..2];
      LettersAt(g, 0);
      LettersAt(g, 1);
    } else if at + 2 == |bin| {
      var g := Group(bin[at], bin[at + 1], 0)[..3];
      LettersAt(g, 0);
      LettersAt(g, 1);
      LettersAt(g, 2);
    }
  }

  /** The shifts and ors of the decoder, cut to bytes. */
  function Shifted(a: sextet, b: sextet, c: sextet, d: sextet): (r: seq<byte>)
    ensures |r| == 3
  {
    [BitOr(a as int * Pow2(2), b / 16) % 256, BitOr(b as int * Pow2(4), c / 4) % 256, BitOr(c as int * Pow2(6), d) % 256]
  }

  lemma ShiftedIs(a: sextet, b: sextet, c: sextet, d: sextet)
    ensures Shifted(a, b, c, d) == Bytes3(a, b, c, d)
  {
    OrTwo(a, b / 16);
    OrFour(b, c / 4);
    OrSix(c, d);
    hide BitOr, Pow2;
  }

  lemma OrTwo(a: sextet, low: nat)
    requires low < 4
    ensures BitOr(a as int * Pow2(2), low) % 256 == a * 4 + low
  {
    Powers64();
    Glue(a, low, 2);
    hide BitOr, Pow2;
  }

  lemma OrFour(a: sextet, low: nat)
    requires low < 16
    ensures BitOr(a as int * Pow2(4), low) % 256 == a % 16 * 16 + low
  {
    Powers64();
    Glue(a, low, 4);
    hide BitOr, Pow2;
    CutHigh(a / 16, a % 16 * 16 + low);
    assert a * 16 + low == a / 16 * 256 + (a % 16 * 16 + low);
  }

  lemma OrSix(a: sextet, low: nat)
    requires low < 64
    ensures BitOr(a as int * Pow2(6), low) % 256 == a % 4 * 64 + low
  {
    Powers64();
    Glue(a, low, 6);
    hide BitOr, Pow2;
    CutHigh(a / 4, a % 4 * 64 + low);
    assert a * 64 + low == a / 4 * 256 + (a % 4 * 64 + low);
  }

  lemma CutHigh(q: nat, r: nat)
    requires r < 256
    ensures (q * 256 + r) % 256 == r
  {
  }

  // ---- unbase64, for any text ----

  /** What becomes of a call: too little text; a negative number of bytes to allocate; everything inside the buffers; a
      byte written past the end of the result; a letter read past the end of the text. */
  datatype Outcome = TooShort | NoMemory | Inside | WritesPast | ReadsPast

  /** The length that is allocated and reported. */
  function Reported(text: seq<byte>): int
    requires |text| >= 2
  {
    3 * |text| / 4 - Pads(text)
  }

  /** How many whole groups the loop decodes. */
  function WholeGroups(text: seq<byte>): nat
    requires |text| >= 2
  {
    if |text| < 4 + Pads(text) then 0 else (|text| - 4 - Pads(text)) / 4 + 1
  }

  /** How many bytes are written, if nothing stops the writing. */
  function Written(text: seq<byte>): nat
    requires |text| >= 2
  {
    3 * WholeGroups(text) + if Pads(text) == 0 then 0 else 3 - Pads(text)
  }

  /** The first mishap, in the order of the code. */
  function OutcomeOf(text: seq<byte>): Outcome {
    if |text| < 2 then TooShort else
    if Reported(text) < 0 then NoMemory else
    if 3 * WholeGroups(text) > Reported(text) then WritesPast else
    if TailMissing(text) then ReadsPast else
    if Written(text) > Reported(text) then WritesPast else Inside
  }

  /** The letters that padding leaves are not all there. */
  predicate TailMissing(text: seq<byte>)
    requires |text| >= 2
  {
    Pads(text) > 0 && 4 * WholeGroups(text) + 4 - Pads(text) > |text|
  }

  /** By the length's remainder and the number of padding signs. */
  lemma OutcomeIs(text: seq<byte>)
    requires |text| >= 2
    ensures OutcomeOf(text) == Inside <==> Pads(text) == 0 || |text| % 4 == 0 || (|text| % 4 == 1 && Pads(text) == 2)
    ensures OutcomeOf(text) == NoMemory <==> |text| == 2 && Pads(text) == 2
    ensures OutcomeOf(text) == ReadsPast <==> |text| % 4 == 2 && Pads(text) == 1
  {
    var q, r := |text| / 4, |text| % 4;
    RemainderCases(|text|, q, r, Pads(text));
  }

  lemma RemainderCases(n: nat, q: nat, r: nat, pad: nat)
    requires n == 4 * q + r && r < 4 && n >= 2 && pad <= 2
    ensures 3 * n / 4 == 3 * q + (if r == 0 then 0 else r - 1)
    ensures n >= 4 + pad ==> (n - 4 - pad) / 4 + 1 == if r >= pad then q else q - 1
    ensures n < 4 + pad ==> q == (if r >= pad then 0 else 1)
  {
  }

  /** Exactly as many bytes are written as are reported exactly when the text is whole groups, or has one letter more
      and not one padding sign. */
  lemma ReportIsExact(text: seq<byte>)
    requires |text| >= 2
    ensures Written(text) == Reported(text) <==> |text| % 4 == 0 || (|text| % 4 == 1 && Pads(text) != 1)
    ensures Written(text) == Reported(text) ==> OutcomeOf(text) == Inside
    ensures Written(text) > Reported(text) ==> Pads(text) > 0 && OutcomeOf(text) != Inside
    ensures Written(text) < Reported(text) ==> Pads(text) == 0 && OutcomeOf(text) == Inside
  {
    RemainderCases(|text|, |text| / 4, |text| % 4, Pads(text));
    OutcomeIs(text);
  }

  /** "AB=" has room for one byte and writes two; "AAAA==" has room for two and writes three before its padding; "A="
      reads past the end; "AAAAAA" reports four bytes and writes three. */
  lemma Mishaps(a: seq<byte>, b: seq<byte>, c: seq<byte>, d: seq<byte>)
    requires a == [65, 66, EQUALS] && b == [65, 65, 65, 65, EQUALS, EQUALS] && c == [65, EQUALS]
    requires d == [65, 65, 65, 65, 65, 65]
    ensures OutcomeOf(a) == WritesPast && Reported(a) == 1 && Written(a) == 2
    ensures OutcomeOf(b) == WritesPast && Reported(b) == 2 && Written(b) == 4
    ensures OutcomeOf(c) == ReadsPast
    ensures OutcomeOf(d) == Inside && Reported(d) == 4 && Written(d) == 3
  {
  }

  /** The bytes of the first `n` whole groups. */
  function Quads(text: seq<byte>, n: nat): (r: seq<byte>)
    requires 4 * n <= |text|
    ensures |r| == 3 * n
  {
    if n == 0 then [] else Quads(text, n - 1) + Piece(text, 4 * (n - 1), 3)
  }

  /** The first `n` bytes of the group at a place, from its first `n` + 1 letters. */
  function Piece(text: seq<byte>, at: nat, n: nat): (r: seq<byte>)
    requires 1 <= n <= 3 && at + n + 1 <= |text|
    ensures |r| == n
  {
    Bytes3(Unletter(text[at]), Unletter(text[at + 1]), if n >= 2 then Unletter(text[at + 2]) else 0,
           if n == 3 then Unletter(text[at + 3]) else 0)[..n]
  }

  /** Everything that is written when nothing goes wrong. */
  function Output(text: seq<byte>): (r: seq<byte>)
    requires OutcomeOf(text) == Inside
  {
    InsideFits(text);
    Groups(text, WholeGroups(text), Pads(text))
  }

  /** `g` whole groups, and the shorter one that a padded text ends in. */
  function Groups(text: seq<byte>, g: nat, pad: nat): (r: seq<byte>)
    requires pad <= 2 && 4 * g + (if pad == 0 then 0 else 4 - pad) <= |text|
  {
    Quads(text, g) + if pad == 0 then [] else Piece(text, 4 * g, 3 - pad)
  }

  lemma InsideFits(text: seq<byte>)
    requires OutcomeOf(text) == Inside
    ensures 4 * WholeGroups(text) + (if Pads(text) == 0 then 0 else 4 - Pads(text)) <= |text| && Pads(text) <= 2
    ensures Written(text) <= Reported(text)
  {
  }

  /** unbase64. Whatever the text, a mishap is the one foretold; without one the result begins with the output, and has
      the reported length. */
  method DecodeBase64(text: seq<byte>) returns (o: Outcome, bin: array?<byte>, flen: int)
    ensures o == OutcomeOf(text)
    ensures o == TooShort ==> bin == null && flen == 0
    ensures o == NoMemory ==> bin == null && flen == Reported(text)
    ensures o != TooShort && o != NoMemory ==>
      bin != null && fresh(bin) && flen == Reported(text) && bin.Length == flen
    ensures o == Inside ==> |Output(text)| == Written(text) <= bin.Length && bin[..Written(text)] == Output(text)
  {
    OutcomeUnfolds(text);
    hide *;
    if |text| < 2 {
      return TooShort, null, 0;
    }
    var pad := CountPads(text);
    flen := 3 * |text| / 4 - pad;
    if flen < 0 {
      return NoMemory, null, flen;
    }
    bin := new byte[flen];
    o := FillBuffer(text, pad, bin);
  }

  method CountPads(text: seq<byte>) returns (pad: nat)
    requires |text| >= 2
    ensures pad == Pads(text) <= 2
  {
    pad := 0;
    if text[|text| - 1] == EQUALS {
      pad := pad + 1;
    }
    if text[|text| - 2] == EQUALS {
      pad := pad + 1;
    }
  }

  /** The groups of four letters, and the shorter one of a padded text. */
  method FillBuffer(text: seq<byte>, pad: nat, bin: array<byte>) returns (o: Outcome)
    requires |text| >= 2 && pad == Pads(text) && bin.Length == Reported(text)
    modifies bin
    ensures o == OutcomeOf(text)
    ensures o == Inside ==> |Output(text)| == Written(text) <= bin.Length && bin[..Written(text)] == Output(text)
  {
    OutcomeUnfolds(text);
    PadsFew(text);
    hide *;
    var inside, charNo, cb := FillGroups(text, pad, bin);
    if !inside {
      return WritesPast;
    }
    if pad > 0 {
      if charNo + 4 - pad > |text| {
        return ReadsPast;
      }
      if cb + 3 - pad > bin.Length {
        return WritesPast;
      }
      ReadPiece(text, charNo, bin, cb, 3 - pad);
    } else {
      assert bin[..cb] + [] == bin[..cb];
    }
    o := Inside;
    OutputUnfolds(text);
    GroupsUnfold(text, WholeGroups(text), pad);
  }

  method FillGroups(text: seq<byte>, pad: nat, bin: array<byte>) returns (inside: bool, charNo: nat, cb: nat)
    requires |text| >= 2 && pad == Pads(text)
    modifies bin
    ensures inside <==> 3 * WholeGroups(text) <= bin.Length
    ensures inside ==> charNo == 4 * WholeGroups(text) <= |text| && cb == 3 * WholeGroups(text)
    ensures inside ==> bin[..cb] == Quads(text, WholeGroups(text))
  {
    hide *;
    charNo, cb := 0, 0;
    ghost var q: nat := 0;
    NoQuads(text);
    while charNo + 4 + pad <= |text|
      invariant charNo == 4 * q <= |text| && cb == 3 * q <= bin.Length && q <= WholeGroups(text)
      invariant bin[..cb] == Quads(text, q)
    {
      MoreGroups(text, q);
      if cb + 3 > bin.Length {
        return false, charNo, cb;
      }
      ReadPiece(text, charNo, bin, cb, 3);
      OneMoreQuad(text, q);
      charNo, cb, q := charNo + 4, cb + 3, q + 1;
    }
    AllGroups(text, q);
    inside := true;
  }

  lemma OutcomeUnfolds(text: seq<byte>)
    ensures |text| < 2 ==> OutcomeOf(text) == TooShort
    ensures |text| >= 2 && Reported(text) < 0 ==> OutcomeOf(text) == NoMemory
    ensures |text| >= 2 && 0 <= Reported(text) < 3 * WholeGroups(text) ==> OutcomeOf(text) == WritesPast
    ensures |text| >= 2 && 3 * WholeGroups(text) <= Reported(text) && TailMissing(text) ==> OutcomeOf(text) == ReadsPast
    ensures |text| >= 2 && 3 * WholeGroups(text) <= Reported(text) && !TailMissing(text) ==>
      OutcomeOf(text) == if Written(text) > Reported(text) then WritesPast else Inside
    ensures |text| >= 2 ==> (TailMissing(text) <==> Pads(text) > 0 && 4 * WholeGroups(text) + 4 - Pads(text) > |text|)
    ensures |text| >= 2 ==> Reported(text) == 3 * |text| / 4 - Pads(text)
    ensures |text| >= 2 ==> Written(text) == 3 * WholeGroups(text) + if Pads(text) == 0 then 0 else 3 - Pads(text)
  {
  }

  lemma OutputUnfolds(text: seq<byte>)
    requires OutcomeOf(text) == Inside
    ensures Pads(text) <= 2 && 4 * WholeGroups(text) + (if Pads(text) == 0 then 0 else 4 - Pads(text)) <= |text|
    ensures Output(text) == Groups(text, WholeGroups(text), Pads(text))
  {
  }

  lemma GroupsUnfold(text: seq<byte>, g: nat, pad: nat)
    requires pad <= 2 && 4 * g + (if pad == 0 then 0 else 4 - pad) <= |text|
    ensures Groups(text, g, pad) == Quads(text, g) + if pad == 0 then [] else Piece(text, 4 * g, 3 - pad)
  {
  }

  lemma NoQuads(text: seq<byte>)
    ensures Quads(text, 0) == []
  {
  }

  lemma OneMoreQuad(text: seq<byte>, q: nat)
    requires 4 * q + 4 <= |text|
    ensures Quads(text, q + 1) == Quads(text, q) + Piece(text, 4 * q, 3)
  {
  }

  lemma MoreGroups(text: seq<byte>, q: nat)
    requires |text| >= 2 && 4 * q + 4 + Pads(text) <= |text|
    ensures q < WholeGroups(text)
  {
  }

  lemma AllGroups(text: seq<byte>, q: nat)
    requires |text| >= 2 && 4 * q + 4 + Pads(text) > |text| && q <= WholeGroups(text)
    ensures q == WholeGroups(text)
  {
  }

  /** The first `n` bytes of a group. */
  method ReadPiece(text: seq<byte>, at: nat, bin: array<byte>, cb: nat, n: nat)
    requires 1 <= n <= 3 && at + n + 1 <= |text| && cb + n <= bin.Length
    modifies bin
    ensures bin[..cb + n] == old(bin[..cb]) + Piece(text, at, n)
  {
    var a, b: sextet := Unletter(text[at]), Unletter(text[at + 1]);
    var c: sextet, d: sextet := 0, 0;
    if n >= 2 {
      c := Unletter(text[at + 2]);
    }
    if n == 3 {
      d := Unletter(text[at + 3]);
    }
    assert Piece(text, at, n) == Bytes3(a, b, c, d)[..n];
    hide *;
    ShiftedIs(a, b, c, d);
    var whole := Shifted(a, b, c, d);
    bin[cb] := whole[0];
    if n >= 2 {
      bin[cb + 1] := whole[1];
    }
    if n == 3 {
      bin[cb + 2] := whole[2];
    }
  }

  // ---- Whole groups ----

  lemma {:induction false} QuadsDrop(text: seq<byte>, n: nat)
    requires 4 * n + 4 <= |text|
    ensures Quads(text, n + 1) == Piece(text, 0, 3) + Quads(text[4..], n)
  {
    hide Piece;
    if n == 0 {
      assert Quads(text, 1) == Quads(text, 0) + Piece(text, 0, 3);
    } else {
      QuadsDrop(text, n - 1);
      assert Piece(text, 4 * n, 3) == Piece(text[4..], 4 * (n - 1), 3) by { PieceDrop(text, 4 * (n - 1), 3); }
      ConcatAssociates(Piece(text, 0, 3), Quads(text[4..], n - 1), Piece(text, 4 * n, 3));
    }
  }

  lemma PieceDrop(text: seq<byte>, at: nat, n: nat)
    requires 1 <= n <= 3 && at + 4 + n + 1 <= |text|
    ensures Piece(text, at + 4, n) == Piece(text[4..], at, n)
  {
  }

  /** For text of whole groups the output is the decoding, and as long as reported. */
  lemma {:induction false} OutputDecodes(text: seq<byte>)
    requires |text| >= 2 && |text| % 4 == 0
    ensures OutcomeOf(text) == Inside && Output(text) == Decode(text) && |Output(text)| == Reported(text)
    decreases |text|
  {
    ReportIsExact(text);
    WholeGroupsOf(text);
    InsideFits(text);
    if |text| == 4 {
      LastGroup(text);
    } else {
      OutputDecodes(text[4..]);
      MiddleGroup(text);
    }
  }

  lemma WholeGroupsOf(text: seq<byte>)
    requires |text| >= 2 && |text| % 4 == 0
    ensures WholeGroups(text) == |text| / 4 - if Pads(text) == 0 then 0 else 1
    ensures |text| > 4 ==> Pads(text[4..]) == Pads(text) && WholeGroups(text) == WholeGroups(text[4..]) + 1
  {
    RemainderCases(|text|, |text| / 4, 0, Pads(text));
    if |text| > 4 {
      var rest := text[4..];
      assert rest[|rest| - 1] == text[|text| - 1] && rest[|rest| - 2] == text[|text| - 2];
      RemainderCases(|rest|, |rest| / 4, 0, Pads(rest));
    }
  }

  lemma LastGroup(text: seq<byte>)
    requires |text| == 4 && OutcomeOf(text) == Inside && WholeGroups(text) == if Pads(text) == 0 then 1 else 0
    ensures Output(text) == Decode(text)
  {
    InsideFits(text);
    hide Unletter, OutcomeOf, Bytes3;
    NoQuads(text);
    if Pads(text) == 0 {
      OneMoreQuad(text, 0);
      assert [] + Piece(text, 0, 3) + [] == Piece(text, 0, 3);
    } else {
      FewerLetters(text);
      assert [] + Piece(text, 0, 3 - Pads(text)) == Piece(text, 0, 3 - Pads(text));
    }
  }

  /** The first bytes of a group do not depend on its last letters. */
  lemma FewerLetters(text: seq<byte>)
    requires |text| == 4 && Pads(text) > 0
    ensures Piece(text, 0, 3 - Pads(text))
         == GroupBytes(text)[..3 - Pads(text)]
  {
    hide Unletter;
  }

  lemma MiddleGroup(text: seq<byte>)
    requires |text| > 4 && |text| % 4 == 0 && OutcomeOf(text) == Inside && OutcomeOf(text[4..]) == Inside
    requires Output(text[4..]) == Decode(text[4..])
    ensures Output(text) == Decode(text)
  {
    hide *;
    OneMoreGroup(text);
    FrontGroups(text);
    OutputUnfolds(text);
    OutputUnfolds(text[4..]);
    FrontQuad(text, WholeGroups(text[4..]), Pads(text));
  }

  lemma OneMoreGroup(text: seq<byte>)
    requires |text| > 4 && |text| % 4 == 0
    ensures |text[4..]| % 4 == 0 && |text[4..]| >= 2
    ensures Pads(text[4..]) == Pads(text) <= 2 && WholeGroups(text) == WholeGroups(text[4..]) + 1
  {
    WholeGroupsOf(text);
  }

  lemma FrontQuad(text: seq<byte>, g: nat, pad: nat)
    requires pad <= 2 && 4 * g + 4 + (if pad == 0 then 0 else 4 - pad) <= |text|
    ensures Groups(text, g + 1, pad) == Piece(text, 0, 3) + Groups(text[4..], g, pad)
  {
    hide Quads, Piece;
    QuadsDrop(text, g);
    if pad > 0 { PieceDrop(text, 4 * g, 3 - pad); }
    ConcatAssociates(Piece(text, 0, 3), Quads(text[4..], g), if pad == 0 then [] else Piece(text[4..], 4 * g, 3 - pad));
  }

  lemma FrontGroups(text: seq<byte>)
    requires |text| > 4 && |text| % 4 == 0
    ensures Decode(text) == Piece(text, 0, 3) + Decode(text[4..])
  {
    hide Unletter, Bytes3;
  }

  lemma PadsFew(text: seq<byte>)
    requires |text| >= 2
    ensures Pads(text) <= 2
  {
  }

  /** What base64 writes, unbase64 reads back, for every input that is not empty. */
  method ThereAndBack(data: seq<byte>) returns (back: array?<byte>, flen: int)
    ensures data == [] ==> back == null && flen == 0
    ensures data != [] ==> back != null && back[..] == data && flen == |data|
  {
    RoundTrip(data);
    EncodeLength(data);
    hide *;
    var text, n := EncodeBase64(data);
    var letters := text[..n];
    var _, bin, m := DecodeBase64(letters);
    back, flen := bin, m;
    if data != [] {
      AtLeastFour(|data|);
      OutputDecodes(letters);
      ReportIsExact(letters);
      assert back[..] == back[..back.Length];
    } else {
      NotEnough(letters);
    }
  }

  lemma AtLeastFour(n: nat)
    requires n > 0
    ensures (n + 2) / 3 * 4 >= 4
  {
  }

  lemma NotEnough(text: seq<byte>)
    requires |text| == 0
    ensures OutcomeOf(text) == TooShort
  {
  }
}
