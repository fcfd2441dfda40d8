/** Answers that the standards print, and laws with nothing in them but numbers: what an encoder and its decoder could
    otherwise agree to get wrong together. */
module KnownAnswers {
  import opened Prelude
  import opened Bytes
  import Inflate
  import Base64
  import Cdrom
  import Tga
  import Utf

  // ---- Adler-32 ----

  /** Zeros count only in the second sum, which starts again after 65521 of them. */
  lemma {:induction false} AdlerOfZeros(n: nat)
    ensures Inflate.AdlerOf(seq(n, _ => 0)) == Inflate.Adler(1, n % 65521)
  {
    if n > 0 {
      AdlerOfZeros(n - 1);
      var zeros: seq<byte> := seq(n, _ => 0);
      assert zeros[..n - 1] == seq(n - 1, _ => 0);
      OneMore(n);
    }
  }

  lemma OneMore(n: nat)
    requires n > 0
    ensures ((n - 1) % 65521 + 1) % 65521 == n % 65521
  {
  }

  /** One byte counts in both sums; the second one comes first, and each with its high byte first. */
  lemma AdlerOfOne(b: byte)
    ensures Inflate.AdlerOf([b]) == Inflate.Adler(1 + b, 1 + b)
    ensures b < 255 ==> Inflate.AdlerBytes(Inflate.AdlerOf([b])) == [0, 1 + b, 0, 1 + b]
    ensures Inflate.AdlerBytes(Inflate.Adler(258, 772)) == [3, 4, 1, 2]
  {
    assert [b][..0] == [];
  }

  // ---- Bits ----

  /** Six is 110, read from the top or from the bottom. */
  lemma BitOrders()
    ensures MsbBits(6, 3) == [true, true, false] && LsbBits(6, 3) == [false, true, true]
    ensures MsbBits(6, 5) == [false, false, true, true, false] && LsbBits(6, 5) == [false, true, true, false, false]
  {
  }

  /** In a byte stream bytes come one after another; only within each the order differs. */
  lemma StreamOrders(a: byte, b: byte)
    ensures LsbStream([a, b]) == LsbBits(a, 8) + LsbBits(b, 8) && MsbStream([a, b]) == MsbBits(a, 8) + MsbBits(b, 8)
  {
    hide LsbBits, MsbBits;
    assert [a, b][1..] == [b] && [b][1..] == [];
    assert LsbStream([b]) == LsbBits(b, 8) + [] && MsbStream([b]) == MsbBits(b, 8) + [];
  }

  // ---- Base64 ----

  const CAPITALS := "ABCDEFGHIJKLMNOPQRSTUVWXYZ"
  const SMALLS := "abcdefghijklmnopqrstuvwxyz"
  const OTHERS := "0123456789+/"

  /** Table 1 of RFC 4648: capitals, small letters, digits, plus, slash. */
  lemma Alphabet(i: nat)
    requires i < 64
    ensures Base64.Letter(i) as char ==
      if i < 26 then CAPITALS[i] else if i < 52 then SMALLS[i - 26] else OTHERS[i - 52]
  {
    if i < 26 { Capital(i); } else if i < 52 { Small(i - 26); } else { Other(i - 52); }
  }

  lemma Capital(i: nat)
    requires i < 26
    ensures CAPITALS[i] == 'A' + i as char
  {
  }

  lemma Small(i: nat)
    requires i < 26
    ensures SMALLS[i] == 'a' + i as char
  {
  }

  lemma Other(i: nat)
    requires i < 12
    ensures OTHERS[i] == if i < 10 then '0' + i as char else if i == 10 then '+' else '/'
  {
  }

  /** What is not in the table is read as if it were an A. */
  lemma NotALetter(c: byte)
    requires !('A' as int <= c <= 'Z' as int) && !('a' as int <= c <= 'z' as int) && !('0' as int <= c <= '9' as int)
    requires c != '+' as int && c != '/' as int
    ensures Base64.Unletter(c) == 0 == Base64.Unletter('A' as int)
  {
  }

  /** "f", "fo" and "foo" of section 10 of RFC 4648: "Zg==", "Zm8=" and "Zm9v". */
  lemma FooVectors()
    ensures Base64.Encode([102]) == [90, 103, 61, 61]
    ensures Base64.Encode([102, 111]) == [90, 109, 56, 61]
    ensures Base64.Encode([102, 111, 111]) == [90, 109, 57, 118]
  {
    assert [102, 111, 111][3..] == [];
    assert Base64.Group(102, 0, 0)[..2] == [25, 32];
    assert Base64.Group(102, 111, 0)[..3] == [25, 38, 60];
    assert Base64.Group(102, 111, 111) == [25, 38, 61, 47];
    OneToFour(25, 32, 0, 0);
    OneToFour(25, 38, 60, 0);
    OneToFour(25, 38, 61, 47);
  }

  lemma OneToFour(a: Base64.sextet, b: Base64.sextet, c: Base64.sextet, d: Base64.sextet)
    ensures Base64.Letters([a, b]) == [Base64.Letter(a), Base64.Letter(b)]
    ensures Base64.Letters([a, b, c]) == [Base64.Letter(a), Base64.Letter(b), Base64.Letter(c)]
    ensures Base64.Letters([a, b, c, d]) == [Base64.Letter(a), Base64.Letter(b), Base64.Letter(c), Base64.Letter(d)]
  {
    hide Base64.Letter;
    var s1: seq<Base64.sextet>, s2: seq<Base64.sextet>, s3: seq<Base64.sextet> := [d], [c, d], [b, c, d];
    var s4: seq<Base64.sextet>, t2: seq<Base64.sextet>, t3: seq<Base64.sextet> := [a, b, c, d], [b, c], [a, b, c];
    var u1: seq<Base64.sextet>, u2: seq<Base64.sextet>, v: seq<Base64.sextet> := [b], [a, b], [c];
    assert s4[1..] == s3 && s3[1..] == s2 && s2[1..] == s1 && s1[1..] == [];
    assert t3[1..] == t2 && t2[1..] == v && v[1..] == [] && u2[1..] == u1 && u1[1..] == [];
    assert Base64.Letters(s1) == [Base64.Letter(d)] && Base64.Letters(s2) == [Base64.Letter(c), Base64.Letter(d)];
    assert Base64.Letters(v) == [Base64.Letter(c)] && Base64.Letters(u1) == [Base64.Letter(b)];
    assert Base64.Letters(t2) == [Base64.Letter(b), Base64.Letter(c)];
    assert Base64.Letters(s3) == [Base64.Letter(b), Base64.Letter(c), Base64.Letter(d)];
  }

  // ---- UTF ----

  /** Section 7 of RFC 3629 and section 5 of RFC 2781: a letter, the euro sign, and a sign of cuneiform. */
  lemma UtfExamples()
    ensures Utf.Unit8(0x41) == [0x41] && Utf.Unit8(0x2262) == [0xE2, 0x89, 0xA2]
    ensures Utf.Unit8(0x0391) == [0xCE, 0x91] && Utf.Unit8(0x233B4) == [0xF0, 0xA3, 0x8E, 0xB4]
    ensures Utf.Unit16(0x20AC) == [0x20AC] && Utf.Unit16(0x12345) == [0xD808, 0xDF45]
  {
  }

  // ---- CD addresses ----

  /** A minute has 60 seconds, and a second 75 frames. */
  lemma Addresses()
    ensures Cdrom.MsfToLba(Cdrom.Msf(0, 2, 0)) == 150 && Cdrom.MsfToLba(Cdrom.Msf(1, 0, 1)) == 4501
    ensures Cdrom.LbaToMsf(150) == Cdrom.Msf(0, 2, 0) && Cdrom.LbaToMsf(4501) == Cdrom.Msf(1, 0, 1)
  {
  }

  // ---- TGA ----

  /** The 18 bytes in front of an image: type 10 for colour and 11 for grey, sides with the low byte first, bits a pixel,
      bits of alpha. */
  lemma TgaHeader(x: nat, y: nat, comp: nat)
    requires 1 <= comp <= 4 && x < 65536 && y < 65536
    ensures var h := Tga.Header(x, y, comp);
      |h| == 18 && h[..2] == [0, 0] && h[2] == (if comp <= 2 then 11 else 10) && (forall i :: 3 <= i < 12 ==> h[i] == 0)
      && h[12] as int + 256 * h[13] as int == x && h[14] as int + 256 * h[15] as int == y
      && h[16] == 8 * comp && h[17] == if comp % 2 == 0 then 8 else 0
  {
  }
}
