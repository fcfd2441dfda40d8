/** The four code tables of the JPEG writer, and the lists that describe them in the file header. */
module JpegTables {
  import opened JpegEntropy

  datatype Standard = LumaDc | ChromaDc | LumaAc | ChromaAc {
    /** How many codes have this length: the list BITS of the file header. */
    function Count(length: nat): nat {
      match this
      case LumaDc => LumaDcCount(length)
      case ChromaDc => ChromaDcCount(length)
      case LumaAc => LumaAcCount(length)
      case ChromaAc => ChromaAcCount(length)
    }

    /** The first code of a length, and its place in the list of symbols (section F.2.2.3 of ITU-T T.81). */
    function MinCode(length: nat): nat {
      match this
      case LumaDc => LumaDcMinCode(length)
      case ChromaDc => ChromaDcMinCode(length)
      case LumaAc => LumaAcMinCode(length)
      case ChromaAc => ChromaAcMinCode(length)
    }

    function ValPtr(length: nat): nat {
      match this
      case LumaDc => LumaDcValPtr(length)
      case ChromaDc => ChromaDcValPtr(length)
      case LumaAc => LumaAcValPtr(length)
      case ChromaAc => ChromaAcValPtr(length)
    }

    /** The symbols in the order of their codes: the list HUFFVAL of the file header. */
    function Value(k: nat): nat {
      match this
      case LumaDc => LumaDcValue(k)
      case ChromaDc => ChromaDcValue(k)
      case LumaAc => LumaAcValue(k)
      case ChromaAc => ChromaAcValue(k)
    }

    /** The code the writer uses for a symbol; no bits when it has none. */
    function CodeOf(s: nat): Code {
      match this
      case LumaDc => LumaDcCode(s)
      case ChromaDc => ChromaDcCode(s)
      case LumaAc => LumaAcCode(s)
      case ChromaAc => ChromaAcCode(s)
    }

    predicate Dc() { LumaDc? || ChromaDc? }

    /** The symbols of a baseline scan. */
    predicate Needs(s: nat) {
      if Dc() then s <= 11 else s == 0 || s == 0xF0 || 1 <= s % 16 <= 10
    }
  }

  /** A symbol has a code exactly when it is needed, and then it stands in the list where a decoder looks for the code. */
  predicate Ok(t: Standard, s: nat) {
    var c := t.CodeOf(s);
    && (c.bits > 0 <==> t.Needs(s))
    && (c.bits == 0 ==> c.value == 0)
    && (c.bits > 0 ==> c.bits <= 16 && t.MinCode(c.bits) <= c.value < t.MinCode(c.bits) + t.Count(c.bits)
                       && t.Value(t.ValPtr(c.bits) + c.value - t.MinCode(c.bits)) == s)
  }

  lemma At(t: Standard, s: nat, n: nat, k: nat)
    requires t.Needs(s) && 1 <= n <= 16 && t.ValPtr(n) <= k < t.ValPtr(n) + t.Count(n)
    requires t.CodeOf(s) == Code(t.MinCode(n) + k - t.ValPtr(n), n) && t.Value(k) == s
    ensures Ok(t, s)
  {
    hide Standard.Count, Standard.MinCode, Standard.ValPtr, Standard.Value, Standard.CodeOf, Standard.Needs;
  }

  lemma Unused(t: Standard, s: nat)
    requires !t.Needs(s) && t.CodeOf(s) == Code(0, 0)
    ensures Ok(t, s)
  {
  }

  /** The symbols of sizes 1 to 10 after a run of `r` zeros. */
  predicate RowOk(t: Standard, r: nat) {
    && Ok(t, 16 * r + 1) && Ok(t, 16 * r + 2) && Ok(t, 16 * r + 3) && Ok(t, 16 * r + 4) && Ok(t, 16 * r + 5)
    && Ok(t, 16 * r + 6) && Ok(t, 16 * r + 7) && Ok(t, 16 * r + 8) && Ok(t, 16 * r + 9) && Ok(t, 16 * r + 10)
  }

  function LumaDcCount(length: nat): nat {
    match length
    case 2 => 1 case 3 => 5 case 4 => 1 case 5 => 1 case 6 => 1 case 7 => 1 case 8 => 1 case 9 => 1 case _ => 0
  }

  function LumaDcMinCode(length: nat): nat {
    match length
    case 3 => 2 case 4 => 14 case 5 => 30 case 6 => 62 case 7 => 126 case 8 => 254 case 9 => 510 case 10 => 1022
    case 11 => 2044 case 12 => 4088 case 13 => 8176 case 14 => 16352 case 15 => 32704 case 16 => 65408 case _ => 0
  }

  function LumaDcValPtr(length: nat): nat {
    match length
    case 3 => 1 case 4 => 6 case 5 => 7 case 6 => 8 case 7 => 9 case 8 => 10 case 9 => 11 case 10 => 12 case 11 => 12
    case 12 => 12 case 13 => 12 case 14 => 12 case 15 => 12 case 16 => 12 case _ => 0
  }

  function LumaDcValue(k: nat): nat {
    match k
    case 0 => 0 case 1 => 1 case 2 => 2 case 3 => 3 case 4 => 4 case 5 => 5 case 6 => 6 case 7 => 7
    case 8 => 8 case 9 => 9 case 10 => 10 case 11 => 11 case _ => 0
  }

  function LumaDcCode(s: nat): Code {
    match s
    case 0 => Code(0, 2) case 1 => Code(2, 3) case 2 => Code(3, 3) case 3 => Code(4, 3) case 4 => Code(5, 3)
    case 5 => Code(6, 3) case 6 => Code(14, 4) case 7 => Code(30, 5) case 8 => Code(62, 6) case 9 => Code(126, 7)
    case 10 => Code(254, 8) case 11 => Code(510, 9) case _ => Code(0, 0)
  }

  function ChromaDcCount(length: nat): nat {
    match length
    case 2 => 3 case 3 => 1 case 4 => 1 case 5 => 1 case 6 => 1 case 7 => 1 case 8 => 1 case 9 => 1 case 10 => 1
    case 11 => 1 case _ => 0
  }

  function ChromaDcMinCode(length: nat): nat {
    match length
    case 3 => 6 case 4 => 14 case 5 => 30 case 6 => 62 case 7 => 126 case 8 => 254 case 9 => 510 case 10 => 1022
    case 11 => 2046 case 12 => 4094 case 13 => 8188 case 14 => 16376 case 15 => 32752 case 16 => 65504 case _ => 0
  }

  function ChromaDcValPtr(length: nat): nat {
    match length
    case 3 => 3 case 4 => 4 case 5 => 5 case 6 => 6 case 7 => 7 case 8 => 8 case 9 => 9 case 10 => 10 case 11 => 11
    case 12 => 12 case 13 => 12 case 14 => 12 case 15 => 12 case 16 => 12 case _ => 0
  }

  function ChromaDcValue(k: nat): nat {
    match k
    case 0 => 0 case 1 => 1 case 2 => 2 case 3 => 3 case 4 => 4 case 5 => 5 case 6 => 6 case 7 => 7
    case 8 => 8 case 9 => 9 case 10 => 10 case 11 => 11 case _ => 0
  }

  function ChromaDcCode(s: nat): Code {
    match s
    case 0 => Code(0, 2) case 1 => Code(1, 2) case 2 => Code(2, 2) case 3 => Code(6, 3) case 4 => Code(14, 4)
    case 5 => Code(30, 5) case 6 => Code(62, 6) case 7 => Code(126, 7) case 8 => Code(254, 8) case 9 => Code(510, 9)
    case 10 => Code(1022, 10) case 11 => Code(2046, 11) case _ => Code(0, 0)
  }

  function LumaAcCount(length: nat): nat {
    match length
    case 2 => 2 case 3 => 1 case 4 => 3 case 5 => 3 case 6 => 2 case 7 => 4 case 8 => 3 case 9 => 5 case 10 => 5
    case 11 => 4 case 12 => 4 case 15 => 1 case 16 => 125 case _ => 0
  }

  function LumaAcMinCode(length: nat): nat {
    match length
    case 3 => 4 case 4 => 10 case 5 => 26 case 6 => 58 case 7 => 120 case 8 => 248 case 9 => 502 case 10 => 1014
    case 11 => 2038 case 12 => 4084 case 13 => 8176 case 14 => 16352 case 15 => 32704 case 16 => 65410 case _ => 0
  }

  function LumaAcValPtr(length: nat): nat {
    match length
    case 3 => 2 case 4 => 3 case 5 => 6 case 6 => 9 case 7 => 11 case 8 => 15 case 9 => 18 case 10 => 23 case 11 => 28
    case 12 => 32 case 13 => 36 case 14 => 36 case 15 => 36 case 16 => 37 case _ => 0
  }

  function LumaAcValue(k: nat): nat {
    match k / 24
    case 0 => LumaAcValue0(k % 24) case 1 => LumaAcValue1(k % 24) case 2 => LumaAcValue2(k % 24)
    case 3 => LumaAcValue3(k % 24) case 4 => LumaAcValue4(k % 24) case 5 => LumaAcValue5(k % 24)
    case 6 => LumaAcValue6(k % 24) case _ => 0
  }

  function LumaAcValue0(k: nat): nat {
    match k
    case 0 => 0x01 case 1 => 0x02 case 2 => 0x03 case 3 => 0x00 case 4 => 0x04 case 5 => 0x11 case 6 => 0x05 case 7 => 0x12
    case 8 => 0x21 case 9 => 0x31 case 10 => 0x41 case 11 => 0x06 case 12 => 0x13 case 13 => 0x51 case 14 => 0x61 case 15 => 0x07
    case 16 => 0x22 case 17 => 0x71 case 18 => 0x14 case 19 => 0x32 case 20 => 0x81 case 21 => 0x91 case 22 => 0xA1 case 23 => 0x08
    case _ => 0
  }

  function LumaAcValue1(k: nat): nat {
    match k
    case 0 => 0x23 case 1 => 0x42 case 2 => 0xB1 case 3 => 0xC1 case 4 => 0x15 case 5 => 0x52 case 6 => 0xD1 case 7 => 0xF0
    case 8 => 0x24 case 9 => 0x33 case 10 => 0x62 case 11 => 0x72 case 12 => 0x82 case 13 => 0x09 case 14 => 0x0A case 15 => 0x16
    case 16 => 0x17 case 17 => 0x18 case 18 => 0x19 case 19 => 0x1A case 20 => 0x25 case 21 => 0x26 case 22 => 0x27 case 23 => 0x28
    case _ => 0
  }

  function LumaAcValue2(k: nat): nat {
    match k
    case 0 => 0x29 case 1 => 0x2A case 2 => 0x34 case 3 => 0x35 case 4 => 0x36 case 5 => 0x37 case 6 => 0x38 case 7 => 0x39
    case 8 => 0x3A case 9 => 0x43 case 10 => 0x44 case 11 => 0x45 case 12 => 0x46 case 13 => 0x47 case 14 => 0x48 case 15 => 0x49
    case 16 => 0x4A case 17 => 0x53 case 18 => 0x54 case 19 => 0x55 case 20 => 0x56 case 21 => 0x57 case 22 => 0x58 case 23 => 0x59
    case _ => 0
  }

  function LumaAcValue3(k: nat): nat {
    match k
    case 0 => 0x5A case 1 => 0x63 case 2 => 0x64 case 3 => 0x65 case 4 => 0x66 case 5 => 0x67 case 6 => 0x68 case 7 => 0x69
    case 8 => 0x6A case 9 => 0x73 case 10 => 0x74 case 11 => 0x75 case 12 => 0x76 case 13 => 0x77 case 14 => 0x78 case 15 => 0x79
    case 16 => 0x7A case 17 => 0x83 case 18 => 0x84 case 19 => 0x85 case 20 => 0x86 case 21 => 0x87 case 22 => 0x88 case 23 => 0x89
    case _ => 0
  }

  function LumaAcValue4(k: nat): nat {
    match k
    case 0 => 0x8A case 1 => 0x92 case 2 => 0x93 case 3 => 0x94 case 4 => 0x95 case 5 => 0x96 case 6 => 0x97 case 7 => 0x98
    case 8 => 0x99 case 9 => 0x9A case 10 => 0xA2 case 11 => 0xA3 case 12 => 0xA4 case 13 => 0xA5 case 14 => 0xA6 case 15 => 0xA7
    case 16 => 0xA8 case 17 => 0xA9 case 18 => 0xAA case 19 => 0xB2 case 20 => 0xB3 case 21 => 0xB4 case 22 => 0xB5 case 23 => 0xB6
    case _ => 0
  }

  function LumaAcValue5(k: nat): nat {
    match k
    case 0 => 0xB7 case 1 => 0xB8 case 2 => 0xB9 case 3 => 0xBA case 4 => 0xC2 case 5 => 0xC3 case 6 => 0xC4 case 7 => 0xC5
    case 8 => 0xC6 case 9 => 0xC7 case 10 => 0xC8 case 11 => 0xC9 case 12 => 0xCA case 13 => 0xD2 case 14 => 0xD3 case 15 => 0xD4
    case 16 => 0xD5 case 17 => 0xD6 case 18 => 0xD7 case 19 => 0xD8 case 20 => 0xD9 case 21 => 0xDA case 22 => 0xE1 case 23 => 0xE2
    case _ => 0
  }

  function LumaAcValue6(k: nat): nat {
    match k
    case 0 => 0xE3 case 1 => 0xE4 case 2 => 0xE5 case 3 => 0xE6 case 4 => 0xE7 case 5 => 0xE8 case 6 => 0xE9 case 7 => 0xEA
    case 8 => 0xF1 case 9 => 0xF2 case 10 => 0xF3 case 11 => 0xF4 case 12 => 0xF5 case 13 => 0xF6 case 14 => 0xF7 case 15 => 0xF8
    case 16 => 0xF9 case 17 => 0xFA case _ => 0
  }

  function LumaAcCode(s: nat): Code {
    match s / 16
    case 0 => LumaAcCode0(s % 16) case 1 => LumaAcCode1(s % 16) case 2 => LumaAcCode2(s % 16)
    case 3 => LumaAcCode3(s % 16) case 4 => LumaAcCode4(s % 16) case 5 => LumaAcCode5(s % 16)
    case 6 => LumaAcCode6(s % 16) case 7 => LumaAcCode7(s % 16) case 8 => LumaAcCode8(s % 16)
    case 9 => LumaAcCode9(s % 16) case 10 => LumaAcCode10(s % 16) case 11 => LumaAcCode11(s % 16)
    case 12 => LumaAcCode12(s % 16) case 13 => LumaAcCode13(s % 16) case 14 => LumaAcCode14(s % 16)
    case 15 => LumaAcCode15(s % 16) case _ => Code(0, 0)
  }

  function LumaAcCode0(size: nat): Code {
    match size
    case 0 => Code(10, 4) case 1 => Code(0, 2) case 2 => Code(1, 2) case 3 => Code(4, 3) case 4 => Code(11, 4)
    case 5 => Code(26, 5) case 6 => Code(120, 7) case 7 => Code(248, 8) case 8 => Code(1014, 10) case 9 => Code(65410, 16)
    case 10 => Code(65411, 16) case _ => Code(0, 0)
  }

  function LumaAcCode1(size: nat): Code {
    match size
    case 1 => Code(12, 4) case 2 => Code(27, 5) case 3 => Code(121, 7) case 4 => Code(502, 9) case 5 => Code(2038, 11)
    case 6 => Code(65412, 16) case 7 => Code(65413, 16) case 8 => Code(65414, 16) case 9 => Code(65415, 16) case 10 => Code(65416, 16)
    case _ => Code(0, 0)
  }

  function LumaAcCode2(size: nat): Code {
    match size
    case 1 => Code(28, 5) case 2 => Code(249, 8) case 3 => Code(1015, 10) case 4 => Code(4084, 12) case 5 => Code(65417, 16)
    case 6 => Code(65418, 16) case 7 => Code(65419, 16) case 8 => Code(65420, 16) case 9 => Code(65421, 16) case 10 => Code(65422, 16)
    case _ => Code(0, 0)
  }

  function LumaAcCode3(size: nat): Code {
    match size
    case 1 => Code(58, 6) case 2 => Code(503, 9) case 3 => Code(4085, 12) case 4 => Code(65423, 16) case 5 => Code(65424, 16)
    case 6 => Code(65425, 16) case 7 => Code(65426, 16) case 8 => Code(65427, 16) case 9 => Code(65428, 16) case 10 => Code(65429, 16)
    case _ => Code(0, 0)
  }

  function LumaAcCode4(size: nat): Code {
    match size
    case 1 => Code(59, 6) case 2 => Code(1016, 10) case 3 => Code(65430, 16) case 4 => Code(65431, 16) case 5 => Code(65432, 16)
    case 6 => Code(65433, 16) case 7 => Code(65434, 16) case 8 => Code(65435, 16) case 9 => Code(65436, 16) case 10 => Code(65437, 16)
    case _ => Code(0, 0)
  }

  function LumaAcCode5(size: nat): Code {
    match size
    case 1 => Code(122, 7) case 2 => Code(2039, 11) case 3 => Code(65438, 16) case 4 => Code(65439, 16) case 5 => Code(65440, 16)
    case 6 => Code(65441, 16) case 7 => Code(65442, 16) case 8 => Code(65443, 16) case 9 => Code(65444, 16) case 10 => Code(65445, 16)
    case _ => Code(0, 0)
  }

  function LumaAcCode6(size: nat): Code {
    match size
    case 1 => Code(123, 7) case 2 => Code(4086, 12) case 3 => Code(65446, 16) case 4 => Code(65447, 16) case 5 => Code(65448, 16)
    case 6 => Code(65449, 16) case 7 => Code(65450, 16) case 8 => Code(65451, 16) case 9 => Code(65452, 16) case 10 => Code(65453, 16)
    case _ => Code(0, 0)
  }

  function LumaAcCode7(size: nat): Code {
    match size
    case 1 => Code(250, 8) case 2 => Code(4087, 12) case 3 => Code(65454, 16) case 4 => Code(65455, 16) case 5 => Code(65456, 16)
    case 6 => Code(65457, 16) case 7 => Code(65458, 16) case 8 => Code(65459, 16) case 9 => Code(65460, 16) case 10 => Code(65461, 16)
    case _ => Code(0, 0)
  }

  function LumaAcCode8(size: nat): Code {
    match size
    case 1 => Code(504, 9) case 2 => Code(32704, 15) case 3 => Code(65462, 16) case 4 => Code(65463, 16) case 5 => Code(65464, 16)
    case 6 => Code(65465, 16) case 7 => Code(65466, 16) case 8 => Code(65467, 16) case 9 => Code(65468, 16) case 10 => Code(65469, 16)
    case _ => Code(0, 0)
  }

  function LumaAcCode9(size: nat): Code {
    match size
    case 1 => Code(505, 9) case 2 => Code(65470, 16) case 3 => Code(65471, 16) case 4 => Code(65472, 16) case 5 => Code(65473, 16)
    case 6 => Code(65474, 16) case 7 => Code(65475, 16) case 8 => Code(65476, 16) case 9 => Code(65477, 16) case 10 => Code(65478, 16)
    case _ => Code(0, 0)
  }

  function LumaAcCode10(size: nat): Code {
    match size
    case 1 => Code(506, 9) case 2 => Code(65479, 16) case 3 => Code(65480, 16) case 4 => Code(65481, 16) case 5 => Code(65482, 16)
    case 6 => Code(65483, 16) case 7 => Code(65484, 16) case 8 => Code(65485, 16) case 9 => Code(65486, 16) case 10 => Code(65487, 16)
    case _ => Code(0, 0)
  }

  function LumaAcCode11(size: nat): Code {
    match size
    case 1 => Code(1017, 10) case 2 => Code(65488, 16) case 3 => Code(65489, 16) case 4 => Code(65490, 16) case 5 => Code(65491, 16)
    case 6 => Code(65492, 16) case 7 => Code(65493, 16) case 8 => Code(65494, 16) case 9 => Code(65495, 16) case 10 => Code(65496, 16)
    case _ => Code(0, 0)
  }

  function LumaAcCode12(size: nat): Code {
    match size
    case 1 => Code(1018, 10) case 2 => Code(65497, 16) case 3 => Code(65498, 16) case 4 => Code(65499, 16) case 5 => Code(65500, 16)
    case 6 => Code(65501, 16) case 7 => Code(65502, 16) case 8 => Code(65503, 16) case 9 => Code(65504, 16) case 10 => Code(65505, 16)
    case _ => Code(0, 0)
  }

  function LumaAcCode13(size: nat): Code {
    match size
    case 1 => Code(2040, 11) case 2 => Code(65506, 16) case 3 => Code(65507, 16) case 4 => Code(65508, 16) case 5 => Code(65509, 16)
    case 6 => Code(65510, 16) case 7 => Code(65511, 16) case 8 => Code(65512, 16) case 9 => Code(65513, 16) case 10 => Code(65514, 16)
    case _ => Code(0, 0)
  }

  function LumaAcCode14(size: nat): Code {
    match size
    case 1 => Code(65515, 16) case 2 => Code(65516, 16) case 3 => Code(65517, 16) case 4 => Code(65518, 16) case 5 => Code(65519, 16)
    case 6 => Code(65520, 16) case 7 => Code(65521, 16) case 8 => Code(65522, 16) case 9 => Code(65523, 16) case 10 => Code(65524, 16)
    case _ => Code(0, 0)
  }

  function LumaAcCode15(size: nat): Code {
    match size
    case 0 => Code(2041, 11) case 1 => Code(65525, 16) case 2 => Code(65526, 16) case 3 => Code(65527, 16) case 4 => Code(65528, 16)
    case 5 => Code(65529, 16) case 6 => Code(65530, 16) case 7 => Code(65531, 16) case 8 => Code(65532, 16) case 9 => Code(65533, 16)
    case 10 => Code(65534, 16) case _ => Code(0, 0)
  }

  function ChromaAcCount(length: nat): nat {
    match length
    case 2 => 2 case 3 => 1 case 4 => 2 case 5 => 4 case 6 => 4 case 7 => 3 case 8 => 4 case 9 => 7 case 10 => 5
    case 11 => 4 case 12 => 4 case 14 => 1 case 15 => 2 case 16 => 119 case _ => 0
  }

  function ChromaAcMinCode(length: nat): nat {
    match length
    case 3 => 4 case 4 => 10 case 5 => 24 case 6 => 56 case 7 => 120 case 8 => 246 case 9 => 500 case 10 => 1014
    case 11 => 2038 case 12 => 4084 case 13 => 8176 case 14 => 16352 case 15 => 32706 case 16 => 65416 case _ => 0
  }

  function ChromaAcValPtr(length: nat): nat {
    match length
    case 3 => 2 case 4 => 3 case 5 => 5 case 6 => 9 case 7 => 13 case 8 => 16 case 9 => 20 case 10 => 27 case 11 => 32
    case 12 => 36 case 13 => 40 case 14 => 40 case 15 => 41 case 16 => 43 case _ => 0
  }

  function ChromaAcValue(k: nat): nat {
    match k / 24
    case 0 => ChromaAcValue0(k % 24) case 1 => ChromaAcValue1(k % 24) case 2 => ChromaAcValue2(k % 24)
    case 3 => ChromaAcValue3(k % 24) case 4 => ChromaAcValue4(k % 24) case 5 => ChromaAcValue5(k % 24)
    case 6 => ChromaAcValue6(k % 24) case _ => 0
  }

  function ChromaAcValue0(k: nat): nat {
    match k
    case 0 => 0x00 case 1 => 0x01 case 2 => 0x02 case 3 => 0x03 case 4 => 0x11 case 5 => 0x04 case 6 => 0x05 case 7 => 0x21
    case 8 => 0x31 case 9 => 0x06 case 10 => 0x12 case 11 => 0x41 case 12 => 0x51 case 13 => 0x07 case 14 => 0x61 case 15 => 0x71
    case 16 => 0x13 case 17 => 0x22 case 18 => 0x32 case 19 => 0x81 case 20 => 0x08 case 21 => 0x14 case 22 => 0x42 case 23 => 0x91
    case _ => 0
  }

  function ChromaAcValue1(k: nat): nat {
    match k
    case 0 => 0xA1 case 1 => 0xB1 case 2 => 0xC1 case 3 => 0x09 case 4 => 0x23 case 5 => 0x33 case 6 => 0x52 case 7 => 0xF0
    case 8 => 0x15 case 9 => 0x62 case 10 => 0x72 case 11 => 0xD1 case 12 => 0x0A case 13 => 0x16 case 14 => 0x24 case 15 => 0x34
    case 16 => 0xE1 case 17 => 0x25 case 18 => 0xF1 case 19 => 0x17 case 20 => 0x18 case 21 => 0x19 case 22 => 0x1A case 23 => 0x26
    case _ => 0
  }

  function ChromaAcValue2(k: nat): nat {
    match k
    case 0 => 0x27 case 1 => 0x28 case 2 => 0x29 case 3 => 0x2A case 4 => 0x35 case 5 => 0x36 case 6 => 0x37 case 7 => 0x38
    case 8 => 0x39 case 9 => 0x3A case 10 => 0x43 case 11 => 0x44 case 12 => 0x45 case 13 => 0x46 case 14 => 0x47 case 15 => 0x48
    case 16 => 0x49 case 17 => 0x4A case 18 => 0x53 case 19 => 0x54 case 20 => 0x55 case 21 => 0x56 case 22 => 0x57 case 23 => 0x58
    case _ => 0
  }

  function ChromaAcValue3(k: nat): nat {
    match k
    case 0 => 0x59 case 1 => 0x5A case 2 => 0x63 case 3 => 0x64 case 4 => 0x65 case 5 => 0x66 case 6 => 0x67 case 7 => 0x68
    case 8 => 0x69 case 9 => 0x6A case 10 => 0x73 case 11 => 0x74 case 12 => 0x75 case 13 => 0x76 case 14 => 0x77 case 15 => 0x78
    case 16 => 0x79 case 17 => 0x7A case 18 => 0x82 case 19 => 0x83 case 20 => 0x84 case 21 => 0x85 case 22 => 0x86 case 23 => 0x87
    case _ => 0
  }

  function ChromaAcValue4(k: nat): nat {
    match k
    case 0 => 0x88 case 1 => 0x89 case 2 => 0x8A case 3 => 0x92 case 4 => 0x93 case 5 => 0x94 case 6 => 0x95 case 7 => 0x96
    case 8 => 0x97 case 9 => 0x98 case 10 => 0x99 case 11 => 0x9A case 12 => 0xA2 case 13 => 0xA3 case 14 => 0xA4 case 15 => 0xA5
    case 16 => 0xA6 case 17 => 0xA7 case 18 => 0xA8 case 19 => 0xA9 case 20 => 0xAA case 21 => 0xB2 case 22 => 0xB3 case 23 => 0xB4
    case _ => 0
  }

  function ChromaAcValue5(k: nat): nat {
    match k
    case 0 => 0xB5 case 1 => 0xB6 case 2 => 0xB7 case 3 => 0xB8 case 4 => 0xB9 case 5 => 0xBA case 6 => 0xC2 case 7 => 0xC3
    case 8 => 0xC4 case 9 => 0xC5 case 10 => 0xC6 case 11 => 0xC7 case 12 => 0xC8 case 13 => 0xC9 case 14 => 0xCA case 15 => 0xD2
    case 16 => 0xD3 case 17 => 0xD4 case 18 => 0xD5 case 19 => 0xD6 case 20 => 0xD7 case 21 => 0xD8 case 22 => 0xD9 case 23 => 0xDA
    case _ => 0
  }

  function ChromaAcValue6(k: nat): nat {
    match k
    case 0 => 0xE2 case 1 => 0xE3 case 2 => 0xE4 case 3 => 0xE5 case 4 => 0xE6 case 5 => 0xE7 case 6 => 0xE8 case 7 => 0xE9
    case 8 => 0xEA case 9 => 0xF2 case 10 => 0xF3 case 11 => 0xF4 case 12 => 0xF5 case 13 => 0xF6 case 14 => 0xF7 case 15 => 0xF8
    case 16 => 0xF9 case 17 => 0xFA case _ => 0
  }

  function ChromaAcCode(s: nat): Code {
    match s / 16
    case 0 => ChromaAcCode0(s % 16) case 1 => ChromaAcCode1(s % 16) case 2 => ChromaAcCode2(s % 16)
    case 3 => ChromaAcCode3(s % 16) case 4 => ChromaAcCode4(s % 16) case 5 => ChromaAcCode5(s % 16)
    case 6 => ChromaAcCode6(s % 16) case 7 => ChromaAcCode7(s % 16) case 8 => ChromaAcCode8(s % 16)
    case 9 => ChromaAcCode9(s % 16) case 10 => ChromaAcCode10(s % 16) case 11 => ChromaAcCode11(s % 16)
    case 12 => ChromaAcCode12(s % 16) case 13 => ChromaAcCode13(s % 16) case 14 => ChromaAcCode14(s % 16)
    case 15 => ChromaAcCode15(s % 16) case _ => Code(0, 0)
  }

  function ChromaAcCode0(size: nat): Code {
    match size
    case 0 => Code(0, 2) case 1 => Code(1, 2) case 2 => Code(4, 3) case 3 => Code(10, 4) case 4 => Code(24, 5)
    case 5 => Code(25, 5) case 6 => Code(56, 6) case 7 => Code(120, 7) case 8 => Code(500, 9) case 9 => Code(1014, 10)
    case 10 => Code(4084, 12) case _ => Code(0, 0)
  }

  function ChromaAcCode1(size: nat): Code {
    match size
    case 1 => Code(11, 4) case 2 => Code(57, 6) case 3 => Code(246, 8) case 4 => Code(501, 9) case 5 => Code(2038, 11)
    case 6 => Code(4085, 12) case 7 => Code(65416, 16) case 8 => Code(65417, 16) case 9 => Code(65418, 16) case 10 => Code(65419, 16)
    case _ => Code(0, 0)
  }

  function ChromaAcCode2(size: nat): Code {
    match size
    case 1 => Code(26, 5) case 2 => Code(247, 8) case 3 => Code(1015, 10) case 4 => Code(4086, 12) case 5 => Code(32706, 15)
    case 6 => Code(65420, 16) case 7 => Code(65421, 16) case 8 => Code(65422, 16) case 9 => Code(65423, 16) case 10 => Code(65424, 16)
    case _ => Code(0, 0)
  }

  function ChromaAcCode3(size: nat): Code {
    match size
    case 1 => Code(27, 5) case 2 => Code(248, 8) case 3 => Code(1016, 10) case 4 => Code(4087, 12) case 5 => Code(65425, 16)
    case 6 => Code(65426, 16) case 7 => Code(65427, 16) case 8 => Code(65428, 16) case 9 => Code(65429, 16) case 10 => Code(65430, 16)
    case _ => Code(0, 0)
  }

  function ChromaAcCode4(size: nat): Code {
    match size
    case 1 => Code(58, 6) case 2 => Code(502, 9) case 3 => Code(65431, 16) case 4 => Code(65432, 16) case 5 => Code(65433, 16)
    case 6 => Code(65434, 16) case 7 => Code(65435, 16) case 8 => Code(65436, 16) case 9 => Code(65437, 16) case 10 => Code(65438, 16)
    case _ => Code(0, 0)
  }

  function ChromaAcCode5(size: nat): Code {
    match size
    case 1 => Code(59, 6) case 2 => Code(1017, 10) case 3 => Code(65439, 16) case 4 => Code(65440, 16) case 5 => Code(65441, 16)
    case 6 => Code(65442, 16) case 7 => Code(65443, 16) case 8 => Code(65444, 16) case 9 => Code(65445, 16) case 10 => Code(65446, 16)
    case _ => Code(0, 0)
  }

  function ChromaAcCode6(size: nat): Code {
    match size
    case 1 => Code(121, 7) case 2 => Code(2039, 11) case 3 => Code(65447, 16) case 4 => Code(65448, 16) case 5 => Code(65449, 16)
    case 6 => Code(65450, 16) case 7 => Code(65451, 16) case 8 => Code(65452, 16) case 9 => Code(65453, 16) case 10 => Code(65454, 16)
    case _ => Code(0, 0)
  }

  function ChromaAcCode7(size: nat): Code {
    match size
    case 1 => Code(122, 7) case 2 => Code(2040, 11) case 3 => Code(65455, 16) case 4 => Code(65456, 16) case 5 => Code(65457, 16)
    case 6 => Code(65458, 16) case 7 => Code(65459, 16) case 8 => Code(65460, 16) case 9 => Code(65461, 16) case 10 => Code(65462, 16)
    case _ => Code(0, 0)
  }

  function ChromaAcCode8(size: nat): Code {
    match size
    case 1 => Code(249, 8) case 2 => Code(65463, 16) case 3 => Code(65464, 16) case 4 => Code(65465, 16) case 5 => Code(65466, 16)
    case 6 => Code(65467, 16) case 7 => Code(65468, 16) case 8 => Code(65469, 16) case 9 => Code(65470, 16) case 10 => Code(65471, 16)
    case _ => Code(0, 0)
  }

  function ChromaAcCode9(size: nat): Code {
    match size
    case 1 => Code(503, 9) case 2 => Code(65472, 16) case 3 => Code(65473, 16) case 4 => Code(65474, 16) case 5 => Code(65475, 16)
    case 6 => Code(65476, 16) case 7 => Code(65477, 16) case 8 => Code(65478, 16) case 9 => Code(65479, 16) case 10 => Code(65480, 16)
    case _ => Code(0, 0)
  }

  function ChromaAcCode10(size: nat): Code {
    match size
    case 1 => Code(504, 9) case 2 => Code(65481, 16) case 3 => Code(65482, 16) case 4 => Code(65483, 16) case 5 => Code(65484, 16)
    case 6 => Code(65485, 16) case 7 => Code(65486, 16) case 8 => Code(65487, 16) case 9 => Code(65488, 16) case 10 => Code(65489, 16)
    case _ => Code(0, 0)
  }

  function ChromaAcCode11(size: nat): Code {
    match size
    case 1 => Code(505, 9) case 2 => Code(65490, 16) case 3 => Code(65491, 16) case 4 => Code(65492, 16) case 5 => Code(65493, 16)
    case 6 => Code(65494, 16) case 7 => Code(65495, 16) case 8 => Code(65496, 16) case 9 => Code(65497, 16) case 10 => Code(65498, 16)
    case _ => Code(0, 0)
  }

  function ChromaAcCode12(size: nat): Code {
    match size
    case 1 => Code(506, 9) case 2 => Code(65499, 16) case 3 => Code(65500, 16) case 4 => Code(65501, 16) case 5 => Code(65502, 16)
    case 6 => Code(65503, 16) case 7 => Code(65504, 16) case 8 => Code(65505, 16) case 9 => Code(65506, 16) case 10 => Code(65507, 16)
    case _ => Code(0, 0)
  }

  function ChromaAcCode13(size: nat): Code {
    match size
    case 1 => Code(2041, 11) case 2 => Code(65508, 16) case 3 => Code(65509, 16) case 4 => Code(65510, 16) case 5 => Code(65511, 16)
    case 6 => Code(65512, 16) case 7 => Code(65513, 16) case 8 => Code(65514, 16) case 9 => Code(65515, 16) case 10 => Code(65516, 16)
    case _ => Code(0, 0)
  }

  function ChromaAcCode14(size: nat): Code {
    match size
    case 1 => Code(16352, 14) case 2 => Code(65517, 16) case 3 => Code(65518, 16) case 4 => Code(65519, 16) case 5 => Code(65520, 16)
    case 6 => Code(65521, 16) case 7 => Code(65522, 16) case 8 => Code(65523, 16) case 9 => Code(65524, 16) case 10 => Code(65525, 16)
    case _ => Code(0, 0)
  }

  function ChromaAcCode15(size: nat): Code {
    match size
    case 0 => Code(1018, 10) case 1 => Code(32707, 15) case 2 => Code(65526, 16) case 3 => Code(65527, 16) case 4 => Code(65528, 16)
    case 5 => Code(65529, 16) case 6 => Code(65530, 16) case 7 => Code(65531, 16) case 8 => Code(65532, 16) case 9 => Code(65533, 16)
    case 10 => Code(65534, 16) case _ => Code(0, 0)
  }

  // ---- Symbol by symbol: its code has this length and stands at this place of the list ----

  lemma LumaDcOk()
    ensures forall s: nat :: s <= 11 ==> Ok(LumaDc, s)
  {
    hide Ok;
    assert Ok(LumaDc, 0) by { At(LumaDc, 0, 2, 0); } assert Ok(LumaDc, 1) by { At(LumaDc, 1, 3, 1); }
    assert Ok(LumaDc, 2) by { At(LumaDc, 2, 3, 2); } assert Ok(LumaDc, 3) by { At(LumaDc, 3, 3, 3); }
    assert Ok(LumaDc, 4) by { At(LumaDc, 4, 3, 4); } assert Ok(LumaDc, 5) by { At(LumaDc, 5, 3, 5); }
    assert Ok(LumaDc, 6) by { At(LumaDc, 6, 4, 6); } assert Ok(LumaDc, 7) by { At(LumaDc, 7, 5, 7); }
    assert Ok(LumaDc, 8) by { At(LumaDc, 8, 6, 8); } assert Ok(LumaDc, 9) by { At(LumaDc, 9, 7, 9); }
    assert Ok(LumaDc, 10) by { At(LumaDc, 10, 8, 10); } assert Ok(LumaDc, 11) by { At(LumaDc, 11, 9, 11); }
  }

  lemma ChromaDcOk()
    ensures forall s: nat :: s <= 11 ==> Ok(ChromaDc, s)
  {
    hide Ok;
    assert Ok(ChromaDc, 0) by { At(ChromaDc, 0, 2, 0); } assert Ok(ChromaDc, 1) by { At(ChromaDc, 1, 2, 1); }
    assert Ok(ChromaDc, 2) by { At(ChromaDc, 2, 2, 2); } assert Ok(ChromaDc, 3) by { At(ChromaDc, 3, 3, 3); }
    assert Ok(ChromaDc, 4) by { At(ChromaDc, 4, 4, 4); } assert Ok(ChromaDc, 5) by { At(ChromaDc, 5, 5, 5); }
    assert Ok(ChromaDc, 6) by { At(ChromaDc, 6, 6, 6); } assert Ok(ChromaDc, 7) by { At(ChromaDc, 7, 7, 7); }
    assert Ok(ChromaDc, 8) by { At(ChromaDc, 8, 8, 8); } assert Ok(ChromaDc, 9) by { At(ChromaDc, 9, 9, 9); }
    assert Ok(ChromaDc, 10) by { At(ChromaDc, 10, 10, 10); } assert Ok(ChromaDc, 11) by { At(ChromaDc, 11, 11, 11); }
  }

  lemma LumaAcZeros()
    ensures Ok(LumaAc, 0x00) && Ok(LumaAc, 0xF0)
  {
    hide Ok;
    assert Ok(LumaAc, 0) by { At(LumaAc, 0, 4, 3); } assert Ok(LumaAc, 240) by { At(LumaAc, 240, 11, 31); }
  }

  lemma LumaAcRow0()
    ensures RowOk(LumaAc, 0)
  {
    hide Ok;
    assert Ok(LumaAc, 1) by { At(LumaAc, 1, 2, 0); } assert Ok(LumaAc, 2) by { At(LumaAc, 2, 2, 1); }
    assert Ok(LumaAc, 3) by { At(LumaAc, 3, 3, 2); } assert Ok(LumaAc, 4) by { At(LumaAc, 4, 4, 4); }
    assert Ok(LumaAc, 5) by { At(LumaAc, 5, 5, 6); } assert Ok(LumaAc, 6) by { At(LumaAc, 6, 7, 11); }
    assert Ok(LumaAc, 7) by { At(LumaAc, 7, 8, 15); } assert Ok(LumaAc, 8) by { At(LumaAc, 8, 10, 23); }
    assert Ok(LumaAc, 9) by { At(LumaAc, 9, 16, 37); } assert Ok(LumaAc, 10) by { At(LumaAc, 10, 16, 38); }
  }

  lemma LumaAcRow1()
    ensures RowOk(LumaAc, 1)
  {
    hide Ok;
    assert Ok(LumaAc, 17) by { At(LumaAc, 17, 4, 5); } assert Ok(LumaAc, 18) by { At(LumaAc, 18, 5, 7); }
    assert Ok(LumaAc, 19) by { At(LumaAc, 19, 7, 12); } assert Ok(LumaAc, 20) by { At(LumaAc, 20, 9, 18); }
    assert Ok(LumaAc, 21) by { At(LumaAc, 21, 11, 28); } assert Ok(LumaAc, 22) by { At(LumaAc, 22, 16, 39); }
    assert Ok(LumaAc, 23) by { At(LumaAc, 23, 16, 40); } assert Ok(LumaAc, 24) by { At(LumaAc, 24, 16, 41); }
    assert Ok(LumaAc, 25) by { At(LumaAc, 25, 16, 42); } assert Ok(LumaAc, 26) by { At(LumaAc, 26, 16, 43); }
  }

  lemma LumaAcRow2()
    ensures RowOk(LumaAc, 2)
  {
    hide Ok;
    assert Ok(LumaAc, 33) by { At(LumaAc, 33, 5, 8); } assert Ok(LumaAc, 34) by { At(LumaAc, 34, 8, 16); }
    assert Ok(LumaAc, 35) by { At(LumaAc, 35, 10, 24); } assert Ok(LumaAc, 36) by { At(LumaAc, 36, 12, 32); }
    assert Ok(LumaAc, 37) by { At(LumaAc, 37, 16, 44); } assert Ok(LumaAc, 38) by { At(LumaAc, 38, 16, 45); }
    assert Ok(LumaAc, 39) by { At(LumaAc, 39, 16, 46); } assert Ok(LumaAc, 40) by { At(LumaAc, 40, 16, 47); }
    assert Ok(LumaAc, 41) by { At(LumaAc, 41, 16, 48); } assert Ok(LumaAc, 42) by { At(LumaAc, 42, 16, 49); }
  }

  lemma LumaAcRow3()
    ensures RowOk(LumaAc, 3)
  {
    hide Ok;
    assert Ok(LumaAc, 49) by { At(LumaAc, 49, 6, 9); } assert Ok(LumaAc, 50) by { At(LumaAc, 50, 9, 19); }
    assert Ok(LumaAc, 51) by { At(LumaAc, 51, 12, 33); } assert Ok(LumaAc, 52) by { At(LumaAc, 52, 16, 50); }
    assert Ok(LumaAc, 53) by { At(LumaAc, 53, 16, 51); } assert Ok(LumaAc, 54) by { At(LumaAc, 54, 16, 52); }
    assert Ok(LumaAc, 55) by { At(LumaAc, 55, 16, 53); } assert Ok(LumaAc, 56) by { At(LumaAc, 56, 16, 54); }
    assert Ok(LumaAc, 57) by { At(LumaAc, 57, 16, 55); } assert Ok(LumaAc, 58) by { At(LumaAc, 58, 16, 56); }
  }

  lemma LumaAcRow4()
    ensures RowOk(LumaAc, 4)
  {
    hide Ok;
    assert Ok(LumaAc, 65) by { At(LumaAc, 65, 6, 10); } assert Ok(LumaAc, 66) by { At(LumaAc, 66, 10, 25); }
    assert Ok(LumaAc, 67) by { At(LumaAc, 67, 16, 57); } assert Ok(LumaAc, 68) by { At(LumaAc, 68, 16, 58); }
    assert Ok(LumaAc, 69) by { At(LumaAc, 69, 16, 59); } assert Ok(LumaAc, 70) by { At(LumaAc, 70, 16, 60); }
    assert Ok(LumaAc, 71) by { At(LumaAc, 71, 16, 61); } assert Ok(LumaAc, 72) by { At(LumaAc, 72, 16, 62); }
    assert Ok(LumaAc, 73) by { At(LumaAc, 73, 16, 63); } assert Ok(LumaAc, 74) by { At(LumaAc, 74, 16, 64); }
  }

  lemma LumaAcRow5()
    ensures RowOk(LumaAc, 5)
  {
    hide Ok;
    assert Ok(LumaAc, 81) by { At(LumaAc, 81, 7, 13); } assert Ok(LumaAc, 82) by { At(LumaAc, 82, 11, 29); }
    assert Ok(LumaAc, 83) by { At(LumaAc, 83, 16, 65); } assert Ok(LumaAc, 84) by { At(LumaAc, 84, 16, 66); }
    assert Ok(LumaAc, 85) by { At(LumaAc, 85, 16, 67); } assert Ok(LumaAc, 86) by { At(LumaAc, 86, 16, 68); }
    assert Ok(LumaAc, 87) by { At(LumaAc, 87, 16, 69); } assert Ok(LumaAc, 88) by { At(LumaAc, 88, 16, 70); }
    assert Ok(LumaAc, 89) by { At(LumaAc, 89, 16, 71); } assert Ok(LumaAc, 90) by { At(LumaAc, 90, 16, 72); }
  }

  lemma LumaAcRow6()
    ensures RowOk(LumaAc, 6)
  {
    hide Ok;
    assert Ok(LumaAc, 97) by { At(LumaAc, 97, 7, 14); } assert Ok(LumaAc, 98) by { At(LumaAc, 98, 12, 34); }
    assert Ok(LumaAc, 99) by { At(LumaAc, 99, 16, 73); } assert Ok(LumaAc, 100) by { At(LumaAc, 100, 16, 74); }
    assert Ok(LumaAc, 101) by { At(LumaAc, 101, 16, 75); } assert Ok(LumaAc, 102) by { At(LumaAc, 102, 16, 76); }
    assert Ok(LumaAc, 103) by { At(LumaAc, 103, 16, 77); } assert Ok(LumaAc, 104) by { At(LumaAc, 104, 16, 78); }
    assert Ok(LumaAc, 105) by { At(LumaAc, 105, 16, 79); } assert Ok(LumaAc, 106) by { At(LumaAc, 106, 16, 80); }
  }

  lemma LumaAcRow7()
    ensures RowOk(LumaAc, 7)
  {
    hide Ok;
    assert Ok(LumaAc, 113) by { At(LumaAc, 113, 8, 17); } assert Ok(LumaAc, 114) by { At(LumaAc, 114, 12, 35); }
    assert Ok(LumaAc, 115) by { At(LumaAc, 115, 16, 81); } assert Ok(LumaAc, 116) by { At(LumaAc, 116, 16, 82); }
    assert Ok(LumaAc, 117) by { At(LumaAc, 117, 16, 83); } assert Ok(LumaAc, 118) by { At(LumaAc, 118, 16, 84); }
    assert Ok(LumaAc, 119) by { At(LumaAc, 119, 16, 85); } assert Ok(LumaAc, 120) by { At(LumaAc, 120, 16, 86); }
    assert Ok(LumaAc, 121) by { At(LumaAc, 121, 16, 87); } assert Ok(LumaAc, 122) by { At(LumaAc, 122, 16, 88); }
  }

  lemma LumaAcRow8()
    ensures RowOk(LumaAc, 8)
  {
    hide Ok;
    assert Ok(LumaAc, 129) by { At(LumaAc, 129, 9, 20); } assert Ok(LumaAc, 130) by { At(LumaAc, 130, 15, 36); }
    assert Ok(LumaAc, 131) by { At(LumaAc, 131, 16, 89); } assert Ok(LumaAc, 132) by { At(LumaAc, 132, 16, 90); }
    assert Ok(LumaAc, 133) by { At(LumaAc, 133, 16, 91); } assert Ok(LumaAc, 134) by { At(LumaAc, 134, 16, 92); }
    assert Ok(LumaAc, 135) by { At(LumaAc, 135, 16, 93); } assert Ok(LumaAc, 136) by { At(LumaAc, 136, 16, 94); }
    assert Ok(LumaAc, 137) by { At(LumaAc, 137, 16, 95); } assert Ok(LumaAc, 138) by { At(LumaAc, 138, 16, 96); }
  }

  lemma LumaAcRow9()
    ensures RowOk(LumaAc, 9)
  {
    hide Ok;
    assert Ok(LumaAc, 145) by { At(LumaAc, 145, 9, 21); } assert Ok(LumaAc, 146) by { At(LumaAc, 146, 16, 97); }
    assert Ok(LumaAc, 147) by { At(LumaAc, 147, 16, 98); } assert Ok(LumaAc, 148) by { At(LumaAc, 148, 16, 99); }
    assert Ok(LumaAc, 149) by { At(LumaAc, 149, 16, 100); } assert Ok(LumaAc, 150) by { At(LumaAc, 150, 16, 101); }
    assert Ok(LumaAc, 151) by { At(LumaAc, 151, 16, 102); } assert Ok(LumaAc, 152) by { At(LumaAc, 152, 16, 103); }
    assert Ok(LumaAc, 153) by { At(LumaAc, 153, 16, 104); } assert Ok(LumaAc, 154) by { At(LumaAc, 154, 16, 105); }
  }

  lemma LumaAcRow10()
    ensures RowOk(LumaAc, 10)
  {
    hide Ok;
    assert Ok(LumaAc, 161) by { At(LumaAc, 161, 9, 22); } assert Ok(LumaAc, 162) by { At(LumaAc, 162, 16, 106); }
    assert Ok(LumaAc, 163) by { At(LumaAc, 163, 16, 107); } assert Ok(LumaAc, 164) by { At(LumaAc, 164, 16, 108); }
    assert Ok(LumaAc, 165) by { At(LumaAc, 165, 16, 109); } assert Ok(LumaAc, 166) by { At(LumaAc, 166, 16, 110); }
    assert Ok(LumaAc, 167) by { At(LumaAc, 167, 16, 111); } assert Ok(LumaAc, 168) by { At(LumaAc, 168, 16, 112); }
    assert Ok(LumaAc, 169) by { At(LumaAc, 169, 16, 113); } assert Ok(LumaAc, 170) by { At(LumaAc, 170, 16, 114); }
  }

  lemma LumaAcRow11()
    ensures RowOk(LumaAc, 11)
  {
    hide Ok;
    assert Ok(LumaAc, 177) by { At(LumaAc, 177, 10, 26); } assert Ok(LumaAc, 178) by { At(LumaAc, 178, 16, 115); }
    assert Ok(LumaAc, 179) by { At(LumaAc, 179, 16, 116); } assert Ok(LumaAc, 180) by { At(LumaAc, 180, 16, 117); }
    assert Ok(LumaAc, 181) by { At(LumaAc, 181, 16, 118); } assert Ok(LumaAc, 182) by { At(LumaAc, 182, 16, 119); }
    assert Ok(LumaAc, 183) by { At(LumaAc, 183, 16, 120); } assert Ok(LumaAc, 184) by { At(LumaAc, 184, 16, 121); }
    assert Ok(LumaAc, 185) by { At(LumaAc, 185, 16, 122); } assert Ok(LumaAc, 186) by { At(LumaAc, 186, 16, 123); }
  }

  lemma LumaAcRow12()
    ensures RowOk(LumaAc, 12)
  {
    hide Ok;
    assert Ok(LumaAc, 193) by { At(LumaAc, 193, 10, 27); } assert Ok(LumaAc, 194) by { At(LumaAc, 194, 16, 124); }
    assert Ok(LumaAc, 195) by { At(LumaAc, 195, 16, 125); } assert Ok(LumaAc, 196) by { At(LumaAc, 196, 16, 126); }
    assert Ok(LumaAc, 197) by { At(LumaAc, 197, 16, 127); } assert Ok(LumaAc, 198) by { At(LumaAc, 198, 16, 128); }
    assert Ok(LumaAc, 199) by { At(LumaAc, 199, 16, 129); } assert Ok(LumaAc, 200) by { At(LumaAc, 200, 16, 130); }
    assert Ok(LumaAc, 201) by { At(LumaAc, 201, 16, 131); } assert Ok(LumaAc, 202) by { At(LumaAc, 202, 16, 132); }
  }

  lemma LumaAcRow13()
    ensures RowOk(LumaAc, 13)
  {
    hide Ok;
    assert Ok(LumaAc, 209) by { At(LumaAc, 209, 11, 30); } assert Ok(LumaAc, 210) by { At(LumaAc, 210, 16, 133); }
    assert Ok(LumaAc, 211) by { At(LumaAc, 211, 16, 134); } assert Ok(LumaAc, 212) by { At(LumaAc, 212, 16, 135); }
    assert Ok(LumaAc, 213) by { At(LumaAc, 213, 16, 136); } assert Ok(LumaAc, 214) by { At(LumaAc, 214, 16, 137); }
    assert Ok(LumaAc, 215) by { At(LumaAc, 215, 16, 138); } assert Ok(LumaAc, 216) by { At(LumaAc, 216, 16, 139); }
    assert Ok(LumaAc, 217) by { At(LumaAc, 217, 16, 140); } assert Ok(LumaAc, 218) by { At(LumaAc, 218, 16, 141); }
  }

  lemma LumaAcRow14()
    ensures RowOk(LumaAc, 14)
  {
    hide Ok;
    assert Ok(LumaAc, 225) by { At(LumaAc, 225, 16, 142); } assert Ok(LumaAc, 226) by { At(LumaAc, 226, 16, 143); }
    assert Ok(LumaAc, 227) by { At(LumaAc, 227, 16, 144); } assert Ok(LumaAc, 228) by { At(LumaAc, 228, 16, 145); }
    assert Ok(LumaAc, 229) by { At(LumaAc, 229, 16, 146); } assert Ok(LumaAc, 230) by { At(LumaAc, 230, 16, 147); }
    assert Ok(LumaAc, 231) by { At(LumaAc, 231, 16, 148); } assert Ok(LumaAc, 232) by { At(LumaAc, 232, 16, 149); }
    assert Ok(LumaAc, 233) by { At(LumaAc, 233, 16, 150); } assert Ok(LumaAc, 234) by { At(LumaAc, 234, 16, 151); }
  }

  lemma LumaAcRow15()
    ensures RowOk(LumaAc, 15)
  {
    hide Ok;
    assert Ok(LumaAc, 241) by { At(LumaAc, 241, 16, 152); } assert Ok(LumaAc, 242) by { At(LumaAc, 242, 16, 153); }
    assert Ok(LumaAc, 243) by { At(LumaAc, 243, 16, 154); } assert Ok(LumaAc, 244) by { At(LumaAc, 244, 16, 155); }
    assert Ok(LumaAc, 245) by { At(LumaAc, 245, 16, 156); } assert Ok(LumaAc, 246) by { At(LumaAc, 246, 16, 157); }
    assert Ok(LumaAc, 247) by { At(LumaAc, 247, 16, 158); } assert Ok(LumaAc, 248) by { At(LumaAc, 248, 16, 159); }
    assert Ok(LumaAc, 249) by { At(LumaAc, 249, 16, 160); } assert Ok(LumaAc, 250) by { At(LumaAc, 250, 16, 161); }
  }

  lemma ChromaAcZeros()
    ensures Ok(ChromaAc, 0x00) && Ok(ChromaAc, 0xF0)
  {
    hide Ok;
    assert Ok(ChromaAc, 0) by { At(ChromaAc, 0, 2, 0); } assert Ok(ChromaAc, 240) by { At(ChromaAc, 240, 10, 31); }
  }

  lemma ChromaAcRow0()
    ensures RowOk(ChromaAc, 0)
  {
    hide Ok;
    assert Ok(ChromaAc, 1) by { At(ChromaAc, 1, 2, 1); } assert Ok(ChromaAc, 2) by { At(ChromaAc, 2, 3, 2); }
    assert Ok(ChromaAc, 3) by { At(ChromaAc, 3, 4, 3); } assert Ok(ChromaAc, 4) by { At(ChromaAc, 4, 5, 5); }
    assert Ok(ChromaAc, 5) by { At(ChromaAc, 5, 5, 6); } assert Ok(ChromaAc, 6) by { At(ChromaAc, 6, 6, 9); }
    assert Ok(ChromaAc, 7) by { At(ChromaAc, 7, 7, 13); } assert Ok(ChromaAc, 8) by { At(ChromaAc, 8, 9, 20); }
    assert Ok(ChromaAc, 9) by { At(ChromaAc, 9, 10, 27); } assert Ok(ChromaAc, 10) by { At(ChromaAc, 10, 12, 36); }
  }

  lemma ChromaAcRow1()
    ensures RowOk(ChromaAc, 1)
  {
    hide Ok;
    assert Ok(ChromaAc, 17) by { At(ChromaAc, 17, 4, 4); } assert Ok(ChromaAc, 18) by { At(ChromaAc, 18, 6, 10); }
    assert Ok(ChromaAc, 19) by { At(ChromaAc, 19, 8, 16); } assert Ok(ChromaAc, 20) by { At(ChromaAc, 20, 9, 21); }
    assert Ok(ChromaAc, 21) by { At(ChromaAc, 21, 11, 32); } assert Ok(ChromaAc, 22) by { At(ChromaAc, 22, 12, 37); }
    assert Ok(ChromaAc, 23) by { At(ChromaAc, 23, 16, 43); } assert Ok(ChromaAc, 24) by { At(ChromaAc, 24, 16, 44); }
    assert Ok(ChromaAc, 25) by { At(ChromaAc, 25, 16, 45); } assert Ok(ChromaAc, 26) by { At(ChromaAc, 26, 16, 46); }
  }

  lemma ChromaAcRow2()
    ensures RowOk(ChromaAc, 2)
  {
    hide Ok;
    assert Ok(ChromaAc, 33) by { At(ChromaAc, 33, 5, 7); } assert Ok(ChromaAc, 34) by { At(ChromaAc, 34, 8, 17); }
    assert Ok(ChromaAc, 35) by { At(ChromaAc, 35, 10, 28); } assert Ok(ChromaAc, 36) by { At(ChromaAc, 36, 12, 38); }
    assert Ok(ChromaAc, 37) by { At(ChromaAc, 37, 15, 41); } assert Ok(ChromaAc, 38) by { At(ChromaAc, 38, 16, 47); }
    assert Ok(ChromaAc, 39) by { At(ChromaAc, 39, 16, 48); } assert Ok(ChromaAc, 40) by { At(ChromaAc, 40, 16, 49); }
    assert Ok(ChromaAc, 41) by { At(ChromaAc, 41, 16, 50); } assert Ok(ChromaAc, 42) by { At(ChromaAc, 42, 16, 51); }
  }

  lemma ChromaAcRow3()
    ensures RowOk(ChromaAc, 3)
  {
    hide Ok;
    assert Ok(ChromaAc, 49) by { At(ChromaAc, 49, 5, 8); } assert Ok(ChromaAc, 50) by { At(ChromaAc, 50, 8, 18); }
    assert Ok(ChromaAc, 51) by { At(ChromaAc, 51, 10, 29); } assert Ok(ChromaAc, 52) by { At(ChromaAc, 52, 12, 39); }
    assert Ok(ChromaAc, 53) by { At(ChromaAc, 53, 16, 52); } assert Ok(ChromaAc, 54) by { At(ChromaAc, 54, 16, 53); }
    assert Ok(ChromaAc, 55) by { At(ChromaAc, 55, 16, 54); } assert Ok(ChromaAc, 56) by { At(ChromaAc, 56, 16, 55); }
    assert Ok(ChromaAc, 57) by { At(ChromaAc, 57, 16, 56); } assert Ok(ChromaAc, 58) by { At(ChromaAc, 58, 16, 57); }
  }

  lemma ChromaAcRow4()
    ensures RowOk(ChromaAc, 4)
  {
    hide Ok;
    assert Ok(ChromaAc, 65) by { At(ChromaAc, 65, 6, 11); } assert Ok(ChromaAc, 66) by { At(ChromaAc, 66, 9, 22); }
    assert Ok(ChromaAc, 67) by { At(ChromaAc, 67, 16, 58); } assert Ok(ChromaAc, 68) by { At(ChromaAc, 68, 16, 59); }
    assert Ok(ChromaAc, 69) by { At(ChromaAc, 69, 16, 60); } assert Ok(ChromaAc, 70) by { At(ChromaAc, 70, 16, 61); }
    assert Ok(ChromaAc, 71) by { At(ChromaAc, 71, 16, 62); } assert Ok(ChromaAc, 72) by { At(ChromaAc, 72, 16, 63); }
    assert Ok(ChromaAc, 73) by { At(ChromaAc, 73, 16, 64); } assert Ok(ChromaAc, 74) by { At(ChromaAc, 74, 16, 65); }
  }

  lemma ChromaAcRow5()
    ensures RowOk(ChromaAc, 5)
  {
    hide Ok;
    assert Ok(ChromaAc, 81) by { At(ChromaAc, 81, 6, 12); } assert Ok(ChromaAc, 82) by { At(ChromaAc, 82, 10, 30); }
    assert Ok(ChromaAc, 83) by { At(ChromaAc, 83, 16, 66); } assert Ok(ChromaAc, 84) by { At(ChromaAc, 84, 16, 67); }
    assert Ok(ChromaAc, 85) by { At(ChromaAc, 85, 16, 68); } assert Ok(ChromaAc, 86) by { At(ChromaAc, 86, 16, 69); }
    assert Ok(ChromaAc, 87) by { At(ChromaAc, 87, 16, 70); } assert Ok(ChromaAc, 88) by { At(ChromaAc, 88, 16, 71); }
    assert Ok(ChromaAc, 89) by { At(ChromaAc, 89, 16, 72); } assert Ok(ChromaAc, 90) by { At(ChromaAc, 90, 16, 73); }
  }

  lemma ChromaAcRow6()
    ensures RowOk(ChromaAc, 6)
  {
    hide Ok;
    assert Ok(ChromaAc, 97) by { At(ChromaAc, 97, 7, 14); } assert Ok(ChromaAc, 98) by { At(ChromaAc, 98, 11, 33); }
    assert Ok(ChromaAc, 99) by { At(ChromaAc, 99, 16, 74); } assert Ok(ChromaAc, 100) by { At(ChromaAc, 100, 16, 75); }
    assert Ok(ChromaAc, 101) by { At(ChromaAc, 101, 16, 76); } assert Ok(ChromaAc, 102) by { At(ChromaAc, 102, 16, 77); }
    assert Ok(ChromaAc, 103) by { At(ChromaAc, 103, 16, 78); } assert Ok(ChromaAc, 104) by { At(ChromaAc, 104, 16, 79); }
    assert Ok(ChromaAc, 105) by { At(ChromaAc, 105, 16, 80); } assert Ok(ChromaAc, 106) by { At(ChromaAc, 106, 16, 81); }
  }

  lemma ChromaAcRow7()
    ensures RowOk(ChromaAc, 7)
  {
    hide Ok;
    assert Ok(ChromaAc, 113) by { At(ChromaAc, 113, 7, 15); } assert Ok(ChromaAc, 114) by { At(ChromaAc, 114, 11, 34); }
    assert Ok(ChromaAc, 115) by { At(ChromaAc, 115, 16, 82); } assert Ok(ChromaAc, 116) by { At(ChromaAc, 116, 16, 83); }
    assert Ok(ChromaAc, 117) by { At(ChromaAc, 117, 16, 84); } assert Ok(ChromaAc, 118) by { At(ChromaAc, 118, 16, 85); }
    assert Ok(ChromaAc, 119) by { At(ChromaAc, 119, 16, 86); } assert Ok(ChromaAc, 120) by { At(ChromaAc, 120, 16, 87); }
    assert Ok(ChromaAc, 121) by { At(ChromaAc, 121, 16, 88); } assert Ok(ChromaAc, 122) by { At(ChromaAc, 122, 16, 89); }
  }

  lemma ChromaAcRow8()
    ensures RowOk(ChromaAc, 8)
  {
    hide Ok;
    assert Ok(ChromaAc, 129) by { At(ChromaAc, 129, 8, 19); } assert Ok(ChromaAc, 130) by { At(ChromaAc, 130, 16, 90); }
    assert Ok(ChromaAc, 131) by { At(ChromaAc, 131, 16, 91); } assert Ok(ChromaAc, 132) by { At(ChromaAc, 132, 16, 92); }
    assert Ok(ChromaAc, 133) by { At(ChromaAc, 133, 16, 93); } assert Ok(ChromaAc, 134) by { At(ChromaAc, 134, 16, 94); }
    assert Ok(ChromaAc, 135) by { At(ChromaAc, 135, 16, 95); } assert Ok(ChromaAc, 136) by { At(ChromaAc, 136, 16, 96); }
    assert Ok(ChromaAc, 137) by { At(ChromaAc, 137, 16, 97); } assert Ok(ChromaAc, 138) by { At(ChromaAc, 138, 16, 98); }
  }

  lemma ChromaAcRow9()
    ensures RowOk(ChromaAc, 9)
  {
    hide Ok;
    assert Ok(ChromaAc, 145) by { At(ChromaAc, 145, 9, 23); } assert Ok(ChromaAc, 146) by { At(ChromaAc, 146, 16, 99); }
    assert Ok(ChromaAc, 147) by { At(ChromaAc, 147, 16, 100); } assert Ok(ChromaAc, 148) by { At(ChromaAc, 148, 16, 101); }
    assert Ok(ChromaAc, 149) by { At(ChromaAc, 149, 16, 102); } assert Ok(ChromaAc, 150) by { At(ChromaAc, 150, 16, 103); }
    assert Ok(ChromaAc, 151) by { At(ChromaAc, 151, 16, 104); } assert Ok(ChromaAc, 152) by { At(ChromaAc, 152, 16, 105); }
    assert Ok(ChromaAc, 153) by { At(ChromaAc, 153, 16, 106); } assert Ok(ChromaAc, 154) by { At(ChromaAc, 154, 16, 107); }
  }

  lemma ChromaAcRow10()
    ensures RowOk(ChromaAc, 10)
  {
    hide Ok;
    assert Ok(ChromaAc, 161) by { At(ChromaAc, 161, 9, 24); } assert Ok(ChromaAc, 162) by { At(ChromaAc, 162, 16, 108); }
    assert Ok(ChromaAc, 163) by { At(ChromaAc, 163, 16, 109); } assert Ok(ChromaAc, 164) by { At(ChromaAc, 164, 16, 110); }
    assert Ok(ChromaAc, 165) by { At(ChromaAc, 165, 16, 111); } assert Ok(ChromaAc, 166) by { At(ChromaAc, 166, 16, 112); }
    assert Ok(ChromaAc, 167) by { At(ChromaAc, 167, 16, 113); } assert Ok(ChromaAc, 168) by { At(ChromaAc, 168, 16, 114); }
    assert Ok(ChromaAc, 169) by { At(ChromaAc, 169, 16, 115); } assert Ok(ChromaAc, 170) by { At(ChromaAc, 170, 16, 116); }
  }

  lemma ChromaAcRow11()
    ensures RowOk(ChromaAc, 11)
  {
    hide Ok;
    assert Ok(ChromaAc, 177) by { At(ChromaAc, 177, 9, 25); } assert Ok(ChromaAc, 178) by { At(ChromaAc, 178, 16, 117); }
    assert Ok(ChromaAc, 179) by { At(ChromaAc, 179, 16, 118); } assert Ok(ChromaAc, 180) by { At(ChromaAc, 180, 16, 119); }
    assert Ok(ChromaAc, 181) by { At(ChromaAc, 181, 16, 120); } assert Ok(ChromaAc, 182) by { At(ChromaAc, 182, 16, 121); }
    assert Ok(ChromaAc, 183) by { At(ChromaAc, 183, 16, 122); } assert Ok(ChromaAc, 184) by { At(ChromaAc, 184, 16, 123); }
    assert Ok(ChromaAc, 185) by { At(ChromaAc, 185, 16, 124); } assert Ok(ChromaAc, 186) by { At(ChromaAc, 186, 16, 125); }
  }

  lemma ChromaAcRow12()
    ensures RowOk(ChromaAc, 12)
  {
    hide Ok;
    assert Ok(ChromaAc, 193) by { At(ChromaAc, 193, 9, 26); } assert Ok(ChromaAc, 194) by { At(ChromaAc, 194, 16, 126); }
    assert Ok(ChromaAc, 195) by { At(ChromaAc, 195, 16, 127); } assert Ok(ChromaAc, 196) by { At(ChromaAc, 196, 16, 128); }
    assert Ok(ChromaAc, 197) by { At(ChromaAc, 197, 16, 129); } assert Ok(ChromaAc, 198) by { At(ChromaAc, 198, 16, 130); }
    assert Ok(ChromaAc, 199) by { At(ChromaAc, 199, 16, 131); } assert Ok(ChromaAc, 200) by { At(ChromaAc, 200, 16, 132); }
    assert Ok(ChromaAc, 201) by { At(ChromaAc, 201, 16, 133); } assert Ok(ChromaAc, 202) by { At(ChromaAc, 202, 16, 134); }
  }

  lemma ChromaAcRow13()
    ensures RowOk(ChromaAc, 13)
  {
    hide Ok;
    assert Ok(ChromaAc, 209) by { At(ChromaAc, 209, 11, 35); } assert Ok(ChromaAc, 210) by { At(ChromaAc, 210, 16, 135); }
    assert Ok(ChromaAc, 211) by { At(ChromaAc, 211, 16, 136); } assert Ok(ChromaAc, 212) by { At(ChromaAc, 212, 16, 137); }
    assert Ok(ChromaAc, 213) by { At(ChromaAc, 213, 16, 138); } assert Ok(ChromaAc, 214) by { At(ChromaAc, 214, 16, 139); }
    assert Ok(ChromaAc, 215) by { At(ChromaAc, 215, 16, 140); } assert Ok(ChromaAc, 216) by { At(ChromaAc, 216, 16, 141); }
    assert Ok(ChromaAc, 217) by { At(ChromaAc, 217, 16, 142); } assert Ok(ChromaAc, 218) by { At(ChromaAc, 218, 16, 143); }
  }

  lemma ChromaAcRow14()
    ensures RowOk(ChromaAc, 14)
  {
    hide Ok;
    assert Ok(ChromaAc, 225) by { At(ChromaAc, 225, 14, 40); } assert Ok(ChromaAc, 226) by { At(ChromaAc, 226, 16, 144); }
    assert Ok(ChromaAc, 227) by { At(ChromaAc, 227, 16, 145); } assert Ok(ChromaAc, 228) by { At(ChromaAc, 228, 16, 146); }
    assert Ok(ChromaAc, 229) by { At(ChromaAc, 229, 16, 147); } assert Ok(ChromaAc, 230) by { At(ChromaAc, 230, 16, 148); }
    assert Ok(ChromaAc, 231) by { At(ChromaAc, 231, 16, 149); } assert Ok(ChromaAc, 232) by { At(ChromaAc, 232, 16, 150); }
    assert Ok(ChromaAc, 233) by { At(ChromaAc, 233, 16, 151); } assert Ok(ChromaAc, 234) by { At(ChromaAc, 234, 16, 152); }
  }

  lemma ChromaAcRow15()
    ensures RowOk(ChromaAc, 15)
  {
    hide Ok;
    assert Ok(ChromaAc, 241) by { At(ChromaAc, 241, 15, 42); } assert Ok(ChromaAc, 242) by { At(ChromaAc, 242, 16, 153); }
    assert Ok(ChromaAc, 243) by { At(ChromaAc, 243, 16, 154); } assert Ok(ChromaAc, 244) by { At(ChromaAc, 244, 16, 155); }
    assert Ok(ChromaAc, 245) by { At(ChromaAc, 245, 16, 156); } assert Ok(ChromaAc, 246) by { At(ChromaAc, 246, 16, 157); }
    assert Ok(ChromaAc, 247) by { At(ChromaAc, 247, 16, 158); } assert Ok(ChromaAc, 248) by { At(ChromaAc, 248, 16, 159); }
    assert Ok(ChromaAc, 249) by { At(ChromaAc, 249, 16, 160); } assert Ok(ChromaAc, 250) by { At(ChromaAc, 250, 16, 161); }
  }

  lemma RowIsOk(t: Standard, r: nat)
    requires r < 16 && !t.Dc()
    ensures RowOk(t, r)
  {
    hide RowOk;
    match t
    case LumaAc =>
      match r {
        case 0 => LumaAcRow0(); case 1 => LumaAcRow1(); case 2 => LumaAcRow2(); case 3 => LumaAcRow3();
        case 4 => LumaAcRow4(); case 5 => LumaAcRow5(); case 6 => LumaAcRow6(); case 7 => LumaAcRow7();
        case 8 => LumaAcRow8(); case 9 => LumaAcRow9(); case 10 => LumaAcRow10(); case 11 => LumaAcRow11();
        case 12 => LumaAcRow12(); case 13 => LumaAcRow13(); case 14 => LumaAcRow14(); case 15 => LumaAcRow15();
      }
    case ChromaAc =>
      match r {
        case 0 => ChromaAcRow0(); case 1 => ChromaAcRow1(); case 2 => ChromaAcRow2(); case 3 => ChromaAcRow3();
        case 4 => ChromaAcRow4(); case 5 => ChromaAcRow5(); case 6 => ChromaAcRow6(); case 7 => ChromaAcRow7();
        case 8 => ChromaAcRow8(); case 9 => ChromaAcRow9(); case 10 => ChromaAcRow10(); case 11 => ChromaAcRow11();
        case 12 => ChromaAcRow12(); case 13 => ChromaAcRow13(); case 14 => ChromaAcRow14(); case 15 => ChromaAcRow15();
      }
  }

  lemma UnneededHasNoCode(t: Standard, s: nat)
    requires s < 256 && !t.Needs(s)
    ensures t.CodeOf(s) == Code(0, 0)
  {
  }

  /** All symbols of all tables. */
  lemma SymbolIsOk(t: Standard, s: nat)
    requires s < 256
    ensures Ok(t, s)
  {
    if !t.Needs(s) {
      UnneededHasNoCode(t, s);
      Unused(t, s);
    } else {
      NeededIsOk(t, s);
    }
  }

  lemma NeededIsOk(t: Standard, s: nat)
    requires s < 256 && t.Needs(s)
    ensures Ok(t, s)
  {
    hide Ok;
    match t {
      case LumaDc => LumaDcOk();
      case ChromaDc => ChromaDcOk();
      case LumaAc => LumaAcZeros();
      case ChromaAc => ChromaAcZeros();
    }
    if !t.Dc() {
      RowIsOk(t, s / 16);
      assert s == 16 * (s / 16) + s % 16;
    }
  }

  /** The starts of the lengths follow from the counts (section C.2). */
  lemma Lengths(t: Standard, n: nat)
    requires 1 <= n < 16
    ensures t.MinCode(n + 1) == 2 * (t.MinCode(n) + t.Count(n)) && t.ValPtr(n + 1) == t.ValPtr(n) + t.Count(n)
  {
  }

  lemma LengthsEnd(t: Standard)
    ensures t.MinCode(1) == 0 && t.ValPtr(1) == 0 && t.MinCode(16) + t.Count(16) <= 0x1_0000
  {
  }
}
