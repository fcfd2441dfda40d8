/**
 The CRC of PNG chunks and of encoding_crc32: a table-driven form against bit-at-a-time division by
 the polynomial (section 3.4 of RFC 2083).
 */
module Crc32 {
  /** x^32 is implicit; bit 31 is the coefficient of x^0, as the data comes least significant bit first. */
  const POLYNOMIAL: bv32 := 0xEDB88320

  // Word operations, named so that proofs can treat them as black boxes.

  function Xor(a: bv32, b: bv32): bv32 { a ^ b }

  function High(x: bv32): bv32 { x & 0xFFFF_FF00 }

  function Low(x: bv32): bv8 { (x & 0xff) as bv8 }

  function Widen(b: bv8): bv32 { b as bv32 }

  function Shift(x: bv32): bv32 { x >> 8 }

  // ---- The definition ----

  /** One step of the division: shift a bit out and subtract the polynomial if it was set. */
  function Divide(c: bv32): bv32 {
    if c & 1 == 1 then (c >> 1) ^ POLYNOMIAL else c >> 1
  }

  function Divide8(c: bv32): bv32 {
    Divide(Divide(Divide(Divide(Divide(Divide(Divide(Divide(c))))))))
  }

  /** The division register after `data`, started at `c`. */
  function Register(c: bv32, data: seq<bv8>): bv32
    decreases |data|
  {
    if |data| == 0 then c else Register(Divide8(Xor(c, Widen(data[0]))), data[1..])
  }

  function Not(x: bv32): bv32 { !x }

  /** The CRC: the register starts at all ones and is complemented at the end. */
  function Crc(data: seq<bv8>): bv32 {
    Not(Register(0xFFFF_FFFF, data))
  }

  // ---- The static table, the same 256 words in both files ----

  function Words0(i: bv8): bv32 {
    match i
    case 0 => 0x00000000 case 1 => 0x77073096 case 2 => 0xEE0E612C case 3 => 0x990951BA
    case 4 => 0x076DC419 case 5 => 0x706AF48F case 6 => 0xE963A535 case 7 => 0x9E6495A3
    case 8 => 0x0EDB8832 case 9 => 0x79DCB8A4 case 10 => 0xE0D5E91E case 11 => 0x97D2D988
    case 12 => 0x09B64C2B case 13 => 0x7EB17CBD case 14 => 0xE7B82D07 case 15 => 0x90BF1D91
    case 16 => 0x1DB71064 case 17 => 0x6AB020F2 case 18 => 0xF3B97148 case 19 => 0x84BE41DE
    case 20 => 0x1ADAD47D case 21 => 0x6DDDE4EB case 22 => 0xF4D4B551 case 23 => 0x83D385C7
    case 24 => 0x136C9856 case 25 => 0x646BA8C0 case 26 => 0xFD62F97A case 27 => 0x8A65C9EC
    case 28 => 0x14015C4F case 29 => 0x63066CD9 case 30 => 0xFA0F3D63 case _ => 0x8D080DF5
  }

  function Words1(i: bv8): bv32 {
    match i
    case 32 => 0x3B6E20C8 case 33 => 0x4C69105E case 34 => 0xD56041E4 case 35 => 0xA2677172
    case 36 => 0x3C03E4D1 case 37 => 0x4B04D447 case 38 => 0xD20D85FD case 39 => 0xA50AB56B
    case 40 => 0x35B5A8FA case 41 => 0x42B2986C case 42 => 0xDBBBC9D6 case 43 => 0xACBCF940
    case 44 => 0x32D86CE3 case 45 => 0x45DF5C75 case 46 => 0xDCD60DCF case 47 => 0xABD13D59
    case 48 => 0x26D930AC case 49 => 0x51DE003A case 50 => 0xC8D75180 case 51 => 0xBFD06116
    case 52 => 0x21B4F4B5 case 53 => 0x56B3C423 case 54 => 0xCFBA9599 case 55 => 0xB8BDA50F
    case 56 => 0x2802B89E case 57 => 0x5F058808 case 58 => 0xC60CD9B2 case 59 => 0xB10BE924
    case 60 => 0x2F6F7C87 case 61 => 0x58684C11 case 62 => 0xC1611DAB case _ => 0xB6662D3D
  }

  function Words2(i: bv8): bv32 {
    match i
    case 64 => 0x76DC4190 case 65 => 0x01DB7106 case 66 => 0x98D220BC case 67 => 0xEFD5102A
    case 68 => 0x71B18589 case 69 => 0x06B6B51F case 70 => 0x9FBFE4A5 case 71 => 0xE8B8D433
    case 72 => 0x7807C9A2 case 73 => 0x0F00F934 case 74 => 0x9609A88E case 75 => 0xE10E9818
    case 76 => 0x7F6A0DBB case 77 => 0x086D3D2D case 78 => 0x91646C97 case 79 => 0xE6635C01
    case 80 => 0x6B6B51F4 case 81 => 0x1C6C6162 case 82 => 0x856530D8 case 83 => 0xF262004E
    case 84 => 0x6C0695ED case 85 => 0x1B01A57B case 86 => 0x8208F4C1 case 87 => 0xF50FC457
    case 88 => 0x65B0D9C6 case 89 => 0x12B7E950 case 90 => 0x8BBEB8EA case 91 => 0xFCB9887C
    case 92 => 0x62DD1DDF case 93 => 0x15DA2D49 case 94 => 0x8CD37CF3 case _ => 0xFBD44C65
  }

  function Words3(i: bv8): bv32 {
    match i
    case 96 => 0x4DB26158 case 97 => 0x3AB551CE case 98 => 0xA3BC0074 case 99 => 0xD4BB30E2
    case 100 => 0x4ADFA541 case 101 => 0x3DD895D7 case 102 => 0xA4D1C46D case 103 => 0xD3D6F4FB
    case 104 => 0x4369E96A case 105 => 0x346ED9FC case 106 => 0xAD678846 case 107 => 0xDA60B8D0
    case 108 => 0x44042D73 case 109 => 0x33031DE5 case 110 => 0xAA0A4C5F case 111 => 0xDD0D7CC9
    case 112 => 0x5005713C case 113 => 0x270241AA case 114 => 0xBE0B1010 case 115 => 0xC90C2086
    case 116 => 0x5768B525 case 117 => 0x206F85B3 case 118 => 0xB966D409 case 119 => 0xCE61E49F
    case 120 => 0x5EDEF90E case 121 => 0x29D9C998 case 122 => 0xB0D09822 case 123 => 0xC7D7A8B4
    case 124 => 0x59B33D17 case 125 => 0x2EB40D81 case 126 => 0xB7BD5C3B case _ => 0xC0BA6CAD
  }

  function Words4(i: bv8): bv32 {
    match i
    case 128 => 0xEDB88320 case 129 => 0x9ABFB3B6 case 130 => 0x03B6E20C case 131 => 0x74B1D29A
    case 132 => 0xEAD54739 case 133 => 0x9DD277AF case 134 => 0x04DB2615 case 135 => 0x73DC1683
    case 136 => 0xE3630B12 case 137 => 0x94643B84 case 138 => 0x0D6D6A3E case 139 => 0x7A6A5AA8
    case 140 => 0xE40ECF0B case 141 => 0x9309FF9D case 142 => 0x0A00AE27 case 143 => 0x7D079EB1
    case 144 => 0xF00F9344 case 145 => 0x8708A3D2 case 146 => 0x1E01F268 case 147 => 0x6906C2FE
    case 148 => 0xF762575D case 149 => 0x806567CB case 150 => 0x196C3671 case 151 => 0x6E6B06E7
    case 152 => 0xFED41B76 case 153 => 0x89D32BE0 case 154 => 0x10DA7A5A case 155 => 0x67DD4ACC
    case 156 => 0xF9B9DF6F case 157 => 0x8EBEEFF9 case 158 => 0x17B7BE43 case _ => 0x60B08ED5
  }

  function Words5(i: bv8): bv32 {
    match i
    case 160 => 0xD6D6A3E8 case 161 => 0xA1D1937E case 162 => 0x38D8C2C4 case 163 => 0x4FDFF252
    case 164 => 0xD1BB67F1 case 165 => 0xA6BC5767 case 166 => 0x3FB506DD case 167 => 0x48B2364B
    case 168 => 0xD80D2BDA case 169 => 0xAF0A1B4C case 170 => 0x36034AF6 case 171 => 0x41047A60
    case 172 => 0xDF60EFC3 case 173 => 0xA867DF55 case 174 => 0x316E8EEF case 175 => 0x4669BE79
    case 176 => 0xCB61B38C case 177 => 0xBC66831A case 178 => 0x256FD2A0 case 179 => 0x5268E236
    case 180 => 0xCC0C7795 case 181 => 0xBB0B4703 case 182 => 0x220216B9 case 183 => 0x5505262F
    case 184 => 0xC5BA3BBE case 185 => 0xB2BD0B28 case 186 => 0x2BB45A92 case 187 => 0x5CB36A04
    case 188 => 0xC2D7FFA7 case 189 => 0xB5D0CF31 case 190 => 0x2CD99E8B case _ => 0x5BDEAE1D
  }

  function Words6(i: bv8): bv32 {
    match i
    case 192 => 0x9B64C2B0 case 193 => 0xEC63F226 case 194 => 0x756AA39C case 195 => 0x026D930A
    case 196 => 0x9C0906A9 case 197 => 0xEB0E363F case 198 => 0x72076785 case 199 => 0x05005713
    case 200 => 0x95BF4A82 case 201 => 0xE2B87A14 case 202 => 0x7BB12BAE case 203 => 0x0CB61B38
    case 204 => 0x92D28E9B case 205 => 0xE5D5BE0D case 206 => 0x7CDCEFB7 case 207 => 0x0BDBDF21
    case 208 => 0x86D3D2D4 case 209 => 0xF1D4E242 case 210 => 0x68DDB3F8 case 211 => 0x1FDA836E
    case 212 => 0x81BE16CD case 213 => 0xF6B9265B case 214 => 0x6FB077E1 case 215 => 0x18B74777
    case 216 => 0x88085AE6 case 217 => 0xFF0F6A70 case 218 => 0x66063BCA case 219 => 0x11010B5C
    case 220 => 0x8F659EFF case 221 => 0xF862AE69 case 222 => 0x616BFFD3 case _ => 0x166CCF45
  }

  function Words7(i: bv8): bv32 {
    match i
    case 224 => 0xA00AE278 case 225 => 0xD70DD2EE case 226 => 0x4E048354 case 227 => 0x3903B3C2
    case 228 => 0xA7672661 case 229 => 0xD06016F7 case 230 => 0x4969474D case 231 => 0x3E6E77DB
    case 232 => 0xAED16A4A case 233 => 0xD9D65ADC case 234 => 0x40DF0B66 case 235 => 0x37D83BF0
    case 236 => 0xA9BCAE53 case 237 => 0xDEBB9EC5 case 238 => 0x47B2CF7F case 239 => 0x30B5FFE9
    case 240 => 0xBDBDF21C case 241 => 0xCABAC28A case 242 => 0x53B39330 case 243 => 0x24B4A3A6
    case 244 => 0xBAD03605 case 245 => 0xCDD70693 case 246 => 0x54DE5729 case 247 => 0x23D967BF
    case 248 => 0xB3667A2E case 249 => 0xC4614AB8 case 250 => 0x5D681B02 case 251 => 0x2A6F2B94
    case 252 => 0xB40BBE37 case 253 => 0xC30C8EA1 case 254 => 0x5A05DF1B case _ => 0x2D02EF8D
  }

  function Table(i: bv8): bv32 {
    if i < 32 then Words0(i) else if i < 64 then Words1(i) else if i < 96 then Words2(i) else
    if i < 128 then Words3(i) else if i < 160 then Words4(i) else if i < 192 then Words5(i) else
    if i < 224 then Words6(i) else Words7(i)
  }

  // Sixteen words at a time.

  lemma TableFrom0(i: bv8)
    requires i < 16
    ensures Words0(i) == Divide8(i as bv32)
  {
  }

  lemma TableFrom16(i: bv8)
    requires 16 <= i < 32
    ensures Words0(i) == Divide8(i as bv32)
  {
  }

  lemma TableFrom32(i: bv8)
    requires 32 <= i < 48
    ensures Words1(i) == Divide8(i as bv32)
  {
  }

  lemma TableFrom48(i: bv8)
    requires 48 <= i < 64
    ensures Words1(i) == Divide8(i as bv32)
  {
  }

  lemma TableFrom64(i: bv8)
    requires 64 <= i < 80
    ensures Words2(i) == Divide8(i as bv32)
  {
  }

  lemma TableFrom80(i: bv8)
    requires 80 <= i < 96
    ensures Words2(i) == Divide8(i as bv32)
  {
  }

  lemma TableFrom96(i: bv8)
    requires 96 <= i < 112
    ensures Words3(i) == Divide8(i as bv32)
  {
  }

  lemma TableFrom112(i: bv8)
    requires 112 <= i < 128
    ensures Words3(i) == Divide8(i as bv32)
  {
  }

  lemma TableFrom128(i: bv8)
    requires 128 <= i < 144
    ensures Words4(i) == Divide8(i as bv32)
  {
  }

  lemma TableFrom144(i: bv8)
    requires 144 <= i < 160
    ensures Words4(i) == Divide8(i as bv32)
  {
  }

  lemma TableFrom160(i: bv8)
    requires 160 <= i < 176
    ensures Words5(i) == Divide8(i as bv32)
  {
  }

  lemma TableFrom176(i: bv8)
    requires 176 <= i < 192
    ensures Words5(i) == Divide8(i as bv32)
  {
  }

  lemma TableFrom192(i: bv8)
    requires 192 <= i < 208
    ensures Words6(i) == Divide8(i as bv32)
  {
  }

  lemma TableFrom208(i: bv8)
    requires 208 <= i < 224
    ensures Words6(i) == Divide8(i as bv32)
  {
  }

  lemma TableFrom224(i: bv8)
    requires 224 <= i < 240
    ensures Words7(i) == Divide8(i as bv32)
  {
  }

  lemma TableFrom240(i: bv8)
    requires 240 <= i
    ensures Words7(i) == Divide8(i as bv32)
  {
  }

  lemma TableIsDivision(i: bv8)
    ensures Table(i) == Divide8(i as bv32)
  {
    hide Words0, Words1, Words2, Words3, Words4, Words5, Words6, Words7, Divide8;
    if i < 16 { TableFrom0(i); }
    else if i < 32 { TableFrom16(i); }
    else if i < 48 { TableFrom32(i); }
    else if i < 64 { TableFrom48(i); }
    else if i < 80 { TableFrom64(i); }
    else if i < 96 { TableFrom80(i); }
    else if i < 112 { TableFrom96(i); }
    else if i < 128 { TableFrom112(i); }
    else if i < 144 { TableFrom128(i); }
    else if i < 160 { TableFrom144(i); }
    else if i < 176 { TableFrom160(i); }
    else if i < 192 { TableFrom176(i); }
    else if i < 208 { TableFrom192(i); }
    else if i < 224 { TableFrom208(i); }
    else if i < 240 { TableFrom224(i); }
    else { TableFrom240(i); }
  }

  // ---- Division is linear, so eight steps split into a shift and a table word ----

  lemma Linear00(x: bv32, y: bv32)
    requires x & 1 == 0 && y & 1 == 0
    ensures Divide(x ^ y) == Divide(x) ^ Divide(y)
  {
  }

  lemma Linear01(x: bv32, y: bv32)
    requires x & 1 == 0 && y & 1 == 1
    ensures Divide(x ^ y) == Divide(x) ^ Divide(y)
  {
  }

  lemma Linear10(x: bv32, y: bv32)
    requires x & 1 == 1 && y & 1 == 0
    ensures Divide(x ^ y) == Divide(x) ^ Divide(y)
  {
  }

  lemma Linear11(x: bv32, y: bv32)
    requires x & 1 == 1 && y & 1 == 1
    ensures Divide(x ^ y) == Divide(x) ^ Divide(y)
  {
  }

  lemma LowBit(x: bv32)
    ensures x & 1 == 0 || x & 1 == 1
  {
  }

  lemma DivideLinear(x: bv32, y: bv32)
    ensures Divide(x ^ y) == Divide(x) ^ Divide(y)
  {
    hide Divide;
    LowBit(x);
    LowBit(y);
    if x & 1 == 0 {
      if y & 1 == 0 { Linear00(x, y); } else { Linear01(x, y); }
    } else {
      if y & 1 == 0 { Linear10(x, y); } else { Linear11(x, y); }
    }
  }

  function Divisions(c: bv32, n: nat): bv32
    decreases n
  {
    if n == 0 then c else Divisions(Divide(c), n - 1)
  }

  lemma EightDivisions(c: bv32)
    ensures Divide8(c) == Divisions(c, 8)
  {
    hide Divide;
    var c2 := Divide(Divide(c));
    var c4 := Divide(Divide(c2));
    var c6 := Divide(Divide(c4));
    assert Divisions(Divide(c6), 1) == Divisions(Divide(Divide(c6)), 0);
    assert Divisions(c6, 2) == Divide(Divide(c6));
    assert Divisions(c4, 4) == Divisions(c6, 2);
    assert Divisions(c2, 6) == Divisions(c4, 4);
  }

  lemma {:induction false} DivisionsLinear(x: bv32, y: bv32, n: nat)
    ensures Divisions(Xor(x, y), n) == Xor(Divisions(x, n), Divisions(y, n))
    decreases n
  {
    if n > 0 {
      DivideXor(x, y);
      hide Divide, Xor;
      DivisionsLinear(Divide(x), Divide(y), n - 1);
    }
  }

  lemma DivideXor(x: bv32, y: bv32)
    ensures Divide(Xor(x, y)) == Xor(Divide(x), Divide(y))
  {
    DivideLinear(x, y);
  }

  lemma ShiftOnly(x: bv32)
    ensures Divide8(High(x)) == Shift(x)
  {
  }

  lemma SplitLowByte(x: bv32)
    ensures x == Xor(High(x), Widen(Low(x)))
  {
  }

  lemma TableOfLow(b: bv8)
    ensures Table(b) == Divide8(Widen(b))
  {
    hide Table, Divide8;
    TableIsDivision(b);
  }

  /** Eight divisions of a register are one table look-up. */
  lemma EightStepsAreOneLookup(x: bv32)
    ensures Divide8(x) == Xor(Shift(x), Table(Low(x)))
  {
    hide Table, Divide, Divide8, Divisions, Xor, High, Low, Widen, Shift;
    SplitLowByte(x);
    EightDivisions(x);
    EightDivisions(High(x));
    EightDivisions(Widen(Low(x)));
    DivisionsLinear(High(x), Widen(Low(x)), 8);
    ShiftOnly(x);
    TableOfLow(Low(x));
  }

  // ---- The two loops ----

  /** stbiw__crc32 masks the register before it meets the byte. */
  function StbiwIndex(crc: bv32, b: bv8): bv8 { b ^ ((crc & 0xff) as bv8) }

  /** encoding_crc32 masks the register after it has met the byte. */
  function EncodingIndex(crc: bv32, b: bv8): bv8 { ((crc ^ (b as bv32)) & 0xff) as bv8 }

  /** Both files index with the low byte of the register and shift the rest. */
  lemma LookupForms(crc: bv32, b: bv8)
    ensures Low(Xor(crc, Widen(b))) == StbiwIndex(crc, b) == EncodingIndex(crc, b)
    ensures Shift(Xor(crc, Widen(b))) == Shift(crc)
  {
  }

  lemma XorCommutes(a: bv32, b: bv32)
    ensures Xor(a, b) == Xor(b, a)
  {
  }

  lemma LookupStep(crc: bv32, b: bv8)
    ensures Xor(Shift(crc), Table(StbiwIndex(crc, b))) == Divide8(Xor(crc, Widen(b)))
    ensures Xor(Table(EncodingIndex(crc, b)), Shift(crc)) == Divide8(Xor(crc, Widen(b)))
  {
    hide Table, Divide8, Low, Widen, Xor, Shift, StbiwIndex, EncodingIndex;
    LookupForms(crc, b);
    EightStepsAreOneLookup(Xor(crc, Widen(b)));
    XorCommutes(Shift(crc), Table(EncodingIndex(crc, b)));
  }

  /** stbiw__crc32. */
  method StbiwCrc32(buffer: seq<bv8>) returns (r: bv32)
    ensures r == Crc(buffer)
  {
    hide Table, Divide8, Xor, Widen, Shift, StbiwIndex;
    var crc: bv32 := 0xFFFF_FFFF;
    assert buffer[0..] == buffer;
    for i := 0 to |buffer|
      invariant Register(0xFFFF_FFFF, buffer) == Register(crc, buffer[i..])
    {
      LookupStep(crc, buffer[i]);
      assert buffer[i..][1..] == buffer[i + 1..];
      crc := Xor(Shift(crc), Table(StbiwIndex(crc, buffer[i])));
    }
    r := Not(crc);
  }

  /** What encoding_crc32 must return for data that follows data with checksum `crc`. */
  function Continued(crc: bv32, s: seq<bv8>): bv32 {
    Not(Register(Not(crc), s))
  }

  /** encoding_crc32, table branch: `crc` is the checksum of whatever came before. */
  method EncodingCrc32(crc: bv32, s: seq<bv8>) returns (r: bv32)
    ensures r == Continued(crc, s)
  {
    hide Table, Divide8, Xor, Widen, Shift, EncodingIndex;
    var c := Not(crc);
    assert s[0..] == s;
    for i := 0 to |s|
      invariant Register(Not(crc), s) == Register(c, s[i..])
    {
      LookupStep(c, s[i]);
      assert s[i..][1..] == s[i + 1..];
      c := Xor(Table(EncodingIndex(c, s[i])), Shift(c));
    }
    r := Not(c);
  }

  /** A checksum of a prefix can be continued over the rest. */
  lemma {:induction false} RegisterAppend(c: bv32, a: seq<bv8>, b: seq<bv8>)
    ensures Register(c, a + b) == Register(Register(c, a), b)
    decreases |a|
  {
    hide Divide8;
    if |a| == 0 {
      assert a + b == b;
    } else {
      assert (a + b)[1..] == a[1..] + b;
      RegisterAppend(Divide8(Xor(c, Widen(a[0]))), a[1..], b);
    }
  }

  lemma NotTwice(x: bv32)
    ensures Not(Not(x)) == x && Not(0) == 0xFFFF_FFFF
  {
  }

  /** encoding_crc32 of nothing-so-far is the PNG checksum, and it continues over concatenated data. */
  lemma ChecksumContinues(a: seq<bv8>, b: seq<bv8>)
    ensures Continued(0, a) == Crc(a)
    ensures Continued(Continued(0, a), b) == Crc(a + b)
  {
    hide Register, Not;
    NotTwice(0);
    NotTwice(Register(0xFFFF_FFFF, a));
    RegisterAppend(0xFFFF_FFFF, a, b);
  }

  // ---- What the checksum detects ----

  lemma DivideInjective(x: bv32, y: bv32)
    requires Divide(x) == Divide(y)
    ensures x == y
  {
  }

  lemma {:induction false} DivisionsInjective(x: bv32, y: bv32, n: nat)
    requires Divisions(x, n) == Divisions(y, n)
    ensures x == y
    decreases n
  {
    hide Divide;
    if n > 0 {
      DivisionsInjective(Divide(x), Divide(y), n - 1);
      DivideInjective(x, y);
    }
  }

  lemma {:induction false} DivisionsAdd(x: bv32, m: nat, n: nat)
    ensures Divisions(x, m + n) == Divisions(Divisions(x, m), n)
    decreases m
  {
    hide Divide;
    if m > 0 {
      DivisionsAdd(Divide(x), m - 1, n);
    }
  }

  function ShiftUp(x: bv32): bv32 { x << 8 }

  /** Up to four bytes as one word, the first byte lowest. */
  function Word(u: seq<bv8>): bv32
    decreases |u|
  {
    if |u| == 0 then 0 else Xor(Widen(u[0]), ShiftUp(Word(u[1..])))
  }

  /** Whether only the low `k` bytes of a word are used. */
  predicate Narrow(x: bv32, k: nat) {
    if k == 0 then x == 0 else if k == 1 then x >> 8 == 0 else if k == 2 then x >> 16 == 0 else
    if k == 3 then x >> 24 == 0 else true
  }

  lemma NarrowStep(b: bv8, w: bv32, k: nat)
    requires k <= 3 && Narrow(w, k)
    ensures Narrow(Xor(Widen(b), ShiftUp(w)), k + 1)
  {
  }

  lemma WordParts(b: bv8, w: bv32, k: nat)
    requires k <= 3 && Narrow(w, k)
    ensures Low(Xor(Widen(b), ShiftUp(w))) == b && Shift(Xor(Widen(b), ShiftUp(w))) == w
  {
  }

  lemma ShiftUpDown(w: bv32, k: nat)
    requires k <= 3 && Narrow(w, k)
    ensures High(ShiftUp(w)) == ShiftUp(w) && Shift(ShiftUp(w)) == w
  {
  }

  lemma ShiftedWordDivides(w: bv32, k: nat)
    requires k <= 3 && Narrow(w, k)
    ensures Divide8(ShiftUp(w)) == w
  {
    hide Divide8, ShiftUp, Shift, High, Narrow;
    ShiftUpDown(w, k);
    ShiftOnly(ShiftUp(w));
  }

  lemma {:induction false} WordNarrow(u: seq<bv8>)
    requires |u| <= 4
    ensures Narrow(Word(u), |u|)
  {
    if |u| > 0 {
      hide Xor, Widen, ShiftUp, Narrow;
      WordNarrow(u[1..]);
      NarrowStep(u[0], Word(u[1..]), |u| - 1);
    } else {
      assert Word(u) == 0;
    }
  }

  lemma XorAssociates(a: bv32, b: bv32, c: bv32)
    ensures Xor(Xor(a, b), c) == Xor(a, Xor(b, c))
  {
  }

  /** Four bytes go through the division as one word. */
  lemma {:induction false} RegisterIsOneDivision(c: bv32, u: seq<bv8>)
    requires |u| <= 4
    ensures Register(c, u) == Divisions(Xor(c, Word(u)), 8 * |u|)
    decreases |u|
  {
    if |u| == 0 {
      assert Xor(c, 0) == c;
    } else {
      var b, w := u[0], Word(u[1..]);
      hide Xor, Widen, ShiftUp, Divide8, Divisions, Narrow;
      WordNarrow(u[1..]);
      ShiftedWordDivides(w, |u| - 1);
      var x := Xor(c, Widen(b));
      RegisterIsOneDivision(Divide8(x), u[1..]);
      EightDivisions(x);
      EightDivisions(ShiftUp(w));
      DivisionsLinear(x, ShiftUp(w), 8);
      XorAssociates(c, Widen(b), ShiftUp(w));
      DivisionsAdd(Xor(x, ShiftUp(w)), 8, 8 * (|u| - 1));
    }
  }

  lemma {:induction false} WordInjective(u: seq<bv8>, v: seq<bv8>)
    requires |u| == |v| <= 4 && Word(u) == Word(v)
    ensures u == v
    decreases |u|
  {
    if |u| > 0 {
      hide Xor, Widen, ShiftUp, Low, Shift, Narrow, Divide8;
      WordNarrow(u[1..]);
      WordNarrow(v[1..]);
      WordParts(u[0], Word(u[1..]), |u| - 1);
      WordParts(v[0], Word(v[1..]), |u| - 1);
      WordInjective(u[1..], v[1..]);
      assert u == [u[0]] + u[1..] && v == [v[0]] + v[1..];
    }
  }

  lemma {:induction false} RegisterInjective(c: bv32, d: bv32, s: seq<bv8>)
    requires Register(c, s) == Register(d, s)
    ensures c == d
    decreases |s|
  {
    if |s| > 0 {
      hide Xor, Widen, Divide8, Divisions;
      var b := Widen(s[0]);
      RegisterInjective(Divide8(Xor(c, b)), Divide8(Xor(d, b)), s[1..]);
      EightDivisions(Xor(c, b));
      EightDivisions(Xor(d, b));
      DivisionsInjective(Xor(c, b), Xor(d, b), 8);
      XorCancels(c, d, b);
    }
  }

  lemma XorCancels(c: bv32, d: bv32, b: bv32)
    ensures Xor(c, b) == Xor(d, b) ==> c == d
    ensures Xor(b, c) == Xor(b, d) ==> c == d
  {
  }

  /** Any corruption confined to four consecutive bytes changes the checksum. */
  lemma BurstDetected(before: seq<bv8>, u: seq<bv8>, v: seq<bv8>, after: seq<bv8>)
    requires |u| == |v| <= 4 && u != v
    ensures Crc(before + u + after) != Crc(before + v + after)
  {
    hide Register, Word, Not, Xor, Divisions;
    var start: bv32 := 0xFFFF_FFFF;
    var c := Register(start, before);
    RegisterAppend(start, before + u, after);
    RegisterAppend(start, before, u);
    RegisterAppend(start, before + v, after);
    RegisterAppend(start, before, v);
    NotTwice(Register(start, before + u + after));
    NotTwice(Register(start, before + v + after));
    if Crc(before + u + after) == Crc(before + v + after) {
      RegisterInjective(Register(c, u), Register(c, v), after);
      RegisterIsOneDivision(c, u);
      RegisterIsOneDivision(c, v);
      DivisionsInjective(Xor(c, Word(u)), Xor(c, Word(v)), 8 * |u|);
      XorCancels(Word(u), Word(v), c);
      WordInjective(u, v);
    }
  }

  // ---- Known answers ----

  /** One byte through the table. */
  function Step(c: bv32, b: bv8): bv32 {
    Xor(Shift(c), Table(StbiwIndex(c, b)))
  }

  lemma RegisterStep(c: bv32, b: bv8, rest: seq<bv8>)
    ensures Register(c, [b] + rest) == Register(Step(c, b), rest)
  {
    LookupStep(c, b);
    hide Divide8, Table, Xor, Widen, Shift, StbiwIndex;
    assert ([b] + rest)[1..] == rest;
  }

  /** The checksum of the tag of a PNG end chunk, and of nothing. */
  lemma CheckIend()
    ensures Crc([73, 69, 78, 68]) == 0xAE42_6082 && Crc([]) == 0
  {
    FirstSteps();
    LastSteps();
    hide Step, Register;
    RegisterStep(0xFFFF_FFFF, 73, [69, 78, 68]);
    RegisterStep(0x22FD_E946, 69, [78, 68]);
    RegisterStep(0x992B_AC53, 78, [68]);
    RegisterStep(0x639F_4775, 68, []);
    var s0: seq<bv8>, s1: seq<bv8>, s2: seq<bv8>, s3: seq<bv8> := [73, 69, 78, 68], [69, 78, 68], [78, 68], [68];
    assert s0 == [73] + s1 && s1 == [69] + s2 && s2 == [78] + s3 && s3 == [68] + [];
    NoData(0x51BD_9F7D);
    NoData(0xFFFF_FFFF);
  }

  lemma NoData(c: bv32)
    ensures Register(c, []) == c
  {
  }

  lemma FirstSteps()
    ensures Step(0xFFFF_FFFF, 73) == 0x22FD_E946 && Step(0x22FD_E946, 69) == 0x992B_AC53
  {
  }

  lemma LastSteps()
    ensures Step(0x992B_AC53, 78) == 0x639F_4775 && Step(0x639F_4775, 68) == 0x51BD_9F7D
  {
  }
}
