/**
  The table-driven CRC-32 of vlr-util/util.crc32.h, proved against a shift register that takes
  the message one bit at a time, least significant bit first (the CRC of RFC 1952, section 8).
*/
module Crc32 {
  import opened ShiftRegister

  // ---------- The literal table ----------

  function Pick(i: bv8,
      t0: bv32, t1: bv32, t2: bv32, t3: bv32, t4: bv32, t5: bv32, t6: bv32, t7: bv32,
      t8: bv32, t9: bv32, ta: bv32, tb: bv32, tc: bv32, td: bv32, te: bv32, tf: bv32): bv32
  {
    match i & 0x0f
    case 0x0 => t0 case 0x1 => t1 case 0x2 => t2 case 0x3 => t3 case 0x4 => t4 case 0x5 => t5 case 0x6 => t6 case 0x7 => t7
    case 0x8 => t8 case 0x9 => t9 case 0xa => ta case 0xb => tb case 0xc => tc case 0xd => td case 0xe => te case _ => tf
  }

  /** The 256-entry table, sixteen entries to a row. */
  function CrcTable(i: bv8): bv32 {
    match i >> 4
    case 0x0 => Pick(i,
      0x00000000, 0x77073096, 0xee0e612c, 0x990951ba, 0x076dc419, 0x706af48f, 0xe963a535, 0x9e6495a3,
      0x0edb8832, 0x79dcb8a4, 0xe0d5e91e, 0x97d2d988, 0x09b64c2b, 0x7eb17cbd, 0xe7b82d07, 0x90bf1d91)
    case 0x1 => Pick(i,
      0x1db71064, 0x6ab020f2, 0xf3b97148, 0x84be41de, 0x1adad47d, 0x6ddde4eb, 0xf4d4b551, 0x83d385c7,
      0x136c9856, 0x646ba8c0, 0xfd62f97a, 0x8a65c9ec, 0x14015c4f, 0x63066cd9, 0xfa0f3d63, 0x8d080df5)
    case 0x2 => Pick(i,
      0x3b6e20c8, 0x4c69105e, 0xd56041e4, 0xa2677172, 0x3c03e4d1, 0x4b04d447, 0xd20d85fd, 0xa50ab56b,
      0x35b5a8fa, 0x42b2986c, 0xdbbbc9d6, 0xacbcf940, 0x32d86ce3, 0x45df5c75, 0xdcd60dcf, 0xabd13d59)
    case 0x3 => Pick(i,
      0x26d930ac, 0x51de003a, 0xc8d75180, 0xbfd06116, 0x21b4f4b5, 0x56b3c423, 0xcfba9599, 0xb8bda50f,
      0x2802b89e, 0x5f058808, 0xc60cd9b2, 0xb10be924, 0x2f6f7c87, 0x58684c11, 0xc1611dab, 0xb6662d3d)
    case 0x4 => Pick(i,
      0x76dc4190, 0x01db7106, 0x98d220bc, 0xefd5102a, 0x71b18589, 0x06b6b51f, 0x9fbfe4a5, 0xe8b8d433,
      0x7807c9a2, 0x0f00f934, 0x9609a88e, 0xe10e9818, 0x7f6a0dbb, 0x086d3d2d, 0x91646c97, 0xe6635c01)
    case 0x5 => Pick(i,
      0x6b6b51f4, 0x1c6c6162, 0x856530d8, 0xf262004e, 0x6c0695ed, 0x1b01a57b, 0x8208f4c1, 0xf50fc457,
      0x65b0d9c6, 0x12b7e950, 0x8bbeb8ea, 0xfcb9887c, 0x62dd1ddf, 0x15da2d49, 0x8cd37cf3, 0xfbd44c65)
    case 0x6 => Pick(i,
      0x4db26158, 0x3ab551ce, 0xa3bc0074, 0xd4bb30e2, 0x4adfa541, 0x3dd895d7, 0xa4d1c46d, 0xd3d6f4fb,
      0x4369e96a, 0x346ed9fc, 0xad678846, 0xda60b8d0, 0x44042d73, 0x33031de5, 0xaa0a4c5f, 0xdd0d7cc9)
    case 0x7 => Pick(i,
      0x5005713c, 0x270241aa, 0xbe0b1010, 0xc90c2086, 0x5768b525, 0x206f85b3, 0xb966d409, 0xce61e49f,
      0x5edef90e, 0x29d9c998, 0xb0d09822, 0xc7d7a8b4, 0x59b33d17, 0x2eb40d81, 0xb7bd5c3b, 0xc0ba6cad)
    case 0x8 => Pick(i,
      0xedb88320, 0x9abfb3b6, 0x03b6e20c, 0x74b1d29a, 0xead54739, 0x9dd277af, 0x04db2615, 0x73dc1683,
      0xe3630b12, 0x94643b84, 0x0d6d6a3e, 0x7a6a5aa8, 0xe40ecf0b, 0x9309ff9d, 0x0a00ae27, 0x7d079eb1)
    case 0x9 => Pick(i,
      0xf00f9344, 0x8708a3d2, 0x1e01f268, 0x6906c2fe, 0xf762575d, 0x806567cb, 0x196c3671, 0x6e6b06e7,
      0xfed41b76, 0x89d32be0, 0x10da7a5a, 0x67dd4acc, 0xf9b9df6f, 0x8ebeeff9, 0x17b7be43, 0x60b08ed5)
    case 0xa => Pick(i,
      0xd6d6a3e8, 0xa1d1937e, 0x38d8c2c4, 0x4fdff252, 0xd1bb67f1, 0xa6bc5767, 0x3fb506dd, 0x48b2364b,
      0xd80d2bda, 0xaf0a1b4c, 0x36034af6, 0x41047a60, 0xdf60efc3, 0xa867df55, 0x316e8eef, 0x4669be79)
    case 0xb => Pick(i,
      0xcb61b38c, 0xbc66831a, 0x256fd2a0, 0x5268e236, 0xcc0c7795, 0xbb0b4703, 0x220216b9, 0x5505262f,
      0xc5ba3bbe, 0xb2bd0b28, 0x2bb45a92, 0x5cb36a04, 0xc2d7ffa7, 0xb5d0cf31, 0x2cd99e8b, 0x5bdeae1d)
    case 0xc => Pick(i,
      0x9b64c2b0, 0xec63f226, 0x756aa39c, 0x026d930a, 0x9c0906a9, 0xeb0e363f, 0x72076785, 0x05005713,
      0x95bf4a82, 0xe2b87a14, 0x7bb12bae, 0x0cb61b38, 0x92d28e9b, 0xe5d5be0d, 0x7cdcefb7, 0x0bdbdf21)
    case 0xd => Pick(i,
      0x86d3d2d4, 0xf1d4e242, 0x68ddb3f8, 0x1fda836e, 0x81be16cd, 0xf6b9265b, 0x6fb077e1, 0x18b74777,
      0x88085ae6, 0xff0f6a70, 0x66063bca, 0x11010b5c, 0x8f659eff, 0xf862ae69, 0x616bffd3, 0x166ccf45)
    case 0xe => Pick(i,
      0xa00ae278, 0xd70dd2ee, 0x4e048354, 0x3903b3c2, 0xa7672661, 0xd06016f7, 0x4969474d, 0x3e6e77db,
      0xaed16a4a, 0xd9d65adc, 0x40df0b66, 0x37d83bf0, 0xa9bcae53, 0xdebb9ec5, 0x47b2cf7f, 0x30b5ffe9)
    case _ => Pick(i,
      0xbdbdf21c, 0xcabac28a, 0x53b39330, 0x24b4a3a6, 0xbad03605, 0xcdd70693, 0x54de5729, 0x23d967bf,
      0xb3667a2e, 0xc4614ab8, 0x5d681b02, 0x2a6f2b94, 0xb40bbe37, 0xc30c8ea1, 0x5a05df1b, 0x2d02ef8d)
  }

  // ---------- 32-bit words and their coefficients ----------

  function Bit(x: bv32, i: nat): bool {
    if i == 0 then x & 1 == 1 else Bit(x >> 1, i - 1)
  }

  function Bits(x: bv32): Word {
    seq(32, i requires 0 <= i < 32 => Bit(x, i))
  }

  /** Recombines what is known of the low bits and of the remaining bits. */
  lemma XorCombine(x: bv32, y: bv32, z: bv32, x': bv32, y': bv32, z': bv32, i: nat)
    requires z & 1 == 1 <==> (x & 1 == 1) != (y & 1 == 1)
    requires x' == x >> 1 && y' == y >> 1 && z' == z >> 1
    requires i > 0 ==> Bit(z', i - 1) == (Bit(x', i - 1) != Bit(y', i - 1))
    ensures Bit(z, i) == (Bit(x, i) != Bit(y, i))
  {}

  /** z is the exclusive or of x and y. */
  predicate IsXor(x: bv32, y: bv32, z: bv32) {
    z ^ x == y
  }

  lemma XorHalves(x: bv32, y: bv32, z: bv32)
    requires IsXor(x, y, z)
    ensures z & 1 == 1 <==> (x & 1 == 1) != (y & 1 == 1)
    ensures IsXor(x >> 1, y >> 1, z >> 1)
  {}

  lemma {:induction false} BitOfXor(x: bv32, y: bv32, z: bv32, i: nat)
    requires IsXor(x, y, z)
    ensures Bit(z, i) == (Bit(x, i) != Bit(y, i))
    decreases i
  {
    XorHalves(x, y, z);
    if i > 0 {
      BitOfXor(x >> 1, y >> 1, z >> 1, i - 1);
    }
    XorCombine(x, y, z, x >> 1, y >> 1, z >> 1, i);
  }

  lemma XorIsXor(x: bv32, y: bv32, z: bv32)
    requires z == x ^ y
    ensures IsXor(x, y, z)
  {}

  lemma BitXor(x: bv32, y: bv32, z: bv32, i: nat)
    requires z == x ^ y
    ensures Bit(z, i) == (Bit(x, i) != Bit(y, i))
  {
    XorIsXor(x, y, z);
    BitOfXor(x, y, z, i);
  }

  lemma BitsXor(x: bv32, y: bv32, z: bv32)
    requires z == x ^ y
    ensures Bits(z) == Xor(Bits(x), Bits(y))
  {
    forall i | 0 <= i < 32 ensures Bits(z)[i] == (Bits(x)[i] != Bits(y)[i]) {
      BitXor(x, y, z, i);
    }
  }

  lemma AndCombine(x: bv32, y: bv32, z: bv32, x': bv32, y': bv32, z': bv32, i: nat)
    requires z & 1 == 1 <==> (x & 1 == 1) && (y & 1 == 1)
    requires x' == x >> 1 && y' == y >> 1 && z' == z >> 1
    requires i > 0 ==> Bit(z', i - 1) == (Bit(x', i - 1) && Bit(y', i - 1))
    ensures Bit(z, i) == (Bit(x, i) && Bit(y, i))
  {}

  lemma AndHalves(x: bv32, y: bv32, z: bv32)
    requires z == x & y
    ensures z & 1 == 1 <==> (x & 1 == 1) && (y & 1 == 1)
    ensures z >> 1 == (x >> 1) & (y >> 1)
  {}

  lemma {:induction false} BitAnd(x: bv32, y: bv32, z: bv32, i: nat)
    requires z == x & y
    ensures Bit(z, i) == (Bit(x, i) && Bit(y, i))
    decreases i
  {
    AndHalves(x, y, z);
    if i > 0 {
      BitAnd(x >> 1, y >> 1, z >> 1, i - 1);
    }
    AndCombine(x, y, z, x >> 1, y >> 1, z >> 1, i);
  }

  lemma ByteShift(x: bv32)
    ensures x >> 1 >> 1 >> 1 >> 1 >> 1 >> 1 >> 1 >> 1 == x >> 8
  {}

  lemma BitShift8(x: bv32, i: nat)
    ensures Bit(x >> 8, i) == Bit(x, i + 8)
  {
    calc {
      Bit(x, i + 8);
      Bit(x >> 1, i + 7);
      Bit(x >> 1 >> 1, i + 6);
      Bit(x >> 1 >> 1 >> 1, i + 5);
      Bit(x >> 1 >> 1 >> 1 >> 1, i + 4);
      Bit(x >> 1 >> 1 >> 1 >> 1 >> 1, i + 3);
      Bit(x >> 1 >> 1 >> 1 >> 1 >> 1 >> 1, i + 2);
      Bit(x >> 1 >> 1 >> 1 >> 1 >> 1 >> 1 >> 1, i + 1);
      Bit(x >> 1 >> 1 >> 1 >> 1 >> 1 >> 1 >> 1 >> 1, i);
      { ByteShift(x); }
      Bit(x >> 8, i);
    }
  }

  lemma {:induction false} BitOfZero(i: nat)
    ensures !Bit(0, i)
    decreases i
  {
    if i > 0 { BitOfZero(i - 1); }
  }

  lemma NoBitLeft(x: bv32)
    ensures x >> 8 >> 8 >> 8 >> 8 == 0
  {}

  lemma BitBeyond(x: bv32, i: nat)
    requires i >= 32
    ensures !Bit(x, i)
  {
    calc {
      Bit(x, i);
      { BitShift8(x, i - 8); }
      Bit(x >> 8, i - 8);
      { BitShift8(x >> 8, i - 16); }
      Bit(x >> 8 >> 8, i - 16);
      { BitShift8(x >> 8 >> 8, i - 24); }
      Bit(x >> 8 >> 8 >> 8, i - 24);
      { BitShift8(x >> 8 >> 8 >> 8, i - 32); }
      Bit(x >> 8 >> 8 >> 8 >> 8, i - 32);
      { NoBitLeft(x); }
      Bit(0, i - 32);
    }
    BitOfZero(i - 32);
  }

  lemma BitOfByteMask(i: nat)
    ensures Bit(0xff, i) == (i < 8)
  {
    if i >= 8 {
      BitShift8(0xff, i - 8);
      BitOfZero(i - 8);
    } else if i > 0 {
      assert Bit(0xff, i) == Bit(0x7f, i - 1);
      if i > 1 { assert Bit(0x7f, i - 1) == Bit(0x3f, i - 2); }
      if i > 2 { assert Bit(0x3f, i - 2) == Bit(0x1f, i - 3); }
      if i > 3 { assert Bit(0x1f, i - 3) == Bit(0x0f, i - 4); }
      if i > 4 { assert Bit(0x0f, i - 4) == Bit(0x07, i - 5); }
      if i > 5 { assert Bit(0x07, i - 5) == Bit(0x03, i - 6); }
      if i > 6 { assert Bit(0x03, i - 6) == Bit(0x01, i - 7); }
    }
  }

  lemma BitsShift8(x: bv32)
    ensures Bits(x >> 8) == Bits(x)[8..] + Zeros(8)
  {
    var w := Bits(x)[8..] + Zeros(8);
    forall i | 0 <= i < 32 ensures Bits(x >> 8)[i] == w[i] {
      BitShift8(x, i);
      if i >= 24 { BitBeyond(x, i + 8); }
    }
  }

  lemma BitsLowByte(x: bv32)
    ensures Bits(x & 0xff) == Bits(x)[..8] + Zeros(24)
  {
    var w := Bits(x)[..8] + Zeros(24);
    forall i | 0 <= i < 32 ensures Bits(x & 0xff)[i] == w[i] {
      BitAnd(x, 0xff, x & 0xff, i);
      BitOfByteMask(i);
    }
  }

  // ---------- The register step on words ----------

  const POLYNOMIAL: bv32 := 0xedb88320

  /** The generator of RFC 1952, section 8, as coefficients. */
  function Generator(): Word {
    Bits(POLYNOMIAL)
  }

  function WordStep(r: bv32): bv32 {
    if r & 1 == 1 then (r >> 1) ^ POLYNOMIAL else r >> 1
  }

  lemma WordStepOdd(x: bv32)
    requires x & 1 == 1
    ensures WordStep(x) == (x >> 1) ^ POLYNOMIAL
  {}

  lemma WordStepEven(x: bv32)
    requires x & 1 != 1
    ensures WordStep(x) == x >> 1
  {}

  lemma BitWordStep(x: bv32, i: nat)
    ensures Bit(WordStep(x), i) == (Bit(x, i + 1) != (Bit(x, 0) && Bit(POLYNOMIAL, i)))
  {
    if x & 1 == 1 {
      calc {
        Bit(WordStep(x), i);
        { WordStepOdd(x); }
        Bit((x >> 1) ^ POLYNOMIAL, i);
        { BitXor(x >> 1, POLYNOMIAL, (x >> 1) ^ POLYNOMIAL, i); }
        Bit(x >> 1, i) != Bit(POLYNOMIAL, i);
        Bit(x, i + 1) != Bit(POLYNOMIAL, i);
      }
    } else {
      calc {
        Bit(WordStep(x), i);
        { WordStepEven(x); }
        Bit(x >> 1, i);
        Bit(x, i + 1);
      }
    }
  }

  lemma BitsWordStep(x: bv32)
    ensures Bits(WordStep(x)) == Step(Generator(), Bits(x))
  {
    forall i | 0 <= i < 32 ensures Bits(WordStep(x))[i] == Step(Generator(), Bits(x))[i] {
      BitWordStep(x, i);
      if i == 31 { BitBeyond(x, 32); }
    }
  }

  // ---------- A table entry is eight register steps ----------

  function WordStep8(r: bv32): bv32 {
    WordStep(WordStep(WordStep(WordStep(WordStep(WordStep(WordStep(WordStep(r))))))))
  }

  lemma TableEntryFirstHalf(i: bv8)
    requires i < 8
    ensures CrcTable(i) == WordStep8(i as bv32)
  {
    match i
    case 0 => case 1 => case 2 => case 3 => case 4 => case 5 => case 6 => case _ =>
  }

  lemma TableEntrySecondHalf(i: bv8)
    requires 8 <= i < 16
    ensures CrcTable(i) == WordStep8(i as bv32)
  {
    match i
    case 8 => case 9 => case 10 => case 11 => case 12 => case 13 => case 14 => case _ =>
  }

  lemma TableEntryLow(i: bv8)
    requires 0 < i >> 4 < 8
    ensures CrcTable(i) == WordStep8(i as bv32)
  {
    match i >> 4
    case 1 => case 2 => case 3 => case 4 => case 5 => case 6 => case _ =>
  }

  lemma TableEntryHigh(i: bv8)
    requires i >> 4 >= 8
    ensures CrcTable(i) == WordStep8(i as bv32)
  {
    match i >> 4
    case 8 => case 9 => case 10 => case 11 => case 12 => case 13 => case 14 => case _ =>
  }

  lemma {:induction false} TableEntry(i: bv8)
    ensures CrcTable(i) == WordStep8(i as bv32)
  {
    if i < 8 {
      TableEntryFirstHalf(i);
    } else if i < 16 {
      TableEntrySecondHalf(i);
    } else if i >> 4 < 8 {
      TableEntryLow(i);
    } else {
      TableEntryHigh(i);
    }
  }

  lemma BitsWordStep8(x: bv32)
    ensures Bits(WordStep8(x)) == Steps(Generator(), 8, Bits(x))
  {
    var x1 := WordStep(x);
    var x2 := WordStep(x1);
    var x3 := WordStep(x2);
    var x4 := WordStep(x3);
    var x5 := WordStep(x4);
    var x6 := WordStep(x5);
    var x7 := WordStep(x6);
    calc {
      Steps(Generator(), 8, Bits(x));
      { BitsWordStep(x); BitsWordStep(x1); }
      Steps(Generator(), 6, Bits(x2));
      { BitsWordStep(x2); BitsWordStep(x3); }
      Steps(Generator(), 4, Bits(x4));
      { BitsWordStep(x4); BitsWordStep(x5); }
      Steps(Generator(), 2, Bits(x6));
      { BitsWordStep(x6); BitsWordStep(x7); }
      Steps(Generator(), 0, Bits(WordStep(x7)));
    }
  }

  // ---------- The message ----------

  /** The eight bits of a byte, low bit first. */
  function BitsOf(b: bv8): (bits: seq<bool>)
    ensures |bits| == 8
  {
    Bits(b as bv32)[..8]
  }

  function MessageBits(bytes: seq<bv8>): (bits: seq<bool>)
    ensures |bits| == 8 * |bytes|
  {
    if bytes == [] then [] else MessageBits(bytes[..|bytes| - 1]) + BitsOf(bytes[|bytes| - 1])
  }

  /** The register after a whole message, preset to all ones. */
  function RegisterOf(bytes: seq<bv8>): Word {
    Register(Generator(), Bits(0xffffffff), MessageBits(bytes))
  }

  // ---------- One pass of the loop ----------

  /** The value a char has after its conversion to the 32-bit operand of the exclusive or. */
  function Promoted(b: bv8): bv32 {
    if b & 0x80 != 0 then (b as bv32) | 0xffffff00 else b as bv32
  }

  lemma PromotedLowByte(b: bv8)
    ensures Promoted(b) & 0xff == b as bv32
  {}

  lemma LowBitsOf(c: bv32, b: bv8)
    requires c & 0xff == b as bv32
    ensures Bits(c)[..8] == BitsOf(b)
  {
    BitsLowByte(c);
  }

  lemma IndexRoundTrip(x: bv32, index: bv8)
    requires index == (x & 0xff) as bv8
    ensures index as bv32 == x & 0xff
  {}

  /** The table index is the low byte of the register with the message byte added in. */
  lemma BitsOfIndex(crc: bv32, c: bv32, b: bv8, x: bv32, index: bv8)
    requires c & 0xff == b as bv32
    requires x == crc ^ c
    requires index == (x & 0xff) as bv8
    ensures Bits(index as bv32) == Xor(Bits(crc)[..8], BitsOf(b)) + Zeros(24)
  {
    calc {
      Bits(index as bv32);
      { IndexRoundTrip(x, index); }
      Bits(x & 0xff);
      { BitsLowByte(x); }
      Bits(x)[..8] + Zeros(24);
      { BitsXor(crc, c, x); }
      Xor(Bits(crc), Bits(c))[..8] + Zeros(24);
      { assert Xor(Bits(crc), Bits(c))[..8] == Xor(Bits(crc)[..8], Bits(c)[..8]); LowBitsOf(c, b); }
      Xor(Bits(crc)[..8], BitsOf(b)) + Zeros(24);
    }
  }

  /** One table lookup: the entry is the index after eight register steps. */
  method TableAt(i: bv8) returns (entry: bv32)
    ensures Bits(entry) == Steps(Generator(), 8, Bits(i as bv32))
  {
    TableEntry(i);
    BitsWordStep8(i as bv32);
    entry := CrcTable(i);
  }

  /** Taking in eight bits: the upper part moves down and the table accounts for the rest. */
  lemma EightBits(g: Word, r: Word, bits: seq<bool>)
    requires |bits| == 8
    ensures Register(g, r, bits) == Xor(r[8..] + Zeros(8), Steps(g, 8, Xor(r[..8], bits) + Zeros(24)))
  {
    var w: Word := Xor(r, bits + Zeros(24));
    FeedWord(g, r, bits);
    StepsSplit(g, 8, w);
    assert w[8..] == r[8..];
    assert w[..8] == Xor(r[..8], bits);
  }

  /** One pass of the loop takes in exactly the low byte's eight bits, whatever lies above it. */
  lemma OnePass(crc: bv32, b: bv8, index: bv8, entry: bv32, next: bv32)
    requires Bits(index as bv32) == Xor(Bits(crc)[..8], BitsOf(b)) + Zeros(24)
    requires Bits(entry) == Steps(Generator(), 8, Bits(index as bv32))
    requires Bits(next) == Xor(Bits(crc >> 8), Bits(entry))
    ensures Bits(next) == Register(Generator(), Bits(crc), BitsOf(b))
  {
    BitsShift8(crc);
    EightBits(Generator(), Bits(crc), BitsOf(b));
  }

  lemma LoopPass(crc: bv32, c: bv32, b: bv8, index: bv8, entry: bv32, next: bv32)
    requires c & 0xff == b as bv32
    requires index == ((crc ^ c) & 0xff) as bv8
    requires Bits(entry) == Steps(Generator(), 8, Bits(index as bv32))
    requires next == (crc >> 8) ^ entry
    ensures Bits(next) == Register(Generator(), Bits(crc), BitsOf(b))
  {
    BitsOfIndex(crc, c, b, crc ^ c, index);
    BitsXor(crc >> 8, entry, next);
    OnePass(crc, b, index, entry, next);
  }

  lemma NextByte(bytes: seq<bv8>, i: nat)
    requires i < |bytes|
    ensures RegisterOf(bytes[..i + 1]) == Register(Generator(), RegisterOf(bytes[..i]), BitsOf(bytes[i]))
  {
    assert bytes[..i + 1][..i] == bytes[..i];
    RegisterAppend(Generator(), Bits(0xffffffff), MessageBits(bytes[..i]), BitsOf(bytes[i]));
  }

  // ---------- The two overloads ----------

  /** r is the CRC of the bytes: the register preset to ones, complemented at the end. */
  ghost predicate IsCrc(r: bv32, bytes: seq<bv8>) {
    Bits(r) == Xor(RegisterOf(bytes), Bits(0xffffffff))
  }

  method Crc32Narrow(str: seq<bv8>) returns (r: bv32)
    ensures IsCrc(r, str)
  {
    var crc: bv32 := 0xffffffff;
    for i := 0 to |str|
      invariant Bits(crc) == RegisterOf(str[..i])
    {
      var c := Promoted(str[i]);
      var index := ((crc ^ c) & 0xff) as bv8;
      var entry := TableAt(index);
      var next := (crc >> 8) ^ entry;
      PromotedLowByte(str[i]);
      LoopPass(crc, c, str[i], index, entry, next);
      NextByte(str, i);
      crc := next;
    }
    assert str[..|str|] == str;
    r := crc ^ 0xffffffff;
    BitsXor(crc, 0xffffffff, r);
  }

  function LowByte(c: bv32): bv8 {
    (c & 0xff) as bv8
  }

  lemma LowByteOf(c: bv32)
    ensures c & 0xff == LowByte(c) as bv32
  {}

  function LowBytes(str: seq<bv32>): (bytes: seq<bv8>)
    ensures |bytes| == |str|
  {
    seq(|str|, i requires 0 <= i < |str| => LowByte(str[i]))
  }

  /** The wide overload is the CRC of the low bytes of its characters. */
  method Crc32Wide(str: seq<bv32>) returns (r: bv32)
    ensures IsCrc(r, LowBytes(str))
  {
    var crc: bv32 := 0xffffffff;
    ghost var bytes := LowBytes(str);
    for i := 0 to |str|
      invariant Bits(crc) == RegisterOf(bytes[..i])
    {
      var c := str[i];
      var index := ((crc ^ c) & 0xff) as bv8;
      var entry := TableAt(index);
      var next := (crc >> 8) ^ entry;
      LowByteOf(c);
      LoopPass(crc, c, bytes[i], index, entry, next);
      NextByte(bytes, i);
      crc := next;
    }
    assert bytes[..|str|] == bytes;
    r := crc ^ 0xffffffff;
    BitsXor(crc, 0xffffffff, r);
  }

  // ---------- The bits determine the word ----------

  function Shifted(x: bv32, n: nat): bv32 {
    if n == 0 then x else Shifted(x >> 1, n - 1)
  }

  lemma ShiftedByte(x: bv32, n: nat)
    ensures Shifted(x, n + 8) == Shifted(x >> 8, n)
  {
    calc {
      Shifted(x, n + 8);
      Shifted(x >> 1, n + 7);
      Shifted(x >> 1 >> 1, n + 6);
      Shifted(x >> 1 >> 1 >> 1, n + 5);
      Shifted(x >> 1 >> 1 >> 1 >> 1, n + 4);
      Shifted(x >> 1 >> 1 >> 1 >> 1 >> 1, n + 3);
      Shifted(x >> 1 >> 1 >> 1 >> 1 >> 1 >> 1, n + 2);
      Shifted(x >> 1 >> 1 >> 1 >> 1 >> 1 >> 1 >> 1, n + 1);
      Shifted(x >> 1 >> 1 >> 1 >> 1 >> 1 >> 1 >> 1 >> 1, n);
      { ByteShift(x); }
      Shifted(x >> 8, n);
    }
  }

  lemma Halve(x: bv32)
    requires x & 1 != 1 && x >> 1 == 0
    ensures x == 0
  {}

  lemma {:induction false} ZeroFromBits(x: bv32, n: nat)
    requires Shifted(x, n) == 0
    requires forall i: nat :: i < n ==> !Bit(x, i)
    ensures x == 0
    decreases n
  {
    if n > 0 {
      assert !Bit(x, 0);
      var half := x >> 1;
      forall i: nat | i < n - 1 ensures !Bit(half, i) {
        assert !Bit(x, i + 1);
      }
      ZeroFromBits(half, n - 1);
      Halve(x);
    }
  }

  lemma XorIsZero(x: bv32, y: bv32, z: bv32)
    requires z == x ^ y && z == 0
    ensures x == y
  {}

  lemma ShiftedOut(z: bv32)
    ensures Shifted(z, 32) == 0
  {
    calc {
      Shifted(z, 32);
      { ShiftedByte(z, 24); }
      Shifted(z >> 8, 24);
      { ShiftedByte(z >> 8, 16); }
      Shifted(z >> 8 >> 8, 16);
      { ShiftedByte(z >> 8 >> 8, 8); }
      Shifted(z >> 8 >> 8 >> 8, 8);
      { ShiftedByte(z >> 8 >> 8 >> 8, 0); }
      Shifted(z >> 8 >> 8 >> 8 >> 8, 0);
      { NoBitLeft(z); }
      0;
    }
  }

  lemma NoDifferentBit(x: bv32, y: bv32, z: bv32)
    requires z == x ^ y && Bits(x) == Bits(y)
    ensures forall i: nat :: i < 32 ==> !Bit(z, i)
  {
    forall i: nat | i < 32 ensures !Bit(z, i) {
      BitXor(x, y, z, i);
      assert Bits(x)[i] == Bits(y)[i];
    }
  }

  lemma BitsInjective(x: bv32, y: bv32)
    requires Bits(x) == Bits(y)
    ensures x == y
  {
    NoDifferentBit(x, y, x ^ y);
    ShiftedOut(x ^ y);
    ZeroFromBits(x ^ y, 32);
    XorIsZero(x, y, x ^ y);
  }

  lemma CrcIsUnique(r: bv32, s: bv32, bytes: seq<bv8>)
    requires IsCrc(r, bytes) && IsCrc(s, bytes)
    ensures r == s
  {
    BitsInjective(r, s);
  }

  lemma BitsOfInjective(b: bv8, c: bv8)
    requires BitsOf(b) == BitsOf(c)
    ensures b == c
  {
    BitsLowByte(b as bv32);
    BitsLowByte(c as bv32);
    assert (b as bv32) & 0xff == b as bv32 && (c as bv32) & 0xff == c as bv32;
    BitsInjective(b as bv32, c as bv32);
  }

  lemma {:induction false} MessageBitsByByte(bytes: seq<bv8>, p: nat)
    requires p < |bytes|
    ensures MessageBits(bytes)[8 * p..8 * p + 8] == BitsOf(bytes[p])
    decreases |bytes|
  {
    var n := |bytes| - 1;
    if p < n {
      MessageBitsByByte(bytes[..n], p);
      assert MessageBits(bytes)[8 * p..8 * p + 8] == MessageBits(bytes[..n])[8 * p..8 * p + 8];
    }
  }

  // ---------- Known values ----------

  /** A register that takes in a whole byte: the byte is added in, and eight steps follow. */
  predicate IsPass(crc: bv32, c: bv32, x: bv32, next: bv32) {
    x == crc ^ c && next == WordStep8(x)
  }

  predicate IsByte(c: bv32, b: bv8) {
    c == b as bv32
  }

  lemma ByteOnly(c: bv32, b: bv8)
    requires IsByte(c, b)
    ensures c & 0xff == c && Bits(c)[..8] == BitsOf(b)
  {}

  lemma BitsOfByte(c: bv32, b: bv8)
    requires IsByte(c, b)
    ensures Bits(c) == BitsOf(b) + Zeros(24)
  {
    ByteOnly(c, b);
    BitsLowByte(c);
  }

  lemma PassOver(bytes: seq<bv8>, i: nat, crc: bv32, c: bv32, x: bv32, next: bv32)
    requires i < |bytes| && Bits(crc) == RegisterOf(bytes[..i]) && IsByte(c, bytes[i]) && IsPass(crc, c, x, next)
    ensures Bits(next) == RegisterOf(bytes[..i + 1])
  {
    BitsOfByte(c, bytes[i]);
    BitsXor(crc, c, x);
    BitsWordStep8(x);
    FeedWord(Generator(), Bits(crc), BitsOf(bytes[i]));
    NextByte(bytes, i);
  }

  /** Passes over all bytes, from the preset on, end with the register of the message. */
  lemma {:induction false} PassesOver(bytes: seq<bv8>, crcs: seq<bv32>, cs: seq<bv32>, xs: seq<bv32>, n: nat)
    requires n <= |bytes| == |cs| == |xs| && |crcs| == |bytes| + 1 && crcs[0] == 0xffffffff
    requires forall i :: 0 <= i < |bytes| ==> IsByte(cs[i], bytes[i])
    requires forall i :: 0 <= i < |bytes| ==> IsPass(crcs[i], cs[i], xs[i], crcs[i + 1])
    ensures Bits(crcs[n]) == RegisterOf(bytes[..n])
  {
    if n > 0 {
      PassesOver(bytes, crcs, cs, xs, n - 1);
      PassOver(bytes, n - 1, crcs[n - 1], cs[n - 1], xs[n - 1], crcs[n]);
    }
  }

  lemma Complement(crc: bv32, r: bv32, bytes: seq<bv8>)
    requires Bits(crc) == RegisterOf(bytes) && r == crc ^ 0xffffffff
    ensures IsCrc(r, bytes)
  {
    BitsXor(crc, 0xffffffff, r);
  }

  // The passes over the digits from one to nine.
  const DIGITS: seq<bv32> := [0x31, 0x32, 0x33, 0x34, 0x35, 0x36, 0x37, 0x38, 0x39]
  const REGISTERS: seq<bv32> := [0xffffffff, 0x7c231048, 0xb0acbb32, 0x77b79c2d, 0x641c1f5c,
    0x340ac5e3, 0xf68d2c9e, 0xaffc9660, 0x651f2550, 0x340bc6d9]
  const ADDED: seq<bv32> := [0xffffffce, 0x7c23107a, 0xb0acbb01, 0x77b79c19, 0x641c1f69,
    0x340ac5d5, 0xf68d2ca9, 0xaffc9658, 0x651f2569]

  lemma PassOfDigit(i: nat)
    requires i < 9
    ensures IsPass(REGISTERS[i], DIGITS[i], ADDED[i], REGISTERS[i + 1])
  {
    match i
    case 0 => case 1 => case 2 => case 3 => case 4 => case 5 => case 6 => case 7 => case _ =>
  }

  /** The digits from one to nine have the usual check value. */
  lemma CheckValue(digits: seq<bv8>, check: bv32)
    requires digits == [0x31, 0x32, 0x33, 0x34, 0x35, 0x36, 0x37, 0x38, 0x39] && check == 0xcbf43926
    ensures IsCrc(check, digits)
  {
    forall i | 0 <= i < 9 ensures IsPass(REGISTERS[i], DIGITS[i], ADDED[i], REGISTERS[i + 1]) {
      PassOfDigit(i);
    }
    PassesOver(digits, REGISTERS, DIGITS, ADDED, 9);
    assert digits[..9] == digits;
    Complement(REGISTERS[9], check, digits);
  }

  /** The empty message has the CRC zero. */
  lemma EmptyCrc()
    ensures IsCrc(0, [])
  {
    BitsXor(0xffffffff, 0xffffffff, 0);
  }

  lemma {:induction false} WordOf(bytes: seq<bv8>) returns (crc: bv32)
    ensures Bits(crc) == RegisterOf(bytes)
    decreases |bytes|
  {
    crc := 0xffffffff;
    if bytes != [] {
      var n := |bytes| - 1;
      var before := WordOf(bytes[..n]);
      var c := bytes[n] as bv32;
      crc := WordStep8(before ^ c);
      PassOver(bytes, n, before, c, before ^ c, crc);
      assert bytes[..n + 1] == bytes;
    }
  }

  /** Every message has a CRC. */
  lemma CrcExists(bytes: seq<bv8>) returns (r: bv32)
    ensures IsCrc(r, bytes)
  {
    var crc := WordOf(bytes);
    r := crc ^ 0xffffffff;
    Complement(crc, r, bytes);
  }
}
