/**
  What the CRC-32 of vlr-util/util.crc32.h detects, for messages of any length: every burst error
  of up to 32 bits, and all bursts of 33 bits but one. The CRC is affine under exclusive or.
*/
module Crc32Detection {
  import opened Crc32
  import opened ShiftRegister

  // ---------- Error detection ----------

  lemma XorIsZerosIff(u: Word, v: Word)
    ensures Xor(u, v) == Zeros(32) <==> u == v
  {}

  lemma ComplementCancels(u: Word, v: Word, ones: Word)
    ensures Xor(Xor(u, ones), Xor(v, ones)) == Xor(u, v)
  {}

  /** Two messages of one length: their CRCs agree exactly when their difference clears the register. */
  lemma {:induction false} SameCrcIff(r: bv32, s: bv32, a: seq<bv8>, b: seq<bv8>)
    requires |a| == |b| && IsCrc(r, a) && IsCrc(s, b)
    ensures r == s <==> Register(Generator(), Zeros(32), Xor(MessageBits(a), MessageBits(b))) == Zeros(32)
  {
    var ones := Bits(0xffffffff);
    RegisterLinear(Generator(), ones, ones, MessageBits(a), MessageBits(b));
    XorIsZerosIff(ones, ones);
    ComplementCancels(RegisterOf(a), RegisterOf(b), ones);
    XorIsZerosIff(Bits(r), Bits(s));
    if Bits(r) == Bits(s) {
      BitsInjective(r, s);
    }
  }

  lemma GeneratorTop()
    ensures Generator()[31]
  {
    BitShift8(POLYNOMIAL, 23);
    BitShift8(POLYNOMIAL >> 8, 15);
    BitShift8(POLYNOMIAL >> 8 >> 8, 7);
    BitOfTopByte();
  }

  lemma BitOfTopByte()
    ensures Bit(POLYNOMIAL >> 8 >> 8 >> 8, 7)
  {
    assert Bit(0xed, 7) == Bit(0x3b, 5) == Bit(0x0e, 3) == Bit(0x03, 1);
  }

  /**
    A burst error of up to 33 bits goes unnoticed exactly when it is the generator pattern; in
    particular every burst of up to 32 bits is noticed, in messages of any length.
  */
  lemma {:induction false} BurstUnnoticedIff(r: bv32, s: bv32, a: seq<bv8>, b: seq<bv8>, lo: nat)
    requires |a| == |b| && IsCrc(r, a) && IsCrc(s, b)
    requires lo < 8 * |a| && MessageBits(a)[lo] != MessageBits(b)[lo]
    requires forall i :: 0 <= i < 8 * |a| && (i < lo || lo + 33 <= i) ==> MessageBits(a)[i] == MessageBits(b)[i]
    ensures r == s <==> IsGeneratorAt(Generator(), Xor(MessageBits(a), MessageBits(b)), lo)
  {
    SameCrcIff(r, s, a, b);
    GeneratorTop();
    BurstClearsIff(Generator(), Xor(MessageBits(a), MessageBits(b)), lo);
  }

  lemma FirstDifference(a: seq<bool>, b: seq<bool>) returns (lo: nat)
    requires |a| == |b| && a != b
    ensures lo < |a| && a[lo] != b[lo] && a[..lo] == b[..lo]
  {
    lo := 0;
    while lo < |a| && a[lo] == b[lo]
      invariant lo <= |a| && a[..lo] == b[..lo]
    {
      lo := lo + 1;
    }
    assert a[..|a|] == a && b[..|b|] == b;
  }

  lemma {:induction false} SameByteSameBits(a: seq<bv8>, b: seq<bv8>, i: nat)
    requires |a| == |b| && i < 8 * |a| && a[i / 8] == b[i / 8]
    ensures MessageBits(a)[i] == MessageBits(b)[i]
  {
    var p := i / 8;
    MessageBitsByByte(a, p);
    MessageBitsByByte(b, p);
    assert MessageBits(a)[i] == MessageBits(a)[8 * p..8 * p + 8][i - 8 * p];
    assert MessageBits(b)[i] == MessageBits(b)[8 * p..8 * p + 8][i - 8 * p];
  }

  lemma MessageBitsInjective(a: seq<bv8>, b: seq<bv8>)
    requires |a| == |b| && MessageBits(a) == MessageBits(b)
    ensures a == b
  {
    forall i | 0 <= i < |a| ensures a[i] == b[i] {
      MessageBitsByByte(a, i);
      MessageBitsByByte(b, i);
      BitsOfInjective(a[i], b[i]);
    }
  }

  /** Any change confined to four neighbouring bytes, one changed byte above all, changes the CRC. */
  lemma FourBytesNoticed(r: bv32, s: bv32, a: seq<bv8>, b: seq<bv8>, p: nat)
    requires |a| == |b| && a != b && IsCrc(r, a) && IsCrc(s, b)
    requires forall i :: 0 <= i < |a| && (i < p || p + 4 <= i) ==> a[i] == b[i]
    ensures r != s
  {
    var A, B := MessageBits(a), MessageBits(b);
    if A == B {
      MessageBitsInjective(a, b);
    }
    var lo := FirstDifference(A, B);
    if lo < 8 * p {
      SameByteSameBits(a, b, lo);
    }
    forall i | 0 <= i < 8 * |a| && (i < lo || lo + 32 <= i) ensures A[i] == B[i] {
      if i < lo {
        assert A[..lo][i] == B[..lo][i];
      } else {
        SameByteSameBits(a, b, i);
      }
    }
    ShortBurstNoticed(r, s, a, b, lo);
  }

  lemma {:induction false} ShortBurstNoticed(r: bv32, s: bv32, a: seq<bv8>, b: seq<bv8>, lo: nat)
    requires |a| == |b| && IsCrc(r, a) && IsCrc(s, b)
    requires lo < 8 * |a| && MessageBits(a)[lo] != MessageBits(b)[lo]
    requires forall i :: 0 <= i < 8 * |a| && (i < lo || lo + 32 <= i) ==> MessageBits(a)[i] == MessageBits(b)[i]
    ensures r != s
  {
    BurstUnnoticedIff(r, s, a, b, lo);
    GeneratorTop();
    if lo + 33 <= 8 * |a| {
      assert !Xor(MessageBits(a), MessageBits(b))[lo + 1..lo + 33][31];
    }
  }

  // ---------- Affinity ----------

  function XorBytes(a: seq<bv8>, b: seq<bv8>): (c: seq<bv8>)
    requires |a| == |b|
    ensures |c| == |a|
  {
    seq(|a|, i requires 0 <= i < |a| => a[i] ^ b[i])
  }

  lemma ByteXor(b: bv8, c: bv8)
    ensures (b ^ c) as bv32 == (b as bv32) ^ (c as bv32)
  {}

  lemma XorPrefix(a: seq<bool>, b: seq<bool>, n: nat)
    requires |a| == |b| && n <= |a|
    ensures Xor(a, b)[..n] == Xor(a[..n], b[..n])
  {}

  lemma BitsOfXor(b: bv8, c: bv8, d: bv8)
    requires d == b ^ c
    ensures BitsOf(d) == Xor(BitsOf(b), BitsOf(c))
  {
    ByteXor(b, c);
    BitsXor(b as bv32, c as bv32, d as bv32);
    XorPrefix(Bits(b as bv32), Bits(c as bv32), 8);
  }

  lemma XorAppend(a: seq<bool>, b: seq<bool>, c: seq<bool>, d: seq<bool>)
    requires |a| == |c| && |b| == |d|
    ensures Xor(a + b, c + d) == Xor(a, c) + Xor(b, d)
  {}

  lemma {:induction false} MessageBitsXor(a: seq<bv8>, b: seq<bv8>)
    requires |a| == |b|
    ensures MessageBits(XorBytes(a, b)) == Xor(MessageBits(a), MessageBits(b))
    decreases |a|
  {
    if a != [] {
      var n := |a| - 1;
      var a', b', c := a[..n], b[..n], XorBytes(a, b);
      assert c[..n] == XorBytes(a', b');
      MessageBitsXor(a', b');
      calc {
        MessageBits(c);
        MessageBits(c[..n]) + BitsOf(c[n]);
        { BitsOfXor(a[n], b[n], c[n]); }
        Xor(MessageBits(a'), MessageBits(b')) + Xor(BitsOf(a[n]), BitsOf(b[n]));
        { XorAppend(MessageBits(a'), BitsOf(a[n]), MessageBits(b'), BitsOf(b[n])); }
        Xor(MessageBits(a), MessageBits(b));
      }
    }
  }

  lemma RegisterXor3(g: Word, r: Word, a: seq<bool>, b: seq<bool>, c: seq<bool>)
    requires |a| == |b| == |c|
    ensures Register(g, r, Xor(Xor(a, b), c)) == Xor(Xor(Register(g, r, a), Register(g, r, b)), Register(g, r, c))
  {
    RegisterLinear(g, r, r, a, b);
    RegisterLinear(g, Xor(r, r), r, Xor(a, b), c);
    assert Xor(Xor(r, r), r) == r;
  }

  lemma ComplementXor3(u: Word, v: Word, w: Word, ones: Word)
    ensures Xor(Xor(Xor(u, ones), Xor(v, ones)), Xor(w, ones)) == Xor(Xor(Xor(u, v), w), ones)
  {}

  /** The CRC is affine: the exclusive or of three messages has the exclusive or of their CRCs. */
  lemma CrcAffine(r: bv32, s: bv32, t: bv32, rs: bv32, rst: bv32, a: seq<bv8>, b: seq<bv8>, c: seq<bv8>)
    requires |a| == |b| == |c| && IsCrc(r, a) && IsCrc(s, b) && IsCrc(t, c)
    requires rs == r ^ s && rst == rs ^ t
    ensures IsCrc(rst, XorBytes(XorBytes(a, b), c))
  {
    MessageBitsXor(a, b);
    MessageBitsXor(XorBytes(a, b), c);
    RegisterXor3(Generator(), Bits(0xffffffff), MessageBits(a), MessageBits(b), MessageBits(c));
    ComplementXor3(RegisterOf(a), RegisterOf(b), RegisterOf(c), Bits(0xffffffff));
    BitsXor(r, s, rs);
    BitsXor(rs, t, rst);
  }

  // ---------- A message followed by its own CRC ----------

  /** The n low bytes of a word, the lowest first. */
  function LittleEndian(x: bv32, n: nat := 4): (bytes: seq<bv8>)
    ensures |bytes| == n
  {
    if n == 0 then [] else [LowByte(x)] + LittleEndian(x >> 8, n - 1)
  }

  lemma {:induction false} MessageBitsAppend(a: seq<bv8>, b: seq<bv8>)
    ensures MessageBits(a + b) == MessageBits(a) + MessageBits(b)
    decreases |b|
  {
    if b == [] {
      assert a + b == a;
    } else {
      var front := b[..|b| - 1];
      assert (a + b)[..|a + b| - 1] == a + front;
      MessageBitsAppend(a, front);
    }
  }

  lemma BitsOfLowByte(x: bv32)
    ensures BitsOf(LowByte(x)) == Bits(x)[..8]
  {
    LowByteOf(x);
    LowBitsOf(x, LowByte(x));
  }

  lemma {:induction false} BitsOfLowBytes(x: bv32, n: nat, m: nat)
    requires n <= 4 && m == 8 * n
    ensures MessageBits(LittleEndian(x, n)) == Bits(x)[..m]
    decreases n
  {
    if n > 0 {
      var rest := LittleEndian(x >> 8, n - 1);
      BitsOfLowBytes(x >> 8, n - 1, m - 8);
      BitsOfLowByte(x);
      BitsShift8(x);
      MessageBitsAppend([LowByte(x)], rest);
      OneByte(LowByte(x));
      assert Bits(x)[..m] == Bits(x)[..8] + Bits(x)[8..m];
      assert Bits(x >> 8)[..m - 8] == Bits(x)[8..m];
    }
  }

  lemma OneByte(b: bv8)
    ensures MessageBits([b]) == BitsOf(b)
  {
    assert [b][..0] == [];
  }

  lemma BitsOfLittleEndian(r: bv32)
    ensures MessageBits(LittleEndian(r)) == Bits(r)
  {
    BitsOfLowBytes(r, 4, 32);
    assert Bits(r)[..32] == Bits(r);
  }

  lemma {:induction false} StepsAdd(g: Word, n: nat, m: nat, r: Word)
    ensures Steps(g, n + m, r) == Steps(g, m, Steps(g, n, r))
    decreases n
  {
    if n > 0 {
      StepsAdd(g, n - 1, m, Step(g, r));
    }
  }

  lemma ThirtyTwoSteps(x: bv32)
    ensures Steps(Generator(), 32, Bits(x)) == Bits(WordStep8(WordStep8(WordStep8(WordStep8(x)))))
  {
    var g, x1 := Generator(), WordStep8(x);
    var x2 := WordStep8(x1);
    var x3 := WordStep8(x2);
    StepsAdd(g, 8, 24, Bits(x));
    BitsWordStep8(x);
    StepsAdd(g, 8, 16, Bits(x1));
    BitsWordStep8(x1);
    StepsAdd(g, 8, 8, Bits(x2));
    BitsWordStep8(x2);
    BitsWordStep8(x3);
  }

  lemma StepsOfOnes()
    ensures WordStep8(WordStep8(WordStep8(WordStep8(0xffffffff)))) == 0xdebb20e3
  {
    assert WordStep8(0xffffffff) == 0x2dfd1072 && WordStep8(0x2dfd1072) == 0xbe26ed00;
    assert WordStep8(0xbe26ed00) == 0x00be26ed && WordStep8(0x00be26ed) == 0xdebb20e3;
  }

  /** A register fed with its own complement is stepped from all ones, whatever it held. */
  lemma FedWithComplement(g: Word, r: Word, bits: Word, ones: Word)
    requires bits == Xor(r, ones)
    ensures Register(g, r, bits) == Steps(g, 32, ones)
  {
    FeedWord(g, r, bits);
    assert bits + Zeros(0) == bits && Xor(r, bits) == ones;
  }

  /** A message followed by its own CRC, low byte first, always has the same CRC. */
  lemma OwnCrcResidue(r: bv32, a: seq<bv8>, residue: bv32)
    requires IsCrc(r, a) && residue == 0x2144df1c
    ensures IsCrc(residue, a + LittleEndian(r))
  {
    var g, ones, crc := Generator(), Bits(0xffffffff), residue ^ 0xffffffff;
    MessageBitsAppend(a, LittleEndian(r));
    BitsOfLittleEndian(r);
    RegisterAppend(g, ones, MessageBits(a), Bits(r));
    FedWithComplement(g, RegisterOf(a), Bits(r), ones);
    ThirtyTwoSteps(0xffffffff);
    StepsOfOnes();
    assert crc == 0xdebb20e3;
    ComplementBack(residue, crc);
    Complement(crc, residue, a + LittleEndian(r));
  }

  lemma ComplementBack(r: bv32, crc: bv32)
    requires crc == r ^ 0xffffffff
    ensures r == crc ^ 0xffffffff
  {}

  /** So a receiver recognises the CRC of a message: four bytes behind it give that value exactly if they are its CRC. */
  lemma {:induction false} OwnCrcIff(r: bv32, a: seq<bv8>, residue: bv32)
    requires residue == 0x2144df1c
    ensures IsCrc(residue, a + LittleEndian(r)) <==> IsCrc(r, a)
  {
    var own := CrcExists(a);
    OwnCrcResidue(own, a, residue);
    if own != r {
      var u, v := a + LittleEndian(own), a + LittleEndian(r);
      LittleEndianInjective(own, r);
      assert u[|a|..] == LittleEndian(own) && v[|a|..] == LittleEndian(r);
      var s := CrcExists(v);
      FourBytesNoticed(residue, s, u, v, |a|);
      if IsCrc(residue, v) {
        CrcIsUnique(residue, s, v);
      }
      if IsCrc(r, a) {
        CrcIsUnique(own, r, a);
      }
    }
  }

  lemma LittleEndianInjective(r: bv32, s: bv32)
    ensures LittleEndian(r) == LittleEndian(s) ==> r == s
  {
    BitsOfLittleEndian(r);
    BitsOfLittleEndian(s);
    if LittleEndian(r) == LittleEndian(s) {
      BitsInjective(r, s);
    }
  }
}
