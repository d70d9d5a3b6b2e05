/**
  The shift register behind the CRC-32 of RFC 1952, section 8, as 32 coefficients with the low
  bit first: its linearity, and the bursts of message errors it cannot miss.
*/
module ShiftRegister {

  type Word = w: seq<bool> | |w| == 32 witness seq(32, _ => false)

  function Zeros(n: nat): (w: seq<bool>) {
    seq(n, _ => false)
  }

  function Xor(a: seq<bool>, b: seq<bool>): (c: seq<bool>)
    requires |a| == |b|
    ensures |c| == |a| && forall i :: 0 <= i < |a| ==> c[i] == (a[i] != b[i])
  {
    seq(|a|, i requires 0 <= i < |a| => a[i] != b[i])
  }

  /** One step under a generator g: move down, and add g in if a one moved out. */
  function Step(g: Word, r: Word): (r': Word)
    ensures forall i :: 0 <= i < 32 ==> r'[i] == ((i < 31 && r[i + 1]) != (r[0] && g[i]))
  {
    seq(32, i requires 0 <= i < 32 => (i < 31 && r[i + 1]) != (r[0] && g[i]))
  }

  function ShiftIn(g: Word, r: Word, bit: bool): Word {
    Step(g, r[0 := r[0] != bit])
  }

  /** The register after the given message bits, in order. */
  function Register(g: Word, r: Word, bits: seq<bool>): Word
    decreases |bits|
  {
    if bits == [] then r else ShiftIn(g, Register(g, r, bits[..|bits| - 1]), bits[|bits| - 1])
  }

  function Steps(g: Word, n: nat, r: Word): Word {
    if n == 0 then r else Steps(g, n - 1, Step(g, r))
  }

  lemma {:induction false} RegisterAppend(g: Word, r: Word, a: seq<bool>, b: seq<bool>)
    ensures Register(g, r, a + b) == Register(g, Register(g, r, a), b)
    decreases |b|
  {
    if b == [] {
      assert a + b == a;
    } else {
      assert (a + b)[..|a + b| - 1] == a + b[..|b| - 1];
      RegisterAppend(g, r, a, b[..|b| - 1]);
    }
  }

  // ---------- Linearity ----------

  lemma StepLinear(g: Word, x: Word, y: Word)
    ensures Step(g, Xor(x, y)) == Xor(Step(g, x), Step(g, y))
  {}

  lemma {:induction false} StepsLinear(g: Word, n: nat, x: Word, y: Word)
    ensures Steps(g, n, Xor(x, y)) == Xor(Steps(g, n, x), Steps(g, n, y))
    decreases n
  {
    if n > 0 {
      StepLinear(g, x, y);
      StepsLinear(g, n - 1, Step(g, x), Step(g, y));
    }
  }

  /** Registers fed with two messages differ by the register fed with the messages' difference. */
  lemma {:induction false} RegisterLinear(g: Word, r: Word, s: Word, a: seq<bool>, b: seq<bool>)
    requires |a| == |b|
    ensures Register(g, Xor(r, s), Xor(a, b)) == Xor(Register(g, r, a), Register(g, s, b))
    decreases |a|
  {
    if a != [] {
      var n := |a| - 1;
      var r', s' := Register(g, r, a[..n]), Register(g, s, b[..n]);
      assert Xor(a, b)[..n] == Xor(a[..n], b[..n]);
      RegisterLinear(g, r, s, a[..n], b[..n]);
      StepLinear(g, r'[0 := r'[0] != a[n]], s'[0 := s'[0] != b[n]]);
      assert Xor(r', s')[0 := Xor(r', s')[0] != Xor(a, b)[n]]
          == Xor(r'[0 := r'[0] != a[n]], s'[0 := s'[0] != b[n]]);
    }
  }

  // ---------- Whole words at a time ----------

  /** Bits still to come may be added in before the step: they move down unharmed. */
  lemma StepAhead(g: Word, r: Word, bits: seq<bool>)
    requires 0 < |bits| <= 32
    ensures Xor(ShiftIn(g, r, bits[0]), bits[1..] + Zeros(33 - |bits|)) == Step(g, Xor(r, bits + Zeros(32 - |bits|)))
  {}

  /** Feeding bits one by one is adding them all in at the bottom and then stepping. */
  lemma {:induction false} FeedWord(g: Word, r: Word, bits: seq<bool>)
    requires |bits| <= 32
    ensures Register(g, r, bits) == Steps(g, |bits|, Xor(r, bits + Zeros(32 - |bits|)))
    decreases |bits|
  {
    if bits == [] {
      assert Xor(r, bits + Zeros(32)) == r;
    } else {
      var first, rest := bits[0], bits[1..];
      assert bits == [first] + rest;
      RegisterAppend(g, r, [first], rest);
      assert Register(g, r, [first]) == ShiftIn(g, r, first) by {
        assert [first][..0] == [];
      }
      FeedWord(g, ShiftIn(g, r, first), rest);
      StepAhead(g, r, bits);
    }
  }

  /** A word whose low n bits are clear only moves down in n steps. */
  lemma {:induction false} StepsShift(g: Word, n: nat, w: Word)
    requires n <= 32 && forall i :: 0 <= i < n ==> !w[i]
    ensures Steps(g, n, w) == w[n..] + Zeros(n)
    decreases n
  {
    if n == 0 {
      assert w[0..] + Zeros(0) == w;
    } else {
      var w' := Step(g, w);
      assert w' == w[1..] + [false];
      StepsShift(g, n - 1, w');
      assert w'[n - 1..] + Zeros(n - 1) == w[n..] + Zeros(n);
    }
  }

  /** Splitting off the low n bits: the rest only moves down. */
  lemma StepsSplit(g: Word, n: nat, w: Word)
    requires n <= 32
    ensures Steps(g, n, w) == Xor(w[n..] + Zeros(n), Steps(g, n, w[..n] + Zeros(32 - n)))
  {
    var high: Word, low: Word := Zeros(n) + w[n..], w[..n] + Zeros(32 - n);
    assert w == Xor(high, low);
    StepsLinear(g, n, high, low);
    StepsShift(g, n, high);
    assert high[n..] == w[n..];
  }

  // ---------- Bursts ----------

  lemma StepZero(g: Word, w: Word)
    requires g[31]
    ensures Step(g, w) == Zeros(32) <==> w == Zeros(32)
  {
    if Step(g, w) == Zeros(32) {
      assert !Step(g, w)[31];
      forall i | 0 <= i < 32 ensures !w[i] {
        if i > 0 { assert !Step(g, w)[i - 1]; }
      }
    }
  }

  lemma {:induction false} StepsZero(g: Word, n: nat, w: Word)
    requires g[31]
    ensures Steps(g, n, w) == Zeros(32) <==> w == Zeros(32)
    decreases n
  {
    if n > 0 {
      StepZero(g, w);
      StepsZero(g, n - 1, Step(g, w));
    }
  }

  /** Without further ones in the message, only the zero register becomes zero. */
  lemma {:induction false} RegisterZeros(g: Word, r: Word, bits: seq<bool>)
    requires g[31] && forall i :: 0 <= i < |bits| ==> !bits[i]
    ensures Register(g, r, bits) == Zeros(32) <==> r == Zeros(32)
    decreases |bits|
  {
    if bits != [] {
      var r' := Register(g, r, bits[..|bits| - 1]);
      RegisterZeros(g, r, bits[..|bits| - 1]);
      StepZero(g, r');
      assert r'[0 := r'[0] != false] == r';
    }
  }

  /** Up to 32 bits clear a register exactly when they are the register's own coefficients. */
  lemma ClearedIff(g: Word, r: Word, bits: seq<bool>)
    requires g[31] && |bits| <= 32
    ensures Register(g, r, bits) == Zeros(32) <==> r == bits + Zeros(32 - |bits|)
  {
    var w := bits + Zeros(32 - |bits|);
    FeedWord(g, r, bits);
    StepsZero(g, |bits|, Xor(r, w));
    if Xor(r, w) == Zeros(32) {
      forall i | 0 <= i < 32 ensures r[i] == w[i] {
        assert !Xor(r, w)[i];
      }
    }
  }

  /** bits is the generator pattern, a one followed by g, placed at lo. */
  predicate IsGeneratorAt(g: Word, bits: seq<bool>, lo: nat)
  {
    lo + 33 <= |bits| && bits[lo] && bits[lo + 1..lo + 33] == g
  }

  ghost predicate AllClear(bits: seq<bool>) {
    forall i :: 0 <= i < |bits| ==> !bits[i]
  }

  /** Of a difference that begins with a one, only what follows within its span matters. */
  lemma BurstCore(g: Word, before: seq<bool>, burst: seq<bool>, after: seq<bool>)
    requires g[31] && AllClear(before) && AllClear(after)
    ensures Register(g, Zeros(32), before + ([true] + (burst + after))) == Zeros(32)
       <==> Register(g, g, burst) == Zeros(32)
  {
    RegisterAppend(g, Zeros(32), before, [true] + (burst + after));
    RegisterZeros(g, Zeros(32), before);
    RegisterAppend(g, Zeros(32), [true], burst + after);
    FirstOne(g);
    RegisterAppend(g, g, burst, after);
    RegisterZeros(g, Register(g, g, burst), after);
  }

  lemma FirstOne(g: Word)
    ensures Register(g, Zeros(32), [true]) == g
  {}

  /** A difference of at most 33 bits clears the register exactly when it is the generator pattern. */
  lemma BurstClearsIff(g: Word, bits: seq<bool>, lo: nat)
    requires g[31] && lo < |bits| && bits[lo]
    requires forall i :: 0 <= i < |bits| && (i < lo || lo + 33 <= i) ==> !bits[i]
    ensures Register(g, Zeros(32), bits) == Zeros(32) <==> IsGeneratorAt(g, bits, lo)
  {
    var hi := if lo + 33 <= |bits| then lo + 33 else |bits|;
    var before, burst, after := bits[..lo], bits[lo + 1..hi], bits[hi..];
    assert bits == before + ([true] + (burst + after));
    BurstCore(g, before, burst, after);
    ClearedIff(g, g, burst);
    if |burst| < 32 {
      assert !(burst + Zeros(32 - |burst|))[31];
    } else {
      assert burst + Zeros(0) == burst;
    }
  }
}
