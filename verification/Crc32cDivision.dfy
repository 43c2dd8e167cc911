/**
 Division of polynomials over GF(2) by the Castagnoli generator, as bit strings
 with the highest power first, and the shift register that performs it.
 */
module Crc32cDivision {
  import opened WordBits

  // x^31 down to x^0 of the generator x^32 + x^28 + x^27 + x^26 + x^25 + x^23 + x^22 +
  // x^20 + x^19 + x^18 + x^14 + x^13 + x^11 + x^10 + x^9 + x^8 + x^6 + 1.
  const GENERATOR: seq<bool> :=
    [false, false, false, true] + ([true, true, true, false] +
    ([true, true, false, true] + ([true, true, false, false] +
    ([false, true, true, false] + ([true, true, true, true] +
    ([false, true, false, false] + [false, false, false, true]))))))

  type Register = s: seq<bool> | |s| == 32 witness GENERATOR

  // ---- Long division -----------------------------------------------------------

  /** Cancel the leading term of a polynomial of degree 32 or more, and drop it. */
  ghost function CancelLead(m: Bits): (r: Bits)
    requires |m| > 32
    ensures |r| == |m| - 1
  {
    (if m[0] then XorBits(m[1..33], GENERATOR) else m[1..33]) + m[33..]
  }

  /** The remainder of a polynomial modulo the generator. */
  ghost function Remainder(m: Bits): (r: Bits)
    requires |m| >= 32
    ensures |r| == 32
    decreases |m|
  {
    if |m| == 32 then m else Remainder(CancelLead(m))
  }

  // ---- The register --------------------------------------------------------------

  ghost function Shift(s: Register): Register {
    s[1..] + [false]
  }

  ghost function StepBits(s: Register): Register {
    if s[0] then XorBits(Shift(s), GENERATOR) else Shift(s)
  }

  ghost function FeedBit(s: Register, bit: bool): Register {
    StepBits(s[0 := s[0] != bit])
  }

  /** Feed message bits into the register one at a time. */
  ghost function Feed(s: Register, bits: Bits): Register
    decreases |bits|
  {
    if bits == [] then s else Feed(FeedBit(s, bits[0]), bits[1..])
  }

  /** Add a register to the leading terms of a polynomial. */
  ghost function AddLead(s: Register, m: Bits): (r: Bits)
    requires |m| >= 32
    ensures |r| == |m|
    ensures forall i :: 0 <= i < 32 ==> r[i] == (s[i] != m[i])
    ensures forall i :: 32 <= i < |m| ==> r[i] == m[i]
  {
    XorBits(s, m[..32]) + m[32..]
  }

  lemma CancelFedBit(s: Register, bits: Bits)
    requires bits != []
    ensures CancelLead(AddLead(s, bits + Zeros(32))) == AddLead(FeedBit(s, bits[0]), bits[1..] + Zeros(32))
  {
    var m := AddLead(s, bits + Zeros(32));
    var s' := s[0 := s[0] != bits[0]];
    var n := bits[1..] + Zeros(32);
    var head := m[1..33];
    assert forall i :: 0 <= i < 32 ==> head[i] == (Shift(s')[i] != n[i]);
    assert m[33..] == n[32..];
    assert m[0] == s'[0];
  }

  /** The register computes the remainder of the message shifted up by 32 and added to its starting value. */
  lemma {:induction false} FeedIsRemainder(s: Register, bits: Bits)
    ensures Feed(s, bits) == Remainder(AddLead(s, bits + Zeros(32)))
    decreases |bits|
  {
    if bits == [] {
      assert AddLead(s, bits + Zeros(32)) == s;
    } else {
      CancelFedBit(s, bits);
      FeedIsRemainder(FeedBit(s, bits[0]), bits[1..]);
    }
  }

  // ---- Linearity -------------------------------------------------------------------

  lemma StepIsLinear(a: Register, b: Register)
    ensures StepBits(XorBits(a, b)) == XorBits(StepBits(a), StepBits(b))
  {
  }

  ghost function StepsBits(s: Register, n: nat): Register
    decreases n
  {
    if n == 0 then s else StepsBits(StepBits(s), n - 1)
  }

  lemma {:induction false} StepsIsLinear(a: Register, b: Register, n: nat)
    ensures StepsBits(XorBits(a, b), n) == XorBits(StepsBits(a, n), StepsBits(b, n))
    decreases n
  {
    if n > 0 {
      StepIsLinear(a, b);
      StepsIsLinear(StepBits(a), StepBits(b), n - 1);
    }
  }

  lemma FeedBitIsLinear(a: Register, b: Register, x: bool, y: bool)
    ensures FeedBit(XorBits(a, b), x != y) == XorBits(FeedBit(a, x), FeedBit(b, y))
  {
    var a', b' := a[0 := a[0] != x], b[0 := b[0] != y];
    assert XorBits(a, b)[0 := XorBits(a, b)[0] != (x != y)] == XorBits(a', b');
    StepIsLinear(a', b');
  }

  /** The register of a difference is the difference of the registers. */
  lemma {:induction false} FeedIsLinear(a: Register, b: Register, x: Bits, y: Bits)
    requires |x| == |y|
    ensures Feed(XorBits(a, b), XorBits(x, y)) == XorBits(Feed(a, x), Feed(b, y))
    decreases |x|
  {
    if x != [] {
      FeedBitIsLinear(a, b, x[0], y[0]);
      FeedIsLinear(FeedBit(a, x[0]), FeedBit(b, y[0]), x[1..], y[1..]);
      assert XorBits(x, y)[1..] == XorBits(x[1..], y[1..]);
    }
  }

  lemma {:induction false} FeedConcat(s: Register, x: Bits, y: Bits)
    ensures Feed(s, x + y) == Feed(Feed(s, x), y)
    decreases |x|
  {
    if x == [] {
      assert x + y == y;
    } else {
      assert (x + y)[1..] == x[1..] + y;
      FeedConcat(FeedBit(s, x[0]), x[1..], y);
    }
  }

  /** Up to 32 message bits can be added to the register at once. */
  lemma {:induction false} FeedAtOnce(s: Register, bits: Bits)
    requires |bits| <= 32
    ensures Feed(s, bits) == StepsBits(XorBits(s, bits + Zeros(32 - |bits|)), |bits|)
    decreases |bits|
  {
    if bits == [] {
      assert XorBits(s, bits + Zeros(32)) == s;
    } else {
      var rest := bits[1..];
      var pad, pad' := bits + Zeros(32 - |bits|), rest + Zeros(32 - |rest|);
      FeedAtOnce(FeedBit(s, bits[0]), rest);
      StepTakesOneBit(s, bits[0], pad, pad');
    }
  }

  lemma StepTakesOneBit(s: Register, bit: bool, pad: Register, pad': Register)
    requires pad[0] == bit && pad'[..31] == pad[1..] && !pad'[31]
    ensures StepBits(XorBits(s, pad)) == XorBits(FeedBit(s, bit), pad')
  {
    var s' := s[0 := s[0] != bit];
    assert Shift(XorBits(s, pad)) == XorBits(Shift(s'), pad');
  }

  // ---- Detecting errors --------------------------------------------------------------

  lemma StepKeepsNonZero(s: Register)
    requires s != Zeros(32)
    ensures StepBits(s) != Zeros(32)
  {
    if s[0] {
      assert StepBits(s)[31];
    } else {
      var i :| 0 <= i < 32 && s[i];
      assert StepBits(s)[i - 1];
    }
  }

  lemma {:induction false} StepsKeepNonZero(s: Register, n: nat)
    requires s != Zeros(32)
    ensures StepsBits(s, n) != Zeros(32)
    decreases n
  {
    hide StepBits;
    if n > 0 {
      StepKeepsNonZero(s);
      StepsKeepNonZero(StepBits(s), n - 1);
    }
  }

  lemma {:induction false} QuietAfter(s: Register, n: nat)
    requires s != Zeros(32)
    ensures Feed(s, Zeros(n)) != Zeros(32)
    decreases n
  {
    if n > 0 {
      assert s[0 := s[0] != false] == s;
      StepKeepsNonZero(s);
      assert Zeros(n)[1..] == Zeros(n - 1);
      QuietAfter(StepBits(s), n - 1);
    }
  }

  lemma {:induction false} QuietBefore(n: nat)
    ensures Feed(Zeros(32), Zeros(n)) == Zeros(32)
    decreases n
  {
    if n > 0 {
      assert Zeros(32)[0 := false] == Zeros(32);
      assert StepBits(Zeros(32)) == Zeros(32);
      assert Zeros(n)[1..] == Zeros(n - 1);
      QuietBefore(n - 1);
    }
  }

  lemma {:induction false} BurstAlone(burst: Bits)
    requires |burst| <= 32 && burst != Zeros(|burst|)
    ensures Feed(Zeros(32), burst) != Zeros(32)
  {
    hide Feed, StepsBits, StepBits;
    FeedAtOnce(Zeros(32), burst);
    var padded := burst + Zeros(32 - |burst|);
    assert XorBits(Zeros(32), padded) == padded;
    var i :| 0 <= i < |burst| && burst[i];
    assert padded[i];
    StepsKeepNonZero(padded, |burst|);
  }

  /** An error pattern confined to 32 consecutive bits leaves a non-zero register. */
  lemma {:induction false} BurstLeavesTrace(before: nat, burst: Bits, after: nat)
    requires |burst| <= 32 && burst != Zeros(|burst|)
    ensures Feed(Zeros(32), Zeros(before) + burst + Zeros(after)) != Zeros(32)
  {
    hide Feed;
    FeedConcat(Zeros(32), Zeros(before) + burst, Zeros(after));
    FeedConcat(Zeros(32), Zeros(before), burst);
    QuietBefore(before);
    BurstAlone(burst);
    QuietAfter(Feed(Zeros(32), burst), after);
  }

  // ---- Parity --------------------------------------------------------------------------

  /** Whether an odd number of bits is set. */
  ghost function Odd(bits: Bits): bool {
    bits != [] && (bits[0] != Odd(bits[1..]))
  }

  lemma {:induction false} OddOfConcat(a: Bits, b: Bits)
    ensures Odd(a + b) == (Odd(a) != Odd(b))
  {
    if a == [] {
      assert a + b == b;
    } else {
      assert (a + b)[1..] == a[1..] + b;
      OddOfConcat(a[1..], b);
    }
  }

  lemma {:induction false} OddOfXor(a: Bits, b: Bits)
    requires |a| == |b|
    ensures Odd(XorBits(a, b)) == (Odd(a) != Odd(b))
  {
    if a != [] {
      assert XorBits(a, b)[1..] == XorBits(a[1..], b[1..]);
      OddOfXor(a[1..], b[1..]);
    }
  }

  lemma {:induction false} OddOfFour(a: bool, b: bool, c: bool, d: bool)
    ensures Odd([a, b, c, d]) == (a != (b != (c != d)))
  {
    assert [a, b, c, d][1..] == [b, c, d] && [b, c, d][1..] == [c, d] && [c, d][1..] == [d] && [d][1..] == [];
    assert Odd([d]) == d;
    assert Odd([c, d]) == (c != d);
    assert Odd([b, c, d]) == (b != (c != d));
  }

  lemma {:induction false} OddByFours(bits: Bits)
    requires |bits| >= 4
    ensures Odd(bits) == ((bits[0] != (bits[1] != (bits[2] != bits[3]))) != Odd(bits[4..]))
  {
    assert bits == [bits[0], bits[1], bits[2], bits[3]] + bits[4..];
    OddOfConcat([bits[0], bits[1], bits[2], bits[3]], bits[4..]);
    OddOfFour(bits[0], bits[1], bits[2], bits[3]);
  }

  lemma {:induction false} OddOfSixteen(bits: Bits)
    requires |bits| == 16
    ensures var f := (i: nat) requires i + 4 <= 16 => (bits[i] != bits[i + 1]) != (bits[i + 2] != bits[i + 3]);
            Odd(bits) == ((f(0) != f(4)) != (f(8) != f(12)))
  {
    hide Odd;
    assert bits[4..][4..] == bits[8..] && bits[8..][4..] == bits[12..] && bits[12..][4..] == [];
    OddByFours(bits);
    OddByFours(bits[4..]);
    OddByFours(bits[8..]);
    OddByFours(bits[12..]);
    EmptyIsEven();
  }

  /** Without its top term the generator has an odd number of terms. */
  lemma GeneratorIsOdd()
    ensures Odd(GENERATOR)
  {
    hide Odd;
    assert GENERATOR == GENERATOR[..16] + GENERATOR[16..];
    OddOfConcat(GENERATOR[..16], GENERATOR[16..]);
    OddOfSixteen(GENERATOR[..16]);
    OddOfSixteen(GENERATOR[16..]);
  }

  lemma EmptyIsEven()
    ensures !Odd([])
  {
  }

  /** The generator is a multiple of x + 1, so a step keeps the parity of the register. */
  lemma {:induction false} StepKeepsParity(s: Register)
    ensures Odd(StepBits(s)) == Odd(s)
  {
    assert s == [s[0]] + s[1..];
    OddOfConcat([s[0]], s[1..]);
    OddOfConcat(s[1..], [false]);
    OddOfXor(Shift(s), GENERATOR);
    GeneratorIsOdd();
    OddOfOne(s[0]);
    OddOfOne(false);
  }

  lemma OddOfOne(b: bool)
    ensures Odd([b]) == b
  {
    assert [b][1..] == [];
  }

  /** The register's parity is that of everything fed into it. */
  lemma {:induction false} FeedKeepsParity(s: Register, bits: Bits)
    ensures Odd(Feed(s, bits)) == (Odd(s) != Odd(bits))
    decreases |bits|
  {
    if bits != [] {
      var s' := s[0 := s[0] != bits[0]];
      assert s'[1..] == s[1..];
      StepKeepsParity(s');
      FeedKeepsParity(FeedBit(s, bits[0]), bits[1..]);
    }
  }
}
