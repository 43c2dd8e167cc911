/**
 The two 64-bit mixers: the SplitMix64 generator behind the deterministic random
 numbers, and the FNV-1a hash behind client session ids. Both lose nothing where
 it matters.
 */
module Mixing {
  import opened Base

  // ---- 64-bit words ------------------------------------------------------------

  // The wrapping operations the mixers are built from, each beside its inverse.

  function Fold30(x: bv64): bv64 { x ^ (x >> 30) }

  function Unfold30(x: bv64): bv64 { x ^ (x >> 30) ^ (x >> 60) }

  lemma Unfold30UndoesFold30(x: bv64)
    ensures Unfold30(Fold30(x)) == x
  {
    assert Unfold30(x ^ (x >> 30)) == x;
    assert Fold30(x) == x ^ (x >> 30);
  }

  function Fold27(x: bv64): bv64 { x ^ (x >> 27) }

  function Unfold27(x: bv64): bv64 { x ^ (x >> 27) ^ (x >> 54) }

  lemma Unfold27UndoesFold27(x: bv64)
    ensures Unfold27(Fold27(x)) == x
  {
    assert Unfold27(x ^ (x >> 27)) == x;
    assert Fold27(x) == x ^ (x >> 27);
  }

  function Fold31(x: bv64): bv64 { x ^ (x >> 31) }

  function Unfold31(x: bv64): bv64 { x ^ (x >> 31) ^ (x >> 62) }

  lemma Unfold31UndoesFold31(x: bv64)
    ensures Unfold31(Fold31(x)) == x
  {
    assert Unfold31(x ^ (x >> 31)) == x;
    assert Fold31(x) == x ^ (x >> 31);
  }

  function TimesA(x: bv64): bv64 { x * 0xBF58_476D_1CE4_E5B9 }

  function OverA(x: bv64): bv64 { x * 0x96DE_1B17_3F11_9089 }

  lemma OverAUndoesTimesA(x: bv64)
    ensures OverA(TimesA(x)) == x
  {
    assert OverA(x * 0xBF58_476D_1CE4_E5B9) == x;
    assert TimesA(x) == x * 0xBF58_476D_1CE4_E5B9;
  }

  function TimesB(x: bv64): bv64 { x * 0x94D0_49BB_1331_11EB }

  function OverB(x: bv64): bv64 { x * 0x3196_42B2_D24D_8EC3 }

  lemma OverBUndoesTimesB(x: bv64)
    ensures OverB(TimesB(x)) == x
  {
    assert OverB(x * 0x94D0_49BB_1331_11EB) == x;
    assert TimesB(x) == x * 0x94D0_49BB_1331_11EB;
  }

  function TimesIncrement(x: bv64): bv64 { x * 0x9E37_79B9_7F4A_7C15 }

  function OverIncrement(x: bv64): bv64 { x * 0xF1DE_83E1_9937_733D }

  lemma OverIncrementUndoesTimesIncrement(x: bv64)
    ensures OverIncrement(TimesIncrement(x)) == x
  {
    assert OverIncrement(x * 0x9E37_79B9_7F4A_7C15) == x;
    assert TimesIncrement(x) == x * 0x9E37_79B9_7F4A_7C15;
  }

  function TimesPrime(x: bv64): bv64 { x * 0x0000_0100_0000_01B3 }

  function OverPrime(x: bv64): bv64 { x * 0xCE96_5057_AFF6_957B }

  lemma OverPrimeUndoesTimesPrime(x: bv64)
    ensures OverPrime(TimesPrime(x)) == x
  {
    assert OverPrime(x * 0x0000_0100_0000_01B3) == x;
    assert TimesPrime(x) == x * 0x0000_0100_0000_01B3;
  }

  function Plus(x: bv64, y: bv64): bv64 { x + y }

  function Minus(x: bv64, y: bv64): bv64 { x - y }

  lemma MinusUndoesPlus(x: bv64, y: bv64)
    ensures Minus(Plus(x, y), x) == y
  {
    assert Minus(x + y, x) == y;
    assert Plus(x, y) == x + y;
  }

  // ---- SplitMix64 ------------------------------------------------------------

  function Mix(state: bv64): bv64 {
    Fold31(TimesB(Fold27(TimesA(Fold30(state)))))
  }

  /** Undo `Mix`, last operation first. */
  function Unmix(out: bv64): bv64 {
    Unfold30(OverA(Unfold27(OverB(Unfold31(out)))))
  }

  lemma UnmixMix(state: bv64)
    ensures Unmix(Mix(state)) ==
            Unfold30(OverA(Unfold27(OverB(Unfold31(Fold31(TimesB(Fold27(TimesA(Fold30(state))))))))))
  {
    hide Fold30, Fold27, Fold31, Unfold30, Unfold27, Unfold31, TimesA, TimesB, OverA, OverB;
  }

  /** The output function loses nothing: every state can be recovered from its output. */
  lemma MixIsInvertible(state: bv64)
    ensures Unmix(Mix(state)) == state
  {
    hide *;
    UnmixMix(state);
    var x := Fold30(state);
    var z := TimesA(x);
    var w := Fold27(z);
    Unfold31UndoesFold31(TimesB(w));
    OverBUndoesTimesB(w);
    Unfold27UndoesFold27(z);
    OverAUndoesTimesA(x);
    Unfold30UndoesFold30(state);
  }

  /** The state from which draw number `i` is made, counting from zero. */
  function StateOf(seed: bv64, i: bv64): bv64 {
    Plus(seed, TimesIncrement(Plus(i, 1)))
  }

  /** The raw output of draw number `i`. */
  function Draw(seed: bv64, i: bv64): bv64 {
    Mix(StateOf(seed, i))
  }

  /** Recover the draw number from a state. */
  lemma DrawNumberOf(seed: bv64, i: bv64)
    ensures Minus(OverIncrement(Minus(StateOf(seed, i), seed)), 1) == i
  {
    hide Plus, Minus, TimesIncrement, OverIncrement;
    MinusUndoesPlus(seed, TimesIncrement(Plus(i, 1)));
    OverIncrementUndoesTimesIncrement(Plus(i, 1));
    PlusCommutes(i);
    MinusUndoesPlus(1, i);
  }

  lemma PlusCommutes(i: bv64)
    ensures Plus(i, 1) == Plus(1, i)
  {
  }

  /** No raw output is repeated before all 2^64 draw numbers are used up. */
  lemma DrawsAreDistinct(seed: bv64, i: bv64, j: bv64)
    requires i != j
    ensures Draw(seed, i) != Draw(seed, j)
  {
    hide Mix, Unmix, StateOf, Plus, Minus, OverIncrement;
    if Draw(seed, i) == Draw(seed, j) {
      MixIsInvertible(StateOf(seed, i));
      MixIsInvertible(StateOf(seed, j));
      DrawNumberOf(seed, i);
      DrawNumberOf(seed, j);
    }
  }

  lemma PlusTerms(x: bv64, y: bv64, z: bv64)
    ensures Plus(x, y) == x + y && Plus(y, z) == y + z
    ensures Plus(x + y, z) == Plus(x, y + z)
  {
  }

  lemma PlusIsAssociative(x: bv64, y: bv64, z: bv64)
    ensures Plus(Plus(x, y), z) == Plus(x, Plus(y, z))
  {
    hide Plus;
    PlusTerms(x, y, z);
  }

  lemma OneMoreIncrement(d: bv64)
    ensures TimesIncrement(Plus(d, 1)) == Plus(TimesIncrement(d), 0x9E37_79B9_7F4A_7C15)
  {
    assert TimesIncrement(d + 1) == Plus(d * 0x9E37_79B9_7F4A_7C15, 0x9E37_79B9_7F4A_7C15);
    assert Plus(d, 1) == d + 1 && TimesIncrement(d) == d * 0x9E37_79B9_7F4A_7C15;
  }

  lemma NextState(seed: bv64, drawn: bv64)
    ensures Plus(Plus(seed, TimesIncrement(drawn)), 0x9E37_79B9_7F4A_7C15) == StateOf(seed, drawn)
  {
    hide Plus, TimesIncrement;
    PlusIsAssociative(seed, TimesIncrement(drawn), 0x9E37_79B9_7F4A_7C15);
    OneMoreIncrement(drawn);
  }

  class SeededRng {
    var state: bv64
    ghost const seed: bv64
    // How many draws were made, modulo 2^64.
    ghost var drawn: bv64

    ghost predicate Valid()
      reads this
    {
      state == Plus(seed, TimesIncrement(drawn))
    }

    constructor (seed: bv64)
      ensures Valid() && this.seed == seed && drawn == 0
    {
      state := seed;
      this.seed := seed;
      drawn := 0;
    }

    /** Make one draw. */
    method NextU64() returns (out: bv64)
      requires Valid()
      modifies this
      ensures Valid() && drawn == Plus(old(drawn), 1)
      ensures out == Draw(seed, old(drawn))
    {
      hide Mix, Plus, TimesIncrement;
      NextState(seed, drawn);
      state := Plus(state, 0x9E37_79B9_7F4A_7C15);
      drawn := Plus(drawn, 1);
      out := Mix(state);
    }

    /** A number in `[low, high)`; an empty range yields `low` and makes no draw. */
    method GenRange(low: U64, high: U64) returns (n: U64)
      requires Valid()
      modifies this
      ensures Valid()
      ensures low < high ==>
                && low <= n < high && n == low + (Draw(seed, old(drawn)) as int) % (high - low)
                && drawn == Plus(old(drawn), 1)
      ensures high <= low ==> n == low && drawn == old(drawn)
    {
      hide Draw, Plus, TimesIncrement;
      if high <= low {
        return low;
      }
      var v := NextU64();
      n := low + (v as int) % (high - low);
    }
  }

  /** The first outputs of the published generator from seed zero. */
  lemma KnownDraws()
    ensures Draw(0, 0) == 0xE220_A839_7B1D_CDAF && Draw(0, 1) == 0x6E78_9E6A_A1B9_65F4
    ensures Draw(0, 2) == 0x06C4_5D18_8009_454F
  {
  }

  // ---- FNV-1a session ids ------------------------------------------------------

  const FNV_OFFSET_BASIS: bv64 := 0xCBF2_9CE4_8422_2325

  function XorByte(h: bv64, b: bv8): bv64 { h ^ (b as bv64) }

  lemma XorByteUndoesItself(h: bv64, b: bv8)
    ensures XorByte(XorByte(h, b), b) == h
  {
    assert XorByte(h ^ (b as bv64), b) == h;
    assert XorByte(h, b) == h ^ (b as bv64);
  }

  /** Absorb one byte into the hash. */
  function Absorb(h: bv64, b: bv8): bv64 {
    TimesPrime(XorByte(h, b))
  }

  lemma AbsorbKeepsApart(g: bv64, h: bv64, b: bv8)
    requires Absorb(g, b) == Absorb(h, b)
    ensures g == h
  {
    hide XorByte, TimesPrime, OverPrime;
    OverPrimeUndoesTimesPrime(XorByte(g, b));
    OverPrimeUndoesTimesPrime(XorByte(h, b));
    XorByteUndoesItself(g, b);
    XorByteUndoesItself(h, b);
  }

  function TheByte(h: bv64, x: bv64): bv8 { ((h ^ x) & 0xFF) as bv8 }

  lemma TheByteXored(h: bv64, b: bv8)
    ensures TheByte(h, XorByte(h, b)) == b
  {
    assert TheByte(h, h ^ (b as bv64)) == b;
    assert XorByte(h, b) == h ^ (b as bv64);
  }

  lemma AbsorbTellsBytesApart(h: bv64, a: bv8, b: bv8)
    requires Absorb(h, a) == Absorb(h, b)
    ensures a == b
  {
    hide XorByte, TimesPrime, OverPrime, TheByte;
    OverPrimeUndoesTimesPrime(XorByte(h, a));
    OverPrimeUndoesTimesPrime(XorByte(h, b));
    TheByteXored(h, a);
    TheByteXored(h, b);
  }

  function AbsorbAll(h: bv64, data: seq<bv8>): bv64
    decreases |data|
  {
    if data == [] then h else AbsorbAll(Absorb(h, data[0]), data[1..])
  }

  lemma {:induction false} AbsorbAllKeepsApart(g: bv64, h: bv64, data: seq<bv8>)
    requires g != h
    ensures AbsorbAll(g, data) != AbsorbAll(h, data)
    decreases |data|
  {
    hide Absorb;
    if data != [] {
      if Absorb(g, data[0]) == Absorb(h, data[0]) {
        AbsorbKeepsApart(g, h, data[0]);
      }
      AbsorbAllKeepsApart(Absorb(g, data[0]), Absorb(h, data[0]), data[1..]);
    }
  }

  lemma {:induction false} AbsorbConcat(h: bv64, x: seq<bv8>, y: seq<bv8>)
    ensures AbsorbAll(h, x + y) == AbsorbAll(AbsorbAll(h, x), y)
    decreases |x|
  {
    hide Absorb;
    if x == [] {
      assert x + y == y;
    } else {
      assert (x + y)[1..] == x[1..] + y;
      AbsorbConcat(Absorb(h, x[0]), x[1..], y);
    }
  }

  lemma KnownSteps()
    ensures FNV_OFFSET_BASIS == 0xCBF2_9CE4_8422_2325
    ensures Absorb(0xCBF2_9CE4_8422_2325, 0x66) == 0xAF63_DB4C_8601_EAD9
    ensures Absorb(0xAF63_DB4C_8601_EAD9, 0x6F) == 0x0898_5907_B541_D342
    ensures Absorb(0x0898_5907_B541_D342, 0x6F) == 0xDCB2_7518_FED9_D577
    ensures Absorb(0xDCB2_7518_FED9_D577, 0x62) == 0xDD12_0E79_0C25_12AF
    ensures Absorb(0xDD12_0E79_0C25_12AF, 0x61) == 0xCAC1_65AF_A2FE_F40A
    ensures Absorb(0xCAC1_65AF_A2FE_F40A, 0x72) == 0x8594_4171_F739_67E8
  {
  }

  lemma {:induction false} FirstAbsorbed(h: bv64, b: bv8, rest: seq<bv8>)
    ensures AbsorbAll(h, [b] + rest) == AbsorbAll(Absorb(h, b), rest)
  {
    hide Absorb;
    assert ([b] + rest)[1..] == rest;
  }

  lemma {:induction false} NothingAbsorbed(h: bv64)
    ensures AbsorbAll(h, []) == h
  {
  }

  /** The published hash of "foobar". */
  lemma KnownHash()
    ensures AbsorbAll(FNV_OFFSET_BASIS, [0x66, 0x6F, 0x6F, 0x62, 0x61, 0x72]) == 0x8594_4171_F739_67E8
  {
    hide *;
    KnownSteps();
    var data: seq<bv8> := [0x66, 0x6F, 0x6F, 0x62, 0x61, 0x72];
    assert data == [0x66] + data[1..] && data[1..] == [0x6F] + data[2..] && data[2..] == [0x6F] + data[3..];
    assert data[3..] == [0x62] + data[4..] && data[4..] == [0x61] + data[5..] && data[5..] == [0x72] + data[6..];
    assert data[6..] == [];
    FirstAbsorbed(FNV_OFFSET_BASIS, 0x66, data[1..]);
    FirstAbsorbed(0xAF63_DB4C_8601_EAD9, 0x6F, data[2..]);
    FirstAbsorbed(0x0898_5907_B541_D342, 0x6F, data[3..]);
    FirstAbsorbed(0xDCB2_7518_FED9_D577, 0x62, data[4..]);
    FirstAbsorbed(0xDD12_0E79_0C25_12AF, 0x61, data[5..]);
    FirstAbsorbed(0xCAC1_65AF_A2FE_F40A, 0x72, data[6..]);
    NothingAbsorbed(0x8594_4171_F739_67E8);
  }

  /** Two inputs that differ in exactly one byte have different hashes. */
  lemma {:induction false} OneByteChangesHash(h: bv64, x: seq<bv8>, y: seq<bv8>, k: nat)
    requires |x| == |y| && k < |x| && x[k] != y[k]
    requires forall i :: 0 <= i < |x| && i != k ==> x[i] == y[i]
    ensures AbsorbAll(h, x) != AbsorbAll(h, y)
  {
    hide Absorb;
    var front, back := x[..k], x[k + 1..];
    assert x == front + ([x[k]] + back) && y == front + ([y[k]] + back);
    AbsorbConcat(h, front, [x[k]] + back);
    AbsorbConcat(h, front, [y[k]] + back);
    var g := AbsorbAll(h, front);
    assert ([x[k]] + back)[1..] == back && ([y[k]] + back)[1..] == back;
    if Absorb(g, x[k]) == Absorb(g, y[k]) {
      AbsorbTellsBytesApart(g, x[k], y[k]);
    }
    AbsorbAllKeepsApart(Absorb(g, x[k]), Absorb(g, y[k]), back);
  }

  /** The eight bytes of a counter, lowest first. */
  function CounterBytes(counter: bv64): (bytes: seq<bv8>)
    ensures |bytes| == 8
  {
    [(counter & 0xFF) as bv8, ((counter >> 8) & 0xFF) as bv8, ((counter >> 16) & 0xFF) as bv8,
     ((counter >> 24) & 0xFF) as bv8, ((counter >> 32) & 0xFF) as bv8, ((counter >> 40) & 0xFF) as bv8,
     ((counter >> 48) & 0xFF) as bv8, ((counter >> 56) & 0xFF) as bv8]
  }

  /** They are the counter's: put back in their places they give it again. */
  lemma CounterBytesAreCounter(counter: bv64)
    ensures var b := CounterBytes(counter);
            counter == (b[0] as bv64) | ((b[1] as bv64) << 8) | ((b[2] as bv64) << 16) | ((b[3] as bv64) << 24)
                       | ((b[4] as bv64) << 32) | ((b[5] as bv64) << 40) | ((b[6] as bv64) << 48)
                       | ((b[7] as bv64) << 56)
  {
  }

  /** The session id of a handle: the hash of its node's name and its counter. */
  method ClientIdFor(node: seq<bv8>, counter: bv64) returns (id: bv64)
    ensures id == AbsorbAll(FNV_OFFSET_BASIS, node + CounterBytes(counter))
  {
    hide Absorb, CounterBytes;
    id := FNV_OFFSET_BASIS;
    id := AbsorbEach(id, node);
    AbsorbConcat(FNV_OFFSET_BASIS, node, CounterBytes(counter));
    id := AbsorbEach(id, CounterBytes(counter));
  }

  method AbsorbEach(start: bv64, data: seq<bv8>) returns (h: bv64)
    ensures h == AbsorbAll(start, data)
  {
    hide Absorb;
    h := start;
    for k := 0 to |data|
      invariant AbsorbAll(h, data[k..]) == AbsorbAll(start, data)
    {
      assert data[k..][1..] == data[k + 1..];
      h := Absorb(h, data[k]);
    }
  }

  /** Two nodes whose names differ in one byte get different ids at every counter. */
  lemma {:induction false} NodesGetDifferentIds(x: seq<bv8>, y: seq<bv8>, k: nat, counter: bv64)
    requires |x| == |y| && k < |x| && x[k] != y[k]
    requires forall i :: 0 <= i < |x| && i != k ==> x[i] == y[i]
    ensures AbsorbAll(FNV_OFFSET_BASIS, x + CounterBytes(counter)) !=
            AbsorbAll(FNV_OFFSET_BASIS, y + CounterBytes(counter))
  {
    hide Absorb, CounterBytes;
    OneByteChangesHash(FNV_OFFSET_BASIS, x + CounterBytes(counter), y + CounterBytes(counter), k);
  }

  /** One node gets different ids for two counters that differ in one byte. */
  lemma {:induction false} CountersGetDifferentIds(node: seq<bv8>, c: bv64, d: bv64, k: nat)
    requires k < 8 && CounterBytes(c)[k] != CounterBytes(d)[k]
    requires forall i :: 0 <= i < 8 && i != k ==> CounterBytes(c)[i] == CounterBytes(d)[i]
    ensures AbsorbAll(FNV_OFFSET_BASIS, node + CounterBytes(c)) !=
            AbsorbAll(FNV_OFFSET_BASIS, node + CounterBytes(d))
  {
    hide Absorb, CounterBytes;
    OneByteChangesHash(FNV_OFFSET_BASIS, node + CounterBytes(c), node + CounterBytes(d), |node| + k);
  }
}
