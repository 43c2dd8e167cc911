/**
 A checksum stored in front of its message does not form one code word with it: a short
 burst that spans both can turn one valid pair into another. This module computes one.
 */
module Crc32cSpan {
  import opened WordBits
  import opened Crc32cDivision
  import opened Crc32c

  // ---- Running the register over many zero bits ---------------------------------------

  function Step(v: bv32): bv32 {
    if v & 1 != 0 then (v >> 1) ^ 0x82F63B78 else v >> 1
  }

  function Steps8(v: bv32): bv32 {
    Step(Step(Step(Step(Step(Step(Step(Step(v))))))))
  }

  function Steps16(v: bv32): bv32 {
    Steps8(Steps8(v))
  }

  function Steps32(v: bv32): bv32 {
    Steps16(Steps16(v))
  }

  function Steps64(v: bv32): bv32 {
    Steps32(Steps32(v))
  }

  function Steps128(v: bv32): bv32 {
    Steps64(Steps64(v))
  }

  function Steps256(v: bv32): bv32 {
    Steps128(Steps128(v))
  }

  function Steps512(v: bv32): bv32 {
    Steps256(Steps256(v))
  }

  /** `w` becomes `v` after `n` steps of the register. */
  ghost predicate Reaches(v: bv32, n: nat, w: bv32) {
    StepsBits(AllBits(Word(v)), n) == AllBits(Word(w))
  }

  lemma ReachesStep(v: bv32)
    ensures Reaches(v, 1, Step(v))
  {
    BitsOfStep(Word(v));
    assert StepWord(Word(v)) == Word(Step(v));
    hide StepBits, AllBits, Step;
    var s := AllBits(Word(v));
    assert StepsBits(s, 1) == StepsBits(StepBits(s), 0);
  }

  lemma {:induction false} StepsTogether(s: Register, m: nat, n: nat)
    ensures StepsBits(s, m + n) == StepsBits(StepsBits(s, m), n)
    decreases m
  {
    hide StepBits;
    if m > 0 {
      StepsTogether(StepBits(s), m - 1, n);
    }
  }

  lemma ReachesTogether(u: bv32, m: nat, v: bv32, n: nat, w: bv32)
    requires Reaches(u, m, v) && Reaches(v, n, w)
    ensures Reaches(u, m + n, w)
  {
    hide AllBits, StepsBits;
    StepsTogether(AllBits(Word(u)), m, n);
  }

  lemma ReachesSteps8(v: bv32)
    ensures Reaches(v, 8, Steps8(v))
  {
    hide Reaches, Step;
    var a, b, c, d := Step(v), Step(Step(v)), Step(Step(Step(v))), Step(Step(Step(Step(v))));
    var e, f, g := Step(d), Step(Step(d)), Step(Step(Step(d)));
    ReachesStep(v);
    ReachesStep(a);
    ReachesTogether(v, 1, a, 1, b);
    ReachesStep(b);
    ReachesTogether(v, 2, b, 1, c);
    ReachesStep(c);
    ReachesTogether(v, 3, c, 1, d);
    ReachesStep(d);
    ReachesTogether(v, 4, d, 1, e);
    ReachesStep(e);
    ReachesTogether(v, 5, e, 1, f);
    ReachesStep(f);
    ReachesTogether(v, 6, f, 1, g);
    ReachesStep(g);
    ReachesTogether(v, 7, g, 1, Step(g));
  }

  lemma ReachesSteps16(v: bv32)
    ensures Reaches(v, 16, Steps16(v))
  {
    hide Reaches, Steps8;
    ReachesSteps8(v);
    ReachesSteps8(Steps8(v));
    ReachesTogether(v, 8, Steps8(v), 8, Steps16(v));
  }

  lemma ReachesSteps64(v: bv32)
    ensures Reaches(v, 32, Steps32(v)) && Reaches(v, 64, Steps64(v))
  {
    hide Reaches, Steps16;
    ReachesSteps16(v);
    ReachesSteps16(Steps16(v));
    ReachesTogether(v, 16, Steps16(v), 16, Steps32(v));
    var w := Steps32(v);
    ReachesSteps16(w);
    ReachesSteps16(Steps16(w));
    ReachesTogether(w, 16, Steps16(w), 16, Steps32(w));
    ReachesTogether(v, 32, w, 32, Steps64(v));
  }

  lemma ReachesSteps256(v: bv32)
    ensures Reaches(v, 128, Steps128(v)) && Reaches(v, 256, Steps256(v))
  {
    hide Reaches, Steps64;
    ReachesSteps64(v);
    ReachesSteps64(Steps64(v));
    ReachesTogether(v, 64, Steps64(v), 64, Steps128(v));
    var w := Steps128(v);
    ReachesSteps64(w);
    ReachesSteps64(Steps64(w));
    ReachesTogether(w, 64, Steps64(w), 64, Steps128(w));
    ReachesTogether(v, 128, w, 128, Steps256(v));
  }

  lemma ReachesSteps512(v: bv32)
    ensures Reaches(v, 512, Steps512(v))
  {
    hide Reaches, Steps256;
    ReachesSteps256(v);
    ReachesSteps256(Steps256(v));
    ReachesTogether(v, 256, Steps256(v), 256, Steps512(v));
  }

  lemma Steps512Of()
    ensures Steps512(0xb206_223a) == 0xbfbb_e458
  {
  }

  lemma Steps256Of()
    ensures Steps256(0xbfbb_e458) == 0x0514_d6da
  {
  }

  lemma Steps128Of()
    ensures Steps128(0x0514_d6da) == 0xee65_5497
  {
  }

  lemma Steps64Of()
    ensures Steps64(0xee65_5497) == 0xc84c_d30d
  {
  }

  lemma StepsOf()
    ensures Steps16(0x4403) == 0xb206_223a
    ensures Steps8(0xc84c_d30d) == 0xbfe0_0000
  {
  }

  /** The bytes 3 and 68 followed by 121 zero bytes leave a register whose first 16 bits are zero. */
  lemma LongWay()
    ensures Reaches(0x4403, 984, 0xbfe0_0000)
  {
    StepsOf();
    Steps64Of();
    Steps128Of();
    Steps256Of();
    Steps512Of();
    hide *;
    ReachesSteps16(0x4403);
    ReachesSteps512(0xb206_223a);
    ReachesTogether(0x4403, 16, 0xb206_223a, 512, 0xbfbb_e458);
    ReachesSteps256(0xbfbb_e458);
    ReachesTogether(0x4403, 528, 0xbfbb_e458, 256, 0x0514_d6da);
    ReachesSteps256(0x0514_d6da);
    ReachesTogether(0x4403, 784, 0x0514_d6da, 128, 0xee65_5497);
    ReachesSteps64(0xee65_5497);
    ReachesTogether(0x4403, 912, 0xee65_5497, 64, 0xc84c_d30d);
    ReachesSteps8(0xc84c_d30d);
    ReachesTogether(0x4403, 976, 0xc84c_d30d, 8, 0xbfe0_0000);
  }

  // ---- The two messages -----------------------------------------------------------------

  lemma {:induction false} FeedZeros(s: Register, n: nat)
    ensures Feed(s, Zeros(n)) == StepsBits(s, n)
    decreases n
  {
    if n > 0 {
      assert s[0 := s[0] != false] == s;
      assert Zeros(n)[1..] == Zeros(n - 1);
      FeedZeros(StepBits(s), n - 1);
    }
  }

  lemma {:induction false} MessageConcat(a: seq<bv8>, b: seq<bv8>)
    ensures MessageBits(a + b) == MessageBits(a) + MessageBits(b)
  {
    hide ByteBits;
    if b == [] {
      assert a + b == a;
    } else {
      var n := |b| - 1;
      MessageConcat(a, b[..n]);
      assert (a + b)[..|a + b| - 1] == a + b[..n];
      assert (a + b)[|a + b| - 1] == b[n];
    }
  }

  lemma TwoBytes(a: bv8, b: bv8)
    ensures MessageBits([a, b]) == ByteBits(a) + ByteBits(b)
  {
    hide ByteBits;
    assert [a, b][..1] == [a] && [a][..0] == [];
    assert MessageBits([a]) == MessageBits([]) + ByteBits(a);
  }

  lemma SmallBytes()
    ensures ByteBits(1) == [true, false, false, false] + [false, false, false, false]
    ensures ByteBits(2) == [false, true, false, false] + [false, false, false, false]
    ensures ByteBits(69) == [true, false, true, false] + [false, false, true, false]
  {
    hide LowBits;
    NoBits(Word(0));
    NibbleBits(0, 0, false, false, false, false, 0);
    NibbleBits(4, 0, false, false, true, false, 0);
    NibbleBits(1, 0, true, false, false, false, 4);
    NibbleBits(2, 0, false, true, false, false, 4);
    NibbleBits(0x45, 4, true, false, true, false, 4);
  }

  lemma DifferenceHighByte()
    ensures LowBits(Word(0x44), 24) == [false, false, true, false] + ([false, false, true, false] + Zeros(16))
  {
    BitsOfZero(16);
    hide *;
    NibbleBits(4, 0, false, false, true, false, 16);
    NibbleBits(0x44, 4, false, false, true, false, 20);
  }

  lemma DifferenceLowByte()
    ensures LowBits(Word(0x4403), 32) ==
            [true, true, false, false] + ([false, false, false, false] + LowBits(Word(0x44), 24))
  {
    hide *;
    NibbleBits(0x440, 0x44, false, false, false, false, 24);
    NibbleBits(0x4403, 0x440, true, true, false, false, 28);
  }

  lemma DifferenceWord()
    ensures AllBits(Word(0x4403)) ==
            [true, true, false, false] + ([false, false, false, false] +
            ([false, false, true, false] + ([false, false, true, false] + Zeros(16))))
  {
    hide LowBits, Zeros;
    DifferenceHighByte();
    DifferenceLowByte();
  }

  lemma LowHalfIsZero()
    ensures forall i :: 0 <= i < 16 ==> !AllBits(Word(0xbfe0_0000))[i]
  {
    hide LowBits;
    NibbleBits(0xbfe0_0000, 0xbfe_0000, false, false, false, false, 28);
    NibbleBits(0xbfe_0000, 0xbf_e000, false, false, false, false, 24);
    NibbleBits(0xbf_e000, 0xb_fe00, false, false, false, false, 20);
    NibbleBits(0xb_fe00, 0xbfe0, false, false, false, false, 16);
  }

  lemma HeadDifference()
    ensures XorBits(MessageBits([1, 1]), MessageBits([2, 69])) + Zeros(16) == AllBits(Word(0x4403))
  {
    TwoBytes(1, 1);
    TwoBytes(2, 69);
    SmallBytes();
    DifferenceWord();
    hide MessageBits, ByteBits, AllBits;
    var d, w := XorBits(MessageBits([1, 1]), MessageBits([2, 69])) + Zeros(16), AllBits(Word(0x4403));
    forall i | 0 <= i < 32
      ensures d[i] == w[i]
    {
    }
  }

  lemma XorOfConcat(a: Bits, b: Bits, tail: Bits)
    requires |a| == |b|
    ensures XorBits(a + tail, b + tail) == XorBits(a, b) + Zeros(|tail|)
  {
  }

  /** Messages of 123 bytes that start with 1, 1 and with 2, 69 and then agree: 16 bits of their checksums agree. */
  lemma HalfOfTheChecksumAgrees(rest: seq<bv8>)
    requires |rest| == 121
    ensures forall i :: 0 <= i < 16 ==> Checksum([1, 1] + rest)[i] == Checksum([2, 69] + rest)[i]
  {
    var x, y: seq<bv8> := [1, 1] + rest, [2, 69] + rest;
    var head := XorBits(MessageBits([1, 1]), MessageBits([2, 69]));
    hide Checksum, MessageBits, Feed, StepsBits, AllBits;
    MessageConcat([1, 1], rest);
    MessageConcat([2, 69], rest);
    XorOfConcat(MessageBits([1, 1]), MessageBits([2, 69]), MessageBits(rest));
    ChecksumDifference(x, y);
    HeadDifference();
    FeedDifference(head);
    LowHalfIsZero();
    assert XorBits(Checksum(x), Checksum(y)) == AllBits(Word(0xbfe0_0000));
    forall i | 0 <= i < 16
      ensures Checksum(x)[i] == Checksum(y)[i]
    {
      assert !XorBits(Checksum(x), Checksum(y))[i];
    }
  }

  lemma {:induction false} FeedDifference(head: Bits)
    requires |head| == 16 && head + Zeros(16) == AllBits(Word(0x4403))
    ensures Feed(Zeros(32), head + Zeros(968)) == AllBits(Word(0xbfe0_0000))
  {
    hide Feed, StepsBits, AllBits;
    var start := AllBits(Word(0x4403));
    FeedConcat(Zeros(32), head, Zeros(968));
    FeedAtOnce(Zeros(32), head);
    assert XorBits(Zeros(32), head + Zeros(16)) == start;
    FeedZeros(StepsBits(start, 16), 968);
    StepsTogether(start, 16, 968);
    LongWay();
  }
}
