/**
 CRC32C: the table-driven checksum, and what it guarantees about the messages it
 is computed from.
 */
module Crc32c {
  import opened WordBits
  import opened Crc32cDivision

  // The generator with its coefficients reversed: bit 0 holds x^31.
  const POLY := Word(0x82F63B78)

  const ALL_ONES := Word(0xFFFF_FFFF)

  // ---- What the checksum is --------------------------------------------------

  ghost function ByteBits(b: bv8): (bits: Bits)
    ensures |bits| == 8
  {
    LowBits(Word(b as bv32), 8)
  }

  /** The bits of a message in transmission order: bytes in order, lowest bit first. */
  ghost function MessageBits(data: seq<bv8>): (bits: Bits)
    ensures |bits| == 8 * |data|
  {
    if data == [] then [] else MessageBits(data[..|data| - 1]) + ByteBits(data[|data| - 1])
  }

  /**
   The checksum by division: the remainder of the message followed by 32 zeros, its
   first 32 bits complemented, and the result complemented.
   */
  ghost function Checksum(data: seq<bv8>): (bits: Bits)
    ensures |bits| == 32
  {
    XorBits(Remainder(AddLead(Ones(32), MessageBits(data) + Zeros(32))), Ones(32))
  }

  // ---- One step of the register ------------------------------------------------

  function StepWord(w: Word): Word {
    if w.Low() then w.Shr().Xor(POLY) else w.Shr()
  }

  lemma {:induction false} OneBit(w: Word, n: nat)
    ensures LowBits(w, n + 1) == [w.Low()] + LowBits(w.Shr(), n)
  {
    hide Word.Low, Word.Shr;
  }

  lemma {:induction false} NibbleBits(v: bv32, next: bv32, a: bool, b: bool, c: bool, d: bool, n: nat)
    requires (v & 1 != 0) == a && (v & 2 != 0) == b && (v & 4 != 0) == c && (v & 8 != 0) == d && v >> 4 == next
    ensures LowBits(Word(v), n + 4) == [a, b, c, d] + LowBits(Word(next), n)
  {
    var w := Word(v);
    NibbleWords(v);
    hide Word.Low, Word.Shr, LowBits;
    var w1, w2, w3 := w.Shr(), w.Shr().Shr(), w.Shr().Shr().Shr();
    OneBit(w, n + 3);
    OneBit(w1, n + 2);
    OneBit(w2, n + 1);
    OneBit(w3, n);
    var rest := LowBits(Word(next), n);
    assert [a] + ([b] + ([c] + ([d] + rest))) == [a, b, c, d] + rest;
  }

  lemma NibbleWords(v: bv32)
    ensures var w := Word(v);
            && w.Low() == (v & 1 != 0)
            && w.Shr().Low() == (v & 2 != 0)
            && w.Shr().Shr().Low() == (v & 4 != 0)
            && w.Shr().Shr().Shr().Low() == (v & 8 != 0)
            && w.Shr().Shr().Shr().Shr() == Word(v >> 4)
  {
  }

  lemma PolyBits()
    ensures AllBits(POLY) == GENERATOR
  {
    hide LowBits;
    NoBits(Word(0));
    NibbleBits(0x8, 0, false, false, false, true, 0);
    NibbleBits(0x82, 0x8, false, true, false, false, 4);
    NibbleBits(0x82F, 0x82, true, true, true, true, 8);
    NibbleBits(0x82F6, 0x82F, false, true, true, false, 12);
    NibbleBits(0x82F63, 0x82F6, true, true, false, false, 16);
    NibbleBits(0x82F63B, 0x82F63, true, true, false, true, 20);
    NibbleBits(0x82F63B7, 0x82F63B, true, true, true, false, 24);
    NibbleBits(0x82F63B78, 0x82F63B7, false, false, false, true, 28);
    assert [false, false, false, true] + [] == [false, false, false, true];
  }

  lemma {:induction false} NoBits(w: Word)
    ensures LowBits(w, 0) == []
  {
  }

  /** The word step is the register step. */
  lemma BitsOfStep(w: Word)
    ensures AllBits(StepWord(w)) == StepBits(AllBits(w))
  {
    hide Word.Low, Word.Shr, Word.Xor, LowBits;
    LowestBit(w);
    BitsOfShift(w);
    if w.Low() {
      BitsOfXor(w.Shr(), POLY);
      PolyBits();
    }
  }

  // ---- The table -----------------------------------------------------------------

  lemma {:induction false} StepsOneMore(s: Register, n: nat)
    ensures StepsBits(s, n + 1) == StepBits(StepsBits(s, n))
    decreases n
  {
    hide StepBits;
    if n > 0 {
      StepsOneMore(StepBits(s), n - 1);
    }
  }

  /** `entry` is the byte `w` after eight steps. */
  ghost predicate IsEntry(w: Word, entry: Word) {
    AllBits(entry) == StepsBits(AllBits(w), 8)
  }

  ghost predicate IsTable(table: seq<Word>) {
    |table| == 256 && forall w :: IsByte(w) ==> IsEntry(w, table[LowByte(w)])
  }

  method MakeEntry(i: Word) returns (entry: Word)
    ensures IsEntry(i, entry)
  {
    hide AllBits, StepBits, Word.Low, Word.Shr, Word.Xor;
    entry := i;
    for j := 0 to 8
      invariant AllBits(entry) == StepsBits(AllBits(i), j)
    {
      BitsOfStep(entry);
      StepsOneMore(AllBits(i), j);
      if entry.Low() {
        entry := entry.Shr().Xor(POLY);
      } else {
        entry := entry.Shr();
      }
    }
  }

  function ByteWord(i: nat): Word
    requires i < 256
  {
    Word(i as bv32)
  }

  lemma EveryByteHasASlot(table: seq<Word>)
    requires |table| == 256
    requires forall i :: 0 <= i < 256 ==> IsEntry(ByteWord(i), table[i])
    ensures IsTable(table)
  {
    hide IsEntry, LowByte;
    forall w | IsByte(w)
      ensures IsEntry(w, table[LowByte(w)])
    {
      LowByteOfByte(w);
      assert ByteWord(LowByte(w)) == w;
    }
  }

  method MakeTable() returns (table: array<Word>)
    ensures fresh(table) && IsTable(table[..])
  {
    hide IsEntry, ByteWord, LowByte;
    table := new Word[256](_ => Word(0));
    for i := 0 to 256
      invariant forall k :: 0 <= k < i ==> IsEntry(ByteWord(k), table[k])
    {
      var entry := MakeEntry(ByteWord(i));
      table[i] := entry;
    }
    EveryByteHasASlot(table[..]);
  }

  // ---- One byte at a time ----------------------------------------------------------

  /** Zeros at the front of the register are shifted out without dividing. */
  lemma {:induction false} ShiftOutZeros(s: Register, n: nat)
    requires n <= 32 && forall i :: 0 <= i < n ==> !s[i]
    ensures StepsBits(s, n) == s[n..] + Zeros(n)
    decreases n
  {
    if n > 0 {
      ShiftOutZeros(StepBits(s), n - 1);
      assert StepBits(s) == s[1..] + [false];
    }
  }

  /** Eight steps of a register: the table entry of its low byte, added to its remaining bits. */
  lemma {:induction false} EightSteps(x: Register)
    ensures StepsBits(x, 8) == XorBits(x[8..] + Zeros(8), StepsBits(x[..8] + Zeros(24), 8))
  {
    hide StepsBits;
    var low: Register, high: Register := x[..8] + Zeros(24), Zeros(8) + x[8..];
    assert XorBits(high, low) == x;
    StepsIsLinear(high, low, 8);
    ShiftOutZeros(high, 8);
    assert high[8..] == x[8..];
  }

  /** The table-driven update feeds one byte into the register. */
  lemma {:induction false} ByteUpdate(crc: Word, b: Word, entry: Word)
    requires b.Shr8() == Word(0)
    requires IsEntry(crc.Xor(b).And(Word(0xFF)), entry)
    ensures AllBits(crc.Shr8().Xor(entry)) == Feed(AllBits(crc), LowBits(b, 8))
  {
    hide Word.Shr8, Word.Xor, Word.And, LowBits, Feed, StepsBits;
    var c, x := AllBits(crc), AllBits(crc.Xor(b));
    BitsOfXor(crc, b);
    BitsOfByte(b);
    BitsOfLowByte(crc.Xor(b));
    BitsOfShiftEight(crc);
    BitsOfXor(crc.Shr8(), entry);
    FeedAtOnce(c, LowBits(b, 8));
    EightSteps(x);
    assert x[8..] == c[8..];
  }

  lemma WideByte(b: bv8)
    ensures Word(b as bv32).Shr8() == Word(0)
  {
  }

  lemma {:induction false} MessageOneMore(data: seq<bv8>, k: nat)
    requires k < |data|
    ensures MessageBits(data[..k + 1]) == MessageBits(data[..k]) + ByteBits(data[k])
  {
    assert data[..k + 1][..k] == data[..k];
  }

  lemma OnesBits()
    ensures AllBits(ALL_ONES) == Ones(32)
  {
    hide LowBits;
    var f := [true, true, true, true];
    NibbleBits(0xF, 0, true, true, true, true, 0);
    NibbleBits(0xFF, 0xF, true, true, true, true, 4);
    NibbleBits(0xFFF, 0xFF, true, true, true, true, 8);
    NibbleBits(0xFFFF, 0xFFF, true, true, true, true, 12);
    assert LowBits(Word(0xFFFF), 16) == f + (f + (f + (f + LowBits(Word(0), 0))));
    NibbleBits(0xF_FFFF, 0xFFFF, true, true, true, true, 16);
    NibbleBits(0xFF_FFFF, 0xF_FFFF, true, true, true, true, 20);
    NibbleBits(0xFFF_FFFF, 0xFF_FFFF, true, true, true, true, 24);
    NibbleBits(0xFFFF_FFFF, 0xFFF_FFFF, true, true, true, true, 28);
  }

  /** The table-driven checksum is the remainder of the message modulo the generator. */
  method Crc32c(data: seq<bv8>) returns (crc: Word)
    ensures AllBits(crc) == Checksum(data)
  {
    hide Word.Shr8, Word.Xor, Word.And, LowBits, Feed, IsEntry, LowByte, AllBits;
    var table := MakeTable();
    crc := ALL_ONES;
    OnesBits();
    FedNothing(Ones(32));
    for k := 0 to |data|
      invariant IsTable(table[..])
      invariant AllBits(crc) == Feed(Ones(32), MessageBits(data[..k]))
    {
      var b := Word(data[k] as bv32);
      var entry := table[LowByte(crc.Xor(b))];
      WideByte(data[k]);
      LowByteOfMasked(crc.Xor(b));
      assert entry == table[..][LowByte(crc.Xor(b).And(Word(0xFF)))];
      ByteUpdate(crc, b, entry);
      crc := crc.Shr8().Xor(entry);
      MessageOneMore(data, k);
      FeedConcat(Ones(32), MessageBits(data[..k]), ByteBits(data[k]));
    }
    assert data[..|data|] == data;
    FeedIsRemainder(Ones(32), MessageBits(data));
    BitsOfXor(crc, ALL_ONES);
    crc := crc.Xor(ALL_ONES);
  }

  lemma {:induction false} FedNothing(s: Register)
    ensures Feed(s, MessageBits([])) == s
  {
  }

  // ---- A message followed by its checksum ----------------------------------------------

  /** The checksum is the complement of what the message leaves in a register of ones. */
  lemma {:induction false} ChecksumIsFed(data: seq<bv8>)
    ensures Checksum(data) == XorBits(Feed(Ones(32), MessageBits(data)), Ones(32))
  {
    hide Feed, MessageBits, Remainder;
    FeedIsRemainder(Ones(32), MessageBits(data));
  }

  /** Division of a message followed by its checksum always leaves the same residue. */
  lemma {:induction false} ResidueIsConstant(data: seq<bv8>)
    ensures Feed(Ones(32), MessageBits(data) + Checksum(data)) == Feed(Zeros(32), Ones(32))
  {
    hide Feed, MessageBits, StepsBits, Checksum;
    var left := Feed(Ones(32), MessageBits(data));
    ChecksumIsFed(data);
    FeedConcat(Ones(32), MessageBits(data), Checksum(data));
    FeedAtOnce(left, Checksum(data));
    FeedAtOnce(Zeros(32), Ones(32));
    assert XorBits(left, Checksum(data) + Zeros(0)) == Ones(32) == XorBits(Zeros(32), Ones(32) + Zeros(0));
  }

  /** The checksum of the empty message is zero. */
  lemma {:induction false} EmptyChecksum()
    ensures Checksum([]) == Zeros(32)
  {
    hide Feed, Checksum;
    ChecksumIsFed([]);
    FedNothing(Ones(32));
    assert XorBits(Ones(32), Ones(32)) == Zeros(32);
  }

  // ---- What the checksum detects -----------------------------------------------------

  /** The checksums of two messages of one length differ by what the difference of the messages leaves. */
  lemma {:induction false} ChecksumDifference(x: seq<bv8>, y: seq<bv8>)
    requires |x| == |y|
    ensures XorBits(Checksum(x), Checksum(y)) == Feed(Zeros(32), XorBits(MessageBits(x), MessageBits(y)))
  {
    hide Feed;
    var ones := Ones(32);
    var a, b := Feed(ones, MessageBits(x)), Feed(ones, MessageBits(y));
    FeedIsRemainder(ones, MessageBits(x));
    FeedIsRemainder(ones, MessageBits(y));
    assert forall i :: 0 <= i < 32 ==> Checksum(x)[i] == (a[i] != true) && Checksum(y)[i] == (b[i] != true);
    FeedIsLinear(ones, ones, MessageBits(x), MessageBits(y));
    assert XorBits(ones, ones) == Zeros(32);
    assert XorBits(Checksum(x), Checksum(y)) == XorBits(a, b);
  }

  /** Two messages with the same checksum differ by something the register does not see. */
  lemma {:induction false} SameChecksumDifference(x: seq<bv8>, y: seq<bv8>)
    requires |x| == |y| && Checksum(x) == Checksum(y)
    ensures Feed(Zeros(32), XorBits(MessageBits(x), MessageBits(y))) == Zeros(32)
  {
    hide Feed, Checksum;
    ChecksumDifference(x, y);
    assert XorBits(Checksum(x), Checksum(y)) == Zeros(32);
  }

  /** The bits of two messages agree outside the window of 32 bits that starts at `at`. */
  ghost predicate DifferOnlyWithin(x: Bits, y: Bits, at: nat) {
    |x| == |y| && forall i :: 0 <= i < |x| && !(at <= i < at + 32) ==> x[i] == y[i]
  }

  /** The difference of such bits is a burst between two stretches of zeros. */
  lemma BurstOf(x: Bits, y: Bits, at: nat) returns (burst: Bits, after: nat)
    requires DifferOnlyWithin(x, y, at) && x != y
    ensures at <= |x| && |burst| <= 32 && burst != Zeros(|burst|)
    ensures XorBits(x, y) == Zeros(at) + burst + Zeros(after)
  {
    var i :| 0 <= i < |x| && x[i] != y[i];
    var end := if at + 32 <= |x| then at + 32 else |x|;
    var d := XorBits(x, y);
    burst, after := d[at..end], |x| - end;
    assert burst[i - at];
    assert d[..at] == Zeros(at) && d[end..] == Zeros(after);
    assert d == d[..at] + d[at..end] + d[end..];
  }

  /** Any change confined to 32 consecutive bits changes the checksum. */
  lemma {:induction false} BurstDetected(x: seq<bv8>, y: seq<bv8>, at: nat)
    requires |x| == |y| && x != y
    requires DifferOnlyWithin(MessageBits(x), MessageBits(y), at)
    ensures Checksum(x) != Checksum(y)
  {
    hide Feed, Checksum, MessageBits;
    MessageBitsIsInjective(x, y);
    var burst, after := BurstOf(MessageBits(x), MessageBits(y), at);
    BurstLeavesTrace(at, burst, after);
    if Checksum(x) == Checksum(y) {
      SameChecksumDifference(x, y);
    }
  }

  lemma WideBytesDiffer(a: bv8, b: bv8)
    requires Word(a as bv32) == Word(b as bv32)
    ensures a == b
  {
  }

  lemma ByteBitsIsInjective(a: bv8, b: bv8)
    requires ByteBits(a) == ByteBits(b)
    ensures a == b
  {
    hide LowBits;
    var v, w := Word(a as bv32), Word(b as bv32);
    WideByte(a);
    WideByte(b);
    BitsOfByte(v);
    BitsOfByte(w);
    AllBitsIsInjective(v, w);
    WideBytesDiffer(a, b);
  }

  /** The eight bits of one byte within the message. */
  lemma {:induction false} MessageBitsAt(data: seq<bv8>, k: nat)
    requires k < |data|
    ensures MessageBits(data)[8 * k..8 * k + 8] == ByteBits(data[k])
  {
    hide ByteBits;
    var n := |data| - 1;
    var front := MessageBits(data[..n]);
    assert MessageBits(data) == front + ByteBits(data[n]);
    if k < n {
      MessageBitsAt(data[..n], k);
      assert (front + ByteBits(data[n]))[8 * k..8 * k + 8] == front[8 * k..8 * k + 8];
    }
  }

  lemma {:induction false} MessageBitsIsInjective(x: seq<bv8>, y: seq<bv8>)
    requires |x| == |y| && x != y
    ensures MessageBits(x) != MessageBits(y)
  {
    var k :| 0 <= k < |x| && x[k] != y[k];
    MessageBitsAt(x, k);
    MessageBitsAt(y, k);
    if MessageBits(x) == MessageBits(y) {
      ByteBitsIsInjective(x[k], y[k]);
    }
  }

  /** Any change confined to four consecutive bytes changes the checksum. */
  lemma FourByteBurstDetected(x: seq<bv8>, y: seq<bv8>, at: nat)
    requires |x| == |y| && x != y
    requires forall k :: 0 <= k < |x| && !(at <= k < at + 4) ==> x[k] == y[k]
    ensures Checksum(x) != Checksum(y)
  {
    hide MessageBits, Checksum;
    var a, b := MessageBits(x), MessageBits(y);
    forall i | 0 <= i < |a| && !(8 * at <= i < 8 * at + 32)
      ensures a[i] == b[i]
    {
      var k := i / 8;
      MessageBitsAt(x, k);
      MessageBitsAt(y, k);
      assert a[i] == a[8 * k..8 * k + 8][i - 8 * k] && b[i] == b[8 * k..8 * k + 8][i - 8 * k];
    }
    BurstDetected(x, y, 8 * at);
  }

  /** The checksum has the parity of the message, so a change of an odd number of bits is always detected. */
  lemma {:induction false} ChecksumParity(data: seq<bv8>)
    ensures Odd(Checksum(data)) == Odd(MessageBits(data))
  {
    hide Feed;
    FeedIsRemainder(Ones(32), MessageBits(data));
    FeedKeepsParity(Ones(32), MessageBits(data));
    OddOfXor(Feed(Ones(32), MessageBits(data)), Ones(32));
  }
}
