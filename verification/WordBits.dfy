/**
 The bits of 32-bit words. Word operations are named so that proofs about whole
 bit strings can treat them as given by what they do to the bits.
 */
module WordBits {

  datatype Word = Word(v: bv32) {
    function Low(): bool {
      v & 1 != 0
    }

    function Shr(): Word {
      Word(v >> 1)
    }

    function Shr8(): Word {
      Word(v >> 8)
    }

    function Xor(b: Word): Word {
      Word(v ^ b.v)
    }

    function And(b: Word): Word {
      Word(v & b.v)
    }
  }

  type Bits = seq<bool>

  /** The words below 256. */
  predicate IsByte(w: Word) {
    w.v <= 0xFF
  }

  /** The table slot of the low byte of a word. */
  function LowByte(w: Word): (i: nat)
    ensures i < 256
  {
    (w.v & 0xFF) as int
  }

  lemma LowByteOfMasked(w: Word)
    ensures IsByte(w.And(Word(0xFF))) && LowByte(w.And(Word(0xFF))) == LowByte(w)
  {
  }

  lemma IndexRoundTrip(x: bv32)
    requires x <= 0xFF
    ensures (x as int) as bv32 == x
    ensures x & 0xFF == x
  {
  }

  lemma LowByteOfByte(w: Word)
    requires IsByte(w)
    ensures LowByte(w) as bv32 == w.v
  {
    IndexRoundTrip(w.v);
  }

  ghost function Zeros(n: nat): (bits: Bits)
    ensures |bits| == n && forall i :: 0 <= i < n ==> !bits[i]
  {
    seq(n, _ => false)
  }

  ghost function Ones(n: nat): (bits: Bits)
    ensures |bits| == n && forall i :: 0 <= i < n ==> bits[i]
  {
    seq(n, _ => true)
  }

  ghost function XorBits(a: Bits, b: Bits): (bits: Bits)
    requires |a| == |b|
    ensures |bits| == |a| && forall i :: 0 <= i < |a| ==> bits[i] == (a[i] != b[i])
  {
    seq(|a|, i requires 0 <= i < |a| => a[i] != b[i])
  }

  /** The low `n` bits of a word, lowest first. */
  ghost function LowBits(w: Word, n: nat): (bits: Bits)
    ensures |bits| == n
    decreases n
  {
    if n == 0 then [] else [w.Low()] + LowBits(w.Shr(), n - 1)
  }

  ghost function ShiftBy(w: Word, m: nat): Word
    decreases m
  {
    if m == 0 then w else ShiftBy(w.Shr(), m - 1)
  }

  lemma {:induction false} SplitBits(w: Word, m: nat, n: nat)
    ensures LowBits(w, m + n) == LowBits(w, m) + LowBits(ShiftBy(w, m), n)
    decreases m
  {
    hide Word.Low, Word.Shr;
    if m > 0 {
      SplitBits(w.Shr(), m - 1, n);
    }
  }

  lemma XorOneBit(a: Word, b: Word)
    ensures a.Xor(b).Shr() == a.Shr().Xor(b.Shr())
    ensures a.Xor(b).Low() <==> a.Low() != b.Low()
  {
  }

  lemma {:induction false} LowBitsOfXor(a: Word, b: Word, n: nat)
    ensures LowBits(a.Xor(b), n) == XorBits(LowBits(a, n), LowBits(b, n))
    decreases n
  {
    hide Word.Low, Word.Shr, Word.Xor;
    if n > 0 {
      XorOneBit(a, b);
      LowBitsOfXor(a.Shr(), b.Shr(), n - 1);
    }
  }

  lemma AndOneBit(a: Word, b: Word)
    ensures a.And(b).Shr() == a.Shr().And(b.Shr())
    ensures a.And(b).Low() <==> a.Low() && b.Low()
  {
  }

  lemma {:induction false} LowBitsOfAnd(a: Word, b: Word, n: nat)
    ensures forall i :: 0 <= i < n ==> LowBits(a.And(b), n)[i] == (LowBits(a, n)[i] && LowBits(b, n)[i])
    decreases n
  {
    hide Word.Low, Word.Shr, Word.And;
    if n > 0 {
      AndOneBit(a, b);
      LowBitsOfAnd(a.Shr(), b.Shr(), n - 1);
    }
  }

  lemma ZeroHalves()
    ensures !Word(0).Low() && Word(0).Shr() == Word(0)
  {
  }

  lemma {:induction false} BitsOfZero(n: nat)
    ensures LowBits(Word(0), n) == Zeros(n)
    decreases n
  {
    hide Word.Low, Word.Shr;
    if n > 0 {
      ZeroHalves();
      BitsOfZero(n - 1);
    }
  }

  lemma {:induction false} ShiftTwice(w: Word, m: nat, n: nat)
    ensures ShiftBy(w, m + n) == ShiftBy(ShiftBy(w, m), n)
    decreases m
  {
    hide Word.Shr;
    if m > 0 {
      ShiftTwice(w.Shr(), m - 1, n);
    }
  }

  lemma {:induction false} ShiftByFour(w: Word)
    ensures ShiftBy(w, 4) == w.Shr().Shr().Shr().Shr()
  {
    hide Word.Shr;
    assert ShiftBy(w.Shr(), 3) == w.Shr().Shr().Shr().Shr();
  }

  lemma EightShifts(w: Word)
    ensures w.Shr().Shr().Shr().Shr().Shr().Shr().Shr().Shr() == w.Shr8()
  {
  }

  lemma {:induction false} ShiftByEight(w: Word)
    ensures ShiftBy(w, 8) == w.Shr8()
  {
    hide Word.Shr, Word.Shr8;
    ShiftTwice(w, 4, 4);
    ShiftByFour(w);
    ShiftByFour(w.Shr().Shr().Shr().Shr());
    EightShifts(w);
  }

  lemma NothingLeft(w: Word)
    ensures w.Shr8().Shr8().Shr8().Shr8() == Word(0)
  {
  }

  /** Nothing is left of a word after thirty-two shifts. */
  lemma {:induction false} ShiftByAll(w: Word)
    ensures ShiftBy(w, 32) == Word(0)
  {
    hide Word.Shr, Word.Shr8;
    ShiftTwice(w, 8, 24);
    ShiftByEight(w);
    ShiftTwice(w.Shr8(), 8, 16);
    ShiftByEight(w.Shr8());
    ShiftTwice(w.Shr8().Shr8(), 8, 8);
    ShiftByEight(w.Shr8().Shr8());
    ShiftByEight(w.Shr8().Shr8().Shr8());
    NothingLeft(w);
  }

  // ---- All thirty-two bits -----------------------------------------------------

  ghost function AllBits(w: Word): (bits: Bits)
    ensures |bits| == 32
  {
    LowBits(w, 32)
  }

  lemma {:induction false} BitsBeyond(w: Word, n: nat)
    ensures LowBits(w, 32 + n) == AllBits(w) + Zeros(n)
  {
    hide Word.Low, Word.Shr;
    SplitBits(w, 32, n);
    ShiftByAll(w);
    BitsOfZero(n);
  }

  lemma BitsOfShift(w: Word)
    ensures AllBits(w.Shr()) == AllBits(w)[1..] + [false]
  {
    hide Word.Low, Word.Shr;
    BitsBeyond(w, 1);
    assert LowBits(w, 33)[1..] == AllBits(w.Shr());
    assert (AllBits(w) + Zeros(1))[1..] == AllBits(w)[1..] + [false];
  }

  lemma BitsOfShiftEight(w: Word)
    ensures AllBits(w.Shr8()) == AllBits(w)[8..] + Zeros(8)
  {
    hide Word.Low, Word.Shr, Word.Shr8;
    BitsBeyond(w, 8);
    SplitBits(w, 8, 32);
    ShiftByEight(w);
    assert LowBits(w, 40)[8..] == AllBits(w.Shr8());
  }

  lemma BitsOfXor(a: Word, b: Word)
    ensures AllBits(a.Xor(b)) == XorBits(AllBits(a), AllBits(b))
  {
    hide Word.Low, Word.Shr, Word.Xor;
    LowBitsOfXor(a, b, 32);
  }

  lemma LowestBit(w: Word)
    ensures AllBits(w)[0] == w.Low()
  {
    hide Word.Low, Word.Shr;
  }

  /** A word whose bits above the eighth are clear. */
  lemma {:induction false} BitsOfByte(w: Word)
    requires w.Shr8() == Word(0)
    ensures AllBits(w) == LowBits(w, 8) + Zeros(24)
  {
    hide Word.Low, Word.Shr, Word.Shr8;
    SplitBits(w, 8, 24);
    ShiftByEight(w);
    BitsOfZero(24);
  }

  lemma EightOnes()
    ensures LowBits(Word(0xFF), 8) == Ones(8)
  {
    assert LowBits(Word(0x1), 1) == [true];
    assert LowBits(Word(0x3), 2) == [true, true];
    assert LowBits(Word(0x7), 3) == [true, true, true];
    assert LowBits(Word(0xF), 4) == [true, true, true, true];
    ShiftByFour(Word(0xFF));
    SplitBits(Word(0xFF), 4, 4);
    assert LowBits(Word(0xFF), 4) == [true, true, true, true];
  }

  lemma LowByteShifts(w: Word)
    ensures w.And(Word(0xFF)).Shr8() == Word(0)
  {
  }

  /** Masking out all but the low byte. */
  lemma BitsOfLowByte(w: Word)
    ensures AllBits(w.And(Word(0xFF))) == AllBits(w)[..8] + Zeros(24)
  {
    hide Word.Low, Word.Shr, Word.Shr8, Word.And;
    var low := w.And(Word(0xFF));
    LowByteShifts(w);
    BitsOfByte(low);
    LowBitsOfAnd(w, Word(0xFF), 8);
    EightOnes();
    SplitBits(w, 8, 24);
    assert LowBits(low, 8) == AllBits(w)[..8];
  }

  lemma SameWord(a: Word, b: Word)
    requires a.Shr() == b.Shr() && a.Low() == b.Low()
    ensures a == b
  {
  }

  lemma {:induction false} SameBitsSameShift(a: Word, b: Word, n: nat)
    requires LowBits(a, n) == LowBits(b, n) && ShiftBy(a, n) == ShiftBy(b, n)
    ensures a == b
    decreases n
  {
    hide Word.Low, Word.Shr;
    if n > 0 {
      assert LowBits(a, n)[0] == a.Low() && LowBits(b, n)[0] == b.Low();
      assert LowBits(a, n)[1..] == LowBits(a.Shr(), n - 1) && LowBits(b, n)[1..] == LowBits(b.Shr(), n - 1);
      SameBitsSameShift(a.Shr(), b.Shr(), n - 1);
      SameWord(a, b);
    }
  }

  /** A word is determined by its bits. */
  lemma AllBitsIsInjective(a: Word, b: Word)
    requires AllBits(a) == AllBits(b)
    ensures a == b
  {
    hide Word.Low, Word.Shr;
    ShiftByAll(a);
    ShiftByAll(b);
    SameBitsSameShift(a, b, 32);
  }
}
