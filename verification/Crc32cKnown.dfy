/**
 The checksum bit by bit on machine words, as a second definition, and its published
 values.
 */
module Crc32cKnown {
  import opened WordBits
  import opened Crc32cDivision
  import opened Crc32c
  import opened Crc32cSpan

  /** Add a byte to the low end of the register and step eight times. */
  function ReadByte(c: bv32, b: bv8): bv32 {
    Steps8(c ^ (b as bv32))
  }

  /** The register after a message, started at all ones. */
  function BitByBit(data: seq<bv8>): bv32 {
    if data == [] then 0xFFFF_FFFF
    else
      var n := |data| - 1;
      ReadByte(BitByBit(data[..n]), data[n])
  }

  /** That feeds the byte into the register, lowest bit first. */
  lemma ByteFed(c: bv32, b: bv8)
    ensures Feed(AllBits(Word(c)), ByteBits(b)) == AllBits(Word(ReadByte(c, b)))
  {
    hide LowBits, Feed, StepsBits, Steps8, Word.Shr8, Word.Xor, AllBits;
    var w := Word(b as bv32);
    WideByte(b);
    BitsOfByte(w);
    XorOfWords(c, b as bv32);
    BitsOfXor(Word(c), w);
    ReachesSteps8(c ^ (b as bv32));
    FeedAtOnce(AllBits(Word(c)), ByteBits(b));
  }

  lemma XorOfWords(a: bv32, b: bv32)
    ensures Word(a).Xor(Word(b)) == Word(a ^ b)
  {
  }

  lemma {:induction false} BitByBitFeeds(data: seq<bv8>)
    ensures Feed(Ones(32), MessageBits(data)) == AllBits(Word(BitByBit(data)))
  {
    hide Feed, ReadByte, ByteBits, AllBits;
    if data == [] {
      OnesBits();
      FedNothing(Ones(32));
    } else {
      var n := |data| - 1;
      BitByBitFeeds(data[..n]);
      ByteFed(BitByBit(data[..n]), data[n]);
      FeedConcat(Ones(32), MessageBits(data[..n]), ByteBits(data[n]));
    }
  }

  function Complement(v: bv32): bv32 {
    v ^ 0xFFFF_FFFF
  }

  lemma ComplementBits(v: bv32)
    ensures AllBits(Word(Complement(v))) == XorBits(AllBits(Word(v)), Ones(32))
  {
    assert Word(v).Xor(ALL_ONES) == Word(Complement(v));
    hide *;
    BitsOfXor(Word(v), ALL_ONES);
    OnesBits();
  }

  /** The checksum is the complement of the register after the whole message. */
  lemma {:induction false} ChecksumIsBitByBit(data: seq<bv8>)
    ensures Checksum(data) == AllBits(Word(Complement(BitByBit(data))))
  {
    hide *;
    BitByBitFeeds(data);
    ChecksumIsFed(data);
    ComplementBits(BitByBit(data));
  }

  lemma {:induction false} NothingRead()
    ensures BitByBit([]) == 0xFFFF_FFFF
  {
  }

  lemma {:induction false} ByteRead(data: seq<bv8>, k: nat, c: bv32, d: bv32)
    requires k < |data| && BitByBit(data[..k]) == c && ReadByte(c, data[k]) == d
    ensures BitByBit(data[..k + 1]) == d
  {
    hide ReadByte;
    assert data[..k + 1][..k] == data[..k];
  }

  lemma DigitsSteps()
    ensures Complement(0x1CF9_6D7C) == 0xE306_9283
    ensures ReadByte(0xFFFF_FFFF, 0x31) == 0x6F0A_661C
    ensures ReadByte(0x6F0A_661C, 0x32) == 0x8CAA_3B9F
    ensures ReadByte(0x8CAA_3B9F, 0x33) == 0xEF84_D04D
  {
  }

  lemma DigitsStepsMore()
    ensures ReadByte(0xEF84_D04D, 0x34) == 0x09C5_0B11
    ensures ReadByte(0x09C5_0B11, 0x35) == 0xE72E_DCCA
    ensures ReadByte(0xE72E_DCCA, 0x36) == 0xBECA_8E79
  {
  }

  lemma DigitsStepsLast()
    ensures ReadByte(0xBECA_8E79, 0x37) == 0xEDBD_6815
    ensures ReadByte(0xEDBD_6815, 0x38) == 0x9F78_7F65
    ensures ReadByte(0x9F78_7F65, 0x39) == 0x1CF9_6D7C
  {
  }

  /** The checksum of "123456789", the published check value. */
  lemma DigitsChecksum()
    ensures Checksum([0x31, 0x32, 0x33, 0x34, 0x35, 0x36, 0x37, 0x38, 0x39]) == AllBits(Word(0xE306_9283))
  {
    hide *;
    DigitsSteps();
    DigitsStepsMore();
    DigitsStepsLast();
    NothingRead();
    var data: seq<bv8> := [0x31, 0x32, 0x33, 0x34, 0x35, 0x36, 0x37, 0x38, 0x39];
    assert data[..0] == [];
    ByteRead(data, 0, 0xFFFF_FFFF, 0x6F0A_661C);
    ByteRead(data, 1, 0x6F0A_661C, 0x8CAA_3B9F);
    ByteRead(data, 2, 0x8CAA_3B9F, 0xEF84_D04D);
    ByteRead(data, 3, 0xEF84_D04D, 0x09C5_0B11);
    ByteRead(data, 4, 0x09C5_0B11, 0xE72E_DCCA);
    ByteRead(data, 5, 0xE72E_DCCA, 0xBECA_8E79);
    ByteRead(data, 6, 0xBECA_8E79, 0xEDBD_6815);
    ByteRead(data, 7, 0xEDBD_6815, 0x9F78_7F65);
    ByteRead(data, 8, 0x9F78_7F65, 0x1CF9_6D7C);
    assert data[..9] == data;
    ChecksumIsBitByBit(data);
  }

  lemma LettersSteps()
    ensures Complement(0x6D37_F5CE) == 0x92C8_0A31
    ensures ReadByte(0xFFFF_FFFF, 0x61) == 0x3E2F_BCCF
    ensures ReadByte(0x3E2F_BCCF, 0x62) == 0x1D5D_D6C9
    ensures ReadByte(0x1D5D_D6C9, 0x63) == 0xC9B4_C048
  {
  }

  lemma LettersStepsMore()
    ensures ReadByte(0xC9B4_C048, 0x64) == 0x6D37_F5CE
  {
  }

  /** The checksum of "abcd". */
  lemma LettersChecksum()
    ensures Checksum([0x61, 0x62, 0x63, 0x64]) == AllBits(Word(0x92C8_0A31))
  {
    hide *;
    LettersSteps();
    LettersStepsMore();
    NothingRead();
    var data: seq<bv8> := [0x61, 0x62, 0x63, 0x64];
    assert data[..0] == [];
    ByteRead(data, 0, 0xFFFF_FFFF, 0x3E2F_BCCF);
    ByteRead(data, 1, 0x3E2F_BCCF, 0x1D5D_D6C9);
    ByteRead(data, 2, 0x1D5D_D6C9, 0xC9B4_C048);
    ByteRead(data, 3, 0xC9B4_C048, 0x6D37_F5CE);
    assert data[..4] == data;
    ChecksumIsBitByBit(data);
  }

  lemma ZeroByteSteps()
    ensures Complement(0xAD82_ACAE) == 0x527D_5351
    ensures ReadByte(0xFFFF_FFFF, 0x00) == 0xAD82_ACAE
  {
  }

  /** The checksum of one zero byte. */
  lemma ZeroByteChecksum()
    ensures Checksum([0x00]) == AllBits(Word(0x527D_5351))
  {
    hide *;
    ZeroByteSteps();
    NothingRead();
    var data: seq<bv8> := [0x00];
    assert data[..0] == [];
    ByteRead(data, 0, 0xFFFF_FFFF, 0xAD82_ACAE);
    assert data[..1] == data;
    ChecksumIsBitByBit(data);
  }
}
