/** Damage to the write-ahead log under the CRC32C it uses. */
module WalDamage {
  import opened Base
  import opened LittleEndian
  import opened WordBits
  import Crc32c
  import Crc32cKnown
  import Crc32cSpan
  import opened WalFormat
  import opened WalRecovery

  // ---- The stored checksum -------------------------------------------------------------

  /** The octet with value `n`. */
  function Octet(n: nat): bv8
    requires n < 256
  {
    if n == 0 then 0 else Octet(n - 1) + 1
  }

  function Octets(data: Bytes): (octets: seq<bv8>)
    ensures |octets| == |data|
  {
    seq(|data|, i requires 0 <= i < |data| => Octet(data[i]))
  }

  lemma NextOctet(v: bv8)
    requires v as int < 255
    ensures (v + 1) as int == v as int + 1
  {
    assert v != 255;
  }

  lemma {:induction false} OctetValue(n: nat)
    requires n < 256
    ensures Octet(n) as int == n
  {
    if n > 0 {
      OctetValue(n - 1);
      NextOctet(Octet(n - 1));
    }
  }

  lemma {:induction false} OctetIsInjective(a: Byte, b: Byte)
    requires Octet(a) == Octet(b)
    ensures a == b
  {
    OctetValue(a);
    OctetValue(b);
  }

  /** The number with the given bits, lowest first. */
  ghost function BitsValue(bits: Bits): nat {
    if bits == [] then 0 else (if bits[0] then 1 else 0) + 2 * BitsValue(bits[1..])
  }

  lemma {:induction false} BitsValueIsInjective(a: Bits, b: Bits)
    requires |a| == |b| && BitsValue(a) == BitsValue(b)
    ensures a == b
  {
    if a != [] {
      BitsValueIsInjective(a[1..], b[1..]);
      assert a == [a[0]] + a[1..] && b == [b[0]] + b[1..];
    }
  }

  ghost function Values(n: nat): nat {
    if n == 0 then 1 else 2 * Values(n - 1)
  }

  lemma {:induction false} BitsValueBound(bits: Bits)
    ensures BitsValue(bits) < Values(|bits|)
  {
    if bits != [] {
      BitsValueBound(bits[1..]);
    }
  }

  lemma {:induction false} ByteValue(bits: Bits)
    requires |bits| == 8
    ensures BitsValue(bits) < 256
  {
    BitsValueBound(bits);
    assert Values(2) == 4 && Values(4) == 16 && Values(6) == 64 && Values(8) == 256;
  }

  /** The four little-endian bytes of the checksum of a body. */
  ghost function StoredCrc(body: Bytes): Bytes4 {
    var sum := Crc32c.Checksum(Octets(body));
    ByteValue(sum[0..8]);
    ByteValue(sum[8..16]);
    ByteValue(sum[16..24]);
    ByteValue(sum[24..32]);
    [BitsValue(sum[0..8]), BitsValue(sum[8..16]), BitsValue(sum[16..24]), BitsValue(sum[24..32])]
  }

  /** The bits of the check value of "123456789", four at a time. */
  lemma CheckValueLow()
    ensures LowBits(Word(0xE306_9283), 32) ==
            [true, true, false, false] + ([false, false, false, true] +
            ([false, true, false, false] + ([true, false, false, true] + LowBits(Word(0xE306), 16))))
  {
    hide *;
    Crc32c.NibbleBits(0xE306_9283, 0xE30_6928, true, true, false, false, 28);
    Crc32c.NibbleBits(0xE30_6928, 0xE3_0692, false, false, false, true, 24);
    Crc32c.NibbleBits(0xE3_0692, 0xE_3069, false, true, false, false, 20);
    Crc32c.NibbleBits(0xE_3069, 0xE306, true, false, false, true, 16);
  }

  lemma CheckValueHigh()
    ensures LowBits(Word(0xE306), 16) ==
            [false, true, true, false] + ([false, false, false, false] +
            ([true, true, false, false] + [false, true, true, true]))
  {
    Crc32c.NoBits(Word(0));
    hide *;
    Crc32c.NibbleBits(0xE306, 0xE30, false, true, true, false, 12);
    Crc32c.NibbleBits(0xE30, 0xE3, false, false, false, false, 8);
    Crc32c.NibbleBits(0xE3, 0xE, true, true, false, false, 4);
    Crc32c.NibbleBits(0xE, 0, false, true, true, true, 0);
    assert [false, true, true, true] + [] == [false, true, true, true];
  }

  lemma {:induction false} BitsValueStep(bit: bool, rest: Bits)
    ensures BitsValue([bit] + rest) == (if bit then 1 else 0) + 2 * BitsValue(rest)
  {
    assert ([bit] + rest)[1..] == rest;
  }

  lemma {:induction false} FourBits(a: bool, b: bool, c: bool, d: bool, rest: Bits)
    ensures BitsValue([a, b, c, d] + rest) ==
            (if a then 1 else 0) + (if b then 2 else 0) + (if c then 4 else 0) + (if d then 8 else 0)
            + 16 * BitsValue(rest)
  {
    hide BitsValue;
    assert [a, b, c, d] + rest == [a] + ([b] + ([c] + ([d] + rest)));
    BitsValueStep(d, rest);
    BitsValueStep(c, [d] + rest);
    BitsValueStep(b, [c] + ([d] + rest));
    BitsValueStep(a, [b] + ([c] + ([d] + rest)));
  }

  lemma {:induction false} NoBitsValue()
    ensures BitsValue([]) == 0
  {
  }

  lemma DigitOctets()
    ensures Octets([49, 50, 51, 52, 53, 54, 55, 56, 57]) ==
            [0x31, 0x32, 0x33, 0x34, 0x35, 0x36, 0x37, 0x38, 0x39]
  {
    hide Octet;
    OctetIs(49, 0x31);
    OctetIs(50, 0x32);
    OctetIs(51, 0x33);
    OctetIs(52, 0x34);
    OctetIs(53, 0x35);
    OctetIs(54, 0x36);
    OctetIs(55, 0x37);
    OctetIs(56, 0x38);
    OctetIs(57, 0x39);
  }

  /** The stored checksum of "123456789": its check value 0xE3069283, lowest byte first. */
  lemma StoredCheckValue()
    ensures StoredCrc([49, 50, 51, 52, 53, 54, 55, 56, 57]) == [0x83, 0x92, 0x06, 0xE3]
  {
    hide BitsValue, Octets, Crc32c.Checksum, LowBits;
    DigitOctets();
    Crc32cKnown.DigitsChecksum();
    CheckValueLow();
    CheckValueHigh();
    var sum := AllBits(Word(0xE306_9283));
    NoBitsValue();
    FourBits(true, true, false, false, [false, false, false, true] + []);
    FourBits(false, false, false, true, []);
    FourBits(false, true, false, false, [true, false, false, true] + []);
    FourBits(true, false, false, true, []);
    FourBits(false, true, true, false, [false, false, false, false] + []);
    FourBits(false, false, false, false, []);
    FourBits(true, true, false, false, [false, true, true, true] + []);
    FourBits(false, true, true, true, []);
    assert sum[0..8] == [true, true, false, false] + ([false, false, false, true] + []);
    assert sum[8..16] == [false, true, false, false] + ([true, false, false, true] + []);
    assert sum[16..24] == [false, true, true, false] + ([false, false, false, false] + []);
    assert sum[24..32] == [true, true, false, false] + ([false, true, true, true] + []);
  }

  lemma StoredCrcTellsApart(x: Bytes, y: Bytes)
    requires Crc32c.Checksum(Octets(x)) != Crc32c.Checksum(Octets(y))
    ensures StoredCrc(x) != StoredCrc(y)
  {
    hide BitsValue, Crc32c.Checksum;
    var a, b := Crc32c.Checksum(Octets(x)), Crc32c.Checksum(Octets(y));
    if StoredCrc(x) == StoredCrc(y) {
      assert a == a[0..8] + a[8..16] + a[16..24] + a[24..32];
      assert b == b[0..8] + b[8..16] + b[16..24] + b[24..32];
      BitsValueIsInjective(a[0..8], b[0..8]);
      BitsValueIsInjective(a[8..16], b[8..16]);
      BitsValueIsInjective(a[16..24], b[16..24]);
      BitsValueIsInjective(a[24..32], b[24..32]);
    }
  }

  /** Any change of up to four consecutive bytes changes the stored checksum. */
  lemma StoredCrcDetects(x: Bytes, y: Bytes, at: nat)
    requires |x| == |y| && x != y
    requires forall k :: 0 <= k < |x| && !(at <= k < at + 4) ==> x[k] == y[k]
    ensures StoredCrc(x) != StoredCrc(y)
  {
    hide Crc32c.Checksum;
    var a, b := Octets(x), Octets(y);
    var k :| 0 <= k < |x| && x[k] != y[k];
    if a[k] == b[k] {
      OctetIsInjective(x[k], y[k]);
    }
    Crc32c.FourByteBurstDetected(a, b, at);
    StoredCrcTellsApart(x, y);
  }

  // ---- Damage that is refused -------------------------------------------------------------

  /** Wherever it is and whatever comes after it, a frame whose checksum is not that of its body is refused. */
  lemma {:induction false} MismatchedFrameIsRefused(
    before: seq<Bytes>, good: seq<LogRecord>, sum: Bytes4, body: Bytes, rest: Bytes, after: seq<Bytes>, compacted: nat)
    requires AllFit(good) && 1 <= |body| <= MAX_RECORD_BYTES && StoredCrc(body) != sum
    ensures var segment := WrittenAll(StoredCrc, good) + (Framed(sum, body) + rest);
            Recovered(StoredCrc, before + [segment] + after, compacted) == None
  {
    hide StoredCrc, Framed, WrittenAll, Scan, Recovered;
    DamageStopsScan(StoredCrc, good, sum, body, rest);
    var segment := WrittenAll(StoredCrc, good) + (Framed(sum, body) + rest);
    var segments := before + [segment] + after;
    assert segments[|before|] == segment;
    CorruptSegmentIsRefused(StoredCrc, segments, |before|, compacted);
  }

  /** A record damaged in up to four consecutive bytes of its body is never replayed. */
  lemma {:induction false} DamagedRecordIsRefused(
    before: seq<Bytes>, good: seq<LogRecord>, r: LogRecord, damaged: Bytes, at: nat, rest: Bytes,
    after: seq<Bytes>, compacted: nat)
    requires AllFit(good) && Fits(r)
    requires var body := Body(TypeOf(r), Payload(r));
             && |damaged| == |body| && damaged != body
             && forall k :: 0 <= k < |body| && !(at <= k < at + 4) ==> damaged[k] == body[k]
    ensures var frame := Framed(StoredCrc(Body(TypeOf(r), Payload(r))), damaged);
            var segment := WrittenAll(StoredCrc, good) + (frame + rest);
            Recovered(StoredCrc, before + [segment] + after, compacted) == None
  {
    hide StoredCrc, Payload, Framed, WrittenAll, Recovered;
    var body := Body(TypeOf(r), Payload(r));
    StoredCrcDetects(damaged, body, at);
    MismatchedFrameIsRefused(before, good, StoredCrc(body), damaged, rest, after, compacted);
  }

  /** Neither is a record whose stored checksum is damaged in any way. */
  lemma {:induction false} DamagedChecksumIsRefused(
    before: seq<Bytes>, good: seq<LogRecord>, r: LogRecord, sum: Bytes4, rest: Bytes, after: seq<Bytes>, compacted: nat)
    requires AllFit(good) && Fits(r) && sum != StoredCrc(Body(TypeOf(r), Payload(r)))
    ensures var segment := WrittenAll(StoredCrc, good) + (Framed(sum, Body(TypeOf(r), Payload(r))) + rest);
            Recovered(StoredCrc, before + [segment] + after, compacted) == None
  {
    hide StoredCrc, Payload, Framed, WrittenAll, Recovered;
    MismatchedFrameIsRefused(before, good, sum, Body(TypeOf(r), Payload(r)), rest, after, compacted);
  }

  // ---- Damage that is not ------------------------------------------------------------------

  lemma {:induction false} OctetIs(n: nat, v: bv8)
    requires n < 256 && v as int == n
    ensures Octet(n) == v
  {
    OctetValue(n);
    assert ((Octet(n) as int) as bv8) == Octet(n) && ((v as int) as bv8) == v;
  }

  /** Equal halves of a checksum are equal stored bytes. */
  lemma HalfOfStoredCrcAgrees(tail: Bytes)
    requires |tail| == 121
    ensures StoredCrc([1, 1] + tail)[..2] == StoredCrc([2, 69] + tail)[..2]
  {
    hide Octet, Crc32c.Checksum, BitsValue;
    OctetIs(1, 1);
    OctetIs(2, 2);
    OctetIs(69, 69);
    assert Octets([1, 1] + tail) == [1, 1] + Octets(tail);
    assert Octets([2, 69] + tail) == [2, 69] + Octets(tail);
    Crc32cSpan.HalfOfTheChecksumAgrees(Octets(tail));
    var a, b := Crc32c.Checksum(Octets([1, 1] + tail)), Crc32c.Checksum(Octets([2, 69] + tail));
    assert a[0..8] == b[0..8] && a[8..16] == b[8..16];
  }

  lemma EntryStartsWith(e: LogRecord)
    requires e.EntryRecord? && e.index % 256 == 1
    ensures Payload(e)[0] == 1 && |Payload(e)| == 17 + |e.data|
  {
    hide GetLe;
    assert PutLe(e.index, 8)[0] == e.index % 256;
  }

  /** The body of `e` with its first two bytes, the type and the low byte of the index, damaged. */
  function Disguised(e: LogRecord): (b: Bytes)
    requires e.EntryRecord?
    ensures |b| == 1 + |Payload(e)|
  {
    [2, 69] + Payload(e)[1..]
  }

  /**
   The checksum stands in front of the body, so a burst that spans both can go unseen. An
   entry of 105 bytes whose index is 1 modulo 256, damaged within four consecutive bytes,
   the last two of its checksum and the first two of its body, is a valid record again:
   it is replayed as a hard state.
   */
  lemma EntryReadAsHardState(e: LogRecord)
    requires e.EntryRecord? && e.index % 256 == 1 && |e.data| == 105
    ensures var before, after := Written(StoredCrc, e), Framed(StoredCrc(Disguised(e)), Disguised(e));
            && |before| == |after|
            && (forall k :: 0 <= k < |before| && !(6 <= k < 10) ==> before[k] == after[k])
            && ReadRecord(StoredCrc, after).Some? && ReadRecord(StoredCrc, after).value.HardStateRecord?
            && Recovered(StoredCrc, [after], 0) == Some(Recovery([ReadRecord(StoredCrc, after).value], [after], false))
  {
    hide StoredCrc, Framed, Written, ReadRecord, Disguised, Recovered;
    DisguiseIsClose(e);
    DisguiseIsRead(e);
    FrameRecovers(StoredCrc, StoredCrc(Disguised(e)), Disguised(e));
  }

  lemma DisguiseIsClose(e: LogRecord)
    requires e.EntryRecord? && e.index % 256 == 1 && |e.data| == 105
    ensures var before, after := Written(StoredCrc, e), Framed(StoredCrc(Disguised(e)), Disguised(e));
            && |Disguised(e)| == 123 && |before| == |after|
            && forall k :: 0 <= k < |before| && !(6 <= k < 10) ==> before[k] == after[k]
  {
    var p := Payload(e);
    EntryStartsWith(e);
    hide Payload, StoredCrc, Framed;
    var tail := p[1..];
    assert Body(EntryType, p) == [1, 1] + tail && Disguised(e) == [2, 69] + tail;
    HalfOfStoredCrcAgrees(tail);
    SameFrameOutside(StoredCrc([1, 1] + tail), StoredCrc([2, 69] + tail), tail);
  }

  lemma DisguiseIsRead(e: LogRecord)
    requires e.EntryRecord? && e.index % 256 == 1 && |e.data| == 105
    ensures var r := ReadRecord(StoredCrc, Framed(StoredCrc(Disguised(e)), Disguised(e)));
            r.Some? && r.value.HardStateRecord?
  {
    EntryStartsWith(e);
    var damaged := Disguised(e);
    assert damaged == Body(HardStateType, damaged[1..]);
    hide Payload, StoredCrc, Framed, DecodePayload, DecodeRecord, Disguised;
    DecodeInvertsEncode(StoredCrc, HardStateType, damaged[1..]);
    LongPayloadReads(damaged[1..]);
  }

  lemma SameFrameOutside(a: Bytes4, b: Bytes4, tail: Bytes)
    requires a[..2] == b[..2]
    ensures var x, y := Framed(a, [1, 1] + tail), Framed(b, [2, 69] + tail);
            |x| == |y| && forall k :: 0 <= k < |x| && !(6 <= k < 10) ==> x[k] == y[k]
  {
    hide PutLe;
    assert a[0] == a[..2][0] && a[1] == a[..2][1] && b[0] == b[..2][0] && b[1] == b[..2][1];
  }

  lemma LongPayloadReads(payload: Bytes)
    requires |payload| >= 25
    ensures DecodePayload(HardStateType, payload).Some? && DecodePayload(HardStateType, payload).value.HardStateRecord?
  {
  }

  /** A frame that reads back is a segment of one record. */
  lemma FrameRecovers(crc: Crc, sum: Bytes4, body: Bytes)
    requires |body| <= MAX_RECORD_BYTES && ReadRecord(crc, Framed(sum, body)).Some?
    ensures var frame := Framed(sum, body);
            Recovered(crc, [frame], 0) == Some(Recovery([ReadRecord(crc, frame).value], [frame], false))
  {
    hide ReadRecord, Framed, Scan, InCommitWindow;
    var frame := Framed(sum, body);
    ScanOfFrame(crc, [], sum, body, []);
    EmptyScan(crc, []);
    assert WrittenAll(crc, []) + (frame + []) == frame;
    var r := ReadRecord(crc, frame).value;
    assert [] + ([] + ([r] + [])) == [r];
    LastSegmentDecides(crc, [], frame, [], 0);
    assert [] + [frame] == [frame];
  }
}
