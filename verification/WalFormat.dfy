/**
 Records of the write-ahead log: a length, a checksum, a type byte and a payload. The
 checksum is a parameter; everything here holds whatever it is.
 */
module WalFormat {
  import opened Base
  import opened LittleEndian

  const MAX_RECORD_BYTES: nat := 64 * 1024 * 1024

  type Bytes4 = b: Bytes | |b| == 4 witness [0, 0, 0, 0]

  /** The stored form of a checksum of a record's body. */
  type Crc = Bytes -> Bytes4

  datatype RecordType = EntryType | HardStateType

  datatype DecodeError =
    | TooShort
    | BadLength
    | ChecksumMismatch
    | UnknownRecordType(byte: Byte)
    | UnsupportedRecordType

  // ---- Framing -----------------------------------------------------------------------

  function TypeByte(t: RecordType): Byte {
    match t
    case EntryType => 1
    case HardStateType => 2
  }

  function Body(t: RecordType, payload: Bytes): Bytes {
    [TypeByte(t)] + payload
  }

  function EncodeRecord(crc: Crc, t: RecordType, payload: Bytes): Bytes {
    Framed(crc(Body(t, payload)), Body(t, payload))
  }

  function Framed(sum: Bytes4, body: Bytes): (b: Bytes)
    ensures |b| == 8 + |body|
  {
    PutLe(|body| % 0x1_0000_0000, 4) + sum + body
  }

  function DecodeRecord(crc: Crc, buf: Bytes): Result<(RecordType, Bytes), DecodeError> {
    if |buf| < 8 then Err(TooShort)
    else
      var len := GetLe(buf[..4]);
      if |buf| != 8 + len || len > MAX_RECORD_BYTES then Err(BadLength)
      else if len < 1 then Err(TooShort)
      else if crc(buf[8..]) != buf[4..8] then Err(ChecksumMismatch)
      else
        match buf[8]
        case 1 => Ok((EntryType, buf[9..]))
        case 2 => Ok((HardStateType, buf[9..]))
        case 3 => Err(UnsupportedRecordType)
        case b => Err(UnknownRecordType(b))
  }

  predicate PayloadFits(payload: Bytes) {
    1 + |payload| <= MAX_RECORD_BYTES
  }

  lemma FrameParts(sum: Bytes4, body: Bytes)
    requires |body| <= MAX_RECORD_BYTES
    ensures GetLe(Framed(sum, body)[..4]) == |body|
    ensures Framed(sum, body)[4..8] == sum && Framed(sum, body)[8..] == body
  {
    U32RoundTrip(|body|);
    assert |body| % 0x1_0000_0000 == |body|;
    hide PutLe, GetLe;
    assert Framed(sum, body)[..4] == PutLe(|body|, 4);
  }

  lemma DecodeInvertsEncode(crc: Crc, t: RecordType, payload: Bytes)
    requires PayloadFits(payload)
    ensures DecodeRecord(crc, EncodeRecord(crc, t, payload)) == Ok((t, payload))
  {
    hide PutLe, GetLe;
    var body := Body(t, payload);
    FrameParts(crc(body), body);
    var buf := EncodeRecord(crc, t, payload);
    assert buf[8] == body[0] && buf[9..] == buf[8..][1..];
  }

  /** Only what was encoded is decoded: an accepted buffer is the encoding of its content. */
  lemma EncodeInvertsDecode(crc: Crc, buf: Bytes)
    requires DecodeRecord(crc, buf).Ok?
    ensures var (t, payload) := DecodeRecord(crc, buf).value;
            PayloadFits(payload) && EncodeRecord(crc, t, payload) == buf
  {
    var (t, payload) := DecodeRecord(crc, buf).value;
    PutOfGetLe(buf[..4]);
    hide PutLe, GetLe;
    assert buf[8..] == [buf[8]] + buf[9..];
    assert buf[8..] == Body(t, payload);
    assert buf == buf[..4] + buf[4..8] + buf[8..];
    assert |Body(t, payload)| % 0x1_0000_0000 == |Body(t, payload)|;
  }

  // ---- Typed payloads -------------------------------------------------------------------

  datatype LogRecord =
    | EntryRecord(index: U64, term: U64, kind: Byte, data: Bytes)
    | HardStateRecord(term: U64, vote: Option<U64>, commit: U64)

  function TypeOf(r: LogRecord): RecordType {
    if r.EntryRecord? then EntryType else HardStateType
  }

  function Payload(r: LogRecord): Bytes {
    match r
    case EntryRecord(index, term, kind, data) => PutLe(index, 8) + PutLe(term, 8) + [kind] + data
    case HardStateRecord(term, vote, commit) =>
      match vote {
        case Some(v) => PutLe(term, 8) + [1] + PutLe(v, 8) + PutLe(commit, 8)
        case None => PutLe(term, 8) + [0] + PutLe(0, 8) + PutLe(commit, 8)
      }
  }

  function U64At(b: Bytes, at: nat): U64
    requires at + 8 <= |b|
  {
    WordRanges(b[at..at + 8]);
    GetLe(b[at..at + 8])
  }

  function DecodePayload(t: RecordType, payload: Bytes): Option<LogRecord> {
    match t
    case EntryType =>
      if |payload| < 17 then None
      else Some(EntryRecord(U64At(payload, 0), U64At(payload, 8), payload[16], payload[17..]))
    case HardStateType =>
      if |payload| < 25 then None
      else
        var vote := if payload[8] == 1 then Some(U64At(payload, 9)) else None;
        Some(HardStateRecord(U64At(payload, 0), vote, U64At(payload, 17)))
  }

  lemma PayloadRoundTrip(r: LogRecord)
    ensures DecodePayload(TypeOf(r), Payload(r)) == Some(r)
  {
    hide PutLe, GetLe;
    var p := Payload(r);
    match r {
      case EntryRecord(index, term, kind, data) =>
        U64RoundTrip(index);
        U64RoundTrip(term);
        assert p[0..8] == PutLe(index, 8) && p[8..16] == PutLe(term, 8) && p[17..] == data;
      case HardStateRecord(term, vote, commit) =>
        U64RoundTrip(term);
        U64RoundTrip(commit);
        assert p[0..8] == PutLe(term, 8) && p[17..25] == PutLe(commit, 8);
        if vote.Some? {
          U64RoundTrip(vote.value);
          assert p[9..17] == PutLe(vote.value, 8);
        }
    }
  }

  /** One record in full. */
  function Written(crc: Crc, r: LogRecord): Bytes {
    EncodeRecord(crc, TypeOf(r), Payload(r))
  }

  predicate Fits(r: LogRecord) {
    PayloadFits(Payload(r))
  }

  /** Read one complete record: its frame and its payload. */
  function ReadRecord(crc: Crc, buf: Bytes): Option<LogRecord> {
    match DecodeRecord(crc, buf)
    case Err(_) => None
    case Ok((t, payload)) => DecodePayload(t, payload)
  }

  lemma ReadInvertsWrite(crc: Crc, r: LogRecord)
    requires Fits(r)
    ensures ReadRecord(crc, Written(crc, r)) == Some(r)
    ensures |Written(crc, r)| == 9 + |Payload(r)|
    ensures GetLe(Written(crc, r)[..4]) == 1 + |Payload(r)|
  {
    hide PutLe, GetLe, Payload, DecodePayload;
    DecodeInvertsEncode(crc, TypeOf(r), Payload(r));
    PayloadRoundTrip(r);
    var body := Body(TypeOf(r), Payload(r));
    FrameParts(crc(body), body);
  }
}
