/**
 The bytes and numbers that go to disk and over the wire, written out: the formats other
 modules prove round trips for are these and no others.
 */
module WireLayouts {
  import opened Base
  import opened BigEndian
  import opened LittleEndian
  import opened StateMachineCodec
  import opened StateMachineSnapshot
  import Wal = WalFormat
  import WalLog
  import Forward = ForwardWire

  // ---- Integers ---------------------------------------------------------------------------

  function ByteAt(n: nat, unit: nat): Byte
    requires unit > 0
  {
    n / unit % 256
  }

  /** The four low bytes of `n`, lowest first. */
  function Little4(n: nat): Bytes {
    [ByteAt(n, 1), ByteAt(n, 0x100), ByteAt(n, 0x1_0000), ByteAt(n, 0x100_0000)]
  }

  function Little8(n: nat): Bytes {
    Little4(n) + Little4(n / 0x1_0000_0000)
  }

  /** The four low bytes of `n`, highest first. */
  function Big4(n: nat): Bytes {
    [ByteAt(n, 0x100_0000), ByteAt(n, 0x1_0000), ByteAt(n, 0x100), ByteAt(n, 1)]
  }

  function Big8(n: nat): Bytes {
    Big4(n / 0x1_0000_0000) + Big4(n)
  }

  lemma DivideTwice(n: nat)
    ensures n / 256 / 256 == n / 0x1_0000
    ensures n / 256 / 256 / 256 == n / 0x100_0000
    ensures n / 256 / 256 / 256 / 256 == n / 0x1_0000_0000
  {
  }

  lemma {:induction false} PutLeStep(n: nat, width: nat)
    requires width > 0
    ensures PutLe(n, width) == [n % 256] + PutLe(n / 256, width - 1)
  {
  }

  lemma {:induction false} PutLeFour(n: nat, more: nat)
    ensures PutLe(n, more + 4) == Little4(n) + PutLe(n / 0x1_0000_0000, more)
  {
    PutLeStep(n, more + 4);
    PutLeStep(n / 256, more + 3);
    PutLeStep(n / 256 / 256, more + 2);
    PutLeStep(n / 256 / 256 / 256, more + 1);
    DivideTwice(n);
    hide PutLe;
    var rest := PutLe(n / 0x1_0000_0000, more);
    assert n / 1 == n;
    assert Little4(n) + rest ==
           [n % 256] + ([n / 256 % 256] + ([n / 0x1_0000 % 256] + ([n / 0x100_0000 % 256] + rest)));
  }

  lemma {:induction false} LittleEndianBytes(n: nat)
    ensures PutLe(n, 4) == Little4(n) && PutLe(n, 8) == Little8(n)
  {
    PutLeFour(n, 0);
    PutLeFour(n, 4);
    PutLeFour(n / 0x1_0000_0000, 0);
    assert PutLe(n / 0x1_0000_0000, 0) == [] && PutLe(n / 0x1_0000_0000 / 0x1_0000_0000, 0) == [];
  }

  lemma {:induction false} PutStep(n: nat, width: nat)
    requires width > 0
    ensures Put(n, width) == Put(n / 256, width - 1) + [n % 256]
  {
  }

  lemma {:induction false} PutFour(n: nat, more: nat)
    ensures Put(n, more + 4) == Put(n / 0x1_0000_0000, more) + Big4(n)
  {
    PutStep(n, more + 4);
    PutStep(n / 256, more + 3);
    PutStep(n / 256 / 256, more + 2);
    PutStep(n / 256 / 256 / 256, more + 1);
    DivideTwice(n);
    hide Put;
    var rest := Put(n / 0x1_0000_0000, more);
    assert n / 1 == n;
    assert rest + Big4(n) ==
           rest + [n / 0x100_0000 % 256] + [n / 0x1_0000 % 256] + [n / 256 % 256] + [n % 256];
  }

  lemma {:induction false} BigEndianBytes(n: nat)
    ensures Put(n, 4) == Big4(n) && Put(n, 8) == Big8(n)
  {
    PutFour(n, 0);
    PutFour(n, 4);
    PutFour(n / 0x1_0000_0000, 0);
    assert Put(n / 0x1_0000_0000, 0) == [] && Put(n / 0x1_0000_0000 / 0x1_0000_0000, 0) == [];
  }

  // ---- Records of the write-ahead log --------------------------------------------------------

  /** The body of a record: its type, and its fields at fixed widths. */
  function LaidOut(r: Wal.LogRecord): Bytes {
    match r
    case EntryRecord(index, term, kind, data) => [1] + Little8(index) + Little8(term) + [kind] + data
    case HardStateRecord(term, Some(vote), commit) => [2] + Little8(term) + [1] + Little8(vote) + Little8(commit)
    case HardStateRecord(term, None, commit) =>
      [2] + Little8(term) + [0] + [0, 0, 0, 0, 0, 0, 0, 0] + Little8(commit)
  }

  lemma EntryLayout(r: Wal.LogRecord)
    requires r.EntryRecord?
    ensures Wal.Body(Wal.TypeOf(r), Wal.Payload(r)) == LaidOut(r)
  {
    LittleEndianBytes(r.index);
    LittleEndianBytes(r.term);
    hide PutLe, Little8;
  }

  lemma ZeroBytes()
    ensures Little8(0) == [0, 0, 0, 0, 0, 0, 0, 0]
  {
  }

  lemma HardStateLayout(r: Wal.LogRecord)
    requires r.HardStateRecord?
    ensures Wal.Body(Wal.TypeOf(r), Wal.Payload(r)) == LaidOut(r)
  {
    var v := if r.vote.Some? then r.vote.value else 0;
    LittleEndianBytes(r.term);
    LittleEndianBytes(v);
    LittleEndianBytes(r.commit);
    ZeroBytes();
    hide PutLe, Little8;
    assert LaidOut(r) == [2] + Little8(r.term) + [if r.vote.Some? then 1 else 0] + Little8(v) + Little8(r.commit);
  }

  /** A record: length of the body, checksum of the body, and the body. */
  lemma RecordLayout(crc: Wal.Crc, r: Wal.LogRecord)
    ensures Wal.Written(crc, r) == Little4(|LaidOut(r)| % 0x1_0000_0000) + crc(LaidOut(r)) + LaidOut(r)
  {
    if r.EntryRecord? {
      EntryLayout(r);
    } else {
      HardStateLayout(r);
    }
    hide PutLe, Little4, LaidOut, Wal.Body, Wal.Payload;
    LittleEndianBytes(|LaidOut(r)| % 0x1_0000_0000);
  }

  /** An entry may take 64 MiB with its length and checksum, which leaves this much for its data. */
  lemma SizeLimit(crc: Wal.Crc, r: Wal.LogRecord)
    requires r.EntryRecord?
    ensures WalLog.SmallEnough(r) <==> |Wal.Written(crc, r)| <= 67108864
    ensures WalLog.SmallEnough(r) <==> |r.data| <= 67108838
  {
  }

  /** Exactly why a record is refused. */
  lemma RecordRefusedIff(crc: Wal.Crc, buf: Bytes)
    ensures var r := Wal.DecodeRecord(crc, buf);
            var long := |buf| >= 8 && GetLe(buf[..4]) == |buf| - 8;
            && (r == Err(Wal.TooShort) <==> |buf| < 8 || (long && |buf| == 8))
            && (r == Err(Wal.BadLength) <==> |buf| >= 8 && (!long || |buf| - 8 > 64 * 1024 * 1024))
            && (r == Err(Wal.ChecksumMismatch) <==>
                  long && 1 <= |buf| - 8 <= 64 * 1024 * 1024 && crc(buf[8..]) != buf[4..8])
            && (r.Ok? ==> buf[8] == (if r.value.0.EntryType? then 1 else 2))
            && (r == Err(Wal.UnsupportedRecordType) ==> buf[8] == 3)
            && (r.Err? && r.error.UnknownRecordType? ==> r.error.byte == buf[8] && buf[8] !in {1, 2, 3})
  {
    hide GetLe;
  }

  // ---- The reference state machine --------------------------------------------------------------

  /** A command: for each pair the length of its key, its key, the length of its value, its value. */
  lemma {:induction false} CommandLayout(p: Pair, rest: seq<Pair>)
    requires PairFits(p)
    ensures Printed([]) == []
    ensures Printed([p] + rest) == Big4(|p.key|) + p.key + Big4(|p.value|) + p.value + Printed(rest)
  {
    BigEndianBytes(|p.key|);
    BigEndianBytes(|p.value|);
    hide Put, Big4;
    assert ([p] + rest)[1..] == rest;
    FieldOf(p.key);
    FieldOf(p.value);
    assert PairBytes(p) == Big4(|p.key|) + p.key + (Big4(|p.value|) + p.value);
  }

  /** A snapshot: the applied index, the number of keys, and the pairs in key order. */
  lemma SnapshotLayout(s: Store)
    requires |s.data| <= U32_MAX
    ensures Encoded(s) == Big8(s.applied) + Big4(|s.data|) + Printed(Listing(s.data))
  {
    BigEndianBytes(s.applied);
    BigEndianBytes(|s.data|);
    hide Put, Big8, Big4, Printed, Listing;
  }

  // ---- Forwarded commands -------------------------------------------------------------------------

  /** The request of each command: its kind, its own fields, and nothing in the others. */
  lemma RequestLayout(c: Forward.Command)
    ensures Forward.BuildRequest(c) ==
            match c
            case Propose(cmd, id, n) => Forward.Request(0, cmd, [], id, n, [], false)
            case Read(key) => Forward.Request(1, [], key, 0, 0, [], false)
            case GetStale(key) => Forward.Request(2, [], key, 0, 0, [], false)
            case MultiGet(keys, linearizable) => Forward.Request(3, [], [], 0, 0, keys, linearizable)
            case ProposeWithIndex(cmd, id, n) => Forward.Request(4, cmd, [], id, n, [], false)
  {
  }
}
