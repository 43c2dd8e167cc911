/**
 Recovery of the write-ahead log: segments are replayed record by record; a torn tail of
 the last segment is cut off unless committed data could be in it, and anything else
 that does not read back is refused.
 */
module WalRecovery {
  import opened Base
  import opened LittleEndian
  import opened WalFormat

  // ---- Reading one segment ----------------------------------------------------------

  datatype Tail = Clean | Torn | Corrupt

  /** The records of a segment up to where reading stops, and why it stops there. */
  datatype Scanned = Scanned(records: seq<LogRecord>, length: nat, tail: Tail)

  /** Too few bytes for a header, or for the length it declares. */
  predicate IsTorn(raw: Bytes) {
    |raw| < 8 || 8 + GetLe(raw[..4]) > |raw|
  }

  function Scan(crc: Crc, raw: Bytes): (s: Scanned)
    ensures s.length <= |raw|
    decreases |raw|
  {
    if raw == [] then Scanned([], 0, Clean)
    else if IsTorn(raw) then Scanned([], 0, Torn)
    else
      var end := 8 + GetLe(raw[..4]);
      match ReadRecord(crc, raw[..end])
      case None => Scanned([], 0, Corrupt)
      case Some(r) => After(r, end, Scan(crc, raw[end..]))
  }

  /** A scan that starts with record `r` of `length` bytes. */
  function After(r: LogRecord, length: nat, rest: Scanned): Scanned {
    Scanned([r] + rest.records, length + rest.length, rest.tail)
  }

  function WrittenAll(crc: Crc, records: seq<LogRecord>): Bytes {
    if records == [] then [] else Written(crc, records[0]) + WrittenAll(crc, records[1..])
  }

  predicate AllFit(records: seq<LogRecord>) {
    forall i :: 0 <= i < |records| ==> Fits(records[i])
  }

  lemma {:induction false} ScanOfRecord(crc: Crc, r: LogRecord, rest: Bytes)
    requires Fits(r)
    ensures Scan(crc, Written(crc, r) + rest) == After(r, |Written(crc, r)|, Scan(crc, rest))
  {
    ReadInvertsWrite(crc, r);
    hide Written, Payload, ReadRecord, GetLe, Fits;
    var raw, n := Written(crc, r) + rest, |Written(crc, r)|;
    assert raw[..4] == Written(crc, r)[..4];
    assert raw[..n] == Written(crc, r) && raw[n..] == rest;
  }

  lemma {:induction false} ScanOfAll(crc: Crc, records: seq<LogRecord>, rest: Bytes)
    requires AllFit(records)
    ensures var s := Scan(crc, rest);
            Scan(crc, WrittenAll(crc, records) + rest)
            == Scanned(records + s.records, |WrittenAll(crc, records)| + s.length, s.tail)
  {
    hide Written, Fits, Scan;
    if records == [] {
      assert WrittenAll(crc, records) + rest == rest;
    } else {
      ScanOfAll(crc, records[1..], rest);
      var tail := WrittenAll(crc, records[1..]) + rest;
      assert WrittenAll(crc, records) + rest == Written(crc, records[0]) + tail;
      ScanOfRecord(crc, records[0], tail);
      assert records == [records[0]] + records[1..];
    }
  }

  /** A record cut short anywhere is torn. */
  lemma CutRecordIsTorn(crc: Crc, r: LogRecord, p: nat)
    requires Fits(r) && 0 < p < |Written(crc, r)|
    ensures Scan(crc, Written(crc, r)[..p]) == Scanned([], 0, Torn)
  {
    ReadInvertsWrite(crc, r);
    hide Written, Payload, ReadRecord, GetLe, Fits;
    var raw := Written(crc, r)[..p];
    if |raw| >= 8 {
      assert raw[..4] == Written(crc, r)[..4];
    }
    assert IsTorn(raw);
  }

  /** How many of the records lie completely within the first `p` bytes. */
  function Complete(crc: Crc, records: seq<LogRecord>, p: nat): (k: nat)
    ensures k <= |records|
  {
    if records == [] || p < |Written(crc, records[0])| then 0
    else 1 + Complete(crc, records[1..], p - |Written(crc, records[0])|)
  }

  /** Wherever a segment is cut, exactly the complete records are read, and the rest is a tear. */
  lemma {:induction false} ScanOfCut(crc: Crc, records: seq<LogRecord>, p: nat)
    requires AllFit(records) && p <= |WrittenAll(crc, records)|
    ensures var k := Complete(crc, records, p);
            var kept := |WrittenAll(crc, records[..k])|;
            Scan(crc, WrittenAll(crc, records)[..p])
            == Scanned(records[..k], kept, if p == kept then Clean else Torn)
  {
    hide Written, Fits, Scan;
    if p == 0 {
      EmptyScan(crc, records);
    } else {
      var r, rest := records[0], records[1..];
      var n := |Written(crc, r)|;
      if p < n {
        CutRecordIsTorn(crc, r, p);
        assert WrittenAll(crc, records)[..p] == Written(crc, r)[..p];
      } else {
        ScanOfCut(crc, rest, p - n);
        var k := Complete(crc, rest, p - n);
        var cut := WrittenAll(crc, rest)[..p - n];
        assert WrittenAll(crc, records)[..p] == Written(crc, r) + cut;
        ScanOfRecord(crc, r, cut);
        assert records[..k + 1] == [r] + rest[..k];
        assert records[..k + 1][1..] == rest[..k];
      }
    }
  }

  lemma {:induction false} EmptyScan(crc: Crc, records: seq<LogRecord>)
    ensures Scan(crc, []) == Scanned([], 0, Clean)
    ensures WrittenAll(crc, []) == [] && Complete(crc, records, 0) == 0
  {
  }

  // ---- What the records mean -----------------------------------------------------------

  function Entries(records: seq<LogRecord>): (entries: seq<LogRecord>)
    ensures forall i :: 0 <= i < |entries| ==> entries[i].EntryRecord?
  {
    if records == [] then []
    else
      var n := |records| - 1;
      Entries(records[..n]) + if records[n].EntryRecord? then [records[n]] else []
  }

  /** The last hard state written, or the initial one. */
  function HardState(records: seq<LogRecord>): (hs: LogRecord)
    ensures hs.HardStateRecord?
  {
    if records == [] then HardStateRecord(0, None, 0)
    else
      var n := |records| - 1;
      if records[n].HardStateRecord? then records[n] else HardState(records[..n])
  }

  /** The index a torn record would have: one past the last entry, or past what was compacted. */
  function NextIndex(entries: seq<LogRecord>, compacted: nat): nat
    requires forall i :: 0 <= i < |entries| ==> entries[i].EntryRecord?
  {
    if entries == [] then compacted + 1 else entries[|entries| - 1].index + 1
  }

  lemma {:induction false} OneRecordMore(records: seq<LogRecord>, r: LogRecord)
    ensures Entries(records + [r]) == Entries(records) + if r.EntryRecord? then [r] else []
    ensures HardState(records + [r]) == if r.HardStateRecord? then r else HardState(records)
  {
    assert (records + [r])[..|records|] == records;
  }

  /** Entries keep their log order. */
  lemma {:induction false} EntriesInOrder(a: seq<LogRecord>, b: seq<LogRecord>)
    ensures Entries(a + b) == Entries(a) + Entries(b)
  {
    if b == [] {
      assert a + b == a;
    } else {
      var n := |b| - 1;
      EntriesInOrder(a, b[..n]);
      assert (a + b)[..|a| + n] == a + b[..n];
    }
  }

  /** The hard state is the last one written. */
  lemma {:induction false} HardStateIsLast(records: seq<LogRecord>, i: nat)
    requires i < |records| && records[i].HardStateRecord?
    requires forall j :: i < j < |records| ==> records[j].EntryRecord?
    ensures HardState(records) == records[i]
  {
    if i < |records| - 1 {
      HardStateIsLast(records[..|records| - 1], i);
    }
  }

  /** Committed data could be in the tear: it starts at or before the entry after the commit index. */
  predicate InCommitWindow(records: seq<LogRecord>, compacted: nat) {
    NextIndex(Entries(records), compacted) <= HardState(records).commit + 1
  }

  // ---- Recovering a directory ----------------------------------------------------------

  /** All records of segments that must read back completely. */
  function WholeRecords(crc: Crc, segments: seq<Bytes>): Option<seq<LogRecord>> {
    if segments == [] then Some([])
    else
      var n := |segments| - 1;
      var scan := Scan(crc, segments[n]);
      match WholeRecords(crc, segments[..n])
      case None => None
      case Some(records) => if scan.tail == Clean then Some(records + scan.records) else None
  }

  /** The records that survive, and the segments as recovery leaves them. */
  datatype Recovery = Recovery(records: seq<LogRecord>, segments: seq<Bytes>, truncated: bool)

  function Recovered(crc: Crc, segments: seq<Bytes>, compacted: nat): Option<Recovery> {
    if segments == [] then Some(Recovery([], [], false))
    else
      var n := |segments| - 1;
      match WholeRecords(crc, segments[..n])
      case None => None
      case Some(before) =>
        var scan := Scan(crc, segments[n]);
        var records := before + scan.records;
        match scan.tail
        case Clean => Some(Recovery(records, segments, false))
        case Corrupt => None
        case Torn =>
          if InCommitWindow(records, compacted) then None
          else Some(Recovery(records, segments[n := segments[n][..scan.length]], true))
  }

  datatype Replayed = Replayed(entries: seq<LogRecord>, hardState: LogRecord)

  function Meaning(records: seq<LogRecord>): Replayed {
    Replayed(Entries(records), HardState(records))
  }

  class Directory {
    var segments: seq<Bytes>

    constructor (segments: seq<Bytes>)
      ensures this.segments == segments
    {
      this.segments := segments;
    }

    /** Replay all segments; the only change is cutting a tear off the last one. */
    method RecoverWal(crc: Crc, compacted: nat) returns (r: Option<(Replayed, bool)>)
      modifies this
      ensures var recovered := Recovered(crc, old(segments), compacted);
              if recovered.Some?
              then r == Some((Meaning(recovered.value.records), recovered.value.truncated))
                   && segments == recovered.value.segments
              else r == None && segments == old(segments)
    {
      hide Scan, Entries, HardState, WholeRecords, InCommitWindow;
      var state := Replayed([], HardStateRecord(0, None, 0));
      ghost var records: seq<LogRecord> := [];
      NothingReplayed(crc);
      for i := 0 to |segments|
        invariant segments == old(segments)
        invariant WholeRecords(crc, segments[..i]) == Some(records) && state == Meaning(records)
        invariant i == |segments| ==> Recovered(crc, segments, compacted) == Some(Recovery(records, segments, false))
      {
        var raw := segments[i];
        var tail, length;
        ghost var scan := Scan(crc, raw);
        state, tail, length := ReplaySegment(crc, raw, state, records);
        OneSegmentMore(crc, segments, i, records, compacted);
        if tail == Corrupt || (tail == Torn && i + 1 < |segments|) {
          return None;
        }
        records := records + scan.records;
        if tail == Torn {
          var estimated := NextIndex(state.entries, compacted);
          WindowOf(records, compacted);
          if estimated <= state.hardState.commit + 1 {
            return None;
          }
          segments := segments[i := raw[..length]];
          return Some((state, true));
        }
      }
      assert segments[..|segments|] == segments;
      return Some((state, false));
    }
  }

  lemma {:induction false} WindowOf(records: seq<LogRecord>, compacted: nat)
    ensures InCommitWindow(records, compacted) <==>
            NextIndex(Entries(records), compacted) <= HardState(records).commit + 1
  {
  }

  lemma NothingReplayed(crc: Crc)
    ensures WholeRecords(crc, []) == Some([]) && Meaning([]) == Replayed([], HardStateRecord(0, None, 0))
  {
  }

  /** What one segment more means for the whole, when the ones before read back. */
  lemma OneSegmentMore(crc: Crc, segments: seq<Bytes>, i: nat, records: seq<LogRecord>, compacted: nat)
    requires i < |segments| && WholeRecords(crc, segments[..i]) == Some(records)
    ensures var scan := Scan(crc, segments[i]);
            && (scan.tail == Clean ==> WholeRecords(crc, segments[..i + 1]) == Some(records + scan.records))
            && (scan.tail == Corrupt || (scan.tail == Torn && i + 1 < |segments|) ==>
                 Recovered(crc, segments, compacted) == None)
  {
    hide Scan, InCommitWindow;
    var n := |segments| - 1;
    assert segments[..i + 1][..i] == segments[..i];
    if i < n && Scan(crc, segments[i]).tail != Clean {
      assert WholeRecords(crc, segments[..i + 1]) == None;
      BadSegmentStays(crc, segments, i + 1, n);
    }
  }

  lemma {:induction false} BadSegmentStays(crc: Crc, segments: seq<Bytes>, i: nat, j: nat)
    requires i <= j <= |segments| && WholeRecords(crc, segments[..i]) == None
    ensures WholeRecords(crc, segments[..j]) == None
  {
    hide Scan;
    if i < j {
      BadSegmentStays(crc, segments, i, j - 1);
      assert segments[..j][..j - 1] == segments[..j - 1];
    }
  }

  /** What the scan does at one position. */
  lemma {:induction false} ScanStep(crc: Crc, raw: Bytes)
    requires raw != []
    ensures IsTorn(raw) ==> Scan(crc, raw) == Scanned([], 0, Torn)
    ensures !IsTorn(raw) ==>
              var end := 8 + GetLe(raw[..4]);
              match ReadRecord(crc, raw[..end])
              case None => Scan(crc, raw) == Scanned([], 0, Corrupt)
              case Some(r) => Scan(crc, raw) == After(r, end, Scan(crc, raw[end..]))
  {
  }

  /** Replay the records of one segment on top of what came before. */
  method ReplaySegment(crc: Crc, raw: Bytes, before: Replayed, ghost records: seq<LogRecord>)
    returns (state: Replayed, tail: Tail, length: nat)
    requires before == Meaning(records)
    ensures var scan := Scan(crc, raw);
            tail == scan.tail && length == scan.length && state == Meaning(records + scan.records)
  {
    hide Entries, HardState, ReadRecord, GetLe, Scan;
    state := before;
    ghost var done: seq<LogRecord> := [];
    var offset := 0;
    assert records + done == records && raw[offset..] == raw;
    while offset < |raw|
      invariant offset <= |raw| && state == Meaning(records + done)
      invariant var rest := Scan(crc, raw[offset..]);
                Scan(crc, raw) == Scanned(done + rest.records, offset + rest.length, rest.tail)
    {
      var rest := raw[offset..];
      ScanStep(crc, rest);
      assert done + [] == done;
      if IsTorn(rest) {
        return state, Torn, offset;
      }
      var end := 8 + GetLe(rest[..4]);
      var record := ReadRecord(crc, rest[..end]);
      if record.None? {
        return state, Corrupt, offset;
      }
      ghost var later := Scan(crc, rest[end..]);
      assert done + ([record.value] + later.records) == done + [record.value] + later.records;
      OneRecordMore(records + done, record.value);
      assert records + done + [record.value] == records + (done + [record.value]);
      assert rest[end..] == raw[offset + end..];
      state := match record.value
        case EntryRecord(_, _, _, _) => state.(entries := state.entries + [record.value])
        case HardStateRecord(_, _, _) => state.(hardState := record.value);
      done := done + [record.value];
      offset := offset + end;
    }
    EmptyScan(crc, []);
    assert raw[offset..] == [] && done + [] == done;
    return state, Clean, offset;
  }

  /** Accept only entries whose indexes follow one another without a gap. */
  method VerifyContinuity(entries: seq<LogRecord>) returns (ok: bool)
    requires forall i :: 0 <= i < |entries| ==> entries[i].EntryRecord?
    ensures ok <==> Contiguous(entries)
  {
    if entries == [] {
      return true;
    }
    var first := entries[0].index;
    for i := 0 to |entries|
      invariant forall k :: 0 <= k < i ==> entries[k].index == first + k
    {
      if entries[i].index != first + i {
        return false;
      }
    }
    return true;
  }

  ghost predicate Contiguous(entries: seq<LogRecord>)
    requires forall i :: 0 <= i < |entries| ==> entries[i].EntryRecord?
  {
    forall i :: 0 <= i < |entries| ==> entries[i].index == entries[0].index + i
  }

  // ---- Crashes ---------------------------------------------------------------------------

  function WrittenSegments(crc: Crc, log: seq<seq<LogRecord>>): (segments: seq<Bytes>)
    ensures |segments| == |log|
    ensures forall i :: 0 <= i < |log| ==> segments[i] == WrittenAll(crc, log[i])
  {
    seq(|log|, i requires 0 <= i < |log| => WrittenAll(crc, log[i]))
  }

  function Flattened(log: seq<seq<LogRecord>>): seq<LogRecord> {
    if log == [] then [] else Flattened(log[..|log| - 1]) + log[|log| - 1]
  }

  ghost predicate LogFits(log: seq<seq<LogRecord>>) {
    forall i :: 0 <= i < |log| ==> AllFit(log[i])
  }

  lemma {:induction false} ScanOfWhole(crc: Crc, records: seq<LogRecord>)
    requires AllFit(records)
    ensures Scan(crc, WrittenAll(crc, records)) == Scanned(records, |WrittenAll(crc, records)|, Clean)
  {
    hide Scan, WrittenAll;
    var w := WrittenAll(crc, records);
    ScanOfAll(crc, records, []);
    EmptyScan(crc, records);
    assert w + [] == w && records + [] == records;
  }

  lemma {:induction false} WholeSegmentsReadBack(crc: Crc, log: seq<seq<LogRecord>>)
    requires LogFits(log)
    ensures WholeRecords(crc, WrittenSegments(crc, log)) == Some(Flattened(log))
  {
    hide Scan, WrittenAll;
    if log != [] {
      var n := |log| - 1;
      WholeSegmentsReadBack(crc, log[..n]);
      assert WrittenSegments(crc, log)[..n] == WrittenSegments(crc, log[..n]);
      ScanOfWhole(crc, log[n]);
    }
  }

  /**
   The crash theorem. Cut the last segment of any written log at any byte. If the cut
   falls between records, everything before it is recovered and nothing is changed. If
   it falls inside a record, recovery keeps exactly the complete records and cuts the
   file back to them, unless the torn record could be committed: then it refuses.
   */
  lemma {:induction false} CrashRecovery(
    crc: Crc, log: seq<seq<LogRecord>>, last: seq<LogRecord>, p: nat, compacted: nat)
    requires LogFits(log) && AllFit(last) && p <= |WrittenAll(crc, last)|
    ensures var whole := WrittenSegments(crc, log);
            var kept := last[..Complete(crc, last, p)];
            var records := Flattened(log) + kept;
            var clean := whole + [WrittenAll(crc, kept)];
            Recovered(crc, whole + [WrittenAll(crc, last)[..p]], compacted) ==
            if p == |WrittenAll(crc, kept)| then Some(Recovery(records, clean, false))
            else if InCommitWindow(records, compacted) then None
            else Some(Recovery(records, clean, true))
  {
    hide Scan, WrittenAll, InCommitWindow, Complete, WholeRecords;
    var whole, cut := WrittenSegments(crc, log), WrittenAll(crc, last)[..p];
    var kept := last[..Complete(crc, last, p)];
    WholeSegmentsReadBack(crc, log);
    ScanOfCut(crc, last, p);
    KeptIsPrefix(crc, last, |kept|);
    hide WrittenSegments;
    LastSegmentDecides(crc, whole, cut, Flattened(log), compacted);
    assert cut[..|WrittenAll(crc, kept)|] == WrittenAll(crc, kept);
    assert p == |WrittenAll(crc, kept)| ==> cut == WrittenAll(crc, kept);
  }

  lemma {:induction false} LastSegmentDecides(
    crc: Crc, whole: seq<Bytes>, raw: Bytes, before: seq<LogRecord>, compacted: nat)
    requires WholeRecords(crc, whole) == Some(before)
    ensures var scan := Scan(crc, raw);
            var records := before + scan.records;
            Recovered(crc, whole + [raw], compacted) ==
            match scan.tail
            case Clean => Some(Recovery(records, whole + [raw], false))
            case Corrupt => None
            case Torn =>
              if InCommitWindow(records, compacted) then None
              else Some(Recovery(records, whole + [raw[..scan.length]], true))
  {
    hide Scan, InCommitWindow, WholeRecords;
    var segments := whole + [raw];
    assert segments[..|whole|] == whole;
    assert segments[|whole| := raw[..Scan(crc, raw).length]] == whole + [raw[..Scan(crc, raw).length]];
  }

  lemma {:induction false} KeptIsPrefix(crc: Crc, records: seq<LogRecord>, k: nat)
    requires k <= |records|
    ensures WrittenAll(crc, records[..k]) <= WrittenAll(crc, records)
  {
    hide Written;
    if k > 0 {
      KeptIsPrefix(crc, records[1..], k - 1);
      assert records[..k][1..] == records[1..][..k - 1];
    }
  }

  /** What recovery leaves on disk recovers to the same records, with nothing more to cut. */
  lemma {:induction false} RecoveryIsStable(
    crc: Crc, log: seq<seq<LogRecord>>, last: seq<LogRecord>, p: nat, compacted: nat)
    requires LogFits(log) && AllFit(last) && p <= |WrittenAll(crc, last)|
    ensures match Recovered(crc, WrittenSegments(crc, log) + [WrittenAll(crc, last)[..p]], compacted)
            case Some(r) => Recovered(crc, r.segments, compacted) == Some(r.(truncated := false))
            case None => true
  {
    hide Scan, WrittenAll, InCommitWindow, Complete, WholeRecords, Recovered;
    CrashRecovery(crc, log, last, p, compacted);
    var kept := last[..Complete(crc, last, p)];
    WholeSegmentsReadBack(crc, log);
    ScanOfWhole(crc, kept);
    LastSegmentDecides(crc, WrittenSegments(crc, log), WrittenAll(crc, kept), Flattened(log), compacted);
  }

  /** Committed entries are never cut off: after a truncation every index up to the commit index is still there. */
  lemma CommittedSurvive(crc: Crc, segments: seq<Bytes>, compacted: nat, index: nat)
    requires var r := Recovered(crc, segments, compacted);
             && r.Some? && r.value.truncated
             && Entries(r.value.records) != []
             && Contiguous(Entries(r.value.records))
             && Entries(r.value.records)[0].index <= index <= HardState(r.value.records).commit
    ensures var entries := Entries(Recovered(crc, segments, compacted).value.records);
            exists i :: 0 <= i < |entries| && entries[i].index == index
  {
    hide Scan, WholeRecords;
    var records := Recovered(crc, segments, compacted).value.records;
    var entries := Entries(records);
    var i := index - entries[0].index;
    assert !InCommitWindow(records, compacted);
    assert entries[|entries| - 1].index == entries[0].index + (|entries| - 1);
    assert entries[i].index == index;
  }

  /**
   The commit-window test refuses more than it must: with the last complete entry
   committed, a tear is refused although the torn record comes after everything
   committed. It is refused exactly then.
   */
  lemma {:induction false} TearRefusedIff(
    crc: Crc, log: seq<seq<LogRecord>>, last: seq<LogRecord>, p: nat, compacted: nat)
    requires LogFits(log) && AllFit(last) && p <= |WrittenAll(crc, last)|
    requires p != |WrittenAll(crc, last[..Complete(crc, last, p)])|
    ensures var records := Flattened(log) + last[..Complete(crc, last, p)];
            Recovered(crc, WrittenSegments(crc, log) + [WrittenAll(crc, last)[..p]], compacted).None? <==>
            NextIndex(Entries(records), compacted) <= HardState(records).commit + 1
  {
    hide Scan, WrittenAll, Complete, WholeRecords, Recovered;
    CrashRecovery(crc, log, last, p, compacted);
  }

  /** An entry, its commit, and a torn second entry: refused, although all that is committed is there. */
  lemma TornAfterCommitted(crc: Crc, e1: LogRecord, hs: LogRecord, e2: LogRecord, q: nat)
    requires AllFit([e1, hs, e2]) && e1.EntryRecord? && hs.HardStateRecord? && e2.EntryRecord?
    requires e1.index == 1 && hs.commit == 1 && 0 < q < |Written(crc, e2)|
    ensures var p := |Written(crc, e1)| + |Written(crc, hs)| + q;
            && p <= |WrittenAll(crc, [e1, hs, e2])|
            && Recovered(crc, [WrittenAll(crc, [e1, hs, e2])[..p]], 0) == None
  {
    hide Written, Scan, Fits, Recovered;
    var last := [e1, hs, e2];
    var p := |Written(crc, e1)| + |Written(crc, hs)| + q;
    ThreeRecords(crc, e1, hs, e2, q);
    CrashRecovery(crc, [], last, p, 0);
    assert last[..2] == [e1] + [hs];
    OneRecordMore([e1], hs);
    OneRecordMore([], e1);
    assert Flattened([]) + last[..2] == [e1] + [hs];
    assert [] + [e1] == [e1];
    assert WrittenSegments(crc, []) + [WrittenAll(crc, last)[..p]] == [WrittenAll(crc, last)[..p]];
  }

  lemma ThreeRecords(crc: Crc, a: LogRecord, b: LogRecord, c: LogRecord, q: nat)
    requires q < |Written(crc, c)|
    ensures var p := |Written(crc, a)| + |Written(crc, b)| + q;
            && p <= |WrittenAll(crc, [a, b, c])|
            && Complete(crc, [a, b, c], p) == 2
            && |WrittenAll(crc, [a, b, c][..2])| == p - q
  {
    hide Written;
    var all := [a, b, c];
    assert all[1..] == [b, c] && all[1..][1..] == [c] && all[..2] == [a, b] && [a, b][1..] == [b];
    assert WrittenAll(crc, [c]) == Written(crc, c) + WrittenAll(crc, []);
    assert Complete(crc, [c], q) == 0;
    assert Complete(crc, [b, c], |Written(crc, b)| + q) == 1;
  }

  // ---- Damage -----------------------------------------------------------------------------

  /** A segment that stops at a complete unreadable record, or at a tear with more segments after it, is refused. */
  lemma CorruptSegmentIsRefused(crc: Crc, segments: seq<Bytes>, i: nat, compacted: nat)
    requires i < |segments|
    requires var tail := Scan(crc, segments[i]).tail; tail == Corrupt || (tail == Torn && i + 1 < |segments|)
    ensures Recovered(crc, segments, compacted) == None
  {
    hide Scan, InCommitWindow;
    match WholeRecords(crc, segments[..i]) {
      case Some(records) =>
        OneSegmentMore(crc, segments, i, records, compacted);
      case None =>
        BadSegmentStays(crc, segments, i, |segments| - 1);
    }
  }

  /** What the scan makes of a frame of admissible size, whatever its checksum and body. */
  lemma {:induction false} ScanOfFrame(crc: Crc, good: seq<LogRecord>, sum: Bytes4, body: Bytes, rest: Bytes)
    requires AllFit(good) && |body| <= MAX_RECORD_BYTES
    ensures var scan := Scan(crc, WrittenAll(crc, good) + (Framed(sum, body) + rest));
            match ReadRecord(crc, Framed(sum, body))
            case None => scan == Scanned(good, |WrittenAll(crc, good)|, Corrupt)
            case Some(r) =>
              var s := Scan(crc, rest);
              scan == Scanned(good + ([r] + s.records), |WrittenAll(crc, good)| + (8 + |body| + s.length), s.tail)
  {
    var frame := Framed(sum, body);
    FrameParts(sum, body);
    hide Framed, GetLe, WrittenAll, ReadRecord;
    ScanOfAll(crc, good, frame + rest);
    assert (frame + rest)[..4] == frame[..4];
    assert (frame + rest)[..|frame|] == frame && (frame + rest)[|frame|..] == rest;
    ScanStep(crc, frame + rest);
    assert good + [] == good;
  }

  /** A complete record whose body no longer has its checksum stops the scan. */
  lemma {:induction false} DamageStopsScan(crc: Crc, good: seq<LogRecord>, sum: Bytes4, body: Bytes, rest: Bytes)
    requires AllFit(good) && 1 <= |body| <= MAX_RECORD_BYTES && crc(body) != sum
    ensures Scan(crc, WrittenAll(crc, good) + (Framed(sum, body) + rest)).tail == Corrupt
  {
    FrameParts(sum, body);
    assert DecodeRecord(crc, Framed(sum, body)) == Err(ChecksumMismatch);
    hide Framed, DecodeRecord, Scan, WrittenAll;
    ScanOfFrame(crc, good, sum, body, rest);
  }

  // ---- Damaged lengths -----------------------------------------------------------------

  /**
   Anything in the last segment that looks torn is taken for a torn write: from there on
   the segment is cut off, unless committed data could be in it. Nothing distinguishes a
   tear from intact records behind a damaged length.
   */
  lemma {:induction false} TornTailIsCut(
    crc: Crc, log: seq<seq<LogRecord>>, good: seq<LogRecord>, raw: Bytes, compacted: nat)
    requires LogFits(log) && AllFit(good) && raw != [] && IsTorn(raw)
    ensures var records := Flattened(log) + good;
            var whole := WrittenSegments(crc, log);
            Recovered(crc, whole + [WrittenAll(crc, good) + raw], compacted) ==
            if InCommitWindow(records, compacted) then None
            else Some(Recovery(records, whole + [WrittenAll(crc, good)], true))
  {
    hide WrittenAll, InCommitWindow, WholeRecords, WrittenSegments, IsTorn, Scan, Recovered;
    var w := WrittenAll(crc, good);
    WholeSegmentsReadBack(crc, log);
    ScanStep(crc, raw);
    ScanOfAll(crc, good, raw);
    assert good + [] == good && (w + raw)[..|w|] == w;
    LastSegmentDecides(crc, WrittenSegments(crc, log), w + raw, Flattened(log), compacted);
  }

  /** A record with another length field. */
  function WithLength(crc: Crc, r: LogRecord, length: Bytes4): (b: Bytes)
    ensures |b| == |Written(crc, r)|
  {
    length + Written(crc, r)[4..]
  }

  /** Exactly a length field damaged to point past the end of the segment makes what follows look torn. */
  lemma {:induction false} LongLengthIsTorn(crc: Crc, r: LogRecord, length: Bytes4, rest: Bytes)
    ensures IsTorn(WithLength(crc, r, length) + rest) <==> 8 + GetLe(length) > |Written(crc, r)| + |rest|
  {
    hide GetLe, Written, Payload;
    var raw := WithLength(crc, r, length) + rest;
    WrittenIsLong(crc, r);
    assert raw[..4] == length;
  }

  lemma WrittenIsLong(crc: Crc, r: LogRecord)
    ensures |Written(crc, r)| >= 9
  {
  }

  /**
   A length field that stays within the segment makes the checksum be compared with other
   bytes: refused when it differs from theirs.
   */
  lemma {:induction false} ShortLengthIsRefused(
    crc: Crc, good: seq<LogRecord>, r: LogRecord, length: Bytes4, rest: Bytes,
    before: seq<Bytes>, after: seq<Bytes>, compacted: nat)
    requires AllFit(good) && 8 + GetLe(length) <= |Written(crc, r)| + |rest|
    requires var frame := (WithLength(crc, r, length) + rest)[..8 + GetLe(length)];
             GetLe(length) == 0 || GetLe(length) > MAX_RECORD_BYTES || crc(frame[8..]) != frame[4..8]
    ensures var segment := WrittenAll(crc, good) + (WithLength(crc, r, length) + rest);
            Recovered(crc, before + [segment] + after, compacted) == None
  {
    var raw, n := WithLength(crc, r, length) + rest, GetLe(length);
    WrittenIsLong(crc, r);
    LongLengthIsTorn(crc, r, length, rest);
    assert raw[..4] == length;
    var frame := raw[..8 + n];
    assert frame[..4] == length;
    assert ReadRecord(crc, frame) == None;
    hide GetLe, Written, WithLength, WrittenAll, ReadRecord, IsTorn, Scan, Recovered;
    ScanStep(crc, raw);
    ScanOfAll(crc, good, raw);
    var segments := before + [WrittenAll(crc, good) + raw] + after;
    assert segments[|before|] == WrittenAll(crc, good) + raw;
    CorruptSegmentIsRefused(crc, segments, |before|, compacted);
  }

  /**
   One intact entry, then an entry with a damaged length, then any intact records: the
   directory recovers to the first entry alone, without an error.
   */
  lemma {:induction false} IntactRecordsAreDropped(
    crc: Crc, e1: LogRecord, e2: LogRecord, length: Bytes4, later: seq<LogRecord>)
    requires AllFit([e1]) && e1.EntryRecord? && e1.index == 1
    requires 8 + GetLe(length) > |Written(crc, e2)| + |WrittenAll(crc, later)|
    ensures var raw := WithLength(crc, e2, length) + WrittenAll(crc, later);
            Recovered(crc, [WrittenAll(crc, [e1]) + raw], 0) == Some(Recovery([e1], [WrittenAll(crc, [e1])], true))
  {
    hide WrittenAll, Written, GetLe, Recovered, Fits, WithLength, IsTorn;
    var raw := WithLength(crc, e2, length) + WrittenAll(crc, later);
    LongLengthIsTorn(crc, e2, length, WrittenAll(crc, later));
    WrittenIsLong(crc, e2);
    TornTailIsCut(crc, [], [e1], raw, 0);
    OneRecordMore([], e1);
    assert [] + [e1] == [e1] && Flattened([]) + [e1] == [e1];
    assert WrittenSegments(crc, []) + [WrittenAll(crc, [e1]) + raw] == [WrittenAll(crc, [e1]) + raw];
    assert WrittenSegments(crc, []) + [WrittenAll(crc, [e1])] == [WrittenAll(crc, [e1])];
  }
}
