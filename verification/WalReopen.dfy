/**
 Closing a write-ahead log and opening it again: what recovery makes of the disk, what
 opening keeps of that next to a snapshot, and when the opened storage can be relied on.
 */
module WalReopen {
  import opened Base
  import opened WalFormat
  import opened WalRecovery
  import opened WalLog
  import opened WalSegments
  import opened WalAppend

  // ---- Reading everything back ----------------------------------------------------------

  lemma {:induction false} PartsFit(log: seq<seq<LogRecord>>)
    requires AllFit(Flattened(log))
    ensures LogFits(log)
  {
    hide Fits;
    if log != [] {
      var n := |log| - 1;
      var front, last := Flattened(log[..n]), log[n];
      assert forall i :: 0 <= i < |front| ==> front[i] == Flattened(log)[i];
      assert forall i :: 0 <= i < |last| ==> last[i] == Flattened(log)[|front| + i];
      PartsFit(log[..n]);
      assert forall i :: 0 <= i < n ==> log[i] == log[..n][i];
    }
  }

  /** However records are spread over segments, recovery reads all of them back and changes nothing. */
  lemma {:induction false} SegmentsReadBack(crc: Crc, log: seq<seq<LogRecord>>, compacted: nat)
    requires AllFit(Flattened(log))
    ensures var segments := WrittenSegments(crc, log);
            Recovered(crc, segments, compacted) == Some(Recovery(Flattened(log), segments, false))
  {
    hide Scan, WrittenAll, WholeRecords, InCommitWindow, Fits;
    if log != [] {
      var n := |log| - 1;
      var front, last := log[..n], log[n];
      PartsFit(log);
      assert LogFits(front) && AllFit(last);
      WholeSegmentsReadBack(crc, front);
      ScanOfWhole(crc, last);
      LastSegmentDecides(crc, WrittenSegments(crc, front), WrittenAll(crc, last), Flattened(front), compacted);
      assert WrittenSegments(crc, front) + [WrittenAll(crc, last)] == WrittenSegments(crc, log);
    }
  }

  /** Segments that start one after the other within the first `n` records. */
  predicate InOrder(starts: seq<Start>, n: nat) {
    starts == [] || (starts[|starts| - 1].offset <= n && InOrder(starts[..|starts| - 1], starts[|starts| - 1].offset))
  }

  /** The records of each segment. */
  function Pieces(records: seq<LogRecord>, starts: seq<Start>): seq<seq<LogRecord>>
    requires InOrder(starts, |records|)
    decreases |starts|
  {
    if starts == [] then []
    else
      var n := |starts| - 1;
      Pieces(records[..starts[n].offset], starts[..n]) + [records[starts[n].offset..]]
  }

  lemma {:induction false} PiecesTogether(records: seq<LogRecord>, starts: seq<Start>)
    requires InOrder(starts, |records|) && starts != [] && starts[0].offset == 0
    ensures Flattened(Pieces(records, starts)) == records
    decreases |starts|
  {
    var n := |starts| - 1;
    var front, last := records[..starts[n].offset], records[starts[n].offset..];
    var log := Pieces(records, starts);
    assert log[..|log| - 1] == Pieces(front, starts[..n]) && log[|log| - 1] == last;
    if n > 0 {
      PiecesTogether(front, starts[..n]);
    } else {
      assert Pieces(front, []) == [] && Flattened([]) == [];
    }
    assert records == front + last;
  }

  lemma {:induction false} SegmentsAreInOrder(starts: seq<Start>, n: nat)
    requires forall i, j :: 0 <= i < j < |starts| ==> starts[i].offset <= starts[j].offset
    requires forall i :: 0 <= i < |starts| ==> starts[i].offset <= n
    ensures InOrder(starts, n)
  {
    if starts != [] {
      SegmentsAreInOrder(starts[..|starts| - 1], starts[|starts| - 1].offset);
    }
  }

  lemma {:induction false} ValidDiskIsInOrder(
    records: seq<LogRecord>, starts: seq<Start>, entries: seq<LogRecord>, compacted: nat)
    requires ConsecutiveFrom(entries, compacted + 1) && IsValidDisk(records, starts, entries, compacted)
    ensures AllFit(records) && InOrder(starts, |records|)
  {
    hide OnDisk, Fits;
    forall i | 0 <= i < |starts|
      ensures starts[i].offset <= |records|
    {
      assert SplitsAt(starts[i], records);
    }
    SegmentsAreInOrder(starts, |records|);
  }

  // ---- Opening -----------------------------------------------------------------------------

  ghost predicate IsReplayed(m: Replayed) {
    m.hardState.HardStateRecord? && forall i :: 0 <= i < |m.entries| ==> m.entries[i].EntryRecord?
  }

  /**
   What opening next to a snapshot makes of the replayed log: refused if it has a gap or
   does not reach back to the snapshot, or if more is committed than is there.
   */
  ghost function Opened(m: Replayed, snapshot: nat): Option<Replayed>
    requires IsReplayed(m)
  {
    var kept := Above(m.entries, snapshot);
    if && Contiguous(m.entries)
       && (m.entries != [] ==> m.entries[0].index <= snapshot + 1)
       && m.hardState.commit <= LastIndex(kept, snapshot)
    then Some(Replayed(kept, m.hardState))
    else None
  }

  /** Recover the directory and keep what the snapshot does not cover. */
  method OpenLog(dir: Directory, crc: Crc, snapshot: nat) returns (r: Option<Replayed>)
    modifies dir
    ensures var recovered := Recovered(crc, old(dir.segments), snapshot);
            if recovered.Some?
            then && dir.segments == recovered.value.segments
                 && r == Opened(Meaning(recovered.value.records), snapshot)
            else dir.segments == old(dir.segments) && r == None
  {
    hide Recovered, Above;
    var recovered := dir.RecoverWal(crc, snapshot);
    if recovered.None? {
      return None;
    }
    var m := recovered.value.0;
    var ok := VerifyContinuity(m.entries);
    if !ok {
      return None;
    }
    if m.entries != [] && m.entries[0].index > snapshot + 1 {
      return None;
    }
    var kept := Above(m.entries, snapshot);
    if m.hardState.commit > LastIndex(kept, snapshot) {
      return None;
    }
    return Some(Replayed(kept, m.hardState));
  }

  /** `t` is what is opened over the disk of `s`. */
  ghost predicate IsReopened(t: WalStorage, s: WalStorage, snapshot: nat)
    reads t, s
  {
    && t.compacted == snapshot && t.entries == Above(Entries(s.records), snapshot)
    && t.hardState == HardState(s.records) && t.records == s.records && t.starts == s.starts
  }

  /** Close a storage and open its disk again. */
  method Reopen(s: WalStorage, crc: Crc, snapshot: nat) returns (t: Option<WalStorage>)
    requires s.starts != [] && s.starts[0].offset == 0
    requires AllFit(s.records) && InOrder(s.starts, |s.records|)
    ensures t.Some? <==> Opened(Meaning(s.records), snapshot).Some?
    ensures t.Some? ==> fresh(t.value) && IsReopened(t.value, s, snapshot)
  {
    hide Recovered, Above, AllFit, InOrder, Pieces, WrittenSegments, Entries, HardState, Contiguous;
    PiecesTogether(s.records, s.starts);
    var log := Pieces(s.records, s.starts);
    SegmentsReadBack(crc, log, snapshot);
    var dir := new Directory(WrittenSegments(crc, log));
    var kept := OpenLog(dir, crc, snapshot);
    if kept.None? {
      return None;
    }
    var again := new WalStorage.Over(kept.value.entries, snapshot, kept.value.hardState, s.records, s.starts);
    return Some(again);
  }

  // ---- What comes back -------------------------------------------------------------------

  function Max(a: nat, b: nat): nat {
    if a <= b then b else a
  }

  /** A valid disk reaches back to the watermark without a gap, and holds the log above it. */
  lemma {:induction false} DiskReachesBack(records: seq<LogRecord>, entries: seq<LogRecord>, compacted: nat)
    requires ConsecutiveFrom(entries, compacted + 1) && OnDisk(records, entries, compacted)
    ensures var d := Entries(records);
            && Contiguous(d) && |entries| <= |d| && d[|d| - |entries|..] == entries
            && (d != [] ==> && ConsecutiveFrom(d, d[0].index) && 1 <= d[0].index <= compacted + 1
                            && d[0].index + |d| == compacted + |entries| + 1)
  {
    hide Entries;
    var d := Entries(records);
    LastOfConsecutive(entries, compacted);
    if d != [] {
      ConsecutiveAt(d, d[0].index, |d| - 1);
    }
  }

  /** A snapshot past the watermark covers the same entries on disk and in memory. */
  lemma {:induction false} SameAbove(
    d: seq<LogRecord>, first: nat, entries: seq<LogRecord>, compacted: nat, snapshot: nat)
    requires ConsecutiveFrom(d, first) && ConsecutiveFrom(entries, compacted + 1)
    requires 1 <= first <= compacted + 1 && first + |d| == compacted + |entries| + 1
    requires |entries| <= |d| && d[|d| - |entries|..] == entries && compacted <= snapshot
    ensures Above(d, snapshot) == Above(entries, snapshot)
    ensures LastIndex(Above(d, snapshot), snapshot) == Max(compacted + |entries|, snapshot)
  {
    hide Above, ConsecutiveFrom;
    AboveIsSuffix(d, first, snapshot);
    AboveIsSuffix(entries, compacted + 1, snapshot);
    assert entries[0..] == entries && d[0..] == d;
    if snapshot < compacted + |entries| {
      var n := snapshot - compacted;
      DropMore(d, entries, n);
      assert Above(entries, snapshot) == entries[n..] && Above(d, snapshot) == d[snapshot + 1 - first..];
      ConsecutiveAt(entries, compacted + 1, |entries| - 1);
    }
  }

  lemma DropMore<T>(d: seq<T>, s: seq<T>, n: nat)
    requires |s| <= |d| && d[|d| - |s|..] == s && n <= |s|
    ensures d[|d| - (|s| - n)..] == s[n..]
  {
    assert d[|d| - |s|..][n..] == d[|d| - (|s| - n)..];
  }

  /**
   Whatever segments the records of a valid storage are in, and wherever at or above its
   watermark the snapshot is: recovery returns the records, and opening returns the entries
   above the snapshot and the hard state on disk, unless that commits more than is there.
   */
  lemma {:induction false} ReopenedStorage(s: WalStorage, crc: Crc, log: seq<seq<LogRecord>>, snapshot: nat)
    requires s.Valid() && Flattened(log) == s.records && s.compacted <= snapshot
    ensures var segments := WrittenSegments(crc, log);
            Recovered(crc, segments, snapshot) == Some(Recovery(s.records, segments, false))
    ensures Opened(Meaning(s.records), snapshot) ==
            if HardState(s.records).commit <= Max(LastIndex(s.entries, s.compacted), snapshot)
            then Some(Replayed(Above(s.entries, snapshot), HardState(s.records)))
            else None
  {
    hide Recovered, WrittenSegments, Above, Segmented, AllFit, HardState;
    SegmentsReadBack(crc, log, snapshot);
    OpenedDisk(s.records, s.entries, s.compacted, snapshot);
  }

  lemma {:induction false} OpenedDisk(records: seq<LogRecord>, entries: seq<LogRecord>, compacted: nat, snapshot: nat)
    requires ConsecutiveFrom(entries, compacted + 1) && OnDisk(records, entries, compacted) && compacted <= snapshot
    ensures Above(Entries(records), snapshot) == Above(entries, snapshot)
    ensures LastIndex(Above(entries, snapshot), snapshot) == Max(LastIndex(entries, compacted), snapshot)
    ensures Opened(Meaning(records), snapshot) ==
            if HardState(records).commit <= Max(LastIndex(entries, compacted), snapshot)
            then Some(Replayed(Above(entries, snapshot), HardState(records)))
            else None
  {
    DiskReachesBack(records, entries, compacted);
    LastOfConsecutive(entries, compacted);
    hide Entries, OnDisk, HardState, ConsecutiveFrom;
    var d := Entries(records);
    if d == [] {
      assert entries == [];
    } else {
      hide Above;
      SameAbove(d, d[0].index, entries, compacted, snapshot);
    }
  }

  /**
   The reopened storage is valid again exactly when the log reaches up to the snapshot, or
   is empty. A snapshot installed past the end of a log that was not yet deleted leaves one
   that does not.
   */
  lemma ReopenedIsValidIff(s: WalStorage, t: WalStorage, snapshot: nat)
    requires s.Valid() && s.compacted <= snapshot && IsReopened(t, s, snapshot)
    ensures t.InMemory()
    ensures t.Valid() <==> Entries(s.records) == [] || snapshot <= LastIndex(s.entries, s.compacted)
  {
    hide Above, Segmented, AllFit, HardState, Entries;
    OpenedDisk(s.records, s.entries, s.compacted, snapshot);
    AboveStaysConsecutive(s.entries, s.compacted, snapshot);
    MirrorsAboveIff(s.records, s.entries, s.compacted, snapshot);
    hide OnDisk, ConsecutiveFrom;
  }

  lemma {:induction false} AboveStaysConsecutive(entries: seq<LogRecord>, compacted: nat, snapshot: nat)
    requires ConsecutiveFrom(entries, compacted + 1) && compacted <= snapshot
    ensures ConsecutiveFrom(Above(entries, snapshot), snapshot + 1)
  {
    AboveIsSuffix(entries, compacted + 1, snapshot);
  }

  lemma {:induction false} MirrorsAboveIff(
    records: seq<LogRecord>, entries: seq<LogRecord>, compacted: nat, snapshot: nat)
    requires ConsecutiveFrom(entries, compacted + 1) && OnDisk(records, entries, compacted) && compacted <= snapshot
    requires ConsecutiveFrom(Above(entries, snapshot), snapshot + 1)
    ensures OnDisk(records, Above(entries, snapshot), snapshot) <==>
            Entries(records) == [] || snapshot <= LastIndex(entries, compacted)
  {
    OpenedDisk(records, entries, compacted, snapshot);
    hide Entries, Above, HardState, Opened, ConsecutiveFrom, Mirrors;
    LastOfConsecutive(entries, compacted);
    AboveIsSuffix(entries, compacted + 1, snapshot);
    assert entries[0..] == entries;
    SuffixMirrorsIff(Entries(records), entries, compacted, snapshot, Above(entries, snapshot));
  }

  lemma SuffixMirrorsIff(
    d: seq<LogRecord>, entries: seq<LogRecord>, compacted: nat, snapshot: nat, rest: seq<LogRecord>)
    requires Mirrors(d, entries, compacted) && LastIndex(entries, compacted) == compacted + |entries|
    requires compacted <= snapshot && LastIndex(rest, snapshot) == Max(compacted + |entries|, snapshot)
    requires rest == if snapshot < compacted + |entries| then entries[snapshot - compacted..] else []
    ensures Mirrors(d, rest, snapshot) <==> d == [] || snapshot <= compacted + |entries|
  {
    hide ConsecutiveFrom;
    if d != [] && snapshot <= compacted + |entries| {
      DropMore(d, entries, snapshot - compacted);
    }
  }

  // ---- A log that ends before the snapshot ------------------------------------------------

  lemma {:induction false} EntriesOfEntries(batch: seq<LogRecord>)
    requires forall i :: 0 <= i < |batch| ==> batch[i].EntryRecord?
    ensures Entries(batch) == batch
  {
    if batch != [] {
      var n := |batch| - 1;
      EntriesOfEntries(batch[..n]);
      assert batch == batch[..n] + [batch[n]];
    }
  }

  /** What appended entries add to the records. */
  lemma {:induction false} BatchReplayed(records: seq<LogRecord>, batch: seq<LogRecord>)
    requires forall i :: 0 <= i < |batch| ==> batch[i].EntryRecord?
    ensures Meaning(records + batch) == Replayed(Entries(records) + batch, HardState(records))
  {
    EntriesInOrder(records, batch);
    EntriesOfEntries(batch);
    HardStateOfParts(records, batch);
  }

  /** The index of the last entry on disk is below the snapshot. */
  predicate EndsBefore(d: seq<LogRecord>, snapshot: nat) {
    d != [] && d[|d| - 1].EntryRecord? && d[|d| - 1].index < snapshot
  }

  /**
   Opening next to a snapshot, appending and opening again works exactly if nothing was
   appended or the log on disk did not end before the snapshot. Otherwise the log has a hole
   from then on, and is refused next to any snapshot.
   */
  lemma {:induction false} ReopenAgainIff(records: seq<LogRecord>, snapshot: nat, batch: seq<LogRecord>, later: nat)
    requires Opened(Meaning(records), snapshot).Some?
    requires ConsecutiveFrom(batch, LastIndex(Above(Entries(records), snapshot), snapshot) + 1)
    ensures var stale := batch != [] && EndsBefore(Entries(records), snapshot);
            && (Opened(Meaning(records + batch), snapshot).Some? <==> !stale)
            && (stale ==> Opened(Meaning(records + batch), later) == None)
  {
    BatchReplayed(records, batch);
    hide Entries, HardState;
    AppendedOpensIff(Entries(records), HardState(records), snapshot, batch);
  }

  lemma {:induction false} AppendedOpensIff(d: seq<LogRecord>, hs: LogRecord, snapshot: nat, batch: seq<LogRecord>)
    requires IsReplayed(Replayed(d, hs)) && Opened(Replayed(d, hs), snapshot).Some?
    requires ConsecutiveFrom(batch, LastIndex(Above(d, snapshot), snapshot) + 1)
    ensures var stale := batch != [] && EndsBefore(d, snapshot);
            && IsReplayed(Replayed(d + batch, hs))
            && (Opened(Replayed(d + batch, hs), snapshot).Some? <==> !stale)
            && (stale ==> !Contiguous(d + batch))
  {
    var first := if d == [] then snapshot + 1 else d[0].index;
    assert ConsecutiveFrom(d, first);
    assert IsReplayed(Replayed(d + batch, hs));
    hide ConsecutiveFrom, Above, LastIndex, EndsBefore, Contiguous;
    LastAbove(d, first, snapshot);
    if batch == [] {
      assert d + batch == d;
    } else {
      FirstDecides(batch, LastIndex(Above(d, snapshot), snapshot) + 1);
      if EndsBefore(d, snapshot) {
        HoleIsSeen(d, first, batch);
      } else {
        ConsecutiveTogether(d, first, batch);
        LastAbove(d + batch, first, snapshot);
      }
    }
  }

  lemma ConsecutiveTogether(d: seq<LogRecord>, first: nat, batch: seq<LogRecord>)
    requires ConsecutiveFrom(d, first) && ConsecutiveFrom(batch, first + |d|)
    ensures ConsecutiveFrom(d + batch, first)
    ensures forall i :: 0 <= i < |d + batch| ==> (d + batch)[i].EntryRecord?
    ensures Contiguous(d + batch) && (d + batch != [] ==> (d + batch)[0].index == first)
  {
  }

  /** The last index above the snapshot is that of the log, or the snapshot's. */
  lemma {:induction false} LastAbove(d: seq<LogRecord>, first: nat, snapshot: nat)
    requires ConsecutiveFrom(d, first) && first <= snapshot + 1
    ensures LastIndex(Above(d, snapshot), snapshot) == Max(first + |d|, snapshot + 1) - 1
    ensures EndsBefore(d, snapshot) <==> d != [] && first + |d| <= snapshot
  {
    AboveIsSuffix(d, first, snapshot);
    hide Above;
    if d != [] {
      ConsecutiveAt(d, first, |d| - 1);
      if snapshot < first {
        assert Above(d, snapshot) == d;
      }
    }
  }

  lemma HoleIsSeen(d: seq<LogRecord>, first: nat, batch: seq<LogRecord>)
    requires ConsecutiveFrom(d, first) && d != [] && batch != [] && batch[0].EntryRecord?
    requires batch[0].index != first + |d| && forall i :: 0 <= i < |d + batch| ==> (d + batch)[i].EntryRecord?
    ensures !Contiguous(d + batch)
  {
    ConsecutiveAt(d, first, 0);
    assert (d + batch)[|d|] == batch[0] && (d + batch)[0] == d[0];
  }

  lemma {:induction false} OneEntryOpens(first: LogRecord, snapshot: nat)
    requires IsEntry(first, 1) && snapshot >= 1
    ensures Entries([first]) == [first] && HardState([first]) == HardStateRecord(0, None, 0)
    ensures Above([first], snapshot) == [] && Opened(Meaning([first]), snapshot).Some?
  {
    hide Entries, HardState, Above;
    EntriesOfEntries([first]);
    NoHardState(first);
    AboveIsSuffix([first], 1, snapshot);
  }

  /** An entry 1 followed by one past the snapshot: a hole. */
  lemma HoleOnDisk(first: LogRecord, next: LogRecord, snapshot: nat)
    requires IsEntry(first, 1) && IsEntry(next, snapshot + 1) && snapshot > 1
    ensures Opened(Meaning([first] + [next]), snapshot) == None
  {
    OneEntryOpens(first, snapshot);
    ReopenAgainIff([first], snapshot, [next], snapshot);
  }

  lemma OneMoreFits(records: seq<LogRecord>, e: LogRecord)
    requires AllFit(records) && e.EntryRecord? && SmallEnough(e)
    ensures AllFit(records + [e])
  {
    EntryFits(e);
    hide Fits;
  }

  /**
   One entry, and a snapshot whose installation was cut short before the log was deleted:
   the disk opens, takes the next entry, and does not open again.
   */
  method StaleLogStopsOpening(crc: Crc) returns (t: Option<WalStorage>, u: Option<WalStorage>)
    ensures t.Some? && t.value.compacted == 5 && |t.value.entries| == 1 && IsEntry(t.value.entries[0], 6)
    ensures u.None?
  {
    hide IsValidDisk, HardState, Entries, Above, RolledAll, Opened, SmallEnough, AllFit, IsCut;
    var s, first := OneEntry();
    ValidDiskIsInOrder(s.records, s.starts, s.entries, s.compacted);
    OneEntryOpens(first, 5);
    t := Reopen(s, crc, 5);
    var next := SmallEntry(6, 1);
    RollOne([Start(1, 0)], next, 1, {});
    var ok, done := t.value.Append([next], {});
    assert [next][..1] == [next];
    assert t.value.records == [first] + [next];
    OneMoreFits([first], next);
    HoleOnDisk(first, next, 5);
    u := Reopen(t.value, crc, 5);
  }

  // ---- A watermark that goes back ---------------------------------------------------------

  /** Three entries, each in a segment of its own. */
  method ThreeSegments() returns (s: WalStorage, batch: seq<LogRecord>)
    ensures s.Valid() && fresh(s) && s.compacted == 0 && s.entries == s.records == batch
    ensures |batch| == 3 && ConsecutiveFrom(batch, 1)
    ensures s.starts == [Start(1, 0), Start(2, 1), Start(3, 2)]
  {
    hide IsValidDisk, RolledAll, SmallEnough, IsCut;
    s := new WalStorage();
    var e1 := SmallEntry(1, 1);
    var e2 := SmallEntry(2, 1);
    var e3 := SmallEntry(3, 1);
    batch := [e1, e2, e3];
    ThreeRolls(batch);
    assert ConsecutiveFrom(batch, 1) && batch[..3] == batch;
    var ok, done := s.Append(batch, {2, 3});
    assert s.records == [] + batch && s.entries == [] + batch;
  }

  lemma {:induction false} ThreeRolls(batch: seq<LogRecord>)
    requires |batch| == 3 && ConsecutiveFrom(batch, 1)
    ensures RolledAll([Start(1, 0)], batch, 0, {2, 3}) == [Start(1, 0), Start(2, 1), Start(3, 2)]
  {
    var full := {2, 3};
    RollNothing([Start(1, 0)], 0, full);
    RollOneMore([Start(1, 0)], batch, 0, 0, full);
    RollOneMore([Start(1, 0)], batch, 1, 0, full);
    RollOneMore([Start(1, 0)], batch, 2, 0, full);
    assert batch[..0] == [] && batch[..3] == batch;
  }

  /** With files of one byte and a window of two, the first of the three may go. */
  lemma OneOfThreeGoes(gone: nat)
    requires gone < 3 && IsGone([Start(1, 0), Start(2, 1), Start(3, 2)], gone, 3, 2, OneByte)
    ensures gone == 1
  {
    var one, two := [Start(1, 0)], [Start(1, 0), Start(2, 1)];
    var starts := [Start(1, 0), Start(2, 1), Start(3, 2)];
    assert starts[..2] == two && two[..1] == one && one[..0] == [];
    assert SizeFrom(one, 2, OneByte) == SizeFrom(one, 3, OneByte) == 0;
    assert SizeFrom(two, 2, OneByte) == 1 && SizeFrom(two, 3, OneByte) == 0;
    assert SizeFrom(starts, 2, OneByte) == 2 && SizeFrom(starts, 3, OneByte) == 1;
    assert MayGo(starts, 0, 3, 2, OneByte) && !MayGo(starts, 1, 3, 2, OneByte);
  }

  function OneByte(name: nat): nat {
    1
  }

  lemma {:induction false} ThreeOpen(batch: seq<LogRecord>)
    requires |batch| == 3 && ConsecutiveFrom(batch, 1)
    ensures Entries(batch) == batch && Above(batch, 2) == Above([batch[2]], 1) == [batch[2]]
    ensures Opened(Meaning(batch), 2).Some?
  {
    EntriesOfEntries(batch);
    HardStateOfParts([], batch);
    assert [] + batch == batch;
    AboveIsSuffix(batch, 1, 2);
    AboveIsSuffix([batch[2]], 3, 1);
  }

  /**
   Three segments, opened next to a snapshot at 2, then compacted to 3 with a window: the
   first segment goes, and the watermark goes back to 1, while memory starts at 3.
   */
  method WatermarkGoesBack(crc: Crc) returns (t: WalStorage, ok: bool, ghost before: nat)
    ensures ok && before == 2 && t.compacted == 1 && |t.entries| == 1 && IsEntry(t.entries[0], 3)
    ensures !t.Valid()
  {
    hide IsValidDisk, HardState, Entries, Above, Opened, AllFit, IsGone, WithoutFirst, ConsecutiveFrom;
    var s, batch := ThreeSegments();
    ValidDiskIsInOrder(s.records, s.starts, s.entries, s.compacted);
    LastOfConsecutive(batch, 0);
    ThreeOpen(batch);
    var r := Reopen(s, crc, 2);
    t := r.value;
    ReopenedIsValidIff(s, t, 2);
    before := t.compacted;
    ghost var gone;
    ok, gone := t.Compact(3, Some(3), 2, OneByte);
    OneOfThreeGoes(gone);
    ConsecutiveAt(batch, 1, 2);
  }

  // ---- Overwriting and opening again -------------------------------------------------------

  /**
   What a node finds again after overwriting entries and opening: the new log, and the hard
   state that was on disk before exactly when the cut dropped none that differs from the last
   one kept.
   */
  method ReopenedAfterOverwrite(s: WalStorage, batch: seq<LogRecord>, full: set<nat>, crc: Crc)
    returns (t: Option<WalStorage>, ghost cut: seq<LogRecord>)
    requires s.Valid() && s.compacted == 0 && ReplacesSuffix(s, batch)
    modifies s`entries, s`records, s`starts
    ensures s.Valid() && IsCut(old(s.records), batch[0].index - 1, cut) && cut <= old(s.records)
    ensures t.Some? <==> HardState(s.records).commit <= LastIndex(s.entries, 0)
    ensures t.Some? ==> t.value.Valid() && t.value.entries == s.entries
    ensures t.Some? ==> var dropped := old(s.records)[|cut|..];
              t.value.hardState == old(HardState(s.records)) <==>
              (HasHardState(dropped) ==> HardState(dropped) == HardState(cut))
  {
    hide IsValidDisk, SmallEnough, RolledAll, HardState, HasHardState, Entries, Above, Opened, AllFit, IsCut;
    ghost var before := s.records;
    var ok, done := s.Append(batch, full);
    assert batch[..done] == batch;
    cut :| IsCut(before, batch[0].index - 1, cut) && s.records == cut + batch;
    CutIsPrefix(before, batch[0].index - 1, cut);
    OverwriteKeepsHardStateIff(before, cut, batch);
    ValidDiskIsInOrder(s.records, s.starts, s.entries, s.compacted);
    UncompactedOpens(s);
    t := Reopen(s, crc, 0);
    if t.Some? {
      ReopenedIsValidIff(s, t.value, 0);
    }
  }

  lemma CutIsPrefix(records: seq<LogRecord>, keep: nat, cut: seq<LogRecord>)
    requires IsCut(records, keep, cut)
    ensures cut <= records
  {
  }

  lemma UncompactedOpens(s: WalStorage)
    requires s.Valid() && s.compacted == 0
    ensures Opened(Meaning(s.records), 0).Some? <==> HardState(s.records).commit <= LastIndex(s.entries, 0)
    ensures Above(Entries(s.records), 0) == s.entries
  {
    hide Entries, Above, HardState, Segmented, AllFit;
    OpenedDisk(s.records, s.entries, 0, 0);
    AboveIsSuffix(s.entries, 1, 0);
  }
}
