/**
 The segment files of a write-ahead log. The records of all segments are one run; a
 segment is its name, the index of the first entry it was created for, and the position
 at which it starts.
 */
module WalSegments {
  import opened WalFormat
  import opened WalRecovery
  import opened WalLog

  // ---- Segments in order ----------------------------------------------------------

  /** A segment file, named by an index; its first record has position `offset` on disk. */
  datatype Start = Start(name: nat, offset: nat)

  /** Exactly the entries before this segment have an index below its name. */
  ghost predicate SplitsAt(s: Start, records: seq<LogRecord>) {
    && s.offset <= |records|
    && forall k :: 0 <= k < |records| && records[k].EntryRecord? ==> (k < s.offset <==> records[k].index < s.name)
  }

  /** The segments follow one another in the order of their names, and the names say which entries are in them. */
  ghost predicate Segmented(starts: seq<Start>, records: seq<LogRecord>) {
    && starts != [] && starts[0].offset == 0
    && (forall i, j :: 0 <= i < j < |starts| ==>
          starts[i].name < starts[j].name && starts[i].offset <= starts[j].offset)
    && (forall i :: 0 <= i < |starts| ==> SplitsAt(starts[i], records))
  }

  /** Disk holds the log, in segments that start no later than the next entry. */
  ghost predicate IsValidDisk(records: seq<LogRecord>, starts: seq<Start>, entries: seq<LogRecord>, compacted: nat)
    requires ConsecutiveFrom(entries, compacted + 1)
  {
    && OnDisk(records, entries, compacted) && AllFit(records)
    && starts != [] && Segmented(starts, records)
    && starts[|starts| - 1].name <= LastIndex(entries, compacted) + 1
  }

  /** An empty disk holds the empty log. */
  lemma EmptyDisk()
    ensures ConsecutiveFrom([], 1) && IsValidDisk([], [Start(1, 0)], [], 0)
  {
    NoEntries();
    hide Entries;
    assert SplitsAt([Start(1, 0)][0], []);
  }

  lemma HardStateKeepsSegments(starts: seq<Start>, records: seq<LogRecord>, hs: LogRecord)
    requires Segmented(starts, records) && hs.HardStateRecord?
    ensures Segmented(starts, records + [hs])
  {
    forall i | 0 <= i < |starts|
      ensures SplitsAt(starts[i], records + [hs])
    {
      assert SplitsAt(starts[i], records);
    }
  }

  /** The segments once an entry is written at `offset`: a full active segment is left for one named by the entry. */
  function Rolled(starts: seq<Start>, index: nat, offset: nat, full: set<nat>): (r: seq<Start>)
    requires starts != []
    ensures starts <= r
  {
    if index in full && starts[|starts| - 1].name != index then starts + [Start(index, offset)] else starts
  }

  function RolledAll(starts: seq<Start>, batch: seq<LogRecord>, offset: nat, full: set<nat>): (r: seq<Start>)
    requires starts != [] && forall i :: 0 <= i < |batch| ==> batch[i].EntryRecord?
    ensures starts <= r
  {
    if batch == [] then starts
    else
      var n := |batch| - 1;
      Rolled(RolledAll(starts, batch[..n], offset, full), batch[n].index, offset + n, full)
  }

  lemma {:induction false} RollOneMore(starts: seq<Start>, batch: seq<LogRecord>, n: nat, offset: nat, full: set<nat>)
    requires starts != [] && n < |batch| && forall i :: 0 <= i < |batch| ==> batch[i].EntryRecord?
    ensures RolledAll(starts, batch[..n + 1], offset, full) ==
            Rolled(RolledAll(starts, batch[..n], offset, full), batch[n].index, offset + n, full)
  {
    hide Rolled;
    assert batch[..n + 1][..n] == batch[..n];
  }

  lemma {:induction false} RollNothing(starts: seq<Start>, offset: nat, full: set<nat>)
    requires starts != []
    ensures RolledAll(starts, [], offset, full) == starts
  {
  }

  lemma {:induction false} RollOne(starts: seq<Start>, e: LogRecord, offset: nat, full: set<nat>)
    requires starts != [] && e.EntryRecord?
    ensures RolledAll(starts, [e], offset, full) == Rolled(starts, e.index, offset, full)
  {
    assert [e][..0] == [];
  }

  lemma SplitsOneMore(s: Start, records: seq<LogRecord>, e: LogRecord)
    requires SplitsAt(s, records) && e.EntryRecord? && s.name <= e.index
    ensures SplitsAt(s, records + [e])
  {
  }

  /** Writing an entry past all others, into a new segment or not, keeps the segments in order. */
  lemma EntryKeepsSegments(starts: seq<Start>, records: seq<LogRecord>, e: LogRecord, full: set<nat>)
    requires starts != [] && Segmented(starts, records) && e.EntryRecord? && e.index >= 1
    requires BoundedBy(records, e.index - 1) && starts[|starts| - 1].name <= e.index
    ensures Segmented(Rolled(starts, e.index, |records|, full), records + [e])
    ensures var r := Rolled(starts, e.index, |records|, full); r[|r| - 1].name <= e.index
  {
    var r := Rolled(starts, e.index, |records|, full);
    forall i | 0 <= i < |r|
      ensures SplitsAt(r[i], records + [e])
    {
      if i < |starts| {
        assert starts[i].name <= starts[|starts| - 1].name;
        SplitsOneMore(starts[i], records, e);
      }
    }
    forall i | 0 <= i < |starts|
      ensures starts[i].offset <= |records| && (|r| > |starts| ==> starts[i].name < e.index)
    {
      assert SplitsAt(starts[i], records);
      assert starts[i].name <= starts[|starts| - 1].name;
    }
  }

  lemma {:induction false} BatchKeepsSegments(
    starts: seq<Start>, records: seq<LogRecord>, last: nat, batch: seq<LogRecord>, full: set<nat>)
    requires starts != [] && Segmented(starts, records) && BoundedBy(records, last)
    requires starts[|starts| - 1].name <= last + 1 && ConsecutiveFrom(batch, last + 1)
    ensures Segmented(RolledAll(starts, batch, |records|, full), records + batch)
    ensures BoundedBy(records + batch, last + |batch|)
    ensures var r := RolledAll(starts, batch, |records|, full); r[|r| - 1].name <= last + |batch| + 1
  {
    hide Segmented, Rolled;
    if batch == [] {
      assert records + batch == records;
    } else {
      var n := |batch| - 1;
      var e, front := batch[n], batch[..n];
      BatchKeepsSegments(starts, records, last, front, full);
      EntryKeepsSegments(RolledAll(starts, front, |records|, full), records + front, e, full);
      assert records + batch == (records + front) + [e];
    }
  }

  /** Appending entries in order to memory and disk keeps the two in agreement. */
  lemma {:induction false} BatchKeepsDisk(
    records: seq<LogRecord>, starts: seq<Start>, entries: seq<LogRecord>, compacted: nat, batch: seq<LogRecord>,
    full: set<nat>)
    requires ConsecutiveFrom(entries, compacted + 1) && IsValidDisk(records, starts, entries, compacted)
    requires ConsecutiveFrom(batch, LastIndex(entries, compacted) + 1)
    requires forall i :: 0 <= i < |batch| ==> SmallEnough(batch[i])
    ensures starts != [] && ConsecutiveFrom(entries + batch, compacted + 1)
    ensures IsValidDisk(records + batch, RolledAll(starts, batch, |records|, full), entries + batch, compacted)
  {
    assert batch[..|batch|] == batch;
    DiskIsBounded(records, entries, compacted);
    BatchKeepsSegments(starts, records, LastIndex(entries, compacted), batch, full);
    hide OnDisk, AllFit, SmallEnough, Segmented, RolledAll;
    BatchReachesDisk(records, entries, compacted, batch, |batch|);
  }

  // ---- Cutting them back ----------------------------------------------------------

  /** The segments that start before position `n`; without any record, one fresh segment. */
  function FirstSegments(starts: seq<Start>, n: nat): seq<Start> {
    if n == 0 then [Start(1, 0)]
    else if starts == [] || starts[|starts| - 1].offset < n then starts
    else FirstSegments(starts[..|starts| - 1], n)
  }

  lemma {:induction false} FirstSegmentsArePrefix(starts: seq<Start>, n: nat)
    requires n > 0
    ensures var r := FirstSegments(starts, n);
            && r <= starts && (r != [] ==> r[|r| - 1].offset < n)
            && forall i :: |r| <= i < |starts| ==> starts[i].offset >= n
  {
    if starts != [] && starts[|starts| - 1].offset >= n {
      FirstSegmentsArePrefix(starts[..|starts| - 1], n);
    }
  }

  lemma {:induction false} FirstSegmentsStart(starts: seq<Start>, n: nat)
    requires starts != [] && starts[0].offset == 0
    ensures var r := FirstSegments(starts, n); r != [] && r[0].offset == 0
  {
    if n > 0 {
      FirstSegmentsArePrefix(starts, n);
    }
  }

  lemma CutSplits(s: Start, records: seq<LogRecord>, cut: seq<LogRecord>)
    requires SplitsAt(s, records) && cut <= records && s.offset < |cut|
    ensures SplitsAt(s, cut) && (cut[|cut| - 1].EntryRecord? ==> s.name <= cut[|cut| - 1].index)
  {
    assert forall k :: 0 <= k < |cut| ==> cut[k] == records[k];
  }

  /** Cutting the log back after entry `keep` leaves the segments up to the one that holds it. */
  lemma {:induction false} CutKeepsSegments(starts: seq<Start>, records: seq<LogRecord>, keep: nat, cut: seq<LogRecord>)
    requires Segmented(starts, records) && IsCut(records, keep, cut)
    ensures Segmented(FirstSegments(starts, |cut|), cut)
    ensures var r := FirstSegments(starts, |cut|); r[|r| - 1].name <= if cut == [] then 1 else keep
  {
    if cut == [] {
      assert SplitsAt([Start(1, 0)][0], cut);
    } else {
      FirstSegmentsArePrefix(starts, |cut|);
      FirstSegmentsStart(starts, |cut|);
      hide FirstSegments, SplitsAt;
      var r := FirstSegments(starts, |cut|);
      forall i | 0 <= i < |r|
        ensures SplitsAt(r[i], cut) && r[i].name <= keep
      {
        assert r[i] == starts[i] && r[i].offset <= r[|r| - 1].offset;
        CutSplits(r[i], records, cut);
      }
    }
  }

  /** Keep the segments that start before position `n`, or start afresh. */
  method DropSegments(starts: seq<Start>, n: nat) returns (kept: seq<Start>)
    ensures kept == FirstSegments(starts, n)
  {
    if n == 0 {
      return [Start(1, 0)];
    }
    kept := starts;
    while kept != [] && kept[|kept| - 1].offset >= n
      invariant FirstSegments(kept, n) == FirstSegments(starts, n)
    {
      kept := kept[..|kept| - 1];
    }
  }

  // ---- Deleting the oldest --------------------------------------------------------

  /** The segments from the `gone`-th on, once those before it are deleted. */
  function WithoutFirst(starts: seq<Start>, gone: nat): (r: seq<Start>)
    requires gone < |starts|
    ensures |r| == |starts| - gone && r[0].offset == 0
    ensures forall i :: 0 <= i < |r| ==>
              r[i] == Start(starts[gone + i].name, Minus(starts[gone + i].offset, starts[gone].offset))
  {
    var r := seq(|starts| - gone, i requires 0 <= i < |starts| - gone =>
      Start(starts[gone + i].name, Minus(starts[gone + i].offset, starts[gone].offset)));
    assert r[0] == Start(starts[gone + 0].name, Minus(starts[gone + 0].offset, starts[gone].offset));
    r
  }

  function Minus(a: nat, b: nat): nat {
    if a < b then 0 else a - b
  }

  lemma DeletionSplits(s: Start, records: seq<LogRecord>, n: nat)
    requires SplitsAt(s, records) && n <= s.offset
    ensures SplitsAt(Start(s.name, s.offset - n), records[n..])
  {
    assert forall k :: 0 <= k < |records[n..]| ==> records[n..][k] == records[n + k];
  }

  /** Deleting the first segments leaves the others in order. */
  lemma DeletionKeepsSegments(starts: seq<Start>, records: seq<LogRecord>, gone: nat)
    requires Segmented(starts, records) && gone < |starts|
    ensures starts[gone].offset <= |records|
    ensures Segmented(WithoutFirst(starts, gone), records[starts[gone].offset..])
  {
    assert SplitsAt(starts[gone], records);
    hide SplitsAt;
    var n, r := starts[gone].offset, WithoutFirst(starts, gone);
    forall i | 0 <= i < |r|
      ensures SplitsAt(r[i], records[n..])
    {
      assert n <= starts[gone + i].offset;
      DeletionSplits(starts[gone + i], records, n);
    }
    forall i, j | 0 <= i < j < |r|
      ensures r[i].name < r[j].name && r[i].offset <= r[j].offset
    {
      assert starts[gone + i].name < starts[gone + j].name;
    }
  }

  /** The bytes in the segments named `from` or later. */
  function SizeFrom(starts: seq<Start>, from: nat, size: nat -> nat): nat {
    if starts == [] then 0
    else
      var n := |starts| - 1;
      SizeFrom(starts[..n], from, size) + if starts[n].name >= from then size(starts[n].name) else 0
  }

  method RetainedBytes(starts: seq<Start>, from: nat, size: nat -> nat) returns (total: nat)
    ensures total == SizeFrom(starts, from, size)
  {
    total := 0;
    for i := 0 to |starts|
      invariant total == SizeFrom(starts[..i], from, size)
    {
      assert starts[..i + 1][..i] == starts[..i];
      if starts[i].name >= from {
        total := total + size(starts[i].name);
      }
    }
    assert starts[..|starts|] == starts;
  }

  /** Segment `i` lies wholly up to index `to`, and those after it still hold `window` bytes. */
  predicate MayGo(starts: seq<Start>, i: nat, to: nat, window: nat, size: nat -> nat) {
    && i + 1 < |starts| && starts[i + 1].name <= to + 1
    && SizeFrom(starts, starts[i + 1].name, size) >= window
  }

  /** Of the segments, oldest first, the first `gone` may go and the next may not. */
  predicate IsGone(starts: seq<Start>, gone: nat, to: nat, window: nat, size: nat -> nat) {
    && (forall i :: 0 <= i < gone ==> MayGo(starts, i, to, window, size))
    && !MayGo(starts, gone, to, window, size)
  }

  /** The segments wholly up to `to`; the last one never is. */
  method SegmentsBelow(starts: seq<Start>, to: nat, size: nat -> nat) returns (gone: nat)
    requires starts != [] && forall i, j :: 0 <= i < j < |starts| ==> starts[i].name < starts[j].name
    ensures gone < |starts| && IsGone(starts, gone, to, 0, size)
  {
    gone := 0;
    for i := 0 to |starts| - 1
      invariant gone <= i
      invariant forall k :: 0 <= k < gone ==> MayGo(starts, k, to, 0, size)
      invariant gone < i ==> starts[gone + 1].name > to + 1
    {
      if starts[i + 1].name <= to + 1 {
        gone := gone + 1;
      }
    }
  }

  /** Of those, from the oldest on, as many as leave `window` bytes. */
  method SegmentsBeyond(starts: seq<Start>, to: nat, window: nat, size: nat -> nat) returns (gone: nat)
    requires starts != []
    ensures gone < |starts| && IsGone(starts, gone, to, window, size)
  {
    gone := 0;
    while gone + 1 < |starts|
      invariant gone < |starts|
      invariant forall k :: 0 <= k < gone ==> MayGo(starts, k, to, window, size)
    {
      if starts[gone + 1].name > to + 1 {
        return;
      }
      var retained := RetainedBytes(starts, starts[gone + 1].name, size);
      if retained < window {
        return;
      }
      gone := gone + 1;
    }
  }

  /** What is deleted holds no entry past the watermark. */
  lemma GoneIsBounded(starts: seq<Start>, records: seq<LogRecord>, gone: nat, to: nat, window: nat, size: nat -> nat)
    requires Segmented(starts, records) && gone < |starts| && IsGone(starts, gone, to, window, size)
    ensures starts[gone].offset <= |records|
    ensures forall i :: 0 <= i < starts[gone].offset && records[i].EntryRecord? ==> records[i].index < starts[gone].name
    ensures gone > 0 ==> 1 <= starts[gone].name <= to + 1
    ensures gone == 0 ==> starts[gone].offset == 0
  {
    assert SplitsAt(starts[gone], records);
    if gone > 0 {
      assert MayGo(starts, gone - 1, to, window, size);
      assert starts[gone - 1].name < starts[gone].name;
    }
  }

  /** Where compaction up to `to` leaves the watermark. */
  function Watermark(starts: seq<Start>, gone: nat, compacted: nat, to: nat, window: nat): nat
    requires gone < |starts|
  {
    if window == 0 then to
    else if gone == 0 then compacted
    else Minus(starts[gone].name, 1)
  }

  /**
   Deleting the first `gone` segments and moving the watermark accordingly keeps memory and
   disk in agreement, unless the watermark goes back: then memory no longer starts at it.
   */
  lemma {:induction false} CompactionKeepsDiskIff(
    records: seq<LogRecord>, starts: seq<Start>, entries: seq<LogRecord>, compacted: nat,
    gone: nat, to: nat, window: nat, size: nat -> nat)
    requires ConsecutiveFrom(entries, compacted + 1) && IsValidDisk(records, starts, entries, compacted)
    requires gone < |starts| && IsGone(starts, gone, to, window, size)
    requires compacted < to <= compacted + |entries|
    ensures starts[gone].offset <= |records|
    ensures var w := Watermark(starts, gone, compacted, to, window);
            var rest := Above(entries, w);
            if w >= compacted
            then && ConsecutiveFrom(rest, w + 1)
                 && IsValidDisk(records[starts[gone].offset..], WithoutFirst(starts, gone), rest, w)
            else rest == entries && !ConsecutiveFrom(rest, w + 1)
  {
    GoneIsBounded(starts, records, gone, to, window, size);
    hide IsGone, MayGo, Segmented, OnDisk, Above, AllFit;
    var w := Watermark(starts, gone, compacted, to, window);
    if w >= compacted {
      CompactionKeepsDisk(records, entries, compacted, starts, gone, w);
    } else {
      WatermarkWentBack(entries, compacted, w);
    }
  }

  /** No segment but the first starts up to the watermark. */
  predicate Tidy(starts: seq<Start>, compacted: nat) {
    |starts| > 1 ==> starts[1].name > compacted
  }

  lemma RollStaysTidy(starts: seq<Start>, index: nat, offset: nat, full: set<nat>, compacted: nat)
    requires starts != [] && Tidy(starts, compacted) && index > compacted
    ensures Tidy(Rolled(starts, index, offset, full), compacted)
  {
  }

  lemma {:induction false} CuttingStaysTidy(starts: seq<Start>, n: nat, compacted: nat)
    requires Tidy(starts, compacted)
    ensures Tidy(FirstSegments(starts, n), compacted)
  {
    if n > 0 {
      FirstSegmentsArePrefix(starts, n);
    }
  }

  /** From tidy segments the watermark never goes back, and what is left is tidy. */
  lemma DeletionStaysTidy(
    starts: seq<Start>, gone: nat, compacted: nat, to: nat, window: nat, size: nat -> nat)
    requires forall i, j :: 0 <= i < j < |starts| ==> starts[i].name < starts[j].name
    requires gone < |starts| && IsGone(starts, gone, to, window, size) && compacted < to && Tidy(starts, compacted)
    ensures compacted <= Watermark(starts, gone, compacted, to, window)
    ensures Tidy(WithoutFirst(starts, gone), Watermark(starts, gone, compacted, to, window))
  {
    hide SizeFrom;
    if gone > 0 {
      assert starts[1].name <= starts[gone].name;
    }
  }

  /** Only from tidy ones: otherwise some window takes the first segment alone, and the watermark with it. */
  lemma UntidyGoesBack(starts: seq<Start>, compacted: nat, to: nat) returns (window: nat, size: nat -> nat)
    requires forall i, j :: 0 <= i < j < |starts| ==> starts[i].name < starts[j].name
    requires compacted < to && !Tidy(starts, compacted)
    ensures IsGone(starts, 1, to, window, size) && Watermark(starts, 1, compacted, to, window) < compacted
  {
    window, size := 1, OnlySegment(starts[1].name);
    assert starts[0].name < starts[1].name;
    SizeOfOnly(starts, starts[1].name, starts[1].name);
    assert MayGo(starts, 0, to, window, size);
    if |starts| > 2 {
      SizeOfOnly(starts, starts[1].name, starts[2].name);
    }
  }

  function OnlySegment(name: nat): nat -> nat {
    n => if n == name then 1 else 0
  }

  lemma {:induction false} SizeOfOnly(starts: seq<Start>, name: nat, from: nat)
    ensures from > name ==> SizeFrom(starts, from, OnlySegment(name)) == 0
    ensures from <= name && (exists i :: 0 <= i < |starts| && starts[i].name == name) ==>
              SizeFrom(starts, from, OnlySegment(name)) >= 1
  {
    if starts != [] {
      var n := |starts| - 1;
      SizeOfOnly(starts[..n], name, from);
      if i :| 0 <= i < n && starts[i].name == name {
        assert starts[..n][i].name == name;
      }
    }
  }

  /** Deleting segments below a watermark that does not go back keeps memory and disk in agreement. */
  lemma {:induction false} CompactionKeepsDisk(
    records: seq<LogRecord>, entries: seq<LogRecord>, compacted: nat, starts: seq<Start>, gone: nat, to: nat)
    requires ConsecutiveFrom(entries, compacted + 1) && IsValidDisk(records, starts, entries, compacted)
    requires gone < |starts| && starts[gone].offset <= |records| && compacted <= to <= compacted + |entries|
    requires forall i :: 0 <= i < starts[gone].offset && records[i].EntryRecord? ==> records[i].index <= to
    ensures ConsecutiveFrom(Above(entries, to), to + 1)
    ensures IsValidDisk(records[starts[gone].offset..], WithoutFirst(starts, gone), Above(entries, to), to)
  {
    hide OnDisk, AllFit, Segmented, Above, ConsecutiveFrom, WithoutFirst;
    AboveIsSuffix(entries, compacted + 1, to);
    var removed, rest := starts[gone].offset, Above(entries, to);
    assert rest == entries[to - compacted..] by {
      assert to == compacted ==> entries[0..] == entries;
      assert to == compacted + |entries| ==> entries[|entries|..] == [];
    }
    CompactedOnDisk(records, entries, compacted, to, removed);
    DeletionKeepsSegments(starts, records, gone);
    LaterRecordsFit(records, removed);
    LastOfConsecutive(entries, compacted);
    LastOfConsecutive(rest, to);
  }

  lemma LaterRecordsFit(records: seq<LogRecord>, n: nat)
    requires AllFit(records) && n <= |records|
    ensures AllFit(records[n..])
  {
    hide Fits;
  }

  lemma {:induction false} WatermarkWentBack(entries: seq<LogRecord>, compacted: nat, to: nat)
    requires ConsecutiveFrom(entries, compacted + 1) && entries != [] && to < compacted
    ensures Above(entries, to) == entries && !ConsecutiveFrom(entries, to + 1)
  {
    AboveIsSuffix(entries, compacted + 1, to);
  }

  lemma DiskIsOrdered(records: seq<LogRecord>, starts: seq<Start>, entries: seq<LogRecord>, compacted: nat)
    requires ConsecutiveFrom(entries, compacted + 1) && IsValidDisk(records, starts, entries, compacted)
    ensures starts != [] && forall i, j :: 0 <= i < j < |starts| ==> starts[i].name < starts[j].name
  {
  }
}
