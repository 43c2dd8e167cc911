/**
 The storage over a write-ahead log: appending, with overwriting of a conflicting suffix,
 and compacting, in memory and on disk.
 */
module WalAppend {
  import opened Base
  import opened WalFormat
  import opened WalRecovery
  import opened WalLog
  import opened WalSegments

  // ---- The storage ----------------------------------------------------------------

  class WalStorage {
    var entries: seq<LogRecord>
    var compacted: nat
    var hardState: LogRecord
    var records: seq<LogRecord>
    var starts: seq<Start>

    /** Memory holds what follows the compaction watermark without a gap. */
    ghost predicate InMemory()
      reads this
    {
      && hardState.HardStateRecord?
      && ConsecutiveFrom(entries, compacted + 1)
      && starts != [] && starts[0].offset == 0
    }

    /** So it does, and disk holds the same, in segments that start no later than the next entry. */
    ghost predicate Valid()
      reads this
    {
      InMemory() && IsValidDisk(records, starts, entries, compacted)
    }

    constructor ()
      ensures Valid() && entries == [] && records == [] && compacted == 0
      ensures hardState == HardStateRecord(0, None, 0) && starts == [Start(1, 0)]
    {
      hide IsValidDisk, ConsecutiveFrom;
      entries, compacted, hardState, records := [], 0, HardStateRecord(0, None, 0), [];
      starts := [Start(1, 0)];
      EmptyDisk();
    }

    /** A storage with this log in memory, on this disk. */
    constructor Over(entries: seq<LogRecord>, compacted: nat, hardState: LogRecord, records: seq<LogRecord>,
                     starts: seq<Start>)
      ensures this.entries == entries && this.compacted == compacted && this.hardState == hardState
      ensures this.records == records && this.starts == starts
    {
      this.entries, this.compacted, this.hardState := entries, compacted, hardState;
      this.records, this.starts := records, starts;
    }

    method SetHardState(hs: LogRecord)
      requires Valid() && hs.HardStateRecord?
      modifies this`hardState, this`records
      ensures Valid() && hardState == hs && HardState(records) == hs
      ensures records == old(records) + [hs]
    {
      hide Entries, OnDisk, HardState, Fits, Payload, Segmented;
      OneRecordMore(records, hs);
      HardStateFits(hs);
      HardStateReachesDisk(records, entries, compacted, hs);
      HardStateKeepsSegments(starts, records, hs);
      records := records + [hs];
      hardState := hs;
    }

    /** Discard every entry after `keep`, in memory by position. */
    method TruncateTo(keep: nat)
      requires InMemory()
      modifies this`entries, this`records, this`starts
      ensures LastIndex(old(entries), 0) <= keep ==>
                entries == old(entries) && records == old(records) && starts == old(starts)
      ensures LastIndex(old(entries), 0) > keep ==> IsCut(old(records), keep, records)
      ensures LastIndex(old(entries), 0) > keep ==> entries == FirstOf(old(entries), keep)
      ensures LastIndex(old(entries), 0) > keep ==> starts == FirstSegments(old(starts), |records|)
    {
      var last := if entries == [] then 0 else entries[|entries| - 1].index;
      if last <= keep {
        return;
      }
      records := CutAfter(records, keep);
      starts := DropSegments(starts, |records|);
      entries := FirstOf(entries, keep);
    }

    /**
     Drop the entries up to `to`, which a durable snapshot at `snapshot` must cover, and the
     first `gone` segments. With a window, segments go only while the rest keeps that many
     bytes, and the watermark follows the segments: it may go back, and exactly then the
     storage is no longer valid.
     */
    method Compact(to: nat, snapshot: Option<nat>, window: nat, size: nat -> nat) returns (ok: bool, ghost gone: nat)
      requires Valid()
      modifies this`entries, this`compacted, this`records, this`starts
      ensures ok <==> to <= old(compacted) ||
                      (to <= old(compacted) + |old(entries)| && snapshot.Some? && to <= snapshot.value)
      ensures !ok || to <= old(compacted) ==>
                && entries == old(entries) && compacted == old(compacted)
                && records == old(records) && starts == old(starts)
      ensures ok && to > old(compacted) ==>
                && gone < |old(starts)| && IsGone(old(starts), gone, to, window, size)
                && compacted == Watermark(old(starts), gone, old(compacted), to, window)
                && entries == Above(old(entries), compacted)
                && old(starts)[gone].offset <= |old(records)|
                && records == old(records)[old(starts)[gone].offset..]
                && starts == WithoutFirst(old(starts), gone)
      ensures Valid() <==> compacted >= old(compacted)
      ensures old(Tidy(starts, compacted)) ==> Valid() && Tidy(starts, compacted)
    {
      hide IsValidDisk, IsGone, ConsecutiveFrom, Above, WithoutFirst, Watermark, Tidy;
      LastOfConsecutive(entries, compacted);
      if to <= compacted {
        return true, 0;
      }
      if to > LastIndex(entries, compacted) {
        return false, 0;
      }
      if snapshot.None? || snapshot.value < to {
        return false, 0;
      }
      gone := Release(to, window, size);
      return true, gone;
    }

    /** Delete segments and move the watermark, once that is known to be covered. */
    method Release(to: nat, window: nat, size: nat -> nat) returns (ghost gone: nat)
      requires Valid() && compacted < to <= compacted + |entries|
      modifies this`entries, this`compacted, this`records, this`starts
      ensures gone < |old(starts)| && IsGone(old(starts), gone, to, window, size)
      ensures compacted == Watermark(old(starts), gone, old(compacted), to, window)
      ensures entries == Above(old(entries), compacted)
      ensures old(starts)[gone].offset <= |old(records)| && records == old(records)[old(starts)[gone].offset..]
      ensures starts == WithoutFirst(old(starts), gone)
      ensures Valid() <==> compacted >= old(compacted)
      ensures old(Tidy(starts, compacted)) ==> Valid() && Tidy(starts, compacted)
    {
      hide IsValidDisk, IsGone, ConsecutiveFrom, Above, WithoutFirst, Tidy;
      DiskIsOrdered(records, starts, entries, compacted);
      var first, watermark;
      if window == 0 {
        first := SegmentsBelow(starts, to, size);
        watermark := to;
      } else {
        first := SegmentsBeyond(starts, to, window, size);
        watermark := if first == 0 then compacted else starts[first].name - 1;
      }
      CompactionKeepsDiskIff(records, starts, entries, compacted, first, to, window, size);
      if Tidy(starts, compacted) {
        DeletionStaysTidy(starts, first, compacted, to, window, size);
      }
      records := records[starts[first].offset..];
      starts := WithoutFirst(starts, first);
      entries := Above(entries, watermark);
      compacted := watermark;
      return first;
    }

    /** What the storage accepts. */
    ghost predicate Accepts(batch: seq<LogRecord>)
      requires InMemory() && forall i :: 0 <= i < |batch| ==> batch[i].EntryRecord? && batch[i].index >= 1
      reads this
    {
      var last := LastIndex(entries, compacted);
      batch != [] ==>
        && ConsecutiveFrom(batch, batch[0].index)
        && (forall i :: 0 <= i < |batch| ==> SmallEnough(batch[i]))
        && (batch[0].index == last + 1
            || (batch[0].index <= last && hardState.commit < batch[0].index && compacted == 0))
    }

    /** An accepted batch leaves every committed entry where it is. */
    lemma CommittedStays(batch: seq<LogRecord>)
      requires InMemory() && batch != []
      requires forall i :: 0 <= i < |batch| ==> batch[i].EntryRecord? && batch[i].index >= 1
      requires Accepts(batch)
      ensures compacted < batch[0].index <= compacted + 1 + |entries|
      ensures var after := Overwritten(entries, compacted, batch);
              forall k :: 0 <= k < |entries| && entries[k].index <= hardState.commit ==>
                k < |after| && after[k] == entries[k]
    {
      LastOfConsecutive(entries, compacted);
    }

    /** The batch would take back committed or compacted entries. */
    ghost predicate ReachesBack(batch: seq<LogRecord>)
      requires InMemory() && batch != [] && batch[0].EntryRecord?
      reads this
    {
      && batch[0].index <= LastIndex(entries, compacted)
      && (batch[0].index <= compacted || batch[0].index <= hardState.commit)
    }

    /**
     Append a batch, overwriting from its first index on. `full` are the indexes before
     which the active segment is found full. `done` is how much of the batch was appended;
     a refused batch may have been appended in part, and if it overwrites it has been made
     room for, on disk and in memory, before it is refused.
     */
    method Append(batch: seq<LogRecord>, full: set<nat>) returns (ok: bool, ghost done: nat)
      requires InMemory()
      requires forall i :: 0 <= i < |batch| ==> batch[i].EntryRecord? && batch[i].index >= 1
      modifies this`entries, this`records, this`starts
      ensures ok <==> old(Accepts(batch))
      ensures ok ==> done == |batch| && InMemory() && (old(Valid()) ==> Valid())
      ensures ok && old(Tidy(starts, compacted)) ==> Tidy(starts, compacted)
      ensures ok && batch != [] ==>
                && compacted < batch[0].index <= compacted + 1 + |old(entries)|
                && entries == Overwritten(old(entries), compacted, batch)
      ensures done <= |batch| && (!ok ==> done < |batch|)
      ensures batch == [] || old(ReachesBack(batch)) ==>
                done == 0 && entries == old(entries) && records == old(records) && starts == old(starts)
      ensures batch != [] && batch[0].index > LastIndex(old(entries), compacted) ==>
                && entries == old(entries) + batch[..done] && records == old(records) + batch[..done]
                && starts == RolledAll(old(starts), batch[..done], |old(records)|, full)
      ensures batch != [] && batch[0].index <= LastIndex(old(entries), compacted) && !old(ReachesBack(batch)) ==>
                && entries == FirstOf(old(entries), batch[0].index - 1) + batch[..done]
                && exists cut :: IsCut(old(records), batch[0].index - 1, cut) && records == cut + batch[..done]
      ensures batch != [] && batch[0].index <= LastIndex(old(entries), compacted) && compacted > 0 ==> done == 0
    {
      hide IsValidDisk, SmallEnough, IsCut, ConsecutiveFrom, FirstSegments, Tidy;
      done := 0;
      if batch != [] {
        LastOfConsecutive(entries, compacted);
        ok := MakeRoom(batch[0].index);
        if !ok {
          return false, 0;
        }
      }
      ghost var next := LastIndex(entries, compacted) + 1;
      FirstDecides(batch, next);
      NothingMissing(batch);
      ok, done := AppendEach(batch, full);
      FirstDecides(batch[..done], next);
    }

    /** Prepare for an entry with index `first`: cut the log back to just before it, unless that is too far. */
    method MakeRoom(first: nat) returns (ok: bool)
      requires InMemory() && first >= 1
      modifies this`entries, this`records, this`starts
      ensures var last := LastIndex(old(entries), compacted);
              && (ok <==> first > last || (first > compacted && first > hardState.commit))
              && (!ok || first > last ==> entries == old(entries) && records == old(records) && starts == old(starts))
              && (ok && first <= last ==>
                   && IsCut(old(records), first - 1, records) && entries == FirstOf(old(entries), first - 1)
                   && starts == FirstSegments(old(starts), |records|))
      ensures InMemory() && (old(Tidy(starts, compacted)) ==> Tidy(starts, compacted))
      ensures ok && first <= LastIndex(old(entries), compacted) ==>
                if compacted == 0 then (old(Valid()) ==> Valid()) && LastIndex(entries, compacted) + 1 == first
                else LastIndex(entries, compacted) + 1 != first
    {
      hide Entries, OnDisk, Payload, Fits, Segmented, FirstSegments;
      var last := LastIndex(entries, compacted);
      if first > last {
        return true;
      }
      var keep := first - 1;
      if keep < compacted {
        return false;
      }
      if keep < hardState.commit {
        return false;
      }
      TruncateTo(keep);
      FirstSegmentsStart(old(starts), |records|);
      if old(Tidy(starts, compacted)) {
        CuttingStaysTidy(old(starts), |records|, compacted);
      }
      if compacted == 0 && old(Valid()) {
        CutEntries(old(records), old(entries), keep, records);
        CutKeepsSegments(old(starts), old(records), keep, records);
      }
      return true;
    }

    /** Append entries one by one, as long as each follows the last and fits. */
    method AppendEach(batch: seq<LogRecord>, full: set<nat>) returns (ok: bool, ghost done: nat)
      requires InMemory()
      requires forall i :: 0 <= i < |batch| ==> batch[i].EntryRecord?
      modifies this`entries, this`records, this`starts
      ensures ok <==> ConsecutiveFrom(batch, LastIndex(old(entries), compacted) + 1)
                      && forall i :: 0 <= i < |batch| ==> SmallEnough(batch[i])
      ensures done <= |batch| && (ok <==> done == |batch|)
      ensures entries == old(entries) + batch[..done] && records == old(records) + batch[..done]
      ensures starts == RolledAll(old(starts), batch[..done], |old(records)|, full)
      ensures ConsecutiveFrom(batch[..done], LastIndex(old(entries), compacted) + 1)
      ensures forall i :: 0 <= i < done ==> SmallEnough(batch[i])
      ensures !ok ==> batch[done].index != LastIndex(old(entries), compacted) + 1 + done || !SmallEnough(batch[done])
      ensures InMemory() && (old(Valid()) ==> Valid()) && (old(Tidy(starts, compacted)) ==> Tidy(starts, compacted))
    {
      hide IsValidDisk, ConsecutiveFrom, LastIndex, SmallEnough, Rolled, RolledAll, Tidy;
      RollNothing(starts, |records|, full);
      assert batch[..0] == [];
      ghost var start := LastIndex(entries, compacted);
      LastOfConsecutive(entries, compacted);
      NothingMissing(batch[..0]);
      for i := 0 to |batch|
        invariant LastIndex(entries, compacted) == start + i
        invariant entries == old(entries) + batch[..i] && records == old(records) + batch[..i]
        invariant starts != [] && starts[0] == old(starts)[0]
        invariant starts == RolledAll(old(starts), batch[..i], |old(records)|, full)
        invariant old(Tidy(starts, compacted)) ==> Tidy(starts, compacted)
        invariant ConsecutiveFrom(entries, compacted + 1) && ConsecutiveFrom(batch[..i], start + 1)
        invariant forall k :: 0 <= k < i ==> SmallEnough(batch[k])
      {
        var e := batch[i];
        if e.index != LastIndex(entries, compacted) + 1 {
          NotConsecutive(batch, start + 1, i);
          BatchStaysValid(i, old(entries), old(records), old(starts), batch, full);
          return false, i;
        }
        if !SmallEnough(e) {
          BatchStaysValid(i, old(entries), old(records), old(starts), batch, full);
          return false, i;
        }
        assert batch[..i + 1] == batch[..i] + [e];
        RollOneMore(old(starts), batch, i, |old(records)|, full);
        LastOfConsecutive(entries, compacted);
        OneMoreEntry(batch[..i], start + 1, compacted, e);
        OneMoreEntry(entries, compacted + 1, compacted, e);
        if Tidy(starts, compacted) {
          RollStaysTidy(starts, e.index, |records|, full, compacted);
        }
        starts := Rolled(starts, e.index, |records|, full);
        entries := entries + [e];
        records := records + [e];
      }
      assert batch[..|batch|] == batch;
      BatchStaysValid(|batch|, old(entries), old(records), old(starts), batch, full);
      return true, |batch|;
    }

    /** Entries appended in order to memory and disk keep the two in agreement. */
    lemma {:induction false} BatchStaysValid(
      n: nat, oldEntries: seq<LogRecord>, oldRecords: seq<LogRecord>, oldStarts: seq<Start>,
      batch: seq<LogRecord>, full: set<nat>)
      requires n <= |batch| && hardState.HardStateRecord? && oldStarts != [] && oldStarts[0].offset == 0
      requires forall i :: 0 <= i < n ==> batch[i].EntryRecord? && SmallEnough(batch[i])
      requires entries == oldEntries + batch[..n] && records == oldRecords + batch[..n]
      requires starts == RolledAll(oldStarts, batch[..n], |oldRecords|, full)
      requires ConsecutiveFrom(oldEntries, compacted + 1)
      requires ConsecutiveFrom(batch[..n], LastIndex(oldEntries, compacted) + 1)
      ensures IsValidDisk(oldRecords, oldStarts, oldEntries, compacted) ==> Valid()
    {
      if IsValidDisk(oldRecords, oldStarts, oldEntries, compacted) {
        hide IsValidDisk, ConsecutiveFrom, SmallEnough, RolledAll, LastIndex;
        BatchKeepsDisk(oldRecords, oldStarts, oldEntries, compacted, batch[..n], full);
      }
    }
  }

  // ---- What overwriting promises and what it does ---------------------------------

  /** A well-formed batch that replaces a suffix of the log, all of it uncommitted. */
  ghost predicate ReplacesSuffix(s: WalStorage, batch: seq<LogRecord>)
    requires s.Valid()
    reads s
  {
    && batch != [] && (forall i :: 0 <= i < |batch| ==> batch[i].EntryRecord? && SmallEnough(batch[i]))
    && ConsecutiveFrom(batch, batch[0].index)
    && s.compacted < batch[0].index <= LastIndex(s.entries, s.compacted)
    && s.hardState.commit < batch[0].index
  }

  /**
   Overwriting an uncommitted suffix is accepted exactly as long as nothing was ever
   compacted. When it is refused, the suffix is gone from disk, and memory has entries
   that disk has not.
   */
  method OverwriteNeedsUncompacted(s: WalStorage, batch: seq<LogRecord>, full: set<nat>) returns (ok: bool)
    requires s.Valid() && ReplacesSuffix(s, batch)
    modifies s`entries, s`records, s`starts
    ensures ok <==> s.compacted == 0
    ensures ok ==> s.Valid() && batch[0].index <= 1 + |old(s.entries)|
    ensures ok ==> s.entries == Overwritten(old(s.entries), 0, batch)
    ensures !ok ==> IsCut(old(s.records), batch[0].index - 1, s.records)
    ensures !ok ==> s.entries == FirstOf(old(s.entries), batch[0].index - 1) && !s.Valid()
  {
    hide IsValidDisk, SmallEnough, IsCut, RolledAll;
    ghost var keep := batch[0].index - 1;
    LastOfConsecutive(s.entries, s.compacted);
    ghost var done;
    ok, done := s.Append(batch, full);
    if !ok {
      ghost var cut :| IsCut(old(s.records), keep, cut) && s.records == cut + batch[..0];
      assert cut + batch[..0] == cut && FirstOf(old(s.entries), keep) + batch[..0] == FirstOf(old(s.entries), keep);
      CutDisagrees(old(s.records), cut, keep, old(s.entries), s.compacted, s.starts);
    }
  }

  /** Memory cut by position keeps more than disk cut by index. */
  lemma CutDisagrees(
    records: seq<LogRecord>, cut: seq<LogRecord>, keep: nat, entries: seq<LogRecord>, compacted: nat,
    starts: seq<Start>)
    requires IsCut(records, keep, cut) && ConsecutiveFrom(entries, compacted + 1)
    requires 0 < compacted <= keep < compacted + |entries|
    ensures ConsecutiveFrom(FirstOf(entries, keep), compacted + 1)
    ensures !IsValidDisk(cut, starts, FirstOf(entries, keep), compacted)
  {
    var rest := FirstOf(entries, keep);
    hide Segmented, AllFit, Entries;
    LastOfConsecutive(rest, compacted);
    if cut == [] {
      NoEntries();
    } else {
      LastOfEntries(cut);
    }
  }

  method SmallEntry(index: U64, term: U64) returns (e: LogRecord)
    ensures IsEntry(e, index) && e.term == term && SmallEnough(e)
  {
    e := EntryRecord(index, term, 0, []);
  }

  /** Two entries in one segment. */
  method TwoEntries() returns (s: WalStorage, first: LogRecord, second: LogRecord)
    ensures s.Valid() && fresh(s) && s.compacted == 0 && s.entries == s.records == [first, second]
    ensures s.starts == [Start(1, 0)] && s.hardState.commit == 0 && IsEntry(first, 1) && IsEntry(second, 2)
  {
    hide IsValidDisk, SmallEnough, IsCut, RolledAll, ConsecutiveFrom, Above;
    s := new WalStorage();
    first := SmallEntry(1, 1);
    second := SmallEntry(2, 1);
    TwoInOneSegment(first, second);
    ghost var batch := [first, second];
    assert batch[..2] == batch;
    var ok, done := s.Append([first, second], {});
    assert s.records == [] + batch && s.entries == [] + batch;
  }

  /** The first of them compacted. */
  method TwoEntriesOneCompacted() returns (s: WalStorage, first: LogRecord, second: LogRecord)
    ensures s.Valid() && fresh(s) && s.compacted == 1 && s.entries == [second] && s.records == [first, second]
    ensures s.hardState.commit == 0 && IsEntry(first, 1) && IsEntry(second, 2)
  {
    hide IsValidDisk, ConsecutiveFrom, IsGone, Above, WithoutFirst;
    s, first, second := TwoEntries();
    TwoInOneSegment(first, second);
    var ok, gone := s.Compact(1, Some(1), 0, name => 0);
    assert [first, second][0..] == [first, second];
  }

  lemma TwoInOneSegment(first: LogRecord, second: LogRecord)
    requires IsEntry(first, 1) && IsEntry(second, 2)
    ensures ConsecutiveFrom([first, second], 1) && Above([first, second], 1) == [second]
    ensures RolledAll([Start(1, 0)], [first, second], 0, {}) == [Start(1, 0)]
  {
    var batch := [first, second];
    RollNothing([Start(1, 0)], 0, {});
    RollOneMore([Start(1, 0)], batch, 0, 0, {});
    RollOneMore([Start(1, 0)], batch, 1, 0, {});
    assert batch[..0] == [] && batch[..2] == batch;
    AboveIsSuffix(batch, 1, 1);
  }

  /**
   Replacing the second entry, uncommitted, is refused; by then it is gone from disk, and
   memory still has it.
   */
  method OverwriteAfterCompaction() returns (ok: bool, s: WalStorage, first: LogRecord, second: LogRecord)
    ensures !ok && IsEntry(first, 1) && IsEntry(second, 2)
    ensures s.entries == [second] && s.records == [first]
  {
    hide IsValidDisk, SmallEnough, IsCut;
    s, first, second := TwoEntriesOneCompacted();
    var third := SmallEntry(2, 2);
    ok := OverwriteNeedsUncompacted(s, [third], {});
    OneKept(first, second, s.records);
  }

  lemma OneKept(first: LogRecord, second: LogRecord, cut: seq<LogRecord>)
    requires IsEntry(first, 1) && IsEntry(second, 2) && IsCut([first, second], 1, cut)
    ensures cut == [first]
  {
    assert IsEntry([first, second][0], 1);
  }

  lemma NothingKept(e: LogRecord, hs: LogRecord, cut: seq<LogRecord>)
    requires IsEntry(e, 1) && hs.HardStateRecord? && IsCut([e, hs], 0, cut)
    ensures cut == []
  {
  }

  lemma NoHardState(e: LogRecord)
    requires e.EntryRecord?
    ensures HardState([e]) == HardStateRecord(0, None, 0)
  {
  }

  method OneEntry() returns (s: WalStorage, first: LogRecord)
    ensures s.Valid() && fresh(s) && s.compacted == 0 && s.entries == s.records == [first] && IsEntry(first, 1)
    ensures s.starts == [Start(1, 0)]
  {
    hide IsValidDisk, SmallEnough, IsCut, RolledAll;
    s := new WalStorage();
    first := SmallEntry(1, 1);
    RollOne([Start(1, 0)], first, 0, {});
    ghost var batch := [first];
    assert ConsecutiveFrom(batch, 1) && batch[..1] == batch;
    var ok, done := s.Append([first], {});
    assert s.records == [] + batch && s.entries == [] + batch;
  }

  /** A node with one uncommitted entry records a vote. */
  method EntryThenVote() returns (s: WalStorage, first: LogRecord, vote: LogRecord)
    ensures s.Valid() && fresh(s) && s.compacted == 0 && s.entries == [first]
    ensures IsEntry(first, 1) && vote == HardStateRecord(2, Some(3), 0)
    ensures s.hardState == vote && s.records == [first, vote] && s.starts == [Start(1, 0)]
  {
    hide IsValidDisk, ConsecutiveFrom, HardState;
    s, first := OneEntry();
    vote := HardStateRecord(2, Some(3), 0);
    s.SetHardState(vote);
  }

  /** The vote is gone from disk once the entry before it is overwritten, though memory still has it. */
  method OverwriteForgetsVote() returns (s: WalStorage, vote: LogRecord)
    ensures s.hardState == vote == HardStateRecord(2, Some(3), 0)
    ensures HardState(s.records) == HardStateRecord(0, None, 0)
  {
    hide IsValidDisk, SmallEnough, HardState, IsCut, Overwritten, RolledAll;
    var first;
    s, first, vote := EntryThenVote();
    var other := SmallEntry(1, 2);
    var ok, done := s.Append([other], {});
    assert [other][..1] == [other];
    ghost var cut :| IsCut([first, vote], 0, cut) && s.records == cut + [other];
    NothingKept(first, vote, cut);
    assert s.records == [other];
    NoHardState(other);
  }

  /** A first segment with an entry and its hard state, a second with the next: compacting the first forgets both. */
  method CompactionForgetsVote() returns (s: WalStorage, vote: LogRecord)
    ensures s.hardState == vote == HardStateRecord(2, Some(3), 0)
    ensures HardState(s.records) == HardStateRecord(0, None, 0)
  {
    hide IsValidDisk, SmallEnough, HardState, IsCut, Overwritten, RolledAll, IsGone, Above, WithoutFirst;
    var first;
    s, first, vote := EntryThenVote();
    var second := SmallEntry(2, 2);
    RollOne([Start(1, 0)], second, 2, {2});
    var ok, done := s.Append([second], {2});
    assert [second][..1] == [second];
    assert s.records == [first, vote, second] && s.starts == [Start(1, 0), Start(2, 2)];
    ghost var gone;
    ok, gone := s.Compact(1, Some(1), 0, name => 0);
    FirstOfTwoGoes(gone, name => 0);
    assert [first, vote, second][2..] == [second];
    NoHardState(second);
  }

  lemma FirstOfTwoGoes(gone: nat, size: nat -> nat)
    requires gone < 2 && IsGone([Start(1, 0), Start(2, 2)], gone, 1, 0, size)
    ensures gone == 1
  {
    assert MayGo([Start(1, 0), Start(2, 2)], 0, 1, 0, size);
  }
}
