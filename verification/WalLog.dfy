/**
 The log a write-ahead log stands for: consecutive entries in memory, and the records on
 disk that hold them, possibly after compacted ones that were not removed.
 */
module WalLog {
  import opened Base
  import opened WalFormat
  import opened WalRecovery

  // ---- Consecutive entries --------------------------------------------------------

  /** Entries that follow one another from `first` on. */
  ghost predicate ConsecutiveFrom(entries: seq<LogRecord>, first: nat) {
    forall i :: 0 <= i < |entries| ==> entries[i].EntryRecord? && entries[i].index == first + i
  }

  /** The index of the last entry, or of the compaction watermark. */
  function LastIndex(entries: seq<LogRecord>, compacted: nat): nat {
    if entries == [] || !entries[|entries| - 1].EntryRecord? then compacted else entries[|entries| - 1].index
  }

  lemma OneMoreEntry(entries: seq<LogRecord>, first: nat, compacted: nat, e: LogRecord)
    requires ConsecutiveFrom(entries, first) && IsEntry(e, first + |entries|)
    ensures ConsecutiveFrom(entries + [e], first) && LastIndex(entries + [e], compacted) == e.index
  {
  }

  lemma LastOfConsecutive(entries: seq<LogRecord>, compacted: nat)
    requires ConsecutiveFrom(entries, compacted + 1)
    ensures LastIndex(entries, compacted) == compacted + |entries|
  {
  }

  lemma ConsecutiveAt(entries: seq<LogRecord>, first: nat, i: nat)
    requires ConsecutiveFrom(entries, first) && i < |entries|
    ensures IsEntry(entries[i], first + i)
  {
  }

  lemma NotConsecutive(batch: seq<LogRecord>, first: nat, i: nat)
    requires i < |batch| && batch[i].EntryRecord? && batch[i].index != first + i
    ensures !ConsecutiveFrom(batch, first)
  {
  }

  lemma FirstDecides(batch: seq<LogRecord>, first: nat)
    ensures ConsecutiveFrom(batch, first) && batch != [] ==> batch[0].EntryRecord? && batch[0].index == first
  {
  }

  lemma NothingMissing(batch: seq<LogRecord>)
    ensures batch == [] ==> forall first: nat :: ConsecutiveFrom(batch, first)
  {
  }

  /** The first `n` entries, or all of them. */
  function FirstOf(entries: seq<LogRecord>, n: nat): seq<LogRecord> {
    if n <= |entries| then entries[..n] else entries
  }

  /** The log with everything from the batch's first index on replaced by the batch. */
  function Overwritten(entries: seq<LogRecord>, compacted: nat, batch: seq<LogRecord>): seq<LogRecord>
    requires batch != [] && batch[0].EntryRecord?
    requires compacted < batch[0].index <= compacted + 1 + |entries|
  {
    entries[..batch[0].index - compacted - 1] + batch
  }

  /** The entries past index `to`. */
  function Above(entries: seq<LogRecord>, to: nat): seq<LogRecord> {
    if entries == [] then []
    else
      var n := |entries| - 1;
      Above(entries[..n], to) + if entries[n].EntryRecord? && entries[n].index > to then [entries[n]] else []
  }

  /** Of consecutive entries, those are the last ones. */
  lemma {:induction false} AboveIsSuffix(entries: seq<LogRecord>, first: nat, to: nat)
    requires ConsecutiveFrom(entries, first)
    ensures Above(entries, to) ==
            if to < first then entries
            else if to < first + |entries| then entries[to + 1 - first..]
            else []
  {
    if entries != [] {
      var n := |entries| - 1;
      var front := entries[..n];
      ConsecutiveAt(entries, first, n);
      assert ConsecutiveFrom(front, first);
      AboveOneMore(entries, to);
      hide ConsecutiveFrom, Above;
      AboveIsSuffix(front, first, to);
      if to < first {
        assert front + [entries[n]] == entries;
      } else if to < first + n {
        var k := to + 1 - first;
        assert front[k..] + [entries[n]] == entries[k..];
      }
    }
  }

  lemma {:induction false} AboveOneMore(entries: seq<LogRecord>, to: nat)
    requires entries != [] && entries[|entries| - 1].EntryRecord?
    ensures var e, rest := entries[|entries| - 1], Above(entries[..|entries| - 1], to);
            Above(entries, to) == if e.index > to then rest + [e] else rest
  {
    var rest := Above(entries[..|entries| - 1], to);
    assert rest + [] == rest;
  }

  predicate SmallEnough(e: LogRecord)
    requires e.EntryRecord?
  {
    9 + |Payload(e)| <= MAX_RECORD_BYTES
  }

  lemma EntryFits(e: LogRecord)
    requires e.EntryRecord? && SmallEnough(e)
    ensures Fits(e)
  {
  }

  lemma HardStateFits(hs: LogRecord)
    requires hs.HardStateRecord?
    ensures Fits(hs)
  {
  }

  // ---- Records that hold them -----------------------------------------------------

  /** Records on disk hold the log's entries, possibly after compacted ones that were not removed. */
  ghost predicate OnDisk(records: seq<LogRecord>, entries: seq<LogRecord>, compacted: nat)
    requires ConsecutiveFrom(entries, compacted + 1)
  {
    Mirrors(Entries(records), entries, compacted)
  }

  ghost predicate Mirrors(d: seq<LogRecord>, entries: seq<LogRecord>, compacted: nat) {
    && |entries| <= |d| && d[|d| - |entries|..] == entries
    && (d != [] ==> d[0].EntryRecord? && d[0].index >= 1 && ConsecutiveFrom(d, d[0].index))
    && (d != [] ==> d[|d| - 1].EntryRecord? && d[|d| - 1].index == LastIndex(entries, compacted))
  }

  ghost predicate IsEntry(r: LogRecord, index: nat) {
    r.EntryRecord? && r.index == index
  }

  lemma {:induction false} EntryIsOnDisk(records: seq<LogRecord>, k: nat) returns (i: nat)
    requires k < |Entries(records)|
    ensures i < |records| && records[i] == Entries(records)[k]
  {
    var n := |records| - 1;
    if k < |Entries(records[..n])| {
      i := EntryIsOnDisk(records[..n], k);
    } else {
      i := n;
    }
  }

  lemma {:induction false} EntryIsListed(records: seq<LogRecord>, k: nat)
    requires k < |records| && records[k].EntryRecord?
    ensures records[k] in Entries(records)
  {
    var n := |records| - 1;
    if k < n {
      EntryIsListed(records[..n], k);
    }
  }

  lemma {:induction false} LastOfEntries(records: seq<LogRecord>)
    requires records != [] && records[|records| - 1].EntryRecord?
    ensures Entries(records) != [] && Entries(records)[|Entries(records)| - 1] == records[|records| - 1]
  {
  }

  lemma {:induction false} EntriesOnDisk(records: seq<LogRecord>, entries: seq<LogRecord>)
    requires ConsecutiveFrom(entries, 1) && OnDisk(records, entries, 0)
    ensures Entries(records) == entries && Contiguous(entries)
  {
    hide Entries;
  }

  lemma HardStateReachesDisk(records: seq<LogRecord>, entries: seq<LogRecord>, compacted: nat, hs: LogRecord)
    requires ConsecutiveFrom(entries, compacted + 1) && OnDisk(records, entries, compacted)
    requires hs.HardStateRecord?
    ensures OnDisk(records + [hs], entries, compacted)
  {
    OneRecordMore(records, hs);
    hide Entries;
    assert Entries(records) + [] == Entries(records);
  }

  lemma EntryReachesDisk(records: seq<LogRecord>, entries: seq<LogRecord>, compacted: nat, e: LogRecord)
    requires ConsecutiveFrom(entries, compacted + 1) && OnDisk(records, entries, compacted)
    requires IsEntry(e, LastIndex(entries, compacted) + 1)
    ensures ConsecutiveFrom(entries + [e], compacted + 1)
    ensures OnDisk(records + [e], entries + [e], compacted)
  {
    LastOfConsecutive(entries, compacted);
    OneMoreEntry(entries, compacted + 1, compacted, e);
    OneRecordMore(records, e);
    hide Entries, ConsecutiveFrom, Mirrors;
    MirrorsOneMore(Entries(records), entries, compacted, e);
  }

  lemma MirrorsOneMore(d: seq<LogRecord>, entries: seq<LogRecord>, compacted: nat, e: LogRecord)
    requires Mirrors(d, entries, compacted) && IsEntry(e, LastIndex(entries, compacted) + 1)
    ensures Mirrors(d + [e], entries + [e], compacted)
  {
    hide ConsecutiveFrom;
    SuffixOneMore(d, entries, e);
    if d == [] {
      NothingMissing(d);
      OneMoreEntry(d, e.index, 0, e);
    } else {
      ConsecutiveAt(d, d[0].index, |d| - 1);
      OneMoreEntry(d, d[0].index, 0, e);
    }
  }

  lemma SuffixOneMore<T>(d: seq<T>, s: seq<T>, e: T)
    requires |s| <= |d| && d[|d| - |s|..] == s
    ensures (d + [e])[|d| - |s|..] == s + [e]
  {
    assert (d + [e])[|d| - |s|..] == d[|d| - |s|..] + [e];
  }

  lemma {:induction false} BatchReachesDisk(
    records: seq<LogRecord>, entries: seq<LogRecord>, compacted: nat, batch: seq<LogRecord>, n: nat)
    requires n <= |batch| && ConsecutiveFrom(entries, compacted + 1)
    requires OnDisk(records, entries, compacted) && AllFit(records)
    requires ConsecutiveFrom(batch[..n], LastIndex(entries, compacted) + 1)
    requires forall i :: 0 <= i < n ==> batch[i].EntryRecord? && SmallEnough(batch[i])
    ensures ConsecutiveFrom(entries + batch[..n], compacted + 1)
    ensures OnDisk(records + batch[..n], entries + batch[..n], compacted) && AllFit(records + batch[..n])
    ensures LastIndex(entries + batch[..n], compacted) == LastIndex(entries, compacted) + n
  {
    hide OnDisk, Fits, SmallEnough;
    if n == 0 {
      assert entries + batch[..0] == entries && records + batch[..0] == records;
    } else {
      var e, start := batch[n - 1], LastIndex(entries, compacted);
      ConsecutiveAt(batch[..n], start + 1, n - 1);
      assert batch[..n][..n - 1] == batch[..n - 1];
      BatchReachesDisk(records, entries, compacted, batch, n - 1);
      var es, rs := entries + batch[..n - 1], records + batch[..n - 1];
      EntryFits(e);
      EntryReachesDisk(rs, es, compacted, e);
      assert entries + batch[..n] == es + [e] && records + batch[..n] == rs + [e];
    }
  }

  ghost predicate BoundedBy(records: seq<LogRecord>, last: nat) {
    forall k :: 0 <= k < |records| && records[k].EntryRecord? ==> records[k].index <= last
  }

  /** No entry on disk is past the last of the log. */
  lemma DiskIsBounded(records: seq<LogRecord>, entries: seq<LogRecord>, compacted: nat)
    requires ConsecutiveFrom(entries, compacted + 1) && OnDisk(records, entries, compacted)
    ensures BoundedBy(records, LastIndex(entries, compacted))
  {
    hide Entries;
    var d := Entries(records);
    forall k | 0 <= k < |records| && records[k].EntryRecord?
      ensures records[k].index <= LastIndex(entries, compacted)
    {
      EntryIsListed(records, k);
      var i :| 0 <= i < |d| && d[i] == records[k];
      ConsecutiveAt(d, d[0].index, i);
      ConsecutiveAt(d, d[0].index, |d| - 1);
    }
  }

  // ---- Cutting the records back ---------------------------------------------------

  /** The records up to and including entry `keep`; none if it is not there. */
  ghost predicate IsCut(records: seq<LogRecord>, keep: nat, cut: seq<LogRecord>) {
    || (cut == [] && forall i :: 0 <= i < |records| ==> !IsEntry(records[i], keep))
    || (cut != [] && cut <= records && IsEntry(cut[|cut| - 1], keep))
  }

  method CutAfter(records: seq<LogRecord>, keep: nat) returns (cut: seq<LogRecord>)
    ensures IsCut(records, keep, cut)
  {
    for i := 0 to |records|
      invariant forall k :: 0 <= k < i ==> !IsEntry(records[k], keep)
    {
      if records[i].EntryRecord? && records[i].index == keep {
        return records[..i + 1];
      }
    }
    return [];
  }

  /** Cutting after entry `keep` leaves exactly the entries up to it. */
  lemma {:induction false} CutEntries(records: seq<LogRecord>, entries: seq<LogRecord>, keep: nat, cut: seq<LogRecord>)
    requires ConsecutiveFrom(entries, 1) && OnDisk(records, entries, 0)
    requires keep <= |entries| && IsCut(records, keep, cut)
    ensures Entries(cut) == entries[..keep] && OnDisk(cut, entries[..keep], 0)
  {
    EntriesOnDisk(records, entries);
    hide Entries, OnDisk, Contiguous;
    if cut == [] {
      NoEntries();
      if keep > 0 {
        var i := EntryIsOnDisk(records, keep - 1);
      }
    } else {
      var rest := records[|cut|..];
      assert records == cut + rest;
      EntriesInOrder(cut, rest);
      LastOfEntries(cut);
      PrefixUpTo(Entries(cut), Entries(rest), keep);
    }
    PrefixOnDisk(cut, entries, keep);
  }

  lemma PrefixUpTo(a: seq<LogRecord>, b: seq<LogRecord>, keep: nat)
    requires ConsecutiveFrom(a + b, 1) && a != [] && a[|a| - 1].EntryRecord? && a[|a| - 1].index == keep
    ensures keep <= |a + b| && a == (a + b)[..keep]
  {
    assert (a + b)[|a| - 1] == a[|a| - 1];
  }

  lemma {:induction false} PrefixOnDisk(cut: seq<LogRecord>, entries: seq<LogRecord>, keep: nat)
    requires ConsecutiveFrom(entries, 1) && keep <= |entries| && Entries(cut) == entries[..keep]
    ensures OnDisk(cut, entries[..keep], 0)
  {
    hide Entries;
  }

  lemma NoEntries()
    ensures Entries([]) == []
  {
  }

  // ---- Removing old records -------------------------------------------------------

  /** Removing old records and old entries together keeps memory and disk in agreement. */
  lemma CompactedOnDisk(records: seq<LogRecord>, entries: seq<LogRecord>, compacted: nat, to: nat, removed: nat)
    requires ConsecutiveFrom(entries, compacted + 1) && OnDisk(records, entries, compacted)
    requires compacted <= to <= compacted + |entries| && removed <= |records|
    requires forall i :: 0 <= i < removed && records[i].EntryRecord? ==> records[i].index <= to
    ensures ConsecutiveFrom(entries[to - compacted..], to + 1)
    ensures OnDisk(records[removed..], entries[to - compacted..], to)
  {
    hide Entries;
    var a, b := records[..removed], records[removed..];
    var p, q, rest := Entries(a), Entries(b), entries[to - compacted..];
    assert records == a + b;
    EntriesInOrder(a, b);
    RemovedEntries(records, removed, to);
    hide ConsecutiveFrom;
    LastOfConsecutive(entries, compacted);
    LaterEntries(entries, compacted, to);
    LastOfConsecutive(rest, to);
    if p + q != [] {
      EnoughStay(p, q, entries, compacted, to);
      SuffixOfSuffix(p, q, entries, to - compacted);
      StaysConsecutive(p, q);
    }
  }

  lemma LaterEntries(entries: seq<LogRecord>, compacted: nat, to: nat)
    requires ConsecutiveFrom(entries, compacted + 1) && compacted <= to <= compacted + |entries|
    ensures ConsecutiveFrom(entries[to - compacted..], to + 1)
  {
  }

  lemma RemovedEntries(records: seq<LogRecord>, removed: nat, to: nat)
    requires removed <= |records|
    requires forall i :: 0 <= i < removed && records[i].EntryRecord? ==> records[i].index <= to
    ensures forall k :: 0 <= k < |Entries(records[..removed])| ==> Entries(records[..removed])[k].index <= to
  {
    hide Entries;
    var a := records[..removed];
    forall k | 0 <= k < |Entries(a)|
      ensures Entries(a)[k].index <= to
    {
      var i := EntryIsOnDisk(a, k);
      assert records[i] == a[i];
    }
  }

  /** Of consecutive entries, those above `to` come after those up to it. */
  lemma EnoughStay(p: seq<LogRecord>, q: seq<LogRecord>, entries: seq<LogRecord>, compacted: nat, to: nat)
    requires p + q != [] && (p + q)[0].EntryRecord? && ConsecutiveFrom(p + q, (p + q)[0].index)
    requires |entries| <= |p + q| && (p + q)[|p + q| - 1].index == compacted + |entries|
    requires compacted <= to <= compacted + |entries|
    requires forall k :: 0 <= k < |p| ==> p[k].EntryRecord? && p[k].index <= to
    ensures compacted + |entries| - to <= |q|
  {
    if p != [] {
      assert (p + q)[|p| - 1] == p[|p| - 1];
    }
  }

  lemma SuffixOfSuffix<T>(p: seq<T>, q: seq<T>, s: seq<T>, n: nat)
    requires |s| <= |p + q| && (p + q)[|p + q| - |s|..] == s
    requires n <= |s| && |s| - n <= |q|
    ensures q[|q| - (|s| - n)..] == s[n..]
  {
    var d := p + q;
    assert s[n..] == d[|d| - |s|..][n..];
    assert d[|d| - |s|..][n..] == d[|d| - (|s| - n)..];
    assert q[|q| - (|s| - n)..] == d[|d| - (|s| - n)..];
  }

  lemma StaysConsecutive(p: seq<LogRecord>, q: seq<LogRecord>)
    requires p + q != [] && (p + q)[0].EntryRecord? && ConsecutiveFrom(p + q, (p + q)[0].index)
    ensures q != [] ==> q[0].EntryRecord? && q[0].index == (p + q)[0].index + |p|
    ensures q != [] ==> ConsecutiveFrom(q, q[0].index) && q[|q| - 1] == (p + q)[|p + q| - 1]
  {
    forall i | 0 <= i < |q|
      ensures q[i].EntryRecord? && q[i].index == (p + q)[0].index + |p| + i
    {
      assert q[i] == (p + q)[|p| + i];
    }
  }

  // ---- Hard states on disk --------------------------------------------------------

  ghost predicate HasHardState(records: seq<LogRecord>) {
    exists i :: 0 <= i < |records| && records[i].HardStateRecord?
  }

  lemma {:induction false} HardStateOfParts(a: seq<LogRecord>, b: seq<LogRecord>)
    ensures HardState(a + b) == if HasHardState(b) then HardState(b) else HardState(a)
  {
    if b == [] {
      assert a + b == a;
    } else {
      var n := |b| - 1;
      HardStateOfParts(a, b[..n]);
      assert (a + b)[..|a| + n] == a + b[..n];
      assert HasHardState(b) <==> b[n].HardStateRecord? || HasHardState(b[..n]) by {
        if i :| 0 <= i < n && b[i].HardStateRecord? {
          assert b[..n][i].HardStateRecord?;
        }
      }
      hide HasHardState;
    }
  }

  /**
   The hard state on disk after entries are overwritten: the cut takes with it every
   hard state written after the last entry kept. It stays what it was exactly when
   none was written there, or the last one there repeats the last one before.
   */
  lemma {:induction false} OverwriteKeepsHardStateIff(
    records: seq<LogRecord>, cut: seq<LogRecord>, batch: seq<LogRecord>)
    requires cut <= records && forall i :: 0 <= i < |batch| ==> batch[i].EntryRecord?
    ensures var dropped := records[|cut|..];
            HardState(cut + batch) == HardState(records) <==>
            (HasHardState(dropped) ==> HardState(dropped) == HardState(cut))
  {
    var dropped := records[|cut|..];
    assert records == cut + dropped;
    HardStateOfParts(cut, dropped);
    HardStateOfParts(cut, batch);
  }

  /**
   Compaction removes records too: the hard state on disk stays exactly when one is left
   among the records kept, or there never was one but the initial.
   */
  lemma {:induction false} CompactionKeepsHardStateIff(records: seq<LogRecord>, removed: nat)
    requires removed <= |records|
    ensures HardState(records[removed..]) == HardState(records) <==>
            HasHardState(records[removed..]) || HardState(records) == HardStateRecord(0, None, 0)
  {
    var a, b := records[..removed], records[removed..];
    assert records == a + b;
    HardStateOfParts(a, b);
    if !HasHardState(b) {
      InitialHardState(b);
    }
  }

  lemma {:induction false} InitialHardState(records: seq<LogRecord>)
    requires !HasHardState(records)
    ensures HardState(records) == HardStateRecord(0, None, 0)
  {
    if records != [] {
      var n := |records| - 1;
      assert !records[n].HardStateRecord?;
      assert forall i :: 0 <= i < n ==> records[..n][i] == records[i];
      InitialHardState(records[..n]);
    }
  }
}
