/**
 The fsync ledger: which log indices have been flushed, judged from the recorded
 segment ranges.
 */
module FsyncLedger {
  import opened Base
  import opened Sorting

  datatype FsyncEvent = FsyncEvent(seqNo: nat, first: U64, through: U64)

  /** Index `i` lies in one of the recorded ranges. */
  ghost predicate Covered(events: seq<FsyncEvent>, i: int) {
    exists e :: e in events && e.first <= i <= e.through
  }

  /** One flush covers exactly its own range, and flushes together cover what either covers. */
  lemma CoverageAdds(e: FsyncEvent, a: seq<FsyncEvent>, b: seq<FsyncEvent>, i: int)
    ensures !Covered([], i)
    ensures Covered([e], i) <==> e.first <= i && i <= e.through
    ensures Covered(a + b, i) <==> Covered(a, i) || Covered(b, i)
  {
    assert e in [e];
    if Covered(a, i) {
      var x :| x in a && x.first <= i <= x.through;
      assert x in a + b;
    }
    if Covered(b, i) {
      var x :| x in b && x.first <= i <= x.through;
      assert x in a + b;
    }
  }

  ghost predicate InRanges(ranges: seq<(U64, U64)>, i: int) {
    exists r :: r in ranges && r.0 <= i <= r.1
  }

  predicate RangeAtMost(a: (U64, U64), b: (U64, U64)) {
    a.0 < b.0 || (a.0 == b.0 && a.1 <= b.1)
  }

  /** The lists hold the same non-empty ranges. */
  ghost predicate SameRanges(events: seq<FsyncEvent>, ranges: seq<(U64, U64)>) {
    && (forall r :: r in ranges ==> exists e :: e in events && r == (e.first, e.through) && e.first <= e.through)
    && (forall e :: e in events && e.first <= e.through ==> (e.first, e.through) in ranges)
  }

  /** `saturating_add(1)`. */
  function SaturatingNext(n: U64): U64 {
    if n == U64_MAX then U64_MAX else n + 1
  }

  /** Walk over ranges sorted by start, and decide whether they cover `[first, last]`. */
  method Sweep(ranges: seq<(U64, U64)>, first: U64, last: U64) returns (covers: bool)
    requires Sorted(RangeAtMost, ranges) && first <= last
    ensures covers <==> forall i :: first <= i <= last ==> InRanges(ranges, i)
  {
    var pos := first;
    for k := 0 to |ranges|
      invariant first <= pos <= last
      invariant forall i :: first <= i < pos ==> InRanges(ranges, i)
      invariant forall j :: 0 <= j < k ==> ranges[j].1 < pos
    {
      var (start, end) := ranges[k];
      if end < pos {
        continue;
      }
      if start > pos {
        assert forall j :: k < j < |ranges| ==> RangeAtMost(ranges[k], ranges[j]);
        assert !InRanges(ranges, pos);
        return false;
      }
      assert ranges[k] in ranges;
      if end >= last {
        return true;
      }
      // The range ends below `last`, so adding one does not saturate.
      assert SaturatingNext(end) == end + 1;
      pos := SaturatingNext(end);
    }
    assert !InRanges(ranges, pos);
    covers := pos > last;
  }

  lemma RangeOrderIsTotal()
    ensures TotalPreorder(RangeAtMost)
  {
  }

  class Ledger {
    var events: seq<FsyncEvent>

    constructor ()
      ensures events == []
    {
      events := [];
    }

    method OnSegmentFsynced(first: U64, through: U64)
      modifies this
      ensures events == old(events) + [FsyncEvent(|old(events)| + 1, first, through)]
      ensures forall i :: Covered(events, i) <==> old(Covered(events, i)) || first <= i <= through
    {
      ghost var before := events;
      events := events + [FsyncEvent(|events| + 1, first, through)];
      forall i
        ensures Covered(events, i) <==> Covered(before, i) || first <= i <= through
      {
        assert events[|before|] in events;
        assert forall e :: e in before ==> e in events;
      }
    }

    /** Whether every index of `[first, last]` has been flushed. */
    method UnionCovers(first: U64, last: U64) returns (covers: bool)
      ensures covers <==> forall i :: first <= i <= last ==> Covered(events, i)
    {
      if first > last {
        return true;
      }
      var ranges: seq<(U64, U64)> := [];
      for k := 0 to |events|
        invariant SameRanges(events[..k], ranges)
      {
        var e := events[k];
        assert events[..k + 1] == events[..k] + [e];
        if e.through < e.first {
          continue;
        }
        ranges := ranges + [(e.first, e.through)];
      }
      assert events[..|events|] == events;
      var sorted := SortBy(RangeAtMost, ranges);
      RangeOrderIsTotal();
      SortIsSorted(RangeAtMost, ranges);
      MultisetMembers(sorted, ranges);
      covers := Sweep(sorted, first, last);
      forall i: int
        ensures Covered(events, i) <==> InRanges(sorted, i)
      {
        if Covered(events, i) {
          var e :| e in events && e.first <= i <= e.through;
          assert (e.first, e.through) in sorted;
        }
      }
    }
  }
}
