/**
 The checker's entry point on a reduced history, and the greedy shrinking of a
 violation to a smaller witness.
 */
module LinearizabilityCheck {
  import opened OracleModel
  import opened Linearizability
  import opened LinearizabilitySearch
  import Sorting

  const MAX_CHECK_POINTS := 12

  datatype CheckOutcome = Linearizable | Violation(calls: seq<nat>) | Inconclusive(points: nat)

  predicate IsPoint(op: LogOp) {
    op.IsLinearizationPoint() || op.IsOptionalWritePoint()
  }

  function KindOf(op: LogOp): PointKind {
    if op.IsLinearizationPoint() then Required else Optional
  }

  function ProblemOf(pts: seq<LogOp>): (p: Problem)
    ensures p.Valid()
  {
    Problem(pts, seq(|pts|, k requires 0 <= k < |pts| => KindOf(pts[k])))
  }

  // ---- Selecting operations by index ---------------------------------------

  /** The positions below `n` whose operation passes `keep`, ascending. */
  function IndicesWhere(ops: seq<LogOp>, keep: LogOp -> bool, n: nat): (r: seq<nat>)
    requires n <= |ops|
    ensures forall k :: 0 <= k < |r| ==> r[k] < n && keep(ops[r[k]])
    ensures forall i: nat :: i < n && keep(ops[i]) ==> i in r
    ensures Ascending(r)
  {
    if n == 0 then []
    else if keep(ops[n - 1]) then IndicesWhere(ops, keep, n - 1) + [n - 1]
    else IndicesWhere(ops, keep, n - 1)
  }

  predicate Ascending(s: seq<nat>) {
    forall k, l :: 0 <= k < l < |s| ==> s[k] < s[l]
  }

  ghost predicate SelectsFrom(ops: seq<LogOp>, s: seq<nat>) {
    Ascending(s) && forall k :: 0 <= k < |s| ==> s[k] < |ops|
  }

  /** The linearization points of a reduced history, in its order. */
  function PointsOf(ops: seq<LogOp>): seq<LogOp> {
    Select(ops, IndicesWhere(ops, IsPoint, |ops|))
  }

  ghost predicate ValidIntervals(ops: seq<LogOp>) {
    forall i :: 0 <= i < |ops| ==> ops[i].ValidInterval()
  }

  /** The reference verdict on a reduced history, whatever its size. */
  ghost predicate HistoryLinearizable(ops: seq<LogOp>, initial: KvState) {
    Linearizability.Linearizable(ProblemOf(PointsOf(ops)), initial)
  }

  /** The search's verdict on the operations a list selects. */
  ghost function Verdict(ops: seq<LogOp>, initial: KvState): seq<nat> -> bool {
    (s: seq<nat>) => SelectsFrom(ops, s) && CanFinish(ProblemOf(Select(ops, s)), {}, initial)
  }

  /** On histories whose operations do not complete before they start, the search decides linearizability. */
  lemma {:induction false} VerdictIsReference(ops: seq<LogOp>, initial: KvState)
    requires ValidIntervals(ops)
    ensures CanFinish(ProblemOf(PointsOf(ops)), {}, initial) <==> HistoryLinearizable(ops, initial)
  {
    var p := ProblemOf(PointsOf(ops));
    assert p.ValidIntervals();
    ResolvableIffLinearizable(p, initial);
  }

  // ---- Shrinking a violation -----------------------------------------------

  function Without(s: seq<nat>, i: nat): (r: seq<nat>)
    requires i < |s|
    ensures |r| == |s| - 1
    ensures Ascending(s) ==> Ascending(r)
    ensures forall k :: 0 <= k < |r| ==> r[k] == if k < i then s[k] else s[k + 1]
  {
    s[..i] + s[i + 1..]
  }

  /** The points left after trying to drop each one in turn. */
  ghost function GreedyKeep(passes: seq<nat> -> bool, keep: seq<nat>, i: nat): (kept: seq<nat>)
    requires i <= |keep|
    ensures Ascending(keep) ==> Ascending(kept)
    ensures Sublist(kept, keep)
    decreases |keep| - i
  {
    if i == |keep| then keep
    else if passes(Without(keep, i)) then GreedyKeep(passes, keep, i + 1)
    else GreedyKeep(passes, Without(keep, i), i)
  }

  ghost predicate Sublist(a: seq<nat>, b: seq<nat>) {
    forall x :: x in a ==> x in b
  }

  function CallsOf(ops: seq<LogOp>, s: seq<nat>): seq<nat>
    requires forall k :: 0 <= k < |s| ==> s[k] < |ops|
  {
    if s == [] then [] else ops[s[0]].calls + CallsOf(ops, s[1..])
  }

  function KindsAt(ops: seq<LogOp>, s: seq<nat>): (kinds: seq<PointKind>)
    requires forall k :: 0 <= k < |s| ==> s[k] < |ops|
    ensures ProblemOf(Select(ops, s)) == Problem(Select(ops, s), kinds)
  {
    seq(|s|, k requires 0 <= k < |s| => KindOf(ops[s[k]]))
  }

  /** The points a violation over `points` is shrunk to. */
  ghost function Kept(ops: seq<LogOp>, initial: KvState, points: seq<nat>): (kept: seq<nat>)
    requires SelectsFrom(ops, points)
    ensures SelectsFrom(ops, kept)
  {
    var kept := GreedyKeep(Verdict(ops, initial), points, 0);
    assert forall k :: 0 <= k < |kept| ==> kept[k] in kept;
    kept
  }

  lemma GreedyStep(passes: seq<nat> -> bool, keep: seq<nat>, i: nat)
    requires i < |keep|
    ensures GreedyKeep(passes, keep, i) ==
            if passes(Without(keep, i)) then GreedyKeep(passes, keep, i + 1)
            else GreedyKeep(passes, Without(keep, i), i)
  {
  }

  lemma {:induction false} GreedyEnd(passes: seq<nat> -> bool, keep: seq<nat>)
    ensures GreedyKeep(passes, keep, |keep|) == keep
  {
  }

  method ShrinkWitness(ops: seq<LogOp>, initial: KvState, points: seq<nat>) returns (calls: seq<nat>)
    requires SelectsFrom(ops, points)
    ensures calls == CallsOf(ops, Kept(ops, initial, points))
  {
    hide GreedyKeep, CanFinish, CallsOf;
    var keep := points;
    var i := 0;
    ghost var passes := Verdict(ops, initial);
    while i < |keep|
      invariant i <= |keep| && SelectsFrom(ops, keep)
      invariant GreedyKeep(passes, keep, i) == GreedyKeep(passes, points, 0)
      decreases |keep| - i
    {
      var trial := Without(keep, i);
      var ok := Search(ops, trial, KindsAt(ops, trial), initial);
      assert ok == passes(trial);
      GreedyStep(passes, keep, i);
      if ok {
        i := i + 1;
      } else {
        keep := trial;
      }
    }
    GreedyEnd(passes, keep);
    calls := CallsOf(ops, keep);
  }

  /** Dropping points one at a time never loses the violation. */
  lemma {:induction false} GreedyKeepStillFails(passes: seq<nat> -> bool, keep: seq<nat>, i: nat)
    requires i <= |keep| && !passes(keep)
    ensures !passes(GreedyKeep(passes, keep, i))
    decreases |keep| - i
  {
    if i == |keep| {
    } else if passes(Without(keep, i)) {
      GreedyKeepStillFails(passes, keep, i + 1);
    } else {
      GreedyKeepStillFails(passes, Without(keep, i), i);
    }
  }

  /**
   Decide a reduced history, unless it has too many points. Under the size cap
   the verdict is the reference one as soon as no operation completes before it
   starts; a violation comes with the calls of a sub-history that still fails.
   */
  method CheckReduced(ops: seq<LogOp>, initial: KvState) returns (outcome: CheckOutcome)
    ensures outcome.Inconclusive? <==> |PointsOf(ops)| > MAX_CHECK_POINTS
    ensures outcome.Inconclusive? ==> outcome.points == |PointsOf(ops)|
    ensures outcome.Linearizable? <==>
              |PointsOf(ops)| <= MAX_CHECK_POINTS && CanFinish(ProblemOf(PointsOf(ops)), {}, initial)
    ensures ValidIntervals(ops) && |PointsOf(ops)| <= MAX_CHECK_POINTS ==>
              (outcome.Linearizable? <==> HistoryLinearizable(ops, initial))
    ensures outcome.Violation? ==>
              var points := IndicesWhere(ops, IsPoint, |ops|);
              !Verdict(ops, initial)(points) && outcome.calls == CallsOf(ops, Kept(ops, initial, points))
  {
    var points := IndicesWhere(ops, IsPoint, |ops|);
    if ValidIntervals(ops) {
      VerdictIsReference(ops, initial);
    }
    if points == [] {
      return Linearizable;
    }
    if |points| > MAX_CHECK_POINTS {
      return Inconclusive(|points|);
    }
    var ok := Search(ops, points, KindsAt(ops, points), initial);
    if ok {
      outcome := Linearizable;
    } else {
      var calls := ShrinkWitness(ops, initial, points);
      outcome := Violation(calls);
    }
  }

  // ---- What a witness is good for -------------------------------------------

  /** Dropping `x` from the failing selection `sup` makes it pass. */
  ghost predicate NeededIn(passes: seq<nat> -> bool, sup: seq<nat>, x: nat) {
    && !passes(sup)
    && exists k :: 0 <= k < |sup| && sup[k] == x && passes(Without(sup, k))
  }

  /** At some point, with all of `kept` still there, dropping `x` would have made the history pass. */
  ghost predicate WasNeeded(passes: seq<nat> -> bool, kept: seq<nat>, x: nat) {
    exists sup :: Sublist(kept, sup) && NeededIn(passes, sup, x)
  }

  /** Every point past position `i` that survives was needed when it was tried. */
  lemma {:induction false} GreedyKeepWasNeeded(passes: seq<nat> -> bool, keep: seq<nat>, i: nat, x: nat)
    requires i <= |keep| && !passes(keep)
    requires x in GreedyKeep(passes, keep, i) && x !in keep[..i]
    ensures WasNeeded(passes, GreedyKeep(passes, keep, i), x)
    decreases |keep| - i
  {
    assert keep[..|keep|] == keep;
    if i == |keep| {
      GreedyEnd(passes, keep);
    } else {
      GreedyStep(passes, keep, i);
      hide GreedyKeep, WasNeeded;
      if !passes(Without(keep, i)) {
        assert Without(keep, i)[..i] == keep[..i];
        GreedyKeepWasNeeded(passes, Without(keep, i), i, x);
      } else if x != keep[i] {
        assert keep[..i + 1] == keep[..i] + [keep[i]];
        GreedyKeepWasNeeded(passes, keep, i + 1, x);
      } else {
        NeededNow(passes, keep, i);
      }
    }
  }

  lemma {:induction false} NeededNow(passes: seq<nat> -> bool, keep: seq<nat>, i: nat)
    requires i < |keep| && !passes(keep) && passes(Without(keep, i))
    ensures WasNeeded(passes, GreedyKeep(passes, keep, i), keep[i])
  {
    assert NeededIn(passes, keep, keep[i]);
  }

  predicate Touches(op: LogOp, calls: seq<nat>) {
    exists c :: c in op.calls && c in calls
  }

  /** The operations that own one of the given calls. */
  function SubHistory(ops: seq<LogOp>, calls: seq<nat>): seq<LogOp> {
    Select(ops, IndicesWhere(ops, op => Touches(op, calls), |ops|))
  }

  /** Every operation has a call of its own and shares none. */
  ghost predicate DisjointCalls(ops: seq<LogOp>) {
    && (forall i :: 0 <= i < |ops| ==> ops[i].calls != [])
    && (forall i, j, c :: 0 <= i < |ops| && 0 <= j < |ops| && c in ops[i].calls && c in ops[j].calls ==> i == j)
  }

  lemma {:induction false} CallsOfMembers(ops: seq<LogOp>, s: seq<nat>, c: nat)
    requires forall k :: 0 <= k < |s| ==> s[k] < |ops|
    ensures c in CallsOf(ops, s) <==> exists i :: i in s && c in ops[i].calls
  {
    if s != [] {
      CallsOfMembers(ops, s[1..], c);
      assert s == [s[0]] + s[1..];
    }
  }

  lemma AscendingIsUnique(a: seq<nat>, b: seq<nat>)
    requires Ascending(a) && Ascending(b)
    requires forall x :: x in a <==> x in b
    ensures a == b
  {
    Sorting.StrictlySortedIsUnique((x: nat, y: nat) => x < y, a, b);
  }

  lemma {:induction false} AllKept(ops: seq<LogOp>, keep: LogOp -> bool, n: nat)
    requires n <= |ops| && forall i :: 0 <= i < n ==> keep(ops[i])
    ensures |IndicesWhere(ops, keep, n)| == n
    ensures forall i :: 0 <= i < n ==> IndicesWhere(ops, keep, n)[i] == i
  {
    if n > 0 {
      AllKept(ops, keep, n - 1);
    }
  }

  /** The calls of selected operations name exactly those operations. */
  lemma {:induction false} SubHistoryOfCalls(ops: seq<LogOp>, s: seq<nat>)
    requires SelectsFrom(ops, s) && DisjointCalls(ops)
    ensures SubHistory(ops, CallsOf(ops, s)) == Select(ops, s)
  {
    var calls := CallsOf(ops, s);
    var keep := (op: LogOp) => Touches(op, calls);
    var r := IndicesWhere(ops, keep, |ops|);
    forall x: nat
      ensures x in s <==> x in r
    {
      if x < |ops| {
        assert Touches(ops[x], calls) <==> x in s by {
          var c := ops[x].calls[0];
          forall d | d in ops[x].calls
            ensures d in calls <==> x in s
          {
            CallsOfMembers(ops, s, d);
          }
          assert c in ops[x].calls;
        }
      }
    }
    AscendingIsUnique(s, r);
  }

  lemma NothingPasses(ops: seq<LogOp>, initial: KvState)
    ensures Verdict(ops, initial)([])
  {
  }

  /** What shrinking keeps is a non-empty selection of points that still fails, each needed when it was tried. */
  lemma {:induction false} KeptStillFails(ops: seq<LogOp>, initial: KvState, points: seq<nat>)
    requires SelectsFrom(ops, points) && !Verdict(ops, initial)(points)
    ensures var kept := Kept(ops, initial, points);
            && kept != [] && Sublist(kept, points) && |kept| <= |points|
            && !CanFinish(ProblemOf(Select(ops, kept)), {}, initial)
            && forall x :: x in kept ==> WasNeeded(Verdict(ops, initial), kept, x)
  {
    var passes := Verdict(ops, initial);
    var kept := Kept(ops, initial, points);
    NothingPasses(ops, initial);
    hide CanFinish, GreedyKeep, WasNeeded;
    GreedyKeepStillFails(passes, points, 0);
    SublistIsShorter(kept, points);
    forall x | x in kept
      ensures WasNeeded(passes, kept, x)
    {
      GreedyKeepWasNeeded(passes, points, 0, x);
    }
  }

  /**
   A reported witness replays: re-checking just the operations it names, which
   are at most as many points as before, is a violation again.
   */
  lemma {:induction false} WitnessReplays(ops: seq<LogOp>, initial: KvState)
    requires DisjointCalls(ops)
    requires !Verdict(ops, initial)(IndicesWhere(ops, IsPoint, |ops|))
    ensures var calls := CallsOf(ops, Kept(ops, initial, IndicesWhere(ops, IsPoint, |ops|)));
            var sub := SubHistory(ops, calls);
            && calls != []
            && PointsOf(sub) == sub
            && |sub| <= |PointsOf(ops)|
            && !CanFinish(ProblemOf(PointsOf(sub)), {}, initial)
  {
    var points := IndicesWhere(ops, IsPoint, |ops|);
    var kept := Kept(ops, initial, points);
    KeptStillFails(ops, initial, points);
    SubHistoryOfCalls(ops, kept);
    assert ops[kept[0]].calls != [];
    SelectionOfPoints(ops, kept);
  }

  lemma {:induction false} SelectionOfPoints(ops: seq<LogOp>, s: seq<nat>)
    requires SelectsFrom(ops, s) && Sublist(s, IndicesWhere(ops, IsPoint, |ops|))
    ensures PointsOf(Select(ops, s)) == Select(ops, s)
  {
    var sub := Select(ops, s);
    forall k | 0 <= k < |s|
      ensures IsPoint(sub[k])
    {
      assert s[k] in s;
    }
    AllKept(sub, IsPoint, |sub|);
  }

  lemma {:induction false} SublistIsShorter(a: seq<nat>, b: seq<nat>)
    requires Ascending(a) && Sublist(a, b)
    ensures |a| <= |b|
  {
    if a != [] {
      var n := |a| - 1;
      assert a[n] in b;
      var k :| 0 <= k < |b| && b[k] == a[n];
      var b' := b[..k] + b[k + 1..];
      forall x | x in a[..n]
        ensures x in b'
      {
        var i :| 0 <= i < n && a[i] == x;
        assert x in a && x < a[n];
        var j :| 0 <= j < |b| && b[j] == x;
        assert x == if j < k then b'[j] else b'[j - 1];
      }
      SublistIsShorter(a[..n], b');
    }
  }

  // ---- Optional writes never hurt --------------------------------------------

  function FilterPoints(ops: seq<LogOp>): seq<LogOp> {
    if ops == [] then []
    else FilterPoints(ops[..|ops| - 1]) + if IsPoint(ops[|ops| - 1]) then [ops[|ops| - 1]] else []
  }

  lemma {:induction false} PointsUpTo(ops: seq<LogOp>, n: nat)
    requires n <= |ops|
    ensures Select(ops, IndicesWhere(ops, IsPoint, n)) == FilterPoints(ops[..n])
  {
    if n > 0 {
      PointsUpTo(ops, n - 1);
      assert ops[..n][..n - 1] == ops[..n - 1];
    }
  }

  lemma {:induction false} FilterPointsConcat(a: seq<LogOp>, b: seq<LogOp>)
    ensures FilterPoints(a + b) == FilterPoints(a) + FilterPoints(b)
  {
    if b == [] {
      assert a + b == a;
    } else {
      var n := |b| - 1;
      FilterPointsConcat(a, b[..n]);
      assert (a + b)[..|a + b| - 1] == a + b[..n];
    }
  }

  lemma PointsAround(ops: seq<LogOp>, k: nat, extra: LogOp)
    requires k <= |ops| && IsPoint(extra)
    ensures var a, b := FilterPoints(ops[..k]), FilterPoints(ops[k..]);
            && PointsOf(ops) == a + b
            && PointsOf(ops[..k] + [extra] + ops[k..]) == a + [extra] + b
  {
    var ops' := ops[..k] + [extra] + ops[k..];
    PointsUpTo(ops, |ops|);
    PointsUpTo(ops', |ops'|);
    assert ops[..|ops|] == ops && ops'[..|ops'|] == ops';
    assert ops == ops[..k] + ops[k..];
    FilterPointsConcat(ops[..k], ops[k..]);
    FilterPointsConcat(ops[..k] + [extra], ops[k..]);
    FilterPointsConcat(ops[..k], [extra]);
    assert FilterPoints([extra]) == [extra];
  }

  /** Indices after position `m` move up by one. */
  function Shifted(order: seq<nat>, m: nat): (r: seq<nat>)
    ensures |r| == |order|
    ensures forall k :: 0 <= k < |r| ==> r[k] == if order[k] < m then order[k] else order[k] + 1
  {
    seq(|order|, k requires 0 <= k < |order| => if order[k] < m then order[k] else order[k] + 1)
  }

  /** `r` visits in `q` the same points, in the same order, as `order` does in `p`. */
  ghost predicate SameVisits(p: Problem, order: seq<nat>, q: Problem, r: seq<nat>)
    requires p.Valid() && q.Valid() && IndicesOf(p, order) && IndicesOf(q, r)
  {
    |r| == |order| &&
    forall k :: 0 <= k < |r| ==> q.pts[r[k]] == p.pts[order[k]] && q.kinds[r[k]] == p.kinds[order[k]]
  }

  lemma {:induction false} SameVisitsRun(p: Problem, order: seq<nat>, q: Problem, r: seq<nat>, state: KvState)
    requires p.Valid() && q.Valid() && IndicesOf(p, order) && IndicesOf(q, r)
    requires SameVisits(p, order, q, r) && ValidExecution(p, order, state)
    ensures ValidExecution(q, r, state)
  {
    if order != [] {
      assert IndicesOf(p, order[1..]) && IndicesOf(q, r[1..]);
      SameVisitsRun(p, order[1..], q, r[1..], Apply(state, p.pts[order[0]].op).0);
    }
  }

  /** An order over the points `a + b`, read as an order over `a + [extra] + b`. */
  lemma ShiftedOrder(a: seq<LogOp>, extra: LogOp, b: seq<LogOp>, order: seq<nat>)
    requires KindOf(extra).Optional? && IndicesOf(ProblemOf(a + b), order)
    ensures var p, q, r := ProblemOf(a + b), ProblemOf(a + [extra] + b), Shifted(order, |a|);
            && IndicesOf(q, r) && SameVisits(p, order, q, r)
            && forall i: nat :: i < |q.pts| && q.kinds[i].Required? ==>
                 exists j: nat :: j < |p.pts| && p.kinds[j].Required? && (j in order ==> i in r)
  {
    var p, q, r := ProblemOf(a + b), ProblemOf(a + [extra] + b), Shifted(order, |a|);
    ShiftedPoints(a, extra, b);
    hide ProblemOf, KindOf;
    forall i: nat | i < |q.pts| && q.kinds[i].Required?
      ensures exists j: nat :: j < |p.pts| && p.kinds[j].Required? && (j in order ==> i in r)
    {
      var j := if i < |a| then i else i - 1;
      assert j < |p.pts| && p.kinds[j].Required?;
      if k :| 0 <= k < |order| && order[k] == j {
        assert r[k] == i;
      }
    }
  }

  /** The points of `a + b` are those of `a + [extra] + b` without `extra`. */
  lemma ShiftedPoints(a: seq<LogOp>, extra: LogOp, b: seq<LogOp>)
    ensures var p, q := ProblemOf(a + b), ProblemOf(a + [extra] + b);
            && p.Valid() && q.Valid() && |p.pts| == |a| + |b| && |q.pts| == |p.pts| + 1
            && q.kinds[|a|] == KindOf(extra)
            && forall j :: 0 <= j < |p.pts| ==>
                 var i := if j < |a| then j else j + 1; q.pts[i] == p.pts[j] && q.kinds[i] == p.kinds[j]
  {
  }

  /** A write of unknown outcome can always be skipped, wherever it appears in the history. */
  lemma OptionalWriteKeepsLinearizable(ops: seq<LogOp>, k: nat, extra: LogOp, initial: KvState)
    requires k <= |ops| && extra.IsOptionalWritePoint()
    requires HistoryLinearizable(ops, initial)
    ensures HistoryLinearizable(ops[..k] + [extra] + ops[k..], initial)
  {
    PointsAround(ops, k, extra);
    var a, b := FilterPoints(ops[..k]), FilterPoints(ops[k..]);
    var p, q := ProblemOf(a + b), ProblemOf(a + [extra] + b);
    var order :| IsLinearization(p, order, initial);
    ShiftedOrder(a, extra, b, order);
    SameVisitsRun(p, order, q, Shifted(order, |a|), initial);
    assert IsLinearization(q, Shifted(order, |a|), initial);
  }

  /** The checker's verdict after adding a write of unknown outcome is never a violation. */
  lemma {:induction false} OptionalWriteKeepsVerdict(ops: seq<LogOp>, k: nat, extra: LogOp, initial: KvState)
    requires k <= |ops| && extra.IsOptionalWritePoint()
    requires ValidIntervals(ops) && extra.ValidInterval()
    requires CanFinish(ProblemOf(PointsOf(ops)), {}, initial)
    ensures CanFinish(ProblemOf(PointsOf(ops[..k] + [extra] + ops[k..])), {}, initial)
  {
    VerdictIsReference(ops, initial);
    OptionalWriteKeepsLinearizable(ops, k, extra, initial);
    VerdictIsReference(ops[..k] + [extra] + ops[k..], initial);
  }
}
