/**
 A linearization read as a run: the placed operations themselves, in order,
 together with what the store holds at every step of it.
 */
module LinearizableRuns {
  import opened Base
  import opened OracleModel
  import opened Linearizability
  import opened LinearizabilityCheck

  /** The store after a sequence of operations. */
  ghost function StateAfter(run: seq<LogOp>, initial: KvState): KvState {
    if run == [] then initial
    else Apply(StateAfter(run[..|run| - 1], initial), run[|run| - 1].op).0
  }

  /**
   `run` is a sequential execution that explains the history: it is made of the
   history's points, has every successful operation, keeps real-time order, and
   gives every successful operation the result it observed.
   */
  ghost predicate Explains(ops: seq<LogOp>, run: seq<LogOp>, initial: KvState) {
    && (forall k :: 0 <= k < |run| ==> run[k] in ops && IsPoint(run[k]))
    && (forall op :: op in ops && op.IsLinearizationPoint() ==> op in run)
    && (forall k, l :: 0 <= k < l < |run| ==> !Before(run[l], run[k]))
    && (forall k :: 0 <= k < |run| && run[k].IsLinearizationPoint() ==>
          run[k].result == Some(Apply(StateAfter(run[..k], initial), run[k].op).1))
  }

  ghost function Visited(p: Problem, order: seq<nat>): (run: seq<LogOp>)
    requires IndicesOf(p, order)
    ensures |run| == |order| && forall k :: 0 <= k < |run| ==> run[k] == p.pts[order[k]]
  {
    seq(|order|, k requires 0 <= k < |order| => p.pts[order[k]])
  }

  lemma {:induction false} StateAfterFirst(first: LogOp, rest: seq<LogOp>, initial: KvState)
    ensures StateAfter([first] + rest, initial) == StateAfter(rest, Apply(initial, first.op).0)
  {
    if rest == [] {
      assert [first] + rest == [first];
      assert StateAfter([], initial) == initial;
    } else {
      var n := |rest| - 1;
      assert ([first] + rest)[..n + 1] == [first] + rest[..n];
      StateAfterFirst(first, rest[..n], initial);
    }
  }

  /** In a valid execution every point is accepted by the store its predecessors leave. */
  lemma {:induction false} AcceptedAt(p: Problem, order: seq<nat>, initial: KvState, k: nat)
    requires p.Valid() && IndicesOf(p, order) && k < |order|
    requires ValidExecution(p, order, initial)
    ensures Accepts(p.pts[order[k]], p.kinds[order[k]], StateAfter(Visited(p, order)[..k], initial))
  {
    var run := Visited(p, order);
    if k == 0 {
      assert run[..0] == [];
    } else {
      var rest := order[1..];
      assert IndicesOf(p, rest);
      AcceptedAt(p, rest, Apply(initial, p.pts[order[0]].op).0, k - 1);
      assert run[..k] == [run[0]] + Visited(p, rest)[..k - 1];
      StateAfterFirst(run[0], Visited(p, rest)[..k - 1], initial);
    }
  }

  /** A linearizable history is explained by a run of its own operations. */
  lemma LinearizableHasRun(ops: seq<LogOp>, initial: KvState) returns (run: seq<LogOp>)
    requires HistoryLinearizable(ops, initial)
    ensures Explains(ops, run, initial)
  {
    var p := ProblemOf(PointsOf(ops));
    var order :| IsLinearization(p, order, initial);
    run := Visited(p, order);
    PointsAreOps(ops);
    OrderIsKept(p, order);
    hide *;
    forall k | 0 <= k < |run| && run[k].IsLinearizationPoint()
      ensures run[k].result == Some(Apply(StateAfter(run[..k], initial), run[k].op).1)
    {
      VisitedAnswers(PointsOf(ops), order, initial, k);
    }
    forall op | op in ops && op.IsLinearizationPoint()
      ensures op in run
    {
      RequiredIsVisited(PointsOf(ops), order, initial, op);
    }
    RunExplains(ops, run, initial);
  }

  lemma {:induction false} RunExplains(ops: seq<LogOp>, run: seq<LogOp>, initial: KvState)
    requires forall k :: 0 <= k < |run| ==> run[k] in ops && IsPoint(run[k])
    requires forall op :: op in ops && op.IsLinearizationPoint() ==> op in run
    requires forall k, l :: 0 <= k < l < |run| ==> !Before(run[l], run[k])
    requires forall k :: 0 <= k < |run| && run[k].IsLinearizationPoint() ==>
               run[k].result == Some(Apply(StateAfter(run[..k], initial), run[k].op).1)
    ensures Explains(ops, run, initial)
  {
  }

  lemma {:induction false} VisitedAnswers(pts: seq<LogOp>, order: seq<nat>, initial: KvState, k: nat)
    requires IsLinearization(ProblemOf(pts), order, initial) && k < |order|
    ensures var run := Visited(ProblemOf(pts), order);
            run[k].IsLinearizationPoint() ==>
              run[k].result == Some(Apply(StateAfter(run[..k], initial), run[k].op).1)
  {
    hide StateAfter, Apply, ValidExecution;
    AcceptedAt(ProblemOf(pts), order, initial, k);
  }

  lemma OrderIsKept(p: Problem, order: seq<nat>)
    requires p.Valid() && IndicesOf(p, order) && RespectsRealTime(p, order)
    ensures var run := Visited(p, order);
            forall k, l :: 0 <= k < l < |run| ==> !Before(run[l], run[k])
  {
    hide Before;
    var run := Visited(p, order);
    forall k, l | 0 <= k < l < |run|
      ensures !Before(run[l], run[k])
    {
      assert !p.Precedes(order[l], order[k]);
    }
  }

  lemma RequiredIsVisited(pts: seq<LogOp>, order: seq<nat>, initial: KvState, op: LogOp)
    requires IsLinearization(ProblemOf(pts), order, initial)
    requires op in pts && op.IsLinearizationPoint()
    ensures op in Visited(ProblemOf(pts), order)
  {
    hide ValidExecution;
    var i :| 0 <= i < |pts| && pts[i] == op;
    assert ProblemOf(pts).kinds[i].Required?;
    assert i in order;
    var k :| 0 <= k < |order| && order[k] == i;
    assert Visited(ProblemOf(pts), order)[k] == op;
  }

  lemma PointsAreOps(ops: seq<LogOp>)
    ensures forall i :: 0 <= i < |PointsOf(ops)| ==> PointsOf(ops)[i] in ops && IsPoint(PointsOf(ops)[i])
    ensures forall op :: op in ops && IsPoint(op) ==> op in PointsOf(ops)
  {
    var points := IndicesWhere(ops, IsPoint, |ops|);
    forall op | op in ops && IsPoint(op)
      ensures op in PointsOf(ops)
    {
      var i :| 0 <= i < |ops| && ops[i] == op;
      assert i in points;
      var k :| 0 <= k < |points| && points[k] == i;
      assert PointsOf(ops)[k] == op;
    }
  }

  predicate Writes(op: LogOp, key: Bytes) {
    op.op.IsLoggedOp() && op.op.key == key
  }

  /** A key that is bound was bound by a put that nothing overwrote or removed since. */
  lemma {:induction false} LastWriter(run: seq<LogOp>, key: Bytes) returns (w: nat)
    requires key in StateAfter(run, map[])
    ensures w < |run| && run[w].op == Put(key, StateAfter(run, map[])[key])
    ensures forall x :: w < x < |run| ==> !Writes(run[x], key)
  {
    var n := |run| - 1;
    if Writes(run[n], key) {
      w := n;
    } else {
      w := LastWriter(run[..n], key);
      assert forall x :: w < x < n ==> run[..n][x] == run[x];
    }
  }

  /** Once put and never removed, a key stays bound. */
  lemma {:induction false} StaysBound(run: seq<LogOp>, initial: KvState, key: Bytes, w: nat)
    requires w < |run| && run[w].op.Put? && run[w].op.key == key
    requires forall x :: w < x < |run| ==> run[x].op != Delete(key)
    ensures key in StateAfter(run, initial)
  {
    var n := |run| - 1;
    if w < n {
      assert forall x :: w < x < n ==> run[..n][x] == run[x];
      StaysBound(run[..n], initial, key, w);
    }
  }

  /** Real-time order fixes the relative position of two operations in a run. */
  lemma BeforeInRun(ops: seq<LogOp>, run: seq<LogOp>, initial: KvState, i: nat, j: nat)
    requires Explains(ops, run, initial)
    requires i < |run| && j < |run| && Before(run[i], run[j])
    ensures i < j
  {
  }

  /** The put a read in a run takes its value from. */
  lemma ReadFrom(ops: seq<LogOp>, run: seq<LogOp>, r: nat, key: Bytes, value: nat) returns (w: nat)
    requires Explains(ops, run, map[]) && r < |run|
    requires run[r].op == Get(key) && run[r].result == Some(Done(Some(value))) && run[r].completeTs.Some?
    ensures w < r && run[w].op == Put(key, value)
    ensures forall x :: w < x < r ==> !Writes(run[x], key)
  {
    assert Lookup(StateAfter(run[..r], map[]), key) == Some(value);
    w := LastWriter(run[..r], key);
    assert forall x :: 0 <= x < r ==> run[..r][x] == run[x];
  }

  /** A key put earlier in a run and read as absent was deleted in between. */
  lemma AbsentWasDeleted(ops: seq<LogOp>, run: seq<LogOp>, r: nat, key: Bytes, w: nat)
    requires Explains(ops, run, map[]) && w < r < |run|
    requires run[w].op.Put? && run[w].op.key == key
    requires run[r].op == Get(key) && run[r].result == Some(Done(None)) && run[r].completeTs.Some?
    ensures exists x :: w < x < r && run[x].op == Delete(key)
  {
    assert Lookup(StateAfter(run[..r], map[]), key) == None;
    assert forall x :: 0 <= x < r ==> run[..r][x] == run[x];
    if forall x :: w < x < r ==> run[x].op != Delete(key) {
      StaysBound(run[..r], map[], key, w);
    }
  }

  ghost function Upwards(k: nat, n: nat): (order: seq<nat>)
    requires k <= n
    ensures |order| == n - k && forall i :: 0 <= i < |order| ==> order[i] == k + i
  {
    seq(n - k, i requires 0 <= i < n - k => k + i)
  }

  lemma {:induction false} ExplainedIsAccepted(ops: seq<LogOp>, initial: KvState, k: nat)
    requires k < |ops| && Explains(ops, ops, initial)
    ensures Accepts(ops[k], KindOf(ops[k]), StateAfter(ops[..k], initial))
    ensures StateAfter(ops[..k + 1], initial) == Apply(StateAfter(ops[..k], initial), ops[k].op).0
  {
    hide Before, Apply;
    assert ops[..k + 1][..k] == ops[..k];
  }

  lemma {:induction false} UpwardsRuns(ops: seq<LogOp>, initial: KvState, k: nat)
    requires k <= |ops| && Explains(ops, ops, initial)
    ensures ValidExecution(ProblemOf(ops), Upwards(k, |ops|), StateAfter(ops[..k], initial))
    decreases |ops| - k
  {
    hide Explains, StateAfter, Apply, Accepts;
    if k < |ops| {
      UpwardsRuns(ops, initial, k + 1);
      assert Upwards(k, |ops|)[1..] == Upwards(k + 1, |ops|);
      ExplainedIsAccepted(ops, initial, k);
    }
  }

  lemma UpwardsIsOrder(p: Problem)
    requires p.Valid()
    requires forall k, l :: 0 <= k < l < |p.pts| ==> !Before(p.pts[l], p.pts[k])
    ensures IndicesOf(p, Upwards(0, |p.pts|)) && RespectsRealTime(p, Upwards(0, |p.pts|))
    ensures forall i :: 0 <= i < |p.pts| ==> i in Upwards(0, |p.pts|)
  {
    var order := Upwards(0, |p.pts|);
    forall i | 0 <= i < |p.pts|
      ensures i in order
    {
      assert order[i] == i;
    }
  }

  /** A history of points that is a legal run as it stands is linearizable. */
  lemma SelfExplainedIsLinearizable(ops: seq<LogOp>, initial: KvState)
    requires Explains(ops, ops, initial)
    ensures HistoryLinearizable(ops, initial)
  {
    AllKept(ops, IsPoint, |ops|);
    assert PointsOf(ops) == ops;
    UpwardsIsOrder(ProblemOf(ops));
    UpwardsRuns(ops, initial, 0);
    assert ops[..0] == [];
    assert IsLinearization(ProblemOf(ops), Upwards(0, |ops|), initial);
  }
}
