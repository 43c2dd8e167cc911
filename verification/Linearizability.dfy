/**
 What it means for a set of linearization points to be linearizable, and the
 search state the backtracking checker explores. The checker itself is in
 `LinearizabilitySearch`; this module states the reference definition and proves
 that the two views agree.
 */
module Linearizability {
  import opened Base
  import opened OracleModel

  datatype PointKind = Required | Optional

  /** The points to order, and for each whether it must be placed or may be skipped. */
  datatype Problem = Problem(pts: seq<LogOp>, kinds: seq<PointKind>) {
    ghost predicate Valid() {
      |pts| == |kinds|
    }

    ghost predicate ValidIntervals() {
      forall i :: 0 <= i < |pts| ==> pts[i].ValidInterval()
    }

    ghost predicate Precedes(i: nat, j: nat)
      requires i < |pts| && j < |pts|
    {
      Before(pts[i], pts[j])
    }
  }

  /** A point may be placed in `state`: an optional one always, a required one when its result is reproduced. */
  predicate Accepts(point: LogOp, kind: PointKind, state: KvState) {
    kind.Optional? || point.result == Some(Apply(state, point.op).1)
  }

  // ---- The reference definition -------------------------------------------

  ghost predicate IndicesOf(p: Problem, order: seq<nat>) {
    && (forall k :: 0 <= k < |order| ==> order[k] < |p.pts|)
    && (forall k, l :: 0 <= k < l < |order| ==> order[k] != order[l])
  }

  ghost predicate RespectsRealTime(p: Problem, order: seq<nat>)
    requires IndicesOf(p, order)
  {
    forall k, l :: 0 <= k < l < |order| ==> !p.Precedes(order[l], order[k])
  }

  /** Running the points in this order from `state`, every one of them is accepted. */
  ghost predicate ValidExecution(p: Problem, order: seq<nat>, state: KvState)
    requires p.Valid() && IndicesOf(p, order)
  {
    order == [] ||
    (&& Accepts(p.pts[order[0]], p.kinds[order[0]], state)
     && ValidExecution(p, order[1..], Apply(state, p.pts[order[0]].op).0))
  }

  /** `order` lists some points, among them every required one, as a legal sequential run. */
  ghost predicate IsLinearization(p: Problem, order: seq<nat>, state: KvState)
    requires p.Valid()
  {
    && IndicesOf(p, order)
    && RespectsRealTime(p, order)
    && (forall i :: 0 <= i < |p.pts| && p.kinds[i].Required? ==> i in order)
    && ValidExecution(p, order, state)
  }

  ghost predicate Linearizable(p: Problem, initial: KvState)
    requires p.Valid()
  {
    exists order :: IsLinearization(p, order, initial)
  }

  // ---- The search's view ---------------------------------------------------

  /** The indices below `n`. */
  ghost function UpTo(n: nat): (s: set<nat>)
    ensures forall i: nat :: i in s <==> i < n
    ensures |s| == n
  {
    if n == 0 then {} else UpTo(n - 1) + {n - 1}
  }

  ghost function All(p: Problem): set<nat> {
    UpTo(|p.pts|)
  }

  /** The predecessors of point `j` that are neither placed nor skipped yet. */
  ghost function UnresolvedPreds(p: Problem, done: set<nat>, j: nat): set<nat>
    requires j < |p.pts|
  {
    set a: nat | a < |p.pts| && a !in done && p.Precedes(a, j)
  }

  ghost predicate Ready(p: Problem, done: set<nat>, i: nat) {
    i < |p.pts| && i !in done && UnresolvedPreds(p, done, i) == {}
  }

  /** With `done` resolved and the store at `state`, resolving point `i` next can succeed. */
  ghost predicate CanResolve(p: Problem, done: set<nat>, state: KvState, i: nat)
    requires p.Valid() && done <= All(p)
    decreases All(p) - done, 0
  {
    && Ready(p, done, i)
    && (|| (&& Accepts(p.pts[i], p.kinds[i], state)
            && CanFinish(p, done + {i}, Apply(state, p.pts[i].op).0))
        || (&& p.kinds[i].Optional?
            && CanFinish(p, done + {i}, state)))
  }

  /** Every remaining point can be placed or, if optional, skipped. */
  ghost predicate CanFinish(p: Problem, done: set<nat>, state: KvState)
    requires p.Valid() && done <= All(p)
    decreases All(p) - done, 1
  {
    done == All(p) || exists i :: CanResolve(p, done, state, i)
  }

  // ---- The two views agree -------------------------------------------------

  /** What is left of a linearization once `done` is resolved. */
  ghost predicate IsRemainder(p: Problem, done: set<nat>, order: seq<nat>, state: KvState)
    requires p.Valid()
  {
    && IndicesOf(p, order)
    && RespectsRealTime(p, order)
    && (forall k :: 0 <= k < |order| ==> order[k] !in done)
    && (forall i :: 0 <= i < |p.pts| && i !in done && p.kinds[i].Required? ==> i in order)
    && ValidExecution(p, order, state)
  }

  /** A successful resolution, read off as a linearization of the points it places. */
  lemma {:induction false} ResolutionGivesOrder(p: Problem, done: set<nat>, state: KvState) returns (order: seq<nat>)
    requires p.Valid() && done <= All(p)
    requires CanFinish(p, done, state)
    ensures IsRemainder(p, done, order, state)
    decreases All(p) - done
  {
    if done == All(p) {
      order := [];
    } else {
      var i: nat :| CanResolve(p, done, state, i);
      var next := Apply(state, p.pts[i].op).0;
      if Accepts(p.pts[i], p.kinds[i], state) && CanFinish(p, done + {i}, next) {
        var rest := ResolutionGivesOrder(p, done + {i}, next);
        order := [i] + rest;
        ReadyPointGoesFirst(p, done, i, rest);
        assert order[1..] == rest;
        assert forall j :: j in rest ==> j in order;
        assert i == order[0];
      } else {
        order := ResolutionGivesOrder(p, done + {i}, state);
      }
    }
  }

  lemma ReadyPointGoesFirst(p: Problem, done: set<nat>, i: nat, rest: seq<nat>)
    requires Ready(p, done, i)
    requires IndicesOf(p, rest) && RespectsRealTime(p, rest)
    requires forall k :: 0 <= k < |rest| ==> rest[k] !in done + {i}
    ensures IndicesOf(p, [i] + rest) && RespectsRealTime(p, [i] + rest)
  {
    var order := [i] + rest;
    forall k, l | 0 <= k < l < |order|
      ensures order[k] != order[l] && !p.Precedes(order[l], order[k])
    {
      assert order[l] == rest[l - 1];
      if k == 0 {
        assert rest[l - 1] !in UnresolvedPreds(p, done, i);
      } else {
        assert order[k] == rest[k - 1];
      }
    }
  }

  /** A set of points has one with no predecessor in the set. */
  lemma {:induction false} MinimalPoint(p: Problem, s: set<nat>) returns (m: nat)
    requires p.ValidIntervals()
    requires s != {} && s <= All(p)
    ensures m in s && forall w :: w in s ==> !p.Precedes(w, m)
    decreases s
  {
    m :| m in s;
    if w :| w in s && p.Precedes(w, m) {
      var below := set w | w in s && p.Precedes(w, m);
      assert w in below && m !in below;
      var top := m;
      m := MinimalPoint(p, below);
      forall w | w in s
        ensures !p.Precedes(w, m)
      {
        if p.Precedes(w, m) {
          BeforeIsTransitive(p.pts[w], p.pts[m], p.pts[top]);
        }
      }
    }
  }

  /**
   Some point can be resolved without leaving the given linearization: a skipped
   point with nothing unresolved before it, or else the first point of the order.
   */
  lemma {:induction false} NextPoint(p: Problem, done: set<nat>, order: seq<nat>, state: KvState) returns (i: nat)
    requires p.Valid() && p.ValidIntervals() && done < All(p)
    requires IsRemainder(p, done, order, state)
    ensures Ready(p, done, i)
    ensures i !in order || i == order[0]
  {
    if order == [] {
      assert All(p) - done != {};
      i := MinimalPoint(p, All(p) - done);
      assert UnresolvedPreds(p, done, i) <= All(p) - done;
    } else if UnresolvedPreds(p, done, order[0]) == {} {
      i := order[0];
    } else {
      var first := order[0];
      var preds := UnresolvedPreds(p, done, first);
      forall a: nat, b | b in preds && a in UnresolvedPreds(p, done, b)
        ensures a in preds
      {
        BeforeIsTransitive(p.pts[a], p.pts[b], p.pts[first]);
      }
      i := MinimalPoint(p, preds);
      forall k | 0 <= k < |order|
        ensures !p.Precedes(order[k], first)
      {
      }
    }
  }

  /** Once its first point is resolved, the rest of the order remains. */
  lemma RemainderAfterFirst(p: Problem, done: set<nat>, order: seq<nat>, state: KvState)
    requires p.Valid() && order != [] && IsRemainder(p, done, order, state)
    ensures order[0] < |p.pts|
    ensures IsRemainder(p, done + {order[0]}, order[1..], Apply(state, p.pts[order[0]].op).0)
    ensures Accepts(p.pts[order[0]], p.kinds[order[0]], state)
  {
    var rest := order[1..];
    assert order == [order[0]] + rest;
    assert IndicesOf(p, rest) && RespectsRealTime(p, rest);
  }

  /** Any linearization can be followed by the search, skipping what it leaves out. */
  lemma {:induction false} OrderGivesResolution(p: Problem, done: set<nat>, order: seq<nat>, state: KvState)
    requires p.Valid() && p.ValidIntervals() && done <= All(p)
    requires IsRemainder(p, done, order, state)
    ensures CanFinish(p, done, state)
    decreases All(p) - done
  {
    if done != All(p) {
      var i := NextPoint(p, done, order, state);
      if i in order {
        RemainderAfterFirst(p, done, order, state);
        hide IsRemainder;
        OrderGivesResolution(p, done + {i}, order[1..], Apply(state, p.pts[i].op).0);
      } else {
        assert p.kinds[i].Optional?;
        OrderGivesResolution(p, done + {i}, order, state);
      }
      assert CanResolve(p, done, state, i);
    }
  }

  /**
   The search succeeds exactly when the points are linearizable: skipping an
   optional point is the same as leaving it out of the order.
   */
  lemma {:induction false} ResolvableIffLinearizable(p: Problem, initial: KvState)
    requires p.Valid() && p.ValidIntervals()
    ensures CanFinish(p, {}, initial) <==> Linearizable(p, initial)
  {
    if CanFinish(p, {}, initial) {
      var order := ResolutionGivesOrder(p, {}, initial);
      assert IsLinearization(p, order, initial);
    }
    if Linearizable(p, initial) {
      var order :| IsLinearization(p, order, initial);
      OrderGivesResolution(p, {}, order, initial);
    }
  }
}
