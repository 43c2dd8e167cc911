/**
 When a shrunk witness is minimal. Shrinking tries each point once, so a point that was
 needed when it was tried may be superfluous after later ones are dropped; this module
 says when that cannot happen.
 */
module WitnessMinimality {
  import opened Base
  import opened OracleModel
  import opened Linearizability
  import opened LinearizabilitySearch
  import opened LinearizabilityCheck

  /** No point of the selection can be dropped without losing the violation. */
  ghost predicate IsMinimal(passes: seq<nat> -> bool, s: seq<nat>) {
    forall k :: 0 <= k < |s| ==> passes(Without(s, k))
  }

  /** A failing selection is minimal exactly when shrinking it once more drops nothing. */
  lemma {:induction false} MinimalIffStable(passes: seq<nat> -> bool, s: seq<nat>)
    ensures IsMinimal(passes, s) <==> GreedyKeep(passes, s, 0) == s
  {
    StableFrom(passes, s, 0);
  }

  lemma {:induction false} StableFrom(passes: seq<nat> -> bool, s: seq<nat>, i: nat)
    requires i <= |s|
    ensures GreedyKeep(passes, s, i) == s <==> forall k :: i <= k < |s| ==> passes(Without(s, k))
    decreases |s| - i
  {
    if i == |s| {
    } else if passes(Without(s, i)) {
      StableFrom(passes, s, i + 1);
    } else {
      GreedyIsShorter(passes, Without(s, i), i);
    }
  }

  lemma {:induction false} GreedyIsShorter(passes: seq<nat> -> bool, s: seq<nat>, i: nat)
    requires i <= |s|
    ensures |GreedyKeep(passes, s, i)| <= |s|
    decreases |s| - i
  {
    if i == |s| {
    } else if passes(Without(s, i)) {
      GreedyIsShorter(passes, s, i + 1);
    } else {
      GreedyIsShorter(passes, Without(s, i), i);
    }
  }

  // ---- Points nobody misses ------------------------------------------------------

  /** A run from one store is a run from any store that differs only in a key nobody reads. */
  lemma {:induction false} UnreadKeyIsFree(p: Problem, order: seq<nat>, s: KvState, t: KvState, key: Bytes)
    requires p.Valid() && IndicesOf(p, order) && ValidExecution(p, order, s)
    requires forall k :: 0 <= k < |order| ==> p.pts[order[k]].op != Get(key)
    requires AgreeExceptAt(key, s, t)
    ensures ValidExecution(p, order, t)
  {
    if order != [] {
      var op := p.pts[order[0]].op;
      assert IndicesOf(p, order[1..]);
      AgreeAfter(key, s, t, op);
      UnreadKeyIsFree(p, order[1..], Apply(s, op).0, Apply(t, op).0, key);
    }
  }

  ghost predicate AgreeExceptAt(key: Bytes, s: KvState, t: KvState) {
    forall k :: k != key ==> Lookup(s, k) == Lookup(t, k)
  }

  lemma AgreeAfter(key: Bytes, s: KvState, t: KvState, op: Op)
    requires AgreeExceptAt(key, s, t)
    ensures AgreeExceptAt(key, Apply(s, op).0, Apply(t, op).0)
    ensures op != Get(key) ==> Apply(s, op).1 == Apply(t, op).1
  {
    forall k | k != key
      ensures Lookup(Apply(s, op).0, k) == Lookup(Apply(t, op).0, k)
    {
      assert Lookup(s, k) == Lookup(t, k);
    }
  }

  /** A read leaves no trace in the store; a write leaves one only for reads of its key. */
  predicate Unmissed(d: LogOp, others: seq<LogOp>) {
    d.op.Get? || forall i :: 0 <= i < |others| ==> others[i].op != Get(d.op.key)
  }

  lemma WithoutTail(order: seq<nat>, j: nat)
    requires 0 < j < |order|
    ensures Without(order, j)[1..] == Without(order[1..], j - 1) && Without(order, j)[0] == order[0]
  {
  }

  lemma WithoutKeepsIndices(p: Problem, order: seq<nat>, j: nat)
    requires IndicesOf(p, order) && j < |order|
    ensures IndicesOf(p, Without(order, j))
  {
  }

  lemma {:induction false} RunWithout(p: Problem, order: seq<nat>, j: nat, state: KvState)
    requires p.Valid() && IndicesOf(p, order) && j < |order| && ValidExecution(p, order, state)
    requires var d := p.pts[order[j]].op;
             d.Get? || forall k :: 0 <= k < |order| && k != j ==> p.pts[order[k]].op != Get(d.key)
    ensures IndicesOf(p, Without(order, j)) && ValidExecution(p, Without(order, j), state)
  {
    WithoutKeepsIndices(p, order, j);
    var rest := order[1..];
    var next := Apply(state, p.pts[order[0]].op).0;
    assert IndicesOf(p, rest);
    if j == 0 {
      assert Without(order, 0) == rest;
      var d := p.pts[order[0]].op;
      if d.Get? {
        assert next == state;
      } else {
        UnreadKeyIsFree(p, rest, next, state, d.key);
      }
    } else {
      RunWithout(p, rest, j - 1, next);
      WithoutTail(order, j);
    }
  }

  /** Indices past `m` move down by one. */
  function Lowered(order: seq<nat>, m: nat): (r: seq<nat>)
    requires forall k :: 0 <= k < |order| ==> order[k] != m
    ensures |r| == |order|
    ensures forall k :: 0 <= k < |r| ==> r[k] == if order[k] < m then order[k] else order[k] - 1
  {
    seq(|order|, k requires 0 <= k < |order| => if order[k] < m then order[k] else order[k] - 1)
  }

  /** An order over `a + [d] + b` that leaves `d` out, read as an order over `a + b`. */
  lemma LoweredOrder(a: seq<LogOp>, d: LogOp, b: seq<LogOp>, order: seq<nat>)
    requires IndicesOf(ProblemOf(a + [d] + b), order)
    requires forall k :: 0 <= k < |order| ==> order[k] != |a|
    requires RespectsRealTime(ProblemOf(a + [d] + b), order)
    requires forall i :: 0 <= i < |a + [d] + b| && i != |a| && ProblemOf(a + [d] + b).kinds[i].Required? ==> i in order
    ensures var p, q, r := ProblemOf(a + [d] + b), ProblemOf(a + b), Lowered(order, |a|);
            && IndicesOf(q, r) && SameVisits(p, order, q, r) && RespectsRealTime(q, r)
            && forall i :: 0 <= i < |q.pts| && q.kinds[i].Required? ==> i in r
  {
    var p, q, r := ProblemOf(a + [d] + b), ProblemOf(a + b), Lowered(order, |a|);
    ShiftedPoints(a, d, b);
    hide Before, ProblemOf, KindOf;
    assert IndicesOf(q, r) && SameVisits(p, order, q, r);
    forall k, l | 0 <= k < l < |r|
      ensures !q.Precedes(r[l], r[k])
    {
      assert !p.Precedes(order[l], order[k]);
    }
    forall i | 0 <= i < |q.pts| && q.kinds[i].Required?
      ensures i in r
    {
      var j := if i < |a| then i else i + 1;
      assert p.pts[j] == q.pts[i] && p.kinds[j].Required?;
      var k :| 0 <= k < |order| && order[k] == j;
      assert r[k] == i;
    }
  }

  /** `order` is a legal run over `p` of every required point but perhaps point `m`, which it leaves out. */
  ghost predicate LeavesOut(p: Problem, order: seq<nat>, m: nat, initial: KvState)
    requires p.Valid()
  {
    && IndicesOf(p, order) && RespectsRealTime(p, order) && ValidExecution(p, order, initial)
    && (forall k :: 0 <= k < |order| ==> order[k] != m)
    && (forall i :: 0 <= i < |p.pts| && i != m && p.kinds[i].Required? ==> i in order)
  }

  lemma LeaveOut(a: seq<LogOp>, d: LogOp, b: seq<LogOp>, order: seq<nat>, initial: KvState) returns (kept: seq<nat>)
    requires Unmissed(d, a + b) && IsLinearization(ProblemOf(a + [d] + b), order, initial)
    ensures LeavesOut(ProblemOf(a + [d] + b), kept, |a|, initial)
  {
    hide ValidExecution, RespectsRealTime, Unmissed;
    var p := ProblemOf(a + [d] + b);
    if |a| in order {
      var j :| 0 <= j < |order| && order[j] == |a|;
      OthersAreOthers(a, d, b, order, j);
      RunWithout(p, order, j, initial);
      OrderWithout(p, order, j);
      kept := Without(order, j);
    } else {
      kept := order;
    }
  }

  /** Leaving out a point nobody misses keeps a set of points linearizable. */
  lemma DropKeepsLinearizable(a: seq<LogOp>, d: LogOp, b: seq<LogOp>, initial: KvState)
    requires Unmissed(d, a + b)
    requires Linearizability.Linearizable(ProblemOf(a + [d] + b), initial)
    ensures Linearizability.Linearizable(ProblemOf(a + b), initial)
  {
    hide ValidExecution, RespectsRealTime, Unmissed, SameVisits;
    var p, q := ProblemOf(a + [d] + b), ProblemOf(a + b);
    var order :| IsLinearization(p, order, initial);
    var kept := LeaveOut(a, d, b, order, initial);
    LoweredOrder(a, d, b, kept);
    SameVisitsRun(p, kept, q, Lowered(kept, |a|), initial);
    assert IsLinearization(q, Lowered(kept, |a|), initial);
  }

  lemma OthersAreOthers(a: seq<LogOp>, d: LogOp, b: seq<LogOp>, order: seq<nat>, j: nat)
    requires Unmissed(d, a + b) && IndicesOf(ProblemOf(a + [d] + b), order)
    requires j < |order| && order[j] == |a|
    ensures d.op.Get? || forall k :: 0 <= k < |order| && k != j ==> (a + [d] + b)[order[k]].op != Get(d.op.key)
  {
    forall k | 0 <= k < |order| && k != j && !d.op.Get?
      ensures (a + [d] + b)[order[k]].op != Get(d.op.key)
    {
      var i := order[k];
      assert i != |a|;
      assert (a + [d] + b)[i] == (a + b)[if i < |a| then i else i - 1];
    }
  }

  /** Leaving out one place of a list without repetitions leaves out its element and no other. */
  lemma WithoutMembers(s: seq<nat>, i: nat)
    requires i < |s| && forall k, l :: 0 <= k < l < |s| ==> s[k] != s[l]
    ensures forall x :: x in Without(s, i) <==> x in s && x != s[i]
  {
    var r := Without(s, i);
    forall x
      ensures x in r <==> x in s && x != s[i]
    {
      if x in r {
        var k :| 0 <= k < |r| && r[k] == x;
        assert x == s[if k < i then k else k + 1];
      }
      if x in s && x != s[i] {
        var k :| 0 <= k < |s| && s[k] == x;
        assert x == r[if k < i then k else k - 1];
      }
    }
  }

  lemma OrderWithout(p: Problem, order: seq<nat>, j: nat)
    requires IndicesOf(p, order) && RespectsRealTime(p, order) && j < |order|
    ensures IndicesOf(p, Without(order, j)) && RespectsRealTime(p, Without(order, j))
    ensures forall i :: i in order && i != order[j] ==> i in Without(order, j)
    ensures forall k :: 0 <= k < |order| - 1 ==> Without(order, j)[k] != order[j]
  {
    hide Before;
    WithoutMembers(order, j);
    var r := Without(order, j);
    forall k | 0 <= k < |r|
      ensures r[k] != order[j]
    {
      assert r[k] in r;
    }
    forall k, l | 0 <= k < l < |r|
      ensures !p.Precedes(r[l], r[k])
    {
      assert !p.Precedes(order[if l < j then l else l + 1], order[if k < j then k else k + 1]);
    }
  }

  // ---- Selections -------------------------------------------------------------------

  lemma PassesIffLinearizable(ops: seq<LogOp>, initial: KvState, s: seq<nat>)
    requires ValidIntervals(ops) && SelectsFrom(ops, s)
    ensures Verdict(ops, initial)(s) <==> Linearizability.Linearizable(ProblemOf(Select(ops, s)), initial)
  {
    var p := ProblemOf(Select(ops, s));
    assert p.ValidIntervals();
    ResolvableIffLinearizable(p, initial);
  }

  lemma DropKeepsPassing(ops: seq<LogOp>, initial: KvState, s: seq<nat>, i: nat)
    requires ValidIntervals(ops) && SelectsFrom(ops, s) && i < |s|
    requires Verdict(ops, initial)(s) && Unmissed(ops[s[i]], Select(ops, Without(s, i)))
    ensures SelectsFrom(ops, Without(s, i)) && Verdict(ops, initial)(Without(s, i))
  {
    var a, b := Select(ops, s[..i]), Select(ops, s[i + 1..]);
    SmallerSelection(ops, s, i);
    SelectAround(ops, s, i);
    hide *;
    PassesIffLinearizable(ops, initial, s);
    PassesIffLinearizable(ops, initial, Without(s, i));
    DropKeepsLinearizable(a, ops[s[i]], b, initial);
  }

  lemma SelectAround(ops: seq<LogOp>, s: seq<nat>, i: nat)
    requires SelectsFrom(ops, s) && i < |s|
    ensures var a, b := Select(ops, s[..i]), Select(ops, s[i + 1..]);
            Select(ops, s) == a + [ops[s[i]]] + b && Select(ops, Without(s, i)) == a + b
  {
  }

  /** `y` can go without being missed in `sub`. */
  ghost predicate Expendable(ops: seq<LogOp>, sub: seq<nat>, y: nat)
    requires y < |ops| && forall k :: 0 <= k < |sub| ==> sub[k] < |ops|
  {
    Unmissed(ops[y], Select(ops, sub))
  }

  /** From a passing selection everything that is not missed in `sub` can be dropped, reads first. */
  lemma {:induction false} DropAllKeepsPassing(ops: seq<LogOp>, initial: KvState, sup: seq<nat>, sub: seq<nat>)
    requires ValidIntervals(ops) && SelectsFrom(ops, sup) && SelectsFrom(ops, sub) && Sublist(sub, sup)
    requires Verdict(ops, initial)(sup)
    requires forall y :: y in sup && y !in sub ==> Expendable(ops, sub, y)
    ensures Verdict(ops, initial)(sub)
    decreases |sup|
  {
    hide Verdict;
    if forall y :: y in sup ==> y in sub {
      AscendingIsUnique(sup, sub);
    } else {
      var i := NextToDrop(ops, sup, sub);
      DropKeepsPassing(ops, initial, sup, i);
      WithoutKeepsSublist(sup, sub, i);
      DropAllKeepsPassing(ops, initial, Without(sup, i), sub);
    }
  }

  lemma WithoutKeepsSublist(sup: seq<nat>, sub: seq<nat>, i: nat)
    requires Ascending(sup) && Sublist(sub, sup) && i < |sup| && sup[i] !in sub
    ensures Sublist(sub, Without(sup, i)) && Sublist(Without(sup, i), sup)
  {
    WithoutMembers(sup, i);
    hide Without;
  }

  lemma NextToDrop(ops: seq<LogOp>, sup: seq<nat>, sub: seq<nat>) returns (i: nat)
    requires SelectsFrom(ops, sup) && SelectsFrom(ops, sub) && Sublist(sub, sup)
    requires forall y :: y in sup && y !in sub ==> Expendable(ops, sub, y)
    requires exists y :: y in sup && y !in sub
    ensures i < |sup| && sup[i] !in sub && Unmissed(ops[sup[i]], Select(ops, Without(sup, i)))
  {
    if k :| 0 <= k < |sup| && sup[k] !in sub && ops[sup[k]].op.Get? {
      i := k;
    } else {
      var y :| y in sup && y !in sub;
      i :| i < |sup| && sup[i] == y;
      WriteIsUnmissed(ops, sup, sub, i);
    }
  }

  lemma WriteIsUnmissed(ops: seq<LogOp>, sup: seq<nat>, sub: seq<nat>, i: nat)
    requires SelectsFrom(ops, sup) && SelectsFrom(ops, sub) && i < |sup|
    requires !ops[sup[i]].op.Get? && Expendable(ops, sub, sup[i])
    requires forall k :: 0 <= k < |sup| && ops[sup[k]].op.Get? ==> sup[k] in sub
    ensures Unmissed(ops[sup[i]], Select(ops, Without(sup, i)))
  {
    var key := ops[sup[i]].op.key;
    forall k | 0 <= k < |sup|
      ensures ops[sup[k]].op != Get(key)
    {
      if ops[sup[k]].op.Get? {
        var j :| 0 <= j < |sub| && sub[j] == sup[k];
        assert Select(ops, sub)[j] == ops[sup[k]];
      }
    }
    var rest := Without(sup, i);
    forall k | 0 <= k < |rest|
      ensures Select(ops, rest)[k].op != Get(key)
    {
      assert rest[k] == sup[if k < i then k else k + 1];
    }
  }

  // ---- Witnesses -----------------------------------------------------------------------

  /** What shrinking kept when it tried `x`: all of the witness, and beyond it only points after `x`. */
  ghost predicate TriedIn(passes: seq<nat> -> bool, points: seq<nat>, kept: seq<nat>, x: nat, sup: seq<nat>, k: nat) {
    && Sublist(kept, sup) && Sublist(sup, points) && Ascending(sup)
    && k < |sup| && sup[k] == x && passes(Without(sup, k))
    && forall y :: y in sup && y !in kept ==> x < y
  }

  lemma {:induction false} KeptWhenTried(
    passes: seq<nat> -> bool, points: seq<nat>, keep: seq<nat>, i: nat, x: nat)
    returns (sup: seq<nat>, k: nat)
    requires Ascending(keep) && Sublist(keep, points) && i <= |keep|
    requires x in GreedyKeep(passes, keep, i) && x !in keep[..i]
    ensures TriedIn(passes, points, GreedyKeep(passes, keep, i), x, sup, k)
    decreases |keep| - i
  {
    hide GreedyKeep, TriedIn;
    assert keep[..|keep|] == keep;
    if i < |keep| {
      GreedyStep(passes, keep, i);
      if !passes(Without(keep, i)) {
        assert Without(keep, i)[..i] == keep[..i];
        WithoutIsSublist(keep, i);
        sup, k := KeptWhenTried(passes, points, Without(keep, i), i, x);
      } else if x == keep[i] {
        sup, k := keep, i;
        GreedyKeepsFront(passes, keep, i + 1);
        TriedNow(passes, points, GreedyKeep(passes, keep, i), keep, i);
      } else {
        assert keep[..i + 1] == keep[..i] + [keep[i]];
        sup, k := KeptWhenTried(passes, points, keep, i + 1, x);
      }
    } else {
      GreedyEnd(passes, keep);
    }
  }

  lemma WithoutIsSublist(keep: seq<nat>, i: nat)
    requires i < |keep|
    ensures Sublist(Without(keep, i), keep)
  {
  }

  lemma TriedNow(passes: seq<nat> -> bool, points: seq<nat>, kept: seq<nat>, keep: seq<nat>, i: nat)
    requires Ascending(keep) && Sublist(keep, points) && Sublist(kept, keep)
    requires i < |keep| && passes(Without(keep, i))
    requires |kept| > i && kept[..i + 1] == keep[..i + 1]
    ensures TriedIn(passes, points, kept, keep[i], keep, i)
  {
    forall j | 0 <= j <= i
      ensures keep[j] in kept
    {
      assert kept[..i + 1][j] == keep[..i + 1][j];
    }
  }

  lemma {:induction false} GreedyKeepsFront(passes: seq<nat> -> bool, keep: seq<nat>, i: nat)
    requires i <= |keep|
    ensures |GreedyKeep(passes, keep, i)| >= i && GreedyKeep(passes, keep, i)[..i] == keep[..i]
    decreases |keep| - i
  {
    if i == |keep| {
    } else if passes(Without(keep, i)) {
      GreedyKeepsFront(passes, keep, i + 1);
      assert keep[..i + 1][..i] == keep[..i];
      assert GreedyKeep(passes, keep, i)[..i + 1][..i] == GreedyKeep(passes, keep, i)[..i];
    } else {
      GreedyKeepsFront(passes, Without(keep, i), i);
      assert Without(keep, i)[..i] == keep[..i];
    }
  }

  /** Every write dropped behind a kept point is to a key that no kept read reads. */
  ghost predicate DropsOnlyUnmissed(ops: seq<LogOp>, points: seq<nat>, kept: seq<nat>)
    requires SelectsFrom(ops, points) && SelectsFrom(ops, kept)
  {
    forall x, y :: x in kept && y in points && y !in kept && x < y ==> y < |ops| && Expendable(ops, kept, y)
  }

  /**
   A witness is minimal if shrinking dropped, behind what it kept, only reads and
   writes of keys the witness does not read.
   */
  lemma WitnessIsMinimal(ops: seq<LogOp>, initial: KvState, points: seq<nat>)
    requires ValidIntervals(ops) && SelectsFrom(ops, points)
    requires DropsOnlyUnmissed(ops, points, Kept(ops, initial, points))
    ensures IsMinimal(Verdict(ops, initial), Kept(ops, initial, points))
  {
    hide Verdict;
    var passes, kept := Verdict(ops, initial), Kept(ops, initial, points);
    forall k | 0 <= k < |kept|
      ensures passes(Without(kept, k))
    {
      var x := kept[k];
      assert x in kept && points[..0] == [];
      var sup, j := KeptWhenTried(passes, points, points, 0, x);
      MinimalAt(ops, initial, points, sup, j, k);
    }
  }

  /** Every point after the first is a read, or a write of a key no point reads. */
  ghost predicate ReadsFollow(ops: seq<LogOp>, points: seq<nat>)
    requires SelectsFrom(ops, points)
  {
    forall j :: 0 < j < |points| ==> Expendable(ops, points, points[j])
  }

  /**
   What can be said before shrinking: if every point after the first is a read, or a write
   of a key that no point reads, whatever shrinking leaves is minimal.
   */
  lemma ReadsFollowIsMinimal(ops: seq<LogOp>, initial: KvState, points: seq<nat>)
    requires ValidIntervals(ops) && SelectsFrom(ops, points) && ReadsFollow(ops, points)
    ensures IsMinimal(Verdict(ops, initial), Kept(ops, initial, points))
  {
    var kept := Kept(ops, initial, points);
    assert Sublist(kept, points);
    hide Verdict, Kept;
    forall x, y | x in kept && y in points && y !in kept && x < y
      ensures y < |ops| && Expendable(ops, kept, y)
    {
      var i :| 0 <= i < |points| && points[i] == x;
      var j :| 0 <= j < |points| && points[j] == y;
      assert 0 < j;
      assert Expendable(ops, points, points[j]);
      FewerReaders(ops, points, kept, y);
    }
    WitnessIsMinimal(ops, initial, points);
  }

  lemma FewerReaders(ops: seq<LogOp>, points: seq<nat>, kept: seq<nat>, y: nat)
    requires SelectsFrom(ops, points) && SelectsFrom(ops, kept) && Sublist(kept, points)
    requires y < |ops| && Expendable(ops, points, y)
    ensures Expendable(ops, kept, y)
  {
    forall k | 0 <= k < |kept| && !ops[y].op.Get?
      ensures Select(ops, kept)[k].op != Get(ops[y].op.key)
    {
      assert kept[k] in kept;
      var i :| 0 <= i < |points| && points[i] == kept[k];
      assert Select(ops, points)[i] == Select(ops, kept)[k];
    }
  }

  lemma MinimalAt(ops: seq<LogOp>, initial: KvState, points: seq<nat>, sup: seq<nat>, j: nat, k: nat)
    requires ValidIntervals(ops) && SelectsFrom(ops, points)
    requires DropsOnlyUnmissed(ops, points, Kept(ops, initial, points))
    requires k < |Kept(ops, initial, points)|
    requires TriedIn(Verdict(ops, initial), points, Kept(ops, initial, points), Kept(ops, initial, points)[k], sup, j)
    ensures Verdict(ops, initial)(Without(Kept(ops, initial, points), k))
  {
    hide Verdict, Kept;
    var kept := Kept(ops, initial, points);
    var big, small := Without(sup, j), Without(kept, k);
    SelectionsWithout(ops, points, sup, j);
    SmallerSelection(ops, kept, k);
    WithoutBoth(sup, kept, j, k);
    WithoutIsSublist(kept, k);
    forall y | y in big && y !in small
      ensures Expendable(ops, small, y)
    {
      assert y in sup && y in points;
      assert y !in kept;
      assert kept[k] in kept && kept[k] < y;
      FewerReaders(ops, kept, small, y);
    }
    DropAllKeepsPassing(ops, initial, big, small);
  }

  lemma SelectionsWithout(ops: seq<LogOp>, points: seq<nat>, sup: seq<nat>, j: nat)
    requires SelectsFrom(ops, points) && Sublist(sup, points) && Ascending(sup) && j < |sup|
    ensures SelectsFrom(ops, sup) && SelectsFrom(ops, Without(sup, j))
  {
    forall k | 0 <= k < |sup|
      ensures sup[k] < |ops|
    {
      assert sup[k] in sup && sup[k] in points;
    }
  }

  lemma SmallerSelection(ops: seq<LogOp>, s: seq<nat>, k: nat)
    requires SelectsFrom(ops, s) && k < |s|
    ensures SelectsFrom(ops, Without(s, k))
  {
  }

  /** Dropping one element of both keeps one selection part of the other, and adds nothing to the difference. */
  lemma WithoutBoth(sup: seq<nat>, kept: seq<nat>, j: nat, k: nat)
    requires Ascending(sup) && Ascending(kept) && Sublist(kept, sup)
    requires j < |sup| && k < |kept| && sup[j] == kept[k]
    ensures Sublist(Without(kept, k), Without(sup, j))
    ensures forall y :: y in Without(sup, j) && y !in Without(kept, k) ==> y in sup && y !in kept
  {
    WithoutMembers(sup, j);
    WithoutMembers(kept, k);
    hide Without;
  }
}
