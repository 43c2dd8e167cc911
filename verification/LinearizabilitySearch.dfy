/**
 The backtracking search over linear extensions of the real-time order. It works
 in place on two arrays (`resolved` flags and `remaining` predecessor counts) and
 undoes its changes on every failed branch.
 */
module LinearizabilitySearch {
  import opened Base
  import opened OracleModel
  import opened Linearizability

  /** For every point, how many of its predecessors are unresolved. */
  ghost function Remaining(p: Problem, done: set<nat>): (counts: seq<nat>) {
    seq(|p.pts|, j requires 0 <= j < |p.pts| => |UnresolvedPreds(p, done, j)|)
  }

  ghost predicate NoDuplicates(s: seq<nat>) {
    forall k, l :: 0 <= k < l < |s| ==> s[k] != s[l]
  }

  /** `s` lists the points that point `i` really precedes, each once. */
  ghost predicate IsSuccessorList(p: Problem, i: nat, s: seq<nat>)
    requires i < |p.pts|
  {
    && NoDuplicates(s)
    && (forall k :: 0 <= k < |s| ==> s[k] < |p.pts|)
    && (forall j: nat :: j < |p.pts| ==> (j in s <==> p.Precedes(i, j)))
  }

  ghost predicate IsSuccessorTable(p: Problem, successors: seq<seq<nat>>) {
    |successors| == |p.pts| &&
    forall i :: 0 <= i < |p.pts| ==> IsSuccessorList(p, i, successors[i])
  }

  /** Resolving a point takes exactly one off the count of each of its successors. */
  lemma RemainingAfterResolving(p: Problem, done: set<nat>, i: nat, j: nat)
    requires i < |p.pts| && i !in done && j < |p.pts|
    ensures p.Precedes(i, j) ==> Remaining(p, done)[j] == Remaining(p, done + {i})[j] + 1
    ensures !p.Precedes(i, j) ==> Remaining(p, done)[j] == Remaining(p, done + {i})[j]
  {
    var before, after := UnresolvedPreds(p, done, j), UnresolvedPreds(p, done + {i}, j);
    if p.Precedes(i, j) {
      assert before == after + {i};
    } else {
      assert before == after;
    }
  }

  method Release(successors: seq<nat>, remaining: array<nat>)
    requires NoDuplicates(successors)
    requires forall k :: 0 <= k < |successors| ==> successors[k] < remaining.Length && remaining[successors[k]] > 0
    modifies remaining
    ensures forall j :: 0 <= j < remaining.Length ==>
              remaining[j] == if j in successors then old(remaining[j]) - 1 else old(remaining[j])
  {
    for k := 0 to |successors|
      invariant forall j :: 0 <= j < remaining.Length ==>
                  remaining[j] == if j in successors[..k] then old(remaining[j]) - 1 else old(remaining[j])
    {
      assert successors[k] !in successors[..k];
      remaining[successors[k]] := remaining[successors[k]] - 1;
      assert successors[..k + 1] == successors[..k] + [successors[k]];
    }
    assert successors[..|successors|] == successors;
  }

  method Reinstate(successors: seq<nat>, remaining: array<nat>)
    requires NoDuplicates(successors)
    requires forall k :: 0 <= k < |successors| ==> successors[k] < remaining.Length
    modifies remaining
    ensures forall j :: 0 <= j < remaining.Length ==>
              remaining[j] == if j in successors then old(remaining[j]) + 1 else old(remaining[j])
  {
    for k := 0 to |successors|
      invariant forall j :: 0 <= j < remaining.Length ==>
                  remaining[j] == if j in successors[..k] then old(remaining[j]) + 1 else old(remaining[j])
    {
      assert successors[k] !in successors[..k];
      remaining[successors[k]] := remaining[successors[k]] + 1;
      assert successors[..k + 1] == successors[..k] + [successors[k]];
    }
    assert successors[..|successors|] == successors;
  }

  /** The two arrays describe the search state in which exactly `done` is resolved. */
  ghost predicate Describes(p: Problem, resolved: array<bool>, remaining: array<nat>, done: set<nat>)
    reads resolved, remaining
  {
    && resolved.Length == |p.pts|
    && done <= All(p)
    && (forall i :: 0 <= i < |p.pts| ==> (resolved[i] <==> i in done))
    && remaining[..] == Remaining(p, done)
  }

  /** Mark point `i` resolved and release its successors. */
  method Resolve(p: Problem, successors: seq<seq<nat>>, resolved: array<bool>, remaining: array<nat>,
                 ghost done: set<nat>, i: nat)
    requires IsSuccessorTable(p, successors)
    requires Describes(p, resolved, remaining, done)
    requires i < |p.pts| && i !in done
    modifies resolved, remaining
    ensures Describes(p, resolved, remaining, done + {i})
  {
    resolved[i] := true;
    forall j | 0 <= j < |p.pts|
      ensures p.Precedes(i, j) ==> remaining[j] == Remaining(p, done + {i})[j] + 1
      ensures !p.Precedes(i, j) ==> remaining[j] == Remaining(p, done + {i})[j]
    {
      RemainingAfterResolving(p, done, i, j);
    }
    Release(successors[i], remaining);
    assert forall j :: 0 <= j < |p.pts| ==> remaining[j] == Remaining(p, done + {i})[j];
    assert remaining[..] == Remaining(p, done + {i});
  }

  /** Undo `Resolve`. */
  method Unresolve(p: Problem, successors: seq<seq<nat>>, resolved: array<bool>, remaining: array<nat>,
                   ghost done: set<nat>, i: nat)
    requires IsSuccessorTable(p, successors)
    requires i < |p.pts| && i !in done
    requires Describes(p, resolved, remaining, done + {i})
    modifies resolved, remaining
    ensures Describes(p, resolved, remaining, done)
  {
    forall j | 0 <= j < |p.pts|
      ensures p.Precedes(i, j) ==> remaining[j] + 1 == Remaining(p, done)[j]
      ensures !p.Precedes(i, j) ==> remaining[j] == Remaining(p, done)[j]
    {
      RemainingAfterResolving(p, done, i, j);
    }
    Reinstate(successors[i], remaining);
    resolved[i] := false;
    assert remaining[..] == Remaining(p, done);
  }

  /**
   One branch of the search: resolve point `i`, continue with the store at
   `next`, and undo the resolution if that fails.
   */
  method Branch(p: Problem, successors: seq<seq<nat>>, resolved: array<bool>, remaining: array<nat>,
                next: KvState, count: nat, ghost done: set<nat>, i: nat)
    returns (ok: bool)
    requires p.Valid() && IsSuccessorTable(p, successors)
    requires Describes(p, resolved, remaining, done) && count == |done|
    requires i < |p.pts| && i !in done
    modifies resolved, remaining
    ensures ok <==> CanFinish(p, done + {i}, next)
    ensures !ok ==> Describes(p, resolved, remaining, done)
    decreases |p.pts| - count, 0
  {
    SubsetSize(done + {i}, All(p));
    Resolve(p, successors, resolved, remaining, done, i);
    ok := Dfs(p, successors, resolved, remaining, next, count + 1, done + {i});
    if !ok {
      Unresolve(p, successors, resolved, remaining, done, i);
    }
  }

  /**
   One turn of the search loop: place point `i`, or skip it if it is optional,
   provided it and all its predecessors allow that.
   */
  method TryPoint(p: Problem, successors: seq<seq<nat>>, resolved: array<bool>, remaining: array<nat>,
                  state: KvState, count: nat, ghost done: set<nat>, i: nat)
    returns (ok: bool)
    requires p.Valid() && IsSuccessorTable(p, successors)
    requires Describes(p, resolved, remaining, done) && count == |done|
    requires i < |p.pts|
    modifies resolved, remaining
    ensures ok <==> CanResolve(p, done, state, i)
    ensures !ok ==> Describes(p, resolved, remaining, done)
    decreases |p.pts| - count, 1
  {
    assert remaining[i] == |UnresolvedPreds(p, done, i)|;
    if resolved[i] || remaining[i] != 0 {
      return false;
    }
    ok := false;
    var required := p.kinds[i] == Required;
    var (next, expected) := Apply(state, p.pts[i].op);
    if !required || p.pts[i].result == Some(expected) {
      ok := Branch(p, successors, resolved, remaining, next, count, done, i);
    }
    if !ok && !required {
      ok := Branch(p, successors, resolved, remaining, state, count, done, i);
    }
  }

  ghost predicate NoneBelow(p: Problem, done: set<nat>, state: KvState, n: nat)
    requires p.Valid() && done <= All(p)
  {
    forall k :: 0 <= k < n ==> !CanResolve(p, done, state, k)
  }

  lemma NoneBelowNext(p: Problem, done: set<nat>, state: KvState, n: nat)
    requires p.Valid() && done <= All(p)
    requires NoneBelow(p, done, state, n) && !CanResolve(p, done, state, n)
    ensures NoneBelow(p, done, state, n + 1)
  {
  }

  lemma {:induction false} SomePointResolves(p: Problem, done: set<nat>, state: KvState, i: nat)
    requires p.Valid() && done <= All(p) && CanResolve(p, done, state, i)
    ensures CanFinish(p, done, state)
  {
  }

  lemma {:induction false} NoPointResolves(p: Problem, done: set<nat>, state: KvState)
    requires p.Valid() && done <= All(p) && done != All(p)
    requires NoneBelow(p, done, state, |p.pts|)
    ensures !CanFinish(p, done, state)
  {
    forall k: nat
      ensures !CanResolve(p, done, state, k)
    {
    }
  }

  /**
   Decide whether the points outside `done` can all be placed or skipped. On
   failure both arrays are as they were; on success they are left as they are.
   */
  method Dfs(p: Problem, successors: seq<seq<nat>>, resolved: array<bool>, remaining: array<nat>,
             state: KvState, count: nat, ghost done: set<nat>)
    returns (ok: bool)
    requires p.Valid() && IsSuccessorTable(p, successors)
    requires Describes(p, resolved, remaining, done) && count == |done|
    modifies resolved, remaining
    ensures ok <==> CanFinish(p, done, state)
    ensures !ok ==> Describes(p, resolved, remaining, done)
    decreases |p.pts| - count, 2
  {
    SubsetSize(done, All(p));
    if count == |p.pts| {
      return true;
    }
    assert done != All(p);
    for i := 0 to |p.pts|
      invariant Describes(p, resolved, remaining, done)
      invariant NoneBelow(p, done, state, i)
    {
      ok := TryPoint(p, successors, resolved, remaining, state, count, done, i);
      if ok {
        SomePointResolves(p, done, state, i);
        return;
      }
      NoneBelowNext(p, done, state, i);
    }
    ok := false;
    NoPointResolves(p, done, state);
  }

  // ---- Building the tables -------------------------------------------------

  /** The points an index list selects. */
  function Select(ops: seq<LogOp>, points: seq<nat>): (pts: seq<LogOp>)
    requires forall k :: 0 <= k < |points| ==> points[k] < |ops|
    ensures |pts| == |points| && forall k :: 0 <= k < |pts| ==> pts[k] == ops[points[k]]
  {
    seq(|points|, k requires 0 <= k < |points| => ops[points[k]])
  }

  /** The loop over pairs has compared `x` with `y` when it stands before pair `(a, b)`. */
  ghost predicate Compared(a: nat, b: nat, x: nat, y: nat) {
    || (x < y && (x < a || (x == a && y < b)))
    || (y < x && (y < a || (y == a && x < b)))
  }

  ghost function PredsSoFar(p: Problem, a: nat, b: nat, y: nat): set<nat>
    requires y < |p.pts|
  {
    set x: nat | x < |p.pts| && Compared(a, b, x, y) && p.Precedes(x, y)
  }

  /** The tables hold the edges between the pairs compared so far. */
  ghost predicate TablesSoFar(p: Problem, a: nat, b: nat, successors: seq<seq<nat>>, remaining: seq<nat>) {
    && |successors| == |remaining| == |p.pts|
    && (forall x :: 0 <= x < |p.pts| ==> ListSoFar(p, a, b, x, successors[x]))
    && (forall y :: 0 <= y < |p.pts| ==> remaining[y] == |PredsSoFar(p, a, b, y)|)
  }

  ghost predicate ListSoFar(p: Problem, a: nat, b: nat, x: nat, s: seq<nat>)
    requires x < |p.pts|
  {
    && NoDuplicates(s)
    && (forall k :: 0 <= k < |s| ==> s[k] < |p.pts|)
    && (forall y: nat :: y < |p.pts| ==> (y in s <==> Compared(a, b, x, y) && p.Precedes(x, y)))
  }

  /** The successor lists once the edge from `x` to `y` of the pair being compared is added. */
  lemma AddEdgeToLists(p: Problem, a: nat, b: nat, x: nat, y: nat, z: nat, s: seq<nat>)
    requires a < b < |p.pts| && ((x == a && y == b) || (x == b && y == a))
    requires p.Precedes(x, y)
    requires z < |p.pts| && ListSoFar(p, a, b, z, s)
    ensures ListSoFar(p, a, b + 1, z, if z == x then s + [y] else s)
  {
    if z == x {
      assert y !in s;
      assert forall j :: j in s + [y] <==> j in s || j == y;
    }
  }

  lemma AddEdgeToCounts(p: Problem, a: nat, b: nat, x: nat, y: nat, z: nat)
    requires a < b < |p.pts| && ((x == a && y == b) || (x == b && y == a))
    requires p.Precedes(x, y) && z < |p.pts|
    ensures |PredsSoFar(p, a, b + 1, z)| == |PredsSoFar(p, a, b, z)| + if z == y then 1 else 0
  {
    if z == y {
      assert PredsSoFar(p, a, b + 1, z) == PredsSoFar(p, a, b, z) + {x};
    } else {
      assert PredsSoFar(p, a, b + 1, z) == PredsSoFar(p, a, b, z);
    }
  }

  /** Adding the edge from `x` to `y`, where `x` and `y` are the pair being compared. */
  lemma AddEdge(p: Problem, a: nat, b: nat, x: nat, y: nat, successors: seq<seq<nat>>, remaining: seq<nat>)
    requires a < b < |p.pts| && ((x == a && y == b) || (x == b && y == a))
    requires p.Precedes(x, y)
    requires TablesSoFar(p, a, b, successors, remaining)
    ensures TablesSoFar(p, a, b + 1, successors[x := successors[x] + [y]], remaining[y := remaining[y] + 1])
  {
    forall z | 0 <= z < |p.pts|
      ensures ListSoFar(p, a, b + 1, z, if z == x then successors[x] + [y] else successors[z])
    {
      AddEdgeToLists(p, a, b, x, y, z, successors[z]);
    }
    forall z | 0 <= z < |p.pts|
      ensures |PredsSoFar(p, a, b + 1, z)| == |PredsSoFar(p, a, b, z)| + if z == y then 1 else 0
    {
      AddEdgeToCounts(p, a, b, x, y, z);
    }
  }

  /** Two concurrent points add nothing. */
  lemma AddNothing(p: Problem, a: nat, b: nat, successors: seq<seq<nat>>, remaining: seq<nat>)
    requires a < b < |p.pts|
    requires !p.Precedes(a, b) && !p.Precedes(b, a)
    requires TablesSoFar(p, a, b, successors, remaining)
    ensures TablesSoFar(p, a, b + 1, successors, remaining)
  {
    forall z | 0 <= z < |p.pts|
      ensures PredsSoFar(p, a, b + 1, z) == PredsSoFar(p, a, b, z)
    {
    }
  }

  /** Finishing the row of `a` and starting the row of `a + 1` compares nothing new. */
  lemma NextRow(p: Problem, a: nat, successors: seq<seq<nat>>, remaining: seq<nat>)
    requires a < |p.pts|
    requires TablesSoFar(p, a, |p.pts|, successors, remaining)
    ensures TablesSoFar(p, a + 1, a + 2, successors, remaining)
  {
    forall y | 0 <= y < |p.pts|
      ensures PredsSoFar(p, a + 1, a + 2, y) == PredsSoFar(p, a, |p.pts|, y)
    {
    }
  }

  lemma TablesComplete(p: Problem, successors: seq<seq<nat>>, remaining: seq<nat>)
    requires TablesSoFar(p, |p.pts|, |p.pts| + 1, successors, remaining)
    ensures IsSuccessorTable(p, successors)
    ensures remaining == Remaining(p, {})
  {
    forall y | 0 <= y < |p.pts|
      ensures remaining[y] == Remaining(p, {})[y]
    {
      assert PredsSoFar(p, |p.pts|, |p.pts| + 1, y) == UnresolvedPreds(p, {}, y);
    }
  }

  lemma NothingCompared(p: Problem, successors: seq<seq<nat>>, remaining: seq<nat>)
    requires |successors| == |remaining| == |p.pts|
    requires forall x :: 0 <= x < |p.pts| ==> successors[x] == [] && remaining[x] == 0
    ensures TablesSoFar(p, 0, 1, successors, remaining)
  {
    forall y | 0 <= y < |p.pts|
      ensures PredsSoFar(p, 0, 1, y) == {}
    {
    }
  }

  /** Compare one pair of points and record the edge between them, if there is one. */
  method ComparePair(p: Problem, a: nat, b: nat, successors: array<seq<nat>>, remaining: array<nat>)
    requires a < b < |p.pts|
    requires TablesSoFar(p, a, b, successors[..], remaining[..])
    modifies successors, remaining
    ensures TablesSoFar(p, a, b + 1, successors[..], remaining[..])
  {
    ghost var s, r := successors[..], remaining[..];
    var aBeforeB := p.pts[a].CompletedBy(p.pts[b].invokeTs);
    var bBeforeA := p.pts[b].CompletedBy(p.pts[a].invokeTs);
    if aBeforeB && !bBeforeA {
      AddEdge(p, a, b, a, b, s, r);
      successors[a] := successors[a] + [b];
      remaining[b] := remaining[b] + 1;
      assert successors[..] == s[a := s[a] + [b]] && remaining[..] == r[b := r[b] + 1];
    } else if bBeforeA && !aBeforeB {
      AddEdge(p, a, b, b, a, s, r);
      successors[b] := successors[b] + [a];
      remaining[a] := remaining[a] + 1;
      assert successors[..] == s[b := s[b] + [a]] && remaining[..] == r[a := r[a] + 1];
    } else {
      AddNothing(p, a, b, s, r);
    }
  }

  /** The successor lists and predecessor counts of the real-time order. */
  method BuildTables(p: Problem) returns (successors: array<seq<nat>>, remaining: array<nat>)
    ensures fresh(successors) && fresh(remaining)
    ensures IsSuccessorTable(p, successors[..])
    ensures remaining[..] == Remaining(p, {})
  {
    var n := |p.pts|;
    successors := new seq<nat>[n](_ => []);
    remaining := new nat[n](_ => 0);
    NothingCompared(p, successors[..], remaining[..]);
    hide TablesSoFar, IsSuccessorTable, Remaining;
    for a := 0 to n
      invariant TablesSoFar(p, a, a + 1, successors[..], remaining[..])
    {
      for b := a + 1 to n
        invariant TablesSoFar(p, a, b, successors[..], remaining[..])
      {
        ComparePair(p, a, b, successors, remaining);
      }
      NextRow(p, a, successors[..], remaining[..]);
    }
    TablesComplete(p, successors[..], remaining[..]);
  }

  /** Decide whether the selected points can be ordered as a legal run from `initial`. */
  method Search(ops: seq<LogOp>, points: seq<nat>, kinds: seq<PointKind>, initial: KvState) returns (ok: bool)
    requires |points| == |kinds|
    requires forall k :: 0 <= k < |points| ==> points[k] < |ops|
    ensures ok <==> CanFinish(Problem(Select(ops, points), kinds), {}, initial)
  {
    var p := Problem(Select(ops, points), kinds);
    var successors, remaining := BuildTables(p);
    var resolved := new bool[|points|](_ => false);
    ok := Dfs(p, successors[..], resolved, remaining, initial, 0, {});
  }
}
