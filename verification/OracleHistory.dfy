/**
 The raw client history: recording calls, checking that the record is well formed,
 and merging the retries of one logical operation.
 */
module OracleHistory {
  import opened Base
  import opened OracleModel
  import opened LinearizabilityCheck
  import opened OracleChecks
  import opened Sorting

  datatype Event =
    | Invoke(call: nat, client: nat, seqNo: nat, op: Op, ts: U64)
    | Complete(call: nat, ts: U64, result: OpResult, logId: Option<nat>)

  /** The identity of a logical operation. */
  datatype OpId = OpId(client: nat, seqNo: nat)

  function IdOf(e: Event): OpId
    requires e.Invoke?
  {
    OpId(e.client, e.seqNo)
  }

  /** What has been recorded for one logical operation. */
  datatype Group = Group(
    op: Option<Op>,
    invokeTs: Option<U64>,
    calls: seq<nat>,
    completes: seq<(U64, OpResult)>,
    logIds: seq<nat>)

  const EMPTY_GROUP := Group(None, None, [], [], [])

  function Min(a: U64, b: U64): U64 {
    if a <= b then a else b
  }

  /** Add an event to the group it belongs to. */
  function AddEvent(g: Group, e: Event): Group {
    match e
    case Invoke(call, _, _, op, ts) =>
      g.(op := if g.op.None? then Some(op) else g.op,
         invokeTs := Some(Min(if g.invokeTs.Some? then g.invokeTs.value else U64_MAX, ts)),
         calls := g.calls + [call])
    case Complete(_, ts, result, logId) =>
      g.(completes := g.completes + [(ts, result)],
         logIds := if logId.Some? then g.logIds + [logId.value] else g.logIds)
  }

  /** The first successful completion, else the last one. */
  function Observed(completes: seq<(U64, OpResult)>): (seen: Option<(U64, OpResult)>)
    ensures seen.None? <==> completes == []
  {
    if completes == [] then None
    else if completes[0].1.Done? then Some(completes[0])
    else
      var rest := Observed(completes[1..]);
      if rest.Some? then rest else Some(completes[0])
  }

  function IntoLogOp(g: Group, id: OpId): (merged: Option<LogOp>)
    ensures merged.Some? <==> g.op.Some?
    ensures merged.Some? ==> IdOfOp(merged.value) == id
  {
    if g.op.None? then None
    else
      var seen := Observed(g.completes);
      Some(LogOp(id.client, id.seqNo, g.op.value,
                 if g.invokeTs.Some? then g.invokeTs.value else 0,
                 if seen.Some? then Some(seen.value.0) else None,
                 if seen.Some? then Some(seen.value.1) else None,
                 g.logIds, g.calls))
  }

  // ---- What the merge computes -----------------------------------------------

  /** The logical operation each call belongs to, by its last invoke. */
  function CallKeys(events: seq<Event>): map<nat, OpId> {
    if events == [] then map[]
    else
      var e := events[|events| - 1];
      var keys := CallKeys(events[..|events| - 1]);
      if e.Invoke? then keys[e.call := IdOf(e)] else keys
  }

  /** The logical operation an event belongs to, if any. */
  function Owner(keys: map<nat, OpId>, e: Event): Option<OpId> {
    if e.Invoke? then Some(IdOf(e))
    else if e.call in keys then Some(keys[e.call])
    else None
  }

  /** The events of one logical operation, in order. */
  function Project(keys: map<nat, OpId>, events: seq<Event>, id: OpId): seq<Event> {
    if events == [] then []
    else
      var e := events[|events| - 1];
      Project(keys, events[..|events| - 1], id) + if Owner(keys, e) == Some(id) then [e] else []
  }

  function Fold(events: seq<Event>): Group {
    if events == [] then EMPTY_GROUP else AddEvent(Fold(events[..|events| - 1]), events[|events| - 1])
  }

  function GroupOf(events: seq<Event>, id: OpId): Group {
    Fold(Project(CallKeys(events), events, id))
  }

  function IdOfOp(op: LogOp): OpId {
    OpId(op.client, op.seqNo)
  }

  predicate OpAtMost(a: LogOp, b: LogOp) {
    !OpBefore(b, a)
  }

  predicate OpBefore(a: LogOp, b: LogOp) {
    || a.invokeTs < b.invokeTs
    || (a.invokeTs == b.invokeTs && a.client < b.client)
    || (a.invokeTs == b.invokeTs && a.client == b.client && a.seqNo < b.seqNo)
  }

  ghost predicate IsInvoked(events: seq<Event>, id: OpId) {
    exists i :: 0 <= i < |events| && events[i].Invoke? && IdOf(events[i]) == id
  }

  /**
   `ops` is the reduction of `events`: one operation per invoked `(client, seqNo)`,
   merged from exactly the events that belong to it, in strict order.
   */
  ghost predicate IsReduction(events: seq<Event>, ops: seq<LogOp>) {
    && StrictlySorted(OpBefore, ops)
    && (forall op :: op in ops ==>
          && IsInvoked(events, IdOfOp(op))
          && Some(op) == IntoLogOp(GroupOf(events, IdOfOp(op)), IdOfOp(op)))
    && (forall id :: IsInvoked(events, id) ==> exists op :: op in ops && IdOfOp(op) == id)
  }

  // ---- The merge -------------------------------------------------------------

  ghost predicate HoldsGroup(keys: map<nat, OpId>, events: seq<Event>, groups: map<OpId, Group>, id: OpId) {
    && Fold(Project(keys, events, id)) == GroupIn(groups, id)
    && (id in groups <==> Project(keys, events, id) != [])
  }

  ghost predicate HoldsGroups(keys: map<nat, OpId>, events: seq<Event>, groups: map<OpId, Group>) {
    forall id :: HoldsGroup(keys, events, groups, id)
  }

  function GroupIn(groups: map<OpId, Group>, id: OpId): Group {
    if id in groups then groups[id] else EMPTY_GROUP
  }

  lemma {:induction false} ProjectOneMore(keys: map<nat, OpId>, events: seq<Event>, e: Event, id: OpId)
    ensures Project(keys, events + [e], id) ==
            if Owner(keys, e) == Some(id) then Project(keys, events, id) + [e] else Project(keys, events, id)
  {
    assert (events + [e])[..|events|] == events;
  }

  lemma {:induction false} FoldOneMore(events: seq<Event>, e: Event)
    ensures Fold(events + [e]) == AddEvent(Fold(events), e)
  {
    assert (events + [e])[..|events|] == events;
  }

  lemma GroupOneEvent(
    keys: map<nat, OpId>, events: seq<Event>, e: Event, groups: map<OpId, Group>, more: map<OpId, Group>)
    requires HoldsGroups(keys, events, groups)
    requires var owner := Owner(keys, e);
             more == if owner.None? then groups
                     else groups[owner.value := AddEvent(GroupIn(groups, owner.value), e)]
    ensures HoldsGroups(keys, events + [e], more)
  {
    forall id
      ensures HoldsGroup(keys, events + [e], more, id)
    {
      assert HoldsGroup(keys, events, groups, id);
      ProjectOneMore(keys, events, e, id);
      if Owner(keys, e) == Some(id) {
        FoldOneMore(Project(keys, events, id), e);
      }
    }
  }

  // ---- What a group holds ----------------------------------------------------

  lemma {:induction false} ProjectMembers(keys: map<nat, OpId>, events: seq<Event>, id: OpId, e: Event)
    ensures e in Project(keys, events, id) <==> e in events && Owner(keys, e) == Some(id)
  {
    if events != [] {
      var n := |events| - 1;
      assert events == events[..n] + [events[n]];
      ProjectMembers(keys, events[..n], id, e);
      ProjectOneMore(keys, events[..n], events[n], id);
    }
  }

  /** A call is attributed to an operation that was invoked under it. */
  lemma {:induction false} CallKeysAreInvoked(events: seq<Event>, call: nat)
    ensures call in CallKeys(events) ==>
              exists e :: e in events && e.Invoke? && e.call == call && IdOf(e) == CallKeys(events)[call]
    ensures forall e :: e in events && e.Invoke? ==> e.call in CallKeys(events)
  {
    if events != [] {
      var n := |events| - 1;
      assert events == events[..n] + [events[n]];
      CallKeysAreInvoked(events[..n], call);
      if events[n].Invoke? && events[n].call == call {
        assert events[n] in events;
      }
    }
  }

  function InvokedCalls(events: seq<Event>): seq<nat> {
    if events == [] then []
    else
      var e := events[|events| - 1];
      InvokedCalls(events[..|events| - 1]) + if e.Invoke? then [e.call] else []
  }

  function Completions(events: seq<Event>): seq<(U64, OpResult)> {
    if events == [] then []
    else
      var e := events[|events| - 1];
      Completions(events[..|events| - 1]) + if e.Complete? then [(e.ts, e.result)] else []
  }

  function LogIds(events: seq<Event>): seq<nat> {
    if events == [] then []
    else
      var e := events[|events| - 1];
      LogIds(events[..|events| - 1]) + if e.Complete? && e.logId.Some? then [e.logId.value] else []
  }

  ghost predicate IsFirstInvoke(events: seq<Event>, k: int) {
    0 <= k < |events| && events[k].Invoke? && forall j :: 0 <= j < k ==> !events[j].Invoke?
  }

  /** The group of a list of events: its calls and completions in order, and its earliest invoke. */
  lemma {:induction false} FoldMeaning(events: seq<Event>)
    ensures var g := Fold(events);
            && g.calls == InvokedCalls(events)
            && g.completes == Completions(events)
            && (g.op.Some? <==> g.invokeTs.Some?)
            && (g.op.Some? <==> exists e :: e in events && e.Invoke?)
            && (g.op.Some? ==> exists k :: IsFirstInvoke(events, k) && events[k].op == g.op.value)
            && g.logIds == LogIds(events)
            && (g.invokeTs.Some? ==> exists e :: e in events && e.Invoke? && e.ts == g.invokeTs.value)
            && forall e :: e in events && e.Invoke? ==> g.invokeTs.value <= e.ts
  {
    if events != [] {
      var n := |events| - 1;
      assert events == events[..n] + [events[n]];
      FoldMeaning(events[..n]);
      if events[n].Invoke? {
        assert events[n] in events;
      }
      if Fold(events[..n]).op.Some? {
        var k :| IsFirstInvoke(events[..n], k) && events[..n][k].op == Fold(events[..n]).op.value;
        assert IsFirstInvoke(events, k);
      } else if events[n].Invoke? {
        assert IsFirstInvoke(events, n);
      }
    }
  }

  lemma {:induction false} InvokedHasOp(events: seq<Event>, id: OpId)
    requires IsInvoked(events, id)
    ensures GroupOf(events, id).op.Some?
    ensures Project(CallKeys(events), events, id) != []
  {
    var keys := CallKeys(events);
    var i :| 0 <= i < |events| && events[i].Invoke? && IdOf(events[i]) == id;
    ProjectMembers(keys, events, id, events[i]);
    FoldMeaning(Project(keys, events, id));
  }

  lemma {:induction false} OwnedIsInvoked(events: seq<Event>, id: OpId)
    requires Project(CallKeys(events), events, id) != []
    ensures IsInvoked(events, id)
  {
    var keys := CallKeys(events);
    var e := Project(keys, events, id)[0];
    ProjectMembers(keys, events, id, e);
    CallKeysAreInvoked(events, e.call);
  }

  /** Sorting one merged operation per group gives the reduction. */
  lemma {:induction false} SortedGroupsAreReduction(
    events: seq<Event>, groups: map<OpId, Group>, merged: seq<LogOp>, ops: seq<LogOp>)
    requires HoldsGroups(CallKeys(events), events, groups)
    requires forall i, j :: 0 <= i < j < |merged| ==> IdOfOp(merged[i]) != IdOfOp(merged[j])
    requires forall op :: op in merged ==> var id := IdOfOp(op); id in groups && Some(op) == IntoLogOp(groups[id], id)
    requires forall id :: id in groups && groups[id].op.Some? ==> IntoLogOp(groups[id], id).value in merged
    requires ops == SortBy(OpAtMost, merged)
    ensures IsReduction(events, ops)
  {
    MultisetMembers(ops, merged);
    DistinctUnderPermutation(merged, ops);
    SortIsSorted(OpAtMost, merged);
    forall i, j | 0 <= i < j < |ops|
      ensures OpBefore(ops[i], ops[j])
    {
      assert OpAtMost(ops[i], ops[j]);
      assert ops[i] in ops && ops[j] in ops;
      assert ops[i] != ops[j];
    }
    forall op | op in ops
      ensures IsInvoked(events, IdOfOp(op)) && Some(op) == IntoLogOp(GroupOf(events, IdOfOp(op)), IdOfOp(op))
    {
      assert HoldsGroup(CallKeys(events), events, groups, IdOfOp(op));
      OwnedIsInvoked(events, IdOfOp(op));
    }
    forall id | IsInvoked(events, id)
      ensures exists op :: op in ops && IdOfOp(op) == id
    {
      assert HoldsGroup(CallKeys(events), events, groups, id);
      InvokedHasOp(events, id);
      assert IntoLogOp(groups[id], id).value in ops;
    }
  }

  // ---- The recorded history --------------------------------------------------

  class History {
    var events: seq<Event>

    constructor ()
      ensures events == []
    {
      events := [];
    }

    method RecordInvoke(call: nat, client: nat, seqNo: nat, op: Op, ts: U64)
      modifies this
      ensures events == old(events) + [Invoke(call, client, seqNo, op, ts)]
    {
      events := events + [Invoke(call, client, seqNo, op, ts)];
    }

    method RecordComplete(call: nat, ts: U64, result: OpResult, logId: Option<nat>)
      modifies this
      ensures events == old(events) + [Complete(call, ts, result, logId)]
    {
      events := events + [Complete(call, ts, result, logId)];
    }

    method GroupEvents() returns (groups: map<OpId, Group>)
      ensures HoldsGroups(CallKeys(events), events, groups)
    {
      var keys: map<nat, OpId> := map[];
      for i := 0 to |events|
        invariant keys == CallKeys(events[..i])
      {
        assert events[..i + 1][..i] == events[..i];
        if events[i].Invoke? {
          keys := keys[events[i].call := IdOf(events[i])];
        }
      }
      assert events[..|events|] == events;
      groups := map[];
      for i := 0 to |events|
        invariant HoldsGroups(keys, events[..i], groups)
      {
        ghost var before := groups;
        var owner := Owner(keys, events[i]);
        if owner.Some? {
          groups := groups[owner.value := AddEvent(GroupIn(groups, owner.value), events[i])];
        }
        GroupOneEvent(keys, events[..i], events[i], before, groups);
        assert events[..i + 1] == events[..i] + [events[i]];
      }
    }

    /** Merge the retries of every operation and put the operations in order. */
    method MergeRetries() returns (ops: seq<LogOp>)
      ensures IsReduction(events, ops)
    {
      var groups := GroupEvents();
      var merged: seq<LogOp> := [];
      var todo := groups.Keys;
      while todo != {}
        invariant todo <= groups.Keys
        invariant forall i, j :: 0 <= i < j < |merged| ==> IdOfOp(merged[i]) != IdOfOp(merged[j])
        invariant forall op :: op in merged ==>
                    var id := IdOfOp(op);
                    id in groups && id !in todo && Some(op) == IntoLogOp(groups[id], id)
        invariant forall id :: id in groups && id !in todo && groups[id].op.Some? ==>
                    IntoLogOp(groups[id], id).value in merged
        decreases todo
      {
        var id :| id in todo;
        var op := IntoLogOp(groups[id], id);
        if op.Some? {
          merged := merged + [op.value];
        }
        todo := todo - {id};
      }
      ops := SortBy(OpAtMost, merged);
      SortedGroupsAreReduction(events, groups, merged, ops);
    }
  }

  // ---- What the reduction promises ------------------------------------------

  /** Every call completes at or after it was invoked. */
  ghost predicate CallsInOrder(events: seq<Event>) {
    forall i, c :: i in events && i.Invoke? && c in events && c.Complete? && i.call == c.call ==> i.ts <= c.ts
  }

  /** Every call takes time. */
  ghost predicate CallsTakeTime(events: seq<Event>) {
    forall i, c :: i in events && i.Invoke? && c in events && c.Complete? && i.call == c.call ==> i.ts < c.ts
  }

  /** The completion a client goes by: its first success, or failing that its last completion. */
  ghost predicate IsObserved(own: seq<Event>, k: int) {
    && 0 <= k < |own| && own[k].Complete?
    && if own[k].result.Done?
       then forall j :: 0 <= j < k && own[j].Complete? ==> !own[j].result.Done?
       else forall j :: 0 <= j < |own| && own[j].Complete? ==> j <= k && !own[j].result.Done?
  }

  lemma {:induction false} ObservedOneMore(c: seq<(U64, OpResult)>, x: (U64, OpResult))
    ensures Observed(c + [x]) == if Observed(c).Some? && Observed(c).value.1.Done? then Observed(c) else Some(x)
  {
    if c == [] {
      assert [] + [x] == [x];
    } else {
      ObservedOneMore(c[1..], x);
      assert (c + [x])[1..] == c[1..] + [x];
    }
  }

  /** Where the completion that `Observed` picks stands among the events. */
  lemma {:induction false} ObservedMeaning(own: seq<Event>) returns (k: int)
    ensures var seen := Observed(Completions(own));
            if seen.None? then forall j :: 0 <= j < |own| ==> !own[j].Complete?
            else IsObserved(own, k) && (own[k].ts, own[k].result) == seen.value
  {
    k := -1;
    if own != [] {
      var n := |own| - 1;
      var before := own[..n];
      k := ObservedMeaning(before);
      if own[n].Complete? {
        var seen := Observed(Completions(before));
        ObservedOneMore(Completions(before), (own[n].ts, own[n].result));
        if seen.None? || !seen.value.1.Done? {
          k := n;
        }
      } else {
        assert Completions(own) == Completions(before);
      }
    }
  }

  /**
   A merged operation carries the command of its first invoke, starts with its
   earliest invoke, ends with the completion its client went by, and lists its
   calls in order.
   */
  lemma {:induction false} MergedOpMeaning(events: seq<Event>, ops: seq<LogOp>, op: LogOp)
    requires IsReduction(events, ops) && op in ops
    ensures var own := Project(CallKeys(events), events, IdOfOp(op));
            && (exists k :: IsFirstInvoke(own, k) && own[k].op == op.op)
            && (exists e :: e in own && e.Invoke? && e.ts == op.invokeTs)
            && (forall e :: e in own && e.Invoke? ==> op.invokeTs <= e.ts)
            && (op.result.Some? <==> op.completeTs.Some?)
            && (op.result.None? ==> forall e :: e in own ==> e.Invoke?)
            && (op.result.Some? ==> exists k ::
                  IsObserved(own, k) && own[k].ts == op.completeTs.value && own[k].result == op.result.value)
            && op.calls == InvokedCalls(own)
            && op.logIds == LogIds(own)
  {
    var own := Project(CallKeys(events), events, IdOfOp(op));
    FoldMeaning(own);
    var k := ObservedMeaning(own);
  }

  /** The completion a merged operation reports belongs to a call invoked no earlier than the operation. */
  lemma MergedInterval(events: seq<Event>, ops: seq<LogOp>, op: LogOp)
    requires IsReduction(events, ops) && op in ops
    ensures CallsInOrder(events) ==> op.ValidInterval()
    ensures CallsTakeTime(events) ==> op.StrictInterval()
  {
    if op.completeTs.Some? {
      MergedOpMeaning(events, ops, op);
      var keys := CallKeys(events);
      var own := Project(keys, events, IdOfOp(op));
      var k :| IsObserved(own, k) && own[k].ts == op.completeTs.value && own[k].result == op.result.value;
      var c := own[k];
      ProjectMembers(keys, events, IdOfOp(op), c);
      CallKeysAreInvoked(events, c.call);
      var i :| i in events && i.Invoke? && i.call == c.call && IdOf(i) == keys[c.call];
      ProjectMembers(keys, events, IdOfOp(op), i);
    }
  }

  lemma OpBeforeIsAsymmetric()
    ensures Asymmetric(OpBefore)
  {
  }

  /**
   Merging depends only on the order of events within each operation: two logs that
   agree on every operation's own events have the same reduction.
   */
  lemma {:induction false} MergeIgnoresInterleaving(e1: seq<Event>, e2: seq<Event>, ops1: seq<LogOp>, ops2: seq<LogOp>)
    requires IsReduction(e1, ops1) && IsReduction(e2, ops2)
    requires forall id :: Project(CallKeys(e1), e1, id) == Project(CallKeys(e2), e2, id)
    ensures ops1 == ops2
  {
    forall id
      ensures IsInvoked(e1, id) <==> IsInvoked(e2, id)
    {
      if IsInvoked(e1, id) {
        InvokedHasOp(e1, id);
        OwnedIsInvoked(e2, id);
      }
      if IsInvoked(e2, id) {
        InvokedHasOp(e2, id);
        OwnedIsInvoked(e1, id);
      }
    }
    forall op: LogOp
      ensures op in ops1 <==> op in ops2
    {
      if op in ops1 {
        assert IsInvoked(e2, IdOfOp(op));
      }
      if op in ops2 {
        assert IsInvoked(e1, IdOfOp(op));
      }
    }
    OpBeforeIsAsymmetric();
    StrictlySortedIsUnique(OpBefore, ops1, ops2);
  }

  // ---- Well-formed logs ------------------------------------------------------

  /** Every completion has an invoke. */
  ghost predicate CompletesAreInvoked(events: seq<Event>) {
    forall c :: c in events && c.Complete? ==> exists i :: i in events && i.Invoke? && i.call == c.call
  }

  /** A call id stands for one operation of one client. */
  ghost predicate CallsAgree(events: seq<Event>) {
    forall a, b :: a in events && a.Invoke? && b in events && b.Invoke? && a.call == b.call ==>
      IdOf(a) == IdOf(b) && a.op == b.op
  }

  /** The retries of one operation carry one and the same command. */
  ghost predicate RetriesAgree(events: seq<Event>) {
    forall a, b :: a in events && a.Invoke? && b in events && b.Invoke? && IdOf(a) == IdOf(b) ==> a.op == b.op
  }

  ghost predicate IsWellFormed(events: seq<Event>) {
    CompletesAreInvoked(events) && CallsAgree(events) && RetriesAgree(events)
  }

  /** Event `j` is the first invoke of call `c`. */
  ghost predicate OpensCall(events: seq<Event>, j: int, c: nat) {
    && 0 <= j < |events| && events[j].Invoke? && events[j].call == c
    && forall k :: 0 <= k < j && events[k].Invoke? ==> events[k].call != c
  }

  /** Event `j` is the first invoke of operation `id`. */
  ghost predicate OpensOp(events: seq<Event>, j: int, id: OpId) {
    && 0 <= j < |events| && events[j].Invoke? && IdOf(events[j]) == id
    && forall k :: 0 <= k < j && events[k].Invoke? ==> IdOf(events[k]) != id
  }

  /** Event `i` invokes a call again, for another operation or with another command than the first time. */
  ghost predicate ReusesCall(events: seq<Event>, i: int) {
    && 0 <= i < |events| && events[i].Invoke?
    && exists j ::
         OpensCall(events, j, events[i].call) && (IdOf(events[j]) != IdOf(events[i]) || events[j].op != events[i].op)
  }

  /** Event `i` completes a call that is never invoked. */
  ghost predicate IsOrphan(events: seq<Event>, i: int) {
    && 0 <= i < |events| && events[i].Complete?
    && forall k :: 0 <= k < |events| && events[k].Invoke? ==> events[k].call != events[i].call
  }

  /** Event `i` retries an operation with another command than the first time. */
  ghost predicate ChangesCommand(events: seq<Event>, i: int) {
    && 0 <= i < |events| && events[i].Invoke?
    && exists j :: OpensOp(events, j, IdOf(events[i])) && events[j].op != events[i].op
  }

  ghost function Reuses(events: seq<Event>): int -> bool {
    i => ReusesCall(events, i)
  }

  ghost function Orphans(events: seq<Event>): int -> bool {
    i => IsOrphan(events, i)
  }

  ghost function Changes(events: seq<Event>): int -> bool {
    i => ChangesCommand(events, i)
  }

  /** One failure for each bad event among the first `n`, in log order, naming its call if `named`. */
  ghost function Defects(events: seq<Event>, bad: int -> bool, named: bool, n: nat): seq<Failure>
    requires n <= |events|
  {
    if n == 0 then []
    else
      var calls := if named then [events[n - 1].call] else [];
      Defects(events, bad, named, n - 1) + if bad(n - 1) then [Failure(WellFormed, calls)] else []
  }

  lemma {:induction false} DefectsEmpty(events: seq<Event>, bad: int -> bool, named: bool, n: nat)
    requires n <= |events|
    ensures Defects(events, bad, named, n) == [] <==> forall i :: 0 <= i < n ==> !bad(i)
  {
    if n > 0 {
      DefectsEmpty(events, bad, named, n - 1);
    }
  }

  /** Every defect is a failure of well-formedness, one for each bad event. */
  lemma {:induction false} DefectsMembers(events: seq<Event>, bad: int -> bool, named: bool, n: nat, f: Failure)
    requires n <= |events|
    ensures f in Defects(events, bad, named, n) <==>
            exists i :: 0 <= i < n && bad(i) && f == Failure(WellFormed, if named then [events[i].call] else [])
  {
    if n > 0 {
      DefectsMembers(events, bad, named, n - 1, f);
    }
  }

  /** Report call ids that are reused for a different operation; also give the first invoke of every call. */
  method FindReusedCalls(events: seq<Event>) returns (failures: seq<Failure>, invokes: map<nat, (OpId, Op)>)
    ensures failures == Defects(events, Reuses(events), true, |events|)
    ensures forall c :: c in invokes <==> exists i :: 0 <= i < |events| && events[i].Invoke? && events[i].call == c
  {
    failures, invokes := [], map[];
    for i := 0 to |events|
      invariant failures == Defects(events, Reuses(events), true, i)
      invariant forall c :: c in invokes ==>
                  exists j :: OpensCall(events, j, c) && j < i && invokes[c] == (IdOf(events[j]), events[j].op)
      invariant forall j :: 0 <= j < i && events[j].Invoke? ==> events[j].call in invokes
    {
      var e := events[i];
      if e.Invoke? {
        if e.call !in invokes {
          assert OpensCall(events, i, e.call);
          assert !ReusesCall(events, i) by {
            OneOpensCall(events, e.call);
          }
          invokes := invokes[e.call := (IdOf(e), e.op)];
        } else {
          ghost var j :| OpensCall(events, j, e.call) && invokes[e.call] == (IdOf(events[j]), events[j].op);
          OneOpensCall(events, e.call);
          assert ReusesCall(events, i) <==> invokes[e.call] != (IdOf(e), e.op);
          if invokes[e.call] != (IdOf(e), e.op) {
            failures := failures + [Failure(WellFormed, [e.call])];
          }
        }
      }
    }
  }

  lemma OneOpensCall(events: seq<Event>, c: nat)
    ensures forall i, j :: OpensCall(events, i, c) && OpensCall(events, j, c) ==> i == j
  {
  }

  lemma OneOpensOp(events: seq<Event>, id: OpId)
    ensures forall i, j :: OpensOp(events, i, id) && OpensOp(events, j, id) ==> i == j
  {
  }

  /** Report completions whose call was never invoked. */
  method FindOrphans(events: seq<Event>, invokes: map<nat, (OpId, Op)>) returns (failures: seq<Failure>)
    requires forall c :: c in invokes <==> exists i :: 0 <= i < |events| && events[i].Invoke? && events[i].call == c
    ensures failures == Defects(events, Orphans(events), true, |events|)
  {
    failures := [];
    for i := 0 to |events|
      invariant failures == Defects(events, Orphans(events), true, i)
    {
      var e := events[i];
      assert e.Complete? ==> (IsOrphan(events, i) <==> e.call !in invokes);
      if e.Complete? && e.call !in invokes {
        failures := failures + [Failure(WellFormed, [e.call])];
      }
    }
  }

  /** Report operations whose retries carry different commands. */
  method FindDisagreeingRetries(events: seq<Event>) returns (failures: seq<Failure>)
    ensures failures == Defects(events, Changes(events), false, |events|)
  {
    failures := [];
    var ops: map<OpId, Op> := map[];
    for i := 0 to |events|
      invariant failures == Defects(events, Changes(events), false, i)
      invariant forall id :: id in ops ==> exists j :: OpensOp(events, j, id) && j < i && ops[id] == events[j].op
      invariant forall j :: 0 <= j < i && events[j].Invoke? ==> IdOf(events[j]) in ops
    {
      var e := events[i];
      if e.Invoke? {
        OneOpensOp(events, IdOf(e));
        if IdOf(e) !in ops {
          assert OpensOp(events, i, IdOf(e));
          assert !ChangesCommand(events, i);
          ops := ops[IdOf(e) := e.op];
        } else {
          ghost var j :| OpensOp(events, j, IdOf(e)) && ops[IdOf(e)] == events[j].op;
          assert ChangesCommand(events, i) <==> ops[IdOf(e)] != e.op;
          if ops[IdOf(e)] != e.op {
            failures := failures + [Failure(WellFormed, [])];
          }
        }
      }
    }
  }

  lemma {:induction false} CallIsOpened(events: seq<Event>, i: nat) returns (j: nat)
    requires i < |events| && events[i].Invoke?
    ensures j <= i && OpensCall(events, j, events[i].call)
  {
    if k :| 0 <= k < i && events[k].Invoke? && events[k].call == events[i].call {
      j := CallIsOpened(events, k);
    } else {
      j := i;
    }
  }

  lemma {:induction false} OpIsOpened(events: seq<Event>, i: nat) returns (j: nat)
    requires i < |events| && events[i].Invoke?
    ensures j <= i && OpensOp(events, j, IdOf(events[i]))
  {
    if k :| 0 <= k < i && events[k].Invoke? && IdOf(events[k]) == IdOf(events[i]) {
      j := OpIsOpened(events, k);
    } else {
      j := i;
    }
  }

  lemma CallsAgreeIff(events: seq<Event>)
    ensures CallsAgree(events) <==> forall i :: 0 <= i < |events| ==> !ReusesCall(events, i)
  {
    if forall i :: 0 <= i < |events| ==> !ReusesCall(events, i) {
      forall a, b | a in events && a.Invoke? && b in events && b.Invoke? && a.call == b.call
        ensures IdOf(a) == IdOf(b) && a.op == b.op
      {
        var i :| 0 <= i < |events| && events[i] == a;
        var j :| 0 <= j < |events| && events[j] == b;
        var k := CallIsOpened(events, i);
        assert !ReusesCall(events, i) && !ReusesCall(events, j);
      }
    }
  }

  lemma RetriesAgreeIff(events: seq<Event>)
    ensures RetriesAgree(events) <==> forall i :: 0 <= i < |events| ==> !ChangesCommand(events, i)
  {
    if forall i :: 0 <= i < |events| ==> !ChangesCommand(events, i) {
      forall a, b | a in events && a.Invoke? && b in events && b.Invoke? && IdOf(a) == IdOf(b)
        ensures a.op == b.op
      {
        var i :| 0 <= i < |events| && events[i] == a;
        var j :| 0 <= j < |events| && events[j] == b;
        var k := OpIsOpened(events, i);
        assert !ChangesCommand(events, i) && !ChangesCommand(events, j);
      }
    }
  }

  lemma CompletesAreInvokedIff(events: seq<Event>)
    ensures CompletesAreInvoked(events) <==> forall i :: 0 <= i < |events| ==> !IsOrphan(events, i)
  {
    forall i: nat | i < |events| && events[i].Complete?
      ensures IsOrphan(events, i) <==> !exists k :: k in events && k.Invoke? && k.call == events[i].call
    {
      if k :| 0 <= k < |events| && events[k].Invoke? && events[k].call == events[i].call {
        assert events[k] in events;
      }
    }
    forall i | CompletesAreInvoked(events)
      ensures !IsOrphan(events, i)
    {
      assert 0 <= i < |events| ==> events[i] in events;
    }
  }

  /**
   The well-formedness report: every reused call, every orphaned completion and every
   changed command, once each and in log order; so it is silent exactly on well-formed logs.
   */
  method Validate(events: seq<Event>) returns (failures: seq<Failure>)
    ensures failures == Defects(events, Reuses(events), true, |events|)
                        + Defects(events, Orphans(events), true, |events|)
                        + Defects(events, Changes(events), false, |events|)
    ensures failures == [] <==> IsWellFormed(events)
  {
    hide Defects, CallsAgree, CompletesAreInvoked, RetriesAgree;
    var reused, invokes := FindReusedCalls(events);
    var orphans := FindOrphans(events, invokes);
    var retries := FindDisagreeingRetries(events);
    failures := reused + orphans + retries;
    NoReuseReported(events);
    NoOrphanReported(events);
    NoChangeReported(events);
  }

  lemma {:induction false} NoReuseReported(events: seq<Event>)
    ensures Defects(events, Reuses(events), true, |events|) == [] <==> CallsAgree(events)
  {
    CallsAgreeIff(events);
    hide ReusesCall, CallsAgree, Defects;
    DefectsEmpty(events, Reuses(events), true, |events|);
    assert forall i :: 0 <= i < |events| ==> Reuses(events)(i) == ReusesCall(events, i);
  }

  lemma {:induction false} NoOrphanReported(events: seq<Event>)
    ensures Defects(events, Orphans(events), true, |events|) == [] <==> CompletesAreInvoked(events)
  {
    CompletesAreInvokedIff(events);
    hide IsOrphan, CompletesAreInvoked, Defects;
    DefectsEmpty(events, Orphans(events), true, |events|);
    assert forall i :: 0 <= i < |events| ==> Orphans(events)(i) == IsOrphan(events, i);
  }

  lemma {:induction false} NoChangeReported(events: seq<Event>)
    ensures Defects(events, Changes(events), false, |events|) == [] <==> RetriesAgree(events)
  {
    RetriesAgreeIff(events);
    hide ChangesCommand, RetriesAgree, Defects;
    DefectsEmpty(events, Changes(events), false, |events|);
    assert forall i :: 0 <= i < |events| ==> Changes(events)(i) == ChangesCommand(events, i);
  }

  /** In a well-formed log swapping two neighbouring events of different operations changes no attribution. */
  lemma {:induction false} SwapKeepsCallKeys(a: seq<Event>, x: Event, y: Event, b: seq<Event>)
    requires x.Invoke? && y.Invoke? ==> x.call != y.call
    ensures CallKeys(a + [x, y] + b) == CallKeys(a + [y, x] + b)
  {
    if b == [] {
      var s, t := a + [x, y], a + [y, x];
      assert s + b == s && t + b == t;
      assert s[..|s| - 1] == a + [x] && t[..|t| - 1] == a + [y];
      assert (a + [x])[..|a|] == a && (a + [y])[..|a|] == a;
    } else {
      var n := |b| - 1;
      SwapKeepsCallKeys(a, x, y, b[..n]);
      var s, t := a + [x, y] + b, a + [y, x] + b;
      assert s[..|s| - 1] == a + [x, y] + b[..n];
      assert t[..|t| - 1] == a + [y, x] + b[..n];
    }
  }

  lemma {:induction false} SwapKeepsProjection(
    keys: map<nat, OpId>, a: seq<Event>, x: Event, y: Event, b: seq<Event>, id: OpId)
    requires Owner(keys, x) != Owner(keys, y)
    ensures Project(keys, a + [x, y] + b, id) == Project(keys, a + [y, x] + b, id)
  {
    if b == [] {
      assert a + [x, y] + b == (a + [x]) + [y] && a + [y, x] + b == (a + [y]) + [x];
      ProjectOneMore(keys, a, x, id);
      ProjectOneMore(keys, a, y, id);
      ProjectOneMore(keys, a + [x], y, id);
      ProjectOneMore(keys, a + [y], x, id);
    } else {
      var n := |b| - 1;
      SwapKeepsProjection(keys, a, x, y, b[..n], id);
      assert a + [x, y] + b == (a + [x, y] + b[..n]) + [b[n]];
      assert a + [y, x] + b == (a + [y, x] + b[..n]) + [b[n]];
      ProjectOneMore(keys, a + [x, y] + b[..n], b[n], id);
      ProjectOneMore(keys, a + [y, x] + b[..n], b[n], id);
    }
  }

  /** The reduction of a well-formed log survives any swap of neighbouring events of different operations. */
  lemma {:induction false} MergeSurvivesSwap(
    a: seq<Event>, x: Event, y: Event, b: seq<Event>, ops1: seq<LogOp>, ops2: seq<LogOp>)
    requires IsWellFormed(a + [x, y] + b)
    requires Owner(CallKeys(a + [x, y] + b), x) != Owner(CallKeys(a + [x, y] + b), y)
    requires IsReduction(a + [x, y] + b, ops1) && IsReduction(a + [y, x] + b, ops2)
    ensures ops1 == ops2
  {
    var s, t := a + [x, y] + b, a + [y, x] + b;
    assert s[|a|] == x && s[|a| + 1] == y;
    SwapKeepsCallKeys(a, x, y, b);
    forall id
      ensures Project(CallKeys(s), s, id) == Project(CallKeys(t), t, id)
    {
      SwapKeepsProjection(CallKeys(s), a, x, y, b, id);
    }
    MergeIgnoresInterleaving(s, t, ops1, ops2);
  }

  // ---- Calls are conserved ---------------------------------------------------

  ghost function AllCalls(ops: seq<LogOp>): multiset<nat> {
    if ops == [] then multiset{} else AllCalls(ops[..|ops| - 1]) + multiset(ops[|ops| - 1].calls)
  }

  /** The calls invoked for the first `n` of the given identities. */
  ghost function CallsFor(keys: map<nat, OpId>, events: seq<Event>, ids: seq<OpId>): multiset<nat> {
    if ids == [] then multiset{}
    else CallsFor(keys, events, ids[..|ids| - 1]) + multiset(InvokedCalls(Project(keys, events, ids[|ids| - 1])))
  }

  lemma {:induction false} InvokedCallsOneMore(events: seq<Event>, e: Event)
    ensures InvokedCalls(events + [e]) == if e.Invoke? then InvokedCalls(events) + [e.call] else InvokedCalls(events)
  {
    assert (events + [e])[..|events|] == events;
  }

  /** One more event adds its call to exactly the operation it belongs to. */
  lemma {:induction false} CallsForOneMore(keys: map<nat, OpId>, events: seq<Event>, e: Event, ids: seq<OpId>)
    requires Distinct(ids)
    ensures CallsFor(keys, events + [e], ids) ==
            CallsFor(keys, events, ids) + if e.Invoke? && IdOf(e) in ids then multiset{e.call} else multiset{}
  {
    hide Project, InvokedCalls;
    if ids != [] {
      var n := |ids| - 1;
      var id := ids[n];
      assert ids == ids[..n] + [id];
      CallsForOneMore(keys, events, e, ids[..n]);
      ProjectOneMore(keys, events, e, id);
      InvokedCallsOneMore(Project(keys, events, id), e);
      assert id !in ids[..n];
    }
  }

  lemma {:induction false} NoEventsNoCalls(keys: map<nat, OpId>, ids: seq<OpId>)
    ensures CallsFor(keys, [], ids) == multiset{}
  {
    if ids != [] {
      NoEventsNoCalls(keys, ids[..|ids| - 1]);
      assert InvokedCalls(Project(keys, [], ids[|ids| - 1])) == [];
    }
  }

  lemma {:induction false} CallsForAll(keys: map<nat, OpId>, events: seq<Event>, ids: seq<OpId>)
    requires Distinct(ids)
    requires forall e :: e in events && e.Invoke? ==> IdOf(e) in ids
    ensures CallsFor(keys, events, ids) == multiset(InvokedCalls(events))
  {
    if events == [] {
      NoEventsNoCalls(keys, ids);
    } else {
      var n := |events| - 1;
      assert events == events[..n] + [events[n]];
      CallsForAll(keys, events[..n], ids);
      CallsForOneMore(keys, events[..n], events[n], ids);
      InvokedCallsOneMore(events[..n], events[n]);
    }
  }

  ghost function Ids(ops: seq<LogOp>): (ids: seq<OpId>)
    ensures |ids| == |ops| && forall i :: 0 <= i < |ids| ==> ids[i] == IdOfOp(ops[i])
  {
    seq(|ops|, i requires 0 <= i < |ops| => IdOfOp(ops[i]))
  }

  lemma {:induction false} CallsOfOps(events: seq<Event>, all: seq<LogOp>, n: nat)
    requires IsReduction(events, all) && n <= |all|
    ensures AllCalls(all[..n]) == CallsFor(CallKeys(events), events, Ids(all[..n]))
  {
    if n > 0 {
      CallsOfOps(events, all, n - 1);
      assert all[..n][..n - 1] == all[..n - 1];
      assert Ids(all[..n])[..n - 1] == Ids(all[..n - 1]);
      MergedOpMeaning(events, all, all[n - 1]);
    }
  }

  /** No call is lost or duplicated: the operations' calls together are the invoked calls. */
  lemma {:induction false} MergeConservesCalls(events: seq<Event>, ops: seq<LogOp>)
    requires IsReduction(events, ops)
    ensures AllCalls(ops) == multiset(InvokedCalls(events))
  {
    assert ops[..|ops|] == ops;
    CallsOfOps(events, ops, |ops|);
    var ids := Ids(ops);
    forall i, j | 0 <= i < j < |ids|
      ensures ids[i] != ids[j]
    {
      assert OpBefore(ops[i], ops[j]);
      assert ops[i] in ops && ops[j] in ops;
    }
    forall e | e in events && e.Invoke?
      ensures IdOf(e) in ids
    {
      assert IsInvoked(events, IdOf(e));
      var op :| op in ops && IdOfOp(op) == IdOf(e);
      var k :| 0 <= k < |ops| && ops[k] == op;
      assert ids[k] == IdOf(e);
    }
    CallsForAll(CallKeys(events), events, ids);
  }

  // ---- The oracle on a raw history -------------------------------------------

  /**
   From raw events to silence: if every call takes time and the merged history is
   linearizable from the empty store, the phantom check reports nothing.
   */
  lemma RawHistoryHasNoPhantom(events: seq<Event>, ops: seq<LogOp>)
    requires CallsTakeTime(events) && IsReduction(events, ops)
    requires HistoryLinearizable(ops, map[])
    ensures PhantomReport(ops) == []
  {
    forall op | op in ops
      ensures op.StrictInterval()
    {
      MergedInterval(events, ops, op);
    }
    TimedHistoryHasNoPhantom(ops);
  }

  /** Whatever is logged for an operation is logged under one id. */
  ghost predicate LoggedOnce(events: seq<Event>) {
    forall a, b :: a in events && a.Complete? && a.logId.Some? && b in events && b.Complete? && b.logId.Some? &&
                   Owner(CallKeys(events), a) == Owner(CallKeys(events), b) ==>
      a.logId == b.logId
  }

  lemma {:induction false} LogIdIsRecorded(events: seq<Event>, id: nat) returns (e: Event)
    requires id in LogIds(events)
    ensures e in events && e.Complete? && e.logId == Some(id)
  {
    var n := |events| - 1;
    if id in LogIds(events[..n]) {
      e := LogIdIsRecorded(events[..n], id);
    } else {
      e := events[n];
    }
  }

  lemma MergedOpIsLoggedOnce(events: seq<Event>, ops: seq<LogOp>, op: LogOp)
    requires LoggedOnce(events) && IsReduction(events, ops) && op in ops
    ensures !IsLoggedTwice(op)
  {
    MergedOpMeaning(events, ops, op);
    var keys := CallKeys(events);
    var own := Project(keys, events, IdOfOp(op));
    forall a, b | a in op.logIds && b in op.logIds
      ensures a == b
    {
      var x := LogIdIsRecorded(own, a);
      var y := LogIdIsRecorded(own, b);
      ProjectMembers(keys, events, IdOfOp(op), x);
      ProjectMembers(keys, events, IdOfOp(op), y);
    }
  }

  /**
   From raw events to complete silence. A well-formed log whose calls take time and whose
   operations are logged once, merged into a versioned history of clients that work one
   operation at a time and never delete what is read, is reported by none of the checks.
   */
  lemma {:induction false} RawHistoryIsSilent(events: seq<Event>, ops: seq<LogOp>)
    requires IsWellFormed(events) && CallsTakeTime(events) && LoggedOnce(events) && IsReduction(events, ops)
    requires ExplainedInVersionOrder(ops) && OneAtATime(ops)
    requires forall get, del :: get in ops && ReadsKey(get) && del in ops && IsPoint(del) ==>
               del.op != Delete(get.op.key)
    ensures Defects(events, Reuses(events), true, |events|) == []
    ensures Defects(events, Orphans(events), true, |events|) == []
    ensures Defects(events, Changes(events), false, |events|) == []
    ensures PhantomReport(ops) == []
    ensures Report(OneLogIdPerSeq, ops, IsLoggedTwice, |ops|) == []
    ensures OwnWriteReport(ops, |ops|) == []
    ensures forall who, i: nat :: !Regresses(ops, who, i)
  {
    NoReuseReported(events);
    NoOrphanReported(events);
    NoChangeReported(events);
    MergedHistoryIsVersioned(events, ops);
    hide *;
    forall i | 0 <= i < |ops|
      ensures !IsLoggedTwice(ops[i])
    {
      MergedOpIsLoggedOnce(events, ops, ops[i]);
    }
    ReportEmpty(OneLogIdPerSeq, ops, IsLoggedTwice, |ops|);
    VersionedHasNoPhantom(ops);
    NoDeletesNoOwnWriteReport(ops);
    forall who, i: nat
      ensures !Regresses(ops, who, i)
    {
      VersionedReadsAreMonotonic(ops, who, i);
    }
  }

  lemma MergedHistoryIsVersioned(events: seq<Event>, ops: seq<LogOp>)
    requires CallsTakeTime(events) && IsReduction(events, ops) && ExplainedInVersionOrder(ops)
    ensures VersionedHistory(ops)
  {
    hide IsReduction, CallsTakeTime, ExplainedInVersionOrder;
    forall op | op in ops
      ensures op.StrictInterval() && (op.result.Some? <==> op.completeTs.Some?)
    {
      MergedInterval(events, ops, op);
      MergedOpMeaning(events, ops, op);
    }
  }
}
