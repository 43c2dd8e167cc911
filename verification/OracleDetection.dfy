/**
 What the checker and the oracle do report, said in terms of the fields of a history's
 operations alone: which failed writes may have happened, and exactly which reads are
 phantoms, miss their client's own write, or go back.
 */
module OracleDetection {
  import opened Base
  import opened OracleModel
  import opened Linearizability
  import opened LinearizabilityCheck
  import opened LinearizableRuns
  import opened OracleChecks
  import opened Sorting

  // ---- Which writes may have happened ---------------------------------------------------

  /** A write that ended like this may have happened. */
  predicate MayHaveHappened(write: LogOp) {
    match write.result
    case None => true
    case Some(Failed(kind)) => kind == Timeout || kind == SessionExpired
    case Some(Done(found)) => write.completeTs.None? || found.None?
  }

  /**
   A put and a read of its value are linearizable from the empty store exactly when the put
   may have happened and the read was not over before the put began. Of the failures that
   leaves out a refusal: no leader, no quorum, or too busy.
   */
  lemma ReadOfPutIff(put: LogOp, get: LogOp, key: Bytes, value: nat)
    requires put.op == Put(key, value)
    requires get.op == Get(key) && get.result == Some(Done(Some(value))) && get.completeTs.Some?
    ensures HistoryLinearizable([put, get], map[]) <==>
            && MayHaveHappened(put)
            && (|| put.invokeTs < get.completeTs.value
                || (put.completeTs.Some? && put.completeTs.value <= get.invokeTs))
  {
    if HistoryLinearizable([put, get], map[]) {
      ReadNeedsPut(put, get, key, value);
    } else if MayHaveHappened(put) && !Before(get, put) {
      PutThenRead(put, get, key, value);
    }
  }

  lemma PutThenRead(put: LogOp, get: LogOp, key: Bytes, value: nat)
    requires put.op == Put(key, value) && MayHaveHappened(put) && !Before(get, put)
    requires get.op == Get(key) && get.result == Some(Done(Some(value))) && get.completeTs.Some?
    ensures HistoryLinearizable([put, get], map[])
  {
    var run := [put, get];
    assert run[..0] == [] && run[..1] == [put] && [put][..0] == [];
    assert StateAfter([put], map[]) == Apply(StateAfter([], map[]), put.op).0;
    assert Explains(run, run, map[]);
    SelfExplainedIsLinearizable(run, map[]);
  }

  lemma ReadNeedsPut(put: LogOp, get: LogOp, key: Bytes, value: nat)
    requires put.op == Put(key, value) && HistoryLinearizable([put, get], map[])
    requires get.op == Get(key) && get.result == Some(Done(Some(value))) && get.completeTs.Some?
    ensures MayHaveHappened(put) && !Before(get, put)
  {
    var ops := [put, get];
    var run := LinearizableHasRun(ops, map[]);
    assert get in ops && get in run;
    var r :| 0 <= r < |run| && run[r] == get;
    var w := ReadFrom(ops, run, r, key, value);
    assert run[w] in ops && run[w] == put;
    PlacedMayHaveHappened(ops, run, w, r);
  }

  /** A write that an explaining run places before another operation. */
  lemma PlacedMayHaveHappened(ops: seq<LogOp>, run: seq<LogOp>, w: nat, r: nat)
    requires Explains(ops, run, map[]) && w < r < |run| && !run[w].op.Get?
    ensures MayHaveHappened(run[w]) && !Before(run[r], run[w])
  {
    hide StateAfter;
    var write := run[w];
    if write.IsLinearizationPoint() {
      assert write.result == Some(Apply(StateAfter(run[..w], map[]), write.op).1);
    }
  }

  /** The same of a delete: a key that was put is read as absent exactly when the delete may have happened. */
  lemma ReadOfDeleteIff(put: LogOp, del: LogOp, get: LogOp, key: Bytes)
    requires put.op.Put? && put.op.key == key && put.result == Some(Done(None)) && put.completeTs.Some?
    requires del.op == Delete(key) && !Before(del, put) && Before(put, get)
    requires get.op == Get(key) && get.result == Some(Done(None)) && get.completeTs.Some?
    ensures HistoryLinearizable([put, del, get], map[]) <==> MayHaveHappened(del) && !Before(get, del)
  {
    if HistoryLinearizable([put, del, get], map[]) {
      AbsenceNeedsDelete(put, del, get, key);
    } else if MayHaveHappened(del) && !Before(get, del) {
      DeleteThenRead(put, del, get, key);
    }
  }

  lemma DeleteThenRead(put: LogOp, del: LogOp, get: LogOp, key: Bytes)
    requires put.op.Put? && put.op.key == key && put.result == Some(Done(None)) && put.completeTs.Some?
    requires del.op == Delete(key) && !Before(del, put) && Before(put, get)
    requires get.op == Get(key) && get.result == Some(Done(None)) && get.completeTs.Some?
    requires MayHaveHappened(del) && !Before(get, del)
    ensures HistoryLinearizable([put, del, get], map[])
  {
    var run := [put, del, get];
    assert run[..0] == [] && run[..1] == [put] && run[..2] == [put, del];
    assert [put][..0] == [] && [put, del][..1] == [put];
    assert StateAfter([put], map[]) == Apply(StateAfter([], map[]), put.op).0;
    assert StateAfter([put, del], map[]) == Apply(StateAfter([put], map[]), del.op).0;
    assert Explains(run, run, map[]);
    SelfExplainedIsLinearizable(run, map[]);
  }

  lemma AbsenceNeedsDelete(put: LogOp, del: LogOp, get: LogOp, key: Bytes)
    requires put.op.Put? && put.op.key == key && put.result == Some(Done(None)) && put.completeTs.Some?
    requires del.op == Delete(key) && Before(put, get) && HistoryLinearizable([put, del, get], map[])
    requires get.op == Get(key) && get.result == Some(Done(None)) && get.completeTs.Some?
    ensures MayHaveHappened(del) && !Before(get, del)
  {
    hide StateAfter, Explains, MayHaveHappened, HistoryLinearizable;
    var ops := [put, del, get];
    var run := LinearizableHasRun(ops, map[]);
    var r := PlaceOf(ops, run, get);
    var w := PlaceOf(ops, run, put);
    BeforeInRun(ops, run, map[], w, r);
    AbsentWasDeleted(ops, run, r, key, w);
    var x :| w < x < r && run[x].op == Delete(key);
    PlacedMayHaveHappened(ops, run, x, r);
    RunIsFromOps(ops, run, x);
    assert run[x] == del;
  }

  lemma PlaceOf(ops: seq<LogOp>, run: seq<LogOp>, op: LogOp) returns (r: nat)
    requires Explains(ops, run, map[]) && op in ops && op.IsLinearizationPoint()
    ensures r < |run| && run[r] == op
  {
    assert op in run;
    r :| 0 <= r < |run| && run[r] == op;
  }

  lemma RunIsFromOps(ops: seq<LogOp>, run: seq<LogOp>, x: nat)
    requires Explains(ops, run, map[]) && x < |run|
    ensures run[x] in ops
  {
  }

  /** An operation that was refused, or a read that did not succeed, makes no difference to the verdict. */
  lemma RefusedMakesNoDifference(a: seq<LogOp>, op: LogOp, b: seq<LogOp>, initial: KvState)
    requires || op.result == Some(Failed(NotLeader))
             || op.result == Some(Failed(QuorumUnavailable))
             || op.result == Some(Failed(Busy))
             || (op.op.Get? && (op.completeTs.None? || op.result.None? || op.result.value.Failed?))
    ensures PointsOf(a + [op] + b) == PointsOf(a + b)
    ensures HistoryLinearizable(a + [op] + b, initial) <==> HistoryLinearizable(a + b, initial)
  {
    var ops, rest := a + [op] + b, a + b;
    PointsUpTo(ops, |ops|);
    PointsUpTo(rest, |rest|);
    assert ops[..|ops|] == ops && rest[..|rest|] == rest;
    FilterPointsConcat(a + [op], b);
    FilterPointsConcat(a, [op]);
    FilterPointsConcat(a, b);
    assert [op][..0] == [] && FilterPoints([op]) == [];
    assert FilterPoints(a) + [] == FilterPoints(a);
  }

  // ---- Phantom values --------------------------------------------------------------------

  /** The put at `j` is not where the read at `i` got its value. */
  ghost predicate RulesOut(ops: seq<LogOp>, i: nat, j: nat)
    requires i < |ops| && j < |ops| && ops[i].completeTs.Some?
  {
    || ops[j].result in {Some(Failed(NotLeader)), Some(Failed(QuorumUnavailable)), Some(Failed(Busy))}
    || ops[i].completeTs.value <= ops[j].invokeTs
    || exists k :: 0 <= k < |ops| && IsBetween(ops, j, k, i)
  }

  /** A delete of the key succeeded at `k`, after the put at `j` was over and before the read at `i` began. */
  predicate IsBetween(ops: seq<LogOp>, j: nat, k: nat, i: nat)
    requires i < |ops| && j < |ops| && k < |ops|
  {
    && ops[k].op == Delete(ops[i].op.key) && ops[k].result.Some? && ops[k].result.value.Done?
    && ops[j].completeTs.Some? && ops[j].completeTs.value <= ops[k].invokeTs
    && ops[k].completeTs.Some? && ops[k].completeTs.value <= ops[i].invokeTs
  }

  /** The read at `i` returned a value, and every put of that value in the history is ruled out. */
  ghost predicate Unaccounted(ops: seq<LogOp>, i: nat) {
    && i < |ops| && ops[i].op.Get? && ops[i].completeTs.Some?
    && ops[i].result.Some? && ops[i].result.value.Done? && ops[i].result.value.found.Some?
    && forall j :: 0 <= j < |ops| && ops[j].op == Put(ops[i].op.key, ops[i].result.value.found.value) ==>
         RulesOut(ops, i, j)
  }

  /** The phantom check reports exactly the reads whose value is unaccounted for. */
  lemma PhantomReportedIff(ops: seq<LogOp>, f: Failure)
    ensures f in PhantomReport(ops) <==>
            exists i: nat :: Unaccounted(ops, i) && f == Failure(PhantomValue, ops[i].calls)
  {
    var bad := get => IsPhantom(ops, get);
    ReportMembers(PhantomValue, ops, bad, |ops|, f);
    hide IsPhantom, Report;
    if i :| 0 <= i < |ops| && bad(ops[i]) && f == Failure(PhantomValue, ops[i].calls) {
      PhantomIsUnaccounted(ops, i);
    }
    if i: nat :| Unaccounted(ops, i) && f == Failure(PhantomValue, ops[i].calls) {
      PhantomIsUnaccounted(ops, i);
      assert bad(ops[i]);
    }
  }

  lemma {:induction false} ReportMembers(inv: Invariant, ops: seq<LogOp>, bad: LogOp -> bool, n: nat, f: Failure)
    requires n <= |ops|
    ensures f in Report(inv, ops, bad, n) <==>
            exists i :: 0 <= i < n && bad(ops[i]) && f == Failure(inv, ops[i].calls)
  {
    if n > 0 {
      ReportMembers(inv, ops, bad, n - 1, f);
    }
  }

  lemma PhantomIsUnaccounted(ops: seq<LogOp>, i: nat)
    requires i < |ops|
    ensures IsPhantom(ops, ops[i]) <==> Unaccounted(ops, i)
  {
    var get := ops[i];
    if && get.op.Get? && get.completeTs.Some? && get.result.Some? && get.result.value.Done?
       && get.result.value.found.Some? {
      var key, value := get.op.key, get.result.value.found.value;
      assert ReadsValue(get, key, value);
      forall j | 0 <= j < |ops| && ops[j].op == Put(key, value)
        ensures RulesOut(ops, i, j) <==>
                (IsCandidate(ops[j], key, value, get.completeTs.value) ==>
                   exists del :: del in ops && Separates(del, key, ops[j], get))
      {
        RuledOutIff(ops, i, j, key, value);
      }
      forall put | put in ops && IsCandidate(put, key, value, get.completeTs.value)
        ensures exists j :: 0 <= j < |ops| && ops[j] == put
      {
      }
    }
  }

  lemma RuledOutIff(ops: seq<LogOp>, i: nat, j: nat, key: Bytes, value: nat)
    requires i < |ops| && j < |ops| && ReadsValue(ops[i], key, value) && ops[j].op == Put(key, value)
    ensures RulesOut(ops, i, j) <==>
            (IsCandidate(ops[j], key, value, ops[i].completeTs.value) ==>
               exists del :: del in ops && Separates(del, key, ops[j], ops[i]))
  {
    if del :| del in ops && Separates(del, key, ops[j], ops[i]) {
      var k :| 0 <= k < |ops| && ops[k] == del;
      assert IsBetween(ops, j, k, i);
    }
    if k :| 0 <= k < |ops| && IsBetween(ops, j, k, i) {
      assert Separates(ops[k], key, ops[j], ops[i]);
    }
  }

  /** The log-id check reports exactly the puts and deletes with two different log ids. */
  lemma {:induction false} LoggedTwiceReportedIff(ops: seq<LogOp>, f: Failure)
    ensures f in Report(OneLogIdPerSeq, ops, IsLoggedTwice, |ops|) <==>
            exists i :: && 0 <= i < |ops| && (ops[i].op.Put? || ops[i].op.Delete?)
                        && (exists a, b :: a in ops[i].logIds && b in ops[i].logIds && a != b)
                        && f == Failure(OneLogIdPerSeq, ops[i].calls)
  {
    ReportMembers(OneLogIdPerSeq, ops, IsLoggedTwice, |ops|, f);
    hide Report;
  }

  // ---- Read your writes --------------------------------------------------------------------

  /** The mutation at `k` is the reader's own, of the key it reads, and was done before the read at `i` began. */
  predicate DoneBefore(ops: seq<LogOp>, k: nat, i: nat)
    requires k < |ops| && i < |ops|
  {
    && ops[k].client == ops[i].client && ops[k].op.key == ops[i].op.key && (ops[k].op.Put? || ops[k].op.Delete?)
    && ops[k].result.Some? && ops[k].result.value.Done?
    && ops[k].completeTs.Some? && ops[k].completeTs.value <= ops[i].invokeTs
  }

  /** By completion, then sequence number, then place in the history. */
  predicate Earlier(ops: seq<LogOp>, k: nat, j: nat)
    requires k < |ops| && j < |ops| && ops[k].completeTs.Some? && ops[j].completeTs.Some?
  {
    var a, b := ops[k], ops[j];
    || a.completeTs.value < b.completeTs.value
    || (a.completeTs.value == b.completeTs.value && (a.seqNo < b.seqNo || (a.seqNo == b.seqNo && k < j)))
  }

  /**
   The successful read at `i` found nothing, or a smaller value than its client's put at `j`,
   the last of the client's own mutations of the key done before the read began.
   */
  ghost predicate IsStale(ops: seq<LogOp>, i: nat, j: nat) {
    && i < |ops| && j < |ops|
    && ops[i].op.Get? && ops[i].result.Some? && ops[i].result.value.Done?
    && ops[j].op.Put? && DoneBefore(ops, j, i)
    && (forall k :: 0 <= k < |ops| && k != j && DoneBefore(ops, k, i) ==> Earlier(ops, k, j))
    && (ops[i].result.value.found.None? || ops[i].result.value.found.value < ops[j].op.value)
  }

  /** The read-your-writes check reports exactly the stale reads, each with the put it missed. */
  lemma {:induction false} OwnWriteReportedIff(ops: seq<LogOp>, f: Failure)
    ensures f in OwnWriteReport(ops, |ops|) <==>
            exists i: nat, j: nat ::
              IsStale(ops, i, j) && f == Failure(ReadYourWrites, ops[j].calls + ops[i].calls)
  {
    OwnWriteMembers(ops, |ops|, f);
    hide OwnWriteReport, MissesOwnWrite, MutationCalls;
    if i :| && 0 <= i < |ops| && MissesOwnWrite(ops, ops[i])
            && f == Failure(ReadYourWrites, MutationCalls(ops, ops[i]) + ops[i].calls) {
      MissedIffStale(ops, i);
      var j: nat :| IsStale(ops, i, j);
    }
    if i: nat, j: nat :| IsStale(ops, i, j) && f == Failure(ReadYourWrites, ops[j].calls + ops[i].calls) {
      MissedIffStale(ops, i);
    }
  }

  lemma {:induction false} OwnWriteMembers(ops: seq<LogOp>, n: nat, f: Failure)
    requires n <= |ops|
    ensures f in OwnWriteReport(ops, n) <==>
            exists i :: 0 <= i < n && MissesOwnWrite(ops, ops[i])
                        && f == Failure(ReadYourWrites, MutationCalls(ops, ops[i]) + ops[i].calls)
  {
    hide MissesOwnWrite, MutationCalls;
    if n > 0 {
      OwnWriteMembers(ops, n - 1, f);
    }
  }

  lemma MissedIffStale(ops: seq<LogOp>, i: nat)
    requires i < |ops|
    ensures MissesOwnWrite(ops, ops[i]) <==> exists j: nat :: IsStale(ops, i, j)
    ensures forall j: nat :: IsStale(ops, i, j) ==> MutationCalls(ops, ops[i]) == ops[j].calls
  {
    var get := ops[i];
    forall j: nat | IsStale(ops, i, j)
      ensures LatestOwn(ops, get, |ops|) == Some(ops[j])
    {
      LastIsLatest(ops, i, j);
    }
    if MissesOwnWrite(ops, get) {
      var j := LatestIsLast(ops, i, |ops|);
      assert IsStale(ops, i, j);
    }
    hide LatestOwn;
  }

  /** Where the latest own mutation among the first `n` operations is. */
  lemma {:induction false} LatestIsLast(ops: seq<LogOp>, i: nat, n: nat) returns (j: nat)
    requires i < |ops| && n <= |ops| && LatestOwn(ops, ops[i], n).Some?
    ensures j < n && LatestOwn(ops, ops[i], n) == Some(ops[j]) && DoneBefore(ops, j, i)
    ensures forall k :: 0 <= k < n && k != j && DoneBefore(ops, k, i) ==> Earlier(ops, k, j)
  {
    var before, m := LatestOwn(ops, ops[i], n - 1), ops[n - 1];
    if IsOwnMutation(m, ops[i]) && (before.None? || NotLater(before.value, m)) {
      j := n - 1;
    } else {
      j := LatestIsLast(ops, i, n - 1);
    }
  }

  lemma {:induction false} LastIsLatest(ops: seq<LogOp>, i: nat, j: nat)
    requires i < |ops| && j < |ops| && DoneBefore(ops, j, i)
    requires forall k :: 0 <= k < |ops| && k != j && DoneBefore(ops, k, i) ==> Earlier(ops, k, j)
    ensures LatestOwn(ops, ops[i], |ops|) == Some(ops[j])
  {
    assert IsOwnMutation(ops[j], ops[i]);
    var l := LatestIsLast(ops, i, |ops|);
    hide LatestOwn;
    assert l != j ==> Earlier(ops, l, j) && Earlier(ops, j, l);
  }

  // ---- Monotonic reads -----------------------------------------------------------------------

  predicate ReturnsAt(ops: seq<LogOp>, i: nat, value: nat)
    requires i < |ops|
  {
    ops[i].result == Some(Done(Some(value)))
  }

  /** By completion, then start, then sequence number; what never completed comes first. */
  predicate Precedes(a: LogOp, b: LogOp) {
    || (a.completeTs.None? && b.completeTs.Some?)
    || (a.completeTs.Some? && b.completeTs.Some? && a.completeTs.value < b.completeTs.value)
    || (a.completeTs == b.completeTs && (a.invokeTs < b.invokeTs || (a.invokeTs == b.invokeTs && a.seqNo < b.seqNo)))
  }

  /** One client read `v` at `i`, and the smaller `w` of the same key later, at `j`. */
  ghost predicate GoesBack(ops: seq<LogOp>, i: nat, j: nat, v: nat, w: nat) {
    && i < |ops| && j < |ops| && ops[i].client == ops[j].client && ops[i].op.key == ops[j].op.key
    && ReturnsAt(ops, i, v) && ReturnsAt(ops, j, w) && w < v && Precedes(ops[i], ops[j])
  }

  /** The operations of one client have sequence numbers of their own. */
  ghost predicate DistinctSeqNos(ops: seq<LogOp>) {
    forall i, j :: 0 <= i < j < |ops| && ops[i].client == ops[j].client ==> ops[i].seqNo != ops[j].seqNo
  }

  /**
   The monotonic-reads check, which compares only consecutive reads, is silent exactly when
   no client ever reads a smaller value of a key later.
   */
  lemma RegressionReportedIff(ops: seq<LogOp>)
    requires DistinctSeqNos(ops)
    ensures (exists who, k: nat :: Regresses(ops, who, k)) <==> exists i, j, v, w :: GoesBack(ops, i, j, v, w)
  {
    if i, j, v, w :| GoesBack(ops, i, j, v, w) {
      var k := BackIsReported(ops, i, j, v, w);
    }
    if who, k: nat :| Regresses(ops, who, k) {
      var i, j := ReportedGoesBack(ops, who, k);
    }
  }

  lemma {:induction false} ReadIsListed(ops: seq<LogOp>, who: (nat, Bytes), n: nat, i: nat)
    requires i < n <= |ops| && ReturnsValue(ops[i]) && (ops[i].client, ops[i].op.key) == who
    ensures ops[i] in ReadsOf(ops, who, n)
  {
    if i < n - 1 {
      ReadIsListed(ops, who, n - 1, i);
    }
  }

  /** The value never falls along a stretch of reads without a regression. */
  lemma {:induction false} NoRegressionNoFall(ops: seq<LogOp>, who: (nat, Bytes), p: nat, q: nat)
    requires p <= q < |OrderedReads(ops, who)| && forall k: nat :: p <= k < q ==> !Regresses(ops, who, k)
    ensures var seen := OrderedReads(ops, who); ValueRead(seen[p]) <= ValueRead(seen[q])
    decreases q
  {
    var seen := OrderedReads(ops, who);
    assert seen[p] in seen && seen[q] in seen;
    if p < q {
      assert seen[q - 1] in seen;
      assert !Regresses(ops, who, q - 1);
      NoRegressionNoFall(ops, who, p, q - 1);
    }
  }

  lemma OrderedPlaces(ops: seq<LogOp>, who: (nat, Bytes), i: nat) returns (p: nat)
    requires i < |ops| && ReturnsValue(ops[i]) && (ops[i].client, ops[i].op.key) == who
    ensures p < |OrderedReads(ops, who)| && OrderedReads(ops, who)[p] == ops[i]
  {
    ReadIsListed(ops, who, |ops|, i);
    MultisetMembers(OrderedReads(ops, who), ReadsOf(ops, who, |ops|));
    assert ops[i] in OrderedReads(ops, who);
    p :| 0 <= p < |OrderedReads(ops, who)| && OrderedReads(ops, who)[p] == ops[i];
  }

  lemma ReadsAreOrdered(ops: seq<LogOp>, who: (nat, Bytes))
    ensures var seen := OrderedReads(ops, who); forall p, q :: 0 <= p < q < |seen| ==> ReadOrder(seen[p], seen[q])
  {
    ReadOrderIsTotal();
    SortIsSorted(ReadOrder, ReadsOf(ops, who, |ops|));
  }

  lemma BackIsReported(ops: seq<LogOp>, i: nat, j: nat, v: nat, w: nat) returns (k: nat)
    requires GoesBack(ops, i, j, v, w)
    ensures Regresses(ops, (ops[i].client, ops[i].op.key), k)
  {
    var who := (ops[i].client, ops[i].op.key);
    var p := OrderedPlaces(ops, who, i);
    var q := OrderedPlaces(ops, who, j);
    ReadsAreOrdered(ops, who);
    hide OrderedReads, ReadsOf, Regresses;
    assert p < q;
    if !exists k: nat :: p <= k < q && Regresses(ops, who, k) {
      NoRegressionNoFall(ops, who, p, q);
    }
    k :| p <= k < q && Regresses(ops, who, k);
  }

  lemma ReportedGoesBack(ops: seq<LogOp>, who: (nat, Bytes), k: nat) returns (i: nat, j: nat)
    requires DistinctSeqNos(ops) && Regresses(ops, who, k)
    ensures exists v, w :: GoesBack(ops, i, j, v, w)
  {
    ReadsAreOrdered(ops, who);
    var seen := OrderedReads(ops, who);
    hide OrderedReads;
    assert seen[k] in seen && seen[k + 1] in seen;
    i :| 0 <= i < |ops| && ops[i] == seen[k];
    j :| 0 <= j < |ops| && ops[j] == seen[k + 1];
    assert GoesBack(ops, i, j, ValueRead(seen[k]), ValueRead(seen[k + 1]));
  }
}
