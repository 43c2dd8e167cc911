/**
 Histories on which the oracle or the checker says more, or less, than one might
 expect: each shows that a hypothesis of a theorem elsewhere cannot be dropped.
 */
module OracleExamples {
  import opened Base
  import opened OracleModel
  import opened Linearizability
  import opened LinearizabilitySearch
  import opened LinearizabilityCheck
  import opened LinearizableRuns
  import opened OracleChecks

  lemma {:induction false} StateAfterTwo(a: LogOp, b: LogOp, s: KvState)
    ensures StateAfter([], s) == s
    ensures StateAfter([a], s) == Apply(s, a.op).0
    ensures StateAfter([a, b], s) == Apply(Apply(s, a.op).0, b.op).0
  {
    assert [a][..0] == [] && [a, b][..1] == [a];
  }

  function DoneAt(client: nat, seqNo: nat, op: Op, from: U64, to: U64, found: Option<nat>, call: nat): LogOp {
    LogOp(client, seqNo, op, from, Some(to), Some(Done(found)), [], [call])
  }

  // ---- Read your writes ------------------------------------------------------

  function OwnPut(k: Bytes): LogOp {
    DoneAt(0, 0, Put(k, 1), 0, 1, None, 1)
  }

  function OthersDelete(k: Bytes): LogOp {
    DoneAt(1, 0, Delete(k), 2, 3, None, 2)
  }

  function OwnRead(k: Bytes): LogOp {
    DoneAt(0, 1, Get(k), 4, 5, None, 3)
  }

  lemma PutDeleteReadRuns(put: LogOp, del: LogOp, get: LogOp, k: Bytes)
    requires put == OwnPut(k) && del == OthersDelete(k) && get == OwnRead(k)
    ensures Explains([put, del, get], [put, del, get], map[])
  {
    var run := [put, del, get];
    assert run[..0] == [] && run[..1] == [put] && run[..2] == [put, del];
    StateAfterTwo(put, del, map[]);
  }

  lemma PutDeleteReadIsVersioned(put: LogOp, del: LogOp, get: LogOp, k: Bytes)
    requires put == OwnPut(k) && del == OthersDelete(k) && get == OwnRead(k)
    requires Explains([put, del, get], [put, del, get], map[])
    ensures VersionedHistory([put, del, get])
  {
    assert VersionsIncrease([put, del, get]);
  }

  lemma {:induction false} LatestOwnOfThree(put: LogOp, del: LogOp, get: LogOp)
    requires IsOwnMutation(put, get) && !IsOwnMutation(del, get) && !IsOwnMutation(get, get)
    ensures LatestOwn([put, del, get], get, 3) == Some(put)
  {
    var ops := [put, del, get];
    assert LatestOwn(ops, get, 0) == None;
    assert LatestOwn(ops, get, 1) == Some(put);
    assert LatestOwn(ops, get, 2) == Some(put);
  }

  /**
   Read-your-writes is reported on a linearizable history when another client
   deletes what this client wrote: put, delete by the other client, read of an
   absent key, one after the other.
   */
  lemma OwnWriteFalseAlarm(k: Bytes)
    ensures var ops := [OwnPut(k), OthersDelete(k), OwnRead(k)];
            && VersionedHistory(ops)
            && HistoryLinearizable(ops, map[])
            && OwnWriteReport(ops, |ops|) != []
  {
    var put, del, get := OwnPut(k), OthersDelete(k), OwnRead(k);
    var ops := [put, del, get];
    PutDeleteReadRuns(put, del, get, k);
    SelfExplainedIsLinearizable(ops, map[]);
    PutDeleteReadIsVersioned(put, del, get, k);
    LatestOwnOfThree(put, del, get);
    assert MissesOwnWrite(ops, ops[2]);
    OwnWriteReportEmpty(ops, |ops|);
  }

  // ---- Instantaneous reads ---------------------------------------------------

  /** A read and a put that share one instant are linearizable, yet the read counts as a phantom. */
  lemma InstantReadFalseAlarm(k: Bytes, t: U64)
    ensures var ops := [DoneAt(0, 0, Put(k, 1), t, t, None, 1), DoneAt(1, 0, Get(k), t, t, Some(1), 2)];
            HistoryLinearizable(ops, map[]) && PhantomReport(ops) != []
  {
    var put, get := DoneAt(0, 0, Put(k, 1), t, t, None, 1), DoneAt(1, 0, Get(k), t, t, Some(1), 2);
    var ops := [put, get];
    PutReadRuns(put, get, k);
    SelfExplainedIsLinearizable(ops, map[]);
    assert ReadsValue(get, k, 1);
    assert IsPhantom(ops, ops[1]);
    ReportEmpty(PhantomValue, ops, op => IsPhantom(ops, op), |ops|);
  }

  /** So does a read that takes time, when its put shares an instant with a delete. */
  lemma InstantDeleteFalseAlarm(k: Bytes)
    ensures var ops := [DoneAt(0, 0, Delete(k), 1, 1, None, 1), DoneAt(1, 0, Put(k, 1), 1, 1, None, 2),
                        DoneAt(2, 0, Get(k), 2, 3, Some(1), 3)];
            HistoryLinearizable(ops, map[]) && PhantomReport(ops) != []
  {
    var del, put := DoneAt(0, 0, Delete(k), 1, 1, None, 1), DoneAt(1, 0, Put(k, 1), 1, 1, None, 2);
    var get := DoneAt(2, 0, Get(k), 2, 3, Some(1), 3);
    var ops := [del, put, get];
    DeletePutReadRuns(del, put, get, k);
    SelfExplainedIsLinearizable(ops, map[]);
    assert Separates(del, k, put, get) && SameInstant(del, put);
    CoincidenceIsReported(ops, k, 1, put, get);
  }

  lemma DeletePutReadRuns(del: LogOp, put: LogOp, get: LogOp, k: Bytes)
    requires del.op == Delete(k) && del.IsLinearizationPoint() && del.result == Some(Done(None))
    requires put.op == Put(k, 1) && put.IsLinearizationPoint() && put.result == Some(Done(None))
    requires get.op == Get(k) && get.IsLinearizationPoint() && get.result == Some(Done(Some(1)))
    requires !Before(put, del) && !Before(get, put) && !Before(get, del)
    ensures Explains([del, put, get], [del, put, get], map[])
  {
    var run := [del, put, get];
    assert run[..0] == [] && run[..1] == [del] && run[..2] == [del, put];
    StateAfterTwo(del, put, map[]);
  }

  lemma PutReadRuns(put: LogOp, get: LogOp, k: Bytes)
    requires put.op == Put(k, 1) && put.IsLinearizationPoint() && put.result == Some(Done(None))
    requires get.op == Get(k) && get.IsLinearizationPoint() && get.result == Some(Done(Some(1)))
    requires !Before(get, put)
    ensures Explains([put, get], [put, get], map[])
  {
    var run := [put, get];
    assert run[..0] == [] && run[..1] == [put];
    StateAfterTwo(put, get, map[]);
  }

  // ---- Shrunk witnesses ------------------------------------------------------

  function ExampleOps(k: Bytes): (ops: seq<LogOp>)
    ensures |ops| == 3
  {
    [DoneAt(0, 0, Delete(k), 5, 7, None, 1),
     DoneAt(1, 0, Put(k, 1), 5, 5, None, 2),
     DoneAt(2, 0, Get(k), 8, 9, Some(1), 3)]
  }

  /** A selection in which no put explains the read fails. */
  lemma UnexplainedFails(ops: seq<LogOp>, s: seq<nat>, get: LogOp, k: Bytes)
    requires SelectsFrom(ops, s) && ReadsAndDeletesTakeTime(Select(ops, s))
    requires forall i :: 0 <= i < |s| ==> IsPoint(ops[s[i]])
    requires get in Select(ops, s) && ReadsValue(get, k, 1) && IsPhantom(Select(ops, s), get)
    ensures !Verdict(ops, map[])(s)
  {
    var sub := Select(ops, s);
    AllKept(sub, IsPoint, |sub|);
    assert PointsOf(sub) == sub;
    VerdictIsReference(sub, map[]);
    if HistoryLinearizable(sub, map[]) {
      TimedHistoryHasNoPhantom(sub);
      ReportEmpty(PhantomValue, sub, op => IsPhantom(sub, op), |sub|);
    }
  }

  lemma ExplainedPasses(ops: seq<LogOp>, s: seq<nat>)
    requires SelectsFrom(ops, s)
    requires ValidIntervals(Select(ops, s))
    requires Explains(Select(ops, s), Select(ops, s), map[])
    ensures Verdict(ops, map[])(s)
  {
    var sub := Select(ops, s);
    AllKept(sub, IsPoint, |sub|);
    assert PointsOf(sub) == sub;
    SelfExplainedIsLinearizable(sub, map[]);
    VerdictIsReference(sub, map[]);
  }

  /** Without its put, or with the delete in between, the read is a phantom. */
  lemma ExampleIsPhantom(k: Bytes, sub: seq<LogOp>)
    requires var ops := ExampleOps(k);
             && ops[2] in sub && (ops[1] in sub ==> ops[0] in sub)
             && forall op :: op in sub ==> op in ops
    ensures ReadsValue(ExampleOps(k)[2], k, 1) && IsPhantom(sub, ExampleOps(k)[2])
    ensures ReadsAndDeletesTakeTime(sub)
  {
    var ops := ExampleOps(k);
    assert ReadsValue(ops[2], k, 1) && Separates(ops[0], k, ops[1], ops[2]);
  }

  lemma ExamplePoints(k: Bytes)
    ensures forall i :: 0 <= i < 3 ==> IsPoint(ExampleOps(k)[i])
    ensures ExampleOps(k)[1] != ExampleOps(k)[0] && ExampleOps(k)[1] != ExampleOps(k)[2]
  {
  }

  /** Every selection with the read, and with the delete if it has the put, fails. */
  lemma ExampleFails(k: Bytes, s: seq<nat>)
    requires SelectsFrom(ExampleOps(k), s) && 2 in s && (1 in s ==> 0 in s)
    ensures !Verdict(ExampleOps(k), map[])(s)
  {
    ExamplePoints(k);
    hide ExampleOps, IsPhantom, ReadsAndDeletesTakeTime, Verdict, IsPoint;
    var ops := ExampleOps(k);
    var sub := Select(ops, s);
    var i :| 0 <= i < |s| && s[i] == 2;
    assert sub[i] == ops[2];
    if j :| 0 <= j < |sub| && sub[j] == ops[1] {
      assert s[j] == 1;
      var m :| 0 <= m < |s| && s[m] == 0;
      assert sub[m] == ops[0];
    }
    ExampleIsPhantom(k, sub);
    UnexplainedFails(ops, s, ops[2], k);
  }

  lemma PutAndReadPass(k: Bytes)
    ensures Verdict(ExampleOps(k), map[])([1, 2])
  {
    var ops := ExampleOps(k);
    var put, get := ops[1], ops[2];
    assert ValidIntervals([put, get]);
    PutReadRuns(put, get, k);
    hide ExampleOps, Explains, Verdict;
    assert Select(ops, [1, 2]) == [put, get];
    ExplainedPasses(ops, [1, 2]);
  }

  lemma DeletePasses(k: Bytes)
    ensures Verdict(ExampleOps(k), map[])([0])
  {
    var ops := ExampleOps(k);
    var del := ops[0];
    assert [del][..0] == [];
    assert Explains([del], [del], map[]);
    hide ExampleOps, Explains, Verdict;
    assert Select(ops, [0]) == [del];
    ExplainedPasses(ops, [0]);
  }

  lemma ShrinkThree(passes: seq<nat> -> bool)
    requires passes([1, 2]) && !passes([0, 2]) && passes([0])
    ensures GreedyKeep(passes, [0, 1, 2], 0) == [0, 2]
  {
    assert Without([0, 1, 2], 0) == [1, 2] && Without([0, 1, 2], 1) == [0, 2] && Without([0, 2], 1) == [0];
    hide GreedyKeep, Without;
    GreedyStep(passes, [0, 1, 2], 0);
    GreedyStep(passes, [0, 1, 2], 1);
    GreedyStep(passes, [0, 2], 1);
    GreedyEnd(passes, [0, 2]);
  }

  /**
   A shrunk witness need not be minimal: here shrinking keeps the delete and the
   read although the read alone already fails, because the delete was tried while
   the put that explains the read was still there.
   */
  lemma WitnessMayKeepTooMuch(k: Bytes)
    ensures var passes := Verdict(ExampleOps(k), map[]);
            && !passes([0, 1, 2])
            && GreedyKeep(passes, [0, 1, 2], 0) == [0, 2]
            && !passes([2])
  {
    hide Verdict, ExampleOps, GreedyKeep;
    PutAndReadPass(k);
    DeletePasses(k);
    ExampleFails(k, [0, 1, 2]);
    ExampleFails(k, [0, 2]);
    ExampleFails(k, [2]);
    ShrinkThree(Verdict(ExampleOps(k), map[]));
  }
}
