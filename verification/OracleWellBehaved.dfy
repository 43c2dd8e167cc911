/**
 A raw history as the clients of a store that behaves leave it: a put that times out and is
 retried, then a read. It meets every condition under which the oracle promises silence.
 */
module OracleWellBehaved {
  import opened Base
  import opened OracleModel
  import opened LinearizabilityCheck
  import opened LinearizableRuns
  import opened OracleChecks
  import opened OracleHistory
  import opened Sorting

  function FirstTry(k: Bytes): Event { Invoke(1, 0, 0, Put(k, 1), 0) }

  function TimedOutTry(): Event { Complete(1, 5, Failed(Timeout), None) }

  function SecondTry(k: Bytes): Event { Invoke(2, 0, 0, Put(k, 1), 6) }

  function PutDone(): Event { Complete(2, 8, Done(None), Some(7)) }

  function ReadStarts(k: Bytes): Event { Invoke(3, 0, 1, Get(k), 9) }

  function ReadDone(): Event { Complete(3, 10, Done(Some(1)), None) }

  function Recorded(k: Bytes): seq<Event> {
    [] + [FirstTry(k)] + [TimedOutTry()] + [SecondTry(k)] + [PutDone()] + [ReadStarts(k)] + [ReadDone()]
  }

  /** The put with both its calls, its first start and its one success. */
  function MergedPut(k: Bytes): LogOp {
    LogOp(0, 0, Put(k, 1), 0, Some(8), Some(Done(None)), [7], [1, 2])
  }

  function MergedRead(k: Bytes): LogOp {
    LogOp(0, 1, Get(k), 9, Some(10), Some(Done(Some(1))), [], [3])
  }

  lemma {:induction false} KeysOneMore(events: seq<Event>, e: Event)
    ensures CallKeys(events + [e]) == if e.Invoke? then CallKeys(events)[e.call := IdOf(e)] else CallKeys(events)
  {
    assert (events + [e])[..|events|] == events;
  }

  lemma {:induction false} NothingYet(keys: map<nat, OpId>, id: OpId)
    ensures CallKeys([]) == map[] && Project(keys, [], id) == [] && Fold([]) == EMPTY_GROUP
  {
  }

  lemma RecordedKeys(k: Bytes)
    ensures CallKeys(Recorded(k)) == map[1 := OpId(0, 0), 2 := OpId(0, 0), 3 := OpId(0, 1)]
  {
    hide CallKeys;
    NothingYet(map[], OpId(0, 0));
    var s: seq<Event> := [];
    KeysOneMore(s, FirstTry(k));
    KeysOneMore(s + [FirstTry(k)], TimedOutTry());
    KeysOneMore(s + [FirstTry(k)] + [TimedOutTry()], SecondTry(k));
    KeysOneMore(s + [FirstTry(k)] + [TimedOutTry()] + [SecondTry(k)], PutDone());
    KeysOneMore(s + [FirstTry(k)] + [TimedOutTry()] + [SecondTry(k)] + [PutDone()], ReadStarts(k));
    KeysOneMore(
      s + [FirstTry(k)] + [TimedOutTry()] + [SecondTry(k)] + [PutDone()] + [ReadStarts(k)], ReadDone());
  }

  lemma {:induction false} RecordedFor(k: Bytes, id: OpId)
    ensures var p := Project(CallKeys(Recorded(k)), Recorded(k), id);
            && (id == OpId(0, 0) ==> p == [] + [FirstTry(k)] + [TimedOutTry()] + [SecondTry(k)] + [PutDone()])
            && (id == OpId(0, 1) ==> p == [] + [ReadStarts(k)] + [ReadDone()])
  {
    RecordedKeys(k);
    hide CallKeys, Project;
    var keys := CallKeys(Recorded(k));
    NothingYet(keys, id);
    var s: seq<Event> := [];
    ProjectOneMore(keys, s, FirstTry(k), id);
    ProjectOneMore(keys, s + [FirstTry(k)], TimedOutTry(), id);
    ProjectOneMore(keys, s + [FirstTry(k)] + [TimedOutTry()], SecondTry(k), id);
    ProjectOneMore(keys, s + [FirstTry(k)] + [TimedOutTry()] + [SecondTry(k)], PutDone(), id);
    ProjectOneMore(keys, s + [FirstTry(k)] + [TimedOutTry()] + [SecondTry(k)] + [PutDone()], ReadStarts(k), id);
    ProjectOneMore(
      keys, s + [FirstTry(k)] + [TimedOutTry()] + [SecondTry(k)] + [PutDone()] + [ReadStarts(k)], ReadDone(), id);
  }

  lemma PutIsMerged(k: Bytes)
    ensures IntoLogOp(GroupOf(Recorded(k), OpId(0, 0)), OpId(0, 0)) == Some(MergedPut(k))
  {
    RecordedFor(k, OpId(0, 0));
    hide CallKeys, Project, Fold, Recorded;
    NothingYet(map[], OpId(0, 0));
    var s: seq<Event> := [];
    FoldOneMore(s, FirstTry(k));
    FoldOneMore(s + [FirstTry(k)], TimedOutTry());
    FoldOneMore(s + [FirstTry(k)] + [TimedOutTry()], SecondTry(k));
    FoldOneMore(s + [FirstTry(k)] + [TimedOutTry()] + [SecondTry(k)], PutDone());
    var completes := [(5, Failed(Timeout)), (8, Done(None))];
    assert completes[1..] == [(8, Done(None))];
    assert Observed(completes[1..]) == Some((8, Done(None)));
    assert Observed(completes) == Some((8, Done(None)));
    assert GroupOf(Recorded(k), OpId(0, 0)) == Group(Some(Put(k, 1)), Some(0), [1, 2], completes, [7]);
  }

  lemma ReadIsMerged(k: Bytes)
    ensures IntoLogOp(GroupOf(Recorded(k), OpId(0, 1)), OpId(0, 1)) == Some(MergedRead(k))
  {
    RecordedFor(k, OpId(0, 1));
    hide CallKeys, Project, Fold, Recorded;
    NothingYet(map[], OpId(0, 1));
    var s: seq<Event> := [];
    FoldOneMore(s, ReadStarts(k));
    FoldOneMore(s + [ReadStarts(k)], ReadDone());
    assert GroupOf(Recorded(k), OpId(0, 1)) == Group(Some(Get(k)), Some(9), [3], [(10, Done(Some(1)))], []);
  }

  /** The retried put is one operation, with the times, the result, the log id and the calls of both tries. */
  lemma RetriesAreMerged(k: Bytes)
    ensures IsReduction(Recorded(k), [MergedPut(k), MergedRead(k)])
  {
    PutIsMerged(k);
    ReadIsMerged(k);
    hide GroupOf, IntoLogOp;
    var events, ops := Recorded(k), [MergedPut(k), MergedRead(k)];
    assert events[0] == FirstTry(k) && events[2] == SecondTry(k) && events[4] == ReadStarts(k);
    assert ops[0] in ops && ops[1] in ops;
    forall id | IsInvoked(events, id)
      ensures exists op :: op in ops && IdOfOp(op) == id
    {
      assert id == IdOfOp(ops[0]) || id == IdOfOp(ops[1]);
    }
  }

  lemma RecordedMembers(k: Bytes)
    ensures forall e :: e in Recorded(k) <==> || e == FirstTry(k) || e == TimedOutTry() || e == SecondTry(k)
                                              || e == PutDone() || e == ReadStarts(k) || e == ReadDone()
  {
    var s := Recorded(k);
    assert s[0] == FirstTry(k) && s[1] == TimedOutTry() && s[2] == SecondTry(k);
    assert s[3] == PutDone() && s[4] == ReadStarts(k) && s[5] == ReadDone();
  }

  lemma RecordIsSound(k: Bytes)
    ensures IsWellFormed(Recorded(k)) && CallsTakeTime(Recorded(k)) && LoggedOnce(Recorded(k))
  {
    RecordedMembers(k);
    hide Recorded, CallKeys, Owner;
    assert FirstTry(k) in Recorded(k) && SecondTry(k) in Recorded(k) && ReadStarts(k) in Recorded(k);
  }

  lemma MergedIsVersioned(k: Bytes)
    ensures ExplainedInVersionOrder([MergedPut(k), MergedRead(k)]) && OneAtATime([MergedPut(k), MergedRead(k)])
  {
    var put, get := MergedPut(k), MergedRead(k);
    var run := [put, get];
    assert run[..0] == [] && run[..1] == [put] && [put][..0] == [];
    assert StateAfter([put], map[]) == Apply(StateAfter([], map[]), put.op).0;
    assert Explains(run, run, map[]) && VersionsIncrease(run);
  }

  /** Every check is silent on it. */
  lemma WellBehavedIsSilent(k: Bytes)
    ensures var events, ops := Recorded(k), [MergedPut(k), MergedRead(k)];
            && IsWellFormed(events) && CallsTakeTime(events) && LoggedOnce(events) && IsReduction(events, ops)
            && ExplainedInVersionOrder(ops) && OneAtATime(ops)
            && Defects(events, Reuses(events), true, |events|) == []
            && Defects(events, Orphans(events), true, |events|) == []
            && Defects(events, Changes(events), false, |events|) == []
            && PhantomReport(ops) == [] && Report(OneLogIdPerSeq, ops, IsLoggedTwice, |ops|) == []
            && OwnWriteReport(ops, |ops|) == [] && forall who, i: nat :: !Regresses(ops, who, i)
  {
    RecordIsSound(k);
    RetriesAreMerged(k);
    MergedIsVersioned(k);
    hide Recorded, Defects, PhantomReport, Report, OwnWriteReport, Regresses;
    hide IsWellFormed, CallsTakeTime, LoggedOnce, IsReduction, ExplainedInVersionOrder, OneAtATime;
    RawHistoryIsSilent(Recorded(k), [MergedPut(k), MergedRead(k)]);
  }
}
