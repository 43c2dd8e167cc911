/**
 The oracle's three read checks over a reduced history, and why they stay silent
 on histories that a linearizable store can produce.
 */
module OracleChecks {
  import opened Base
  import opened OracleModel
  import opened LinearizabilityCheck
  import opened LinearizableRuns
  import opened Sorting

  datatype Invariant = PhantomValue | OneLogIdPerSeq | ReadYourWrites | MonotonicReads | WellFormed

  datatype Failure = Failure(violated: Invariant, calls: seq<nat>)

  /** One failure per bad operation, in history order. */
  ghost function Report(inv: Invariant, ops: seq<LogOp>, bad: LogOp -> bool, n: nat): seq<Failure>
    requires n <= |ops|
  {
    if n == 0 then []
    else Report(inv, ops, bad, n - 1) + if bad(ops[n - 1]) then [Failure(inv, ops[n - 1].calls)] else []
  }

  lemma {:induction false} ReportEmpty(inv: Invariant, ops: seq<LogOp>, bad: LogOp -> bool, n: nat)
    requires n <= |ops|
    ensures Report(inv, ops, bad, n) == [] <==> forall i :: 0 <= i < n ==> !bad(ops[i])
  {
    if n > 0 {
      ReportEmpty(inv, ops, bad, n - 1);
    }
  }

  // ---- Phantom values --------------------------------------------------------

  predicate ReadsValue(get: LogOp, key: Bytes, value: nat) {
    get.op == Get(key) && get.result == Some(Done(Some(value))) && get.completeTs.Some?
  }

  /** A put that may have applied and may be ordered before the read completes. */
  predicate IsCandidate(put: LogOp, key: Bytes, value: nat, readComplete: U64) {
    put.op == Put(key, value) && put.MayHaveApplied() && put.invokeTs < readComplete
  }

  /** A successful delete that lies in real time between the put and the read. */
  predicate Separates(del: LogOp, key: Bytes, put: LogOp, get: LogOp) {
    && del.op == Delete(key) && del.IsLinearizationPoint()
    && put.CompletedBy(del.invokeTs) && del.CompletedBy(get.invokeTs)
  }

  /** The read returned a value that no put in the history can account for. */
  ghost predicate IsPhantom(ops: seq<LogOp>, get: LogOp) {
    exists key, value :: ReadsValue(get, key, value) &&
      forall put :: put in ops && IsCandidate(put, key, value, get.completeTs.value) ==>
        exists del :: del in ops && Separates(del, key, put, get)
  }

  ghost function PhantomReport(ops: seq<LogOp>): seq<Failure> {
    Report(PhantomValue, ops, get => IsPhantom(ops, get), |ops|)
  }

  /** Whether some successful delete separates the put from the read. */
  method IsSeparated(ops: seq<LogOp>, key: Bytes, put: LogOp, get: LogOp) returns (found: bool)
    ensures found <==> exists del :: del in ops && Separates(del, key, put, get)
  {
    for i := 0 to |ops|
      invariant forall k :: 0 <= k < i ==> !Separates(ops[k], key, put, get)
    {
      if Separates(ops[i], key, put, get) {
        return true;
      }
    }
    found := false;
  }

  /** Whether some candidate put explains the read. */
  method IsExplained(ops: seq<LogOp>, key: Bytes, value: nat, get: LogOp) returns (explained: bool)
    requires get.completeTs.Some?
    ensures explained <==> exists put :: put in ops && IsCandidate(put, key, value, get.completeTs.value) &&
                                         !exists del :: del in ops && Separates(del, key, put, get)
  {
    for i := 0 to |ops|
      invariant forall k :: 0 <= k < i && IsCandidate(ops[k], key, value, get.completeTs.value) ==>
                  exists del :: del in ops && Separates(del, key, ops[k], get)
    {
      if IsCandidate(ops[i], key, value, get.completeTs.value) {
        var separated := IsSeparated(ops, key, ops[i], get);
        if !separated {
          return true;
        }
      }
    }
    explained := false;
  }

  method CheckPhantom(ops: seq<LogOp>) returns (failures: seq<Failure>)
    ensures failures == PhantomReport(ops)
  {
    failures := [];
    for i := 0 to |ops|
      invariant failures == Report(PhantomValue, ops, get => IsPhantom(ops, get), i)
    {
      var get := ops[i];
      if && get.op.Get? && get.result.Some? && get.result.value.Done?
         && get.result.value.found.Some? && get.completeTs.Some? {
        var value := get.result.value.found.value;
        var explained := IsExplained(ops, get.op.key, value, get);
        assert ReadsValue(get, get.op.key, value);
        if !explained {
          failures := failures + [Failure(PhantomValue, get.calls)];
        }
      }
    }
  }

  /** Two operations that both happened at one and the same instant. */
  predicate SameInstant(a: LogOp, b: LogOp) {
    && a.completeTs.Some? && b.completeTs.Some?
    && a.invokeTs == a.completeTs.value == b.invokeTs == b.completeTs.value
  }

  /**
   A read and a put whose order the clock cannot tell: they share an instant, or a delete
   that real time puts between them shares its instant with one of them.
   */
  ghost predicate Coincide(ops: seq<LogOp>, key: Bytes, put: LogOp, get: LogOp) {
    || SameInstant(put, get)
    || exists del :: del in ops && Separates(del, key, put, get) && (SameInstant(del, put) || SameInstant(del, get))
  }

  /** No read coincides with a put of the value it returned. */
  ghost predicate NothingCoincides(ops: seq<LogOp>) {
    forall key, value, put, get ::
      put in ops && get in ops && put.op == Put(key, value) && ReadsValue(get, key, value) ==>
      !Coincide(ops, key, put, get)
  }

  /** The put a read observed in a run explains that read to the phantom check, unless the two coincide. */
  lemma ObservedPutExplains(ops: seq<LogOp>, run: seq<LogOp>, r: nat, key: Bytes, value: nat) returns (w: nat)
    requires ValidIntervals(ops)
    requires Explains(ops, run, map[]) && r < |run| && ReadsValue(run[r], key, value)
    ensures w < r && run[w].op == Put(key, value)
    ensures !Coincide(ops, key, run[w], run[r]) ==>
              && IsCandidate(run[w], key, value, run[r].completeTs.value)
              && forall del :: del in ops ==> !Separates(del, key, run[w], run[r])
  {
    var get := run[r];
    w := ReadFrom(ops, run, r, key, value);
    var put := run[w];
    assert !Before(get, put) && put in ops && get in ops;
    forall del | del in ops && Separates(del, key, put, get)
      ensures SameInstant(del, put) || SameInstant(del, get)
    {
      var x :| 0 <= x < |run| && run[x] == del;
      assert x < w ==> !Before(put, del);
      assert r < x ==> !Before(del, get);
    }
  }

  /** On a history explained by a run from the empty store, only coincidences are reported. */
  lemma ExplainedHasNoPhantom(ops: seq<LogOp>, run: seq<LogOp>)
    requires ValidIntervals(ops) && NothingCoincides(ops)
    requires Explains(ops, run, map[])
    ensures PhantomReport(ops) == []
  {
    forall i | 0 <= i < |ops|
      ensures !IsPhantom(ops, ops[i])
    {
      forall key, value | ReadsValue(ops[i], key, value)
        ensures exists put :: put in ops && IsCandidate(put, key, value, ops[i].completeTs.value) &&
                              !exists del :: del in ops && Separates(del, key, put, ops[i])
      {
        assert ops[i] in ops && ops[i].IsLinearizationPoint();
        var r :| 0 <= r < |run| && run[r] == ops[i];
        var w := ObservedPutExplains(ops, run, r, key, value);
        assert run[w] in ops;
      }
    }
    ReportEmpty(PhantomValue, ops, get => IsPhantom(ops, get), |ops|);
  }

  /**
   The phantom check has no false positives: on a history that is linearizable from the
   empty store it reports nothing, unless a read coincides with a put of its value.
   */
  lemma LinearizableHasNoPhantom(ops: seq<LogOp>)
    requires ValidIntervals(ops) && NothingCoincides(ops)
    requires HistoryLinearizable(ops, map[])
    ensures PhantomReport(ops) == []
  {
    var run := LinearizableHasRun(ops, map[]);
    ExplainedHasNoPhantom(ops, run);
  }

  /** No value is put twice under one key, as a history's value ids promise. */
  ghost predicate PutsAreUnique(ops: seq<LogOp>) {
    forall a, b :: a in ops && b in ops && a.op.Put? && a.op == b.op ==> a == b
  }

  /** With unique values the coincidences are exactly what the phantom check reports on a linearizable history. */
  lemma PhantomReportedIffCoincides(ops: seq<LogOp>)
    requires ValidIntervals(ops) && PutsAreUnique(ops)
    requires HistoryLinearizable(ops, map[])
    ensures PhantomReport(ops) == [] <==> NothingCoincides(ops)
  {
    if NothingCoincides(ops) {
      LinearizableHasNoPhantom(ops);
    } else {
      var key, value, put, get :| put in ops && get in ops && put.op == Put(key, value) &&
        ReadsValue(get, key, value) && Coincide(ops, key, put, get);
      CoincidenceIsReported(ops, key, value, put, get);
    }
  }

  lemma CoincidenceIsReported(ops: seq<LogOp>, key: Bytes, value: nat, put: LogOp, get: LogOp)
    requires PutsAreUnique(ops) && put in ops && get in ops
    requires put.op == Put(key, value) && ReadsValue(get, key, value) && Coincide(ops, key, put, get)
    ensures PhantomReport(ops) != []
  {
    assert IsPhantom(ops, get);
    var i :| 0 <= i < |ops| && ops[i] == get;
    ReportEmpty(PhantomValue, ops, op => IsPhantom(ops, op), |ops|);
  }

  /** No operation ends before it starts; value-returning reads and successful deletes take time. */
  ghost predicate ReadsAndDeletesTakeTime(ops: seq<LogOp>) {
    forall op :: op in ops ==>
      && op.ValidInterval()
      && (op.IsLinearizationPoint() && !op.op.Put? ==> op.StrictInterval())
  }

  lemma TimeRulesOutCoincidence(ops: seq<LogOp>)
    requires ReadsAndDeletesTakeTime(ops)
    ensures ValidIntervals(ops) && NothingCoincides(ops)
  {
  }

  /** In particular nothing is reported when reads and deletes take time. */
  lemma TimedHistoryHasNoPhantom(ops: seq<LogOp>)
    requires ReadsAndDeletesTakeTime(ops)
    requires HistoryLinearizable(ops, map[])
    ensures PhantomReport(ops) == []
  {
    TimeRulesOutCoincidence(ops);
    LinearizableHasNoPhantom(ops);
  }

  // ---- One log id per operation --------------------------------------------------

  /** A put or delete whose retries were logged under more than one id. */
  predicate IsLoggedTwice(op: LogOp) {
    op.op.IsLoggedOp() && exists a, b :: a in op.logIds && b in op.logIds && a != b
  }

  method CheckOneLogId(ops: seq<LogOp>) returns (failures: seq<Failure>)
    ensures failures == Report(OneLogIdPerSeq, ops, IsLoggedTwice, |ops|)
  {
    failures := [];
    for i := 0 to |ops|
      invariant failures == Report(OneLogIdPerSeq, ops, IsLoggedTwice, i)
    {
      var op := ops[i];
      if op.op.IsLoggedOp() {
        var ids := set id | id in op.logIds;
        SeveralIds(op.logIds, ids);
        if |ids| > 1 {
          failures := failures + [Failure(OneLogIdPerSeq, op.calls)];
        }
      }
    }
  }

  lemma SeveralIds(ids: seq<nat>, distinct: set<nat>)
    requires distinct == set id | id in ids
    ensures |distinct| > 1 <==> exists a, b :: a in ids && b in ids && a != b
  {
    if |distinct| > 1 {
      var a :| a in distinct;
      assert |distinct - {a}| > 0;
      var b :| b in distinct - {a};
    }
    if a, b :| a in ids && b in ids && a != b {
      assert |distinct - {a}| > 0 by {
        assert b in distinct - {a};
      }
    }
  }

  // ---- Read your writes ------------------------------------------------------

  /** A successful read of `key`, whatever it returned. */
  predicate ReadsKey(get: LogOp) {
    get.op.Get? && get.result.Some? && get.result.value.Done?
  }

  /** A write of the reading client to the key it reads, applied before the read began. */
  predicate IsOwnMutation(m: LogOp, get: LogOp) {
    && m.client == get.client && m.op.key == get.op.key && m.op.IsLoggedOp()
    && m.IsLinearizationPoint() && m.CompletedBy(get.invokeTs)
  }

  /** `a` completed no later than `b`, ties broken by sequence number. */
  predicate NotLater(a: LogOp, b: LogOp)
    requires a.completeTs.Some? && b.completeTs.Some?
  {
    || a.completeTs.value < b.completeTs.value
    || (a.completeTs.value == b.completeTs.value && a.seqNo <= b.seqNo)
  }

  /** The client's latest own mutation among the first `n` operations. */
  function LatestOwn(ops: seq<LogOp>, get: LogOp, n: nat): (latest: Option<LogOp>)
    requires n <= |ops|
    ensures latest.Some? ==> latest.value in ops && IsOwnMutation(latest.value, get)
    ensures forall i :: 0 <= i < n && IsOwnMutation(ops[i], get) ==> latest.Some? && NotLater(ops[i], latest.value)
  {
    if n == 0 then None
    else
      var earlier := LatestOwn(ops, get, n - 1);
      var m := ops[n - 1];
      if IsOwnMutation(m, get) && (earlier.None? || NotLater(earlier.value, m)) then Some(m) else earlier
  }

  /** The read returned less than the client's own latest put. */
  predicate MissesOwnWrite(ops: seq<LogOp>, get: LogOp) {
    ReadsKey(get) &&
    var latest := LatestOwn(ops, get, |ops|);
    && latest.Some? && latest.value.op.Put?
    && !(get.result.value.found.Some? && get.result.value.found.value >= latest.value.op.value)
  }

  function MutationCalls(ops: seq<LogOp>, get: LogOp): seq<nat> {
    var latest := LatestOwn(ops, get, |ops|);
    if latest.Some? then latest.value.calls else []
  }

  /** One failure per read that misses its own client's write, naming both. */
  ghost function OwnWriteReport(ops: seq<LogOp>, n: nat): seq<Failure>
    requires n <= |ops|
  {
    if n == 0 then []
    else
      var get := ops[n - 1];
      OwnWriteReport(ops, n - 1) +
      if MissesOwnWrite(ops, get) then [Failure(ReadYourWrites, MutationCalls(ops, get) + get.calls)] else []
  }

  lemma {:induction false} OwnWriteReportEmpty(ops: seq<LogOp>, n: nat)
    requires n <= |ops|
    ensures OwnWriteReport(ops, n) == [] <==> forall i :: 0 <= i < n ==> !MissesOwnWrite(ops, ops[i])
  {
    if n > 0 {
      OwnWriteReportEmpty(ops, n - 1);
    }
  }

  method FindLatestOwn(ops: seq<LogOp>, get: LogOp) returns (latest: Option<LogOp>)
    ensures latest == LatestOwn(ops, get, |ops|)
  {
    latest := None;
    for i := 0 to |ops|
      invariant latest == LatestOwn(ops, get, i)
    {
      if IsOwnMutation(ops[i], get) && (latest.None? || NotLater(latest.value, ops[i])) {
        latest := Some(ops[i]);
      }
    }
  }

  method CheckReadYourWrites(ops: seq<LogOp>) returns (failures: seq<Failure>)
    ensures failures == OwnWriteReport(ops, |ops|)
  {
    failures := [];
    for i := 0 to |ops|
      invariant failures == OwnWriteReport(ops, i)
    {
      var get := ops[i];
      if ReadsKey(get) {
        var latest := FindLatestOwn(ops, get);
        if latest.Some? && latest.value.op.Put? {
          var found := get.result.value.found;
          if !(found.Some? && found.value >= latest.value.op.value) {
            failures := failures + [Failure(ReadYourWrites, latest.value.calls + get.calls)];
          }
        }
      }
    }
  }

  /** A recorded result comes with the time it was observed. */
  ghost predicate ResultsAreTimed(ops: seq<LogOp>) {
    forall op :: op in ops && op.result.Some? ==> op.completeTs.Some?
  }

  /** The run puts the values of each key in increasing version order. */
  ghost predicate VersionsIncrease(run: seq<LogOp>) {
    forall k, l :: 0 <= k < l < |run| && run[k].op.Put? && run[l].op.Put? && run[k].op.key == run[l].op.key ==>
      run[k].op.value <= run[l].op.value
  }

  /** Some explaining run writes each key in version order. */
  ghost predicate ExplainedInVersionOrder(ops: seq<LogOp>) {
    exists run :: Explains(ops, run, map[]) && VersionsIncrease(run)
  }

  ghost predicate VersionedHistory(ops: seq<LogOp>) {
    ReadsAndDeletesTakeTime(ops) && ResultsAreTimed(ops) && ExplainedInVersionOrder(ops)
  }

  lemma VersionedHasNoPhantom(ops: seq<LogOp>)
    requires VersionedHistory(ops)
    ensures PhantomReport(ops) == []
  {
    var run :| Explains(ops, run, map[]) && VersionsIncrease(run);
    TimeRulesOutCoincidence(ops);
    ExplainedHasNoPhantom(ops, run);
  }

  /** A read that returns a value returns one at least as new as any own write completed before it. */
  lemma OwnWriteIsSeen(ops: seq<LogOp>, run: seq<LogOp>, get: LogOp, m: LogOp)
    requires ReadsAndDeletesTakeTime(ops) && ResultsAreTimed(ops)
    requires Explains(ops, run, map[]) && VersionsIncrease(run)
    requires get in ops && ReadsKey(get) && m in ops && IsOwnMutation(m, get) && m.op.Put?
    ensures get.result.value.found.Some? ==> get.result.value.found.value >= m.op.value
    ensures get.result.value.found.None? ==> exists x :: 0 <= x < |run| && run[x].op == Delete(get.op.key)
  {
    var r :| 0 <= r < |run| && run[r] == get;
    var w0 :| 0 <= w0 < |run| && run[w0] == m;
    BeforeInRun(ops, run, map[], w0, r);
    var key := get.op.key;
    if get.result.value.found.Some? {
      var w := ReadFrom(ops, run, r, key, get.result.value.found.value);
      assert Writes(run[w0], key);
      assert w0 <= w;
    } else {
      AbsentWasDeleted(ops, run, r, key, w0);
    }
  }

  /**
   Exactly which reads of a versioned history are reported: those that find absent a key
   their client put last. A read that returns some value is never reported.
   */
  lemma {:induction false} MissIffAbsent(ops: seq<LogOp>, get: LogOp)
    requires VersionedHistory(ops) && get in ops && ReadsKey(get)
    ensures MissesOwnWrite(ops, get) <==>
            var latest := LatestOwn(ops, get, |ops|);
            get.result.value.found.None? && latest.Some? && latest.value.op.Put?
  {
    hide LatestOwn;
    var latest := LatestOwn(ops, get, |ops|);
    if latest.Some? && latest.value.op.Put? {
      var run :| Explains(ops, run, map[]) && VersionsIncrease(run);
      OwnWriteIsSeen(ops, run, get, latest.value);
    }
  }

  /** A read of a key that nobody deletes is not reported, whatever happens to other keys. */
  lemma UndeletedKeyIsNotMissed(ops: seq<LogOp>, get: LogOp)
    requires VersionedHistory(ops) && get in ops && ReadsKey(get)
    requires forall del :: del in ops && IsPoint(del) ==> del.op != Delete(get.op.key)
    ensures !MissesOwnWrite(ops, get)
  {
    hide LatestOwn;
    var latest := LatestOwn(ops, get, |ops|);
    if latest.Some? && latest.value.op.Put? {
      var run :| Explains(ops, run, map[]) && VersionsIncrease(run);
      OwnWriteIsSeen(ops, run, get, latest.value);
    }
  }

  /** The report of a versioned history is empty exactly when no client reads as absent a key it put last. */
  lemma {:induction false} OwnWriteReportedIffAbsent(ops: seq<LogOp>)
    requires VersionedHistory(ops)
    ensures OwnWriteReport(ops, |ops|) == [] <==>
            forall get :: get in ops && ReadsKey(get) && get.result.value.found.None? ==>
              var latest := LatestOwn(ops, get, |ops|); latest.None? || !latest.value.op.Put?
  {
    hide VersionedHistory, LatestOwn;
    OwnWriteReportEmpty(ops, |ops|);
    forall get | get in ops && ReadsKey(get)
      ensures MissesOwnWrite(ops, get) <==>
              var latest := LatestOwn(ops, get, |ops|);
              get.result.value.found.None? && latest.Some? && latest.value.op.Put?
    {
      MissIffAbsent(ops, get);
    }
  }

  /** Without deletes of the keys that are read, read-your-writes is never reported on a versioned history. */
  lemma {:induction false} NoDeletesNoOwnWriteReport(ops: seq<LogOp>)
    requires VersionedHistory(ops)
    requires forall get, del :: get in ops && ReadsKey(get) && del in ops && IsPoint(del) ==>
               del.op != Delete(get.op.key)
    ensures OwnWriteReport(ops, |ops|) == []
  {
    hide VersionedHistory;
    OwnWriteReportEmpty(ops, |ops|);
    forall i | 0 <= i < |ops|
      ensures !MissesOwnWrite(ops, ops[i])
    {
      if ReadsKey(ops[i]) {
        UndeletedKeyIsNotMissed(ops, ops[i]);
      }
    }
  }

  // ---- Monotonic reads ------------------------------------------------------

  predicate ReturnsValue(op: LogOp) {
    op.result.Some? && op.result.value.Done? && op.result.value.found.Some?
  }

  function ValueRead(op: LogOp): nat
    requires ReturnsValue(op)
  {
    op.result.value.found.value
  }

  /** The order in which reads are compared: completion, then start, then sequence number. */
  predicate ReadOrder(a: LogOp, b: LogOp) {
    if a.completeTs != b.completeTs then
      a.completeTs.None? || (b.completeTs.Some? && a.completeTs.value < b.completeTs.value)
    else if a.invokeTs != b.invokeTs then a.invokeTs < b.invokeTs
    else a.seqNo <= b.seqNo
  }

  /** The value-returning operations of one client on one key, among the first `n`. */
  function ReadsOf(ops: seq<LogOp>, who: (nat, Bytes), n: nat): (seen: seq<LogOp>)
    requires n <= |ops|
    ensures forall op :: op in seen ==> op in ops && ReturnsValue(op) && (op.client, op.op.key) == who
  {
    if n == 0 then []
    else
      var op := ops[n - 1];
      ReadsOf(ops, who, n - 1) + if ReturnsValue(op) && (op.client, op.op.key) == who then [op] else []
  }

  function OrderedReads(ops: seq<LogOp>, who: (nat, Bytes)): (seen: seq<LogOp>)
    ensures forall op :: op in seen ==> op in ops && ReturnsValue(op) && (op.client, op.op.key) == who
  {
    var seen := SortBy(ReadOrder, ReadsOf(ops, who, |ops|));
    MultisetMembers(seen, ReadsOf(ops, who, |ops|));
    seen
  }

  /** Two consecutive reads of a client on a key, the later of which returned the older value. */
  ghost predicate Regresses(ops: seq<LogOp>, who: (nat, Bytes), i: nat) {
    var seen := OrderedReads(ops, who);
    i + 1 < |seen| && ValueRead(seen[i + 1]) < ValueRead(seen[i])
  }

  /** The failures of the first `n` consecutive pairs of a client's reads of a key, in order. */
  ghost function Regressions(ops: seq<LogOp>, who: (nat, Bytes), n: nat): seq<Failure> {
    if n == 0 then []
    else
      var seen := OrderedReads(ops, who);
      Regressions(ops, who, n - 1) +
      if Regresses(ops, who, n - 1) then [Failure(MonotonicReads, seen[n - 1].calls + seen[n].calls)] else []
  }

  /** All failures of a client on a key. */
  ghost function AllRegressions(ops: seq<LogOp>, who: (nat, Bytes)): seq<Failure> {
    Regressions(ops, who, |OrderedReads(ops, who)|)
  }

  lemma {:induction false} RegressionsEmpty(ops: seq<LogOp>, who: (nat, Bytes), n: nat)
    ensures Regressions(ops, who, n) == [] <==> forall i: nat :: i < n ==> !Regresses(ops, who, i)
  {
    hide Regresses, OrderedReads;
    if n > 0 {
      RegressionsEmpty(ops, who, n - 1);
    }
  }

  /** The failures of the given clients and keys, one after the other. */
  ghost function RegressionsOfAll(ops: seq<LogOp>, visited: seq<(nat, Bytes)>): seq<Failure> {
    if visited == [] then []
    else
      var n := |visited| - 1;
      RegressionsOfAll(ops, visited[..n]) + AllRegressions(ops, visited[n])
  }

  lemma {:induction false} RegressionsOfAllEmpty(ops: seq<LogOp>, visited: seq<(nat, Bytes)>)
    ensures RegressionsOfAll(ops, visited) == [] <==>
            forall k :: 0 <= k < |visited| ==> AllRegressions(ops, visited[k]) == []
  {
    hide AllRegressions;
    if visited != [] {
      RegressionsOfAllEmpty(ops, visited[..|visited| - 1]);
    }
  }

  /** `groups` holds the value-returning operations among the first `n`, by client and key. */
  ghost predicate Grouped(ops: seq<LogOp>, n: nat, groups: map<(nat, Bytes), seq<LogOp>>)
    requires n <= |ops|
  {
    && (forall who :: ReadsOf(ops, who, n) == if who in groups then groups[who] else [])
    && (forall who :: who in groups ==> groups[who] != [])
  }

  lemma GroupOneMore(
    ops: seq<LogOp>, n: nat, groups: map<(nat, Bytes), seq<LogOp>>, more: map<(nat, Bytes), seq<LogOp>>)
    requires n < |ops| && Grouped(ops, n, groups)
    requires ReturnsValue(ops[n]) ==>
               var who := (ops[n].client, ops[n].op.key);
               more == groups[who := (if who in groups then groups[who] else []) + [ops[n]]]
    requires !ReturnsValue(ops[n]) ==> more == groups
    ensures Grouped(ops, n + 1, more)
  {
    forall who
      ensures ReadsOf(ops, who, n + 1) == if who in more then more[who] else []
    {
      assert ReadsOf(ops, who, n) == if who in groups then groups[who] else [];
    }
  }

  /** Group the value-returning operations by client and key. */
  method GroupReads(ops: seq<LogOp>) returns (groups: map<(nat, Bytes), seq<LogOp>>)
    ensures Grouped(ops, |ops|, groups)
  {
    groups := map[];
    for i := 0 to |ops|
      invariant Grouped(ops, i, groups)
    {
      ghost var before := groups;
      if ReturnsValue(ops[i]) {
        var who := (ops[i].client, ops[i].op.key);
        var sofar := if who in groups then groups[who] else [];
        groups := groups[who := sofar + [ops[i]]];
      }
      GroupOneMore(ops, i, before, groups);
    }
  }

  /** The regressions of one client on one key. */
  method CompareConsecutive(ops: seq<LogOp>, who: (nat, Bytes), seen: seq<LogOp>) returns (failures: seq<Failure>)
    requires seen == OrderedReads(ops, who)
    ensures failures == AllRegressions(ops, who)
  {
    hide Regressions, OrderedReads;
    NothingCompared(ops, who);
    failures := [];
    var i := 0;
    while i + 1 < |seen|
      invariant i == 0 || i < |seen|
      invariant failures == Regressions(ops, who, i)
    {
      assert seen[i] in seen && seen[i + 1] in seen;
      RegressionsOneMore(ops, who, i);
      if ValueRead(seen[i + 1]) < ValueRead(seen[i]) {
        failures := failures + [Failure(MonotonicReads, seen[i].calls + seen[i + 1].calls)];
      }
      i := i + 1;
    }
    if |seen| > 0 {
      RegressionsOneMore(ops, who, |seen| - 1);
    }
  }

  lemma {:induction false} NothingCompared(ops: seq<LogOp>, who: (nat, Bytes))
    ensures Regressions(ops, who, 0) == []
  {
  }

  lemma RegressionsOneMore(ops: seq<LogOp>, who: (nat, Bytes), i: nat)
    ensures var seen := OrderedReads(ops, who);
            Regressions(ops, who, i + 1) == Regressions(ops, who, i) +
            if Regresses(ops, who, i) then [Failure(MonotonicReads, seen[i].calls + seen[i + 1].calls)] else []
  {
  }

  /** The clients and keys with value-returning operations, each once. */
  ghost predicate IsVisit(ops: seq<LogOp>, visited: seq<(nat, Bytes)>) {
    Distinct(visited) && forall who :: who in visited <==> ReadsOf(ops, who, |ops|) != []
  }

  lemma {:induction false} GroupsAreReads(ops: seq<LogOp>, groups: map<(nat, Bytes), seq<LogOp>>)
    requires Grouped(ops, |ops|, groups)
    ensures forall who :: who in groups ==> SortBy(ReadOrder, groups[who]) == OrderedReads(ops, who)
    ensures forall who :: who in groups <==> ReadsOf(ops, who, |ops|) != []
  {
  }

  lemma {:induction false} NobodyVisited(ops: seq<LogOp>)
    ensures RegressionsOfAll(ops, []) == []
  {
  }

  lemma {:induction false} VisitOneMore(ops: seq<LogOp>, visited: seq<(nat, Bytes)>, who: (nat, Bytes))
    ensures RegressionsOfAll(ops, visited + [who]) == RegressionsOfAll(ops, visited) + AllRegressions(ops, who)
  {
    assert (visited + [who])[..|visited|] == visited;
  }

  /** Every regression of every client on every key is reported, once, and nothing else is. */
  method CheckMonotonicReads(ops: seq<LogOp>) returns (failures: seq<Failure>, ghost visited: seq<(nat, Bytes)>)
    ensures IsVisit(ops, visited) && failures == RegressionsOfAll(ops, visited)
    ensures failures == [] <==> forall who, i: nat :: !Regresses(ops, who, i)
  {
    hide Regresses, AllRegressions, RegressionsOfAll, OrderedReads, ReadsOf, Grouped;
    var groups := GroupReads(ops);
    GroupsAreReads(ops, groups);
    NobodyVisited(ops);
    failures, visited := [], [];
    var todo := groups.Keys;
    while todo != {}
      invariant todo <= groups.Keys && HasVisited(groups.Keys, todo, visited)
      invariant failures == RegressionsOfAll(ops, visited)
      decreases todo
    {
      var who :| who in todo;
      var found := CompareConsecutive(ops, who, SortBy(ReadOrder, groups[who]));
      failures := failures + found;
      VisitOneMore(ops, visited, who);
      VisitNext(groups.Keys, todo, visited, who);
      visited := visited + [who];
      todo := todo - {who};
    }
    NoRegressionReported(ops, visited);
  }

  /** Everybody was visited once, except those still to do. */
  ghost predicate HasVisited(all: set<(nat, Bytes)>, todo: set<(nat, Bytes)>, visited: seq<(nat, Bytes)>) {
    Distinct(visited) && forall who :: who in visited <==> who in all && who !in todo
  }

  lemma VisitNext(all: set<(nat, Bytes)>, todo: set<(nat, Bytes)>, visited: seq<(nat, Bytes)>, who: (nat, Bytes))
    requires todo <= all && HasVisited(all, todo, visited) && who in todo
    ensures HasVisited(all, todo - {who}, visited + [who])
  {
  }

  lemma {:induction false} NoRegressionReported(ops: seq<LogOp>, visited: seq<(nat, Bytes)>)
    requires IsVisit(ops, visited)
    ensures RegressionsOfAll(ops, visited) == [] <==> forall who, i: nat :: !Regresses(ops, who, i)
  {
    RegressionsOfAllEmpty(ops, visited);
    forall who
      ensures (AllRegressions(ops, who) == []) <==> forall i: nat :: !Regresses(ops, who, i)
      ensures who !in visited ==> AllRegressions(ops, who) == []
    {
      RegressionsEmpty(ops, who, |OrderedReads(ops, who)|);
      MultisetMembers(OrderedReads(ops, who), ReadsOf(ops, who, |ops|));
    }
    forall who
      ensures RegressionsOfAll(ops, visited) == [] ==> AllRegressions(ops, who) == []
    {
      if k :| 0 <= k < |visited| && visited[k] == who {
      }
    }
  }

  /** A client finishes one operation before it starts the next. */
  ghost predicate OneAtATime(ops: seq<LogOp>) {
    forall x, y :: x in ops && y in ops && x.client == y.client && x != y ==>
      x.CompletedBy(y.invokeTs) || y.CompletedBy(x.invokeTs)
  }

  lemma ReadOrderIsTotal()
    ensures TotalPreorder(ReadOrder)
  {
  }

  /** Of two reads, the one that comes first in a run of increasing versions saw no newer value. */
  lemma LaterReadSeesNewer(ops: seq<LogOp>, run: seq<LogOp>, a: LogOp, b: LogOp, key: Bytes, va: nat, vb: nat)
    requires Explains(ops, run, map[]) && VersionsIncrease(run)
    requires a in ops && ReadsValue(a, key, va) && b in ops && ReadsValue(b, key, vb)
    requires Before(a, b)
    ensures va <= vb
  {
    var i :| 0 <= i < |run| && run[i] == a;
    var j :| 0 <= j < |run| && run[j] == b;
    BeforeInRun(ops, run, map[], i, j);
    var wa := ReadFrom(ops, run, i, key, va);
    var wb := ReadFrom(ops, run, j, key, vb);
    assert Writes(run[wa], key);
    assert wa <= wb;
  }

  /** Only reads return values in an explained history. */
  lemma ReturnedValuesAreReads(ops: seq<LogOp>, run: seq<LogOp>, op: LogOp)
    requires ResultsAreTimed(ops) && Explains(ops, run, map[])
    requires op in ops && ReturnsValue(op)
    ensures ReadsValue(op, op.op.key, ValueRead(op))
  {
    var i :| 0 <= i < |run| && run[i] == op;
  }

  /** Clients of a versioned history that work one operation at a time never see a value go back. */
  lemma VersionedReadsAreMonotonic(ops: seq<LogOp>, who: (nat, Bytes), i: nat)
    requires VersionedHistory(ops) && OneAtATime(ops)
    ensures !Regresses(ops, who, i)
  {
    var seen := OrderedReads(ops, who);
    if i + 1 < |seen| {
      var run :| Explains(ops, run, map[]) && VersionsIncrease(run);
      var a, b := seen[i], seen[i + 1];
      assert a in seen && b in seen;
      ReturnedValuesAreReads(ops, run, a);
      ReturnedValuesAreReads(ops, run, b);
      ReadOrderIsTotal();
      SortIsSorted(ReadOrder, ReadsOf(ops, who, |ops|));
      assert ReadOrder(a, b);
      if a != b {
        LaterReadSeesNewer(ops, run, a, b, who.1, ValueRead(a), ValueRead(b));
      }
    }
  }
}
