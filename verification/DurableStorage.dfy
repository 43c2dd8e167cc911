/**
 A storage that fails on schedule, the ledger of what it made durable, and the
 order in which one Ready's records are persisted. The wrapped storage is not
 modelled beyond its contract: each call it receives carries the verdict it will
 give, so a run is any sequence of calls with any verdicts.
 */
module DurableStorage {
  import opened Base

  datatype HardState = HardState(term: nat, vote: Option<nat>, commit: nat)

  datatype Entry = Entry(index: nat, term: nat, data: Bytes)

  /** When to inject a failure, by the number of the call (counting from one). */
  datatype FaultSchedule = FaultSchedule(
    failSyncAt: Option<nat>,
    failSyncEvery: Option<nat>,
    failSetHardStateAt: Option<nat>,
    failAppendAt: Option<nat>)

  datatype OpKind = Append | SetHardState | SyncEntries

  datatype OpRecord = OpRecord(seqNo: nat, kind: OpKind)

  /** One hard state that was persisted. */
  datatype Persisted = Persisted(seqNo: nat, hs: HardState)

  /**
   A write-side call; `innerOk` is what the wrapped storage answers if it is reached. An
   append may overwrite: `keep` is how many of the entries already there it leaves in place.
   */
  datatype Call =
    | AppendCall(entries: seq<Entry>, keep: nat, innerOk: bool)
    | SyncCall(innerOk: bool)
    | SetCall(hs: HardState, innerOk: bool)

  function KindOf(c: Call): OpKind {
    match c
    case AppendCall(_, _, _) => Append
    case SyncCall(_) => SyncEntries
    case SetCall(_, _) => SetHardState
  }

  /** How many of the calls are of the given kind. */
  function Count(calls: seq<Call>, kind: OpKind): nat {
    if calls == [] then 0
    else Count(calls[..|calls| - 1], kind) + if KindOf(calls[|calls| - 1]) == kind then 1 else 0
  }

  /** The schedule fails the `n`-th call of this kind. */
  predicate IsInjected(s: FaultSchedule, kind: OpKind, n: nat) {
    match kind
    case Append => s.failAppendAt == Some(n)
    case SetHardState => s.failSetHardStateAt == Some(n)
    case SyncEntries =>
      s.failSyncAt == Some(n) || (s.failSyncEvery.Some? && s.failSyncEvery.value > 0 && n % s.failSyncEvery.value == 0)
  }

  // ---- What a run amounts to ---------------------------------------------------

  /** The last call of a run succeeds: its number is not on the schedule and the wrapped storage accepts it. */
  predicate LastAccepted(schedule: FaultSchedule, calls: seq<Call>)
    requires calls != []
  {
    var c := calls[|calls| - 1];
    !IsInjected(schedule, KindOf(c), Count(calls, KindOf(c))) && c.innerOk
  }

  /** The accepted hard states of a run, in order. */
  function AcceptedHardStates(schedule: FaultSchedule, calls: seq<Call>): seq<HardState> {
    if calls == [] then []
    else
      var c := calls[|calls| - 1];
      AcceptedHardStates(schedule, calls[..|calls| - 1]) +
      if c.SetCall? && LastAccepted(schedule, calls) then [c.hs] else []
  }

  function Min(a: nat, b: nat): nat {
    if a <= b then a else b
  }

  /** The log with `more` in place of everything after its first `keep` entries. */
  function Overwritten(log: seq<Entry>, keep: nat, more: seq<Entry>): seq<Entry> {
    log[..Min(keep, |log|)] + more
  }

  /** The log the wrapped storage holds after a run. */
  function AcceptedEntries(schedule: FaultSchedule, calls: seq<Call>): seq<Entry> {
    if calls == [] then []
    else
      var c, log := calls[|calls| - 1], AcceptedEntries(schedule, calls[..|calls| - 1]);
      if c.AppendCall? && LastAccepted(schedule, calls) then Overwritten(log, c.keep, c.entries) else log
  }

  /** How much of that log is durable: what the last accepted sync found, less what was overwritten since. */
  function DurableLength(schedule: FaultSchedule, calls: seq<Call>): (n: nat)
    ensures n <= |AcceptedEntries(schedule, calls)|
  {
    if calls == [] then 0
    else
      var c, n := calls[|calls| - 1], DurableLength(schedule, calls[..|calls| - 1]);
      if c.SyncCall? && LastAccepted(schedule, calls) then |AcceptedEntries(schedule, calls)|
      else if c.AppendCall? && LastAccepted(schedule, calls) then Min(c.keep, n)
      else n
  }

  /** The operation log: every call, accepted or not. */
  function OpLog(calls: seq<Call>): (ops: seq<OpRecord>)
    ensures |ops| == |calls|
  {
    if calls == [] then []
    else OpLog(calls[..|calls| - 1]) + [OpRecord(|calls|, KindOf(calls[|calls| - 1]))]
  }

  function LedgerOf(hs: seq<HardState>): (ledger: seq<Persisted>)
    ensures |ledger| == |hs| && forall i :: 0 <= i < |hs| ==> ledger[i] == Persisted(i + 1, hs[i])
  {
    seq(|hs|, i requires 0 <= i < |hs| => Persisted(i + 1, hs[i]))
  }

  /** What one more call adds to a run. */
  lemma {:induction false} OneMoreCall(schedule: FaultSchedule, calls: seq<Call>, c: Call)
    ensures forall kind :: Count(calls + [c], kind) == Count(calls, kind) + if KindOf(c) == kind then 1 else 0
    ensures OpLog(calls + [c]) == OpLog(calls) + [OpRecord(|calls| + 1, KindOf(c))]
    ensures var ok := LastAccepted(schedule, calls + [c]);
            var hs, log := AcceptedHardStates(schedule, calls), AcceptedEntries(schedule, calls);
            var durable := DurableLength(schedule, calls);
            && ok == (!IsInjected(schedule, KindOf(c), Count(calls, KindOf(c)) + 1) && c.innerOk)
            && AcceptedHardStates(schedule, calls + [c]) == (if c.SetCall? && ok then hs + [c.hs] else hs)
            && AcceptedEntries(schedule, calls + [c]) ==
               (if c.AppendCall? && ok then Overwritten(log, c.keep, c.entries) else log)
            && DurableLength(schedule, calls + [c]) ==
               (if c.SyncCall? && ok then |log|
                else if c.AppendCall? && ok then Min(c.keep, durable)
                else durable)
  {
    hide IsInjected;
    assert (calls + [c])[..|calls|] == calls;
  }

  lemma {:induction false} CountIsSize(calls: seq<Call>, kind: OpKind)
    ensures Count(calls, kind) == |set j | 0 <= j < |calls| && KindOf(calls[j]) == kind|
  {
    hide KindOf;
    var all := set j | 0 <= j < |calls| && KindOf(calls[j]) == kind;
    if calls == [] {
      assert all == {};
    } else {
      var n := |calls| - 1;
      CountIsSize(calls[..n], kind);
      var before := set j | 0 <= j < |calls[..n]| && KindOf(calls[..n][j]) == kind;
      assert n !in before;
      if KindOf(calls[n]) == kind {
        assert all == before + {n};
      } else {
        assert all == before;
      }
    }
  }

  /** An append fails exactly if the wrapped storage refuses it or its number among the appends is the scheduled one. */
  lemma AppendAcceptedIff(schedule: FaultSchedule, calls: seq<Call>)
    requires calls != [] && calls[|calls| - 1].AppendCall?
    ensures var n := |set j | 0 <= j < |calls| && calls[j].AppendCall?|;
            LastAccepted(schedule, calls) <==> calls[|calls| - 1].innerOk && schedule.failAppendAt != Some(n)
  {
    CountIsSize(calls, Append);
    assert (set j | 0 <= j < |calls| && calls[j].AppendCall?) ==
           set j | 0 <= j < |calls| && KindOf(calls[j]) == Append;
  }

  /** The same of recording a hard state. */
  lemma SetAcceptedIff(schedule: FaultSchedule, calls: seq<Call>)
    requires calls != [] && calls[|calls| - 1].SetCall?
    ensures var n := |set j | 0 <= j < |calls| && calls[j].SetCall?|;
            LastAccepted(schedule, calls) <==> calls[|calls| - 1].innerOk && schedule.failSetHardStateAt != Some(n)
  {
    CountIsSize(calls, SetHardState);
    assert (set j | 0 <= j < |calls| && calls[j].SetCall?) ==
           set j | 0 <= j < |calls| && KindOf(calls[j]) == SetHardState;
  }

  /** A sync fails also if its number is a multiple of the scheduled period, if that is not zero. */
  lemma SyncAcceptedIff(schedule: FaultSchedule, calls: seq<Call>)
    requires calls != [] && calls[|calls| - 1].SyncCall?
    ensures var n := |set j | 0 <= j < |calls| && calls[j].SyncCall?|;
            LastAccepted(schedule, calls) <==>
            && calls[|calls| - 1].innerOk && schedule.failSyncAt != Some(n)
            && (match schedule.failSyncEvery case Some(every) => every == 0 || n % every != 0 case None => true)
  {
    CountIsSize(calls, SyncEntries);
    assert (set j | 0 <= j < |calls| && calls[j].SyncCall?) ==
           set j | 0 <= j < |calls| && KindOf(calls[j]) == SyncEntries;
  }

  // ---- The storage -------------------------------------------------------------

  class DurabilityLedger {
    var hardStates: seq<Persisted>

    constructor ()
      ensures hardStates == []
    {
      hardStates := [];
    }

    method RecordHardState(hs: HardState)
      modifies this
      ensures hardStates == old(hardStates) + [Persisted(|old(hardStates)| + 1, hs)]
    {
      hardStates := hardStates + [Persisted(|hardStates| + 1, hs)];
    }

    /** The highest persisted term: none is higher, and it was persisted unless nothing was. */
    method MaxPersistedTerm() returns (term: nat)
      ensures forall p :: p in hardStates ==> p.hs.term <= term
      ensures if hardStates == [] then term == 0 else exists p :: p in hardStates && p.hs.term == term
    {
      term := 0;
      for i := 0 to |hardStates|
        invariant forall j :: 0 <= j < i ==> hardStates[j].hs.term <= term
        invariant if i == 0 then term == 0 else exists p :: p in hardStates && p.hs.term == term
      {
        assert hardStates[i] in hardStates;
        if i == 0 || hardStates[i].hs.term > term {
          term := hardStates[i].hs.term;
        }
      }
    }

    /** The highest persisted commit index. */
    method PersistedCommit() returns (commit: nat)
      ensures forall p :: p in hardStates ==> p.hs.commit <= commit
      ensures if hardStates == [] then commit == 0 else exists p :: p in hardStates && p.hs.commit == commit
    {
      commit := 0;
      for i := 0 to |hardStates|
        invariant forall j :: 0 <= j < i ==> hardStates[j].hs.commit <= commit
        invariant if i == 0 then commit == 0 else exists p :: p in hardStates && p.hs.commit == commit
      {
        assert hardStates[i] in hardStates;
        if i == 0 || hardStates[i].hs.commit > commit {
          commit := hardStates[i].hs.commit;
        }
      }
    }
  }

  class FaultyStorage {
    const schedule: FaultSchedule
    const ledger: DurabilityLedger
    var ops: seq<OpRecord>
    var appendCount: nat
    var syncCount: nat
    var setCount: nat
    // The wrapped storage: its log, how much of it is durable, and its hard state.
    var entries: seq<Entry>
    var durable: nat
    var hardState: HardState
    // Every call made so far.
    ghost var calls: seq<Call>

    /** The fields are determined by the calls made. */
    ghost predicate Valid()
      reads this, ledger
    {
      && ops == OpLog(calls)
      && appendCount == Count(calls, Append)
      && syncCount == Count(calls, SyncEntries)
      && setCount == Count(calls, SetHardState)
      && entries == AcceptedEntries(schedule, calls)
      && durable == DurableLength(schedule, calls)
      && ledger.hardStates == LedgerOf(AcceptedHardStates(schedule, calls))
      && (AcceptedHardStates(schedule, calls) != [] ==>
            hardState == AcceptedHardStates(schedule, calls)[|AcceptedHardStates(schedule, calls)| - 1])
    }

    constructor (schedule: FaultSchedule, ledger: DurabilityLedger)
      requires ledger.hardStates == []
      ensures Valid() && calls == [] && this.schedule == schedule && this.ledger == ledger
    {
      this.schedule := schedule;
      this.ledger := ledger;
      ops := [];
      appendCount, syncCount, setCount := 0, 0, 0;
      entries, durable := [], 0;
      hardState := HardState(0, None, 0);
      calls := [];
    }

    method AppendEntries(more: seq<Entry>, keep: nat, innerOk: bool) returns (ok: bool)
      requires Valid()
      modifies this
      ensures Valid() && calls == old(calls) + [AppendCall(more, keep, innerOk)]
      ensures ok == LastAccepted(schedule, calls)
    {
      hide Count, OpLog, AcceptedEntries, DurableLength, AcceptedHardStates, LastAccepted;
      OneMoreCall(schedule, calls, AppendCall(more, keep, innerOk));
      calls := calls + [AppendCall(more, keep, innerOk)];
      ops := ops + [OpRecord(|ops| + 1, Append)];
      appendCount := appendCount + 1;
      if schedule.failAppendAt == Some(appendCount) {
        return false;
      }
      if innerOk {
        entries := Overwritten(entries, keep, more);
        durable := Min(keep, durable);
      }
      ok := innerOk;
    }

    method Sync(innerOk: bool) returns (ok: bool)
      requires Valid()
      modifies this
      ensures Valid() && calls == old(calls) + [SyncCall(innerOk)]
      ensures ok == LastAccepted(schedule, calls)
    {
      hide Count, OpLog, AcceptedEntries, DurableLength, AcceptedHardStates, LastAccepted;
      OneMoreCall(schedule, calls, SyncCall(innerOk));
      calls := calls + [SyncCall(innerOk)];
      ops := ops + [OpRecord(|ops| + 1, SyncEntries)];
      syncCount := syncCount + 1;
      if schedule.failSyncAt == Some(syncCount) {
        return false;
      }
      var every := schedule.failSyncEvery;
      if every.Some? && every.value > 0 && syncCount % every.value == 0 {
        return false;
      }
      if innerOk {
        durable := |entries|;
      }
      ok := innerOk;
    }

    method Set(hs: HardState, innerOk: bool) returns (ok: bool)
      requires Valid()
      modifies this, ledger
      ensures Valid() && calls == old(calls) + [SetCall(hs, innerOk)]
      ensures ok == LastAccepted(schedule, calls)
      ensures ledger.hardStates == if ok then old(ledger.hardStates) + [Persisted(|old(ledger.hardStates)| + 1, hs)]
                                   else old(ledger.hardStates)
    {
      hide Count, OpLog, AcceptedEntries, DurableLength, AcceptedHardStates, LastAccepted;
      OneMoreCall(schedule, calls, SetCall(hs, innerOk));
      calls := calls + [SetCall(hs, innerOk)];
      ops := ops + [OpRecord(|ops| + 1, SetHardState)];
      setCount := setCount + 1;
      if schedule.failSetHardStateAt == Some(setCount) {
        return false;
      }
      if innerOk {
        hardState := hs;
        ledger.RecordHardState(hs);
      }
      ok := innerOk;
    }

    /** Persist one Ready: its entries, then a sync, then its hard state; the first failure ends it. */
    method PersistReady(r: Ready) returns (ok: bool)
      requires Valid()
      modifies this, ledger
      ensures Valid() && calls == old(calls) + ReadyCalls(schedule, old(calls), r)
      ensures ok == ReadyAccepted(schedule, old(calls), r)
    {
      hide Valid, LastAccepted;
      ghost var before := calls;
      if r.entries != [] {
        ok := AppendEntries(r.entries, r.keep, r.appendOk);
        if !ok {
          return;
        }
        ok := Sync(r.syncOk);
        assert calls == before + ([AppendCall(r.entries, r.keep, r.appendOk)] + [SyncCall(r.syncOk)]);
        if !ok {
          return;
        }
      }
      if r.hs.Some? {
        ok := Set(r.hs.value, r.setOk);
        return;
      }
      ok := true;
    }
  }

  // ---- One Ready ----------------------------------------------------------------

  /** The records of one Ready, with the wrapped storage's verdicts on them. */
  datatype Ready = Ready(
    entries: seq<Entry>, keep: nat, hs: Option<HardState>, appendOk: bool, syncOk: bool, setOk: bool)

  /** The calls that persisting a Ready makes after `before`. */
  function ReadyCalls(schedule: FaultSchedule, before: seq<Call>, r: Ready): seq<Call> {
    var append := [AppendCall(r.entries, r.keep, r.appendOk)];
    var sync := [SyncCall(r.syncOk)];
    var put := if r.hs.Some? then [SetCall(r.hs.value, r.setOk)] else [];
    if r.entries == [] then put
    else if !LastAccepted(schedule, before + append) then append
    else if !LastAccepted(schedule, before + append + sync) then append + sync
    else append + sync + put
  }

  predicate ReadyAccepted(schedule: FaultSchedule, before: seq<Call>, r: Ready) {
    var after := before + ReadyCalls(schedule, before, r);
    after == before || LastAccepted(schedule, after)
  }

  /**
   What persisting a Ready does: its hard state is recorded exactly when everything
   it asked for was accepted, and then its own entries were appended and are durable.
   */
  lemma {:induction false} ReadyEffect(schedule: FaultSchedule, before: seq<Call>, r: Ready)
    ensures var after := before + ReadyCalls(schedule, before, r);
            var recorded := r.hs.Some? && ReadyAccepted(schedule, before, r);
            var hs, log := AcceptedHardStates(schedule, before), AcceptedEntries(schedule, before);
            && AcceptedHardStates(schedule, after) == (if recorded then hs + [r.hs.value] else hs)
            && (ReadyAccepted(schedule, before, r) && r.entries != [] ==>
                  && AcceptedEntries(schedule, after) == Overwritten(log, r.keep, r.entries)
                  && DurableLength(schedule, after) == |AcceptedEntries(schedule, after)|)
  {
    hide Count, OpLog, AcceptedEntries, DurableLength, AcceptedHardStates, LastAccepted, IsInjected;
    var append, sync := AppendCall(r.entries, r.keep, r.appendOk), SyncCall(r.syncOk);
    if r.entries == [] {
      if r.hs.Some? {
        OneMoreCall(schedule, before, SetCall(r.hs.value, r.setOk));
      } else {
        assert before + [] == before;
      }
    } else {
      OneMoreCall(schedule, before, append);
      var mid := before + [append] + [sync];
      OneMoreCall(schedule, before + [append], sync);
      assert before + ([append] + [sync]) == mid;
      if r.hs.Some? {
        OneMoreCall(schedule, mid, SetCall(r.hs.value, r.setOk));
        assert before + ([append] + [sync] + [SetCall(r.hs.value, r.setOk)]) == mid + [SetCall(r.hs.value, r.setOk)];
      } else {
        assert before + ([append] + [sync] + []) == mid;
      }
    }
  }

  /** After its first `from` calls, no accepted append of a run overwrites the first `n` entries. */
  ghost predicate LeavesInPlace(schedule: FaultSchedule, calls: seq<Call>, from: nat, n: nat) {
    forall k :: from <= k < |calls| && calls[k].AppendCall? && LastAccepted(schedule, calls[..k + 1]) ==>
      n <= calls[k].keep
  }

  /** The ledger only grows; what is in the log, and what is durable of it, stays until it is overwritten. */
  lemma {:induction false} LaterCallsExtend(schedule: FaultSchedule, a: seq<Call>, b: seq<Call>, n: nat)
    requires n <= |AcceptedEntries(schedule, a)| && LeavesInPlace(schedule, a + b, |a|, n)
    ensures AcceptedEntries(schedule, a)[..n] <= AcceptedEntries(schedule, a + b)
    ensures n <= DurableLength(schedule, a) ==> n <= DurableLength(schedule, a + b)
    ensures AcceptedHardStates(schedule, a) <= AcceptedHardStates(schedule, a + b)
  {
    hide AcceptedEntries, DurableLength, AcceptedHardStates, LastAccepted, IsInjected;
    if b == [] {
      assert a + b == a;
    } else {
      var c, front := b[|b| - 1], a + b[..|b| - 1];
      assert a + b == front + [c];
      LeftInPlaceBefore(schedule, front, c, |a|, n);
      LaterCallsExtend(schedule, a, b[..|b| - 1], n);
      OneMoreCall(schedule, front, c);
    }
  }

  lemma LeftInPlaceBefore(schedule: FaultSchedule, calls: seq<Call>, c: Call, from: nat, n: nat)
    requires from <= |calls| && LeavesInPlace(schedule, calls + [c], from, n)
    ensures LeavesInPlace(schedule, calls, from, n)
    ensures c.AppendCall? && LastAccepted(schedule, calls + [c]) ==> n <= c.keep
  {
    hide LastAccepted;
    var all := calls + [c];
    assert all[..|calls| + 1] == all && all[|calls|] == c;
    forall k | from <= k < |calls| && calls[k].AppendCall? && LastAccepted(schedule, calls[..k + 1])
      ensures n <= calls[k].keep
    {
      assert all[..k + 1] == calls[..k + 1] && all[k] == calls[k];
    }
  }

  /** All the calls made by persisting a sequence of Readies. */
  ghost function RunReadies(schedule: FaultSchedule, readies: seq<Ready>): seq<Call> {
    if readies == [] then []
    else
      var before := RunReadies(schedule, readies[..|readies| - 1]);
      before + ReadyCalls(schedule, before, readies[|readies| - 1])
  }

  lemma {:induction false} RunPrefix(schedule: FaultSchedule, readies: seq<Ready>, i: nat) returns (rest: seq<Call>)
    requires i <= |readies|
    ensures RunReadies(schedule, readies) == RunReadies(schedule, readies[..i]) + rest
    decreases |readies|
  {
    hide ReadyCalls;
    if i == |readies| {
      assert readies[..i] == readies;
      rest := [];
    } else {
      var n := |readies| - 1;
      var upToLast := RunPrefix(schedule, readies[..n], i);
      assert readies[..n][..i] == readies[..i];
      var last := ReadyCalls(schedule, RunReadies(schedule, readies[..n]), readies[n]);
      rest := upToLast + last;
      assert (RunReadies(schedule, readies[..i]) + upToLast) + last == RunReadies(schedule, readies[..i]) + rest;
    }
  }

  /**
   Over any run of Readies, under any schedule and any verdicts of the wrapped
   storage: if the hard state of a Ready was recorded, then that Ready's own entries
   are in the log and inside its durable part, for as long as they are not overwritten.
   */
  lemma {:induction false} RecordedImpliesDurable(schedule: FaultSchedule, readies: seq<Ready>, i: nat)
    requires i < |readies| && readies[i].hs.Some? && readies[i].entries != []
    requires ReadyAccepted(schedule, RunReadies(schedule, readies[..i]), readies[i])
    requires LeavesInPlace(schedule, RunReadies(schedule, readies),
                           |RunReadies(schedule, readies[..i + 1])|, EndOf(schedule, readies, i))
    ensures var final := RunReadies(schedule, readies);
            var end := EndOf(schedule, readies, i);
            && end <= DurableLength(schedule, final)
            && AcceptedEntries(schedule, final)[end - |readies[i].entries|..end] == readies[i].entries
  {
    hide AcceptedEntries, DurableLength, AcceptedHardStates, ReadyCalls, ReadyAccepted, LeavesInPlace;
    var r := readies[i];
    var before := RunReadies(schedule, readies[..i]);
    ReadyEffect(schedule, before, r);
    var after := RunReadies(schedule, readies[..i + 1]);
    assert readies[..i + 1][..i] == readies[..i];
    var rest := RunPrefix(schedule, readies, i + 1);
    var log, end := AcceptedEntries(schedule, after), EndOf(schedule, readies, i);
    LaterCallsExtend(schedule, after, rest, end);
    assert log[..end] == log && log[end - |r.entries|..end] == r.entries;
  }

  /** Where the entries of an accepted Ready end in the log. */
  ghost function EndOf(schedule: FaultSchedule, readies: seq<Ready>, i: nat): nat
    requires i < |readies|
  {
    var r := readies[i];
    |Overwritten(AcceptedEntries(schedule, RunReadies(schedule, readies[..i])), r.keep, r.entries)|
  }

  /** A wrapped storage that never overwrites, as the in-memory ones: every accepted append keeps the whole log. */
  ghost predicate AppendsOnly(schedule: FaultSchedule, calls: seq<Call>) {
    forall k :: 0 <= k < |calls| && calls[k].AppendCall? && LastAccepted(schedule, calls[..k + 1]) ==>
      |AcceptedEntries(schedule, calls[..k])| <= calls[k].keep
  }

  lemma {:induction false} LogGrows(schedule: FaultSchedule, calls: seq<Call>, j: nat, k: nat)
    requires AppendsOnly(schedule, calls) && j <= k <= |calls|
    ensures |AcceptedEntries(schedule, calls[..j])| <= |AcceptedEntries(schedule, calls[..k])|
    decreases k
  {
    hide AcceptedEntries, LastAccepted, IsInjected;
    if j < k {
      LogGrows(schedule, calls, j, k - 1);
      assert calls[..k] == calls[..k - 1] + [calls[k - 1]];
      OneMoreCall(schedule, calls[..k - 1], calls[k - 1]);
    }
  }

  /** Over such a storage, the entries of a Ready whose hard state was recorded are durable for good. */
  lemma {:induction false} AppendOnlyStaysDurable(schedule: FaultSchedule, readies: seq<Ready>, i: nat)
    requires i < |readies| && readies[i].hs.Some? && readies[i].entries != []
    requires ReadyAccepted(schedule, RunReadies(schedule, readies[..i]), readies[i])
    requires AppendsOnly(schedule, RunReadies(schedule, readies))
    ensures var final := RunReadies(schedule, readies);
            var end := EndOf(schedule, readies, i);
            && end <= DurableLength(schedule, final)
            && AcceptedEntries(schedule, final)[end - |readies[i].entries|..end] == readies[i].entries
  {
    hide AcceptedEntries, DurableLength, AcceptedHardStates, ReadyCalls, ReadyAccepted, LastAccepted;
    var final, after := RunReadies(schedule, readies), RunReadies(schedule, readies[..i + 1]);
    ReadyEffect(schedule, RunReadies(schedule, readies[..i]), readies[i]);
    assert readies[..i + 1][..i] == readies[..i];
    var rest := RunPrefix(schedule, readies, i + 1);
    assert final[..|after|] == after;
    forall k | |after| <= k < |final| && final[k].AppendCall? && LastAccepted(schedule, final[..k + 1])
      ensures EndOf(schedule, readies, i) <= final[k].keep
    {
      LogGrows(schedule, final, |after|, k);
    }
    RecordedImpliesDurable(schedule, readies, i);
  }

  /** The hard states a run of Readies recorded are those of the accepted Readies, in order. */
  ghost function AcceptedOf(schedule: FaultSchedule, readies: seq<Ready>): seq<HardState> {
    if readies == [] then []
    else
      var n := |readies| - 1;
      var r := readies[n];
      AcceptedOf(schedule, readies[..n]) +
      if r.hs.Some? && ReadyAccepted(schedule, RunReadies(schedule, readies[..n]), r) then [r.hs.value] else []
  }

  lemma {:induction false} LedgerOfReadies(schedule: FaultSchedule, readies: seq<Ready>)
    ensures AcceptedHardStates(schedule, RunReadies(schedule, readies)) == AcceptedOf(schedule, readies)
  {
    hide AcceptedHardStates, ReadyCalls, ReadyAccepted;
    if readies == [] {
      NothingAccepted(schedule);
    } else {
      var n := |readies| - 1;
      LedgerOfReadies(schedule, readies[..n]);
      ReadyEffect(schedule, RunReadies(schedule, readies[..n]), readies[n]);
    }
  }

  lemma {:induction false} NothingAccepted(schedule: FaultSchedule)
    ensures AcceptedHardStates(schedule, []) == []
  {
  }
}
