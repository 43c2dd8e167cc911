/** What the key-value machine guarantees over whole logs. */
module KvRuns {
  import opened Base
  import opened StateMachineCodec
  import opened StateMachineSnapshot
  import opened KvMachine

  /** The machine after applying `log` from the beginning. */
  function Run(log: seq<Command>): (m: Machine)
    ensures m.applied == |log|
  {
    if log == [] then Machine(map[], map[], 0) else After(Run(log[..|log| - 1]), log[|log| - 1])
  }

  /** The answer to entry `i`, which has log index `i + 1`. */
  function Answer(log: seq<Command>, i: nat): Applied
    requires i < |log|
  {
    AnswerTo(Run(log[..i]), log[i])
  }

  lemma OneMore(log: seq<Command>, i: nat)
    requires i < |log|
    ensures Run(log[..i + 1]) == After(Run(log[..i]), log[i])
  {
    assert log[..i + 1][..i] == log[..i];
  }

  // ---- The session table -------------------------------------------------------------

  predicate Writes(c: Command, s: Session) {
    c.Write? && c.session == s
  }

  predicate Expires(c: Command, s: Session) {
    c.SessionGc? && s in c.expired
  }

  ghost predicate NotExpired(log: seq<Command>, s: Session, from: nat, to: nat)
    requires to <= |log|
  {
    forall j :: from <= j < to ==> !Expires(log[j], s)
  }

  /** Entry `i` is the write the table remembers for `s`: executed, and not collected since. */
  ghost predicate IsOrigin(log: seq<Command>, s: Session, i: nat) {
    && i < |log| && Writes(log[i], s)
    && s !in Run(log[..i]).sessions
    && NotExpired(log, s, i + 1, |log|)
  }

  lemma {:induction false} TableHasOrigin(log: seq<Command>, s: Session) returns (i: nat)
    requires s in Run(log).sessions
    ensures IsOrigin(log, s, i)
    ensures Run(log).sessions[s] == Record(Answer(log, i).outcome, i + 1)
  {
    var n := |log| - 1;
    var front := log[..n];
    if s in Run(front).sessions {
      i := TableHasOrigin(front, s);
      assert front[..i] == log[..i];
      assert !Expires(log[n], s);
    } else {
      i := n;
    }
  }

  /** Once recorded, a session's answer stays until the session is collected. */
  lemma {:induction false} RecordStays(log: seq<Command>, s: Session, i: nat, j: nat)
    requires i <= j <= |log| && s in Run(log[..i]).sessions && NotExpired(log, s, i, j)
    ensures s in Run(log[..j]).sessions && Run(log[..j]).sessions[s] == Run(log[..i]).sessions[s]
  {
    if i < j {
      RecordStays(log, s, i, j - 1);
      OneMore(log, j - 1);
      assert !Expires(log[j - 1], s);
    }
  }

  lemma {:induction false} WrittenIsKnown(log: seq<Command>, s: Session, i: nat)
    requires i < |log| && Writes(log[i], s) && NotExpired(log, s, i + 1, |log|)
    ensures s in Run(log).sessions
  {
    OneMore(log, i);
    assert s in Run(log[..i + 1]).sessions;
    hide *;
    RecordStays(log, s, i + 1, |log|);
    assert log[..|log|] == log;
  }

  /** A session is in the table exactly when it was written and not collected since. */
  lemma {:induction false} KnownIff(log: seq<Command>, s: Session)
    ensures s in Run(log).sessions <==>
            exists i :: 0 <= i < |log| && Writes(log[i], s) && NotExpired(log, s, i + 1, |log|)
  {
    hide Run, NotExpired, Writes;
    if s in Run(log).sessions {
      var i := TableHasOrigin(log, s);
      assert Writes(log[i], s);
    }
    if i :| 0 <= i < |log| && Writes(log[i], s) && NotExpired(log, s, i + 1, |log|) {
      WrittenIsKnown(log, s, i);
    }
  }

  /**
   Exactly once. A write that comes again before its session is collected gets the
   outcome and the index of the first time, changes nothing, and produces no events.
   */
  lemma ReplayIsAnsweredAlike(log: seq<Command>, i: nat, j: nat)
    requires i < j < |log| && log[i].Write? && log[j] == log[i]
    requires NotExpired(log, log[i].session, i + 1, j)
    ensures Answer(log, j) == Answer(log, i).(events := [])
    ensures Run(log[..j + 1]) == Run(log[..j]).(applied := j + 1)
  {
    var s := log[i].session;
    OneMore(log, i);
    RecordStays(log, s, i + 1, j);
    OneMore(log, j);
  }

  /** A write is executed, rather than answered from the table, exactly when its session is not known. */
  lemma ExecutedIff(log: seq<Command>, j: nat)
    requires j < |log| && log[j].Write?
    ensures Answer(log, j).index == j + 1 <==>
            !exists i :: 0 <= i < j && Writes(log[i], log[j].session) && NotExpired(log, log[j].session, i + 1, j)
  {
    var s, front := log[j].session, log[..j];
    KnownIff(front, s);
    if s in Run(front).sessions {
      var i := TableHasOrigin(front, s);
      assert Writes(log[i], s) && NotExpired(log, s, i + 1, j);
    } else {
      forall i | 0 <= i < j && Writes(log[i], s)
        ensures !NotExpired(log, s, i + 1, j)
      {
        assert !NotExpired(front, s, i + 1, j);
      }
    }
  }

  /** A known session gets its recorded outcome, except that a batch is always answered without a value. */
  lemma RecordedOutcomeIff(m: Machine, s: Session, body: Body)
    requires s in m.sessions
    ensures AnswerTo(m, Write(s, body)).outcome == m.sessions[s].outcome <==>
            (body.MultiPut? ==> m.sessions[s].outcome == NoValue)
    ensures AnswerTo(m, Write(s, body)).index == m.sessions[s].index
  {
  }

  /** A session used for a put and then for a batch: the batch is not answered with the put's outcome. */
  lemma BatchForgetsOutcome(s: Session, key: Bytes, value: Bytes, entries: seq<Pair>)
    ensures var log := [Write(s, Put(key, value)), Write(s, MultiPut(entries))];
            && s in Run(log).sessions && Run(log).sessions[s].outcome == Value(value)
            && Answer(log, 1) == Applied(NoValue, 1, [])
  {
    var log := [Write(s, Put(key, value)), Write(s, MultiPut(entries))];
    assert log[..0] == [];
    OneMore(log, 0);
    OneMore(log, 1);
    assert log[..2] == log;
  }

  // ---- Replays are no-ops -------------------------------------------------------------

  /** The log with every replayed write turned into a no-op. */
  function Deduplicated(log: seq<Command>): (d: seq<Command>)
    ensures |d| == |log|
  {
    if log == [] then []
    else
      var n := |log| - 1;
      var replayed := log[n].Write? && log[n].session in Run(log[..n]).sessions;
      Deduplicated(log[..n]) + [if replayed then Noop else log[n]]
  }

  /** Dropping replays changes neither the machine nor any event. */
  lemma {:induction false} ReplaysAreNoops(log: seq<Command>)
    ensures Run(Deduplicated(log)) == Run(log)
    ensures forall i :: 0 <= i < |log| ==> Answer(Deduplicated(log), i).events == Answer(log, i).events
  {
    if log != [] {
      var n := |log| - 1;
      var d, front := Deduplicated(log), log[..n];
      ReplaysAreNoops(front);
      assert d[..n] == Deduplicated(front);
      forall i | 0 <= i < |log|
        ensures Answer(d, i).events == Answer(log, i).events
      {
        if i < n {
          assert Answer(Deduplicated(front), i).events == Answer(front, i).events;
          assert front[..i] == log[..i] && Deduplicated(front)[..i] == d[..i];
        }
      }
    }
  }

  // ---- What an answer tells ---------------------------------------------------------------

  /**
   The outcome of a first-time write is what happened to the store: a value was stored
   under the key by this entry, or a compare failed on exactly the reported state and
   nothing was written, or the write was a batch or left the key absent.
   */
  lemma OutcomeIsHonest(kv: Kv, index: nat, body: Body)
    ensures match OutcomeOf(kv, body)
            case Value(v) => !body.MultiPut? && Current(NewKv(kv, index, body), body.key) == Some(Entry(v, index))
            case NoValue => body.MultiPut? || Current(NewKv(kv, index, body), body.key) == None
            case CasFailed(i, v) =>
              && body.Cas? && NewKv(kv, index, body) == kv && EventsOf(kv, index, body) == []
              && Current(kv, body.key) == (if v.Some? then Some(Entry(v.value, i)) else None)
  {
  }

  /** What a first-time put, delete or batch does and answers. */
  lemma WriteTakesEffect(log: seq<Command>, i: nat, key: Bytes)
    requires i < |log| && log[i].Write? && log[i].session !in Run(log[..i]).sessions
    ensures var now, answer := Current(Run(log[..i + 1]).kv, key), Answer(log, i);
            match log[i].body
            case Put(k, value) =>
              && answer == Applied(Value(value), i + 1, [PutEvent(i + 1, k, value)])
              && (key == k ==> now == Some(Entry(value, i + 1)))
            case Delete(k) =>
              && answer == Applied(NoValue, i + 1, [DeleteEvent(i + 1, k)])
              && (key == k ==> now == None)
            case MultiPut(entries) =>
              && answer.outcome == NoValue && answer.index == i + 1
              && (key in MapOf(entries) ==> now == Some(Entry(MapOf(entries)[key], i + 1)))
            case Cas(_, _, _) => answer.index == i + 1
  {
    OneMore(log, i);
    hide Run;
    if log[i].body.MultiPut? {
      PutAllOverlays(Run(log[..i]).kv, i + 1, log[i].body.entries);
    }
  }

  /** A no-op and a collection of sessions are answered without a value and leave the store alone. */
  lemma HousekeepingIsQuiet(log: seq<Command>, i: nat)
    requires i < |log| && !log[i].Write?
    ensures Answer(log, i) == Applied(NoValue, i + 1, []) && Run(log[..i + 1]).kv == Run(log[..i]).kv
  {
    OneMore(log, i);
    hide Run;
  }

  /** A write touches no key but its own. */
  lemma OtherKeysKeepTheirs(kv: Kv, index: nat, body: Body, key: Bytes)
    requires if body.MultiPut? then key !in MapOf(body.entries) else key != body.key
    ensures Current(NewKv(kv, index, body), key) == Current(kv, key)
  {
    if body.MultiPut? {
      PutAllOverlays(kv, index, body.entries);
    }
  }

  // ---- Events tell the whole story -----------------------------------------------------

  function Replayed(kv: Kv, events: seq<Event>): Kv {
    if events == [] then kv
    else
      var n := |events| - 1;
      var before := Replayed(kv, events[..n]);
      match events[n]
      case PutEvent(index, key, value) => before[key := Entry(value, index)]
      case DeleteEvent(_, key) => before - {key}
  }

  lemma {:induction false} ReplayedInParts(kv: Kv, a: seq<Event>, b: seq<Event>)
    ensures Replayed(kv, a + b) == Replayed(Replayed(kv, a), b)
  {
    if b == [] {
      assert a + b == a;
    } else {
      var n := |b| - 1;
      assert (a + b)[..|a| + n] == a + b[..n];
      ReplayedInParts(kv, a, b[..n]);
    }
  }

  /** A map of values, all written by entry `index`. */
  function Stamped(data: map<Bytes, Bytes>, index: nat): Kv {
    map k | k in data :: Entry(data[k], index)
  }

  lemma {:induction false} PutAllOverlays(kv: Kv, index: nat, entries: seq<Pair>)
    ensures PutAll(kv, index, entries) == kv + Stamped(MapOf(entries), index)
  {
    if entries != [] {
      PutAllOverlays(kv, index, entries[..|entries| - 1]);
    }
  }

  lemma {:induction false} PutEventsReplay(kv: Kv, index: nat, entries: seq<Pair>)
    ensures Replayed(kv, PutEvents(index, entries)) == PutAll(kv, index, entries)
  {
    if entries != [] {
      var n := |entries| - 1;
      PutEventsReplay(kv, index, entries[..n]);
      assert PutEvents(index, entries)[..n] == PutEvents(index, entries[..n]);
    }
  }

  /** Replaying the events of one write has its effect, a batch with repeated keys included. */
  lemma {:induction false} WriteReplays(kv: Kv, index: nat, body: Body)
    ensures Replayed(kv, EventsOf(kv, index, body)) == NewKv(kv, index, body)
  {
    if body.MultiPut? {
      var final := MapOf(body.entries);
      PutEventsReplay(kv, index, Listing(final));
      PutAllOverlays(kv, index, Listing(final));
      PutAllOverlays(kv, index, body.entries);
    } else {
      var events := EventsOf(kv, index, body);
      assert |events| <= 1;
      assert |events| == 1 ==> events[..0] == [];
    }
  }

  lemma EntryReplays(m: Machine, c: Command)
    ensures Replayed(m.kv, AnswerTo(m, c).events) == After(m, c).kv
  {
    if c.Write? {
      WriteReplays(m.kv, m.applied + 1, c.body);
    }
  }

  /** The events of the entries from `from` on, in log order. */
  function EventsFrom(log: seq<Command>, from: nat): seq<Event>
    requires from <= |log|
    decreases |log|
  {
    if from == |log| then [] else EventsFrom(log[..|log| - 1], from) + Answer(log, |log| - 1).events
  }

  /** A snapshot at any cut and the events after it give the state at the end. */
  lemma {:induction false} SnapshotAndEvents(log: seq<Command>, from: nat)
    requires from <= |log|
    ensures Replayed(Run(log[..from]).kv, EventsFrom(log, from)) == Run(log).kv
    decreases |log|
  {
    if from == |log| {
      assert log[..from] == log;
    } else {
      var front := log[..|log| - 1];
      SnapshotAndEvents(front, from);
      assert front[..from] == log[..from];
      hide Run, Replayed;
      LastEntryReplays(log, Run(log[..from]).kv, EventsFrom(front, from));
    }
  }

  /** Events that lead up to the last entry, and the events of that entry, lead up to the end. */
  lemma {:induction false} LastEntryReplays(log: seq<Command>, start: Kv, events: seq<Event>)
    requires log != [] && Replayed(start, events) == Run(log[..|log| - 1]).kv
    ensures Replayed(start, events + Answer(log, |log| - 1).events) == Run(log).kv
  {
    var n := |log| - 1;
    OneMore(log, n);
    assert log[..n + 1] == log;
    hide After, AnswerTo, Run, Replayed;
    EntryReplays(Run(log[..n]), log[n]);
    ReplayedInParts(start, events, Answer(log, n).events);
  }

  // ---- Compare-and-swap ------------------------------------------------------------------

  /** The last event for a key. */
  function LastEvent(events: seq<Event>, key: Bytes): Option<Event> {
    if events == [] then None
    else if events[|events| - 1].key == key then Some(events[|events| - 1])
    else LastEvent(events[..|events| - 1], key)
  }

  lemma {:induction false} LastEventDecides(events: seq<Event>, key: Bytes)
    ensures Current(Replayed(map[], events), key) ==
            match LastEvent(events, key)
            case Some(PutEvent(index, _, value)) => Some(Entry(value, index))
            case _ => None
  {
    if events != [] {
      LastEventDecides(events[..|events| - 1], key);
    }
  }

  /** What is stored under a key, and since which entry, is what its last event in the log says. */
  lemma {:induction false} StoredIsLastWritten(log: seq<Command>, key: Bytes)
    ensures Current(Run(log).kv, key) ==
            match LastEvent(EventsFrom(log, 0), key)
            case Some(PutEvent(index, _, value)) => Some(Entry(value, index))
            case _ => None
  {
    SnapshotAndEvents(log, 0);
    assert log[..0] == [];
    LastEventDecides(EventsFrom(log, 0), key);
  }

  /**
   The optimistic lock: a first-time swap guarded by index `want` goes through exactly
   when the last thing that happened to the key was a put by entry `want`.
   */
  lemma {:induction false} IndexGuardIsExact(log: seq<Command>, i: nat, key: Bytes, want: nat, op: CasOp)
    requires i < |log| && log[i].Write? && log[i].body == Cas(key, IndexEquals(want), op)
    requires log[i].session !in Run(log[..i]).sessions
    ensures Answer(log, i).outcome.CasFailed? <==>
            var last := LastEvent(EventsFrom(log[..i], 0), key);
            !(last.Some? && last.value.PutEvent? && last.value.index == want)
  {
    StoredIsLastWritten(log[..i], key);
  }

  /** A first-time swap guarded by a value goes through exactly when the key's last event put that value. */
  lemma {:induction false} ValueGuardIsExact(log: seq<Command>, i: nat, key: Bytes, want: Bytes, op: CasOp)
    requires i < |log| && log[i].Write? && log[i].body == Cas(key, ValueEquals(want), op)
    requires log[i].session !in Run(log[..i]).sessions
    ensures Answer(log, i).outcome.CasFailed? <==>
            var last := LastEvent(EventsFrom(log[..i], 0), key);
            !(last.Some? && last.value.PutEvent? && last.value.value == want)
  {
    hide LastEvent, EventsFrom, Run;
    StoredIsLastWritten(log[..i], key);
  }

  /** One guarded by absence, exactly when the key has no event or its last is a delete. */
  lemma {:induction false} AbsenceGuardIsExact(log: seq<Command>, i: nat, key: Bytes, op: CasOp)
    requires i < |log| && log[i].Write? && log[i].body == Cas(key, NotExists, op)
    requires log[i].session !in Run(log[..i]).sessions
    ensures Answer(log, i).outcome.CasFailed? <==>
            var last := LastEvent(EventsFrom(log[..i], 0), key);
            last.Some? && last.value.PutEvent?
  {
    hide LastEvent, EventsFrom, Run;
    StoredIsLastWritten(log[..i], key);
  }

  /** A swap that does not go through is told what the key's last event left, and since when. */
  lemma {:induction false} FailedSwapNamesState(log: seq<Command>, i: nat, key: Bytes, pred: CasPred, op: CasOp)
    requires i < |log| && log[i].Write? && log[i].body == Cas(key, pred, op)
    requires log[i].session !in Run(log[..i]).sessions && Answer(log, i).outcome.CasFailed?
    ensures Answer(log, i).outcome ==
            match LastEvent(EventsFrom(log[..i], 0), key)
            case Some(PutEvent(index, _, value)) => CasFailed(index, Some(value))
            case _ => CasFailed(0, None)
  {
    hide LastEvent, EventsFrom, Run;
    StoredIsLastWritten(log[..i], key);
  }

  /** A swap that goes through has the events, the answer and the effect of the write it carries. */
  lemma SwapIsItsWrite(log: seq<Command>, i: nat, key: Bytes, pred: CasPred, op: CasOp)
    requires i < |log| && log[i].Write? && log[i].body == Cas(key, pred, op)
    requires log[i].session !in Run(log[..i]).sessions && !Answer(log, i).outcome.CasFailed?
    ensures op.CasPut? ==> && Answer(log, i) == Applied(Value(op.value), i + 1, [PutEvent(i + 1, key, op.value)])
                           && Run(log[..i + 1]).kv == Run(log[..i]).kv[key := Entry(op.value, i + 1)]
    ensures op.CasDelete? ==> && Answer(log, i) == Applied(NoValue, i + 1, [DeleteEvent(i + 1, key)])
                              && Run(log[..i + 1]).kv == Run(log[..i]).kv - {key}
  {
    OneMore(log, i);
    hide Run;
  }

  lemma {:induction false} IndexesAreApplied(log: seq<Command>, key: Bytes)
    ensures key in Run(log).kv ==> 1 <= Run(log).kv[key].index <= |log|
  {
    if log != [] {
      var n := |log| - 1;
      IndexesAreApplied(log[..n], key);
      IndexOnlyRises(Run(log[..n]), log[n], key);
    }
  }

  lemma IndexOnlyRises(m: Machine, c: Command, key: Bytes)
    ensures key in After(m, c).kv ==>
              After(m, c).kv[key].index == m.applied + 1 || (key in m.kv && After(m, c).kv[key] == m.kv[key])
  {
    if c.Write? && c.session !in m.sessions && c.body.MultiPut? {
      PutAllOverlays(m.kv, m.applied + 1, c.body.entries);
    }
  }

  /** After a swap guarded by `want` went through at entry `i`, the key never has that index again. */
  lemma {:induction false} GuardIsSpent(log: seq<Command>, i: nat, j: nat, key: Bytes, want: nat)
    requires i < j <= |log| && want <= i
    requires key in Run(log[..i + 1]).kv ==> Run(log[..i + 1]).kv[key].index == i + 1
    ensures key in Run(log[..j]).kv ==> Run(log[..j]).kv[key].index > want
  {
    if i + 1 < j {
      GuardIsSpent(log, i, j - 1, key, want);
      OneMore(log, j - 1);
      IndexOnlyRises(Run(log[..j - 1]), log[j - 1], key);
    }
  }

  /** Of all swaps of a key guarded by one index, at most one goes through in any log. */
  lemma AtMostOneSwapWins(log: seq<Command>, i: nat, j: nat, key: Bytes, want: nat, a: CasOp, b: CasOp)
    requires i < j < |log| && log[i].Write? && log[j].Write?
    requires log[i].body == Cas(key, IndexEquals(want), a) && log[j].body == Cas(key, IndexEquals(want), b)
    requires log[i].session !in Run(log[..i]).sessions && log[j].session !in Run(log[..j]).sessions
    requires !Answer(log, i).outcome.CasFailed?
    ensures Answer(log, j).outcome.CasFailed?
  {
    IndexesAreApplied(log[..i], key);
    OneMore(log, i);
    GuardIsSpent(log, i, j, key, want);
  }
}
