/**
 The key-value state machine with its idempotency table: every write carries a session
 `(client, sequence)`, is executed once, and is answered from the table when it comes
 again. Commands are taken as parsed; `None` stands for bytes that do not parse.
 */
module KvMachine {
  import opened Base
  import opened StateMachineCodec
  import opened StateMachineSnapshot

  datatype Session = Session(clientId: U64, seqNo: U64)

  datatype CasPred = IndexEquals(index: nat) | ValueEquals(value: Bytes) | NotExists

  datatype CasOp = CasPut(value: Bytes) | CasDelete

  datatype Body =
    | Put(key: Bytes, value: Bytes)
    | Delete(key: Bytes)
    | MultiPut(entries: seq<Pair>)
    | Cas(key: Bytes, pred: CasPred, op: CasOp)

  datatype Command = Noop | SessionGc(expired: seq<Session>) | Write(session: Session, body: Body)

  datatype Event = PutEvent(index: nat, key: Bytes, value: Bytes) | DeleteEvent(index: nat, key: Bytes)

  /** A value and the log index of the entry that wrote it. */
  datatype Entry = Entry(value: Bytes, index: nat)

  type Kv = map<Bytes, Entry>

  /** The cached answer of a session: its outcome and the index that established it. */
  datatype Record = Record(outcome: ApplyOutcome, index: nat)

  datatype Machine = Machine(kv: Kv, sessions: map<Session, Record>, applied: nat)

  datatype Applied = Applied(outcome: ApplyOutcome, index: nat, events: seq<Event>)

  datatype ApplyError = BadCommand | IndexViolation(index: nat)

  // ---- Executing a write for the first time ---------------------------------------

  function Current(kv: Kv, key: Bytes): Option<Entry> {
    if key in kv then Some(kv[key]) else None
  }

  predicate Matches(pred: CasPred, current: Option<Entry>) {
    match pred
    case IndexEquals(want) => current.Some? && current.value.index == want
    case ValueEquals(want) => current.Some? && current.value.value == want
    case NotExists => current.None?
  }

  function PutAll(kv: Kv, index: nat, entries: seq<Pair>): Kv {
    if entries == [] then kv
    else
      var n := |entries| - 1;
      PutAll(kv, index, entries[..n])[entries[n].key := Entry(entries[n].value, index)]
  }

  function PutEvents(index: nat, entries: seq<Pair>): seq<Event> {
    seq(|entries|, i requires 0 <= i < |entries| => PutEvent(index, entries[i].key, entries[i].value))
  }

  function NewKv(kv: Kv, index: nat, body: Body): Kv {
    match body
    case Put(key, value) => kv[key := Entry(value, index)]
    case Delete(key) => kv - {key}
    case MultiPut(entries) => PutAll(kv, index, entries)
    case Cas(key, pred, op) =>
      if !Matches(pred, Current(kv, key)) then kv
      else if op.CasPut? then kv[key := Entry(op.value, index)] else kv - {key}
  }

  function OutcomeOf(kv: Kv, body: Body): ApplyOutcome {
    match body
    case Put(_, value) => Value(value)
    case Delete(_) => NoValue
    case MultiPut(_) => NoValue
    case Cas(key, pred, op) =>
      var current := Current(kv, key);
      if Matches(pred, current) then (if op.CasPut? then Value(op.value) else NoValue)
      else if current.Some? then CasFailed(current.value.index, Some(current.value.value)) else CasFailed(0, None)
  }

  /** The write set: what was written, not what changed; one event per key. */
  function EventsOf(kv: Kv, index: nat, body: Body): seq<Event> {
    match body
    case Put(key, value) => [PutEvent(index, key, value)]
    case Delete(key) => [DeleteEvent(index, key)]
    case MultiPut(entries) => PutEvents(index, Listing(MapOf(entries)))
    case Cas(key, pred, op) =>
      if !Matches(pred, Current(kv, key)) then []
      else if op.CasPut? then [PutEvent(index, key, op.value)] else [DeleteEvent(index, key)]
  }

  // ---- One log entry ----------------------------------------------------------------

  function Without(sessions: map<Session, Record>, expired: seq<Session>): map<Session, Record> {
    map s | s in sessions && s !in expired :: sessions[s]
  }

  function After(m: Machine, c: Command): Machine {
    var index := m.applied + 1;
    match c
    case Noop => m.(applied := index)
    case SessionGc(expired) => m.(sessions := Without(m.sessions, expired), applied := index)
    case Write(s, body) =>
      if s in m.sessions then m.(applied := index)
      else Machine(NewKv(m.kv, index, body), m.sessions[s := Record(OutcomeOf(m.kv, body), index)], index)
  }

  function AnswerTo(m: Machine, c: Command): Applied {
    var index := m.applied + 1;
    match c
    case Noop => Applied(NoValue, index, [])
    case SessionGc(_) => Applied(NoValue, index, [])
    case Write(s, body) =>
      if s in m.sessions then
        Applied(if body.MultiPut? then NoValue else m.sessions[s].outcome, m.sessions[s].index, [])
      else
        Applied(OutcomeOf(m.kv, body), index, EventsOf(m.kv, index, body))
  }

  class KvStateMachine {
    var kv: Kv
    var sessions: map<Session, Record>
    var applied: nat

    ghost function Contents(): Machine
      reads this
    {
      Machine(kv, sessions, applied)
    }

    constructor ()
      ensures Contents() == Machine(map[], map[], 0)
    {
      kv, sessions, applied := map[], map[], 0;
    }

    /** Apply one log entry; anything refused leaves the machine alone. */
    method Apply(index: nat, command: Option<Command>) returns (r: Result<Applied, ApplyError>)
      modifies this
      ensures r.Ok? <==> index == old(applied) + 1 && command.Some?
      ensures r.Ok? ==> Contents() == After(old(Contents()), command.value)
      ensures r.Ok? ==> r.value == AnswerTo(old(Contents()), command.value)
      ensures r.Err? ==> Contents() == old(Contents())
      ensures r.Err? ==> r.error == if index != old(applied) + 1 then IndexViolation(index) else BadCommand
    {
      if index != applied + 1 {
        return Err(IndexViolation(index));
      }
      if command.None? {
        return Err(BadCommand);
      }
      match command.value {
        case Noop =>
          applied := index;
          return Ok(Applied(NoValue, index, []));
        case SessionGc(expired) =>
          RemoveSessions(expired);
          applied := index;
          return Ok(Applied(NoValue, index, []));
        case Write(session, body) =>
          if session in sessions {
            var record := sessions[session];
            applied := index;
            return Ok(Applied(if body.MultiPut? then NoValue else record.outcome, record.index, []));
          }
          var answer := Execute(index, session, body);
          applied := index;
          return Ok(answer);
      }
    }

    method RemoveSessions(expired: seq<Session>)
      modifies this`sessions
      ensures sessions == Without(old(sessions), expired)
    {
      for i := 0 to |expired|
        invariant sessions == Without(old(sessions), expired[..i])
      {
        assert expired[..i + 1] == expired[..i] + [expired[i]];
        sessions := sessions - {expired[i]};
      }
      assert expired[..|expired|] == expired;
    }

    /** Execute a write whose session is new, and remember its answer. */
    method Execute(index: nat, session: Session, body: Body) returns (answer: Applied)
      modifies this`kv, this`sessions
      ensures kv == NewKv(old(kv), index, body)
      ensures sessions == old(sessions)[session := Record(OutcomeOf(old(kv), body), index)]
      ensures answer == Applied(OutcomeOf(old(kv), body), index, EventsOf(old(kv), index, body))
    {
      var outcome := NoValue;
      var events: seq<Event> := [];
      match body {
        case Put(key, value) =>
          events := [PutEvent(index, key, value)];
          kv := kv[key := Entry(value, index)];
          outcome := Value(value);
        case Delete(key) =>
          events := [DeleteEvent(index, key)];
          kv := kv - {key};
        case MultiPut(entries) =>
          events := WriteBatch(index, entries);
        case Cas(key, pred, op) =>
          outcome, events := CompareAndSwap(index, key, pred, op);
      }
      sessions := sessions[session := Record(outcome, index)];
      return Applied(outcome, index, events);
    }

    /** Write the pairs in order; events collapse to one per key with its last value. */
    method WriteBatch(index: nat, entries: seq<Pair>) returns (events: seq<Event>)
      modifies this`kv
      ensures kv == PutAll(old(kv), index, entries)
      ensures events == PutEvents(index, Listing(MapOf(entries)))
    {
      var final: map<Bytes, Bytes> := map[];
      NothingInserted();
      for i := 0 to |entries|
        invariant kv == PutAll(old(kv), index, entries[..i])
        invariant final == MapOf(entries[..i])
      {
        assert entries[..i + 1][..i] == entries[..i];
        kv := kv[entries[i].key := Entry(entries[i].value, index)];
        final := final[entries[i].key := entries[i].value];
      }
      assert entries[..|entries|] == entries;
      var listing := Listing(final);
      events := [];
      for i := 0 to |listing|
        invariant events == PutEvents(index, listing[..i])
      {
        events := events + [PutEvent(index, listing[i].key, listing[i].value)];
      }
      assert listing[..|listing|] == listing;
    }

    method CompareAndSwap(index: nat, key: Bytes, pred: CasPred, op: CasOp)
      returns (outcome: ApplyOutcome, events: seq<Event>)
      modifies this`kv
      ensures kv == NewKv(old(kv), index, Cas(key, pred, op))
      ensures outcome == OutcomeOf(old(kv), Cas(key, pred, op))
      ensures events == EventsOf(old(kv), index, Cas(key, pred, op))
    {
      var current := Current(kv, key);
      if Matches(pred, current) {
        match op {
          case CasPut(value) =>
            events := [PutEvent(index, key, value)];
            kv := kv[key := Entry(value, index)];
            outcome := Value(value);
          case CasDelete =>
            events := [DeleteEvent(index, key)];
            kv := kv - {key};
            outcome := NoValue;
        }
      } else {
        outcome :=
          if current.Some? then CasFailed(current.value.index, Some(current.value.value)) else CasFailed(0, None);
        events := [];
      }
    }
  }
}
