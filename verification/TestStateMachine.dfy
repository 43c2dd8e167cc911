/**
 The reference state machine: an ordered map that applies commands strictly in index
 order, takes snapshots and restores them.
 */
module TestStateMachine {
  import opened Base
  import opened StateMachineCodec
  import opened StateMachineSnapshot

  datatype Call = Call(index: U64, command: Bytes)

  type Answer = Result<ApplyOutcome, Error>

  // ---- One call -------------------------------------------------------------------

  /** The only index the store accepts next. */
  ghost predicate InOrder(s: Store, index: U64) {
    s.applied < U64_MAX && index == s.applied + 1
  }

  ghost predicate Accepts(s: Store, c: Call) {
    InOrder(s, c.index) && Parsed(c.command).Ok?
  }

  ghost function After(s: Store, c: Call): Store {
    if Accepts(s, c) then Store(Insert(s.data, Parsed(c.command).value), c.index) else s
  }

  ghost function AnswerTo(s: Store, c: Call): Answer {
    if !InOrder(s, c.index) then
      Err(OutOfOrderIndex(if s.applied < U64_MAX then s.applied + 1 else U64_MAX, c.index))
    else match Parsed(c.command) {
      case Err(e) => Err(e)
      case Ok(pairs) => Ok(if pairs == [] then NoValue else Value(pairs[|pairs| - 1].value))
    }
  }

  class InMemoryStateMachine {
    var data: map<Bytes, Bytes>
    var applied: U64

    ghost function Contents(): Store
      reads this
    {
      Store(data, applied)
    }

    constructor ()
      ensures Contents() == EMPTY
    {
      data, applied := map[], 0;
    }

    method Apply(index: U64, command: Bytes) returns (r: Answer)
      modifies this
      ensures Contents() == After(old(Contents()), Call(index, command))
      ensures r == AnswerTo(old(Contents()), Call(index, command))
    {
      hide Parsed, Insert;
      if applied == U64_MAX {
        return Err(OutOfOrderIndex(U64_MAX, index));
      }
      var expected := applied + 1;
      if index != expected {
        return Err(OutOfOrderIndex(expected, index));
      }
      var parsed := ParseCommand(command);
      if parsed.Err? {
        return Err(parsed.error);
      }
      var pairs := parsed.value;
      var last: Option<Bytes> := None;
      NothingInsertedInto(data);
      for i := 0 to |pairs|
        invariant data == Insert(old(data), pairs[..i]) && applied == old(applied)
        invariant last == if i == 0 then None else Some(pairs[i - 1].value)
      {
        InsertOneMoreInto(old(data), pairs, i);
        last := Some(pairs[i].value);
        data := data[pairs[i].key := pairs[i].value];
      }
      assert pairs[..|pairs|] == pairs;
      applied := index;
      return Ok(match last case Some(value) => Value(value) case None => NoValue);
    }

    method Lookup(key: Bytes) returns (r: Option<Bytes>)
      ensures r.Some? <==> key in data
      ensures r.Some? ==> r.value == data[key]
    {
      if key in data {
        return Some(data[key]);
      }
      return None;
    }

    method Snapshot() returns (bytes: Bytes)
      ensures bytes == Encoded(Contents())
    {
      bytes := EncodeSnapshot(Store(data, applied));
    }

    /** Replace the whole store by the one in `bytes`, or leave it alone. */
    method Restore(bytes: Bytes) returns (r: Result<(), Error>)
      modifies this
      ensures Contents() == if Decoded(bytes).Ok? then Decoded(bytes).value else old(Contents())
      ensures r == if Decoded(bytes).Ok? then Ok(()) else Err(MalformedSnapshot)
    {
      hide Decoded;
      var decoded := DecodeSnapshot(bytes);
      RefusedAsMalformed(bytes);
      if decoded.Err? {
        return Err(decoded.error);
      }
      data := decoded.value.data;
      applied := decoded.value.applied;
      return Ok(());
    }
  }

  lemma RefusedAsMalformed(bytes: Bytes)
    ensures Decoded(bytes).Err? ==> Decoded(bytes).error == MalformedSnapshot
  {
  }

  lemma {:induction false} NothingInsertedInto(data: map<Bytes, Bytes>)
    ensures Insert(data, []) == data
  {
  }

  lemma {:induction false} InsertOneMoreInto(data: map<Bytes, Bytes>, pairs: seq<Pair>, i: nat)
    requires i < |pairs|
    ensures Insert(data, pairs[..i + 1]) == Insert(data, pairs[..i])[pairs[i].key := pairs[i].value]
  {
    assert pairs[..i + 1][..i] == pairs[..i];
  }

  /** The answer is honest: the value it reports is stored, under the last key written. */
  lemma AnswerIsStored(s: Store, c: Call, value: Bytes)
    requires AnswerTo(s, c) == Ok(Value(value))
    ensures exists key :: key in After(s, c).data && After(s, c).data[key] == value
  {
    hide Parsed;
    var pairs := Parsed(c.command).value;
    var n := |pairs| - 1;
    LastInsertWins(s.data, pairs, pairs[n].key, n);
    assert After(s, c).data[pairs[n].key] == value;
  }

  /** An accepted command is answered with the value of its last pair, and with none exactly if it has no pairs. */
  lemma {:induction false} AnswerIsLastValue(s: Store, c: Call, pairs: seq<Pair>)
    requires s.applied < U64_MAX && c.index == s.applied + 1 && Fits(pairs) && c.command == Printed(pairs)
    ensures AnswerTo(s, c) == Ok(if pairs == [] then NoValue else Value(pairs[|pairs| - 1].value))
  {
    hide Parsed;
    ParserInvertsPrinter(c.command, pairs);
  }

  /** A call out of order is told the one index that would be in order, if there is one. */
  lemma RefusalNamesNextIndex(s: Store, c: Call)
    ensures AnswerTo(s, c).Err? && AnswerTo(s, c).error.OutOfOrderIndex? ==>
              var e := AnswerTo(s, c).error;
              e.got == c.index && (s.applied < U64_MAX ==> InOrder(s, e.expected)) && !InOrder(s, c.index)
    ensures AnswerTo(s, c).Ok? <==> Accepts(s, c)
    ensures AnswerTo(s, c).Err? ==> After(s, c) == s
  {
  }

  // ---- Whole runs -----------------------------------------------------------------

  ghost function Replay(s: Store, calls: seq<Call>): Store
    decreases |calls|
  {
    if calls == [] then s else Replay(After(s, calls[0]), calls[1..])
  }

  ghost function Answers(s: Store, calls: seq<Call>): seq<Answer>
    decreases |calls|
  {
    if calls == [] then [] else [AnswerTo(s, calls[0])] + Answers(After(s, calls[0]), calls[1..])
  }

  lemma {:induction false} ReplayInParts(s: Store, a: seq<Call>, b: seq<Call>)
    ensures Replay(s, a + b) == Replay(Replay(s, a), b)
    ensures Answers(s, a + b) == Answers(s, a) + Answers(Replay(s, a), b)
    decreases |a|
  {
    if a == [] {
      assert a + b == b;
    } else {
      assert (a + b)[1..] == a[1..] + b;
      ReplayInParts(After(s, a[0]), a[1..], b);
    }
  }

  /** Keys and values that came in through commands always fit their length prefixes. */
  lemma {:induction false} ReplayFits(s: Store, calls: seq<Call>)
    requires DataFits(s.data)
    ensures DataFits(Replay(s, calls).data)
    decreases |calls|
  {
    if calls != [] {
      var c := calls[0];
      if Accepts(s, c) {
        var pairs := Parsed(c.command).value;
        ParserInvertsPrinter(c.command, pairs);
        MapOfFits(s.data, pairs);
      }
      ReplayFits(After(s, c), calls[1..]);
    }
  }

  /**
   Recovery equivalence. For every log and every cut, the snapshot taken at the cut
   restores, and the rest replayed on the restored store gives the same answers, the
   same store and the same snapshot bytes as full replay; this holds as long as the
   number of keys at the cut can be written in the snapshot, and otherwise the snapshot
   is refused.
   */
  lemma {:induction false} RecoveryEquivalence(calls: seq<Call>, cut: nat)
    requires cut <= |calls|
    ensures var at := Replay(EMPTY, calls[..cut]);
            var restored := Decoded(Encoded(at));
            if |at.data| <= U32_MAX then
              && restored.Ok?
              && Answers(EMPTY, calls) == Answers(EMPTY, calls[..cut]) + Answers(restored.value, calls[cut..])
              && Replay(restored.value, calls[cut..]) == Replay(EMPTY, calls)
              && Encoded(Replay(restored.value, calls[cut..])) == Encoded(Replay(EMPTY, calls))
            else
              restored == Err(MalformedSnapshot)
  {
    hide *;
    var at := Replay(EMPTY, calls[..cut]);
    assert calls == calls[..cut] + calls[cut..];
    ReplayInParts(EMPTY, calls[..cut], calls[cut..]);
    EmptyFits();
    ReplayFits(EMPTY, calls[..cut]);
    DecodeInvertsEncode(at);
  }

  lemma EmptyFits()
    ensures DataFits(EMPTY.data)
  {
  }

  function Accepted(answers: seq<Answer>): nat {
    if answers == [] then 0 else (if answers[0].Ok? then 1 else 0) + Accepted(answers[1..])
  }

  /** The applied index counts the accepted calls. */
  lemma {:induction false} AppliedCountsAccepted(s: Store, calls: seq<Call>)
    ensures Replay(s, calls).applied == s.applied + Accepted(Answers(s, calls))
    decreases |calls|
  {
    if calls != [] {
      AppliedCountsAccepted(After(s, calls[0]), calls[1..]);
      assert Answers(s, calls)[1..] == Answers(After(s, calls[0]), calls[1..]);
    }
  }

  /** Refused calls can be dropped from a run: they change neither the store nor any other answer. */
  ghost function Effective(s: Store, calls: seq<Call>): seq<Call>
    decreases |calls|
  {
    if calls == [] then []
    else if Accepts(s, calls[0]) then [calls[0]] + Effective(After(s, calls[0]), calls[1..])
    else Effective(s, calls[1..])
  }

  lemma {:induction false} RefusedCallsLeaveNoTrace(s: Store, calls: seq<Call>)
    ensures Replay(s, Effective(s, calls)) == Replay(s, calls)
    ensures Accepted(Answers(s, calls)) == |Effective(s, calls)|
    decreases |calls|
  {
    if calls != [] {
      RefusedCallsLeaveNoTrace(After(s, calls[0]), calls[1..]);
      assert Answers(s, calls)[1..] == Answers(After(s, calls[0]), calls[1..]);
      if Accepts(s, calls[0]) {
        assert Effective(s, calls)[1..] == Effective(After(s, calls[0]), calls[1..]);
      }
    }
  }
}
