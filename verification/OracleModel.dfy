/**
 The client-history vocabulary of the oracle and the linearizability checker:
 operations, results, logical operations, and the real-time order on them.
 */
module OracleModel {
  import opened Base

  datatype Op = Put(key: Bytes, value: nat) | Delete(key: Bytes) | Get(key: Bytes) {
    /** Writes and deletes enter the replicated log; reads do not. */
    predicate IsLoggedOp() {
      Put? || Delete?
    }
  }

  datatype ErrorKind = NotLeader | QuorumUnavailable | Timeout | Busy | SessionExpired {
    predicate IsUnknownOutcome() {
      Timeout? || SessionExpired?
    }

    predicate IsKnownNotApplied() {
      !IsUnknownOutcome()
    }
  }

  datatype OpResult = Done(found: Option<nat>) | Failed(kind: ErrorKind)

  /** One logical operation: all the calls of one `(client, seqNo)`. */
  datatype LogOp = LogOp(
    client: nat,
    seqNo: nat,
    op: Op,
    invokeTs: U64,
    completeTs: Option<U64>,
    result: Option<OpResult>,
    logIds: seq<nat>,
    calls: seq<nat>)
  {
    predicate IsLinearizationPoint() {
      completeTs.Some? && result.Some? && result.value.Done?
    }

    predicate IsKnownNotApplied() {
      result.Some? && result.value.Failed? && result.value.kind.IsKnownNotApplied()
    }

    predicate MayHaveApplied() {
      !IsKnownNotApplied()
    }

    predicate IsOptionalWritePoint() {
      op.IsLoggedOp() && !IsKnownNotApplied() && !IsLinearizationPoint()
    }

    predicate CompletedBy(t: U64) {
      completeTs.Some? && completeTs.value <= t
    }

    /** The operation does not complete before it starts. */
    predicate ValidInterval() {
      completeTs.Some? ==> invokeTs <= completeTs.value
    }

    /** The operation takes time. */
    predicate StrictInterval() {
      completeTs.Some? ==> invokeTs < completeTs.value
    }
  }

  /**
   `a` really happened before `b`: it completed at or before the start of `b`,
   and not the other way round (both can hold of two instantaneous operations).
   */
  predicate Before(a: LogOp, b: LogOp) {
    a.CompletedBy(b.invokeTs) && !b.CompletedBy(a.invokeTs)
  }

  lemma BeforeIsTransitive(a: LogOp, b: LogOp, c: LogOp)
    requires a.ValidInterval() && b.ValidInterval() && c.ValidInterval()
    requires Before(a, b) && Before(b, c)
    ensures Before(a, c)
  {
  }

  // The reference store: a key is bound to the last value put there.
  type KvState = map<Bytes, nat>

  function Lookup(state: KvState, key: Bytes): Option<nat> {
    if key in state then Some(state[key]) else None
  }

  /** The store after `op`, and the result the reference store gives for it. */
  function Apply(state: KvState, op: Op): (KvState, OpResult) {
    match op
    case Put(key, value) => (state[key := value], Done(None))
    case Delete(key) => (state - {key}, Done(None))
    case Get(key) => (state, Done(Lookup(state, key)))
  }
}
