/**
 Forwarding a client command to the leader over the wire: the request a command is
 sent as, the reply an outcome is sent as, and what the sender makes of that reply.
 */
module ForwardWire {
  import opened Base

  type Address = nat

  // ---- Both ends' own terms ----------------------------------------------------------

  datatype Command =
    | Propose(cmd: Bytes, clientId: U64, seqNo: U64)
    | ProposeWithIndex(cmd: Bytes, clientId: U64, seqNo: U64)
    | Read(key: Bytes)
    | GetStale(key: Bytes)
    | MultiGet(keys: seq<Bytes>, linearizable: bool)

  datatype Batch = Batch(values: seq<Option<Bytes>>, appliedIndex: U64)

  datatype Outcome = Outcome(
    value: Option<Bytes>,
    leaderHint: Option<(NodeId, Address)>,
    result: Option<ApplyOutcome>,
    multi: Option<Batch>,
    index: Option<U64>)

  /** What runs a command on the receiving node; an error is a stable code. */
  type Sink = Command -> Result<Outcome, string>

  // ---- On the wire ---------------------------------------------------------------------

  datatype Request = Request(
    kind: U32, cmd: Bytes, key: Bytes, clientId: U64, seqNo: U64, keys: seq<Bytes>, linearizable: bool)

  datatype BytesValue = BytesValue(data: Bytes)
  datatype OptionalBytesValue = OptionalBytesValue(data: Option<Bytes>)

  datatype ResultKind =
    | WireValue(bytes: Bytes)
    | WireCasFailed(currentIndex: nat, currentValue: Option<BytesValue>)

  datatype WireResult = WireResult(kind: Option<ResultKind>)
  datatype WireBatch = WireBatch(values: seq<OptionalBytesValue>, appliedIndex: U64)

  datatype Reply = Reply(
    ok: bool,
    errorCode: string,
    value: Bytes,
    leaderNodeId: NodeId,
    leaderAddr: string,
    result: Option<WireResult>,
    multiGet: Option<WireBatch>,
    commitIndex: Option<U64>)

  const EMPTY_REPLY := Reply(false, "", [], [], "", None, None, None)

  /** How socket addresses are printed and parsed. */
  datatype AddressText = AddressText(show: Address -> string, read: string -> Option<Address>) {
    ghost predicate Valid() {
      read("") == None && forall a: Address :: read(show(a)) == Some(a)
    }
  }

  // ---- Requests --------------------------------------------------------------------------

  function BuildRequest(c: Command): Request {
    var empty := Request(0, [], [], 0, 0, [], false);
    match c
    case Propose(cmd, id, n) => empty.(kind := 0, cmd := cmd, clientId := id, seqNo := n)
    case Read(key) => empty.(kind := 1, key := key)
    case GetStale(key) => empty.(kind := 2, key := key)
    case MultiGet(keys, linearizable) => empty.(kind := 3, keys := keys, linearizable := linearizable)
    case ProposeWithIndex(cmd, id, n) => empty.(kind := 4, cmd := cmd, clientId := id, seqNo := n)
  }

  function DecodeRequest(r: Request): Option<Command> {
    match r.kind
    case 0 => Some(Propose(r.cmd, r.clientId, r.seqNo))
    case 1 => Some(Read(r.key))
    case 2 => Some(GetStale(r.key))
    case 3 => Some(MultiGet(r.keys, r.linearizable))
    case 4 => Some(ProposeWithIndex(r.cmd, r.clientId, r.seqNo))
    case _ => None
  }

  /**
   Every command arrives as itself, and a request is taken for a command exactly when
   its kind is known; requests built by a sender are the canonical ones.
   */
  lemma CommandsRoundTrip(c: Command, r: Request)
    ensures DecodeRequest(BuildRequest(c)) == Some(c)
    ensures DecodeRequest(r).Some? <==> r.kind <= 4
    ensures DecodeRequest(r).Some? ==> DecodeRequest(BuildRequest(DecodeRequest(r).value)) == DecodeRequest(r)
  {
    assert r.kind <= 4 ==> r.kind == 0 || r.kind == 1 || r.kind == 2 || r.kind == 3 || r.kind == 4;
  }

  // ---- Outcomes ---------------------------------------------------------------------------

  function EncodeResult(result: Option<ApplyOutcome>): Option<WireResult> {
    match result
    case Some(Value(v)) => Some(WireResult(Some(WireValue(v))))
    case Some(CasFailed(index, current)) =>
      Some(WireResult(Some(WireCasFailed(index, match current case Some(v) => Some(BytesValue(v)) case None => None))))
    case Some(NoValue) => None
    case None => None
  }

  function DecodeResult(result: Option<WireResult>): Option<ApplyOutcome> {
    match result
    case Some(WireResult(Some(WireValue(v)))) => Some(Value(v))
    case Some(WireResult(Some(WireCasFailed(index, current)))) =>
      Some(CasFailed(index, match current case Some(v) => Some(v.data) case None => None))
    case _ => None
  }

  function EncodeBatch(multi: Option<Batch>): Option<WireBatch> {
    match multi
    case None => None
    case Some(b) =>
      var values := seq(|b.values|, i requires 0 <= i < |b.values| => OptionalBytesValue(b.values[i]));
      Some(WireBatch(values, b.appliedIndex))
  }

  function DecodeBatch(reply: Option<WireBatch>, expected: nat): Result<Option<Batch>, string> {
    match reply
    case None => Ok(None)
    case Some(w) =>
      if |w.values| != expected then Err("malformed_multi_get_reply")
      else Ok(Some(Batch(seq(|w.values|, i requires 0 <= i < |w.values| => w.values[i].data), w.appliedIndex)))
  }

  // ---- The exchange -----------------------------------------------------------------------

  /** The receiving node's reply; without a sink nothing is run. */
  function Serve(sink: Option<Sink>, text: AddressText, r: Request): Reply {
    if sink.None? then EMPTY_REPLY.(errorCode := "unavailable")
    else match DecodeRequest(r) {
      case None => EMPTY_REPLY.(errorCode := "unknown_kind")
      case Some(c) => ReplyTo(sink.value(c), text)
    }
  }

  function ReplyTo(run: Result<Outcome, string>, text: AddressText): Reply {
    match run
    case Err(code) => EMPTY_REPLY.(errorCode := code)
    case Ok(o) =>
      match o.leaderHint {
        case Some(hint) =>
          EMPTY_REPLY.(errorCode := "not_leader", leaderNodeId := hint.0, leaderAddr := text.show(hint.1))
        case None =>
          EMPTY_REPLY.(
            ok := true,
            value := match o.value { case Some(v) => v case None => [] },
            result := EncodeResult(o.result),
            commitIndex := o.index,
            multiGet := EncodeBatch(o.multi))
      }
  }

  /** What the sender makes of a reply to a request for `expected` keys. */
  function Receive(reply: Reply, text: AddressText, expected: nat): Result<Outcome, string> {
    if reply.ok then
      match DecodeBatch(reply.multiGet, expected) {
        case Err(e) => Err(e)
        case Ok(multi) => Ok(Outcome(Some(reply.value), None, DecodeResult(reply.result), multi, reply.commitIndex))
      }
    else if reply.errorCode == "not_leader" then
      match text.read(reply.leaderAddr) {
        case None => Err("bad leader address")
        case Some(a) => Ok(Outcome(None, Some((reply.leaderNodeId, a)), None, None, None))
      }
    else
      Err(reply.errorCode)
  }

  function Forward(sink: Option<Sink>, text: AddressText, c: Command): Result<Outcome, string> {
    var request := BuildRequest(c);
    Receive(Serve(sink, text, request), text, |request.keys|)
  }

  // ---- What the exchange means -----------------------------------------------------------

  /** An outcome as the sender sees it: the two things the wire does not tell apart. */
  function Collapsed(o: Outcome): Outcome {
    o.(value := if o.value.None? then Some([]) else o.value,
       result := if o.result == Some(NoValue) then None else o.result)
  }

  /** A batch has one value per requested key, and only a batched read has one. */
  predicate WellSized(c: Command, o: Outcome) {
    o.multi.Some? ==> |o.multi.value.values| == if c.MultiGet? then |c.keys| else 0
  }

  lemma ResultsRoundTrip(result: Option<ApplyOutcome>)
    ensures DecodeResult(EncodeResult(result)) == if result == Some(NoValue) then None else result
  {
  }

  lemma BatchesRoundTrip(multi: Option<Batch>, expected: nat)
    ensures DecodeBatch(EncodeBatch(multi), expected) ==
            if multi.Some? && |multi.value.values| != expected then Err("malformed_multi_get_reply") else Ok(multi)
  {
    if multi.Some? && |multi.value.values| == expected {
      var back := DecodeBatch(EncodeBatch(multi), expected).value.value;
      assert back.values == multi.value.values;
    }
  }

  /**
   Forwarding a command is running it at the other end: an error code comes back as it
   is, a redirect comes back as its hint, a wrongly sized batch is refused, and any
   other outcome comes back with its index, its failed-compare state and its batch
   intact, up to the two collapses.
   */
  lemma ForwardRunsTheCommand(sink: Sink, text: AddressText, c: Command)
    requires text.Valid()
    ensures Forward(Some(sink), text, c) ==
            match sink(c)
            case Err(code) => Err(if code == "not_leader" then "bad leader address" else code)
            case Ok(o) =>
              if o.leaderHint.Some? then Ok(Outcome(None, o.leaderHint, None, None, None))
              else if !WellSized(c, o) then Err("malformed_multi_get_reply")
              else Ok(Collapsed(o))
  {
    CommandsRoundTrip(c, BuildRequest(c));
    var run := sink(c);
    if run.Ok? && run.value.leaderHint.None? {
      ResultsRoundTrip(run.value.result);
      BatchesRoundTrip(run.value.multi, |BuildRequest(c).keys|);
    }
  }

  /** Two outcomes arrive alike only if they differ by nothing but the two collapses. */
  lemma OnlyTwoCollapses(sink: Sink, other: Sink, text: AddressText, c: Command)
    requires text.Valid()
    requires sink(c).Ok? && other(c).Ok?
    requires sink(c).value.leaderHint.None? && WellSized(c, sink(c).value)
    requires other(c).value.leaderHint.None? && WellSized(c, other(c).value)
    ensures Forward(Some(sink), text, c) == Forward(Some(other), text, c) <==>
            var a, b := sink(c).value, other(c).value;
            && a.multi == b.multi && a.index == b.index
            && (a.value == b.value || (a.value in {None, Some([])} && b.value in {None, Some([])}))
            && (a.result == b.result || (a.result in {None, Some(NoValue)} && b.result in {None, Some(NoValue)}))
  {
    ForwardRunsTheCommand(sink, text, c);
    ForwardRunsTheCommand(other, text, c);
  }

  /** Without a sink every command, of whatever kind, comes back as unavailable. */
  lemma NoSinkRunsNothing(text: AddressText, r: Request, expected: nat, c: Command)
    ensures Receive(Serve(None, text, r), text, expected) == Err("unavailable")
    ensures Forward(None, text, c) == Err("unavailable")
  {
  }

  /** A request of an unknown kind is answered the same whatever the sink would do: it never runs. */
  lemma UnknownKindRunsNothing(sink: Sink, text: AddressText, r: Request, expected: nat)
    requires r.kind > 4
    ensures Receive(Serve(Some(sink), text, r), text, expected) == Err("unknown_kind")
  {
    CommandsRoundTrip(Read([]), r);
  }
}
