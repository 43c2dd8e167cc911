/**
 The client's redirect loop. Writes, linearizable reads and batched reads run the
 same loop over different payloads; what the loop does is stated as a function of
 the replies it gets, whatever they are.
 */
module ClientRouting {
  import opened Base
  import opened Sorting
  import opened ByteOrder

  datatype Hint = Hint(node: NodeId, addr: nat)

  /** Why a target could not be reached at all. */
  datatype ReachError = PeerGone | NoQuorum | TimedOut | Overloaded

  /** What came back from one attempt: an answer, a redirect, a refusal, or nothing. */
  datatype Reply<+V> =
    | Answer(value: V)
    | NotLeader(hint: Option<Hint>)
    | Refused(error: nat)
    | Unreached(why: ReachError)

  datatype Outcome<+V> =
    | Success(value: V)
    | Redirect(hint: Option<Hint>)
    | Rejected(error: nat)
    | QuorumUnavailable
    | ShuttingDown
    | Timeout
    | Busy

  datatype Target = Target(node: NodeId, wire: Option<nat>)

  // ---- The order in which nodes are tried --------------------------------------

  /** This node first, then its other peers in ascending order. */
  ghost predicate IsTargetOrder(self: NodeId, peers: set<NodeId>, order: seq<NodeId>) {
    && order != [] && order[0] == self
    && StrictlySorted(Less, order[1..])
    && (forall id :: id in order[1..] <==> id in peers && id != self)
  }

  method TargetOrder(self: NodeId, peers: set<NodeId>) returns (order: seq<NodeId>)
    ensures IsTargetOrder(self, peers, order)
  {
    var ids: seq<NodeId> := [];
    var todo := peers - {self};
    while todo != {}
      invariant todo <= peers - {self}
      invariant forall id :: id in ids <==> id in peers - {self} && id !in todo
      invariant Distinct(ids)
      decreases todo
    {
      var id :| id in todo;
      ids := ids + [id];
      todo := todo - {id};
    }
    var sorted := SortBy(AtMost, ids);
    LessOrder();
    SortIsSorted(AtMost, ids);
    MultisetMembers(sorted, ids);
    DistinctUnderPermutation(ids, sorted);
    order := [self] + sorted;
    assert order[1..] == sorted;
    forall i, j | 0 <= i < j < |sorted|
      ensures Less(sorted[i], sorted[j])
    {
      assert AtMost(sorted[i], sorted[j]);
    }
  }

  predicate AtMost(a: NodeId, b: NodeId) {
    !Less(b, a)
  }

  // ---- What the loop does ----------------------------------------------------------

  datatype Handle = Handle(self: NodeId, order: seq<NodeId>, maxRedirects: nat) {
    /** The list of targets starts with this node and names it only there. */
    ghost predicate Valid() {
      order != [] && order[0] == self && forall i :: 0 < i < |order| ==> order[i] != self
    }
  }

  /** A handle whose targets are in the order the node lists them is valid. */
  lemma TargetOrderIsValid(self: NodeId, peers: set<NodeId>, order: seq<NodeId>, maxRedirects: nat)
    requires IsTargetOrder(self, peers, order)
    ensures Handle(self, order, maxRedirects).Valid()
  {
    forall i | 0 < i < |order|
      ensures order[i] != self
    {
      assert order[1..][i - 1] == order[i] && order[i] in order[1..];
    }
  }

  /** The place in line of attempt `k`, going round the `n` nodes. */
  function Position(k: nat, n: nat): (pos: nat)
    requires n > 0
    ensures pos < n
  {
    if k == 0 || Position(k - 1, n) + 1 == n then 0 else Position(k - 1, n) + 1
  }

  /** The target of attempt `k`: the hint of the previous reply, else the next node in line. */
  function TargetAt<V>(h: Handle, replies: nat -> Reply<V>, k: nat): Target
    requires h.order != []
  {
    if k > 0 && replies(k - 1).NotLeader? && replies(k - 1).hint.Some?
    then Target(replies(k - 1).hint.value.node, Some(replies(k - 1).hint.value.addr))
    else Target(h.order[Position(k, |h.order|)], None)
  }

  function Redirects<V>(replies: nat -> Reply<V>, k: nat): nat {
    if k == 0 then 0 else Redirects(replies, k - 1) + if replies(k - 1).NotLeader? then 1 else 0
  }

  function Skips<V>(replies: nat -> Reply<V>, k: nat): nat {
    if k == 0 then 0 else Skips(replies, k - 1) + if replies(k - 1) == Unreached(PeerGone) then 1 else 0
  }

  /** The loop goes on after attempt `k`. */
  predicate Continues<V>(h: Handle, replies: nat -> Reply<V>, k: nat)
    requires h.order != []
  {
    match replies(k)
    case NotLeader(_) => h.maxRedirects != 0 && Redirects(replies, k + 1) <= h.maxRedirects
    case Unreached(PeerGone) =>
      && TargetAt(h, replies, k).node != h.self
      && TargetAt(h, replies, k).wire.None?
      && Skips(replies, k + 1) + 1 < |h.order|
    case _ => false
  }

  /** What the loop returns if it stops after attempt `k`. */
  function Verdict<V>(h: Handle, replies: nat -> Reply<V>, k: nat): Outcome<V>
    requires h.order != []
  {
    match replies(k)
    case Answer(v) => Success(v)
    case NotLeader(hint) => if h.maxRedirects == 0 then Redirect(hint) else Timeout
    case Refused(e) => Rejected(e)
    case Unreached(PeerGone) => if TargetAt(h, replies, k).node != h.self then QuorumUnavailable else ShuttingDown
    case Unreached(NoQuorum) => QuorumUnavailable
    case Unreached(TimedOut) => Timeout
    case Unreached(Overloaded) => Busy
  }

  /** `last` is the attempt after which the loop stops. */
  ghost predicate StopsAt<V>(h: Handle, replies: nat -> Reply<V>, last: nat)
    requires h.order != []
  {
    !Continues(h, replies, last) && forall k: nat :: k < last ==> Continues(h, replies, k)
  }

  /** Every attempt the loop continues after is a redirect or a skipped peer, and both are limited. */
  lemma {:induction false} AttemptsAreCounted<V>(h: Handle, replies: nat -> Reply<V>, m: nat)
    requires h.Valid()
    requires forall k: nat :: k < m ==> Continues(h, replies, k)
    ensures m == Redirects(replies, m) + Skips(replies, m)
    ensures Redirects(replies, m) <= h.maxRedirects
    ensures Skips(replies, m) == 0 || Skips(replies, m) + 1 < |h.order|
  {
    if m > 0 {
      AttemptsAreCounted(h, replies, m - 1);
      assert Continues(h, replies, m - 1);
    }
  }

  /** The most attempts the loop can make. */
  function AttemptBound(h: Handle): nat {
    h.maxRedirects + if |h.order| >= 2 then |h.order| - 1 else 1
  }

  lemma CountOneMore<V>(replies: nat -> Reply<V>, k: nat)
    ensures Redirects(replies, k + 1) == Redirects(replies, k) + if replies(k).NotLeader? then 1 else 0
    ensures Skips(replies, k + 1) == Skips(replies, k) + if replies(k) == Unreached(PeerGone) then 1 else 0
  {
  }

  lemma NextInLine(k: nat, n: nat)
    requires n > 0
    ensures Position(k + 1, n) == (Position(k, n) + 1) % n
  {
    var pos := Position(k, n);
    if pos + 1 == n {
      assert (pos + 1) % n == 0;
    } else {
      assert (pos + 1) % n == pos + 1;
    }
  }

  /** Send the request, following redirects, until it is answered or given up. */
  method FollowRedirects<V>(h: Handle, replies: nat -> Reply<V>) returns (outcome: Outcome<V>, visited: seq<Target>)
    requires h.Valid()
    ensures 1 <= |visited| <= AttemptBound(h)
    ensures forall k :: 0 <= k < |visited| ==> visited[k] == TargetAt(h, replies, k)
    ensures StopsAt(h, replies, |visited| - 1)
    ensures outcome == Verdict(h, replies, |visited| - 1)
  {
    hide Redirects, Skips, Position;
    visited := [];
    var pos, redirects, unreachable := 0, 0, 0;
    var hint: Option<Hint> := None;
    var n := |h.order|;
    NothingCounted(replies, n);
    while true
      invariant pos == Position(|visited|, n)
      invariant redirects == Redirects(replies, |visited|)
      invariant unreachable == Skips(replies, |visited|)
      invariant forall k: nat :: k < |visited| ==> Continues(h, replies, k) && visited[k] == TargetAt(h, replies, k)
      invariant TargetAt(h, replies, |visited|) == Aim(h, hint, pos)
      decreases AttemptBound(h) - |visited|
    {
      AttemptsAreCounted(h, replies, |visited|);
      var k := |visited|;
      CountOneMore(replies, k);
      NextInLine(k, n);
      var target := Aim(h, hint, pos);
      visited := visited + [target];
      var stop: Option<Outcome<V>> := None;
      match replies(k) {
        case Answer(v) =>
          stop := Some(Success(v));
        case NotLeader(leader) =>
          if h.maxRedirects == 0 {
            stop := Some(Redirect(leader));
          } else {
            hint := leader;
            pos := (pos + 1) % n;
            redirects := redirects + 1;
            if redirects > h.maxRedirects {
              stop := Some(Timeout);
            }
          }
        case Refused(e) =>
          stop := Some(Rejected(e));
        case Unreached(PeerGone) =>
          if target.node == h.self {
            stop := Some(ShuttingDown);
          } else if hint.Some? {
            stop := Some(QuorumUnavailable);
          } else {
            unreachable := unreachable + 1;
            if unreachable + 1 >= n {
              stop := Some(QuorumUnavailable);
            }
            pos := (pos + 1) % n;
          }
        case Unreached(NoQuorum) =>
          stop := Some(QuorumUnavailable);
        case Unreached(TimedOut) =>
          stop := Some(Timeout);
        case Unreached(Overloaded) =>
          stop := Some(Busy);
      }
      assert stop == if Continues(h, replies, k) then None else Some(Verdict(h, replies, k));
      if stop.Some? {
        return stop.value, visited;
      }
    }
  }

  lemma {:induction false} NothingCounted<V>(replies: nat -> Reply<V>, n: nat)
    requires n > 0
    ensures Redirects(replies, 0) == 0 && Skips(replies, 0) == 0 && Position(0, n) == 0
  {
  }

  /** The target the loop's variables point at. */
  function Aim(h: Handle, hint: Option<Hint>, pos: nat): Target
    requires pos < |h.order|
  {
    if hint.Some? then Target(hint.value.node, Some(hint.value.addr)) else Target(h.order[pos], None)
  }

  // ---- What that means for the caller --------------------------------------------

  /**
   What the caller is told, by the last reply and the node it came from: an answer as it is,
   a refusal as it is, and each of the other ends for its own reasons.
   */
  ghost predicate IsOutcomeOf<V>(h: Handle, last: Reply<V>, target: Target, outcome: Outcome<V>) {
    && (outcome.Success? <==> last.Answer?) && (last.Answer? ==> outcome == Success(last.value))
    && (outcome.Rejected? <==> last.Refused?) && (last.Refused? ==> outcome == Rejected(last.error))
    && (outcome.Redirect? <==> last.NotLeader? && h.maxRedirects == 0)
    && (outcome.Redirect? ==> outcome == Redirect(last.hint))
    && (outcome == ShuttingDown <==> last == Unreached(PeerGone) && target.node == h.self)
    && (outcome == QuorumUnavailable <==>
          last == Unreached(NoQuorum) || (last == Unreached(PeerGone) && target.node != h.self))
    && (outcome == Timeout <==> last == Unreached(TimedOut) || (last.NotLeader? && h.maxRedirects > 0))
    && (outcome == Busy <==> last == Unreached(Overloaded))
  }

  /** Attempt `k` goes to whom the last reply named, else to the next in line, going round. */
  lemma AimedAtHintOrNext<V>(h: Handle, replies: nat -> Reply<V>, k: nat) returns (rounds: nat, place: nat)
    requires h.Valid()
    ensures place < |h.order| && k == rounds * |h.order| + place
    ensures TargetAt(h, replies, k) ==
            if k > 0 && replies(k - 1).NotLeader? && replies(k - 1).hint.Some?
            then Target(replies(k - 1).hint.value.node, Some(replies(k - 1).hint.value.addr))
            else Target(h.order[place], None)
  {
    place := Position(k, |h.order|);
    rounds := WholeRounds(k, |h.order|);
  }

  lemma {:induction false} WholeRounds(k: nat, n: nat) returns (rounds: nat)
    requires n > 0
    ensures k == rounds * n + Position(k, n)
  {
    if k == 0 {
      rounds := 0;
    } else {
      rounds := WholeRounds(k - 1, n);
      if Position(k - 1, n) + 1 == n {
        assert (rounds + 1) * n == rounds * n + n;
        rounds := rounds + 1;
      }
    }
  }

  /** When the loop goes on: within the limits on redirects and on skipped peers. */
  lemma ContinuesIff<V>(h: Handle, replies: nat -> Reply<V>, k: nat)
    requires h.Valid()
    ensures Continues(h, replies, k) <==>
            || (replies(k).NotLeader? && |set j: nat | j <= k && replies(j).NotLeader?| <= h.maxRedirects)
            || (&& replies(k) == Unreached(PeerGone)
                && TargetAt(h, replies, k).wire.None? && TargetAt(h, replies, k).node != h.self
                && |set j: nat | j <= k && replies(j) == Unreached(PeerGone)| + 1 < |h.order|)
  {
    RedirectsAreSize(replies, k + 1);
    SkipsAreSize(replies, k + 1);
    hide Redirects, Skips, Position;
    var redirects := set j: nat | j <= k && replies(j).NotLeader?;
    var skips := set j: nat | j <= k && replies(j) == Unreached(PeerGone);
    assert redirects == set j: nat | j < k + 1 && replies(j).NotLeader?;
    assert skips == set j: nat | j < k + 1 && replies(j) == Unreached(PeerGone);
    if replies(k).NotLeader? {
      assert k in redirects;
    }
  }

  lemma {:induction false} RedirectsAreSize<V>(replies: nat -> Reply<V>, k: nat)
    ensures Redirects(replies, k) == |set j: nat | j < k && replies(j).NotLeader?|
  {
    var all := set j: nat | j < k && replies(j).NotLeader?;
    if k == 0 {
      assert all == {};
    } else {
      RedirectsAreSize(replies, k - 1);
      var before := set j: nat | j < k - 1 && replies(j).NotLeader?;
      if replies(k - 1).NotLeader? {
        assert all == before + {k - 1};
      } else {
        assert all == before;
      }
    }
  }

  lemma {:induction false} SkipsAreSize<V>(replies: nat -> Reply<V>, k: nat)
    ensures Skips(replies, k) == |set j: nat | j < k && replies(j) == Unreached(PeerGone)|
  {
    var all := set j: nat | j < k && replies(j) == Unreached(PeerGone);
    if k == 0 {
      assert all == {};
    } else {
      SkipsAreSize(replies, k - 1);
      var before := set j: nat | j < k - 1 && replies(j) == Unreached(PeerGone);
      if replies(k - 1) == Unreached(PeerGone) {
        assert all == before + {k - 1};
      } else {
        assert all == before;
      }
    }
  }

  /** The outcome of the loop is that of its last reply. */
  lemma VerdictIsOutcome<V>(h: Handle, replies: nat -> Reply<V>, last: nat)
    requires h.Valid() && StopsAt(h, replies, last)
    ensures IsOutcomeOf(h, replies(last), TargetAt(h, replies, last), Verdict(h, replies, last))
  {
    hide TargetAt, Redirects, Skips;
  }

  /** A handle that follows redirects never hands one to its caller. */
  lemma RedirectingHandleHidesRedirects<V>(h: Handle, replies: nat -> Reply<V>, last: nat)
    requires h.Valid() && h.maxRedirects > 0 && StopsAt(h, replies, last)
    ensures !Verdict(h, replies, last).Redirect?
  {
  }

  /** A single-shot handle asks its own node, once, and passes a redirect on unchanged. */
  lemma SingleShotAsksOnce<V>(h: Handle, replies: nat -> Reply<V>, last: nat)
    requires h.Valid() && h.maxRedirects == 0 && StopsAt(h, replies, last)
    ensures last == 0 && TargetAt(h, replies, 0) == Target(h.self, None)
    ensures replies(0).NotLeader? ==> Verdict(h, replies, 0) == Redirect(replies(0).hint)
  {
    assert !Continues(h, replies, 0);
  }

  /** A reply without its payload. */
  function Shape<V>(r: Reply<V>): Reply<()> {
    match r
    case Answer(_) => Answer(())
    case NotLeader(hint) => NotLeader(hint)
    case Refused(e) => Refused(e)
    case Unreached(why) => Unreached(why)
  }

  /** An outcome without its payload. */
  function WithoutValue<V>(o: Outcome<V>): Outcome<()> {
    match o
    case Success(_) => Success(())
    case Redirect(hint) => Redirect(hint)
    case Rejected(e) => Rejected(e)
    case QuorumUnavailable => QuorumUnavailable
    case ShuttingDown => ShuttingDown
    case Timeout => Timeout
    case Busy => Busy
  }

  ghost predicate SameShapes<V, W>(a: nat -> Reply<V>, b: nat -> Reply<W>) {
    forall k :: Shape(a(k)) == Shape(b(k))
  }

  lemma {:induction false} SameCounts<V, W>(a: nat -> Reply<V>, b: nat -> Reply<W>, k: nat)
    requires SameShapes(a, b)
    ensures Redirects(a, k) == Redirects(b, k) && Skips(a, k) == Skips(b, k)
  {
    if k > 0 {
      SameCounts(a, b, k - 1);
      assert Shape(a(k - 1)) == Shape(b(k - 1));
    }
  }

  /**
   The route does not depend on what is asked for: loops with different payloads that
   get the same replies visit the same targets, stop together, and agree on the
   outcome whenever it is not an answer.
   */
  lemma RouteIgnoresPayload<V, W>(h: Handle, a: nat -> Reply<V>, b: nat -> Reply<W>, k: nat)
    requires h.Valid() && SameShapes(a, b)
    ensures TargetAt(h, a, k) == TargetAt(h, b, k)
    ensures Continues(h, a, k) <==> Continues(h, b, k)
    ensures WithoutValue(Verdict(h, a, k)) == WithoutValue(Verdict(h, b, k))
  {
    assert Shape(a(k)) == Shape(b(k));
    if k > 0 {
      assert Shape(a(k - 1)) == Shape(b(k - 1));
    }
    SameCounts(a, b, k + 1);
  }

  /** The attempt bound is reached: after one redirect every peer but the last is gone, then only redirects. */
  function WorstReplies<V>(n: nat): nat -> Reply<V> {
    k => if 1 <= k && k + 2 <= n then Unreached(PeerGone) else NotLeader(None)
  }

  lemma {:induction false} WorstPosition(k: nat, n: nat)
    requires k < n
    ensures Position(k, n) == k
  {
    if k > 0 {
      WorstPosition(k - 1, n);
    }
  }

  lemma {:induction false} WorstCounts<V>(n: nat, k: nat)
    ensures var skips := if k == 0 || n < 2 then 0 else if k + 1 <= n then k - 1 else n - 2;
            Skips(WorstReplies<V>(n), k) == skips && Redirects(WorstReplies<V>(n), k) == k - skips
  {
    if k > 0 {
      WorstCounts<V>(n, k - 1);
    }
  }

  lemma BoundIsReached<V>(h: Handle)
    requires h.Valid() && h.maxRedirects > 0
    ensures StopsAt(h, WorstReplies<V>(|h.order|), AttemptBound(h) - 1)
  {
    var n, replies := |h.order|, WorstReplies<V>(|h.order|);
    forall k: nat | k < AttemptBound(h)
      ensures Continues(h, replies, k) <==> k < AttemptBound(h) - 1
    {
      WorstCounts<V>(n, k + 1);
      if k < n {
        WorstPosition(k, n);
      }
    }
  }
}
