/**
 The replicated-log model behind the model checker, for any number of nodes, any
 quorum size and any bound on the log: a leader (node 0) that appends, replicates
 to followers, and nodes that advance their commit watermark.
 */
module ReplicatedLog {
  import opened Base

  const TERM: nat := 1

  datatype LogEntry = LogEntry(term: nat, payload: nat)

  datatype Node = Node(log: seq<LogEntry>, commit: nat)

  datatype Config = Config(nodes: nat, quorum: nat, maxLog: nat)

  type Cluster = seq<Node>

  datatype Action = Append(payload: nat) | Replicate(follower: nat) | Commit(node: nat, index: nat)

  /** The actions the model offers: followers are not the leader, and indices start at one. */
  predicate IsAction(cfg: Config, a: Action) {
    match a
    case Append(_) => true
    case Replicate(f) => 1 <= f < cfg.nodes
    case Commit(node, index) => node < cfg.nodes && 1 <= index <= cfg.maxLog
  }

  /** What a follower's log becomes: unchanged if the leader's log is a prefix of it, else the leader's log. */
  function Merged(leader: seq<LogEntry>, follower: seq<LogEntry>): seq<LogEntry> {
    if leader <= follower then follower else leader
  }

  /** The merged log starts with the leader's, and whichever log starts with the other is what remains. */
  lemma MergedMeaning(leader: seq<LogEntry>, follower: seq<LogEntry>)
    ensures leader <= Merged(leader, follower)
    ensures follower <= leader ==> Merged(leader, follower) == leader
    ensures leader <= follower ==> Merged(leader, follower) == follower
  {
  }

  /** Merge a follower's log with the leader's, keeping the common prefix. */
  method MergeLogs(leader: seq<LogEntry>, follower: seq<LogEntry>) returns (merged: seq<LogEntry>)
    ensures merged == Merged(leader, follower)
  {
    var common := 0;
    while common < |leader| && common < |follower| && leader[common] == follower[common]
      invariant common <= |leader| && common <= |follower|
      invariant leader[..common] == follower[..common]
    {
      common := common + 1;
    }
    if common >= |leader| {
      return follower;
    }
    merged := follower[..common] + leader[common..];
    assert merged == leader;
  }

  function Initial(cfg: Config): (s: Cluster)
    ensures |s| == cfg.nodes
  {
    seq(cfg.nodes, _ => Node([], 0))
  }

  predicate HoldsAt(node: Node, index: nat, entry: LogEntry) {
    1 <= index <= |node.log| && node.log[index - 1] == entry
  }

  /** The nodes that hold `entry` at `index`. */
  function Holders(s: Cluster, index: nat, entry: LogEntry): set<nat> {
    set m: nat | m < |s| && HoldsAt(s[m], index, entry)
  }

  /** The state after an action, or nothing if the action changes nothing. */
  function Next(cfg: Config, s: Cluster, a: Action): Option<Cluster>
    requires |s| == cfg.nodes >= 1 && IsAction(cfg, a)
  {
    match a
    case Append(payload) =>
      if |s[0].log| >= cfg.maxLog then None
      else Some(s[0 := s[0].(log := s[0].log + [LogEntry(TERM, payload)])])
    case Replicate(f) =>
      var merged := Merged(s[0].log, s[f].log);
      if merged == s[f].log then None else Some(s[f := s[f].(log := merged)])
    case Commit(node, index) =>
      if index > |s[node].log| || index <= s[node].commit then None
      else if |Holders(s, index, s[node].log[index - 1])| < cfg.quorum then None
      else Some(s[node := s[node].(commit := index)])
  }

  // ---- Runs ----------------------------------------------------------------------

  /** `states` is a run: it starts in the initial state and every step is an action that applies. */
  ghost predicate IsRun(cfg: Config, states: seq<Cluster>) {
    && cfg.nodes >= 1 && |states| >= 1 && states[0] == Initial(cfg)
    && (forall i :: 0 <= i < |states| ==> |states[i]| == cfg.nodes)
    && (forall i :: 0 <= i < |states| - 1 ==> IsStep(cfg, states[i], states[i + 1]))
  }

  ghost predicate IsStep(cfg: Config, s: Cluster, s': Cluster)
    requires |s| == cfg.nodes >= 1
  {
    exists a :: IsAction(cfg, a) && Next(cfg, s, a) == Some(s')
  }

  /** Every follower's log is a prefix of the leader's. */
  ghost predicate FollowersArePrefixes(s: Cluster)
    requires |s| >= 1
  {
    forall m :: 0 <= m < |s| ==> s[m].log <= s[0].log
  }

  ghost predicate CommitWithinLog(s: Cluster) {
    forall m :: 0 <= m < |s| ==> s[m].commit <= |s[m].log|
  }

  /** Every index at or below a node's watermark is held, identically, by a quorum. */
  ghost predicate CommittedIsHeld(cfg: Config, s: Cluster)
    requires CommitWithinLog(s)
  {
    forall m: nat, index: nat :: m < |s| ==> IsHeld(cfg, s, m, index)
  }

  ghost predicate IsHeld(cfg: Config, s: Cluster, m: nat, index: nat)
    requires CommitWithinLog(s) && m < |s|
  {
    1 <= index <= s[m].commit ==> HeldByQuorum(cfg, s, index, s[m].log[index - 1])
  }

  ghost predicate HeldByQuorum(cfg: Config, s: Cluster, index: nat, entry: LogEntry) {
    |Holders(s, index, entry)| >= cfg.quorum
  }

  ghost predicate Safe(cfg: Config, s: Cluster)
    requires |s| >= 1
  {
    FollowersArePrefixes(s) && CommitWithinLog(s) && CommittedIsHeld(cfg, s)
  }

  /** Logs only grow and watermarks only advance. */
  ghost predicate Extends(s: Cluster, s': Cluster) {
    |s| == |s'| && forall m :: 0 <= m < |s| ==> s[m].log <= s'[m].log && s[m].commit <= s'[m].commit
  }

  /** A quorum that holds an entry still holds it when logs grow. */
  lemma StillHeld(cfg: Config, s: Cluster, s': Cluster, index: nat, entry: LogEntry)
    requires Extends(s, s') && HeldByQuorum(cfg, s, index, entry)
    ensures HeldByQuorum(cfg, s', index, entry)
  {
    SubsetSize(Holders(s, index, entry), Holders(s', index, entry));
  }

  /** Whoever agrees with the leader at one index agrees with it at every lower index. */
  lemma HeldBelow(cfg: Config, s: Cluster, m: nat, index: nat, lower: nat)
    requires |s| >= 1 && FollowersArePrefixes(s) && m < |s|
    requires 1 <= lower <= index <= |s[m].log|
    requires HeldByQuorum(cfg, s, index, s[m].log[index - 1])
    ensures HeldByQuorum(cfg, s, lower, s[m].log[lower - 1])
  {
    SubsetSize(Holders(s, index, s[m].log[index - 1]), Holders(s, lower, s[m].log[lower - 1]));
  }

  lemma StepExtends(cfg: Config, s: Cluster, a: Action)
    requires |s| == cfg.nodes >= 1 && IsAction(cfg, a) && FollowersArePrefixes(s)
    requires Next(cfg, s, a).Some?
    ensures Extends(s, Next(cfg, s, a).value)
    ensures FollowersArePrefixes(Next(cfg, s, a).value)
  {
  }

  lemma StepKeepsCommitted(cfg: Config, s: Cluster, a: Action)
    requires |s| == cfg.nodes >= 1 && IsAction(cfg, a) && Safe(cfg, s)
    requires Next(cfg, s, a).Some?
    ensures CommitWithinLog(Next(cfg, s, a).value)
    ensures CommittedIsHeld(cfg, Next(cfg, s, a).value)
  {
    var s' := Next(cfg, s, a).value;
    StepExtends(cfg, s, a);
    forall m: nat, index: nat | m < |s'|
      ensures IsHeld(cfg, s', m, index)
    {
      assert IsHeld(cfg, s, m, index);
      if 1 <= index <= s'[m].commit {
        if a.Commit? && m == a.node {
          assert HeldByQuorum(cfg, s, a.index, s[m].log[a.index - 1]);
          HeldBelow(cfg, s, m, a.index, index);
        }
        StillHeld(cfg, s, s', index, s[m].log[index - 1]);
      }
    }
  }

  /** Every step keeps the cluster safe and only extends it. */
  lemma StepIsSafe(cfg: Config, s: Cluster, s': Cluster)
    requires |s| == cfg.nodes >= 1 && Safe(cfg, s) && IsStep(cfg, s, s')
    ensures |s'| == cfg.nodes && Safe(cfg, s') && Extends(s, s')
  {
    var a :| IsAction(cfg, a) && Next(cfg, s, a) == Some(s');
    StepExtends(cfg, s, a);
    StepKeepsCommitted(cfg, s, a);
  }

  lemma ExtendsIsTransitive(a: Cluster, b: Cluster, c: Cluster)
    requires Extends(a, b) && Extends(b, c)
    ensures Extends(a, c)
  {
  }

  lemma InitialIsSafe(cfg: Config)
    requires cfg.nodes >= 1
    ensures Safe(cfg, Initial(cfg))
  {
  }

  /** Safety holds in every state of every run. */
  lemma {:induction false} RunsAreSafe(cfg: Config, states: seq<Cluster>, i: nat)
    requires IsRun(cfg, states) && i < |states|
    ensures Safe(cfg, states[i])
  {
    hide IsStep, Safe;
    if i == 0 {
      InitialIsSafe(cfg);
    } else {
      RunsAreSafe(cfg, states, i - 1);
      assert IsStep(cfg, states[i - 1], states[i - 1 + 1]);
      StepIsSafe(cfg, states[i - 1], states[i]);
    }
  }

  lemma {:induction false} RunsExtend(cfg: Config, states: seq<Cluster>, i: nat, j: nat)
    requires IsRun(cfg, states) && i <= j < |states|
    ensures Extends(states[i], states[j])
  {
    hide IsStep, Safe;
    if i < j {
      RunsExtend(cfg, states, i, j - 1);
      RunsAreSafe(cfg, states, j - 1);
      assert IsStep(cfg, states[j - 1], states[j - 1 + 1]);
      StepIsSafe(cfg, states[j - 1], states[j]);
      ExtendsIsTransitive(states[i], states[j - 1], states[j]);
    }
  }

  /**
   An entry any node has committed in some state is, in that state and in every later
   one, the entry of every node that has committed that index, and a quorum holds it.
   */
  lemma CommittedForever(cfg: Config, states: seq<Cluster>, i: nat, j: nat, m: nat, m': nat, index: nat)
    requires IsRun(cfg, states) && i <= j < |states|
    requires m < cfg.nodes && m' < cfg.nodes
    requires 1 <= index <= states[i][m].commit && index <= states[j][m'].commit
    ensures states[i][m].commit <= |states[i][m].log| && states[j][m'].commit <= |states[j][m'].log|
    ensures states[j][m'].log[index - 1] == states[i][m].log[index - 1]
    ensures HeldByQuorum(cfg, states[j], index, states[i][m].log[index - 1])
    ensures var s, entry := states[j], states[i][m].log[index - 1];
            |set x: nat | x < |s| && index <= |s[x].log| && s[x].log[index - 1] == entry| >= cfg.quorum
  {
    RunsAreSafe(cfg, states, i);
    RunsAreSafe(cfg, states, j);
    WhoHolds(states[j], index, states[i][m].log[index - 1]);
    RunsExtend(cfg, states, i, j);
    assert states[i][m].log <= states[j][m].log <= states[j][0].log;
    assert states[j][m'].log <= states[j][0].log;
    assert IsHeld(cfg, states[j], m', index);
  }

  lemma WhoHolds(s: Cluster, index: nat, entry: LogEntry)
    requires index >= 1
    ensures Holders(s, index, entry) == set x: nat | x < |s| && index <= |s[x].log| && s[x].log[index - 1] == entry
  {
  }

  /** In every state of every run no two nodes hold different entries at the same index. */
  lemma LogMatching(cfg: Config, states: seq<Cluster>, i: nat, a: nat, b: nat, k: nat)
    requires IsRun(cfg, states) && i < |states| && a < cfg.nodes && b < cfg.nodes
    requires k < |states[i][a].log| && k < |states[i][b].log|
    ensures states[i][a].log[k] == states[i][b].log[k]
  {
    RunsAreSafe(cfg, states, i);
    assert states[i][a].log <= states[i][0].log && states[i][b].log <= states[i][0].log;
  }

  // ---- Everything can be committed ---------------------------------------------------

  function EntriesOf(payloads: seq<nat>): (log: seq<LogEntry>)
    ensures |log| == |payloads| && forall i :: 0 <= i < |log| ==> log[i] == LogEntry(1, payloads[i])
  {
    seq(|payloads|, i requires 0 <= i < |payloads| => LogEntry(1, payloads[i]))
  }

  /** The leader and the other nodes below `reached` have the log; the nodes below `done` have committed it. */
  function Stage(cfg: Config, log: seq<LogEntry>, reached: nat, done: nat): (s: Cluster)
    ensures |s| == cfg.nodes
    ensures forall m :: 0 <= m < |s| ==>
              s[m] == Node(if m == 0 || m < reached then log else [], if m < done then |log| else 0)
  {
    seq(cfg.nodes, m requires 0 <= m < cfg.nodes =>
      Node(if m == 0 || m < reached then log else [], if m < done then |log| else 0))
  }

  lemma RunGoesOn(cfg: Config, states: seq<Cluster>, a: Action, s: Cluster)
    requires IsRun(cfg, states) && IsAction(cfg, a) && Next(cfg, states[|states| - 1], a) == Some(s) && |s| == cfg.nodes
    ensures IsRun(cfg, states + [s])
  {
    hide Next;
    var more := states + [s];
    assert IsStep(cfg, states[|states| - 1], s);
    forall i | 0 <= i < |more| - 1
      ensures IsStep(cfg, more[i], more[i + 1])
    {
      if i < |states| - 1 {
        assert IsStep(cfg, states[i], states[i + 1]);
      }
    }
  }

  /** First the leader appends everything. */
  lemma {:induction false} AppendAll(cfg: Config, payloads: seq<nat>) returns (states: seq<Cluster>)
    requires cfg.nodes >= 1 && |payloads| <= cfg.maxLog
    ensures IsRun(cfg, states) && states[|states| - 1] == Stage(cfg, EntriesOf(payloads), 1, 0)
  {
    if payloads == [] {
      states := [Initial(cfg)];
      assert Initial(cfg) == Stage(cfg, [], 1, 0);
      assert EntriesOf(payloads) == [];
    } else {
      var n := |payloads| - 1;
      states := AppendAll(cfg, payloads[..n]);
      var log, s := EntriesOf(payloads[..n]), Stage(cfg, EntriesOf(payloads), 1, 0);
      assert EntriesOf(payloads) == log + [LogEntry(1, payloads[n])];
      assert s == Stage(cfg, log, 1, 0)[0 := Node(EntriesOf(payloads), 0)];
      RunGoesOn(cfg, states, Append(payloads[n]), s);
      states := states + [s];
    }
  }

  /** Then every follower gets it. */
  lemma {:induction false} ReplicateAll(cfg: Config, payloads: seq<nat>, reached: nat) returns (states: seq<Cluster>)
    requires 0 < |payloads| <= cfg.maxLog && 1 <= reached <= cfg.nodes
    ensures IsRun(cfg, states) && states[|states| - 1] == Stage(cfg, EntriesOf(payloads), reached, 0)
    decreases reached
  {
    if reached == 1 {
      states := AppendAll(cfg, payloads);
    } else {
      var f, log := reached - 1, EntriesOf(payloads);
      states := ReplicateAll(cfg, payloads, f);
      var s := Stage(cfg, log, reached, 0);
      MergedMeaning(log, []);
      assert s == Stage(cfg, log, f, 0)[f := Node(log, 0)];
      RunGoesOn(cfg, states, Replicate(f), s);
      states := states + [s];
    }
  }

  function FirstNodes(n: nat): (s: set<nat>)
    ensures |s| == n && forall m: nat :: m in s <==> m < n
  {
    if n == 0 then {} else FirstNodes(n - 1) + {n - 1}
  }

  lemma AllHold(cfg: Config, log: seq<LogEntry>, done: nat)
    requires log != []
    ensures |Holders(Stage(cfg, log, cfg.nodes, done), |log|, log[|log| - 1])| == cfg.nodes
  {
    assert Holders(Stage(cfg, log, cfg.nodes, done), |log|, log[|log| - 1]) == FirstNodes(cfg.nodes);
  }

  /** Then every node commits it. */
  lemma {:induction false} CommitAll(cfg: Config, payloads: seq<nat>, done: nat) returns (states: seq<Cluster>)
    requires 0 < |payloads| <= cfg.maxLog && cfg.quorum <= cfg.nodes && 1 <= cfg.nodes && done <= cfg.nodes
    ensures IsRun(cfg, states) && states[|states| - 1] == Stage(cfg, EntriesOf(payloads), cfg.nodes, done)
    decreases done
  {
    if done == 0 {
      states := ReplicateAll(cfg, payloads, cfg.nodes);
    } else {
      var m, log := done - 1, EntriesOf(payloads);
      states := CommitAll(cfg, payloads, m);
      var s := Stage(cfg, log, cfg.nodes, done);
      AllHold(cfg, log, m);
      hide Holders;
      assert s == Stage(cfg, log, cfg.nodes, m)[m := Node(log, |log|)];
      RunGoesOn(cfg, states, Commit(m, |log|), s);
      states := states + [s];
    }
  }

  /**
   The model is not safe by doing nothing: as long as a quorum is no more than all nodes, any
   payloads that fit the bound can be appended, replicated everywhere and committed everywhere.
   */
  lemma EverythingCanBeCommitted(cfg: Config, payloads: seq<nat>) returns (states: seq<Cluster>, last: Cluster)
    requires 1 <= cfg.nodes && cfg.quorum <= cfg.nodes && |payloads| <= cfg.maxLog
    ensures IsRun(cfg, states) && last == states[|states| - 1] && |last| == cfg.nodes
    ensures forall m :: 0 <= m < cfg.nodes ==> last[m] == Node(EntriesOf(payloads), |payloads|)
  {
    if payloads == [] {
      states := AppendAll(cfg, payloads);
    } else {
      states := CommitAll(cfg, payloads, cfg.nodes);
    }
    last := states[|states| - 1];
  }
}
