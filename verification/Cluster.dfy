/** A cluster of nodes over one agreed log: every node applies entries at its own pace and by its
    own clock, takes and installs snapshots, and may restart with nothing. */
module Cluster {
  import opened Api
  import opened StoreSpec
  import opened Machine

  // ----- Clocks -----

  /** A store without the deadlines, the one thing local clocks write. */
  function EraseStore(s: Store): Store {
    s.(leases := map id | id in s.leases :: LeaseInfo(s.leases[id].ttl, 0))
  }

  function EraseClock(s: State): State {
    s.(store := EraseStore(s.store))
  }

  lemma {:induction false} OpsIgnoreDeadlines(s: Store, ops: seq<TxnOp>)
    ensures EraseStore(ApplyOps(s, ops)) == ApplyOps(EraseStore(s), ops)
    ensures ApplyOps(s, ops).leases == s.leases
  {
    if ops != [] {
      OpsIgnoreDeadlines(s, ops[..|ops| - 1]);
    }
  }

  lemma EffectIgnoresDeadlines(s: Store, op: Operation, now: int)
    ensures EraseStore(Effect(s, op, now)) == EraseStore(Effect(EraseStore(s), op, 0))
  {
    match op
    case Txn(_, _, _) =>
      assert Branch(s, op) == Branch(EraseStore(s), op) by { ConditionsIgnoreDeadlines(s, op.conditions); }
      OpsIgnoreDeadlines(s, Branch(s, op));
      OpsIgnoreDeadlines(EraseStore(s), Branch(s, op));
      assert EraseStore(EraseStore(s)) == EraseStore(s);
    case LeaseGrant(ttl) => GrantIgnoresDeadlines(s, ttl, now);
    case LeaseKeepAlive(id) => KeepAliveIgnoresDeadlines(s, id, now);
    case LeaseRevoke(id) => RevokeIgnoresDeadlines(s, {id});
    case LeaseExpiry(ids) => RevokeIgnoresDeadlines(s, IdSet(ids));
    case _ => EraseStoreTwice(s);
  }

  lemma EraseStoreTwice(s: Store)
    ensures EraseStore(EraseStore(s)) == EraseStore(s)
  {
    assert EraseStore(EraseStore(s)).leases == EraseStore(s).leases;
  }

  lemma GrantIgnoresDeadlines(s: Store, ttl: int, now: int)
    ensures EraseStore(Grant(s, ttl, now)) == EraseStore(Grant(EraseStore(s), ttl, 0))
  {
    assert EraseStore(Grant(s, ttl, now)).leases == EraseStore(Grant(EraseStore(s), ttl, 0)).leases;
  }

  lemma KeepAliveIgnoresDeadlines(s: Store, id: int, now: int)
    ensures EraseStore(KeepAlive(s, id, now)) == EraseStore(KeepAlive(EraseStore(s), id, 0))
  {
    assert EraseStore(KeepAlive(s, id, now)).leases == EraseStore(KeepAlive(EraseStore(s), id, 0)).leases;
  }

  lemma RevokeIgnoresDeadlines(s: Store, ids: set<int>)
    ensures EraseStore(RevokeLeases(s, ids)) == EraseStore(RevokeLeases(EraseStore(s), ids))
  {
    var l, r := EraseStore(RevokeLeases(s, ids)), EraseStore(RevokeLeases(EraseStore(s), ids));
    assert l.entries == r.entries;
    assert l.leases == r.leases;
  }

  lemma ConditionsIgnoreDeadlines(s: Store, conditions: seq<TxnCondition>)
    ensures AllMet(s, conditions) <==> AllMet(EraseStore(s), conditions)
  {
    assert forall c :: EvalCondition(s, c) <==> EvalCondition(EraseStore(s), c);
  }

  lemma AnswerIgnoresDeadlines(s: Store, op: Operation)
    ensures AnswerTo(s, op) == AnswerTo(EraseStore(s), op)
  {
    assert Data(s) == Data(EraseStore(s));
    if op.Txn? {
      ConditionsIgnoreDeadlines(s, op.conditions);
      var branch := Branch(s, op);
      forall i | 0 <= i < |branch| ensures OpResults(s, branch)[i] == OpResults(EraseStore(s), branch)[i] {
        OpsIgnoreDeadlines(s, branch[..i]);
      }
      assert OpResults(s, branch) == OpResults(EraseStore(s), branch);
    }
  }

  /** Two nodes that differ only in deadlines still do after the same command, whatever their
      clocks say, and they answer it alike: expiry acts through the log alone. */
  lemma ClocksDoNotMatter(s: State, t: State, c: Command, now: int, now': int)
    requires EraseClock(s) == EraseClock(t)
    ensures EraseClock(Step(s, c, now)) == EraseClock(Step(t, c, now'))
    ensures ReplyTo(s, c) == ReplyTo(t, c)
  {
    EffectIgnoresDeadlines(s.store, c.op, now);
    EffectIgnoresDeadlines(t.store, c.op, now');
    AnswerIgnoresDeadlines(s.store, c.op);
    AnswerIgnoresDeadlines(t.store, c.op);
    assert s.dedup == EraseClock(s).dedup == t.dedup;
    assert s.revision == EraseClock(s).revision == t.revision;
    assert s.crashed == EraseClock(s).crashed == t.crashed;
    assert s.store.entries == EraseClock(s).store.entries == t.store.entries;
  }

  // ----- Nodes, log and snapshots -----

  const SNAPSHOT_THRESHOLD := 100

  datatype LogEntry = Cmd(command: Command) | ConfigChange

  /** What happened to a node's snapshots, in order: it took one, it was given one, it lost its memory. */
  datatype Mark = Took(index: int) | Installed(index: int) | Restarted

  /** `pos` entries are applied; `marks` is everything that happened to the node's snapshots. */
  datatype Node = Node(state: State, pos: nat, lastSnapshot: int, marks: seq<Mark>)

  const FreshNode := Node(Init, 0, -1, [])

  /** A snapshot covers the log up to and including `index`. */
  datatype Snapshot = Snapshot(index: int, state: State)

  datatype Cluster = Cluster(log: seq<LogEntry>, nodes: map<int, Node>, snapshots: set<Snapshot>)

  datatype Action =
    | AppendEntry(entry: LogEntry)
    | Apply(node: int, now: int, encodes: bool)
    | Install(node: int, snapshot: Snapshot)
    | Restart(node: int)

  /** The gate and the threshold of `handleCommand` and `maybeSnapshot`, after the entry at `index`. */
  predicate SnapshotDue(lastSnapshot: int, index: int, encodes: bool) {
    lastSnapshot >= 0 && index - lastSnapshot >= SNAPSHOT_THRESHOLD && encodes
  }

  function ApplyNext(c: Cluster, id: int, now: int, encodes: bool): Cluster
    requires id in c.nodes && c.nodes[id].pos < |c.log|
  {
    var n := c.nodes[id];
    match c.log[n.pos]
    case ConfigChange => c.(nodes := c.nodes[id := n.(pos := n.pos + 1)])
    case Cmd(command) =>
      var next := Step(n.state, command, now);
      if !next.crashed && SnapshotDue(n.lastSnapshot, n.pos, encodes) then
        c.(nodes := c.nodes[id := Node(next, n.pos + 1, n.pos, n.marks + [Took(n.pos)])],
           snapshots := c.snapshots + {Snapshot(n.pos, next)})
      else
        c.(nodes := c.nodes[id := n.(state := next, pos := n.pos + 1)])
  }

  /** One action; one that is not possible leaves everything as it is. */
  function Do(c: Cluster, a: Action): Cluster {
    match a
    case AppendEntry(entry) => c.(log := c.log + [entry])
    case Apply(id, now, encodes) =>
      if id in c.nodes && c.nodes[id].pos < |c.log| then ApplyNext(c, id, now, encodes) else c
    case Install(id, snapshot) =>
      if Installs(c, a, id)
      then c.(nodes := c.nodes[id := Node(snapshot.state, snapshot.index + 1, snapshot.index,
                                          c.nodes[id].marks + [Installed(snapshot.index)])])
      else c
    case Restart(id) =>
      if id in c.nodes then c.(nodes := c.nodes[id := FreshNode.(marks := c.nodes[id].marks + [Restarted])]) else c
  }

  /** The action gives node `id` a snapshot that is there to be given. */
  predicate Installs(c: Cluster, a: Action, id: int) {
    a.Install? && a.node == id && id in c.nodes && a.snapshot in c.snapshots && a.snapshot.index >= 0
  }

  function Execute(c: Cluster, actions: seq<Action>): Cluster {
    if actions == [] then c else Do(Execute(c, actions[..|actions| - 1]), actions[|actions| - 1])
  }

  lemma {:induction false} ExecuteConcat(c: Cluster, a: seq<Action>, b: seq<Action>)
    ensures Execute(c, a + b) == Execute(Execute(c, a), b)
  {
    if b == [] {
      assert a + b == a;
    } else {
      ExecuteConcat(c, a, b[..|b| - 1]);
      assert (a + b)[..|a + b| - 1] == a + b[..|b| - 1];
    }
  }

  // ----- Every node is a replay of its part of the log -----

  /** The whole-log replay, deadlines erased. */
  function Replay(log: seq<LogEntry>): State {
    if log == [] then Init
    else match log[|log| - 1]
      case ConfigChange => Replay(log[..|log| - 1])
      case Cmd(command) => EraseClock(Step(Replay(log[..|log| - 1]), command, 0))
  }

  ghost predicate NodeFollows(log: seq<LogEntry>, n: Node) {
    n.pos <= |log| && EraseClock(n.state) == Replay(log[..n.pos])
  }

  ghost predicate SnapshotFollows(log: seq<LogEntry>, s: Snapshot) {
    0 <= s.index < |log| && EraseClock(s.state) == Replay(log[..s.index + 1])
  }

  ghost predicate Follows(c: Cluster) {
    && (forall id :: id in c.nodes ==> NodeFollows(c.log, c.nodes[id]))
    && (forall s :: s in c.snapshots ==> SnapshotFollows(c.log, s))
  }

  /** All nodes empty; any snapshots left over from before come from prefixes of the log. */
  ghost predicate Starts(c: Cluster) {
    && (forall id :: id in c.nodes ==> c.nodes[id] == FreshNode)
    && (forall s :: s in c.snapshots ==> SnapshotFollows(c.log, s))
  }

  lemma ReplayNext(log: seq<LogEntry>, n: Node, now: int)
    requires NodeFollows(log, n) && n.pos < |log|
    ensures match log[n.pos]
            case ConfigChange => Replay(log[..n.pos + 1]) == EraseClock(n.state)
            case Cmd(command) => Replay(log[..n.pos + 1]) == EraseClock(Step(n.state, command, now))
  {
    assert log[..n.pos + 1][..n.pos] == log[..n.pos];
    match log[n.pos]
    case ConfigChange =>
    case Cmd(command) =>
      assert EraseClock(EraseClock(n.state)) == EraseClock(n.state);
      ClocksDoNotMatter(n.state, Replay(log[..n.pos]), command, now, 0);
  }

  lemma AppendFollows(c: Cluster, entry: LogEntry)
    requires Follows(c)
    ensures Follows(c.(log := c.log + [entry]))
  {
    var log := c.log + [entry];
    forall id | id in c.nodes ensures NodeFollows(log, c.nodes[id]) {
      assert log[..c.nodes[id].pos] == c.log[..c.nodes[id].pos];
    }
    forall s | s in c.snapshots ensures SnapshotFollows(log, s) {
      assert log[..s.index + 1] == c.log[..s.index + 1];
    }
  }

  lemma DoFollows(c: Cluster, a: Action)
    requires Follows(c)
    ensures Follows(Do(c, a))
  {
    match a
    case AppendEntry(entry) => AppendFollows(c, entry);
    case Apply(id, now, encodes) =>
      if id in c.nodes && c.nodes[id].pos < |c.log| {
        ReplayNext(c.log, c.nodes[id], now);
      }
    case Install(id, snapshot) =>
    case Restart(id) => assert EraseClock(Init) == Init;
  }

  lemma {:induction false} ExecuteFollows(c: Cluster, actions: seq<Action>)
    requires Starts(c)
    ensures Follows(Execute(c, actions))
  {
    if actions == [] {
      assert EraseClock(Init) == Init;
    } else {
      ExecuteFollows(c, actions[..|actions| - 1]);
      DoFollows(Execute(c, actions[..|actions| - 1]), actions[|actions| - 1]);
    }
  }

  /** In every run, with any mix of clocks, snapshots, restarts and catching up, two nodes that
      have got equally far agree on data, owners, leases, lease counter, duplicate table and
      revision, and answer the next command alike. */
  lemma ReplicasAgree(c: Cluster, actions: seq<Action>, a: int, b: int, next: Command)
    requires Starts(c)
    requires var e := Execute(c, actions); a in e.nodes && b in e.nodes && e.nodes[a].pos == e.nodes[b].pos
    ensures var e := Execute(c, actions);
            && EraseClock(e.nodes[a].state) == EraseClock(e.nodes[b].state)
            && ReplyTo(e.nodes[a].state, next) == ReplyTo(e.nodes[b].state, next)
  {
    ExecuteFollows(c, actions);
    var e := Execute(c, actions);
    assert NodeFollows(e.log, e.nodes[a]) && NodeFollows(e.log, e.nodes[b]);
    ClocksDoNotMatter(e.nodes[a].state, e.nodes[b].state, next, 0, 0);
  }

  /** The commands of a log, with clock readings nobody will look at. */
  function CommandsOf(log: seq<LogEntry>): seq<Timed> {
    if log == [] then []
    else CommandsOf(log[..|log| - 1])
         + match log[|log| - 1] case Cmd(command) => [Timed(command, 0)] case ConfigChange => []
  }

  lemma {:induction false} ReplayIsRun(log: seq<LogEntry>)
    ensures Replay(log) == EraseClock(Run(Init, CommandsOf(log)))
  {
    if log == [] {
      assert EraseClock(Init) == Init;
    } else {
      var front := log[..|log| - 1];
      ReplayIsRun(front);
      match log[|log| - 1]
      case ConfigChange => assert CommandsOf(log) == CommandsOf(front);
      case Cmd(command) =>
        assert CommandsOf(log)[..|CommandsOf(log)| - 1] == CommandsOf(front);
        assert EraseClock(Replay(front)) == Replay(front) by { EraseTwice(Run(Init, CommandsOf(front))); }
        ClocksDoNotMatter(Replay(front), Run(Init, CommandsOf(front)), command, 0, 0);
    }
  }

  lemma EraseTwice(s: State)
    ensures EraseClock(EraseClock(s)) == EraseClock(s)
  {
    assert EraseStore(EraseStore(s.store)).leases == EraseStore(s.store).leases;
  }

  /** However a node got where it is, by entries, snapshots or both, its state is that of running
      all the commands of its part of the log from the start, deadlines aside. */
  lemma EveryNodeIsARun(c: Cluster, actions: seq<Action>, id: int)
    requires Starts(c) && id in Execute(c, actions).nodes
    ensures var e := Execute(c, actions); var n := e.nodes[id];
            n.pos <= |e.log| && EraseClock(n.state) == EraseClock(Run(Init, CommandsOf(e.log[..n.pos])))
  {
    ExecuteFollows(c, actions);
    var e := Execute(c, actions);
    assert NodeFollows(e.log, e.nodes[id]);
    ReplayIsRun(e.log[..e.nodes[id].pos]);
  }

  // ----- When snapshots are taken -----

  ghost predicate GatesShut(c: Cluster) {
    c.snapshots == {} && forall id :: id in c.nodes ==> c.nodes[id].lastSnapshot == -1
  }

  lemma {:induction false} GatesStayShut(c: Cluster, actions: seq<Action>)
    requires GatesShut(c)
    ensures GatesShut(Execute(c, actions))
  {
    if actions != [] {
      GatesStayShut(c, actions[..|actions| - 1]);
    }
  }

  lemma {:induction false} SnapshotsAreKept(c: Cluster, actions: seq<Action>)
    ensures c.snapshots <= Execute(c, actions).snapshots
  {
    if actions != [] {
      SnapshotsAreKept(c, actions[..|actions| - 1]);
    }
  }

  /** A cluster ever has a snapshot exactly when one was there at the start: fresh nodes never
      take the first one, however long the log grows. */
  lemma NoFirstSnapshot(c: Cluster, actions: seq<Action>)
    requires Starts(c)
    ensures Execute(c, actions).snapshots == {} <==> c.snapshots == {}
  {
    SnapshotsAreKept(c, actions);
    if c.snapshots == {} {
      GatesStayShut(c, actions);
    }
  }

  /** A node takes a snapshot only on top of one it has, never first and never right after losing its
      memory, and at least the threshold later. Its memory of the last one is the last mark. */
  ghost predicate Spaced(n: Node) {
    && (forall j :: 0 <= j < |n.marks| && n.marks[j].Took? ==>
          0 < j && !n.marks[j - 1].Restarted? && n.marks[j - 1].index + SNAPSHOT_THRESHOLD <= n.marks[j].index)
    && n.lastSnapshot == LastMark(n.marks)
    && n.lastSnapshot < n.pos
  }

  function LastMark(marks: seq<Mark>): int {
    if marks == [] || marks[|marks| - 1].Restarted? then -1 else marks[|marks| - 1].index
  }

  lemma DoSpaced(c: Cluster, a: Action)
    requires forall id :: id in c.nodes ==> Spaced(c.nodes[id])
    ensures forall id :: id in Do(c, a).nodes ==> Spaced(Do(c, a).nodes[id])
  {
  }

  /** The `m`-th snapshot taken on top of one, with no install and no restart between, is at least
      `m` thresholds later. */
  lemma {:induction false} SpacedChain(n: Node, i: nat, m: nat)
    requires Spaced(n) && i + m < |n.marks| && !n.marks[i].Restarted?
    requires forall j :: i < j <= i + m ==> n.marks[j].Took?
    ensures !n.marks[i + m].Restarted? && n.marks[i].index + m * SNAPSHOT_THRESHOLD <= n.marks[i + m].index
  {
    if m > 0 {
      SpacedChain(n, i, m - 1);
    }
  }

  lemma {:induction false} SnapshotsSpaced(c: Cluster, actions: seq<Action>)
    requires Starts(c)
    ensures forall id :: id in Execute(c, actions).nodes ==> Spaced(Execute(c, actions).nodes[id])
  {
    if actions != [] {
      SnapshotsSpaced(c, actions[..|actions| - 1]);
      DoSpaced(Execute(c, actions[..|actions| - 1]), actions[|actions| - 1]);
    }
  }

  lemma {:induction false} SameNodes(c: Cluster, actions: seq<Action>)
    ensures Execute(c, actions).nodes.Keys == c.nodes.Keys
  {
    if actions != [] {
      SameNodes(c, actions[..|actions| - 1]);
    }
  }

  /** Action `k` gave node `id` a snapshot, and the node has not restarted since. */
  ghost predicate InstalledAt(c: Cluster, actions: seq<Action>, id: int, k: nat) {
    && k < |actions| && Installs(Execute(c, actions[..k]), actions[k], id)
    && forall m :: k < m < |actions| ==> actions[m] != Restart(id)
  }

  ghost predicate HasInstalled(c: Cluster, actions: seq<Action>, id: int) {
    exists k :: InstalledAt(c, actions, id, k)
  }

  lemma InstalledFront(c: Cluster, actions: seq<Action>, id: int)
    requires actions != []
    ensures var front, last := actions[..|actions| - 1], actions[|actions| - 1];
            HasInstalled(c, actions, id)
            <==> Installs(Execute(c, front), last, id) || (last != Restart(id) && HasInstalled(c, front, id))
  {
    var n := |actions| - 1;
    var front := actions[..n];
    forall k: nat | k < n
      ensures InstalledAt(c, actions, id, k) <==> actions[n] != Restart(id) && InstalledAt(c, front, id, k)
    {
      assert front[..k] == actions[..k];
      assert forall m :: 0 <= m < n ==> front[m] == actions[m];
    }
    assert InstalledAt(c, actions, id, n) <==> Installs(Execute(c, front), actions[n], id);
  }

  /** A node's gate is open exactly when it was given a snapshot since it last started; until then
      it takes none, whatever snapshots the cluster holds. */
  lemma {:induction false} GateOpenIff(c: Cluster, actions: seq<Action>, id: int)
    requires Starts(c) && id in c.nodes
    ensures id in Execute(c, actions).nodes
    ensures var last := Execute(c, actions).nodes[id].lastSnapshot;
            if HasInstalled(c, actions, id) then last >= 0 else last == -1
  {
    SameNodes(c, actions);
    if actions != [] {
      GateOpenIff(c, actions[..|actions| - 1], id);
      InstalledFront(c, actions, id);
    }
  }

  /** Action `k` made node `id` apply a command, with encoding possible and no crash. */
  ghost predicate AppliesCommandAt(c: Cluster, actions: seq<Action>, id: int, k: nat) {
    && k < |actions| && actions[k].Apply? && actions[k].node == id && actions[k].encodes
    && var e := Execute(c, actions[..k]);
       && id in e.nodes && e.nodes[id].pos < |e.log| && e.log[e.nodes[id].pos].Cmd?
       && !Step(e.nodes[id].state, e.log[e.nodes[id].pos].command, actions[k].now).crashed
  }

  /** In every run, after every applied command, a node is less than a threshold's worth of entries
      past its last snapshot exactly when it was given one since it started, or the log is still
      shorter than the threshold. */
  lemma SnapshotKeepsUpIff(c: Cluster, actions: seq<Action>, id: int, k: nat)
    requires Starts(c) && AppliesCommandAt(c, actions, id, k)
    ensures var e := Execute(c, actions[..k + 1]);
            && id in e.nodes
            && (e.nodes[id].pos - 1 - e.nodes[id].lastSnapshot < 100
                <==> HasInstalled(c, actions[..k], id) || e.nodes[id].pos < 100)
  {
    assert actions[..k + 1][..k] == actions[..k];
    SameNodes(c, actions[..k]);
    GateOpenIff(c, actions[..k], id);
  }

  const READ := Command(Get(""), 0, 0)

  function Reads(n: nat): seq<LogEntry> {
    seq(n, _ => Cmd(READ))
  }

  function Applying(id: int, n: nat): seq<Action> {
    seq(n, _ => Apply(id, 0, true))
  }

  lemma {:induction false} ApplyReads(c: Cluster, id: int, n: nat)
    requires id in c.nodes && c.nodes[id] == FreshNode && n <= |c.log| && c.log == Reads(|c.log|)
    ensures Execute(c, Applying(id, n)) == c.(nodes := c.nodes[id := FreshNode.(pos := n)])
  {
    if n == 0 {
      assert c.nodes[id := FreshNode.(pos := 0)] == c.nodes;
    } else {
      ApplyReads(c, id, n - 1);
      assert Applying(id, n)[..n - 1] == Applying(id, n - 1);
      assert c.log[n - 1] == Cmd(READ);
      assert Step(Init, READ, 0) == Init;
    }
  }

  /** A node that is never given a snapshot falls behind without bound, though the cluster has one. */
  lemma ShutGateFallsBehind(n: nat)
    requires n > 0
    ensures exists c: Cluster, actions, id :: Starts(c) && c.snapshots != {} && id in Execute(c, actions).nodes
              && Execute(c, actions).nodes[id].pos == n && Execute(c, actions).nodes[id].marks == []
  {
    var log := Reads(n);
    assert log[..1][..0] == [];
    assert Replay(log[..1]) == EraseClock(Step(Init, READ, 0));
    var snapshot := Snapshot(0, Init);
    assert EraseClock(Init) == Init;
    assert SnapshotFollows(log, snapshot);
    var c := Cluster(log, map[1 := FreshNode], {snapshot});
    assert snapshot in c.snapshots;
    ApplyReads(c, 1, n);
    assert Execute(c, Applying(1, n)).nodes[1].pos == n;
  }
}
