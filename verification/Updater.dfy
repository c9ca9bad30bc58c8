/** What the apply loop is fed, and what it makes of it: committed commands, config changes and
    snapshots, in whatever order its channels deliver them. */
module Updater {
  import opened Text
  import opened Api
  import opened StoreSpec
  import opened Views
  import opened Machine
  import opened MaterialisedView
  import opened IndexedStore
  import Cluster

  /** What is stored in a Raft snapshot. */
  datatype KvSnapshot = KvSnapshot(store: StoreSnapshot, dedup: map<int, int>, revision: int)

  /** The snapshot holds the whole machine state `s`, with its two lease indexes in agreement. */
  ghost predicate SnapshotOf(snap: KvSnapshot, s: State) {
    && Consistent(snap.store) && Describes(snap.store, s.store)
    && snap.dedup == s.dedup && snap.revision == s.revision && !s.crashed
  }

  /** `encodes` is whether a snapshot taken right after the command could be encoded; `decoded` is
      nothing when the snapshot that arrived does not decode. */
  datatype Input =
    | Committed(index: int, entry: Timed, encodes: bool)
    | ConfigChange
    | SnapshotReady(index: int, decoded: Option<KvSnapshot>)

  /** A snapshot that arrives was taken of some state. */
  ghost predicate Acceptable(input: Input) {
    input.SnapshotReady? && input.decoded.Some? ==> exists s :: SnapshotOf(input.decoded.value, s)
  }

  /** Where the loop stands: the machine's state and the index of the last snapshot it knows. */
  datatype Point = Point(state: State, lastSnapshot: int)

  ghost predicate StepsTo(p: Point, input: Input, p': Point) {
    match input
    case Committed(index, e, encodes) =>
      && p'.state == Step(p.state, e.command, e.now) && !p'.state.crashed
      && p'.lastSnapshot == if Cluster.SnapshotDue(p.lastSnapshot, index, encodes) then index else p.lastSnapshot
    case ConfigChange => p' == p
    case SnapshotReady(index, None) => p' == p
    case SnapshotReady(index, Some(snap)) => SnapshotOf(snap, p'.state) && p'.lastSnapshot == index
  }

  /** What an input gives rise to: a reply and events for a command, nothing for the others. */
  ghost predicate Yields(p: Point, input: Input, reply: Option<Reply>, events: Events) {
    match input
    case Committed(_, e, _) => reply.Some? && reply == ReplyTo(p.state, e.command) && Emits(p.state, e.command, events)
    case _ => reply == None && events == []
  }

  /** A run of the loop over the first `n` inputs. */
  ghost predicate Account(points: seq<Point>, inputs: seq<Input>, n: nat, replies: seq<Option<Reply>>,
                          emitted: seq<Events>) {
    && n <= |inputs| && |points| == n + 1 && |replies| == |emitted| == n
    && (forall i :: 0 <= i < n ==> StepsTo(points[i], inputs[i], points[i + 1]))
    && (forall i :: 0 <= i < n ==> Yields(points[i], inputs[i], replies[i], emitted[i]))
  }

  lemma AccountNext(points: seq<Point>, inputs: seq<Input>, n: nat, replies: seq<Option<Reply>>, emitted: seq<Events>,
                    p: Point, reply: Option<Reply>, events: Events)
    requires Account(points, inputs, n, replies, emitted) && n < |inputs|
    requires StepsTo(points[n], inputs[n], p) && Yields(points[n], inputs[n], reply, events)
    ensures Account(points + [p], inputs, n + 1, replies + [reply], emitted + [events])
    ensures Flatten(emitted + [events]) == Flatten(emitted) + events
  {
    assert (emitted + [events])[..n] == emitted;
  }

  // ----- Between snapshots the loop runs a log -----

  function Commands(inputs: seq<Input>): seq<Timed> {
    if inputs == [] then []
    else
      var last := inputs[|inputs| - 1];
      Commands(inputs[..|inputs| - 1]) + if last.Committed? then [last.entry] else []
  }

  function CommandEvents(inputs: seq<Input>, emitted: seq<Events>): seq<Events>
    requires |inputs| == |emitted|
  {
    if inputs == [] then []
    else
      var n := |inputs| - 1;
      CommandEvents(inputs[..n], emitted[..n]) + if inputs[n].Committed? then [emitted[n]] else []
  }

  /** No snapshot replaces the state. */
  ghost predicate NoInstall(inputs: seq<Input>) {
    forall i :: 0 <= i < |inputs| && inputs[i].SnapshotReady? ==> inputs[i].decoded.None?
  }

  ghost predicate AllKnown(inputs: seq<Input>) {
    forall i :: 0 <= i < |inputs| && inputs[i].Committed? ==> KnownKinds(inputs[i].entry.command)
  }

  lemma LegalNext(s: State, log: seq<Timed>, emitted: seq<Events>, e: Timed, events: Events)
    requires LegalEvents(s, log, emitted) && Emits(Run(s, log), e.command, events)
    ensures LegalEvents(s, log + [e], emitted + [events])
    ensures Run(s, log + [e]) == Step(Run(s, log), e.command, e.now)
    ensures Flatten(emitted + [events]) == Flatten(emitted) + events
  {
    assert (log + [e])[..|log|] == log;
    assert (emitted + [events])[..|emitted|] == emitted;
    forall i | 0 <= i < |log| ensures Emits(Run(s, (log + [e])[..i]), log[i].command, emitted[i]) {
      assert (log + [e])[..i] == log[..i];
    }
  }

  lemma QuietStep(start: State, log: seq<Timed>, emitted: seq<Events>, p: Point, input: Input, p': Point,
                  reply: Option<Reply>, events: Events)
    requires p.state == Run(start, log) && LegalEvents(start, log, emitted)
    requires StepsTo(p, input, p') && Yields(p, input, reply, events) && (input.SnapshotReady? ==> input.decoded.None?)
    ensures var log' := log + if input.Committed? then [input.entry] else [];
            var emitted' := emitted + if input.Committed? then [events] else [];
            && p'.state == Run(start, log') && LegalEvents(start, log', emitted')
            && Flatten(emitted') == Flatten(emitted) + events
  {
    if input.Committed? {
      LegalNext(start, log, emitted, input.entry, events);
    } else {
      assert log + [] == log && emitted + [] == emitted;
    }
  }

  lemma AccountFront(points: seq<Point>, inputs: seq<Input>, replies: seq<Option<Reply>>, emitted: seq<Events>, n: nat)
    requires Account(points, inputs, |inputs|, replies, emitted) && n <= |inputs|
    ensures Account(points[..n + 1], inputs[..n], n, replies[..n], emitted[..n])
  {
    forall i | 0 <= i < n
      ensures StepsTo(points[..n + 1][i], inputs[..n][i], points[..n + 1][i + 1])
      ensures Yields(points[..n + 1][i], inputs[..n][i], replies[..n][i], emitted[..n][i])
    {
    }
  }

  /** With no install among its inputs, whatever the config changes, the loop runs the commands as a
      log of the machine, and emits events that are legal for it. */
  lemma {:induction false} QuietRun(points: seq<Point>, inputs: seq<Input>, replies: seq<Option<Reply>>,
                                    emitted: seq<Events>)
    requires Account(points, inputs, |inputs|, replies, emitted) && NoInstall(inputs)
    ensures points[|inputs|].state == Run(points[0].state, Commands(inputs))
    ensures LegalEvents(points[0].state, Commands(inputs), CommandEvents(inputs, emitted))
    ensures Flatten(CommandEvents(inputs, emitted)) == Flatten(emitted)
  {
    if inputs != [] {
      var n := |inputs| - 1;
      AccountFront(points, inputs, replies, emitted, n);
      QuietRun(points[..n + 1], inputs[..n], replies[..n], emitted[..n]);
      var log, events := Commands(inputs[..n]), CommandEvents(inputs[..n], emitted[..n]);
      assert points[n].state == Run(points[0].state, log) && LegalEvents(points[0].state, log, events);
      QuietStep(points[0].state, log, events, points[n], inputs[n], points[n + 1], replies[n], emitted[n]);
    }
  }

  lemma {:induction false} CommandsKnown(inputs: seq<Input>)
    requires AllKnown(inputs)
    ensures forall i :: 0 <= i < |Commands(inputs)| ==> KnownKinds(Commands(inputs)[i].command)
  {
    if inputs != [] {
      CommandsKnown(inputs[..|inputs| - 1]);
    }
  }

  /** Then the events turn the data before into the data after. */
  lemma QuietView(points: seq<Point>, inputs: seq<Input>, replies: seq<Option<Reply>>, emitted: seq<Events>)
    requires Account(points, inputs, |inputs|, replies, emitted) && NoInstall(inputs)
    requires AllKnown(inputs)
    ensures ApplyEvents(Data(points[0].state.store), Flatten(emitted)) == Data(points[|inputs|].state.store)
  {
    QuietRun(points, inputs, replies, emitted);
    CommandsKnown(inputs);
    ViewFollowsStore(points[0].state, Commands(inputs), CommandEvents(inputs, emitted));
  }

  // ----- The loop is a node of the cluster -----

  ghost predicate NodeAt(c: Cluster.Cluster, id: int, p: Point) {
    id in c.nodes && c.nodes[id].state == p.state && c.nodes[id].lastSnapshot == p.lastSnapshot
  }

  /** The input is the next one Raft owes the node: its next log entry, or a snapshot of the cluster. */
  ghost predicate Owed(c: Cluster.Cluster, id: int, input: Input, p': Point) {
    id in c.nodes && match input
      case Committed(index, e, _) => index == c.nodes[id].pos < |c.log| && c.log[index] == Cluster.Cmd(e.command)
      case ConfigChange => c.nodes[id].pos < |c.log| && c.log[c.nodes[id].pos].ConfigChange?
      case SnapshotReady(index, None) => true
      case SnapshotReady(index, Some(_)) => index >= 0 && Cluster.Snapshot(index, p'.state) in c.snapshots
  }

  function ActionFor(id: int, input: Input, p': Point): seq<Cluster.Action> {
    match input
    case Committed(_, e, encodes) => [Cluster.Apply(id, e.now, encodes)]
    case ConfigChange => [Cluster.Apply(id, 0, false)]
    case SnapshotReady(index, None) => []
    case SnapshotReady(index, Some(_)) => [Cluster.Install(id, Cluster.Snapshot(index, p'.state))]
  }

  /** Every turn of the loop is a step of the cluster. */
  lemma StepIsClusterStep(c: Cluster.Cluster, id: int, p: Point, input: Input, p': Point)
    requires NodeAt(c, id, p) && StepsTo(p, input, p') && Owed(c, id, input, p')
    ensures NodeAt(Cluster.Execute(c, ActionFor(id, input, p')), id, p')
  {
    var actions := ActionFor(id, input, p');
    if actions != [] {
      assert actions[..0] == [];
      assert Cluster.Execute(c, actions) == Cluster.Do(c, actions[0]);
    }
  }

  /** The log growing and other nodes doing things. */
  ghost predicate Elsewhere(actions: seq<Cluster.Action>, id: int) {
    forall i :: 0 <= i < |actions| ==> actions[i].AppendEntry? || actions[i].node != id
  }

  lemma {:induction false} ElsewhereKeeps(c: Cluster.Cluster, id: int, p: Point, actions: seq<Cluster.Action>)
    requires NodeAt(c, id, p) && Elsewhere(actions, id)
    ensures NodeAt(Cluster.Execute(c, actions), id, p)
  {
    if actions != [] {
      ElsewhereKeeps(c, id, p, actions[..|actions| - 1]);
    }
  }

  /** The cluster's run: before the loop takes input `i`, `others[i]` happens elsewhere. */
  function Interleaved(id: int, others: seq<seq<Cluster.Action>>, inputs: seq<Input>,
                       points: seq<Point>): seq<Cluster.Action>
    requires |others| == |inputs| && |points| == |inputs| + 1
  {
    if inputs == [] then []
    else
      var n := |inputs| - 1;
      Interleaved(id, others[..n], inputs[..n], points[..n + 1]) + others[n] + ActionFor(id, inputs[n], points[n + 1])
  }

  /** Each input is owed to the node when it comes. */
  ghost predicate Served(c: Cluster.Cluster, id: int, others: seq<seq<Cluster.Action>>, inputs: seq<Input>,
                         points: seq<Point>)
    requires |others| == |inputs| && |points| == |inputs| + 1
  {
    forall i :: 0 <= i < |inputs| ==>
      && Elsewhere(others[i], id)
      && var before := Interleaved(id, others[..i], inputs[..i], points[..i + 1]);
         Owed(Cluster.Execute(c, before + others[i]), id, inputs[i], points[i + 1])
  }

  lemma ServedFront(c: Cluster.Cluster, id: int, others: seq<seq<Cluster.Action>>, inputs: seq<Input>,
                    points: seq<Point>, n: nat)
    requires |others| == |inputs| && |points| == |inputs| + 1 && Served(c, id, others, inputs, points) && n <= |inputs|
    ensures Served(c, id, others[..n], inputs[..n], points[..n + 1])
  {
    forall i | 0 <= i < n
      ensures others[..n][..i] == others[..i] && inputs[..n][..i] == inputs[..i]
      ensures points[..n + 1][..i + 1] == points[..i + 1]
    {
    }
  }

  /** In every interleaving with the rest of the cluster, the loop stays where the cluster model has
      its node. */
  lemma {:induction false} LoopIsClusterNode(c: Cluster.Cluster, id: int, others: seq<seq<Cluster.Action>>,
                                             inputs: seq<Input>, points: seq<Point>, replies: seq<Option<Reply>>,
                                             emitted: seq<Events>)
    requires Account(points, inputs, |inputs|, replies, emitted) && |others| == |inputs|
    requires NodeAt(c, id, points[0]) && Served(c, id, others, inputs, points)
    ensures NodeAt(Cluster.Execute(c, Interleaved(id, others, inputs, points)), id, points[|inputs|])
  {
    if inputs != [] {
      var n := |inputs| - 1;
      var before := Interleaved(id, others[..n], inputs[..n], points[..n + 1]);
      assert NodeAt(Cluster.Execute(c, before), id, points[n]) by {
        AccountFront(points, inputs, replies, emitted, n);
        ServedFront(c, id, others, inputs, points, n);
        LoopIsClusterNode(c, id, others[..n], inputs[..n], points[..n + 1], replies[..n], emitted[..n]);
      }
      LoopTurn(c, id, before, others[n], points[n], inputs[n], points[n + 1]);
    }
  }

  lemma LoopTurn(c: Cluster.Cluster, id: int, before: seq<Cluster.Action>, others: seq<Cluster.Action>, p: Point,
                 input: Input, p': Point)
    requires NodeAt(Cluster.Execute(c, before), id, p) && Elsewhere(others, id)
    requires StepsTo(p, input, p') && Owed(Cluster.Execute(c, before + others), id, input, p')
    ensures NodeAt(Cluster.Execute(c, before + others + ActionFor(id, input, p')), id, p')
  {
    Cluster.ExecuteConcat(c, before, others);
    ElsewhereKeeps(Cluster.Execute(c, before), id, p, others);
    Cluster.ExecuteConcat(c, before + others, ActionFor(id, input, p'));
    StepIsClusterStep(Cluster.Execute(c, before + others), id, p, input, p');
  }

  /** So whatever mix of entries and snapshots a loop was fed in a cluster run, it ends in the state of
      running all commands of its part of the log from the start, deadlines aside. */
  lemma LoopStateIsARun(c: Cluster.Cluster, id: int, others: seq<seq<Cluster.Action>>,
                        inputs: seq<Input>, points: seq<Point>, replies: seq<Option<Reply>>, emitted: seq<Events>)
    requires Account(points, inputs, |inputs|, replies, emitted) && |others| == |inputs|
    requires Cluster.Starts(c) && NodeAt(c, id, points[0]) && Served(c, id, others, inputs, points)
    ensures var e := Cluster.Execute(c, Interleaved(id, others, inputs, points));
            && id in e.nodes && e.nodes[id].pos <= |e.log|
            && Cluster.EraseClock(points[|inputs|].state)
              == Cluster.EraseClock(Run(Init, Cluster.CommandsOf(e.log[..e.nodes[id].pos])))
  {
    LoopIsClusterNode(c, id, others, inputs, points, replies, emitted);
    Cluster.EveryNodeIsARun(c, Interleaved(id, others, inputs, points), id);
  }
}
