/** The key-value service object: the apply loop's handling of one committed command and of one
    snapshot, over the real indexes, ring buffer and channels. Each method is proved to do to the
    object what the state machine says. */
module Service {
  import opened Text
  import opened Api
  import opened StoreSpec
  import opened Views
  import opened Machine
  import opened MaterialisedView
  import opened Collections
  import opened IndexedStore
  import opened Watch
  import opened Updater
  import Cluster

  const EVENT_BUFFER_SIZE := 1000

  /** A channel of capacity one to a waiting request handler. */
  class CommitChan {
    ghost const index: int  // the log index it was opened for
    var buf: seq<Reply>
    var closed: bool

    constructor (ghost index: int)
      ensures this.index == index && buf == [] && !closed
    {
      this.index := index;
      buf, closed := [], false;
    }

    /** Sending must neither panic on a closed channel nor block on a full one. */
    method Send(r: Reply)
      requires !closed && |buf| < 1
      modifies `buf
      ensures buf == old(buf) + [r]
    {
      buf := buf + [r];
    }

    method Close()
      requires !closed
      modifies `closed
      ensures closed
    {
      closed := true;
    }
  }

  function OfferAll(subs: map<int, Sub<WatchEvent>>, e: WatchEvent): map<int, Sub<WatchEvent>> {
    map id | id in subs :: Offer(subs[id], e.key, e)
  }

  /** Every subscriber is offered the events one after the other. */
  function FanOut(subs: map<int, Sub<WatchEvent>>, events: seq<WatchEvent>): map<int, Sub<WatchEvent>> {
    if events == [] then subs else OfferAll(FanOut(subs, events[..|events| - 1]), events[|events| - 1])
  }

  class KVService {
    const ds: DataStore
    const hub: Hub
    var lastRequestIdPerClient: map<int, int>
    var currentRevision: int
    var commitSubs: map<int, CommitChan>
    var lastSnapshotIndex: int
    ghost var chans: set<CommitChan>  // the channels waiting in `commitSubs`

    /** The parts are valid, and every waiting channel is open, empty and for one index only. */
    ghost predicate Valid()
      reads this, ds, ds.cells, hub, hub.buffer, chans
    {
      ds.Valid() && hub.Valid() && SubsValid()
    }

    ghost predicate SubsValid()
      reads `commitSubs, `chans, chans
    {
      forall i :: i in commitSubs ==>
        commitSubs[i] in chans && commitSubs[i].index == i && !commitSubs[i].closed && commitSubs[i].buf == []
    }

    /** The state machine's view of the service. */
    ghost function Model(): State
      reads this, ds
    {
      State(ds.view, lastRequestIdPerClient, currentRevision, false)
    }

    constructor ()
      ensures Valid() && Model() == Init && commitSubs.Keys == {} && lastSnapshotIndex == -1
      ensures hub.buffer.history == [] && hub.buffer.size == 1000 && hub.subs.Keys == {}
    {
      ds := new DataStore();
      hub := new Hub(EVENT_BUFFER_SIZE);
      lastRequestIdPerClient, currentRevision, commitSubs, lastSnapshotIndex, chans := map[], 0, map[], -1, {};
    }

    // ----- Commands: the store -----

    method ReadAnswer(op: Operation) returns (answer: Answer)
      requires ds.Valid() && (op.Get? || op.List?)
      ensures answer == AnswerTo(ds.view, op)
    {
      ds.ViewFacts();
      answer := NoAnswer;
      if op.Get? {
        var v, ok := ds.Get(op.key);
        answer := answer.(value := v, found := ok);
      } else if op.limit > 0 {
        var pairs, nextKey := ds.ListPaged(op.prefix, op.limit, op.keyAfter);
        answer := answer.(pairs := pairs, value := nextKey);
      } else {
        var pairs := ds.List(op.prefix);
        answer := answer.(pairs := pairs);
      }
    }

    method RevokeAll(ids: seq<int>) returns (pairs: map<string, string>)
      requires ds.Valid()
      modifies ds
      ensures ds.Valid() && ds.cells == old(ds.cells)
      ensures ds.view == RevokeLeases(old(ds.view), IdSet(ids))
      ensures pairs == DeletedPairs(RevokedKeys(old(ds.view), IdSet(ids)))
    {
      pairs := map[];
      ghost var before := ds.view;
      RevokeNone(before);
      for i := 0 to |ids|
        invariant ds.Valid() && ds.cells == old(ds.cells)
        invariant ds.view == RevokeLeases(before, IdSet(ids[..i]))
        invariant pairs == DeletedPairs(RevokedKeys(before, IdSet(ids[..i])))
      {
        var keys := ds.RevokeLease(ids[i]);
        RevokeTwice(before, IdSet(ids[..i]), {ids[i]});
        assert IdSet(ids[..i + 1]) == IdSet(ids[..i]) + {ids[i]};
        pairs := MarkDeleted(pairs, keys);
        SameMap(pairs, DeletedPairs(RevokedKeys(before, IdSet(ids[..i + 1]))));
      }
      assert ids[..|ids|] == ids;
    }

    static method MarkDeleted(pairs: map<string, string>, keys: seq<string>) returns (r: map<string, string>)
      ensures forall k :: k in r <==> k in pairs || k in keys
      ensures forall k :: k in r ==> r[k] == if k in keys then "" else pairs[k]
    {
      r := pairs;
      for i := 0 to |keys|
        invariant forall k :: k in r <==> k in pairs || k in keys[..i]
        invariant forall k :: k in r ==> r[k] == if k in keys[..i] then "" else pairs[k]
      {
        assert keys[..i + 1] == keys[..i] + [keys[i]];
        r := r[keys[i] := ""];
      }
      assert keys[..|keys|] == keys;
    }

    /** The switch of `handleCommand` for the operations that write. */
    method WriteStore(op: Operation, now: int) returns (answer: Answer)
      requires ds.Valid() && !op.Get? && !op.List? && !op.Invalid?
      modifies ds, ds.cells
      ensures ds.Valid() && fresh(ds.cells - old(ds.cells))
      ensures ds.view == Effect(old(ds.view), op, now)
      ensures answer == AnswerTo(old(ds.view), op)
    {
      answer := NoAnswer;
      match op {
        case Put(key, value, leaseId) =>
          var v, ok := ds.PutLocked(key, value, leaseId);
          answer := answer.(value := v, found := ok);
        case Append(key, value) =>
          var v, ok := ds.AppendLocked(key, value);
          answer := answer.(value := v, found := ok);
        case Cas(key, compare, value) =>
          var v, ok := ds.CasLocked(key, compare, value);
          answer := answer.(value := v, found := ok);
        case Txn(conditions, success, failure) =>
          var succeeded, results := ds.Txn(conditions, success, failure);
          answer := answer.(txn := Some(TxnResult(succeeded, results)));
        case LeaseGrant(ttl) =>
          var id := ds.GrantLease(ttl, now);
          answer := answer.(value := FormatInt(id));
        case LeaseKeepAlive(id) =>
          var ok := ds.KeepAliveLease(id, now);
          answer := answer.(found := ok);
        case LeaseRevoke(id) =>
          var keys := ds.RevokeLease(id);
          var pairs := MarkDeleted(map[], keys);
          SameMap(pairs, DeletedPairs(RevokedKeys(old(ds.view), {id})));
          answer := answer.(pairs := pairs);
        case LeaseExpiry(ids) =>
          var pairs := RevokeAll(ids);
          answer := answer.(pairs := pairs);
      }
    }

    method Dispatch(op: Operation, now: int) returns (answer: Answer)
      requires ds.Valid() && !op.Invalid?
      modifies ds, ds.cells
      ensures ds.Valid() && fresh(ds.cells - old(ds.cells))
      ensures ds.view == Effect(old(ds.view), op, now)
      ensures answer == AnswerTo(old(ds.view), op)
    {
      if op.Get? || op.List? {
        answer := ReadAnswer(op);
      } else {
        answer := WriteStore(op, now);
      }
    }

    // ----- Commands: watch events -----

    method Push(e: WatchEvent, ghost before: seq<WatchEvent>, ghost events: seq<WatchEvent>, ghost subs: map<int,
                Sub<WatchEvent>>)
      requires hub.Valid() && hub.buffer.history == before + events && hub.subs == FanOut(subs, events)
      modifies hub, hub.buffer
      ensures hub.Valid() && hub.buffer.history == before + (events + [e]) && hub.subs == FanOut(subs, events + [e])
    {
      hub.PushWatchEvent(e);
      assert (events + [e])[..|events|] == events;
    }

    method PushDeletes(keys: set<string>, revision: int) returns (events: seq<WatchEvent>)
      requires hub.Valid()
      modifies hub, hub.buffer
      ensures hub.Valid() && hub.buffer.history == old(hub.buffer.history) + events
      ensures hub.subs == FanOut(old(hub.subs), events)
      ensures Deletes(events, keys, revision)
    {
      var order := Enumerate(keys);
      events := [];
      for i := 0 to |order|
        invariant hub.Valid() && hub.buffer.history == old(hub.buffer.history) + events
        invariant hub.subs == FanOut(old(hub.subs), events)
        invariant |events| == i
        invariant forall j :: 0 <= j < i ==> events[j] == WatchEvent(order[j], "", revision, EventDelete)
      {
        var e := WatchEvent(order[i], "", revision, EventDelete);
        Push(e, old(hub.buffer.history), events, old(hub.subs));
        events := events + [e];
      }
      forall k ensures k in keys <==> exists i :: 0 <= i < |events| && events[i].key == k {
        if k in keys {
          var i :| 0 <= i < |order| && order[i] == k;
          assert events[i].key == k;
        }
      }
    }

    method PushTxn(branch: seq<TxnOp>, results: seq<TxnOpResult>, revision: int) returns (events: seq<WatchEvent>)
      requires ds.Valid() && hub.Valid() && |branch| == |results|
      modifies hub, hub.buffer
      ensures hub.Valid() && hub.buffer.history == old(hub.buffer.history) + events
      ensures hub.subs == FanOut(old(hub.subs), events)
      ensures events == TxnEvents(branch, results, ds.view, revision)
    {
      events := [];
      ghost var post, history, subs := ds.view, hub.buffer.history, hub.subs;
      for i := 0 to |results|
        invariant ds.Valid() && ds.view == post && hub.Valid()
        invariant hub.buffer.history == history + events && hub.subs == FanOut(subs, events)
        invariant events == TxnEvents(branch[..i], results[..i], post, revision)
      {
        TxnEventsSnoc(branch, results, post, revision, i);
        events := PushTxnOp(branch[i], results[i], revision, history, events, subs);
      }
      assert branch[..|branch|] == branch && results[..|results|] == results;
    }

    method PushTxnOp(op: TxnOp, r: TxnOpResult, revision: int,
                     ghost history: seq<WatchEvent>, events: seq<WatchEvent>, ghost subs: map<int, Sub<WatchEvent>>)
        returns (events': seq<WatchEvent>)
      requires ds.Valid() && hub.Valid() && hub.buffer.history == history + events && hub.subs == FanOut(subs, events)
      modifies hub, hub.buffer
      ensures hub.Valid() && hub.buffer.history == history + events' && hub.subs == FanOut(subs, events')
      ensures events' == events + if OpEmits(op, r) then [OpEvent(op, r, ds.view, revision)] else []
    {
      events' := events;
      var e := TxnEventFor(op, r, revision);
      if e.Some? {
        Push(e.value, history, events, subs);
        events' := events + [e.value];
      }
    }

    method TxnEventFor(op: TxnOp, r: TxnOpResult, revision: int) returns (e: Option<WatchEvent>)
      requires ds.Valid()
      ensures e == if OpEmits(op, r) then Some(OpEvent(op, r, ds.view, revision)) else None
    {
      match op.op {
        case OpDelete => e := Some(WatchEvent(r.key, r.prevValue, revision, EventDelete));
        case OpCas =>
          e := None;
          if r.keyFound && r.prevValue == op.compareValue {
            var v, _ := ds.Get(op.key);
            e := Some(PutEvent(op.key, v, revision));
          }
        case OpAppend =>
          var v, _ := ds.Get(op.key);
          e := Some(PutEvent(op.key, v, revision));
        case OpPut => e := Some(PutEvent(op.key, op.value, revision));
        case OpOther(_) => e := Some(PutEvent(op.key, op.value, revision));
      }
    }

    method SingleEvent(op: Operation, answer: Answer, revision: int, ghost pre: Store) returns (e: Option<WatchEvent>)
      requires ds.Valid() && (op.Put? || op.Append? || op.Cas?)
      requires op.Cas? ==> (answer.value, answer.found) == Lookup(pre, op.key)
      ensures MayEmit(pre, op, ds.view, revision, if e.Some? then [e.value] else [])
    {
      e := None;
      if op.Put? {
        e := Some(PutEvent(op.key, op.value, revision));
      } else if op.Append? || (answer.found && answer.value == op.compare) {
        var v, _ := ds.Get(op.key);
        e := Some(PutEvent(op.key, v, revision));
      }
    }

    method PushAtMostOne(e: Option<WatchEvent>) returns (events: seq<WatchEvent>)
      requires hub.Valid()
      modifies hub, hub.buffer
      ensures hub.Valid() && hub.buffer.history == old(hub.buffer.history) + events
      ensures hub.subs == FanOut(old(hub.subs), events)
      ensures events == if e.Some? then [e.value] else []
    {
      events := [];
      if e.Some? {
        events := [e.value];
        Push(e.value, hub.buffer.history, [], hub.subs);
      }
    }

    /** The event switch of `handleCommand`; `pre` is the store before the command. */
    method EmitEvents(op: Operation, answer: Answer, revision: int, ghost pre: Store) returns (events: seq<WatchEvent>)
      requires ds.Valid() && hub.Valid() && answer == AnswerTo(pre, op)
      modifies hub, hub.buffer
      ensures hub.Valid() && hub.buffer.history == old(hub.buffer.history) + events
      ensures hub.subs == FanOut(old(hub.subs), events)
      ensures MayEmit(pre, op, ds.view, revision, events)
    {
      events := [];
      if op.Put? || op.Append? || op.Cas? {
        var e := SingleEvent(op, answer, revision, pre);
        events := PushAtMostOne(e);
      } else if op.LeaseRevoke? || op.LeaseExpiry? {
        DeletedKeys(RevokedKeys(pre, if op.LeaseRevoke? then {op.leaseId} else IdSet(op.leaseIds)));
        events := PushDeletes(answer.pairs.Keys, revision);
      } else if op.Txn? {
        var succeeded := answer.txn.value.succeeded;
        events := PushTxn(if succeeded then op.success else op.failure, answer.txn.value.results, revision);
      }
    }

    // ----- Commands: the waiting request -----

    method CreateCommitSubscription(index: int) returns (ch: CommitChan?)
      requires Valid()
      modifies `commitSubs, `chans
      ensures Valid() && Model() == old(Model())
      ensures index in old(commitSubs) ==> ch == null && commitSubs == old(commitSubs)
      ensures index !in old(commitSubs) ==> ch != null && fresh(ch) && commitSubs == old(commitSubs)[index := ch]
    {
      if index in commitSubs {
        return null;
      }
      ch := new CommitChan(index);
      commitSubs := commitSubs[index := ch];
      chans := chans + {ch};
    }

    /** No channel but the one that waited for the index has changed. */
    twostate predicate OthersUntouched(index: int)
      reads this, chans
    {
      forall ch :: ch in chans && ch in old(chans) && !(index in old(commitSubs) && ch == old(commitSubs[index])) ==>
        ch.buf == old(ch.buf) && ch.closed == old(ch.closed)
    }

    /** Pop the subscription for the index, answer it once and close it. */
    method Notify(index: int, reply: Reply)
      requires SubsValid()
      modifies `commitSubs, chans`buf, chans`closed
      ensures SubsValid() && commitSubs == old(commitSubs) - {index}
      ensures index in old(commitSubs) ==> old(commitSubs)[index].buf == [reply] && old(commitSubs)[index].closed
      ensures OthersUntouched(index)
    {
      if index in commitSubs {
        var sub := commitSubs[index];
        commitSubs := commitSubs - {index};
        sub.Send(reply);
        sub.Close();
      }
    }

    // ----- Snapshots -----

    method EncodeSnapshot() returns (snap: KvSnapshot)
      requires ds.Valid()
      ensures SnapshotOf(snap, Model())
    {
      var s := ds.TakeSnapshot();
      snap := KvSnapshot(s, lastRequestIdPerClient, currentRevision);
    }

    /** `maybeSnapshot` behind its gate; `encodes` is whether encoding succeeds. */
    method MaybeSnapshot(index: int, encodes: bool) returns (snap: Option<KvSnapshot>)
      requires ds.Valid()
      modifies `lastSnapshotIndex
      ensures snap.Some? <==> Cluster.SnapshotDue(old(lastSnapshotIndex), index, encodes)
      ensures lastSnapshotIndex == if snap.Some? then index else old(lastSnapshotIndex)
      ensures snap.Some? ==> SnapshotOf(snap.value, Model())
    {
      snap := None;
      if lastSnapshotIndex >= 0 {
        if index - lastSnapshotIndex < Cluster.SNAPSHOT_THRESHOLD || !encodes {
          return;
        }
        var s := EncodeSnapshot();
        lastSnapshotIndex := index;
        snap := Some(s);
      }
    }

    /** `handleSnapshot`: the whole state is replaced and every covered request is cancelled; a snapshot
        that does not decode is ignored. The event buffer and the watchers are left alone. */
    method HandleSnapshot(index: int, decoded: Option<KvSnapshot>, ghost meaning: State)
      requires Valid() && (decoded.Some? ==> SnapshotOf(decoded.value, meaning))
      modifies this, ds, chans`closed
      ensures Valid() && chans == old(chans) && fresh(ds.cells - old(ds.cells))
      ensures if decoded.None? then Here() == old(Here()) && commitSubs == old(commitSubs)
              else Here() == Point(meaning, index)
      ensures forall i :: i in commitSubs <==> i in old(commitSubs) && (decoded.None? || i > index)
      ensures forall i :: i in commitSubs ==> commitSubs[i] == old(commitSubs)[i]
      ensures forall i :: i in old(commitSubs) && i !in commitSubs ==>
        old(commitSubs)[i].closed && old(commitSubs)[i].buf == []
      ensures forall ch :: ch in chans && (decoded.None? || !CoveredChan(old(commitSubs), index, ch)) ==>
        ch.closed == old(ch.closed)
    {
      if decoded.Some? {
        LoadState(index, decoded.value, meaning);
        CancelUpTo(index);
      }
    }

    method LoadState(index: int, snap: KvSnapshot, ghost meaning: State)
      requires SnapshotOf(snap, meaning)
      modifies `lastRequestIdPerClient, `currentRevision, `lastSnapshotIndex, ds
      ensures ds.Valid() && fresh(ds.cells) && Model() == meaning && lastSnapshotIndex == index
    {
      ds.Restore(snap.store, meaning.store);
      lastRequestIdPerClient := snap.dedup;
      currentRevision := snap.revision;
      lastSnapshotIndex := index;
    }

    static ghost predicate CoveredChan(subs: map<int, CommitChan>, index: int, ch: CommitChan) {
      exists i :: i in subs && i <= index && subs[i] == ch
    }

    method CancelUpTo(index: int)
      requires SubsValid()
      modifies `commitSubs, chans`closed
      ensures SubsValid()
      ensures forall i :: i in commitSubs <==> i in old(commitSubs) && i > index
      ensures forall i :: i in commitSubs ==> commitSubs[i] == old(commitSubs)[i]
      ensures forall i :: i in old(commitSubs) && i <= index ==>
        old(commitSubs)[i].closed && old(commitSubs)[i].buf == []
      ensures forall ch :: ch in chans && !CoveredChan(old(commitSubs), index, ch) ==> ch.closed == old(ch.closed)
    {
      var order := Enumerate(commitSubs.Keys);
      for n := 0 to |order|
        invariant SubsValid()
        invariant forall i :: i in commitSubs <==> i in old(commitSubs) && !(i in order[..n] && i <= index)
        invariant forall i :: i in commitSubs ==> commitSubs[i] == old(commitSubs)[i]
        invariant forall i :: i in order[..n] && i <= index ==> old(commitSubs)[i].closed
        invariant forall ch :: ch in chans && !CoveredChan(old(commitSubs), index, ch) ==> ch.closed == old(ch.closed)
      {
        var i := order[n];
        if i <= index {
          var ch := commitSubs[i];
          commitSubs := commitSubs - {i};
          ch.Close();
        }
      }
    }

    // ----- The whole of handleCommand -----

    /** One committed command. `panicked` is the crash on an unknown kind. */
    method HandleCommand(cmd: Command, index: int, now: int, encodes: bool)
        returns (panicked: bool, reply: Reply, events: seq<WatchEvent>, snap: Option<KvSnapshot>)
      requires Valid()
      modifies this, ds, ds.cells, hub, hub.buffer, chans`buf, chans`closed
      ensures panicked <==> Step(old(Model()), cmd, now).crashed
      ensures !panicked ==> Valid() && Model() == Step(old(Model()), cmd, now)
      ensures !panicked ==> Some(reply) == ReplyTo(old(Model()), cmd)
      ensures !panicked ==> commitSubs == old(commitSubs) - {index}
      ensures !panicked && index in old(commitSubs) ==>
        old(commitSubs)[index].buf == [reply] && old(commitSubs)[index].closed
      ensures !panicked ==> OthersUntouched(index)
      ensures !panicked ==> Emits(old(Model()), cmd, events)
      ensures !panicked ==> hub.buffer.history == old(hub.buffer.history) + events
      ensures !panicked ==> hub.subs == FanOut(old(hub.subs), events)
      ensures !panicked ==> (snap.Some? <==> Cluster.SnapshotDue(old(lastSnapshotIndex), index, encodes))
      ensures !panicked ==> lastSnapshotIndex == if snap.Some? then index else old(lastSnapshotIndex)
      ensures !panicked && snap.Some? ==> SnapshotOf(snap.value, Model())
      ensures fresh(ds.cells - old(ds.cells)) && chans == old(chans)
    {
      snap := None;
      panicked, reply, events := ApplyCommitted(cmd, index, now);
      if !panicked {
        snap := MaybeSnapshot(index, encodes);
      }
    }

    /** Everything but the snapshot. */
    method ApplyCommitted(cmd: Command, index: int, now: int) returns (panicked: bool, reply: Reply,
                          events: seq<WatchEvent>)
      requires Valid()
      modifies `lastRequestIdPerClient, `currentRevision, `commitSubs, ds, ds.cells, hub, hub.buffer, chans`buf,
        chans`closed
      ensures panicked <==> Step(old(Model()), cmd, now).crashed
      ensures !panicked ==> Valid() && Model() == Step(old(Model()), cmd, now)
      ensures !panicked ==> Some(reply) == ReplyTo(old(Model()), cmd)
      ensures !panicked ==> commitSubs == old(commitSubs) - {index}
      ensures !panicked && index in old(commitSubs) ==>
        old(commitSubs)[index].buf == [reply] && old(commitSubs)[index].closed
      ensures !panicked ==> OthersUntouched(index)
      ensures !panicked ==> Emits(old(Model()), cmd, events)
      ensures !panicked ==> hub.buffer.history == old(hub.buffer.history) + events
      ensures !panicked ==> hub.subs == FanOut(old(hub.subs), events)
      ensures fresh(ds.cells - old(ds.cells))
    {
      events := [];
      ghost var before := Model();
      panicked, reply := Apply(cmd, now);
      if panicked {
        return;
      }
      events := Publish(cmd.op, index, reply, before.store);
      EmitsFrom(before, cmd, now, reply, events);
    }

    ghost function Here(): Point
      reads this, ds
    {
      Point(Model(), lastSnapshotIndex)
    }

    /** The apply loop, over whatever its channels deliver. It stops when a command crashes the process. */
    method RunUpdater(inputs: seq<Input>)
        returns (handled: nat, replies: seq<Option<Reply>>, emitted: seq<seq<WatchEvent>>, ghost points: seq<Point>)
      requires Valid() && forall i :: 0 <= i < |inputs| ==> Acceptable(inputs[i])
      modifies this, ds, ds.cells, hub, hub.buffer, chans`buf, chans`closed
      ensures Account(points, inputs, handled, replies, emitted) && points[0] == old(Here())
      ensures handled == |inputs| ==> Valid() && Here() == points[handled]
      ensures handled < |inputs| ==>
        inputs[handled].Committed?
          && Step(points[handled].state, inputs[handled].entry.command, inputs[handled].entry.now).crashed
      ensures handled == |inputs| ==> hub.buffer.history == old(hub.buffer.history) + Flatten(emitted)
      ensures handled == |inputs| && NoInstall(inputs) && AllKnown(inputs) ==>
        ApplyEvents(old(ds.data), Flatten(emitted)) == ds.data
    {
      ds.ViewFacts();
      ghost var history := hub.buffer.history;
      handled, replies, emitted, points := 0, [], [], [Here()];
      assert history + Flatten([]) == history;
      while handled < |inputs|
        invariant handled <= |inputs| && Valid() && fresh(ds.cells - old(ds.cells)) && chans == old(chans)
        invariant Account(points, inputs, handled, replies, emitted) && points[0] == old(Here())
        invariant Here() == points[handled] && hub.buffer.history == history + Flatten(emitted)
      {
        var panicked, reply, events := HandleInput(inputs[handled]);
        if panicked {
          return;
        }
        AccountNext(points, inputs, handled, replies, emitted, Here(), reply, events);
        ConcatAssoc(history, Flatten(emitted), events);
        replies, emitted, points := replies + [reply], emitted + [events], points + [Here()];
        handled := handled + 1;
      }
      ds.ViewFacts();
      if NoInstall(inputs) && AllKnown(inputs) {
        QuietView(points, inputs, replies, emitted);
      }
    }

    /** One turn of the loop. */
    method HandleInput(input: Input) returns (panicked: bool, reply: Option<Reply>, events: seq<WatchEvent>)
      requires Valid() && Acceptable(input)
      modifies this, ds, ds.cells, hub, hub.buffer, chans`buf, chans`closed
      ensures panicked ==> input.Committed? && Step(old(Model()), input.entry.command, input.entry.now).crashed
      ensures !panicked ==> Valid() && StepsTo(old(Here()), input, Here()) && Yields(old(Here()), input, reply, events)
      ensures !panicked ==> hub.buffer.history == old(hub.buffer.history) + events
      ensures fresh(ds.cells - old(ds.cells)) && chans == old(chans)
    {
      panicked, reply, events := false, None, [];
      match input {
        case Committed(index, e, encodes) =>
          var r, snap;
          panicked, r, events, snap := HandleCommand(e.command, index, e.now, encodes);
          reply := Some(r);
        case ConfigChange =>
        case SnapshotReady(index, decoded) =>
          ghost var meaning := Model();
          if decoded.Some? {
            meaning :| SnapshotOf(decoded.value, meaning);
          }
          HandleSnapshot(index, decoded, meaning);
      }
    }

    /** What the expiry loop submits when it finds expired leases. */
    method ExpiryProposal(now: int) returns (c: Option<Command>)
      requires ds.Valid()
      ensures c.None? <==> ExpiredAt(ds.view, now) == {}
      ensures c.Some? ==> c.value.op.LeaseExpiry? && c.value.clientId == 0
      ensures c.Some? ==> IdSet(c.value.op.leaseIds) == ExpiredAt(ds.view, now)
    {
      var ids := ds.CheckExpiredLeases(now);
      if |ids| == 0 {
        c := None;
        assert forall id :: id in ids <==> id in ExpiredAt(ds.view, now);
      } else {
        assert ids[0] in ids;
        assert forall id :: id in IdSet(ids) <==> id in ids;
        c := Some(Command(LeaseExpiry(ids), 0, 0));
      }
    }

    /** The part after the lock is released: answer the request and push events. */
    method Publish(op: Operation, index: int, reply: Reply, ghost pre: Store) returns (events: seq<WatchEvent>)
      requires Valid() && (reply.duplicate || reply.answer == AnswerTo(pre, op))
      modifies `commitSubs, hub, hub.buffer, chans`buf, chans`closed
      ensures Valid() && Model() == old(Model())
      ensures commitSubs == old(commitSubs) - {index}
      ensures index in old(commitSubs) ==> old(commitSubs)[index].buf == [reply] && old(commitSubs)[index].closed
      ensures OthersUntouched(index)
      ensures if reply.duplicate then events == [] else MayEmit(pre, op, ds.view, reply.revision, events)
      ensures hub.buffer.history == old(hub.buffer.history) + events && hub.subs == FanOut(old(hub.subs), events)
    {
      events := [];
      Notify(index, reply);
      if !reply.duplicate {
        events := EmitEvents(op, reply.answer, reply.revision, pre);
      }
    }

    /** Non-duplicate writes raise the revision; everything else reads it. */
    method RaiseRevision(op: Operation)
      modifies `currentRevision
      ensures currentRevision == old(currentRevision) + if op.IsWrite() then 1 else 0
    {
      match op {
        case Put(_, _, _) => currentRevision := currentRevision + 1;
        case Append(_, _) => currentRevision := currentRevision + 1;
        case Cas(_, _, _) => currentRevision := currentRevision + 1;
        case Txn(_, _, _) => currentRevision := currentRevision + 1;
        case LeaseRevoke(_) => currentRevision := currentRevision + 1;
        case LeaseExpiry(_) => currentRevision := currentRevision + 1;
        case _ =>
      }
    }

    method AnswerDuplicate(op: Operation) returns (reply: Reply)
      requires ds.Valid()
      ensures reply == Reply(if op.Get? || op.List? then AnswerTo(ds.view, op) else NoAnswer, currentRevision, true)
    {
      var answer := NoAnswer;
      if op.Get? || op.List? {
        answer := ReadAnswer(op);
      }
      reply := Reply(answer, currentRevision, true);
    }

    /** The part under the lock: duplicate check, effect, revision. */
    method Apply(cmd: Command, now: int) returns (panicked: bool, reply: Reply)
      requires ds.Valid()
      modifies `lastRequestIdPerClient, `currentRevision, ds, ds.cells
      ensures panicked <==> Step(old(Model()), cmd, now).crashed
      ensures ds.Valid() && fresh(ds.cells - old(ds.cells))
      ensures !panicked ==> Model() == Step(old(Model()), cmd, now)
      ensures !panicked ==> Some(reply) == ReplyTo(old(Model()), cmd)
    {
      if cmd.clientId != 0 && cmd.clientId in lastRequestIdPerClient
        && lastRequestIdPerClient[cmd.clientId] >= cmd.requestId {
        panicked := false;
        reply := AnswerDuplicate(cmd.op);
      } else {
        panicked, reply := ApplyFresh(cmd, now);
      }
    }

    method ApplyFresh(cmd: Command, now: int) returns (panicked: bool, reply: Reply)
      requires ds.Valid()
      modifies `lastRequestIdPerClient, `currentRevision, ds, ds.cells
      ensures panicked <==> cmd.op.Invalid?
      ensures ds.Valid() && fresh(ds.cells - old(ds.cells))
      ensures lastRequestIdPerClient == Record(old(lastRequestIdPerClient), cmd)
      ensures !panicked ==> ds.view == Effect(old(ds.view), cmd.op, now) && currentRevision == Bump(old(Model()), cmd)
      ensures !panicked ==> reply == Reply(AnswerTo(old(ds.view), cmd.op), currentRevision, false)
    {
      panicked, reply := cmd.op.Invalid?, Reply(NoAnswer, currentRevision, false);
      RecordRequest(cmd);
      if !panicked {
        reply := ApplyOperation(cmd.op, now);
      }
    }

    method RecordRequest(cmd: Command)
      modifies `lastRequestIdPerClient
      ensures lastRequestIdPerClient == Record(old(lastRequestIdPerClient), cmd)
    {
      if cmd.clientId != 0 {
        lastRequestIdPerClient := lastRequestIdPerClient[cmd.clientId := cmd.requestId];
      }
    }

    method ApplyOperation(op: Operation, now: int) returns (reply: Reply)
      requires ds.Valid() && !op.Invalid?
      modifies `currentRevision, ds, ds.cells
      ensures ds.Valid() && fresh(ds.cells - old(ds.cells))
      ensures ds.view == Effect(old(ds.view), op, now)
      ensures currentRevision == old(currentRevision) + if op.IsWrite() then 1 else 0
      ensures reply == Reply(AnswerTo(old(ds.view), op), currentRevision, false)
    {
      var answer := Dispatch(op, now);
      RaiseRevision(op);
      reply := Reply(answer, currentRevision, false);
    }
  }

  lemma DeletedKeys(keys: set<string>)
    ensures DeletedPairs(keys).Keys == keys
  {
  }

  /** The events of an applied command are the ones the machine allows; the clock shows in none. */
  lemma EmitsFrom(s: State, c: Command, now: int, reply: Reply, events: seq<WatchEvent>)
    requires !s.crashed && Some(reply) == ReplyTo(s, c)
    requires if reply.duplicate then events == []
             else MayEmit(s.store, c.op, Step(s, c, now).store, reply.revision, events)
    ensures Emits(s, c, events)
  {
  }

  lemma RevokeNone(s: Store)
    ensures RevokeLeases(s, IdSet([])) == s && RevokedKeys(s, IdSet([])) == {}
  {
    assert RevokeLeases(s, {}).entries == s.entries;
    assert RevokeLeases(s, {}).leases == s.leases;
    assert IdSet([]) == {};
  }
}
