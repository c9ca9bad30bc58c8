/** The replicated state machine: how one committed command changes a node's state,
    what it answers, and which watch events it may emit. */
module Machine {
  import opened Text
  import opened Api
  import opened StoreSpec
  import opened Paging

  /** `crashed` stands for the process having panicked on an unknown command kind. */
  datatype State = State(store: Store, dedup: map<int, int>, revision: int, crashed: bool)

  const Init := State(EmptyStore, map[], 0, false)

  // ----- One command -----

  predicate IsDuplicate(s: State, c: Command) {
    c.clientId != 0 && c.clientId in s.dedup && s.dedup[c.clientId] >= c.requestId
  }

  /** The command reaches the store: it is neither filtered out nor unknown. */
  predicate Applies(s: State, c: Command) {
    !s.crashed && !IsDuplicate(s, c) && !c.op.Invalid?
  }

  function Effect(s: Store, op: Operation, now: int): Store {
    match op
    case Put(key, value, leaseId) => PutKey(s, key, value, leaseId)
    case Append(key, value) => AppendKey(s, key, value)
    case Cas(key, compare, value) => CasKey(s, key, compare, value)
    case Txn(_, _, _) => ApplyOps(s, Branch(s, op))
    case LeaseGrant(ttl) => Grant(s, ttl, now)
    case LeaseKeepAlive(id) => KeepAlive(s, id, now)
    case LeaseRevoke(id) => RevokeLeases(s, {id})
    case LeaseExpiry(ids) => RevokeLeases(s, IdSet(ids))
    case _ => s
  }

  function Record(dedup: map<int, int>, c: Command): map<int, int> {
    if c.clientId != 0 then dedup[c.clientId := c.requestId] else dedup
  }

  function Bump(s: State, c: Command): int {
    s.revision + if c.op.IsWrite() then 1 else 0
  }

  function Step(s: State, c: Command, now: int): State {
    if s.crashed || IsDuplicate(s, c) then s
    else State(Effect(s.store, c.op, now), Record(s.dedup, c), Bump(s, c), c.op.Invalid?)
  }

  // ----- Its answer -----

  function DeletedPairs(keys: set<string>): map<string, string> {
    map k | k in keys :: ""
  }

  ghost function AnswerTo(s: Store, op: Operation): Answer {
    match op
    case Invalid => NoAnswer
    case Get(key) => Found(s, key)
    case Put(key, _, _) => Found(s, key)
    case Append(key, _) => Found(s, key)
    case Cas(key, _, _) => Found(s, key)
    case List(prefix, limit, keyAfter) =>
      if limit > 0 then
        var page := PageOf(Data(s), prefix, limit, keyAfter);
        NoAnswer.(pairs := page.pairs, value := page.nextKey)
      else NoAnswer.(pairs := ListPrefix(Data(s), prefix))
    case Txn(conditions, _, _) => NoAnswer.(txn := Some(TxnResult(AllMet(s, conditions), OpResults(s, Branch(s, op)))))
    case LeaseGrant(_) => NoAnswer.(value := FormatInt(s.seqNo + 1))
    case LeaseKeepAlive(id) => NoAnswer.(found := id in s.leases)
    case LeaseRevoke(id) => NoAnswer.(pairs := DeletedPairs(RevokedKeys(s, {id})))
    case LeaseExpiry(ids) => NoAnswer.(pairs := DeletedPairs(RevokedKeys(s, IdSet(ids))))
  }

  function Found(s: Store, key: string): Answer {
    NoAnswer.(value := Lookup(s, key).0, found := Lookup(s, key).1)
  }

  /** A crash answers nothing. A duplicate read is answered afresh; any other duplicate carries no result. */
  ghost function ReplyTo(s: State, c: Command): Option<Reply> {
    if s.crashed then None
    else if IsDuplicate(s, c) then
      Some(Reply(if c.op.Get? || c.op.List? then AnswerTo(s.store, c.op) else NoAnswer, s.revision, true))
    else if c.op.Invalid? then None
    else Some(Reply(AnswerTo(s.store, c.op), Bump(s, c), false))
  }

  // ----- Its watch events -----

  function PutEvent(key: string, value: string, revision: int): WatchEvent {
    WatchEvent(key, value, revision, EventPut)
  }

  /** A transaction operation emits an event unless it is a compare-and-swap that found another value. */
  predicate OpEmits(op: TxnOp, r: TxnOpResult) {
    op.op.OpCas? ==> r.keyFound && r.prevValue == op.compareValue
  }

  function OpEvent(op: TxnOp, r: TxnOpResult, post: Store, revision: int): WatchEvent {
    match op.op
    case OpDelete => WatchEvent(r.key, r.prevValue, revision, EventDelete)
    case OpCas => PutEvent(op.key, Lookup(post, op.key).0, revision)
    case OpAppend => PutEvent(op.key, Lookup(post, op.key).0, revision)
    case _ => PutEvent(op.key, op.value, revision)
  }

  function TxnEvents(ops: seq<TxnOp>, results: seq<TxnOpResult>, post: Store, revision: int): seq<WatchEvent>
    requires |ops| == |results|
  {
    if ops == [] then []
    else
      var n := |ops| - 1;
      TxnEvents(ops[..n], results[..n], post, revision)
      + if OpEmits(ops[n], results[n]) then [OpEvent(ops[n], results[n], post, revision)] else []
  }

  lemma TxnEventsSnoc(ops: seq<TxnOp>, results: seq<TxnOpResult>, post: Store, revision: int, i: nat)
    requires i < |ops| == |results|
    ensures TxnEvents(ops[..i + 1], results[..i + 1], post, revision)
         == TxnEvents(ops[..i], results[..i], post, revision)
            + if OpEmits(ops[i], results[i]) then [OpEvent(ops[i], results[i], post, revision)] else []
  {
    assert ops[..i + 1][..i] == ops[..i] && results[..i + 1][..i] == results[..i];
  }

  /** One delete event per key, in whatever order ranging over the result map gives. */
  ghost predicate Deletes(events: seq<WatchEvent>, keys: set<string>, revision: int) {
    && (forall i :: 0 <= i < |events| ==> events[i] == WatchEvent(events[i].key, "", revision, EventDelete))
    && (forall i, j :: 0 <= i < j < |events| ==> events[i].key != events[j].key)
    && (forall k :: k in keys <==> exists i :: 0 <= i < |events| && events[i].key == k)
  }

  ghost predicate MayEmit(pre: Store, op: Operation, post: Store, revision: int, events: seq<WatchEvent>) {
    match op
    case Put(key, value, _) => events == [PutEvent(key, value, revision)]
    case Append(key, _) => events == [PutEvent(key, Lookup(post, key).0, revision)]
    case Cas(key, compare, _) =>
      events == if Lookup(pre, key) == (compare, true) then [PutEvent(key, Lookup(post, key).0, revision)] else []
    case Txn(_, _, _) =>
      events == TxnEvents(Branch(pre, op), OpResults(pre, Branch(pre, op)), post, revision)
    case LeaseRevoke(id) => Deletes(events, RevokedKeys(pre, {id}), revision)
    case LeaseExpiry(ids) => Deletes(events, RevokedKeys(pre, IdSet(ids)), revision)
    case _ => events == []
  }

  ghost predicate Emits(s: State, c: Command, events: seq<WatchEvent>) {
    if Applies(s, c)
    then MayEmit(s.store, c.op, Effect(s.store, c.op, 0), Bump(s, c), events)
    else events == []
  }

  // ----- A log -----

  /** A committed command and the clock reading of the replica when it applies it. */
  datatype Timed = Timed(command: Command, now: int)

  function Run(s: State, log: seq<Timed>): State {
    if log == [] then s
    else Step(Run(s, log[..|log| - 1]), log[|log| - 1].command, log[|log| - 1].now)
  }

  lemma RunSnoc(s: State, log: seq<Timed>, i: nat)
    requires i < |log|
    ensures Run(s, log[..i + 1]) == Step(Run(s, log[..i]), log[i].command, log[i].now)
  {
    assert log[..i + 1][..i] == log[..i];
  }

  lemma {:induction false} RunConcat(s: State, a: seq<Timed>, b: seq<Timed>)
    ensures Run(s, a + b) == Run(Run(s, a), b)
  {
    if b == [] {
      assert a + b == a;
    } else {
      RunConcat(s, a, b[..|b| - 1]);
      assert (a + b)[..|a + b| - 1] == a + b[..|b| - 1];
    }
  }

  lemma StepKeeps(s: State, c: Command, now: int)
    requires WellFormed(s.store)
    ensures WellFormed(Step(s, c, now).store)
    ensures Step(s, c, now).store.seqNo >= s.store.seqNo
  {
    if c.op.Txn? {
      ApplyOpsKeeps(s.store, Branch(s.store, c.op));
    }
  }

  lemma {:induction false} RunKeeps(s: State, log: seq<Timed>)
    requires WellFormed(s.store)
    ensures WellFormed(Run(s, log).store)
    ensures Run(s, log).store.seqNo >= s.store.seqNo
  {
    if log != [] {
      var front := Run(s, log[..|log| - 1]);
      RunKeeps(s, log[..|log| - 1]);
      StepKeeps(front, log[|log| - 1].command, log[|log| - 1].now);
    }
  }
}
