/** The event stream is a complete account of the store: replaying it rebuilds the data. */
module MaterialisedView {
  import opened Text
  import opened Api
  import opened StoreSpec
  import opened Views
  import opened Machine

  // ----- One transaction -----

  /** The last operation on a key that emits an event, or -1. */
  function LastEmit(s: Store, ops: seq<TxnOp>, key: string): (j: int)
    ensures -1 <= j < |ops| && (j >= 0 ==> ops[j].key == key)
  {
    if ops == [] then -1
    else
      var n := |ops| - 1;
      if ops[n].key == key && OpEmits(ops[n], OpResult(ApplyOps(s, ops[..n]), ops[n])) then n
      else LastEmit(s, ops[..n], key)
  }

  lemma OpResultsFront(s: Store, ops: seq<TxnOp>, n: nat)
    requires n <= |ops|
    ensures OpResults(s, ops)[..n] == OpResults(s, ops[..n])
  {
    forall i | 0 <= i < n ensures OpResults(s, ops)[i] == OpResults(s, ops[..n])[i] {
      assert ops[..n][..i] == ops[..i];
    }
  }

  lemma {:induction false} LastTxnEvent(s: Store, ops: seq<TxnOp>, post: Store, revision: int, key: string)
    ensures var j := LastEmit(s, ops, key);
            Last(TxnEvents(ops, OpResults(s, ops), post, revision), key)
            == if j < 0 then None else Some(OpEvent(ops[j], OpResults(s, ops)[j], post, revision))
  {
    if ops != [] {
      var n := |ops| - 1;
      OpResultsFront(s, ops, n);
      LastTxnEvent(s, ops[..n], post, revision, key);
      var r := OpResults(s, ops)[n];
      LastConcat(TxnEvents(ops[..n], OpResults(s, ops[..n]), post, revision),
                 if OpEmits(ops[n], r) then [OpEvent(ops[n], r, post, revision)] else [], key);
    }
  }

  /** What an emitting operation leaves under its key; one of unknown kind need not leave anything. */
  ghost predicate Leaves(op: TxnOp, found: TxnOpResult, now: Option<string>) {
    match op.op
    case OpPut => now == Some(op.value)
    case OpDelete => now == None
    case OpCas => now == Some(op.value)
    case OpAppend => now == Some(found.prevValue + op.value)
    case OpOther(_) => true
  }

  lemma EmitLeaves(s: Store, op: TxnOp)
    requires OpEmits(op, OpResult(s, op))
    ensures Leaves(op, OpResult(s, op), At(Data(ApplyOp(s, op)), op.key))
  {
  }

  lemma SilentLeavesAlone(s: Store, op: TxnOp, key: string)
    requires op.key != key || !OpEmits(op, OpResult(s, op))
    ensures At(Data(ApplyOp(s, op)), key) == At(Data(s), key)
  {
  }

  /** What the last emitting operation left behind; the ones after it changed nothing. */
  lemma {:induction false} LastEmitDecides(s: Store, ops: seq<TxnOp>, key: string)
    ensures var j, now := LastEmit(s, ops, key), At(Data(ApplyOps(s, ops)), key);
            if j < 0 then now == At(Data(s), key)
            else Leaves(ops[j], OpResult(ApplyOps(s, ops[..j]), ops[j]), now)
  {
    if ops != [] {
      var n := |ops| - 1;
      var before, j := ApplyOps(s, ops[..n]), LastEmit(s, ops, key);
      if j == n {
        EmitLeaves(before, ops[n]);
      } else {
        LastEmitDecides(s, ops[..n], key);
        SilentLeavesAlone(before, ops[n], key);
        assert j >= 0 ==> ops[..n][..j] == ops[..j];
      }
    }
  }

  /** Operations of unknown kind change nothing yet emit a put event. Such an event is harmless
      exactly when a later operation on the key emits too, or the key ends up with that value. */
  ghost predicate StraysHarmless(s: Store, ops: seq<TxnOp>) {
    forall i :: 0 <= i < |ops| && ops[i].op.OpOther? && LastEmit(s, ops, ops[i].key) == i ==>
      Lookup(ApplyOps(s, ops), ops[i].key) == (ops[i].value, true)
  }

  /** A transaction's events turn the old data into the new, although append and
      compare-and-swap events carry the value at the end of the transaction. */
  lemma TxnViewExact(s: Store, ops: seq<TxnOp>, revision: int)
    ensures var post := ApplyOps(s, ops);
            ApplyEvents(Data(s), TxnEvents(ops, OpResults(s, ops), post, revision)) == Data(post)
            <==> StraysHarmless(s, ops)
  {
    var post := ApplyOps(s, ops);
    var l, r := ApplyEvents(Data(s), TxnEvents(ops, OpResults(s, ops), post, revision)), Data(post);
    forall k
      ensures var j := LastEmit(s, ops, k);
              At(l, k) == At(r, k) <==> (j >= 0 && ops[j].op.OpOther? ==> At(r, k) == Some(ops[j].value))
    {
      ViewAt(Data(s), TxnEvents(ops, OpResults(s, ops), post, revision), k);
      LastTxnEvent(s, ops, post, revision, k);
      LastEmitDecides(s, ops, k);
    }
    if StraysHarmless(s, ops) {
      forall k ensures At(l, k) == At(r, k) {
        var j := LastEmit(s, ops, k);
        assert j >= 0 && ops[j].op.OpOther? ==> LastEmit(s, ops, ops[j].key) == j;
      }
      SameView(l, r);
    }
  }

  // ----- One command -----

  ghost predicate Harmless(s: Store, op: Operation) {
    op.Txn? ==> StraysHarmless(s, Branch(s, op))
  }

  lemma DeletesView(view: View, events: seq<WatchEvent>, keys: set<string>, revision: int)
    requires Deletes(events, keys, revision)
    ensures ApplyEvents(view, events) == view - keys
  {
    forall k ensures At(ApplyEvents(view, events), k) == At(view - keys, k) {
      ViewAt(view, events, k);
      LastSome(events, k);
    }
    SameView(ApplyEvents(view, events), view - keys);
  }

  lemma {:induction false} LastSome(events: seq<WatchEvent>, key: string)
    ensures Last(events, key).Some? <==> exists i :: 0 <= i < |events| && events[i].key == key
  {
    if events != [] {
      var front := events[..|events| - 1];
      LastSome(front, key);
      assert forall i :: 0 <= i < |front| ==> front[i] == events[i];
      if Last(front, key).Some? {
        var i :| 0 <= i < |front| && front[i].key == key;
        assert events[i].key == key;
      }
    }
  }

  /** Whatever order deletions come in, one command's events turn its pre-data into its post-data:
      always for known kinds, and in general exactly when no stray event spoils it. */
  lemma StepView(s: State, c: Command, now: int, events: seq<WatchEvent>)
    requires Emits(s, c, events)
    ensures ApplyEvents(Data(s.store), events) == Data(Step(s, c, now).store)
       <==> (Applies(s, c) ==> Harmless(s.store, c.op))
  {
    if Applies(s, c) {
      match c.op
      case Txn(_, _, _) => TxnViewExact(s.store, Branch(s.store, c.op), Bump(s, c));
      case LeaseRevoke(id) =>
        DeletesView(Data(s.store), events, RevokedKeys(s.store, {id}), Bump(s, c));
      case LeaseExpiry(ids) =>
        DeletesView(Data(s.store), events, RevokedKeys(s.store, IdSet(ids)), Bump(s, c));
      case _ => SingleView(Data(s.store), events);
    }
  }

  lemma SingleView(view: View, events: seq<WatchEvent>)
    ensures |events| == 1 ==> ApplyEvents(view, events) == ApplyEvent(view, events[0])
  {
    assert |events| == 1 ==> events[..0] == [];
  }

  // ----- A whole log -----

  ghost predicate KnownOps(ops: seq<TxnOp>) {
    forall i :: 0 <= i < |ops| ==> !ops[i].op.OpOther?
  }

  /** The command uses only the four documented transaction operations. */
  ghost predicate KnownKinds(c: Command) {
    c.op.Txn? ==> KnownOps(c.op.success) && KnownOps(c.op.failure)
  }

  /** `emitted[i]` is what the node emitted when it applied `log[i]`. */
  ghost predicate LegalEvents(s: State, log: seq<Timed>, emitted: seq<seq<WatchEvent>>) {
    && |log| == |emitted|
    && forall i :: 0 <= i < |log| ==> Emits(Run(s, log[..i]), log[i].command, emitted[i])
  }

  function Flatten(emitted: seq<seq<WatchEvent>>): seq<WatchEvent> {
    if emitted == [] then [] else Flatten(emitted[..|emitted| - 1]) + emitted[|emitted| - 1]
  }

  lemma {:induction false} FlattenConcat(a: seq<seq<WatchEvent>>, b: seq<seq<WatchEvent>>)
    ensures Flatten(a + b) == Flatten(a) + Flatten(b)
  {
    if b == [] {
      assert a + b == a;
    } else {
      FlattenConcat(a, b[..|b| - 1]);
      assert (a + b)[..|a + b| - 1] == a + b[..|b| - 1];
    }
  }

  lemma LegalFront(s: State, log: seq<Timed>, emitted: seq<seq<WatchEvent>>, n: nat)
    requires LegalEvents(s, log, emitted) && n <= |log|
    ensures LegalEvents(s, log[..n], emitted[..n])
  {
    forall i | 0 <= i < n ensures Emits(Run(s, log[..n][..i]), log[..n][i].command, emitted[..n][i]) {
      assert log[..n][..i] == log[..i];
    }
  }

  lemma LegalBack(s: State, log: seq<Timed>, emitted: seq<seq<WatchEvent>>, n: nat)
    requires LegalEvents(s, log, emitted) && n <= |log|
    ensures LegalEvents(Run(s, log[..n]), log[n..], emitted[n..])
  {
    var mid := Run(s, log[..n]);
    forall i | 0 <= i < |log| - n ensures Emits(Run(mid, log[n..][..i]), log[n..][i].command, emitted[n..][i]) {
      RunConcat(s, log[..n], log[n..][..i]);
      FrontThenMore(log, n, i);
    }
  }

  lemma FrontThenMore(log: seq<Timed>, n: nat, i: nat)
    requires n + i <= |log|
    ensures log[..n] + log[n..][..i] == log[..n + i]
  {
  }

  /** For every log of known kinds, from any state: folding all emitted events
      over the starting data gives exactly the data at the end. */
  lemma {:induction false} ViewFollowsStore(s: State, log: seq<Timed>, emitted: seq<seq<WatchEvent>>)
    requires LegalEvents(s, log, emitted)
    requires forall i :: 0 <= i < |log| ==> KnownKinds(log[i].command)
    ensures ApplyEvents(Data(s.store), Flatten(emitted)) == Data(Run(s, log).store)
  {
    if log != [] {
      var n := |log| - 1;
      LegalFront(s, log, emitted, n);
      ViewFollowsStore(s, log[..n], emitted[..n]);
      ApplyConcat(Data(s.store), Flatten(emitted[..n]), emitted[n]);
      StepView(Run(s, log[..n]), log[n].command, log[n].now, emitted[n]);
    }
  }

  /** Along a log from the empty store, the view is right after every command exactly when
      no applied transaction leaves a stray event; known kinds never do. */
  lemma ViewRightThroughoutIff(log: seq<Timed>, emitted: seq<seq<WatchEvent>>)
    requires LegalEvents(Init, log, emitted)
    ensures (forall n :: 0 <= n <= |log| ==> RightAfter(log, emitted, n))
       <==> (forall i :: 0 <= i < |log| ==> HarmlessAt(log, i))
    ensures (forall i :: 0 <= i < |log| ==> KnownKinds(log[i].command)) ==>
              forall i :: 0 <= i < |log| ==> HarmlessAt(log, i)
  {
    if forall i :: 0 <= i < |log| ==> HarmlessAt(log, i) {
      forall n | 0 <= n <= |log| ensures RightAfter(log, emitted, n) {
        HarmlessUpTo(log, emitted, n);
      }
    }
    if forall n :: 0 <= n <= |log| ==> RightAfter(log, emitted, n) {
      forall i | 0 <= i < |log| ensures HarmlessAt(log, i) {
        assert RightAfter(log, emitted, i) && RightAfter(log, emitted, i + 1);
        RightAfterNext(log, emitted, i);
      }
    }
  }

  lemma {:induction false} HarmlessUpTo(log: seq<Timed>, emitted: seq<seq<WatchEvent>>, n: nat)
    requires LegalEvents(Init, log, emitted) && n <= |log|
    requires forall i :: 0 <= i < n ==> HarmlessAt(log, i)
    ensures RightAfter(log, emitted, n)
  {
    if n == 0 {
      assert log[..0] == [] && emitted[..0] == [];
      assert Data(Init.store) == map[];
    } else {
      HarmlessUpTo(log, emitted, n - 1);
      RightAfterNext(log, emitted, n - 1);
    }
  }

  ghost predicate RightAfter(log: seq<Timed>, emitted: seq<seq<WatchEvent>>, n: nat)
    requires n <= |log| == |emitted|
  {
    ApplyEvents(map[], Flatten(emitted[..n])) == Data(Run(Init, log[..n]).store)
  }

  ghost predicate HarmlessAt(log: seq<Timed>, i: nat)
    requires i < |log|
  {
    Applies(Run(Init, log[..i]), log[i].command) ==> Harmless(Run(Init, log[..i]).store, log[i].command.op)
  }

  lemma RightAfterNext(log: seq<Timed>, emitted: seq<seq<WatchEvent>>, n: nat)
    requires LegalEvents(Init, log, emitted) && n < |log| && RightAfter(log, emitted, n)
    ensures RightAfter(log, emitted, n + 1) <==> HarmlessAt(log, n)
  {
    assert emitted[..n + 1] == emitted[..n] + [emitted[n]];
    assert emitted[..n + 1][..n] == emitted[..n];
    ApplyConcat(map[], Flatten(emitted[..n]), emitted[n]);
    RunSnoc(Init, log, n);
    StepView(Run(Init, log[..n]), log[n].command, log[n].now, emitted[n]);
  }

  /** A transaction operation of unknown kind leaves the watchers' view wrong. */
  lemma StrayEventMisleads()
    ensures exists s: State, c: Command, events ::
      Emits(s, c, events) && ApplyEvents(Data(s.store), events) != Data(Step(s, c, 0).store)
  {
    var op := TxnOp(OpOther(7), "k", "v", "", 0);
    var c := Command(Txn([], [op], []), 0, 0);
    var s := Init;
    assert Branch(s.store, c.op) == [op];
    var events := TxnEvents([op], OpResults(s.store, [op]), ApplyOps(s.store, [op]), 1);
    assert Emits(s, c, events);
    assert [op][..0] == [];
    assert LastEmit(s.store, [op], "k") == 0;
    assert ApplyOps(s.store, [op]) == s.store;
    assert !StraysHarmless(s.store, [op]) by {
      assert [op][0].op.OpOther?;
    }
    StepView(s, c, 0, events);
  }
}
