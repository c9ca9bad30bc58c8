/** What decides a key along a log: which lease owns it, and which of several swaps wins. */
module KeyHistory {
  import opened Text
  import opened Api
  import opened StoreSpec
  import opened Machine
  import opened Leases
  import opened Views

  // ----- The operations a log runs -----

  /** The single-key operations that entry `p` really ran: a write command is one, and a transaction
      is those of the branch it took. */
  ghost function OpsRun(log: seq<Timed>, p: nat): seq<TxnOp>
    requires p < |log|
  {
    var s, c := Run(Init, log[..p]), log[p].command;
    if !Applies(s, c) then []
    else match c.op
      case Put(key, value, leaseId) => [TxnOp(OpPut, key, value, "", leaseId)]
      case Append(key, value) => [TxnOp(OpAppend, key, value, "", 0)]
      case Cas(key, compare, value) => [TxnOp(OpCas, key, value, compare, 0)]
      case Txn(_, _, _) => Branch(s.store, c.op)
      case _ => []
  }

  /** The leases that entry `p` took away, with everything they owned. */
  ghost function Revoked(log: seq<Timed>, p: nat): set<int>
    requires p < |log|
  {
    var s, c := Run(Init, log[..p]), log[p].command;
    if !Applies(s, c) then {}
    else match c.op
      case LeaseRevoke(id) => {id}
      case LeaseExpiry(ids) => IdSet(ids)
      case _ => {}
  }

  /** One entry, in these terms: its operations, or its revocations, or a change of leases only. */
  lemma EntryStep(log: seq<Timed>, p: nat)
    requires p < |log|
    ensures var s, t := StoreAt(log, p), StoreAt(log, p + 1);
            && t.entries == RevokeLeases(ApplyOps(s, OpsRun(log, p)), Revoked(log, p)).entries
            && (OpsRun(log, p) == [] || Revoked(log, p) == {})
            && (forall id :: id in t.leases ==> (id in s.leases && id !in Revoked(log, p)) || id == s.seqNo + 1)
            && (forall id :: id in s.leases && id !in Revoked(log, p) ==> id in t.leases)
            && s.seqNo <= t.seqNo
  {
    var s, c, ops := Run(Init, log[..p]), log[p].command, OpsRun(log, p);
    RunSnoc(Init, log, p);
    if |ops| == 1 {
      assert ops[..0] == [];
    }
    RevokeNothing(ApplyOps(s.store, ops));
    OpsKeepLeases(s.store, ops);
  }

  lemma RevokeNothing(s: Store)
    ensures RevokeLeases(s, {}).entries == s.entries
  {
  }

  lemma {:induction false} OpsKeepLeases(s: Store, ops: seq<TxnOp>)
    ensures ApplyOps(s, ops).leases == s.leases && ApplyOps(s, ops).seqNo == s.seqNo
  {
    if ops != [] {
      OpsKeepLeases(s, ops[..|ops| - 1]);
    }
  }

  // ----- Who owns a key -----

  /** A put and a delete settle who owns their key; nothing else does. */
  predicate Settles(op: TxnOp, key: string) {
    op.key == key && (op.op.OpPut? || op.op.OpDelete?)
  }

  /** The last operation that settles the key, or -1. */
  function LastSettling(ops: seq<TxnOp>, key: string): (j: int)
    ensures -1 <= j < |ops| && (j >= 0 ==> Settles(ops[j], key))
    ensures forall i :: j < i < |ops| ==> !Settles(ops[i], key)
  {
    if ops == [] then -1
    else if Settles(ops[|ops| - 1], key) then |ops| - 1
    else LastSettling(ops[..|ops| - 1], key)
  }

  /** A put that names a live lease gives it the key; any other put, and a delete, leave it to nobody. */
  ghost predicate GivesTo(op: TxnOp, leases: map<int, LeaseInfo>, id: int) {
    op.op.OpPut? && op.leaseId == id && id != 0 && id in leases
  }

  lemma {:induction false} OwnerAfterOps(s: Store, ops: seq<TxnOp>, key: string, id: int)
    ensures var j := LastSettling(ops, key);
            Owner(ApplyOps(s, ops), key) == Some(id)
            <==> if j < 0 then Owner(s, key) == Some(id) else GivesTo(ops[j], s.leases, id)
  {
    if ops != [] {
      var n := |ops| - 1;
      OwnerAfterOps(s, ops[..n], key, id);
      OpsKeepLeases(s, ops[..n]);
    }
  }

  /** Operation `i` of entry `p` was the last before `q` to settle the key, and gave it to the lease. */
  ghost predicate GivenAt(log: seq<Timed>, q: nat, key: string, id: int, p: nat, i: nat) {
    && p < q <= |log| && i < |OpsRun(log, p)|
    && Settles(OpsRun(log, p)[i], key) && GivesTo(OpsRun(log, p)[i], StoreAt(log, p).leases, id)
    && (forall k :: i < k < |OpsRun(log, p)| ==> !Settles(OpsRun(log, p)[k], key))
    && (forall r, k :: p < r < q && 0 <= k < |OpsRun(log, r)| ==> !Settles(OpsRun(log, r)[k], key))
  }

  /** The last put or delete on the key before `q` was a put naming the lease while it was live. */
  ghost predicate Given(log: seq<Timed>, q: nat, key: string, id: int) {
    exists p: nat, i: nat :: GivenAt(log, q, key, id, p, i)
  }

  lemma GivenNext(log: seq<Timed>, q: nat, key: string, id: int)
    requires q < |log|
    ensures var ops := OpsRun(log, q); var j := LastSettling(ops, key);
            Given(log, q + 1, key, id)
            <==> if j < 0 then Given(log, q, key, id) else GivesTo(ops[j], StoreAt(log, q).leases, id)
  {
    var ops := OpsRun(log, q);
    var j := LastSettling(ops, key);
    if j < 0 {
      if Given(log, q, key, id) {
        var p: nat, i: nat :| GivenAt(log, q, key, id, p, i);
        assert GivenAt(log, q + 1, key, id, p, i);
      }
      if Given(log, q + 1, key, id) {
        var p: nat, i: nat :| GivenAt(log, q + 1, key, id, p, i);
        assert p != q;
        assert GivenAt(log, q, key, id, p, i);
      }
    } else {
      if GivesTo(ops[j], StoreAt(log, q).leases, id) {
        assert GivenAt(log, q + 1, key, id, q, j);
      }
      if Given(log, q + 1, key, id) {
        var p: nat, i: nat :| GivenAt(log, q + 1, key, id, p, i);
        assert p == q && i == j;
      }
    }
  }

  /** Along every log a live lease owns exactly the keys whose last put or delete was a put that named it
      while it was live: appends and swaps keep the owner, puts and deletes settle it anew. */
  lemma {:induction false} OwnerIff(log: seq<Timed>, q: nat, key: string, id: int)
    requires q <= |log|
    ensures Owner(StoreAt(log, q), key) == Some(id) <==> id in StoreAt(log, q).leases && Given(log, q, key, id)
  {
    if q == 0 {
      assert log[..0] == [];
    } else {
      var p := q - 1;
      OwnerIff(log, p, key, id);
      GivenNext(log, p, key, id);
      EntryStep(log, p);
      OwnerAfterOps(StoreAt(log, p), OpsRun(log, p), key, id);
      CounterGrows(log, p, q);
      if id == StoreAt(log, p).seqNo + 1 && Given(log, p, key, id) {
        var r: nat, i: nat :| GivenAt(log, p, key, id, r, i);
        CounterGrows(log, r, p);
      }
    }
  }

  /** Entry `q` revokes the lease while it is live, and the lease was given the key. */
  ghost predicate TakesWith(log: seq<Timed>, q: nat, key: string, id: int)
    requires q <= |log|
  {
    RevokesAt(log, q, id) && id in StoreAt(log, q).leases && Given(log, q, key, id)
  }

  /** What an applied revocation or expiry takes with it: entry `q` removes a key exactly when one of its
      leases is live and was given the key by the last put or delete on it. The reply lists those keys, and
      each gets one delete event. */
  lemma RevokeRemovesIff(log: seq<Timed>, q: nat, key: string, events: seq<WatchEvent>)
    requires q < |log| && (log[q].command.op.LeaseRevoke? || log[q].command.op.LeaseExpiry?)
    requires Applies(Run(Init, log[..q]), log[q].command) && Emits(Run(Init, log[..q]), log[q].command, events)
    ensures var removed := key in StoreAt(log, q).entries && key !in StoreAt(log, q + 1).entries;
            var pairs := ReplyTo(Run(Init, log[..q]), log[q].command).value.answer.pairs;
            && (removed <==> exists id :: TakesWith(log, q, key, id))
            && (removed <==> key in pairs) && (key in pairs ==> pairs[key] == "")
            && (removed <==> exists i :: 0 <= i < |events| && events[i].key == key)
            && (forall i :: 0 <= i < |events| ==> events[i].kind == EventDelete)
            && (forall i, j :: 0 <= i < j < |events| ==> events[i].key != events[j].key)
  {
    var s := StoreAt(log, q);
    RunSnoc(Init, log, q);
    forall id ensures Owner(s, key) == Some(id) <==> id in s.leases && Given(log, q, key, id) {
      OwnerIff(log, q, key, id);
    }
    var ids := Revoked(log, q);
    forall id ensures id in ids <==> RevokesAt(log, q, id) {
    }
    if key in s.entries && key !in StoreAt(log, q + 1).entries {
      var id := s.entries[key].owner.value;
      assert TakesWith(log, q, key, id);
    }
  }

  // ----- Swaps -----

  /** What the store has under a key. */
  ghost function ValueAt(log: seq<Timed>, p: nat, key: string): Option<string>
    requires p <= |log|
  {
    At(Data(StoreAt(log, p)), key)
  }

  predicate SwapsFrom(op: TxnOp, compare: string) {
    op.op.OpCas? && op.compareValue == compare && op.value != compare
  }

  /** In `[a, b)` the only operations on the key are swaps away from `compare`. Leases may still expire. */
  ghost predicate OnlySwaps(log: seq<Timed>, a: nat, b: nat, key: string, compare: string) {
    && a <= b <= |log|
    && forall p, i :: a <= p < b && 0 <= i < |OpsRun(log, p)| && OpsRun(log, p)[i].key == key ==>
         SwapsFrom(OpsRun(log, p)[i], compare)
  }

  /** Once the key has another value than `compare`, such operations leave it alone. */
  lemma {:induction false} SwapsFail(s: Store, ops: seq<TxnOp>, key: string, compare: string)
    requires forall i :: 0 <= i < |ops| && ops[i].key == key ==> SwapsFrom(ops[i], compare)
    ensures At(Data(s), key) != Some(compare) ==> At(Data(ApplyOps(s, ops)), key) == At(Data(s), key)
  {
    if ops != [] {
      SwapsFail(s, ops[..|ops| - 1], key, compare);
    }
  }

  lemma {:induction false} StaysSwapped(log: seq<Timed>, a: nat, b: nat, key: string, compare: string)
    requires OnlySwaps(log, a, b, key, compare) && ValueAt(log, a, key) != Some(compare)
    ensures ValueAt(log, b, key) == ValueAt(log, a, key) || ValueAt(log, b, key) == None
    decreases b
  {
    if a < b {
      StaysSwapped(log, a, b - 1, key, compare);
      EntryStep(log, b - 1);
      SwapsFail(StoreAt(log, b - 1), OpsRun(log, b - 1), key, compare);
    }
  }

  /** The swap command at `p` finds what it compares with. */
  ghost predicate Wins(log: seq<Timed>, p: nat, key: string, compare: string) {
    && p < |log| && Applies(Run(Init, log[..p]), log[p].command)
    && log[p].command.op.Cas? && log[p].command.op.key == key && log[p].command.op.compare == compare
    && ValueAt(log, p, key) == Some(compare)
  }

  /** Clients that race to swap a key from one value: while only such swaps touch it, at most one wins. Every
      later one changes nothing and is not told that it found the value. */
  lemma OneSwapWins(log: seq<Timed>, a: nat, b: nat, key: string, compare: string)
    requires OnlySwaps(log, a, b + 1, key, compare) && a < b && Wins(log, a, key, compare)
    ensures ValueAt(log, a + 1, key) == Some(log[a].command.op.value) && !Wins(log, b, key, compare)
    ensures log[b].command.op.Cas? && log[b].command.op.key == key && log[b].command.op.compare == compare ==>
              && StoreAt(log, b + 1).entries == StoreAt(log, b).entries
              && var r := ReplyTo(Run(Init, log[..b]), log[b].command);
                 r.Some? ==> (r.value.answer.value, r.value.answer.found) != (compare, true)
  {
    RunSnoc(Init, log, a);
    RunSnoc(Init, log, b);
    assert OpsRun(log, a)[0].key == key;
    StaysSwapped(log, a + 1, b, key, compare);
  }
}
