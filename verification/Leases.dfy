/** Leases over a whole log: ids, late expiry entries, and entries delivered again. */
module Leases {
  import opened Text
  import opened Api
  import opened StoreSpec
  import opened Machine
  import opened Retry
  import opened Collections

  ghost function StoreAt(log: seq<Timed>, n: nat): Store
    requires n <= |log|
  {
    Run(Init, log[..n]).store
  }

  /** The counter only goes up along a log. */
  lemma CounterGrows(log: seq<Timed>, i: nat, j: nat)
    requires i <= j <= |log|
    ensures StoreAt(log, i).seqNo <= StoreAt(log, j).seqNo
    ensures WellFormed(StoreAt(log, i)) && WellFormed(StoreAt(log, j))
  {
    RunConcat(Init, log[..i], log[i..j]);
    assert log[..i] + log[i..j] == log[..j];
    RunKeeps(Init, log[..i]);
    RunKeeps(Run(Init, log[..i]), log[i..j]);
  }

  /** No lease id is handed out twice, even after its lease is gone. */
  lemma IdsNeverReused(log: seq<Timed>, i: nat, j: nat)
    requires i < j < |log|
    requires Applies(Run(Init, log[..i]), log[i].command) && log[i].command.op.LeaseGrant?
    requires Applies(Run(Init, log[..j]), log[j].command) && log[j].command.op.LeaseGrant?
    ensures var a, b := StoreAt(log, i).seqNo + 1, StoreAt(log, j).seqNo + 1;
            && a in StoreAt(log, i + 1).leases && b in StoreAt(log, j + 1).leases
            && a < b && b !in StoreAt(log, j).leases
  {
    RunSnoc(Init, log, i);
    RunSnoc(Init, log, j);
    CounterGrows(log, i + 1, j);
  }

  /** A lease that is gone stays gone. */
  lemma {:induction false} GoneForGood(s: State, log: seq<Timed>, id: int)
    requires WellFormed(s.store) && id <= s.store.seqNo && id !in s.store.leases
    ensures id !in Run(s, log).store.leases && id <= Run(s, log).store.seqNo
  {
    if log != [] {
      var n := |log| - 1;
      GoneForGood(s, log[..n], id);
      RunKeeps(s, log[..n]);
      var before, op := Run(s, log[..n]), log[n].command.op;
      if op.Txn? {
        ApplyOpsKeeps(before.store, Branch(before.store, op));
      }
    }
  }

  /** An expiry entry that names leases some node saw at position `p`, by whatever clock, and that
      commits at any later position never touches a key owned by a lease granted after `p`. */
  lemma LateExpirySparesNewLeases(log: seq<Timed>, p: nat, q: nat, key: string)
    requires p <= q < |log| && log[q].command.op.LeaseExpiry?
    requires IdSet(log[q].command.op.leaseIds) <= StoreAt(log, p).leases.Keys
    requires key in StoreAt(log, q).entries
    requires match Owner(StoreAt(log, q), key) case None => true case Some(id) => id > StoreAt(log, p).seqNo
    ensures key in StoreAt(log, q + 1).entries && StoreAt(log, q + 1).entries[key] == StoreAt(log, q).entries[key]
  {
    CounterGrows(log, p, q);
    RunSnoc(Init, log, q);
  }

  /** An expiry entry leaves the store alone exactly when none of its leases is live. */
  lemma ExpiryIdleIff(s: State, c: Command, now: int)
    requires WellFormed(s.store) && Applies(s, c) && c.op.LeaseExpiry?
    ensures Step(s, c, now).store == s.store <==> IdSet(c.op.leaseIds) !! s.store.leases.Keys
  {
    var ids := IdSet(c.op.leaseIds);
    if ids * s.store.leases.Keys == {} {
      var after := Step(s, c, now).store;
      forall id | id in s.store.leases ensures id !in ids {
        assert id !in ids * s.store.leases.Keys;
      }
      SameMap(after.entries, s.store.entries);
      SameMap(after.leases, s.store.leases);
    } else {
      var id := Pick(ids * s.store.leases.Keys);
      assert id !in Step(s, c, now).store.leases;
    }
  }

  // ----- Renewals against a pending expiry -----

  /** Entry `j` renewed lease `id`. */
  ghost predicate RenewsAt(log: seq<Timed>, j: nat, id: int) {
    j < |log| && Applies(Run(Init, log[..j]), log[j].command) && log[j].command.op == LeaseKeepAlive(id)
  }

  /** Entry `j` revoked lease `id`, at a client's request or as expired. */
  ghost predicate RevokesAt(log: seq<Timed>, j: nat, id: int) {
    && j < |log| && Applies(Run(Init, log[..j]), log[j].command)
    && (log[j].command.op == LeaseRevoke(id) || (log[j].command.op.LeaseExpiry? && id in log[j].command.op.leaseIds))
  }

  /** `j` is the last renewal of the lease in `[p, q)`. */
  ghost predicate LastRenewal(log: seq<Timed>, p: nat, q: nat, id: int, j: nat) {
    p <= j < q && RenewsAt(log, j, id) && forall k: nat :: j < k < q ==> !RenewsAt(log, k, id)
  }

  ghost predicate Renewed(log: seq<Timed>, p: nat, q: nat, id: int) {
    exists j: nat :: p <= j < q && RenewsAt(log, j, id)
  }

  /** What one entry does to a lease that is already granted. */
  lemma LeaseStep(log: seq<Timed>, j: nat, id: int)
    requires j < |log| && id in StoreAt(log, j).leases
    ensures id in StoreAt(log, j + 1).leases <==> !RevokesAt(log, j, id)
    ensures id in StoreAt(log, j + 1).leases ==>
              var was, now := StoreAt(log, j).leases[id], StoreAt(log, j + 1).leases[id];
              now == if RenewsAt(log, j, id) then LeaseInfo(was.ttl, Deadline(log[j].now, was.ttl)) else was
  {
    RunSnoc(Init, log, j);
    CounterGrows(log, j, j);
    var s, op := Run(Init, log[..j]), log[j].command.op;
    if op.Txn? {
      ApplyOpsKeeps(s.store, Branch(s.store, op));
    } else if op.LeaseExpiry? {
      assert id in IdSet(op.leaseIds) <==> id in op.leaseIds;
    }
  }

  /** A lease granted by `p` that is gone by `q` is gone after the next entry too. */
  lemma GoneNext(log: seq<Timed>, p: nat, q: nat, id: int)
    requires p <= q < |log| && id in StoreAt(log, p).leases && id !in StoreAt(log, q).leases
    ensures id !in StoreAt(log, q + 1).leases
  {
    CounterGrows(log, p, q);
    GoneForGood(Run(Init, log[..q]), [log[q]], id);
    RunConcat(Init, log[..q], [log[q]]);
    assert log[..q] + [log[q]] == log[..q + 1];
  }

  /** A lease stays from `p` to `q` exactly when no entry between revokes it. */
  lemma {:induction false} LiveBetween(log: seq<Timed>, p: nat, q: nat, id: int)
    requires p <= q <= |log| && id in StoreAt(log, p).leases
    ensures id in StoreAt(log, q).leases <==> forall j: nat :: p <= j < q ==> !RevokesAt(log, j, id)
    decreases q
  {
    if p < q {
      LiveBetween(log, p, q - 1, id);
      if id in StoreAt(log, q - 1).leases {
        LeaseStep(log, q - 1, id);
      } else {
        GoneNext(log, p, q - 1, id);
      }
    }
  }

  lemma LiveBefore(log: seq<Timed>, p: nat, q: nat, id: int)
    requires p < q <= |log| && id in StoreAt(log, p).leases && id in StoreAt(log, q).leases
    ensures id in StoreAt(log, q - 1).leases
  {
    LiveBetween(log, p, q, id);
    LiveBetween(log, p, q - 1, id);
  }

  /** The last entry in `[p, q)` that renewed the lease. */
  ghost function LastRenewalIn(log: seq<Timed>, p: nat, q: nat, id: int): (r: Option<nat>)
    ensures r.Some? ==> p <= r.value < q
  {
    if q <= p then None
    else if RenewsAt(log, q - 1, id) then Some(q - 1)
    else LastRenewalIn(log, p, q - 1, id)
  }

  lemma {:induction false} LastRenewalIs(log: seq<Timed>, p: nat, q: nat, id: int)
    ensures match LastRenewalIn(log, p, q, id)
            case None => !Renewed(log, p, q, id)
            case Some(j) => LastRenewal(log, p, q, id, j) && Renewed(log, p, q, id)
  {
    if p < q && !RenewsAt(log, q - 1, id) {
      LastRenewalIs(log, p, q - 1, id);
    }
  }

  /** The deadline is the one set by the last renewal in `[p, q)`, or still the one it was. */
  ghost predicate SetBy(log: seq<Timed>, p: nat, q: nat, id: int, was: LeaseInfo, now: LeaseInfo)
    requires q <= |log|
  {
    now == match LastRenewalIn(log, p, q, id)
           case None => was
           case Some(j) => LeaseInfo(was.ttl, Deadline(log[j].now, was.ttl))
  }

  /** A lease that stays has its deadline from its last renewal. */
  lemma {:induction false} DeadlineBetween(log: seq<Timed>, p: nat, q: nat, id: int)
    requires p <= q <= |log| && id in StoreAt(log, p).leases && id in StoreAt(log, q).leases
    ensures SetBy(log, p, q, id, StoreAt(log, p).leases[id], StoreAt(log, q).leases[id])
    decreases q
  {
    if p < q {
      LiveBefore(log, p, q, id);
      DeadlineBetween(log, p, q - 1, id);
      LeaseStep(log, q - 1, id);
    }
  }

  /** The expiry entry at `q` takes away a lease that is not expired by the clock it is applied with. */
  ghost predicate RemovedUnexpired(log: seq<Timed>, q: nat, id: int)
    requires q < |log|
  {
    id in StoreAt(log, q).leases && id !in ExpiredAt(StoreAt(log, q), log[q].now) && id !in StoreAt(log, q + 1).leases
  }

  /** The deadline set by the last renewal in `[p, q)` is not past when entry `q` is applied. */
  ghost predicate RenewalReaches(log: seq<Timed>, p: nat, q: nat, id: int, ttl: int)
    requires q < |log|
  {
    exists j: nat :: LastRenewal(log, p, q, id, j) && log[q].now <= Deadline(log[j].now, ttl)
  }

  /** An expiry entry at `q` for a lease that was there at `p`. By the clock it is applied with, it removes
      a lease that is not expired exactly when the lease was not revoked in between and either the last
      renewal in between reaches that far or, with none, the deadline it had at `p` does. */
  lemma RemovedUnexpiredIff(log: seq<Timed>, p: nat, q: nat, id: int)
    requires p <= q < |log| && id in StoreAt(log, p).leases
    requires log[q].command.op.LeaseExpiry? && RevokesAt(log, q, id)
    ensures RemovedUnexpired(log, q, id)
       <==> && (forall j: nat :: p <= j < q ==> !RevokesAt(log, j, id))
            && (RenewalReaches(log, p, q, id, StoreAt(log, p).leases[id].ttl)
                || (!Renewed(log, p, q, id) && log[q].now <= StoreAt(log, p).leases[id].expiresAt))
  {
    LiveBetween(log, p, q, id);
    if id in StoreAt(log, q).leases {
      DeadlineBetween(log, p, q, id);
      LeaseStep(log, q, id);
      LastRenewalIs(log, p, q, id);
    }
  }

  /** On the node that proposed the entry, which saw the lease expired at `p` when its clock read `readAt`
      and whose clock does not run back, only a renewal in between can do it. */
  lemma RenewalLostIff(log: seq<Timed>, p: nat, q: nat, id: int, readAt: int)
    requires p <= q < |log| && id in ExpiredAt(StoreAt(log, p), readAt)
    requires log[q].command.op.LeaseExpiry? && RevokesAt(log, q, id) && readAt <= log[q].now
    ensures RemovedUnexpired(log, q, id)
       <==> && (forall j: nat :: p <= j < q ==> !RevokesAt(log, j, id))
            && RenewalReaches(log, p, q, id, StoreAt(log, p).leases[id].ttl)
  {
    RemovedUnexpiredIff(log, p, q, id);
  }

  /** A replica that goes through its log faster than the clock removes a lease that its own clock calls
      unexpired, with no renewal at all. */
  lemma ReplayingReplicaIsEarly()
    ensures exists log: seq<Timed>, q: nat, id ::
              q < |log| && RevokesAt(log, q, id) && RemovedUnexpired(log, q, id) && !Renewed(log, 0, q, id)
  {
    var grant := Timed(Command(LeaseGrant(1), 5, 1), 0);
    var expire := Timed(Command(LeaseExpiry([1]), 0, 0), 0);
    var log := [grant, expire];
    assert log[..0] == [];
    RunSnoc(Init, log, 0);
    RunSnoc(Init, log, 1);
    assert StoreAt(log, 1).leases == map[1 := LeaseInfo(1, NANOS_PER_SECOND)];
    assert 1 in IdSet(expire.command.op.leaseIds);
    assert RevokesAt(log, 1, 1) && RemovedUnexpired(log, 1, 1) && !Renewed(log, 0, 1, 1);
  }

  /** A renewal that commits between an expiry proposal and its entry does not save the lease. */
  lemma RenewalCanComeTooLate()
    ensures exists log: seq<Timed>, p: nat, q: nat, id, readAt ::
              p < q < |log| && id in ExpiredAt(StoreAt(log, p), readAt) && readAt <= log[p].now <= log[q].now
              && RenewsAt(log, p, id) && log[q].command.op == LeaseExpiry([id]) && RemovedUnexpired(log, q, id)
  {
    var second := NANOS_PER_SECOND;
    var grant := Timed(Command(LeaseGrant(1), 5, 1), 0);
    var renew := Timed(Command(LeaseKeepAlive(1), 5, 2), 3 * second);
    var expire := Timed(Command(LeaseExpiry([1]), 0, 0), 3 * second);
    var log := [grant, renew, expire];
    assert log[..0] == [];
    RunSnoc(Init, log, 0);
    RunSnoc(Init, log, 1);
    RunSnoc(Init, log, 2);
    assert StoreAt(log, 1).leases == map[1 := LeaseInfo(1, second)];
    assert StoreAt(log, 2).leases == map[1 := LeaseInfo(1, 4 * second)];
    assert 1 in IdSet(expire.command.op.leaseIds);
    assert RenewsAt(log, 1, 1) && RemovedUnexpired(log, 2, 1);
    assert 1 in ExpiredAt(StoreAt(log, 1), 2 * second);
  }

  // ----- Redelivery -----

  /** The entry `c` was applied at index `j`: under a client id, or as an expiry of leases granted by then. */
  ghost predicate CoveredAt(log: seq<Timed>, c: Command, j: nat) {
    && j < |log| && log[j].command == c
    && (c.clientId != 0 ||
        (c.op.LeaseExpiry? && forall id :: id in c.op.leaseIds ==> id <= StoreAt(log, j).seqNo))
  }

  ghost predicate Covered(log: seq<Timed>, c: Command) {
    exists j :: CoveredAt(log, c, j)
  }

  function AnonymousCount(log: seq<Timed>): nat {
    if log == [] then 0
    else AnonymousCount(log[..|log| - 1]) + if log[|log| - 1].command.clientId == 0 then 1 else 0
  }

  /** Applying covered entries again, in any order and number, changes no data, owner, lease or
      duplicate record; only each repeated expiry raises the revision. */
  lemma {:induction false} RedeliveryMovesOnlyRevision(log: seq<Timed>, again: seq<Timed>)
    requires NeverCrashes(log)
    requires forall i :: 0 <= i < |again| ==> Covered(log, again[i].command)
    ensures var s := Run(Init, log);
            Run(s, again) == s.(revision := s.revision + AnonymousCount(again))
  {
    NotCrashed(log);
    if again != [] {
      var n := |again| - 1;
      RedeliveryMovesOnlyRevision(log, again[..n]);
      var j :| CoveredAt(log, again[n].command, j);
      RedeliverOne(log, Run(Run(Init, log), again[..n]), again[n], j);
    }
  }

  lemma RedeliverOne(log: seq<Timed>, s: State, e: Timed, j: nat)
    requires NeverCrashes(log) && CoveredAt(log, e.command, j)
    requires s == Run(Init, log).(revision := s.revision)
    ensures Step(s, e.command, e.now) == s.(revision := s.revision + if e.command.clientId == 0 then 1 else 0)
  {
    var c := e.command;
    NotCrashed(log);
    if c.clientId != 0 {
      TableIsHighest(log, c.clientId);
      assert log[j].command.requestId <= s.dedup[c.clientId];
    } else {
      RunKeeps(Init, log);
      forall id | id in IdSet(c.op.leaseIds) ensures id !in s.store.leases {
        ExpiredStayGone(log, j, id);
      }
      ExpiryIdleIff(s, c, e.now);
    }
  }

  lemma ExpiredStayGone(log: seq<Timed>, j: nat, id: int)
    requires NeverCrashes(log) && j < |log| && log[j].command.clientId == 0
    requires log[j].command.op.LeaseExpiry? && id in log[j].command.op.leaseIds && id <= StoreAt(log, j).seqNo
    ensures id !in Run(Init, log).store.leases
  {
    NotCrashed(log[..j]);
    RunSnoc(Init, log, j);
    CounterGrows(log, j, j + 1);
    var after := Run(Init, log[..j + 1]);
    assert id !in after.store.leases by {
      assert id in IdSet(log[j].command.op.leaseIds);
    }
    GoneForGood(after, log[j + 1..], id);
    RunConcat(Init, log[..j + 1], log[j + 1..]);
    assert log[..j + 1] + log[j + 1..] == log;
  }
}
