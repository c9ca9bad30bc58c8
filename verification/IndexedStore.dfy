/** The in-memory store with its two lease indexes. `Valid` says the indexes are exact
    inverses; `View` is the index-free meaning every method is proved against. */
module IndexedStore {
  import opened Text
  import opened Api
  import opened StoreSpec
  import opened Paging
  import opened Collections

  class Lease {
    const id: int
    const ttl: int
    var expiresAt: int
    var keys: set<string>

    constructor (id: int, ttl: int, expiresAt: int, keys: set<string>)
      ensures this.id == id && this.ttl == ttl && this.expiresAt == expiresAt && this.keys == keys
    {
      this.id, this.ttl, this.expiresAt, this.keys := id, ttl, expiresAt, keys;
    }
  }

  datatype LeaseSnapshot = LeaseSnapshot(id: int, ttl: int, expiresAt: int, keys: seq<string>)

  /** The store's part of a snapshot. */
  datatype StoreSnapshot = StoreSnapshot(
    data: map<string, string>,
    leases: map<int, LeaseSnapshot>,
    keyLease: map<string, int>,
    nextLeaseId: int)

  /** A snapshot whose two lease indexes agree. */
  ghost predicate Consistent(snap: StoreSnapshot) {
    && 0 <= snap.nextLeaseId
    && (forall id :: id in snap.leases ==> 1 <= id <= snap.nextLeaseId && snap.leases[id].id == id)
    && (forall k :: k in snap.keyLease ==>
          && k in snap.data && snap.keyLease[k] in snap.leases
          && k in snap.leases[snap.keyLease[k]].keys)
    && (forall id, k :: id in snap.leases && k in snap.leases[id].keys ==> k in snap.keyLease && snap.keyLease[k] == id)
  }

  function OwnerIn(keyLease: map<string, int>, key: string): Option<int> {
    if key in keyLease then Some(keyLease[key]) else None
  }

  /** `entries` is the key-to-value-and-owner map that `data` and `keyLease` describe together. */
  ghost predicate EntriesMatch(entries: map<string, Entry>, data: map<string, string>, keyLease: map<string, int>) {
    entries.Keys == data.Keys && forall k :: k in data ==> entries[k] == Entry(data[k], OwnerIn(keyLease, k))
  }

  /** The key index with one key given a new owner, or none. */
  function Reown(keyLease: map<string, int>, key: string, owner: Option<int>): map<string, int> {
    match owner
    case Some(id) => keyLease[key := id]
    case None => keyLease - {key}
  }

  lemma ReownTwice(keyLease: map<string, int>, key: string, a: Option<int>, b: Option<int>)
    ensures Reown(Reown(keyLease, key, a), key, b) == Reown(keyLease, key, b)
  {
  }

  lemma ReownSame(keyLease: map<string, int>, key: string)
    ensures Reown(keyLease, key, OwnerIn(keyLease, key)) == keyLease
  {
  }

  lemma MatchPut(entries: map<string, Entry>, data: map<string, string>, keyLease: map<string, int>,
                 key: string, value: string, owner: Option<int>)
    requires EntriesMatch(entries, data, keyLease)
    ensures EntriesMatch(entries[key := Entry(value, owner)], data[key := value], Reown(keyLease, key, owner))
  {
  }

  lemma MatchRemove(entries: map<string, Entry>, data: map<string, string>, keyLease: map<string, int>,
                    keys: set<string>)
    requires EntriesMatch(entries, data, keyLease)
    ensures EntriesMatch(entries - keys, data - keys, keyLease - keys)
  {
  }

  /** The keys the index files under a lease are the ones a scan by owner finds. */
  lemma MatchRevoke(s: Store, data: map<string, string>, keyLease: map<string, int>, id: int, keys: set<string>)
    requires EntriesMatch(s.entries, data, keyLease) && keyLease.Keys <= data.Keys
    requires keys == set k | k in keyLease && keyLease[k] == id
    ensures RevokedKeys(s, {id}) == keys
    ensures EntriesMatch(RevokeLeases(s, {id}).entries, data - keys, keyLease - keys)
  {
    var left := RevokeLeases(s, {id}).entries;
    assert left.Keys == (data - keys).Keys;
    forall k | k in data - keys ensures left[k] == Entry((data - keys)[k], OwnerIn(keyLease - keys, k)) {
    }
  }

  /** What a snapshot says, index-free. */
  ghost predicate Describes(snap: StoreSnapshot, s: Store) {
    && EntriesMatch(s.entries, snap.data, snap.keyLease)
    && (forall id :: id in s.leases <==> id in snap.leases)
    && (forall id :: id in snap.leases ==> s.leases[id] == LeaseInfo(snap.leases[id].ttl, snap.leases[id].expiresAt))
    && s.seqNo == snap.nextLeaseId
  }

  /** A snapshot says one thing only. */
  lemma DescribesOne(snap: StoreSnapshot, s: Store, t: Store)
    requires Describes(snap, s) && Describes(snap, t)
    ensures s == t
  {
    SameMap(s.entries, t.entries);
    forall id ensures id in s.leases <==> id in t.leases {
      assert id in s.leases <==> id in snap.leases;
    }
    forall id | id in s.leases ensures s.leases[id] == t.leases[id] {
      assert id in snap.leases;
    }
    SameMap(s.leases, t.leases);
  }

  class DataStore {
    var data: map<string, string>
    var leases: map<int, Lease>
    var keyLease: map<string, int>
    var leaseIdSeq: int
    ghost var cells: set<Lease>  // the lease objects this store may change
    ghost var view: Store        // what the store means, without indexes

    /** The two indexes are inverses and cover stored keys only, ids come from the counter,
        and all fields together mean `view`. */
    ghost predicate Valid()
      reads this, cells
    {
      Indexed() && EntriesMatch(view.entries, data, keyLease) && LeasesMatch() && view.seqNo == leaseIdSeq
    }

    ghost predicate Indexed()
      reads `data, `leases, `keyLease, `leaseIdSeq, `cells, cells`keys
    {
      && 0 <= leaseIdSeq
      && (forall id :: id in leases ==> 1 <= id <= leaseIdSeq && leases[id].id == id && leases[id] in cells)
      && (forall k :: k in keyLease ==> k in data && keyLease[k] in leases && k in leases[keyLease[k]].keys)
      && (forall id, k :: id in leases && k in leases[id].keys ==> k in keyLease && keyLease[k] == id)
    }

    ghost predicate LeasesMatch()
      requires forall id :: id in leases ==> leases[id] in cells
      reads `leases, `cells, `view, cells`expiresAt
    {
      && (forall id :: id in view.leases <==> id in leases)
      && (forall id :: id in leases ==> view.leases[id] == LeaseInfo(leases[id].ttl, leases[id].expiresAt))
    }

    constructor ()
      ensures Valid() && view == EmptyStore && cells == {}
    {
      data, leases, keyLease, leaseIdSeq, cells, view := map[], map[], map[], 0, {}, EmptyStore;
    }

    /** Every reachable store is well-formed and holds exactly `data`. */
    lemma ViewFacts()
      requires Valid()
      ensures WellFormed(view) && Data(view) == data
    {
      SameMap(Data(view), data);
      forall k | k in keyLease ensures keyLease[k] in view.leases {
        var id := keyLease[k];
        assert id in view.leases <==> id in leases;
      }
    }

    method Get(key: string) returns (value: string, found: bool)
      requires Valid()
      ensures (value, found) == Lookup(view, key)
    {
      found := key in data;
      value := if found then data[key] else "";
    }

    // ----- The lease index -----

    ghost function LiveLease(leaseId: int): Option<int>
      reads `leases
    {
      if leaseId in leases then Some(leaseId) else None
    }

    method DetachKeyFromLease(key: string)
      requires Indexed()
      modifies `keyLease, cells`keys
      ensures Indexed() && keyLease == Reown(old(keyLease), key, None)
    {
      if key in keyLease {
        var oldLeaseId := keyLease[key];
        keyLease := keyLease - {key};
        if oldLeaseId in leases {
          var l := leases[oldLeaseId];
          l.keys := l.keys - {key};
        }
      }
    }

    method AttachKeyToLease(key: string, leaseId: int)
      requires Indexed() && key in data
      modifies `keyLease, cells`keys
      ensures Indexed()
      ensures keyLease == Reown(old(keyLease), key, LiveLease(leaseId))
    {
      ReownTwice(keyLease, key, None, LiveLease(leaseId));
      DetachKeyFromLease(key);
      if leaseId in leases {
        LinkKey(key, leaseId);
      }
    }

    method LinkKey(key: string, leaseId: int)
      requires Indexed() && key in data && key !in keyLease && leaseId in leases
      modifies `keyLease, cells`keys
      ensures Indexed() && keyLease == Reown(old(keyLease), key, Some(leaseId))
    {
      var l := leases[leaseId];
      l.keys := l.keys + {key};
      keyLease := keyLease[key := leaseId];
    }

    // ----- Single-key writes -----

    method PutLocked(key: string, value: string, leaseId: int) returns (prev: string, found: bool)
      requires Valid()
      modifies this, cells`keys
      ensures Valid() && leases == old(leases) && cells == old(cells)
      ensures view == PutKey(old(view), key, value, leaseId)
      ensures (prev, found) == Lookup(old(view), key)
    {
      MatchPut(view.entries, data, keyLease, key, value, LiveLease(leaseId));
      view := PutKey(view, key, value, leaseId);
      prev, found := WriteOwned(key, value, leaseId);
    }

    /** The body of `putLocked`, on the raw fields. */
    method WriteOwned(key: string, value: string, leaseId: int) returns (prev: string, found: bool)
      requires Indexed()
      modifies `data, `keyLease, cells`keys
      ensures Indexed() && data == old(data)[key := value] && keyLease == Reown(old(keyLease), key, LiveLease(leaseId))
      ensures found == (key in old(data)) && prev == if found then old(data)[key] else ""
    {
      ReownTwice(keyLease, key, None, LiveLease(leaseId));
      DetachKeyFromLease(key);
      found := key in data;
      prev := if found then data[key] else "";
      data := data[key := value];
      if leaseId != 0 {
        AttachKeyToLease(key, leaseId);
      }
    }

    method AppendLocked(key: string, value: string) returns (prev: string, found: bool)
      requires Valid()
      modifies `data, `view
      ensures Valid() && leases == old(leases) && cells == old(cells)
      ensures view == AppendKey(old(view), key, value)
      ensures (prev, found) == Lookup(old(view), key)
    {
      found := key in data;
      prev := if found then data[key] else "";
      ReownSame(keyLease, key);
      MatchPut(view.entries, data, keyLease, key, prev + value, OwnerIn(keyLease, key));
      view := AppendKey(view, key, value);
      data := data[key := prev + value];
    }

    method CasLocked(key: string, compare: string, value: string) returns (prev: string, found: bool)
      requires Valid()
      modifies `data, `view
      ensures Valid() && leases == old(leases) && cells == old(cells)
      ensures view == CasKey(old(view), key, compare, value)
      ensures (prev, found) == Lookup(old(view), key)
    {
      found := key in data;
      prev := if found then data[key] else "";
      view := CasKey(view, key, compare, value);
      if found && prev == compare {
        data := data[key := value];
      }
    }

    method DeleteLocked(key: string) returns (prev: string, found: bool)
      requires Valid()
      modifies this, cells`keys
      ensures Valid() && leases == old(leases) && cells == old(cells)
      ensures view == DeleteKey(old(view), key)
      ensures (prev, found) == Lookup(old(view), key)
    {
      MatchRemove(view.entries, data, keyLease, {key});
      view := DeleteKey(view, key);
      prev, found := RemoveOwned(key);
    }

    /** The body of `deleteLocked`, on the raw fields. */
    method RemoveOwned(key: string) returns (prev: string, found: bool)
      requires Indexed()
      modifies `data, `keyLease, cells`keys
      ensures Indexed() && data == old(data) - {key} && keyLease == old(keyLease) - {key}
      ensures found == (key in old(data)) && prev == if found then old(data)[key] else ""
    {
      DetachKeyFromLease(key);
      found := key in data;
      prev := if found then data[key] else "";
      data := data - {key};
    }

    // ----- Leases -----

    method GrantLease(ttl: int, now: int) returns (id: int)
      requires Valid()
      modifies this
      ensures Valid() && view == Grant(old(view), ttl, now)
      ensures id == old(leaseIdSeq) + 1 && id !in old(leases)
      ensures fresh(cells - old(cells))
    {
      leaseIdSeq := leaseIdSeq + 1;
      id := leaseIdSeq;
      var l := new Lease(id, ttl, Deadline(now, ttl), {});
      leases, cells := leases[id := l], cells + {l};
      view := Grant(view, ttl, now);
    }

    method KeepAliveLease(id: int, now: int) returns (found: bool)
      requires Valid()
      modifies `view, cells`expiresAt
      ensures Valid() && view == KeepAlive(old(view), id, now)
      ensures found == (id in leases)
    {
      found := id in leases;
      if found {
        var l := leases[id];
        l.expiresAt := Deadline(now, l.ttl);
      }
      view := KeepAlive(view, id, now);
    }

    /** Following the lease's own key set removes exactly what a scan of all keys would. */
    method RevokeLease(id: int) returns (keys: seq<string>)
      requires Valid()
      modifies this
      ensures Valid() && leases == old(leases) - {id} && cells == old(cells)
      ensures view == RevokeLeases(old(view), {id})
      ensures Enumerates(keys, RevokedKeys(old(view), {id}))
    {
      ghost var owned := set k | k in keyLease && keyLease[k] == id;
      MatchRevoke(view, data, keyLease, id, owned);
      view := RevokeLeases(view, {id});
      if id in leases {
        keys := RemoveLease(id);
      } else {
        keys := [];
        assert owned == {};
      }
    }

    /** The body of `RevokeLease`, on the raw fields. */
    method RemoveLease(id: int) returns (keys: seq<string>)
      requires Indexed() && id in leases
      modifies `data, `keyLease, `leases
      ensures Indexed() && leases == old(leases) - {id}
      ensures var owned := set k | k in old(keyLease) && old(keyLease)[k] == id;
              data == old(data) - owned && keyLease == old(keyLease) - owned && Enumerates(keys, owned)
    {
      var l := leases[id];
      leases := leases - {id};
      keys := DropKeys(l.keys);
      assert l.keys == set k | k in old(keyLease) && old(keyLease)[k] == id;
    }

    method DropKeys(keys: set<string>) returns (order: seq<string>)
      modifies `data, `keyLease
      ensures data == old(data) - keys && keyLease == old(keyLease) - keys
      ensures Enumerates(order, keys)
    {
      order := [];
      var rest := keys;
      while rest != {}
        invariant rest <= keys && Enumerates(order, keys - rest)
        invariant data == old(data) - (keys - rest) && keyLease == old(keyLease) - (keys - rest)
      {
        var k :| k in rest;
        order := order + [k];
        data := data - {k};
        keyLease := keyLease - {k};
        rest := rest - {k};
      }
    }

    method CheckExpiredLeases(now: int) returns (expired: seq<int>)
      requires Valid()
      ensures Enumerates(expired, ExpiredAt(view, now))
    {
      var ids := Enumerate(leases.Keys);
      expired := [];
      for i := 0 to |ids|
        invariant forall m, n :: 0 <= m < n < |expired| ==> expired[m] != expired[n]
        invariant forall x :: x in expired <==> x in ids[..i] && now > leases[x].expiresAt
      {
        assert ids[..i + 1] == ids[..i] + [ids[i]];
        if now > leases[ids[i]].expiresAt {
          expired := expired + [ids[i]];
        }
      }
      assert ids[..|ids|] == ids;
    }

    // ----- Transactions -----

    method Txn(conditions: seq<TxnCondition>, success: seq<TxnOp>, failure: seq<TxnOp>)
        returns (allMet: bool, results: seq<TxnOpResult>)
      requires Valid()
      modifies this, cells`keys
      ensures Valid() && leases == old(leases) && cells == old(cells)
      ensures allMet == AllMet(old(view), conditions)
      ensures var branch := if allMet then success else failure;
              view == ApplyOps(old(view), branch) && results == OpResults(old(view), branch)
    {
      allMet := true;
      var c := 0;
      while c < |conditions|
        invariant 0 <= c <= |conditions| && allMet
        invariant forall i :: 0 <= i < c ==> EvalCondition(view, conditions[i])
        modifies {}
      {
        var met := EvalConditionLocked(conditions[c]);
        if !met {
          allMet := false;
          break;
        }
        c := c + 1;
      }

      results := RunBranch(if allMet then success else failure);
    }

    /** The second half of `Txn`: apply one branch, operation by operation. */
    method RunBranch(branch: seq<TxnOp>) returns (results: seq<TxnOpResult>)
      requires Valid()
      modifies this, cells`keys
      ensures Valid() && leases == old(leases) && cells == old(cells)
      ensures view == ApplyOps(old(view), branch) && results == OpResults(old(view), branch)
    {
      ghost var before := view;
      results := [];
      var i := 0;
      while i < |branch|
        invariant 0 <= i <= |branch| && Valid() && leases == old(leases) && cells == old(cells)
        invariant view == ApplyOps(before, branch[..i])
        invariant results == OpResults(before, branch)[..i]
      {
        var r := ApplyOpLocked(branch[i]);
        results := results + [r];
        ApplyOpsSnoc(before, branch, i);
        i := i + 1;
      }
      assert branch[..i] == branch;
    }

    method ApplyOpLocked(op: TxnOp) returns (r: TxnOpResult)
      requires Valid()
      modifies this, cells`keys
      ensures Valid() && leases == old(leases) && cells == old(cells)
      ensures view == ApplyOp(old(view), op) && r == OpResult(old(view), op)
    {
      var prev, found := "", false;
      match op.op {
        case OpPut => prev, found := PutLocked(op.key, op.value, op.leaseId);
        case OpDelete => prev, found := DeleteLocked(op.key);
        case OpCas => prev, found := CasLocked(op.key, op.compareValue, op.value);
        case OpAppend => prev, found := AppendLocked(op.key, op.value);
        case OpOther(_) =>
      }
      r := TxnOpResult(op.key, prev, found);
    }

    method EvalConditionLocked(c: TxnCondition) returns (met: bool)
      requires Valid()
      ensures met == EvalCondition(view, c)
    {
      var v, ok := Get(c.key);
      match c.compare {
        case EQ => met := ok && v == c.value;
        case NEQ => met := !ok || v != c.value;
        case GTE =>
          if !ok { return false; }
          match (ParseInt(v), ParseInt(c.value)) {
            case (Some(vi), Some(ci)) => met := vi >= ci;
            case _ => met := LexLe(c.value, v);
          }
        case LTE =>
          if !ok { return false; }
          match (ParseInt(v), ParseInt(c.value)) {
            case (Some(vi), Some(ci)) => met := vi <= ci;
            case _ => met := LexLe(v, c.value);
          }
        case Exists => met := ok;
        case NotExists => met := !ok;
        case OtherCompare(_) => met := false;
      }
    }

    // ----- Listing -----

    method List(prefix: string) returns (result: map<string, string>)
      ensures result == ListPrefix(data, prefix)
    {
      result := map[];
      var rest := data.Keys;
      while rest != {}
        invariant rest <= data.Keys
        invariant result == map k | k in data.Keys - rest && HasPrefix(k, prefix) :: data[k]
      {
        var k :| k in rest;
        rest := rest - {k};
        if HasPrefix(k, prefix) {
          result := result[k := data[k]];
        }
      }
    }

    /** Collect the matching keys in map order, then sort them. */
    method SortedCandidates(prefix: string, keyAfter: string) returns (keys: seq<string>)
      ensures keys == SortedKeys(Candidates(data, prefix, keyAfter))
      ensures forall k :: k in keys ==> k in data
    {
      var order := Enumerate(data.Keys);
      keys := [];
      for i := 0 to |order|
        invariant StrictlySorted(keys)
        invariant forall k :: k in keys <==> k in order[..i] && HasPrefix(k, prefix) && LexLe(keyAfter, k)
      {
        assert order[..i + 1] == order[..i] + [order[i]];
        if HasPrefix(order[i], prefix) && LexLe(keyAfter, order[i]) {
          keys := InsertSorted(keys, order[i]);
        }
      }
      assert order[..|order|] == order;
      assert (set k | k in keys) == Candidates(data, prefix, keyAfter);
      SortedUnique(keys, Candidates(data, prefix, keyAfter));
    }

    method ListPaged(prefix: string, limit: int, keyAfter: string) returns (result: map<string, string>,
                     nextKey: string)
      ensures Page(result, nextKey) == PageOf(data, prefix, limit, keyAfter)
    {
      var keys := SortedCandidates(prefix, keyAfter);
      result, nextKey := map[], "";
      var i := 0;
      while i < |keys|
        invariant 0 <= i <= |keys| && (limit > 0 ==> i <= limit) && nextKey == ""
        invariant result == Restrict(data, keys[..i])
      {
        if limit > 0 && i >= limit {
          nextKey := keys[i];
          return;
        }
        RestrictSnoc(data, keys, i);
        result := result[keys[i] := data[keys[i]]];
        i := i + 1;
      }
      assert keys[..i] == keys;
    }

    // ----- Snapshots -----

    /** `CopyAll` and `GetLeaseSnapshot`. */
    method TakeSnapshot() returns (snap: StoreSnapshot)
      requires Valid()
      ensures Consistent(snap) && Describes(snap, view)
    {
      var ls := SnapshotLeases();
      snap := StoreSnapshot(data, ls, keyLease, leaseIdSeq);
    }

    method SnapshotLeases() returns (ls: map<int, LeaseSnapshot>)
      ensures ls.Keys == leases.Keys
      ensures forall id :: id in ls ==> SameLease(leases[id], ls[id])
    {
      ls := map[];
      var ids := Enumerate(leases.Keys);
      for i := 0 to |ids|
        invariant ls.Keys == (set id | id in ids[..i])
        invariant forall id :: id in ls ==> SameLease(leases[id], ls[id])
      {
        var l := leases[ids[i]];
        var keys := Enumerate(l.keys);
        ls := ls[ids[i] := LeaseSnapshot(l.id, l.ttl, l.expiresAt, keys)];
      }
    }

    /** `RestoreAll` and `RestoreFromLeaseSnapshot`: what was there before does not matter.
        `meaning` is what the snapshot says. */
    method Restore(snap: StoreSnapshot, ghost meaning: Store)
      requires Describes(snap, meaning)
      modifies this
      ensures data == snap.data && keyLease == snap.keyLease && leaseIdSeq == snap.nextLeaseId
      ensures view == meaning && (Consistent(snap) ==> Valid())
      ensures fresh(cells)
    {
      data := snap.data;
      leases := RebuildLeases(snap.leases);
      cells := set id | id in leases :: leases[id];
      keyLease := snap.keyLease;
      leaseIdSeq := snap.nextLeaseId;
      view := meaning;
      if Consistent(snap) {
        HoldsSnapshot(snap);
      }
    }

    lemma HoldsSnapshot(snap: StoreSnapshot)
      requires Consistent(snap) && Describes(snap, view)
      requires data == snap.data && keyLease == snap.keyLease && leaseIdSeq == snap.nextLeaseId
      requires leases.Keys == snap.leases.Keys
      requires forall id :: id in leases ==> leases[id] in cells && SameLease(leases[id], snap.leases[id])
      ensures Valid()
    {
    }

    static method RebuildLeases(ls: map<int, LeaseSnapshot>) returns (restored: map<int, Lease>)
      ensures restored.Keys == ls.Keys
      ensures forall id :: id in restored ==> fresh(restored[id]) && SameLease(restored[id], ls[id])
    {
      restored := map[];
      var ids := Enumerate(ls.Keys);
      for i := 0 to |ids|
        invariant restored.Keys == (set id | id in ids[..i])
        invariant forall id :: id in restored ==> fresh(restored[id]) && SameLease(restored[id], ls[id])
      {
        var s := ls[ids[i]];
        var l := new Lease(s.id, s.ttl, s.expiresAt, set k | k in s.keys);
        restored := restored[ids[i] := l];
      }
    }
  }

  ghost predicate SameLease(l: Lease, s: LeaseSnapshot)
    reads l
  {
    l.id == s.id && l.ttl == s.ttl && l.expiresAt == s.expiresAt && l.keys == set k | k in s.keys
  }

  lemma RestrictSnoc(data: map<string, string>, keys: seq<string>, i: nat)
    requires i < |keys| && keys[i] in data
    ensures Restrict(data, keys[..i + 1]) == Restrict(data, keys[..i])[keys[i] := data[keys[i]]]
  {
    assert keys[..i + 1] == keys[..i] + [keys[i]];
  }

  /** One step of sorting: place a new key. */
  function InsertSorted(keys: seq<string>, key: string): (r: seq<string>)
    requires StrictlySorted(keys) && key !in keys
    ensures StrictlySorted(r)
    ensures forall k :: k in r <==> k == key || k in keys
  {
    if keys == [] then [key]
    else
      LexTotal(key, keys[0]);
      if LexLe(key, keys[0]) then
        InsertFirst(keys, key);
        [key] + keys
      else
        var r := InsertSorted(keys[1..], key);
        InsertLater(keys, key, r);
        [keys[0]] + r
  }

  lemma InsertFirst(keys: seq<string>, key: string)
    requires StrictlySorted(keys) && keys != [] && LexLt(key, keys[0])
    ensures StrictlySorted([key] + keys)
  {
    forall j | 0 <= j < |keys| ensures LexLt(key, keys[j]) {
      if j > 0 {
        LexTransitive(key, keys[0], keys[j]);
        if key == keys[j] {
          LexAntisymmetric(key, keys[0]);
        }
      }
    }
  }

  lemma InsertLater(keys: seq<string>, key: string, r: seq<string>)
    requires StrictlySorted(keys) && keys != [] && LexLt(keys[0], key)
    requires StrictlySorted(r) && forall k :: k in r <==> k == key || k in keys[1..]
    ensures StrictlySorted([keys[0]] + r)
    ensures forall k :: k in [keys[0]] + r <==> k == key || k in keys
  {
    forall j | 0 <= j < |r| ensures LexLt(keys[0], r[j]) {
      assert r[j] in r;
    }
    assert keys == [keys[0]] + keys[1..];
  }
}
