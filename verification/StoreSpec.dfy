/** What the key-value store means, without its indexes: every key has a value and
    possibly an owning lease. Revoking a lease scans all keys for that owner. */
module StoreSpec {
  import opened Text
  import opened Api

  datatype Entry = Entry(value: string, owner: Option<int>)

  datatype LeaseInfo = LeaseInfo(ttl: int, expiresAt: int)

  datatype Store = Store(entries: map<string, Entry>, leases: map<int, LeaseInfo>, seqNo: int)

  const EmptyStore := Store(map[], map[], 0)

  /** The plain key-value content. */
  function Data(s: Store): map<string, string> {
    map k | k in s.entries :: s.entries[k].value
  }

  /** Go's two-valued map read: the zero value stands for a missing key. */
  function Lookup(s: Store, key: string): (string, bool) {
    if key in s.entries then (s.entries[key].value, true) else ("", false)
  }

  function Owner(s: Store, key: string): Option<int> {
    if key in s.entries then s.entries[key].owner else None
  }

  /** Lease ids come from the counter, and only live leases own keys. */
  ghost predicate WellFormed(s: Store) {
    && 0 <= s.seqNo
    && (forall id :: id in s.leases ==> 1 <= id <= s.seqNo)
    && (forall k :: k in s.entries && s.entries[k].owner.Some? ==> s.entries[k].owner.value in s.leases)
  }

  // ----- Writes -----

  /** A put takes over the key: the new owner is the named lease if it is live, else nobody. */
  function PutKey(s: Store, key: string, value: string, leaseId: int): Store {
    var owner := if leaseId != 0 && leaseId in s.leases then Some(leaseId) else None;
    s.(entries := s.entries[key := Entry(value, owner)])
  }

  function AppendKey(s: Store, key: string, value: string): Store {
    s.(entries := s.entries[key := Entry(Lookup(s, key).0 + value, Owner(s, key))])
  }

  function CasKey(s: Store, key: string, compare: string, value: string): Store {
    if Lookup(s, key) == (compare, true)
    then s.(entries := s.entries[key := s.entries[key].(value := value)])
    else s
  }

  function DeleteKey(s: Store, key: string): Store {
    s.(entries := s.entries - {key})
  }

  // ----- Leases -----

  const NANOS_PER_SECOND := 1_000_000_000

  /** Truncation to int64. */
  function Wrap64(n: int): int {
    (n + TWO_63) % (2 * TWO_63) - TWO_63
  }

  /** `now + time.Duration(ttl) * time.Second`: the product is int64 arithmetic. */
  function Deadline(now: int, ttl: int): int {
    now + Wrap64(ttl * NANOS_PER_SECOND)
  }

  /** The deadline is `ttl` seconds away exactly when the product fits in int64. */
  lemma DeadlineExact(now: int, ttl: int)
    requires IsInt64(ttl)
    ensures Deadline(now, ttl) == now + ttl * NANOS_PER_SECOND <==> -9223372036 <= ttl <= 9223372036
  {
    var n := ttl * NANOS_PER_SECOND;
    if !(-TWO_63 <= n < TWO_63) {
      assert -TWO_63 <= Wrap64(n) < TWO_63;
    }
  }

  function Grant(s: Store, ttl: int, now: int): Store {
    var id := s.seqNo + 1;
    s.(seqNo := id, leases := s.leases[id := LeaseInfo(ttl, Deadline(now, ttl))])
  }

  function KeepAlive(s: Store, id: int, now: int): Store {
    if id in s.leases
    then s.(leases := s.leases[id := s.leases[id].(expiresAt := Deadline(now, s.leases[id].ttl))])
    else s
  }

  /** Revoking leases: one scan drops every key owned by any of them. */
  function RevokeLeases(s: Store, ids: set<int>): Store {
    s.(entries := map k | k in s.entries && !OwnedByAny(s, k, ids) :: s.entries[k],
       leases := s.leases - ids)
  }

  predicate OwnedByAny(s: Store, key: string, ids: set<int>)
    requires key in s.entries
  {
    s.entries[key].owner.Some? && s.entries[key].owner.value in ids
  }

  function RevokedKeys(s: Store, ids: set<int>): set<string> {
    set k | k in s.entries && OwnedByAny(s, k, ids)
  }

  function IdSet(ids: seq<int>): set<int> {
    set id | id in ids
  }

  /** The leases the expiry loop would propose to revoke. */
  function ExpiredAt(s: Store, now: int): set<int> {
    set id | id in s.leases && now > s.leases[id].expiresAt
  }

  // ----- Transactions -----

  predicate EvalCondition(s: Store, c: TxnCondition) {
    var (v, ok) := Lookup(s, c.key);
    match c.compare
    case EQ => ok && v == c.value
    case NEQ => !ok || v != c.value
    case GTE => ok && AtMost(c.value, v)
    case LTE => ok && AtMost(v, c.value)
    case Exists => ok
    case NotExists => !ok
    case OtherCompare(_) => false
  }

  /** `a <= b` as numbers when both are int64 numerals, else as strings. */
  predicate AtMost(a: string, b: string) {
    match (ParseInt(a), ParseInt(b))
    case (Some(m), Some(n)) => m <= n
    case _ => LexLe(a, b)
  }

  predicate AllMet(s: Store, conditions: seq<TxnCondition>) {
    forall i :: 0 <= i < |conditions| ==> EvalCondition(s, conditions[i])
  }

  function Branch(s: Store, txn: Operation): seq<TxnOp>
    requires txn.Txn?
  {
    if AllMet(s, txn.conditions) then txn.success else txn.failure
  }

  function ApplyOp(s: Store, op: TxnOp): Store {
    match op.op
    case OpPut => PutKey(s, op.key, op.value, op.leaseId)
    case OpDelete => DeleteKey(s, op.key)
    case OpCas => CasKey(s, op.key, op.compareValue, op.value)
    case OpAppend => AppendKey(s, op.key, op.value)
    case OpOther(_) => s
  }

  function OpResult(s: Store, op: TxnOp): TxnOpResult {
    if op.op.OpOther? then TxnOpResult(op.key, "", false)
    else TxnOpResult(op.key, Lookup(s, op.key).0, Lookup(s, op.key).1)
  }

  /** A left fold of single operations. */
  function ApplyOps(s: Store, ops: seq<TxnOp>): Store {
    if ops == [] then s else ApplyOp(ApplyOps(s, ops[..|ops| - 1]), ops[|ops| - 1])
  }

  /** Entry `i` reports what operation `i` found, that is, the state after the ones before it. */
  function OpResults(s: Store, ops: seq<TxnOp>): seq<TxnOpResult> {
    seq(|ops|, i requires 0 <= i < |ops| => OpResult(ApplyOps(s, ops[..i]), ops[i]))
  }

  lemma ApplyOpsSnoc(s: Store, ops: seq<TxnOp>, i: nat)
    requires i < |ops|
    ensures ApplyOps(s, ops[..i + 1]) == ApplyOp(ApplyOps(s, ops[..i]), ops[i])
  {
    assert ops[..i + 1][..i] == ops[..i];
  }

  function EntryAt(s: Store, key: string): Option<Entry> {
    if key in s.entries then Some(s.entries[key]) else None
  }

  /** The operations of a branch that name a key. */
  function OpsOn(ops: seq<TxnOp>, key: string): seq<TxnOp> {
    if ops == [] then []
    else OpsOn(ops[..|ops| - 1], key) + if ops[|ops| - 1].key == key then [ops[|ops| - 1]] else []
  }

  /** A branch does to each key what its operations on that key alone would do, in their order. */
  lemma {:induction false} OpsActPerKey(s: Store, ops: seq<TxnOp>, key: string)
    ensures EntryAt(ApplyOps(s, ops), key) == EntryAt(ApplyOps(s, OpsOn(ops, key)), key)
    ensures ApplyOps(s, ops).leases == ApplyOps(s, OpsOn(ops, key)).leases == s.leases
  {
    if ops != [] {
      var front, op := ops[..|ops| - 1], ops[|ops| - 1];
      OpsActPerKey(s, front, key);
      var mine := OpsOn(front, key);
      if op.key == key {
        assert (mine + [op])[..|mine|] == mine;
        OpActsAlike(ApplyOps(s, front), ApplyOps(s, mine), op);
      } else {
        assert OpsOn(ops, key) == mine;
      }
    }
  }

  lemma OpActsAlike(s: Store, t: Store, op: TxnOp)
    requires EntryAt(s, op.key) == EntryAt(t, op.key) && s.leases == t.leases
    ensures EntryAt(ApplyOp(s, op), op.key) == EntryAt(ApplyOp(t, op), op.key)
  {
    assert Lookup(s, op.key) == Lookup(t, op.key);
  }

  // ----- Every write keeps the store well-formed -----

  lemma ApplyOpKeeps(s: Store, op: TxnOp)
    requires WellFormed(s)
    ensures WellFormed(ApplyOp(s, op))
    ensures ApplyOp(s, op).leases == s.leases && ApplyOp(s, op).seqNo == s.seqNo
  {
  }

  lemma {:induction false} ApplyOpsKeeps(s: Store, ops: seq<TxnOp>)
    requires WellFormed(s)
    ensures WellFormed(ApplyOps(s, ops))
    ensures ApplyOps(s, ops).leases == s.leases && ApplyOps(s, ops).seqNo == s.seqNo
  {
    if ops != [] {
      ApplyOpsKeeps(s, ops[..|ops| - 1]);
      ApplyOpKeeps(ApplyOps(s, ops[..|ops| - 1]), ops[|ops| - 1]);
    }
  }

  /** Revoking one lease after others is revoking them together. */
  lemma RevokeTwice(s: Store, a: set<int>, b: set<int>)
    ensures RevokeLeases(RevokeLeases(s, a), b) == RevokeLeases(s, a + b)
    ensures RevokedKeys(s, a + b) == RevokedKeys(s, a) + RevokedKeys(RevokeLeases(s, a), b)
  {
    var l, r := RevokeLeases(RevokeLeases(s, a), b), RevokeLeases(s, a + b);
    assert l.entries == r.entries;
    assert l.leases == r.leases;
  }
}
