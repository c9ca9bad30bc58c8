/** What conditions, commands, answers and events mean, said by what a client can observe: values under
    keys, owners, leases, replies, and the events seen so far. */
module Meanings {
  import opened Text
  import opened Api
  import opened StoreSpec
  import opened Paging
  import opened Views
  import opened Machine
  import opened MaterialisedView

  // ----- Conditions -----

  ghost predicate Holds(s: Store, key: string, compare: CompareOp, value: string) {
    EvalCondition(s, TxnCondition(key, compare, value))
  }

  /** Between two numerals of int64 numbers, however they are spelled, the numbers decide. */
  lemma NumericConditions(s: Store, key: string, held: string, value: string, m: int, n: int)
    requires At(Data(s), key) == Some(held) && IsInt64(m) && IsInt64(n) && Numeral(held, m) && Numeral(value, n)
    ensures Holds(s, key, GTE, value) <==> m >= n
    ensures Holds(s, key, LTE, value) <==> m <= n
  {
    ParseIff(held, m);
    ParseIff(value, n);
    ParsedConditions(s, key, held, value, m, n);
  }

  lemma ParsedConditions(s: Store, key: string, held: string, value: string, m: int, n: int)
    requires At(Data(s), key) == Some(held) && ParseInt(held) == Some(m) && ParseInt(value) == Some(n)
    ensures Holds(s, key, GTE, value) <==> m >= n
    ensures Holds(s, key, LTE, value) <==> m <= n
  {
  }

  /** As the store itself prints numbers. */
  lemma PrintedConditions(s: Store, key: string, m: int, n: int)
    requires At(Data(s), key) == Some(FormatInt(m)) && IsInt64(m) && IsInt64(n)
    ensures Holds(s, key, GTE, FormatInt(n)) <==> m >= n
    ensures Holds(s, key, LTE, FormatInt(n)) <==> m <= n
    ensures Holds(s, key, EQ, FormatInt(n)) <==> m == n
  {
    FormatIsNumeral(m);
    FormatIsNumeral(n);
    NumericConditions(s, key, FormatInt(m), FormatInt(n), m, n);
    ParseFormat(m);
    ParseFormat(n);
  }

  ghost predicate IsNumeral(s: string) {
    exists n :: IsInt64(n) && Numeral(s, n)
  }

  /** With anything else on either side, the order of the first difference decides. */
  lemma TextConditions(s: Store, key: string, held: string, value: string)
    requires At(Data(s), key) == Some(held) && !(IsNumeral(held) && IsNumeral(value))
    ensures Holds(s, key, GTE, value) <==> value == held || Before(value, held)
    ensures Holds(s, key, LTE, value) <==> held == value || Before(held, value)
  {
    forall t: string ensures ParseInt(t).Some? <==> IsNumeral(t) {
      if ParseInt(t).Some? {
        ParseIff(t, ParseInt(t).value);
      }
      if IsNumeral(t) {
        var n :| IsInt64(n) && Numeral(t, n);
        ParseIff(t, n);
      }
    }
    BeforeIff(value, held);
    BeforeIff(held, value);
  }

  /** The other comparisons: equality of texts, presence, and their opposites; on a missing key only the
      two negative ones hold, and an unknown code never does. */
  lemma PlainConditions(s: Store, key: string, value: string, code: int)
    ensures Holds(s, key, EQ, value) <==> At(Data(s), key) == Some(value)
    ensures Holds(s, key, NEQ, value) <==> !Holds(s, key, EQ, value)
    ensures Holds(s, key, Exists, value) <==> At(Data(s), key).Some?
    ensures Holds(s, key, NotExists, value) <==> !Holds(s, key, Exists, value)
    ensures At(Data(s), key) == None ==> !Holds(s, key, GTE, value) && !Holds(s, key, LTE, value)
    ensures !Holds(s, key, OtherCompare(code), value)
  {
  }

  // ----- Which branch runs -----

  /** A transaction runs its first branch when there is no condition, and one more condition decides
      together with the rest. */
  lemma ConditionsConjoin(s: Store, a: seq<TxnCondition>, c: TxnCondition)
    ensures AllMet(s, [])
    ensures AllMet(s, a + [c]) <==> AllMet(s, a) && Holds(s, c.key, c.compare, c.value)
    ensures AllMet(s, [c]) <==> Holds(s, c.key, c.compare, c.value)
  {
    if AllMet(s, a + [c]) {
      forall i | 0 <= i < |a| ensures EvalCondition(s, a[i]) {
        assert a[i] == (a + [c])[i];
      }
      assert c == (a + [c])[|a|];
    }
    assert AllMet(s, [c]) ==> EvalCondition(s, [c][0]);
  }

  ghost predicate Runs(s: State, c: Command, now: int, ops: seq<TxnOp>) {
    Step(s, c, now).store == ApplyOps(s.store, ops)
  }

  /** Of a transaction with one condition, the store before it decides which branch runs, and the reply
      says which. */
  lemma TxnRuns(s: State, condition: TxnCondition, success: seq<TxnOp>, failure: seq<TxnOp>,
                client: int, request: int, now: int)
    requires Applies(s, Command(Txn([condition], success, failure), client, request))
    ensures var c := Command(Txn([condition], success, failure), client, request);
            var holds := Holds(s.store, condition.key, condition.compare, condition.value);
            && Runs(s, c, now, if holds then success else failure)
            && ReplyTo(s, c).Some? && ReplyTo(s, c).value.answer.txn.Some?
            && ReplyTo(s, c).value.answer.txn.value.succeeded == holds
            && |ReplyTo(s, c).value.answer.txn.value.results| == |if holds then success else failure|
  {
    ConditionsConjoin(s.store, [], condition);
  }

  // ----- Single writes -----

  /** Only what is under the key has changed. */
  ghost predicate OnlyAt(s: Store, t: Store, key: string) {
    && (forall k :: k != key ==> EntryAt(t, k) == EntryAt(s, k))
    && t.leases == s.leases && t.seqNo == s.seqNo
  }

  /** A put leaves the value, and the key to the lease it names if that is live. */
  lemma PutMeans(s: Store, key: string, value: string, leaseId: int)
    ensures var t := PutKey(s, key, value, leaseId);
            && OnlyAt(s, t, key) && At(Data(t), key) == Some(value)
            && (leaseId != 0 && leaseId in s.leases ==> Owner(t, key) == Some(leaseId))
            && (leaseId == 0 || leaseId !in s.leases ==> Owner(t, key) == None)
  {
  }

  /** An append leaves what was there followed by the value, and the owner as it was. */
  lemma AppendMeans(s: Store, key: string, value: string)
    ensures var t := AppendKey(s, key, value); var held := At(Data(s), key);
            && OnlyAt(s, t, key) && Owner(t, key) == Owner(s, key) && At(Data(t), key).Some?
            && var now, n := At(Data(t), key).value, if held.Some? then |held.value| else 0;
               && |now| == n + |value| && now[n..] == value && (held.Some? ==> now[..n] == held.value)
  {
  }

  /** A swap takes place just when the key has the value compared with; else nothing changes at all. */
  lemma CasMeans(s: Store, key: string, compare: string, value: string)
    ensures var t := CasKey(s, key, compare, value);
            && OnlyAt(s, t, key) && Owner(t, key) == Owner(s, key)
            && (At(Data(s), key) == Some(compare) ==> At(Data(t), key) == Some(value))
            && (At(Data(s), key) != Some(compare) ==> t == s)
  {
  }

  lemma DeleteMeans(s: Store, key: string)
    ensures var t := DeleteKey(s, key); OnlyAt(s, t, key) && EntryAt(t, key) == None
  {
  }

  /** A command writes its one key so, whatever the clock says. */
  lemma CommandWrites(s: State, c: Command, now: int)
    requires Applies(s, c) && (c.op.Put? || c.op.Append? || c.op.Cas?)
    ensures var t := Step(s, c, now).store;
            && OnlyAt(s.store, t, c.op.key)
            && (c.op.Put? ==> At(Data(t), c.op.key) == Some(c.op.value))
            && (c.op.Cas? && At(Data(s.store), c.op.key) == Some(c.op.compare) ==>
                  At(Data(t), c.op.key) == Some(c.op.value))
            && (c.op.Cas? && At(Data(s.store), c.op.key) != Some(c.op.compare) ==> t == s.store)
            && (c.op.Append? && At(Data(s.store), c.op.key) == None ==> At(Data(t), c.op.key) == Some(c.op.value))
            && (c.op.Append? && At(Data(s.store), c.op.key).Some? ==>
                  At(Data(t), c.op.key) == Some(At(Data(s.store), c.op.key).value + c.op.value))
  {
    assert "" + c.op.value == c.op.value;
  }

  /** The operation of a single-write command. */
  function OpOf(op: Operation): TxnOp
    requires op.Put? || op.Append? || op.Cas?
  {
    match op
    case Put(key, value, leaseId) => TxnOp(OpPut, key, value, "", leaseId)
    case Append(key, value) => TxnOp(OpAppend, key, value, "", 0)
    case Cas(key, compare, value) => TxnOp(OpCas, key, value, compare, 0)
  }

  lemma OneOp(s: Store, op: TxnOp, revision: int)
    ensures ApplyOps(s, [op]) == ApplyOp(s, op) && OpResults(s, [op]) == [OpResult(s, op)]
    ensures TxnEvents([op], OpResults(s, [op]), ApplyOp(s, op), revision)
         == if OpEmits(op, OpResult(s, op)) then [OpEvent(op, OpResult(s, op), ApplyOp(s, op), revision)] else []
  {
    assert [op][..0] == [];
    var results := OpResults(s, [op]);
    assert results[..0] == [] && results[0] == OpResult(s, op);
  }

  /** A single write and the transaction of that one operation do the same: to the whole state, in what they
      report to have found, and in what they emit. */
  lemma WriteIsOneOpTxn(s: State, c: Command, now: int, events: seq<WatchEvent>)
    requires Applies(s, c) && (c.op.Put? || c.op.Append? || c.op.Cas?)
    ensures var d := c.(op := Txn([], [OpOf(c.op)], []));
            && Step(s, d, now) == Step(s, c, now)
            && (Emits(s, d, events) <==> Emits(s, c, events))
            && var r, q := ReplyTo(s, c), ReplyTo(s, d);
               && r.Some? && q.Some? && q.value.answer.txn.Some? && |q.value.answer.txn.value.results| == 1
               && q.value.answer.txn.value.results[0]
                  == TxnOpResult(c.op.key, r.value.answer.value, r.value.answer.found)
               && r.value.revision == q.value.revision
  {
    var op, d := OpOf(c.op), c.(op := Txn([], [OpOf(c.op)], []));
    assert Branch(s.store, d.op) == [op];
    OneOp(s.store, op, Bump(s, c));
  }

  // ----- Leases -----

  /** A grant makes one new lease, which no live lease had the id of; its reply is that id in decimal, and it
      runs out `ttl` seconds from now unless that overflows. */
  lemma GrantMeans(s: State, c: Command, now: int)
    requires WellFormed(s.store) && Applies(s, c) && c.op.LeaseGrant? && IsInt64(c.op.ttl) && IsInt64(s.store.seqNo + 1)
    ensures var t := Step(s, c, now).store; var r := ReplyTo(s, c);
            && t.entries == s.store.entries && r.Some?
            && var id := ParseInt(r.value.answer.value);
               && id.Some? && id.value !in s.store.leases && t.leases.Keys == s.store.leases.Keys + {id.value}
               && (forall k :: k in s.store.leases ==> t.leases[k] == s.store.leases[k])
               && t.leases[id.value].ttl == c.op.ttl
               && (-9223372036 <= c.op.ttl <= 9223372036 ==>
                     t.leases[id.value].expiresAt == now + c.op.ttl * 1_000_000_000)
  {
    ParseFormat(s.store.seqNo + 1);
    DeadlineExact(now, c.op.ttl);
  }

  /** A renewal moves the deadline of its lease, if that is live, and says whether it was. */
  lemma KeepAliveMeans(s: State, c: Command, now: int)
    requires Applies(s, c) && c.op.LeaseKeepAlive?
    ensures var t := Step(s, c, now).store; var id := c.op.leaseId; var r := ReplyTo(s, c);
            && t.entries == s.store.entries && t.leases.Keys == s.store.leases.Keys && t.seqNo == s.store.seqNo
            && (forall k :: k in s.store.leases && k != id ==> t.leases[k] == s.store.leases[k])
            && (id in s.store.leases ==> t.leases[id].ttl == s.store.leases[id].ttl)
            && (id in s.store.leases && -9223372036 <= t.leases[id].ttl <= 9223372036 ==>
                  t.leases[id].expiresAt == now + t.leases[id].ttl * 1_000_000_000)
            && r.Some? && (r.value.answer.found <==> id in s.store.leases)
  {
    if c.op.leaseId in s.store.leases {
      var ttl := s.store.leases[c.op.leaseId].ttl;
      if -9223372036 <= ttl <= 9223372036 {
        DeadlineExact(now, ttl);
      }
    }
  }

  /** Beyond that range the deadline is off by a multiple of 2 to the 64, within int64. */
  lemma DeadlineWraps(now: int, ttl: int)
    ensures -TWO_63 <= Deadline(now, ttl) - now < TWO_63
    ensures (Deadline(now, ttl) - now - ttl * 1_000_000_000) % (2 * TWO_63) == 0
  {
    var n := ttl * 1_000_000_000;
    var q := (n + TWO_63) / (2 * TWO_63);
    assert n + TWO_63 == q * (2 * TWO_63) + (n + TWO_63) % (2 * TWO_63);
    assert Deadline(now, ttl) - now - n == (-q) * (2 * TWO_63);
  }

  // ----- Revision, and what is left alone -----

  /** The revision goes up by one for an applied write, revocation or expiry, and stays for everything else;
      the reply carries the one after the command, and says whether it was filtered out. */
  lemma RevisionMeans(s: State, c: Command, now: int)
    requires ReplyTo(s, c).Some?
    ensures var t := Step(s, c, now);
            var counted := Applies(s, c) && !c.op.Get? && !c.op.List? && !c.op.LeaseGrant? && !c.op.LeaseKeepAlive?;
            && t.revision == s.revision + (if counted then 1 else 0)
            && ReplyTo(s, c).value.revision == t.revision
            && (ReplyTo(s, c).value.duplicate <==> !Applies(s, c))
  {
  }

  /** Reads and filtered commands leave the store alone. */
  lemma ReadsLeaveStore(s: State, c: Command, now: int)
    requires !Applies(s, c) || c.op.Get? || c.op.List?
    ensures Step(s, c, now).store == s.store
  {
  }

  // ----- Answers -----

  /** The two-valued answer for what is under a key. */
  function Told(seen: Option<string>): (string, bool) {
    match seen case Some(v) => (v, true) case None => ("", false)
  }

  /** What the events of a log so far leave under a key. */
  function Seen(emitted: seq<seq<WatchEvent>>, key: string): Option<string> {
    At(ApplyEvents(map[], Flatten(emitted)), key)
  }

  ghost predicate KnownLog(log: seq<Timed>, emitted: seq<seq<WatchEvent>>) {
    && LegalEvents(Init, log, emitted) && !Run(Init, log).crashed
    && forall i :: 0 <= i < |log| ==> KnownKinds(log[i].command)
  }

  lemma SeenIsHeld(log: seq<Timed>, emitted: seq<seq<WatchEvent>>)
    requires KnownLog(log, emitted)
    ensures ApplyEvents(map[], Flatten(emitted)) == Data(Run(Init, log).store)
  {
    ViewFollowsStore(Init, log, emitted);
    assert Data(Init.store) == map[];
  }

  /** A read, fresh or retried, tells what the events of the log so far say; so does a write, when it is
      applied, of what it found. A retried write tells nothing. */
  lemma AnswersFollowEvents(log: seq<Timed>, emitted: seq<seq<WatchEvent>>, c: Command)
    requires KnownLog(log, emitted) && (c.op.Get? || c.op.Put? || c.op.Append? || c.op.Cas?)
    ensures var s := Run(Init, log); var r := ReplyTo(s, c);
            && r.Some?
            && (r.value.answer.value, r.value.answer.found)
               == if c.op.Get? || Applies(s, c) then Told(Seen(emitted, c.op.key)) else ("", false)
  {
    SeenIsHeld(log, emitted);
  }

  /** A listing is the pairs under the prefix that the events so far say, or with a limit a page of them. */
  lemma ListingsFollowEvents(log: seq<Timed>, emitted: seq<seq<WatchEvent>>, c: Command)
    requires KnownLog(log, emitted) && c.op.List?
    ensures var r := ReplyTo(Run(Init, log), c); var view := ApplyEvents(map[], Flatten(emitted));
            && r.Some?
            && if c.op.limit > 0
               then IsPage(view, c.op.prefix, c.op.limit, c.op.keyAfter,
                           Page(r.value.answer.pairs, r.value.answer.value))
               else r.value.answer.pairs == ListPrefix(view, c.op.prefix) && r.value.answer.value == ""
  {
    SeenIsHeld(log, emitted);
    ListAnswer(Run(Init, log), c);
  }

  lemma ListAnswer(s: State, c: Command)
    requires c.op.List? && !s.crashed
    ensures var r := ReplyTo(s, c);
            && r.Some?
            && if c.op.limit > 0
               then IsPage(Data(s.store), c.op.prefix, c.op.limit, c.op.keyAfter,
                           Page(r.value.answer.pairs, r.value.answer.value))
               else r.value.answer.pairs == ListPrefix(Data(s.store), c.op.prefix) && r.value.answer.value == ""
  {
    PageMeaning(Data(s.store), c.op.prefix, c.op.limit, c.op.keyAfter);
  }

  /** Result `i` of a transaction tells what the last operation on the key before it that took effect left
      there, or else what the store had; an unknown operation tells nothing. */
  lemma ResultsTell(s: Store, ops: seq<TxnOp>, i: nat)
    requires i < |ops|
    ensures var j, r := LastEmit(s, ops[..i], ops[i].key), OpResults(s, ops)[i];
            && r.key == ops[i].key
            && if ops[i].op.OpOther? then (r.prevValue, r.keyFound) == ("", false)
               else if j < 0 then (r.prevValue, r.keyFound) == Told(At(Data(s), ops[i].key))
               else match ops[j].op
                    case OpPut => (r.prevValue, r.keyFound) == (ops[j].value, true)
                    case OpCas => (r.prevValue, r.keyFound) == (ops[j].value, true)
                    case OpDelete => (r.prevValue, r.keyFound) == ("", false)
                    case OpAppend => (r.prevValue, r.keyFound) == (OpResults(s, ops)[j].prevValue + ops[j].value, true)
                    case OpOther(_) => true
  {
    LastEmitDecides(s, ops[..i], ops[i].key);
    var j := LastEmit(s, ops[..i], ops[i].key);
    if j >= 0 {
      assert ops[..i][..j] == ops[..j];
    }
  }

  // ----- Events -----

  /** What one applied command emits: for a put its value, for an append what the key then holds, for a swap
      its value just when it took place, a delete for every key a revocation takes, and nothing for reads,
      grants and renewals. */
  lemma EventsMean(s: State, c: Command, now: int, events: seq<WatchEvent>)
    requires Applies(s, c) && !c.op.Txn? && Emits(s, c, events)
    ensures var t, next := Step(s, c, now), s.revision + 1;
            match c.op
            case Put(k, v, _) => events == [WatchEvent(k, v, next, EventPut)]
            case Append(k, v) => events == [WatchEvent(k, Told(At(Data(s.store), k)).0 + v, next, EventPut)]
            case Cas(k, from, v) =>
              events == if At(Data(s.store), k) == Some(from) then [WatchEvent(k, v, next, EventPut)] else []
            case LeaseRevoke(_) => DeletesExactly(events, s.store, t.store, next)
            case LeaseExpiry(_) => DeletesExactly(events, s.store, t.store, next)
            case _ => events == []
  {
    if c.op.LeaseRevoke? || c.op.LeaseExpiry? {
      var ids := if c.op.LeaseRevoke? then {c.op.leaseId} else IdSet(c.op.leaseIds);
      assert Deletes(events, RevokedKeys(s.store, ids), s.revision + 1);
      forall k ensures k in s.store.entries && k !in Step(s, c, now).store.entries <==> k in RevokedKeys(s.store, ids) {
      }
    }
  }

  /** One delete event, without a value, for each key that went from one store to the other. */
  ghost predicate DeletesExactly(events: seq<WatchEvent>, s: Store, t: Store, revision: int) {
    && (forall i :: 0 <= i < |events| ==> events[i] == WatchEvent(events[i].key, "", revision, EventDelete))
    && (forall i, j :: 0 <= i < j < |events| ==> events[i].key != events[j].key)
    && (forall k :: k in s.entries && k !in t.entries <==> exists i :: 0 <= i < |events| && events[i].key == k)
  }

  /** Did operation `i` of a branch take effect? Puts, deletes and appends always do, and a swap when it finds
      its value; unknown ones count as if they did. */
  ghost predicate TookEffect(s: Store, ops: seq<TxnOp>, i: nat)
    requires i < |ops|
  {
    ops[i].op.OpCas? ==> At(Data(ApplyOps(s, ops[..i])), ops[i].key) == Some(ops[i].compareValue)
  }

  /** How many of the first `n` operations took effect. */
  ghost function EffectCount(s: Store, ops: seq<TxnOp>, n: nat): nat
    requires n <= |ops|
  {
    if n == 0 then 0 else EffectCount(s, ops, n - 1) + if TookEffect(s, ops, n - 1) then 1 else 0
  }

  function EmitCount(ops: seq<TxnOp>, results: seq<TxnOpResult>, n: nat): nat
    requires n <= |ops| == |results|
  {
    if n == 0 then 0 else EmitCount(ops, results, n - 1) + if OpEmits(ops[n - 1], results[n - 1]) then 1 else 0
  }

  lemma {:induction false} EmitsAreEffects(s: Store, ops: seq<TxnOp>, n: nat)
    requires n <= |ops|
    ensures EmitCount(ops, OpResults(s, ops), n) == EffectCount(s, ops, n)
  {
    if n > 0 {
      EmitsAreEffects(s, ops, n - 1);
    }
  }

  lemma {:induction false} EventCount(ops: seq<TxnOp>, results: seq<TxnOpResult>, post: Store, revision: int, n: nat)
    requires n <= |ops| == |results|
    ensures |TxnEvents(ops[..n], results[..n], post, revision)| == EmitCount(ops, results, n)
  {
    if n > 0 {
      EventCount(ops, results, post, revision, n - 1);
      TxnEventsSnoc(ops, results, post, revision, n - 1);
    }
  }

  lemma {:induction false} EventAt(ops: seq<TxnOp>, results: seq<TxnOpResult>, post: Store, revision: int,
                                   n: nat, i: nat)
    requires i < n <= |ops| == |results| && OpEmits(ops[i], results[i])
    ensures var events, at := TxnEvents(ops[..n], results[..n], post, revision), EmitCount(ops, results, i);
            at < |events| && events[at] == OpEvent(ops[i], results[i], post, revision)
  {
    TxnEventsSnoc(ops, results, post, revision, n - 1);
    if i < n - 1 {
      EventAt(ops, results, post, revision, n - 1, i);
    } else {
      EventCount(ops, results, post, revision, i);
    }
  }

  /** The event of an operation that found `found` under its key, where the transaction leaves `left`. */
  ghost predicate Tells(e: WatchEvent, op: TxnOp, found: Option<string>, left: Option<string>, revision: int) {
    && e.key == op.key && e.revision == revision
    && match op.op
       case OpPut => e.kind == EventPut && e.value == op.value
       case OpDelete => e.kind == EventDelete && e.value == Told(found).0
       case OpCas => e.kind == EventPut && e.value == Told(left).0
       case OpAppend => e.kind == EventPut && e.value == Told(left).0
       case OpOther(_) => e.kind == EventPut && e.value == op.value
  }

  lemma OpEventTells(s: Store, op: TxnOp, post: Store, revision: int)
    ensures Tells(OpEvent(op, OpResult(s, op), post, revision), op, At(Data(s), op.key), At(Data(post), op.key),
                  revision)
  {
  }

  /** One event for each operation that took effect, in their order. */
  ghost predicate EventsInOrder(s: Store, ops: seq<TxnOp>, revision: int, events: seq<WatchEvent>) {
    && |events| == EffectCount(s, ops, |ops|)
    && forall i :: 0 <= i < |ops| && TookEffect(s, ops, i) ==>
         && EffectCount(s, ops, i) < |events|
         && Tells(events[EffectCount(s, ops, i)], ops[i], At(Data(ApplyOps(s, ops[..i])), ops[i].key),
                  At(Data(ApplyOps(s, ops)), ops[i].key), revision)
  }

  lemma BranchEvents(s: Store, ops: seq<TxnOp>, revision: int)
    ensures EventsInOrder(s, ops, revision, TxnEvents(ops, OpResults(s, ops), ApplyOps(s, ops), revision))
  {
    var n, post, results := |ops|, ApplyOps(s, ops), OpResults(s, ops);
    assert ops[..n] == ops && results[..n] == results;
    EventCount(ops, results, post, revision, n);
    EmitsAreEffects(s, ops, n);
    var events := TxnEvents(ops, results, post, revision);
    forall i | 0 <= i < n && TookEffect(s, ops, i)
      ensures EffectCount(s, ops, i) < |events|
      ensures Tells(events[EffectCount(s, ops, i)], ops[i], At(Data(ApplyOps(s, ops[..i])), ops[i].key),
                    At(Data(post), ops[i].key), revision)
    {
      EmitsAreEffects(s, ops, i);
      EventAt(ops, results, post, revision, n, i);
      OpEventTells(ApplyOps(s, ops[..i]), ops[i], post, revision);
    }
  }

  /** A transaction emits one event for each operation of its branch that took effect, in their order: a put with
      its value, a delete with the value it found, an append and a swap with what the key holds in the end. */
  lemma TxnEventsMean(s: State, c: Command, events: seq<WatchEvent>)
    requires Applies(s, c) && c.op.Txn? && Emits(s, c, events)
    ensures EventsInOrder(s.store, Branch(s.store, c.op), s.revision + 1, events)
  {
    var ops := Branch(s.store, c.op);
    BranchEvents(s.store, ops, s.revision + 1);
    assert events == TxnEvents(ops, OpResults(s.store, ops), ApplyOps(s.store, ops), s.revision + 1) by {
      EmitsBranch(s, c, events);
    }
  }

  lemma EmitsBranch(s: State, c: Command, events: seq<WatchEvent>)
    requires Applies(s, c) && c.op.Txn? && Emits(s, c, events)
    ensures var ops := Branch(s.store, c.op);
            events == TxnEvents(ops, OpResults(s.store, ops), ApplyOps(s.store, ops), s.revision + 1)
  {
  }
}
