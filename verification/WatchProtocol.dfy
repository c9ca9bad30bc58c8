/** Watchers against the apply loop, step by step. Pushing an event is two steps, into the
    buffer and then to the subscribers; starting a watch is two steps, subscribing and then
    replaying the buffer. Any interleaving of these is a run. Events are named by their
    position in the history, so that delivering one twice can be told from delivering two. */
module WatchProtocol {
  import opened Text
  import opened Api
  import opened Paging
  import opened Views
  import opened Ring
  import opened Watch

  /** `subAt` events had been delivered to subscribers when this one subscribed; `replayAt` were in
      the history when it replayed. `out` is what it has written, `dropped` what its full channel lost. */
  datatype Watcher = Watcher(sub: Sub<nat>, since: int, subAt: nat, replayAt: Option<nat>,
                             out: seq<nat>, dropped: set<nat>)

  /** The apply loop has put all of `history` into the buffer and handed `delivered` of it out. */
  datatype Net = Net(size: nat, history: Events, delivered: nat, watchers: map<int, Watcher>, watchSeq: int)

  datatype Act =
    | PushBuffer(event: WatchEvent)
    | Deliver
    | Subscribe(prefix: string, since: int)
    | ReplayBuffer(id: int)
    | Receive(id: int)
    | Unsubscribe(id: int)

  /** The chosen indices in `[lo, hi)`, ascending. */
  function Select(lo: nat, hi: nat, keep: set<nat>): seq<nat> {
    if hi <= lo then [] else Select(lo, hi - 1, keep) + if hi - 1 in keep then [hi - 1] else []
  }

  function Above(h: Events, since: int): set<nat> {
    set i: nat | i < |h| && h[i].revision > since
  }

  function Under(h: Events, prefix: string): set<nat> {
    set i: nat | i < |h| && HasPrefix(h[i].key, prefix)
  }

  /** The oldest index still in the buffer after `n` pushes. */
  function Oldest(n: nat, size: nat): nat {
    if n <= size then 0 else n - size
  }

  function OfferTo(w: Watcher, key: string, i: nat): Watcher {
    w.(sub := Offer(w.sub, key, i),
       dropped := if HasPrefix(key, w.sub.prefix) && !Takes(w.sub, key) then w.dropped + {i} else w.dropped)
  }

  function Do(n: Net, a: Act): Net {
    match a
    case PushBuffer(e) => if n.delivered == |n.history| then n.(history := n.history + [e]) else n
    case Deliver =>
      if n.delivered < |n.history| then
        n.(delivered := n.delivered + 1,
           watchers := map id | id in n.watchers :: OfferTo(n.watchers[id], n.history[n.delivered].key, n.delivered))
      else n
    case Subscribe(prefix, since) =>
      n.(watchSeq := n.watchSeq + 1,
         watchers := n.watchers[n.watchSeq + 1 := Watcher(Sub(prefix, []), since, n.delivered, None, [], {})])
    case ReplayBuffer(id) =>
      if id in n.watchers && n.watchers[id].replayAt.None? then
        var w, len := n.watchers[id], |n.history|;
        n.(watchers := n.watchers[id := w.(replayAt := Some(len),
           out := Select(Oldest(len, n.size), len, Above(n.history, w.since)))])
      else n
    case Receive(id) =>
      if id in n.watchers && n.watchers[id].replayAt.Some? && n.watchers[id].sub.queue != [] then
        var w := n.watchers[id];
        n.(watchers := n.watchers[id := w.(out := w.out + [w.sub.queue[0]], sub := w.sub.(queue := w.sub.queue[1..]))])
      else n
    case Unsubscribe(id) => n.(watchers := n.watchers - {id})
  }

  function Execute(n: Net, acts: seq<Act>): Net {
    if acts == [] then n else Do(Execute(n, acts[..|acts| - 1]), acts[|acts| - 1])
  }

  // ----- The invariant -----

  /** What the watcher has replayed. */
  function Replayed(n: Net, w: Watcher): seq<nat> {
    match w.replayAt
    case None => []
    case Some(r) => Select(Oldest(r, n.size), r, Above(n.history, w.since))
  }

  /** What has gone through its channel or waits there. */
  function Channelled(n: Net, w: Watcher): seq<nat> {
    Select(w.subAt, n.delivered, Under(n.history, w.sub.prefix) - w.dropped)
  }

  ghost predicate WatcherOk(n: Net, w: Watcher) {
    && w.subAt <= n.delivered
    && (forall i :: i in w.dropped ==> i < n.delivered)
    && (w.replayAt.Some? ==> w.subAt <= w.replayAt.value <= |n.history|)
    && (w.replayAt.None? ==> w.out == [])
    && Replayed(n, w) <= w.out
    && w.out + w.sub.queue == Replayed(n, w) + Channelled(n, w)
  }

  ghost predicate NetOk(n: Net) {
    n.delivered <= |n.history| && forall id :: id in n.watchers ==> WatcherOk(n, n.watchers[id])
  }

  lemma {:induction false} SelectLocal(lo: nat, hi: nat, a: set<nat>, b: set<nat>)
    requires forall i :: lo <= i < hi ==> (i in a <==> i in b)
    ensures Select(lo, hi, a) == Select(lo, hi, b)
  {
    if lo < hi {
      SelectLocal(lo, hi - 1, a, b);
    }
  }

  lemma GrowOk(n: Net, w: Watcher, e: WatchEvent)
    requires WatcherOk(n, w) && n.delivered <= |n.history|
    ensures WatcherOk(n.(history := n.history + [e]), w)
  {
    var h := n.history + [e];
    SelectLocal(w.subAt, n.delivered, Under(n.history, w.sub.prefix) - w.dropped, Under(h, w.sub.prefix) - w.dropped);
    if w.replayAt.Some? {
      SelectLocal(Oldest(w.replayAt.value, n.size), w.replayAt.value, Above(n.history, w.since), Above(h, w.since));
    }
  }

  lemma DeliverOk(n: Net, w: Watcher)
    requires WatcherOk(n, w) && n.delivered < |n.history|
    ensures WatcherOk(n.(delivered := n.delivered + 1), OfferTo(w, n.history[n.delivered].key, n.delivered))
  {
    var d, p := n.delivered, w.sub.prefix;
    var w' := OfferTo(w, n.history[d].key, d);
    SelectLocal(w.subAt, d, Under(n.history, p) - w.dropped, Under(n.history, p) - w'.dropped);
    assert d in Under(n.history, p) - w'.dropped <==> Takes(w.sub, n.history[d].key);
    if Takes(w.sub, n.history[d].key) {
      assert w.out + w'.sub.queue == w.out + w.sub.queue + [d];
    }
  }

  lemma DoOk(n: Net, a: Act)
    requires NetOk(n)
    ensures NetOk(Do(n, a))
  {
    var n' := Do(n, a);
    forall id | id in n'.watchers ensures WatcherOk(n', n'.watchers[id]) {
      if id in n.watchers {
        var w := n.watchers[id];
        if a.PushBuffer? {
          GrowOk(n, w, a.event);
        } else if a.Deliver? && n.delivered < |n.history| {
          DeliverOk(n, w);
          AsideOk(n.(delivered := n.delivered + 1), n', n'.watchers[id]);
        } else if a == ReplayBuffer(id) && w.replayAt.None? {
          ReplayOk(n, w);
          AsideOk(n, n', n'.watchers[id]);
        } else if a == Receive(id) && w.replayAt.Some? && w.sub.queue != [] {
          ReceiveOk(n, w);
          AsideOk(n, n', n'.watchers[id]);
        } else {
          AsideOk(n, n', w);
        }
      }
    }
  }

  lemma ReplayOk(n: Net, w: Watcher)
    requires WatcherOk(n, w) && w.replayAt.None? && n.delivered <= |n.history|
    ensures var len := |n.history|;
            WatcherOk(n, w.(replayAt := Some(len), out := Select(Oldest(len, n.size), len, Above(n.history, w.since))))
  {
    assert w.out + w.sub.queue == w.sub.queue;
  }

  lemma ReceiveOk(n: Net, w: Watcher)
    requires WatcherOk(n, w) && w.sub.queue != [] && w.replayAt.Some?
    ensures WatcherOk(n, w.(out := w.out + [w.sub.queue[0]], sub := w.sub.(queue := w.sub.queue[1..])))
  {
    assert w.out + [w.sub.queue[0]] + w.sub.queue[1..] == w.out + w.sub.queue;
  }

  /** A watcher's account only looks at the buffer, the history and the delivery count. */
  lemma AsideOk(n: Net, n': Net, w: Watcher)
    requires n'.size == n.size && n'.history == n.history && n'.delivered == n.delivered
    requires WatcherOk(n, w)
    ensures WatcherOk(n', w)
  {
  }

  ghost predicate Starts(n: Net) {
    n.delivered == |n.history| && n.watchers == map[]
  }

  lemma {:induction false} ExecuteOk(n: Net, acts: seq<Act>)
    requires Starts(n)
    ensures NetOk(Execute(n, acts))
  {
    if acts != [] {
      ExecuteOk(n, acts[..|acts| - 1]);
      DoOk(Execute(n, acts[..|acts| - 1]), acts[|acts| - 1]);
    }
  }

  // ----- How often an event reaches a watcher -----

  lemma {:induction false} SelectCount(lo: nat, hi: nat, keep: set<nat>, i: nat)
    ensures multiset(Select(lo, hi, keep))[i] == if lo <= i < hi && i in keep then 1 else 0
  {
    if lo < hi {
      SelectCount(lo, hi - 1, keep, i);
    }
  }

  predicate WasReplayed(n: Net, w: Watcher, i: nat) {
    w.replayAt.Some? && Oldest(w.replayAt.value, n.size) <= i < w.replayAt.value && i in Above(n.history, w.since)
  }

  predicate WentLive(n: Net, w: Watcher, i: nat) {
    w.subAt <= i < n.delivered && i in Under(n.history, w.sub.prefix) && i !in w.dropped
  }

  /** In every run an event reaches a watcher once by replay and once by its channel, if at all. */
  lemma DeliveryCount(start: Net, acts: seq<Act>, id: int, i: nat)
    requires Starts(start) && id in Execute(start, acts).watchers
    ensures var n := Execute(start, acts); var w := n.watchers[id];
            multiset(w.out + w.sub.queue)[i]
              == (if WasReplayed(n, w, i) then 1 else 0) + (if WentLive(n, w, i) then 1 else 0)
  {
    ExecuteOk(start, acts);
    var n := Execute(start, acts);
    var w := n.watchers[id];
    SelectCount(w.subAt, n.delivered, Under(n.history, w.sub.prefix) - w.dropped, i);
    if w.replayAt.Some? {
      SelectCount(Oldest(w.replayAt.value, n.size), w.replayAt.value, Above(n.history, w.since), i);
    }
  }

  /** Subscribing before replaying leaves no gap: a delivered event above `since` that matches the
      prefix, was not evicted before the replay and was not dropped arrives, and at most twice;
      twice only between subscribing and replaying. */
  lemma NoGapAtTheSeam(start: Net, acts: seq<Act>, id: int, i: nat)
    requires Starts(start) && id in Execute(start, acts).watchers
    requires var n := Execute(start, acts); var w := n.watchers[id];
             && w.replayAt.Some? && i < n.delivered && i < |n.history| && i >= Oldest(w.replayAt.value, n.size)
             && n.history[i].revision > w.since && HasPrefix(n.history[i].key, w.sub.prefix) && i !in w.dropped
    ensures var n := Execute(start, acts); var w := n.watchers[id];
            && 1 <= multiset(w.out + w.sub.queue)[i] <= 2
            && (multiset(w.out + w.sub.queue)[i] == 2 <==> w.subAt <= i < w.replayAt.value)
  {
    ExecuteOk(start, acts);
    DeliveryCount(start, acts, id, i);
    var n := Execute(start, acts);
    assert i in Under(n.history, n.watchers[id].sub.prefix) && i in Above(n.history, n.watchers[id].since);
  }

  lemma SelectHas(lo: nat, hi: nat, keep: set<nat>, i: nat)
    ensures i in Select(lo, hi, keep) <==> lo <= i < hi && i in keep
  {
    SelectCount(lo, hi, keep, i);
    assert i in Select(lo, hi, keep) <==> multiset(Select(lo, hi, keep))[i] > 0;
  }

  /** Live events are filtered by the prefix and replayed ones are not. */
  lemma SentIff(start: Net, acts: seq<Act>, id: int, i: nat)
    requires Starts(start) && id in Execute(start, acts).watchers
    ensures var n := Execute(start, acts); var w := n.watchers[id];
            i in w.out + w.sub.queue <==> WasReplayed(n, w, i) || WentLive(n, w, i)
  {
    ExecuteOk(start, acts);
    var n := Execute(start, acts);
    var w := n.watchers[id];
    assert i in w.out + w.sub.queue <==> i in Replayed(n, w) || i in Channelled(n, w);
    SelectHas(w.subAt, n.delivered, Under(n.history, w.sub.prefix) - w.dropped, i);
    if w.replayAt.Some? {
      SelectHas(Oldest(w.replayAt.value, n.size), w.replayAt.value, Above(n.history, w.since), i);
    }
  }

  lemma {:induction false} ExecuteConcat(n: Net, a: seq<Act>, b: seq<Act>)
    ensures Execute(n, a + b) == Execute(Execute(n, a), b)
  {
    if b == [] {
      assert a + b == a;
    } else {
      ExecuteConcat(n, a, b[..|b| - 1]);
      assert (a + b)[..|a + b| - 1] == a + b[..|b| - 1];
    }
  }

  lemma {:induction false} IdsBounded(n: Net, acts: seq<Act>)
    requires Starts(n)
    ensures forall id :: id in Execute(n, acts).watchers ==> id <= Execute(n, acts).watchSeq
  {
    if acts != [] {
      IdsBounded(n, acts[..|acts| - 1]);
    }
  }

  /** Ids are not reused, and what a watcher has replayed stays as it is. */
  lemma {:induction false} ReplayStays(n: Net, acts: seq<Act>, id: int)
    requires id in n.watchers && id <= n.watchSeq && n.watchers[id].replayAt.Some?
    ensures var e := Execute(n, acts);
            && e.watchSeq >= n.watchSeq && n.history <= e.history && e.size == n.size
            && (id in e.watchers ==>
                  var w, v := n.watchers[id], e.watchers[id];
                  v.sub.prefix == w.sub.prefix && v.since == w.since && v.replayAt == w.replayAt)
  {
    if acts != [] {
      ReplayStays(n, acts[..|acts| - 1], id);
    }
  }

  /** Every event in the buffer that is above `since` matches. */
  ghost predicate BufferMatches(buffer: Events, since: int, prefix: string) {
    forall i :: 0 <= i < |buffer| && buffer[i].revision > since ==> HasPrefix(buffer[i].key, prefix)
  }

  lemma ReplayedMatchesIff(h: Events, r: nat, size: nat, since: int, prefix: string)
    requires r <= |h|
    ensures (forall i: nat :: Oldest(r, size) <= i < r && i in Above(h, since) ==> i in Under(h, prefix))
       <==> BufferMatches(LastN(h[..r], size), since, prefix)
  {
    var buffer, lo := LastN(h[..r], size), Oldest(r, size);
    assert |buffer| == r - lo;
    forall i | 0 <= i < |buffer| ensures buffer[i] == h[lo + i] {
    }
    if BufferMatches(buffer, since, prefix) {
      forall i: nat | lo <= i < r && i in Above(h, since) ensures i in Under(h, prefix) {
        assert buffer[i - lo] == h[i];
      }
    }
    if forall i: nat :: lo <= i < r && i in Above(h, since) ==> i in Under(h, prefix) {
      forall i | 0 <= i < |buffer| && buffer[i].revision > since ensures HasPrefix(buffer[i].key, prefix) {
        assert lo + i in Above(h, since);
      }
    }
  }

  /** At step `k` the watcher is about to replay, for the first time. */
  ghost predicate ReplaysAt(start: Net, acts: seq<Act>, id: int, k: nat) {
    && k < |acts| && acts[k] == ReplayBuffer(id)
    && id in Execute(start, acts[..k]).watchers && Execute(start, acts[..k]).watchers[id].replayAt.None?
  }

  lemma ReplayPoint(start: Net, acts: seq<Act>, id: int, k: nat)
    requires Starts(start) && ReplaysAt(start, acts, id, k) && id in Execute(start, acts).watchers
    ensures var m, n := Execute(start, acts[..k]), Execute(start, acts); var v, w := m.watchers[id], n.watchers[id];
            && n.size == m.size && m.history <= n.history
            && w.sub.prefix == v.sub.prefix && w.since == v.since && w.replayAt == Some(|m.history|)
  {
    var m, after := Execute(start, acts[..k]), acts[..k + 1];
    IdsBounded(start, acts[..k]);
    assert after[..k] == acts[..k];
    assert Execute(start, after) == Do(m, ReplayBuffer(id));
    ReplayStays(Execute(start, after), acts[k + 1..], id);
    ExecuteConcat(start, after, acts[k + 1..]);
    assert after + acts[k + 1..] == acts;
  }

  /** In every run a watcher is sent matching events only, exactly when at the moment it replays
      everything buffered above its `since` matches. */
  lemma OnlyMatchingIff(start: Net, acts: seq<Act>, id: int, k: nat)
    requires Starts(start) && ReplaysAt(start, acts, id, k) && id in Execute(start, acts).watchers
    ensures var m, n := Execute(start, acts[..k]), Execute(start, acts); var v, w := m.watchers[id], n.watchers[id];
            (forall i :: i in w.out + w.sub.queue ==> i in Under(n.history, v.sub.prefix))
            <==> BufferMatches(LastN(m.history, m.size), v.since, v.sub.prefix)
  {
    ReplayPoint(start, acts, id, k);
    var m, n := Execute(start, acts[..k]), Execute(start, acts);
    var w := n.watchers[id];
    forall i: nat ensures i in w.out + w.sub.queue <==> WasReplayed(n, w, i) || WentLive(n, w, i) {
      SentIff(start, acts, id, i);
    }
    assert n.history[..|m.history|] == m.history;
    ReplayedMatchesIff(n.history, |m.history|, n.size, w.since, w.sub.prefix);
  }

  /** What a node at a given revision can have buffered: its first event has revision one. */
  ghost predicate BufferAt(buffer: Events, revision: int) {
    forall i :: 0 <= i < |buffer| ==> 0 < buffer[i].revision <= revision
  }

  /** Which watches are safe whatever a node at a given revision has buffered: those without a prefix,
      those that start no lower than that revision, and all while the node has emitted nothing. */
  lemma WatchSafeIff(prefix: string, since: int, revision: int)
    ensures (forall buffer :: BufferAt(buffer, revision) ==> BufferMatches(buffer, since, prefix))
       <==> prefix == "" || revision <= since || revision <= 0
  {
    if prefix != "" && since < revision && 0 < revision {
      var buffer := [WatchEvent("", "", revision, EventPut)];
      assert BufferAt(buffer, revision) && buffer[0].revision > since;
      assert !BufferMatches(buffer, since, prefix);
    }
  }

  /** A watch on one prefix can be sent an event of another. */
  lemma ReplayIgnoresPrefix()
    ensures exists start, acts, id :: Starts(start) && id in Execute(start, acts).watchers &&
              var w := Execute(start, acts).watchers[id];
              exists i :: i in w.out && i !in Under(Execute(start, acts).history, w.sub.prefix)
  {
    var start := Net(1000, [WatchEvent("b", "1", 1, EventPut)], 1, map[], 0);
    var acts := [Subscribe("a", 0), ReplayBuffer(1)];
    var first := [acts[0]];
    assert acts[..1] == first && first[..0] == [];
    assert Execute(start, first) == Do(start, acts[0]);
    var n := Execute(start, acts);
    assert n == Do(Do(start, acts[0]), acts[1]);
    assert 0 in Above(start.history, 0);
    SelectHas(0, 1, Above(start.history, 0), 0);
    assert "b"[0] == 'b' && "a"[0] == 'a';
    assert 0 in n.watchers[1].out && 0 !in Under(n.history, "a");
  }

  // ----- What a watcher can rebuild -----

  function EventsOf(h: Events, idxs: seq<nat>): Events
    requires forall i :: 0 <= i < |idxs| ==> idxs[i] < |h|
  {
    seq(|idxs|, i requires 0 <= i < |idxs| => h[idxs[i]])
  }

  lemma {:induction false} SelectInRange(lo: nat, hi: nat, keep: set<nat>)
    ensures forall i :: 0 <= i < |Select(lo, hi, keep)| ==> lo <= Select(lo, hi, keep)[i] < hi
  {
    if lo < hi {
      SelectInRange(lo, hi - 1, keep);
    }
  }

  lemma {:induction false} SelectAbove(h: Events, lo: nat, hi: nat, since: int)
    requires lo <= hi <= |h|
    ensures (SelectInRange(lo, hi, Above(h, since));
             EventsOf(h, Select(lo, hi, Above(h, since))) == Since(h[lo..hi], since))
  {
    SelectInRange(lo, hi, Above(h, since));
    if lo < hi {
      SelectInRange(lo, hi - 1, Above(h, since));
      SelectAbove(h, lo, hi - 1, since);
      assert h[lo..hi][..hi - 1 - lo] == h[lo..hi - 1];
    }
  }

  lemma {:induction false} SelectUnder(h: Events, lo: nat, hi: nat, prefix: string)
    requires lo <= hi <= |h|
    ensures (SelectInRange(lo, hi, Under(h, prefix));
             EventsOf(h, Select(lo, hi, Under(h, prefix))) == Matching(h[lo..hi], prefix))
  {
    SelectInRange(lo, hi, Under(h, prefix));
    if lo < hi {
      SelectInRange(lo, hi - 1, Under(h, prefix));
      SelectUnder(h, lo, hi - 1, prefix);
      assert h[lo..hi][..hi - 1 - lo] == h[lo..hi - 1];
    }
  }

  /** The last event on a key above `since` is the last one on it in the replayed part, when nothing
      on that key came after the replay began to overlap. */
  lemma LastAcrossSeam(h: Events, since: int, subAt: nat, r: nat, key: string)
    requires Nondecreasing(h) && subAt <= r <= |h| && Last(h[subAt..], key).None?
    ensures Last(Since(h[..r], since), key) == Last(h[Seam(h, since)..], key)
  {
    var front, back := h[..r], h[r..];
    assert front + back == h;
    assert Last(back, key).None? by {
      assert h[subAt..] == h[subAt..r] + back;
      LastConcat(h[subAt..r], back, key);
    }
    LastSince(back, since, key);
    SinceConcat(front, back, since);
    LastConcat(Since(front, since), Since(back, since), key);
    assert Since(h, since) == h[Seam(h, since)..] by {
      SinceIsSuffix(h, since);
    }
  }

  lemma {:induction false} LastSince(h: Events, since: int, key: string)
    ensures Last(h, key).None? ==> Last(Since(h, since), key).None?
  {
    if h != [] {
      LastSince(h[..|h| - 1], since, key);
      LastConcat(Since(h[..|h| - 1], since),
                 if h[|h| - 1].revision > since then [h[|h| - 1]] else [], key);
    }
  }

  /** A listing as of revision `since`, then everything the watcher is sent: events replayed at
      `r`, then live ones from `subAt` on, some of them for the second time and some perhaps older
      than the listing. The result is the listing of the full history. `from` is where the history
      behind the listing begins. */
  lemma SeamLeavesViewRight(h: Events, base: View, from: nat, since: int, prefix: string, size: nat, subAt: nat, r: nat)
    requires Nondecreasing(h) && from <= subAt <= r <= |h| && from <= Seam(h, since)
    requires forall i :: 0 <= i < r - size ==> h[i].revision <= since
    ensures var listed := ListPrefix(ApplyEvents(base, h[from..Seam(h, since)]), prefix);
            var sent := Since(LastN(h[..r], size), since) + Matching(h[subAt..], prefix);
            ListPrefix(ApplyEvents(listed, sent), prefix) == ListPrefix(ApplyEvents(base, h[from..]), prefix)
  {
    var listed := ListPrefix(ApplyEvents(base, h[from..Seam(h, since)]), prefix);
    var replayed, live := Since(LastN(h[..r], size), since), Matching(h[subAt..], prefix);
    ReplayCompleteIff(h[..r], size, since);
    var a, b := ListPrefix(ApplyEvents(listed, replayed + live), prefix),
      ListPrefix(ApplyEvents(base, h[from..]), prefix);
    forall k ensures At(a, k) == At(b, k) {
      if HasPrefix(k, prefix) {
        LastMatching(h[subAt..], prefix, k);
        if Last(live, k).Some? {
          LiveDecides(h, base, from, subAt, listed, replayed, live, k);
        } else {
          ReplayDecides(h, base, from, since, subAt, r, prefix, live, k);
        }
      }
    }
    SameView(a, b);
  }

  lemma LiveDecides(h: Events, base: View, from: nat, subAt: nat, listed: View,
                    replayed: Events, live: Events, key: string)
    requires from <= subAt <= |h| && Last(live, key) == Last(h[subAt..], key) && Last(live, key).Some?
    ensures At(ApplyEvents(listed, replayed + live), key) == At(ApplyEvents(base, h[from..]), key)
  {
    ViewAt(listed, replayed + live, key);
    LastConcat(replayed, live, key);
    ViewAt(base, h[from..], key);
    assert h[from..] == h[from..subAt] + h[subAt..];
    LastConcat(h[from..subAt], h[subAt..], key);
  }

  lemma ReplayDecides(h: Events, base: View, from: nat, since: int, subAt: nat, r: nat,
                      prefix: string, live: Events, key: string)
    requires Nondecreasing(h) && from <= subAt <= r <= |h| && from <= Seam(h, since) && HasPrefix(key, prefix)
    requires Last(live, key) == Last(h[subAt..], key) == None
    ensures var current := ApplyEvents(base, h[from..Seam(h, since)]);
            At(ApplyEvents(ListPrefix(current, prefix), Since(h[..r], since) + live), key)
              == At(ApplyEvents(base, h[from..]), key)
  {
    var lo := Seam(h, since);
    var current := ApplyEvents(base, h[from..lo]);
    assert ApplyEvents(base, h[from..]) == ApplyEvents(current, h[lo..]) by {
      assert h[from..] == h[from..lo] + h[lo..];
      ApplyConcat(base, h[from..lo], h[lo..]);
    }
    ViewAt(current, h[lo..], key);
    assert Last(Since(h[..r], since) + live, key) == Last(h[lo..], key) by {
      LastConcat(Since(h[..r], since), live, key);
      LastAcrossSeam(h, since, subAt, r, key);
    }
    ViewAt(ListPrefix(current, prefix), Since(h[..r], since) + live, key);
  }

  /** A watcher that missed nothing: replayed before anything above `since` was evicted, never
      dropped an event, and has drained its channel. */
  ghost predicate CaughtUp(n: Net, w: Watcher) {
    && w.replayAt.Some? && w.sub.queue == [] && w.dropped == {} && n.delivered == |n.history|
    && forall i :: 0 <= i < w.replayAt.value - n.size && i < |n.history| ==> n.history[i].revision <= w.since
  }

  /** In every interleaving, the events such a watcher has written are exactly the replayed ones
      followed by the matching live ones. */
  lemma WrittenEvents(start: Net, acts: seq<Act>, id: int)
    requires Starts(start) && id in Execute(start, acts).watchers
    requires CaughtUp(Execute(start, acts), Execute(start, acts).watchers[id])
    ensures var n := Execute(start, acts); var w := n.watchers[id];
            && w.subAt <= w.replayAt.value <= |n.history|
            && (forall i :: 0 <= i < |w.out| ==> w.out[i] < |n.history|)
            && EventsOf(n.history, w.out)
               == Since(LastN(n.history[..w.replayAt.value], n.size), w.since)
                  + Matching(n.history[w.subAt..], w.sub.prefix)
  {
    ExecuteOk(start, acts);
    var n := Execute(start, acts);
    var w := n.watchers[id];
    var h, r := n.history, w.replayAt.value;
    assert w.out == w.out + w.sub.queue;
    assert Under(h, w.sub.prefix) - w.dropped == Under(h, w.sub.prefix);
    SelectedEvents(h, Oldest(r, n.size), r, w.since, w.subAt, w.sub.prefix, w.out);
    assert LastN(h[..r], n.size) == h[Oldest(r, n.size)..r];
  }

  lemma SelectedEvents(h: Events, lo: nat, r: nat, since: int, subAt: nat, prefix: string, out: seq<nat>)
    requires lo <= r <= |h| && subAt <= |h|
    requires out == Select(lo, r, Above(h, since)) + Select(subAt, |h|, Under(h, prefix))
    ensures (forall i :: 0 <= i < |out| ==> out[i] < |h|)
         && EventsOf(h, out) == Since(h[lo..r], since) + Matching(h[subAt..], prefix)
  {
    var replayed, live := Select(lo, r, Above(h, since)), Select(subAt, |h|, Under(h, prefix));
    SelectInRange(lo, r, Above(h, since));
    SelectInRange(subAt, |h|, Under(h, prefix));
    SelectAbove(h, lo, r, since);
    SelectUnder(h, subAt, |h|, prefix);
    assert h[subAt..|h|] == h[subAt..];
    EventsOfConcat(h, replayed, live);
  }

  lemma EventsOfConcat(h: Events, a: seq<nat>, b: seq<nat>)
    requires forall i :: 0 <= i < |a| ==> a[i] < |h|
    requires forall i :: 0 <= i < |b| ==> b[i] < |h|
    ensures forall i :: 0 <= i < |a + b| ==> (a + b)[i] < |h|
    ensures EventsOf(h, a + b) == EventsOf(h, a) + EventsOf(h, b)
  {
  }

  // ----- How far a watcher knows each key -----

  ghost predicate InHistory(h: Events, idxs: seq<nat>) {
    forall i :: 0 <= i < |idxs| ==> idxs[i] < |h|
  }

  /** The position in the history up to which someone who was sent `idxs`, in this order, knows a key:
      right after the last event on it, or where the listing left it. */
  function Known(h: Events, idxs: seq<nat>, key: string, listed: nat): nat
    requires InHistory(h, idxs)
  {
    if idxs == [] then listed
    else if h[idxs[|idxs| - 1]].key == key then idxs[|idxs| - 1] + 1
    else Known(h, idxs[..|idxs| - 1], key, listed)
  }

  lemma KnownSnoc(h: Events, idxs: seq<nat>, x: nat, key: string, listed: nat)
    requires InHistory(h, idxs) && x < |h|
    ensures InHistory(h, idxs + [x])
    ensures Known(h, idxs + [x], key, listed) == if h[x].key == key then x + 1 else Known(h, idxs, key, listed)
  {
    assert (idxs + [x])[..|idxs|] == idxs;
  }

  lemma {:induction false} KnownConcat(h: Events, a: seq<nat>, b: seq<nat>, key: string, listed: nat)
    requires InHistory(h, a) && InHistory(h, b)
    ensures InHistory(h, a + b)
    ensures Known(h, a + b, key, listed) == Known(h, b, key, Known(h, a, key, listed))
  {
    if b == [] {
      assert a + b == a;
    } else {
      KnownConcat(h, a, b[..|b| - 1], key, listed);
      assert (a + b)[..|a + b| - 1] == a + b[..|b| - 1];
    }
  }

  /** `p` is right after the highest chosen event on the key in `[lo, hi)`, or `listed` if there is none. */
  ghost predicate Highest(h: Events, lo: nat, hi: nat, keep: set<nat>, key: string, listed: nat, p: nat)
    requires hi <= |h|
  {
    && ((p == listed && !Chosen(h, lo, hi, keep, key)) || (lo < p <= hi && p - 1 in keep && h[p - 1].key == key))
    && (forall i :: lo <= i < hi && i in keep && h[i].key == key ==> i < p)
  }

  ghost predicate Chosen(h: Events, lo: nat, hi: nat, keep: set<nat>, key: string)
    requires hi <= |h|
  {
    exists i :: lo <= i < hi && i in keep && h[i].key == key
  }

  lemma HighestNext(h: Events, lo: nat, hi: nat, keep: set<nat>, key: string, listed: nat, p: nat)
    requires lo <= hi < |h| && Highest(h, lo, hi, keep, key, listed, p)
    ensures Highest(h, lo, hi + 1, keep, key, listed, if hi in keep && h[hi].key == key then hi + 1 else p)
  {
  }

  /** Of events sent in ascending order the highest on the key counts. */
  lemma {:induction false} KnownSelect(h: Events, lo: nat, hi: nat, keep: set<nat>, key: string, listed: nat)
    requires hi <= |h|
    ensures InHistory(h, Select(lo, hi, keep))
    ensures Highest(h, lo, hi, keep, key, listed, Known(h, Select(lo, hi, keep), key, listed))
  {
    if lo < hi {
      KnownSelect(h, lo, hi - 1, keep, key, listed);
      var front := Select(lo, hi - 1, keep);
      HighestNext(h, lo, hi - 1, keep, key, listed, Known(h, front, key, listed));
      if hi - 1 in keep {
        assert Select(lo, hi, keep) == front + [hi - 1];
        KnownSnoc(h, front, hi - 1, key, listed);
      } else {
        assert Select(lo, hi, keep) == front;
      }
    }
  }

  lemma SentView(view: View, h: Events, idxs: seq<nat>, key: string)
    requires InHistory(h, idxs) && idxs != []
    ensures var n := |idxs| - 1; var e := h[idxs[n]];
            At(ApplyEvents(view, EventsOf(h, idxs)), key)
            == if e.key == key then Outcome(e) else At(ApplyEvents(view, EventsOf(h, idxs[..n])), key)
  {
    var n := |idxs| - 1;
    assert EventsOf(h, idxs)[..n] == EventsOf(h, idxs[..n]);
  }

  lemma HistoryView(base: View, h: Events, from: nat, x: nat)
    requires from <= x < |h|
    ensures At(ApplyEvents(base, h[from..x + 1]), h[x].key) == Outcome(h[x])
  {
    assert h[from..x + 1][..x - from] == h[from..x];
  }

  /** What the watcher's map says of a key is what the history says of it up to that position. */
  lemma {:induction false} KnownView(base: View, h: Events, from: nat, listed: nat, idxs: seq<nat>, key: string)
    requires from <= listed <= |h| && InHistory(h, idxs) && forall i :: 0 <= i < |idxs| ==> from <= idxs[i]
    ensures var p := Known(h, idxs, key, listed);
            && from <= p <= |h|
            && At(ApplyEvents(ApplyEvents(base, h[from..listed]), EventsOf(h, idxs)), key)
              == At(ApplyEvents(base, h[from..p]), key)
  {
    if idxs != [] {
      var n := |idxs| - 1;
      SentView(ApplyEvents(base, h[from..listed]), h, idxs, key);
      if h[idxs[n]].key == key {
        HistoryView(base, h, from, idxs[n]);
      } else {
        KnownView(base, h, from, listed, idxs[..n], key);
      }
    }
  }

  /** A key is the same at two positions with no event on it in between. */
  lemma {:induction false} QuietBetween(base: View, h: Events, from: nat, p: nat, q: nat, key: string)
    requires from <= p <= q <= |h| && forall i :: p <= i < q ==> h[i].key != key
    ensures At(ApplyEvents(base, h[from..p]), key) == At(ApplyEvents(base, h[from..q]), key)
    decreases q
  {
    if p < q {
      QuietBetween(base, h, from, p, q - 1, key);
      assert h[from..q][..q - 1 - from] == h[from..q - 1];
    }
  }

  /** A watcher that has drained its channel knows every matching key up to the end of the history but
      for events that its full channel dropped or that were evicted before it replayed. */
  lemma OnlyMissedBeyond(start: Net, acts: seq<Act>, id: int, i: nat)
    requires Starts(start) && id in Execute(start, acts).watchers && Nondecreasing(Execute(start, acts).history)
    requires var n := Execute(start, acts); var w := n.watchers[id];
             && w.replayAt.Some? && w.sub.queue == [] && n.delivered == |n.history|
             && i < |n.history| && HasPrefix(n.history[i].key, w.sub.prefix)
    ensures var n := Execute(start, acts); var w := n.watchers[id];
            && InHistory(n.history, w.out)
            && (Known(n.history, w.out, n.history[i].key, Seam(n.history, w.since)) <= i ==>
                  i in w.dropped || i < Oldest(w.replayAt.value, n.size))
  {
    ExecuteOk(start, acts);
    var n := Execute(start, acts);
    var w := n.watchers[id];
    var h, r, key := n.history, w.replayAt.value, n.history[i].key;
    var seam := Seam(h, w.since);
    SinceIsSuffix(h, w.since);
    assert w.out == w.out + w.sub.queue;
    KnownSelect(h, Oldest(r, n.size), r, Above(h, w.since), key, seam);
    var q := Known(h, Replayed(n, w), key, seam);
    KnownSelect(h, w.subAt, n.delivered, Under(h, w.sub.prefix) - w.dropped, key, q);
    KnownConcat(h, Replayed(n, w), Channelled(n, w), key, seam);
  }

  // ----- A client that has read a part -----

  lemma {:induction false} SelectPrefix(lo: nat, hi: nat, keep: set<nat>, m: nat)
    requires 0 < m <= |Select(lo, hi, keep)|
    ensures var j := Select(lo, hi, keep)[m - 1];
            lo <= j < hi && j in keep && Select(lo, hi, keep)[..m] == Select(lo, j + 1, keep)
  {
    var front := Select(lo, hi - 1, keep);
    if m <= |front| {
      SelectPrefix(lo, hi - 1, keep, m);
      assert Select(lo, hi, keep)[..m] == front[..m];
    } else {
      assert Select(lo, hi, keep) == front + [hi - 1];
    }
  }

  lemma TwoSelectsPrefix(lo: nat, r: nat, a: set<nat>, subAt: nat, d: nat, b: set<nat>, m: nat)
    requires 0 < m <= |Select(lo, r, a) + Select(subAt, d, b)|
    ensures var all := Select(lo, r, a) + Select(subAt, d, b); var j := all[m - 1];
            if m <= |Select(lo, r, a)| then j < r && j in a && all[..m] == Select(lo, j + 1, a)
            else subAt <= j < d && all[..m] == Select(lo, r, a) + Select(subAt, j + 1, b)
  {
    var front, back := Select(lo, r, a), Select(subAt, d, b);
    if m <= |front| {
      SelectPrefix(lo, r, a, m);
      assert (front + back)[..m] == front[..m];
    } else {
      SelectPrefix(subAt, d, b, m - |front|);
      assert (front + back)[..m] == front + back[..m - |front|];
    }
  }

  /** The first `m` events a watcher wrote, as chosen positions of a history that has grown to `h`: either
      a part of its replay, or all of it and then live ones. */
  ghost predicate ReadsAs(h: Events, size: nat, w: Watcher, m: nat, inReplay: bool) {
    && 0 < m <= |w.out| && w.replayAt.Some? && w.subAt <= w.replayAt.value <= |h| && w.out[m - 1] < |h|
    && var j, lo, r := w.out[m - 1], Oldest(w.replayAt.value, size), w.replayAt.value;
       if inReplay then h[j].revision > w.since && w.out[..m] == Select(lo, j + 1, Above(h, w.since))
       else w.subAt <= j
            && w.out[..m] == Select(lo, r, Above(h, w.since))
                             + Select(w.subAt, j + 1, Under(h, w.sub.prefix) - w.dropped)
  }

  lemma ReadShape(start: Net, acts: seq<Act>, id: int, h: Events, m: nat)
    requires Starts(start) && id in Execute(start, acts).watchers && Execute(start, acts).history <= h
    requires 0 < m <= |Execute(start, acts).watchers[id].out|
    ensures var n := Execute(start, acts); var w := n.watchers[id];
            ReadsAs(h, n.size, w, m, m <= |Replayed(n, w)|)
  {
    ExecuteOk(start, acts);
    var n := Execute(start, acts);
    assert WatcherOk(n, n.watchers[id]) && n.delivered <= |n.history|;
    ShapeOf(n, n.watchers[id], h, m);
  }

  lemma ShapeOf(n: Net, w: Watcher, h: Events, m: nat)
    requires WatcherOk(n, w) && n.delivered <= |n.history| && n.history <= h && 0 < m <= |w.out|
    ensures ReadsAs(h, n.size, w, m, m <= |Replayed(n, w)|)
  {
    var lo, r := Oldest(w.replayAt.value, n.size), w.replayAt.value;
    var above, under := Above(h, w.since), Under(h, w.sub.prefix) - w.dropped;
    SelectLocal(lo, r, Above(n.history, w.since), above);
    SelectLocal(w.subAt, n.delivered, Under(n.history, w.sub.prefix) - w.dropped, under);
    assert w.out[..m] == (w.out + w.sub.queue)[..m];
    TwoSelectsPrefix(lo, r, above, w.subAt, n.delivered, under, m);
  }

  ghost predicate EventOn(h: Events, lo: nat, hi: nat, key: string)
    requires hi <= |h|
  {
    exists i :: lo <= i < hi && h[i].key == key
  }

  /** The client has read replayed events up to the one at `j`: it knows every key as of then. */
  lemma KnownInReplay(h: Events, lo: nat, j: nat, since: int, key: string)
    requires Nondecreasing(h) && j < |h| && h[j].revision > since
    requires forall i :: 0 <= i < lo && i < |h| ==> h[i].revision <= since
    ensures var sent := Select(lo, j + 1, Above(h, since));
            && InHistory(h, sent)
            && var p := Known(h, sent, key, Seam(h, since)); Seam(h, since) <= p <= j + 1 && !EventOn(h, p, j + 1, key)
  {
    SinceIsSuffix(h, since);
    KnownSelect(h, lo, j + 1, Above(h, since), key, Seam(h, since));
  }

  /** The whole replay, over events before `r`, leaves it with every key as of `r`, or of the listing. */
  lemma KnownAfterReplay(h: Events, lo: nat, r: nat, since: int, key: string)
    requires Nondecreasing(h) && r <= |h| && forall i :: 0 <= i < lo && i < |h| ==> h[i].revision <= since
    ensures var sent, end := Select(lo, r, Above(h, since)), Later(r, Seam(h, since));
            && InHistory(h, sent)
            && var p := Known(h, sent, key, Seam(h, since)); Seam(h, since) <= p <= end && !EventOn(h, p, end, key)
  {
    SinceIsSuffix(h, since);
    KnownSelect(h, lo, r, Above(h, since), key, Seam(h, since));
  }

  function Later(a: nat, b: nat): nat {
    if a < b then b else a
  }

  /** The client has read the whole replay and then live events up to the one at `j`. It knows a matching
      key as of `j` if it had a live event, else as the replay and the listing left it, which is as of `j`
      again once `j` is past both. */
  lemma KnownInLive(h: Events, lo: nat, r: nat, since: int, subAt: nat, j: nat, prefix: string, dropped: set<nat>,
                    key: string)
    requires Nondecreasing(h) && subAt <= r <= |h| && subAt <= j < |h| && HasPrefix(key, prefix)
    requires forall i :: 0 <= i < lo && i < |h| ==> h[i].revision <= since
    requires forall i :: i in dropped ==> i > j
    ensures var sent := Select(lo, r, Above(h, since)) + Select(subAt, j + 1, Under(h, prefix) - dropped);
            var end := Later(r, Seam(h, since));
            && InHistory(h, sent)
            && var p := Known(h, sent, key, Seam(h, since));
               if EventOn(h, subAt, j + 1, key) || end <= j + 1 then p <= j + 1 && !EventOn(h, p, j + 1, key)
               else p <= end && !EventOn(h, p, end, key)
  {
    var replayed, keep := Select(lo, r, Above(h, since)), Under(h, prefix) - dropped;
    var live := Select(subAt, j + 1, keep);
    KnownAfterReplay(h, lo, r, since, key);
    var q := Known(h, replayed, key, Seam(h, since));
    KnownSelect(h, subAt, j + 1, keep, key, q);
    KnownConcat(h, replayed, live, key, Seam(h, since));
    assert forall i :: subAt <= i < j + 1 && h[i].key == key ==> i in keep;
  }

  /** Nothing above `since` was evicted before the watcher replayed, and nothing up to the event at `j`
      was dropped. */
  ghost predicate Unhurt(h: Events, size: nat, w: Watcher, j: nat) {
    && w.replayAt.Some? && (forall i :: i in w.dropped ==> i > j)
    && forall i :: 0 <= i < Oldest(w.replayAt.value, size) && i < |h| ==> h[i].revision <= w.since
  }

  /** The position as of which a client knows a key whose last event read is the one at `j`: in the replay,
      and once live events have got past it, that event; in the overlap, that event only for keys that had
      a live event again, and the end of the replay for the others. */
  ghost function CutPosition(h: Events, w: Watcher, inReplay: bool, j: nat, key: string): (x: nat)
    requires w.replayAt.Some? && j < |h|
    ensures x > j
  {
    var end := Later(w.replayAt.value, Seam(h, w.since));
    if inReplay || end <= j + 1 || EventOn(h, w.subAt, j + 1, key) then j + 1 else end
  }

  lemma KnownAtCut(h: Events, size: nat, w: Watcher, m: nat, inReplay: bool, key: string)
    requires Nondecreasing(h) && ReadsAs(h, size, w, m, inReplay) && Unhurt(h, size, w, w.out[m - 1])
    requires HasPrefix(key, w.sub.prefix)
    ensures InHistory(h, w.out[..m])
    ensures var p, x := Known(h, w.out[..m], key, Seam(h, w.since)), CutPosition(h, w, inReplay, w.out[m - 1], key);
            p <= x <= |h| && !EventOn(h, p, x, key)
  {
    var j, lo, r := w.out[m - 1], Oldest(w.replayAt.value, size), w.replayAt.value;
    if inReplay {
      KnownInReplay(h, lo, j, w.since, key);
    } else {
      KnownInLive(h, lo, r, w.since, w.subAt, j, w.sub.prefix, w.dropped, key);
    }
  }
}
