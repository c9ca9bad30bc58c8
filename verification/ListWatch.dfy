/** List, then watch: a listing at some revision plus the events after it is the listing now. */
module ListWatch {
  import opened Text
  import opened Api
  import opened StoreSpec
  import opened Paging
  import opened Views
  import opened Machine
  import opened MaterialisedView
  import opened Revision
  import opened Ring
  import WatchProtocol

  // ----- Revisions along the event history -----

  lemma {:induction false} TxnEventRevisions(ops: seq<TxnOp>, results: seq<TxnOpResult>, post: Store, revision: int)
    requires |ops| == |results|
    ensures forall i :: 0 <= i < |TxnEvents(ops, results, post, revision)| ==>
      TxnEvents(ops, results, post, revision)[i].revision == revision
  {
    if ops != [] {
      TxnEventRevisions(ops[..|ops| - 1], results[..|ops| - 1], post, revision);
    }
  }

  /** Events carry the revision their command made, which is above every earlier one. */
  lemma EmittedRevision(s: State, c: Command, now: int, events: Events)
    requires Emits(s, c, events)
    ensures forall i :: 0 <= i < |events| ==> s.revision < events[i].revision == Step(s, c, now).revision
  {
    if Applies(s, c) && c.op.Txn? {
      var branch := Branch(s.store, c.op);
      TxnEventRevisions(branch, OpResults(s.store, branch), Effect(s.store, c.op, 0), Bump(s, c));
    }
  }

  ghost predicate Within(events: Events, lo: int, hi: int) {
    forall i :: 0 <= i < |events| ==> lo < events[i].revision <= hi
  }

  lemma NondecreasingConcat(a: Events, b: Events, mid: int)
    requires Nondecreasing(a) && Nondecreasing(b)
    requires forall i :: 0 <= i < |a| ==> a[i].revision <= mid
    requires forall i :: 0 <= i < |b| ==> b[i].revision > mid
    ensures Nondecreasing(a + b)
    ensures Seam(a + b, mid) == |a|
  {
    var h := a + b;
    forall i, j | 0 <= i <= j < |h| ensures h[i].revision <= h[j].revision {
      assert h[i] == if i < |a| then a[i] else b[i - |a|];
      assert h[j] == if j < |a| then a[j] else b[j - |a|];
    }
    SinceIsSuffix(h, mid);
    assert a != [] ==> h[|a| - 1] == a[|a| - 1];
    assert b != [] ==> h[|a|] == b[0];
  }

  lemma {:induction false} HistoryRevisions(s: State, log: seq<Timed>, emitted: seq<Events>)
    requires LegalEvents(s, log, emitted)
    ensures Nondecreasing(Flatten(emitted)) && Within(Flatten(emitted), s.revision, Run(s, log).revision)
  {
    if log != [] {
      var n := |log| - 1;
      LegalFront(s, log, emitted, n);
      HistoryRevisions(s, log[..n], emitted[..n]);
      var mid := Run(s, log[..n]);
      EmittedRevision(mid, log[n].command, log[n].now, emitted[n]);
      NondecreasingConcat(Flatten(emitted[..n]), emitted[n], mid.revision);
      RevisionGrows(s, log, 0, n);
      assert log[..0] == [];
    }
  }

  /** What a node has buffered over its life: `past` before its last start or snapshot
      install, when its state was `s`, and the events of `log` since. */
  ghost predicate NodeHistory(s: State, past: Events, log: seq<Timed>, emitted: seq<Events>, h: Events) {
    && Nondecreasing(past) && (forall i :: 0 <= i < |past| ==> past[i].revision <= s.revision)
    && LegalEvents(s, log, emitted) && (forall i :: 0 <= i < |log| ==> KnownKinds(log[i].command))
    && h == past + Flatten(emitted)
  }

  /** The events before and after `t` commands, and the revision between them. */
  lemma HistoryAround(s: State, log: seq<Timed>, emitted: seq<Events>, t: nat)
    requires LegalEvents(s, log, emitted) && t <= |log|
    ensures var mid, front, back := Run(s, log[..t]).revision, Flatten(emitted[..t]), Flatten(emitted[t..]);
            && Nondecreasing(front) && Within(front, s.revision, mid) && s.revision <= mid
            && Nondecreasing(back) && Within(back, mid, Run(Run(s, log[..t]), log[t..]).revision)
            && Flatten(emitted) == front + back
  {
    LegalFront(s, log, emitted, t);
    HistoryRevisions(s, log[..t], emitted[..t]);
    LegalBack(s, log, emitted, t);
    HistoryRevisions(Run(s, log[..t]), log[t..], emitted[t..]);
    RevisionGrows(s, log, 0, t);
    assert log[..0] == [];
    assert emitted[..t] + emitted[t..] == emitted;
    FlattenConcat(emitted[..t], emitted[t..]);
  }

  lemma ThreePieces(a: Events, b: Events, c: Events, low: int, mid: int, high: int)
    requires Nondecreasing(a) && Nondecreasing(b) && Nondecreasing(c) && low <= mid
    requires forall i :: 0 <= i < |a| ==> a[i].revision <= low
    requires Within(b, low, mid) && Within(c, mid, high)
    ensures Nondecreasing(a + b + c) && Seam(a + b + c, mid) == |a| + |b|
  {
    NondecreasingConcat(a, b, low);
    NondecreasingConcat(a + b, c, mid);
  }

  /** The seam of the revision reached after `t` commands is right after their events. */
  lemma SeamAt(s: State, past: Events, log: seq<Timed>, emitted: seq<Events>, h: Events, t: nat)
    requires NodeHistory(s, past, log, emitted, h) && t <= |log|
    ensures Nondecreasing(h)
    ensures Seam(h, Run(s, log[..t]).revision) == |past| + |Flatten(emitted[..t])|
    ensures h == past + Flatten(emitted[..t]) + Flatten(emitted[t..])
  {
    var mid, front, back := Run(s, log[..t]), Flatten(emitted[..t]), Flatten(emitted[t..]);
    assert h == past + front + back by {
      HistoryAround(s, log, emitted, t);
    }
    assert Nondecreasing(h) && Seam(h, mid.revision) == |past| + |front| by {
      HistoryAround(s, log, emitted, t);
      ThreePieces(past, front, back, s.revision, mid.revision, Run(mid, log[t..]).revision);
    }
  }

  ghost function Listing(s: State, log: seq<Timed>, prefix: string, t: nat): map<string, string>
    requires t <= |log|
  {
    ListPrefix(Data(Run(s, log[..t]).store), prefix)
  }

  /** The data after `t` commands and the events since then give the data at the end. */
  lemma ViewFrom(s: State, log: seq<Timed>, emitted: seq<Events>, t: nat)
    requires LegalEvents(s, log, emitted) && t <= |log|
    requires forall i :: 0 <= i < |log| ==> KnownKinds(log[i].command)
    ensures ApplyEvents(Data(Run(s, log[..t]).store), Flatten(emitted[t..])) == Data(Run(s, log).store)
  {
    var back := log[t..];
    assert Run(Run(s, log[..t]), back) == Run(s, log) by {
      RunConcat(s, log[..t], back);
      assert log[..t] + back == log;
    }
    LegalBack(s, log, emitted, t);
    forall i | 0 <= i < |back| ensures KnownKinds(back[i].command) {
      assert back[i] == log[t + i];
    }
    ViewFollowsStore(Run(s, log[..t]), back, emitted[t..]);
  }

  /** A listing returned after `t` commands, at revision R, updated with the matching events of
      `Replay(R)`, is the listing now, as long as the buffer has not evicted an event above R. */
  lemma ListThenReplay(s: State, past: Events, log: seq<Timed>, emitted: seq<Events>, h: Events,
                       t: nat, prefix: string, size: nat)
    requires NodeHistory(s, past, log, emitted, h) && t <= |log|
    requires forall i :: 0 <= i < |h| - size ==> h[i].revision <= Run(s, log[..t]).revision
    ensures ApplyEvents(Listing(s, log, prefix, t), Matching(Since(LastN(h, size), Run(s, log[..t]).revision), prefix))
         == Listing(s, log, prefix, |log|)
  {
    var since := Run(s, log[..t]).revision;
    assert Since(LastN(h, size), since) == Flatten(emitted[t..]) by {
      SeamAt(s, past, log, emitted, h, t);
      ReplayCompleteIff(h, size, since);
      SinceIsSuffix(h, since);
    }
    ViewFrom(s, log, emitted, t);
    assert log[..|log|] == log;
    MatchingView(Data(Run(s, log[..t]).store), Flatten(emitted[t..]), prefix);
  }

  /** End to end: a client lists at revision R, opens a watch with `since` = R, and whatever way
      pushing, delivering, subscribing and replaying interleave, once it has caught up its view of
      the prefix is the node's current listing. */
  lemma ListThenWatch(s: State, past: Events, log: seq<Timed>, emitted: seq<Events>, t: nat,
                      start: WatchProtocol.Net, acts: seq<WatchProtocol.Act>, id: int)
    requires WatchProtocol.Starts(start) && id in WatchProtocol.Execute(start, acts).watchers
    requires t <= |log| && NodeHistory(s, past, log, emitted, WatchProtocol.Execute(start, acts).history)
    requires var n := WatchProtocol.Execute(start, acts); var w := n.watchers[id];
             && WatchProtocol.CaughtUp(n, w) && |past| <= w.subAt && w.since == Run(s, log[..t]).revision
    ensures var n := WatchProtocol.Execute(start, acts); var w := n.watchers[id]; var prefix := w.sub.prefix;
            && (forall i :: 0 <= i < |w.out| ==> w.out[i] < |n.history|)
            && ListPrefix(ApplyEvents(Listing(s, log, prefix, t), WatchProtocol.EventsOf(n.history, w.out)), prefix)
               == Listing(s, log, prefix, |log|)
  {
    var n := WatchProtocol.Execute(start, acts);
    var w := n.watchers[id];
    var h, prefix := n.history, w.sub.prefix;
    WatchProtocol.WrittenEvents(start, acts, id);
    SeamAt(s, past, log, emitted, h, t);
    LegalFront(s, log, emitted, t);
    ViewFollowsStore(s, log[..t], emitted[..t]);
    ViewFollowsStore(s, log, emitted);
    assert h[|past|..Seam(h, w.since)] == Flatten(emitted[..t]);
    assert h[|past|..] == Flatten(emitted);
    assert log[..|log|] == log;
    WatchProtocol.SeamLeavesViewRight(h, Data(s.store), |past|, w.since, prefix, n.size, w.subAt, w.replayAt.value);
  }

  // ----- What a watcher that missed events still has right -----

  /** Watcher `id` watches from the revision of a listing after `t` commands. The node's history has
      since grown to `h`. */
  ghost predicate Watches(s: State, past: Events, log: seq<Timed>, emitted: seq<Events>,
                          h: Events, t: nat, n: WatchProtocol.Net, id: int) {
    && NodeHistory(s, past, log, emitted, h) && t <= |log| && n.history <= h
    && id in n.watchers && |past| <= n.watchers[id].subAt && n.watchers[id].since == Run(s, log[..t]).revision
  }

  /** The data after the first `p` events of the history. */
  ghost function DataAt(s: State, past: Events, h: Events, p: nat): View
    requires |past| <= p <= |h|
  {
    ApplyEvents(Data(s.store), h[|past|..p])
  }

  /** Everything a watcher is sent is in the history behind its listing's node state. */
  lemma SentInRange(s: State, past: Events, log: seq<Timed>, emitted: seq<Events>, h: Events,
                    t: nat, start: WatchProtocol.Net, acts: seq<WatchProtocol.Act>, id: int, i: nat)
    requires WatchProtocol.Starts(start) && Watches(s, past, log, emitted, h, t, WatchProtocol.Execute(start, acts), id)
    requires i in WatchProtocol.Execute(start, acts).watchers[id].out
    ensures |past| <= i < |WatchProtocol.Execute(start, acts).history|
  {
    var n := WatchProtocol.Execute(start, acts);
    var w := n.watchers[id];
    assert i in w.out + w.sub.queue;
    WatchProtocol.SentIff(start, acts, id, i);
    WatchProtocol.ExecuteOk(start, acts);
    assert s.revision <= w.since by {
      RevisionGrows(s, log, 0, t);
      assert log[..0] == [];
    }
    assert h[i] == n.history[i];
  }

  lemma SentAllInRange(s: State, past: Events, log: seq<Timed>, emitted: seq<Events>, h: Events,
                       t: nat, start: WatchProtocol.Net, acts: seq<WatchProtocol.Act>, id: int)
    requires WatchProtocol.Starts(start) && Watches(s, past, log, emitted, h, t, WatchProtocol.Execute(start, acts), id)
    ensures var out := WatchProtocol.Execute(start, acts).watchers[id].out;
            forall i :: 0 <= i < |out| ==> |past| <= out[i] < |WatchProtocol.Execute(start, acts).history| <= |h|
  {
    var out := WatchProtocol.Execute(start, acts).watchers[id].out;
    forall i | 0 <= i < |out| ensures |past| <= out[i] < |WatchProtocol.Execute(start, acts).history| {
      SentInRange(s, past, log, emitted, h, t, start, acts, id, out[i]);
    }
  }

  /** The listing is the data at its seam. */
  lemma ListedAt(s: State, past: Events, log: seq<Timed>, emitted: seq<Events>, h: Events, t: nat)
    requires NodeHistory(s, past, log, emitted, h) && t <= |log|
    ensures var seam := Seam(h, Run(s, log[..t]).revision);
            && |past| <= seam <= |h| && seam == |past| + |Flatten(emitted[..t])|
            && DataAt(s, past, h, seam) == Data(Run(s, log[..t]).store)
    ensures DataAt(s, past, h, |h|) == Data(Run(s, log[..|log|]).store)
  {
    assert DataAt(s, past, h, |h|) == Data(Run(s, log[..|log|]).store) by {
      ViewFollowsStore(s, log, emitted);
      assert h[|past|..|h|] == Flatten(emitted);
      assert log[..|log|] == log;
    }
    var front, back := Flatten(emitted[..t]), Flatten(emitted[t..]);
    assert Seam(h, Run(s, log[..t]).revision) == |past| + |front| && h == past + front + back by {
      SeamAt(s, past, log, emitted, h, t);
    }
    assert ApplyEvents(Data(s.store), front) == Data(Run(s, log[..t]).store) by {
      LegalFront(s, log, emitted, t);
      ViewFollowsStore(s, log[..t], emitted[..t]);
    }
    MiddleSlice(past, front, back);
  }

  lemma MiddleSlice(a: Events, b: Events, c: Events)
    ensures (a + b + c)[|a|..|a| + |b|] == b
  {
  }

  /** What the client's map says of a key after some of the events a watcher was sent. */
  lemma SentKnown(s: State, past: Events, log: seq<Timed>, emitted: seq<Events>, h: Events,
                  t: nat, idxs: seq<nat>, key: string)
    requires NodeHistory(s, past, log, emitted, h) && t <= |log|
    requires forall i :: 0 <= i < |idxs| ==> |past| <= idxs[i] < |h|
    ensures var p := WatchProtocol.Known(h, idxs, key, Seam(h, Run(s, log[..t]).revision));
            && |past| <= p <= |h|
            && At(ApplyEvents(Data(Run(s, log[..t]).store), WatchProtocol.EventsOf(h, idxs)), key)
              == At(DataAt(s, past, h, p), key)
  {
    var seam := Seam(h, Run(s, log[..t]).revision);
    ListedAt(s, past, log, emitted, h, t);
    WatchProtocol.KnownView(Data(s.store), h, |past|, seam, idxs, key);
  }

  lemma PrefixViewIff(view: View, events: Events, now: View, prefix: string)
    ensures ListPrefix(ApplyEvents(ListPrefix(view, prefix), events), prefix) == ListPrefix(now, prefix)
       <==> forall k :: HasPrefix(k, prefix) ==> At(ApplyEvents(view, events), k) == At(now, k)
  {
    var l, r := ListPrefix(ApplyEvents(ListPrefix(view, prefix), events), prefix), ListPrefix(now, prefix);
    forall k
      ensures At(l, k) == At(r, k) <==> (HasPrefix(k, prefix) ==> At(ApplyEvents(view, events), k) == At(now, k))
    {
      ViewAt(ListPrefix(view, prefix), events, k);
      ViewAt(view, events, k);
    }
    if forall k :: At(l, k) == At(r, k) {
      SameView(l, r);
    }
  }

  /** In every run, whatever was dropped or evicted and wherever the watcher stands, its view is the
      node's current listing exactly when no matching key has changed since the last event on it that
      the watcher was sent. */
  lemma WatcherRightIff(s: State, past: Events, log: seq<Timed>, emitted: seq<Events>, t: nat,
                        start: WatchProtocol.Net, acts: seq<WatchProtocol.Act>, id: int)
    requires WatchProtocol.Starts(start)
    requires var n := WatchProtocol.Execute(start, acts); Watches(s, past, log, emitted, n.history, t, n, id)
    ensures var n := WatchProtocol.Execute(start, acts);
            var w := n.watchers[id]; var h, prefix := n.history, w.sub.prefix;
            && WatchProtocol.InHistory(h, w.out)
            && (ListPrefix(ApplyEvents(Listing(s, log, prefix, t), WatchProtocol.EventsOf(h, w.out)), prefix)
                == Listing(s, log, prefix, |log|)
                <==> forall k :: HasPrefix(k, prefix) ==>
                  Current(s, past, h, k, WatchProtocol.Known(h, w.out, k, Seam(h, w.since))))
  {
    var n := WatchProtocol.Execute(start, acts);
    var w := n.watchers[id];
    var h, prefix := n.history, w.sub.prefix;
    SentAllInRange(s, past, log, emitted, h, t, start, acts, id);
    ListedAt(s, past, log, emitted, h, t);
    PrefixViewIff(Data(Run(s, log[..t]).store), WatchProtocol.EventsOf(h, w.out), DataAt(s, past, h, |h|), prefix);
    forall k ensures var p := WatchProtocol.Known(h, w.out, k, Seam(h, w.since));
                     && |past| <= p <= |h|
                     && At(ApplyEvents(Data(Run(s, log[..t]).store), WatchProtocol.EventsOf(h, w.out)), k)
                       == At(DataAt(s, past, h, p), k)
    {
      SentKnown(s, past, log, emitted, h, t, w.out, k);
    }
  }

  /** The events from `p` on leave the key as it was at `p`. */
  ghost predicate Current(s: State, past: Events, h: Events, key: string, p: nat) {
    |past| <= p <= |h| && At(DataAt(s, past, h, p), key) == At(DataAt(s, past, h, |h|), key)
  }

  // ----- A snapshot in between -----

  /** Every key under the prefix on which the two maps differ has an event. */
  ghost predicate Repaired(a: View, b: View, events: Events, prefix: string) {
    forall k :: HasPrefix(k, prefix) && At(a, k) != At(b, k) ==> Last(events, k).Some?
  }

  /** Events make one map into another exactly where the two differ only on keys that have an event. */
  lemma RebuiltIff(a: View, b: View, events: Events, prefix: string)
    ensures ApplyEvents(ListPrefix(a, prefix), Matching(events, prefix)) == ListPrefix(ApplyEvents(b, events), prefix)
       <==> Repaired(a, b, events, prefix)
  {
    MatchingView(a, events, prefix);
    var l, r := ListPrefix(ApplyEvents(a, events), prefix), ListPrefix(ApplyEvents(b, events), prefix);
    forall k
      ensures At(l, k) == At(r, k) <==> (HasPrefix(k, prefix) && At(a, k) != At(b, k) ==> Last(events, k).Some?)
    {
      ViewAt(a, events, k);
      ViewAt(b, events, k);
    }
    if forall k :: At(l, k) == At(r, k) {
      SameView(l, r);
    }
  }

  /** How much of what was buffered before `later` came is still there. */
  function Room(later: Events, size: nat): nat {
    if |later| < size then size - |later| else 0
  }

  lemma LastNConcat(a: Events, b: Events, size: nat)
    ensures LastN(a + b, size) == LastN(a, Room(b, size)) + LastN(b, size)
  {
  }

  /** Those of the latest events that the buffer has lost again. */
  function Evicted(events: Events, size: nat): Events {
    events[..|events| - |LastN(events, size)|]
  }

  /** A node's life around an install: it came to `before` with buffer history `h0`, was then put into
      state `s` by a snapshot that is not older, and went on with `log` to buffer history `h`. */
  ghost predicate Installed(before: State, h0: Events, s: State, log: seq<Timed>, emitted: seq<Events>,
                            h: Events) {
    before.revision <= s.revision && NodeHistory(s, h0, log, emitted, h)
  }

  lemma MatchingConcat(view: View, a: Events, b: Events, prefix: string)
    ensures ApplyEvents(ListPrefix(view, prefix), Matching(a + b, prefix))
         == ApplyEvents(ListPrefix(ApplyEvents(view, a), prefix), Matching(b, prefix))
  {
    MatchingView(view, a + b, prefix);
    ApplyConcat(view, a, b);
    MatchingView(ApplyEvents(view, a), b, prefix);
  }

  /** The whole account of listing, install and replay, evictions included. A listing is taken after
      `t` commands of `log0`; the node goes on to the end of `log0`, by when `h0` has been through its
      buffer, a snapshot puts it into state `s`, and it goes on with `log`. Replaying from the
      listing's revision gives the current listing exactly when every matching key is written by a
      kept post-install event, or else is the same in the listing updated with the kept older events
      as in the state the kept ones start from. */
  lemma ReplayRightIff(s0: State, log0: seq<Timed>, h0: Events, t: nat,
                       s: State, log: seq<Timed>, emitted: seq<Events>, h: Events, prefix: string, size: nat)
    requires t <= |log0| && Installed(Run(s0, log0), h0, s, log, emitted, h)
    ensures var since, events := Run(s0, log0[..t]).revision, Flatten(emitted);
            var older, newer := Since(LastN(h0, Room(events, size)), since), LastN(events, size);
            ApplyEvents(Listing(s0, log0, prefix, t), Matching(Since(LastN(h, size), since), prefix))
            == Listing(s, log, prefix, |log|)
            <==> Repaired(ApplyEvents(Data(Run(s0, log0[..t]).store), older),
                          ApplyEvents(Data(s.store), Evicted(events, size)), newer, prefix)
  {
    var events := Flatten(emitted);
    NewerAbove(s0, log0, t, s, log, emitted);
    ReplayOnto(Data(Run(s0, log0[..t]).store), Data(s.store), h0, events, size, Run(s0, log0[..t]).revision, prefix);
    ViewFollowsStore(s, log, emitted);
    assert log[..|log|] == log;
  }

  /** The same on bare histories: `listed` is brought up with the replay of `h0 + events`, and the
      truth is `base` brought up with `events`. */
  lemma ReplayOnto(listed: View, base: View, h0: Events, events: Events, size: nat, since: int, prefix: string)
    requires forall i :: 0 <= i < |events| ==> events[i].revision > since
    ensures var older, newer := Since(LastN(h0, Room(events, size)), since), LastN(events, size);
            ApplyEvents(ListPrefix(listed, prefix), Matching(Since(LastN(h0 + events, size), since), prefix))
            == ListPrefix(ApplyEvents(base, events), prefix)
            <==> Repaired(ApplyEvents(listed, older), ApplyEvents(base, Evicted(events, size)), newer, prefix)
  {
    var older, newer, lost := Since(LastN(h0, Room(events, size)), since), LastN(events, size), Evicted(events, size);
    SinceTwoParts(h0, events, size, since);
    MatchingConcat(listed, older, newer, prefix);
    assert lost + newer == events;
    ApplyConcat(base, lost, newer);
    RebuiltIff(ApplyEvents(listed, older), ApplyEvents(base, lost), newer, prefix);
  }

  /** What came before the listing is at or below its revision, what came after is above. */
  lemma HistoryParts(s: State, past: Events, log: seq<Timed>, emitted: seq<Events>, h: Events, t: nat)
    requires NodeHistory(s, past, log, emitted, h) && t <= |log|
    ensures var since, h0, events := Run(s, log[..t]).revision, past + Flatten(emitted[..t]), Flatten(emitted[t..]);
            && h == h0 + events && (forall i :: 0 <= i < |h0| ==> h0[i].revision <= since)
            && forall i :: 0 <= i < |events| ==> events[i].revision > since
  {
    SeamAt(s, past, log, emitted, h, t);
    AroundSeam(past + Flatten(emitted[..t]), Flatten(emitted[t..]), Run(s, log[..t]).revision);
  }

  lemma AroundSeam(a: Events, b: Events, since: int)
    requires Nondecreasing(a + b) && Seam(a + b, since) == |a|
    ensures forall i :: 0 <= i < |a| ==> a[i].revision <= since
    ensures forall i :: 0 <= i < |b| ==> b[i].revision > since
  {
    SinceIsSuffix(a + b, since);
    forall i | 0 <= i < |b| ensures b[i].revision > since {
      assert b[i] == (a + b)[|a| + i];
    }
    forall i | 0 <= i < |a| ensures a[i].revision <= since {
      assert a[i] == (a + b)[i];
    }
  }

  /** Without an install: replaying from a listing's revision gives the current listing exactly when
      every matching key that evicted events changed has been written again by a kept one. */
  lemma ListThenReplayIff(s: State, past: Events, log: seq<Timed>, emitted: seq<Events>, h: Events,
                          t: nat, prefix: string, size: nat)
    requires NodeHistory(s, past, log, emitted, h) && t <= |log|
    ensures var since, events, listed := Run(s, log[..t]).revision, Flatten(emitted[t..]), Data(Run(s, log[..t]).store);
            ApplyEvents(ListPrefix(listed, prefix), Matching(Since(LastN(h, size), since), prefix))
            == Listing(s, log, prefix, |log|)
            <==> Repaired(listed, ApplyEvents(listed, Evicted(events, size)), LastN(events, size), prefix)
  {
    var since, events, listed := Run(s, log[..t]).revision, Flatten(emitted[t..]), Data(Run(s, log[..t]).store);
    var h0 := past + Flatten(emitted[..t]);
    HistoryParts(s, past, log, emitted, h, t);
    assert Since(LastN(h0, Room(events, size)), since) == [] by {
      SinceEmptyIff(LastN(h0, Room(events, size)), since);
    }
    ReplayOnto(listed, listed, h0, events, size, since, prefix);
    assert ApplyEvents(listed, events) == Data(Run(s, log[..|log|]).store) by {
      ViewFrom(s, log, emitted, t);
      assert log[..|log|] == log;
    }
  }

  /** Everything emitted after the install is above the listing's revision. */
  lemma NewerAbove(s0: State, log0: seq<Timed>, t: nat, s: State, log: seq<Timed>, emitted: seq<Events>)
    requires t <= |log0| && Run(s0, log0).revision <= s.revision && LegalEvents(s, log, emitted)
    ensures Run(s0, log0[..t]).revision <= s.revision
    ensures forall i :: 0 <= i < |Flatten(emitted)| ==> Flatten(emitted)[i].revision > Run(s0, log0[..t]).revision
  {
    RevisionGrows(s0, log0, t, |log0|);
    assert log0[..|log0|] == log0;
    HistoryRevisions(s, log, emitted);
  }

  lemma SinceTwoParts(a: Events, events: Events, size: nat, since: int)
    requires forall i :: 0 <= i < |events| ==> events[i].revision > since
    ensures Since(LastN(a + events, size), since) == Since(LastN(a, Room(events, size)), since) + LastN(events, size)
  {
    var older, newer := LastN(a, Room(events, size)), LastN(events, size);
    assert LastN(a + events, size) == older + newer by { LastNConcat(a, events, size); }
    SinceConcat(older, newer, since);
    assert Since(newer, since) == newer by { SinceEverything(newer, since); }
  }

  lemma {:induction false} SinceEverything(events: Events, since: int)
    requires forall i :: 0 <= i < |events| ==> events[i].revision > since
    ensures Since(events, since) == events
  {
    if events != [] {
      SinceEverything(events[..|events| - 1], since);
    }
  }

  /** When the buffer has lost nothing above the listing's revision: replaying gives the current
      listing exactly when every matching key that the skipped commands changed has been written
      again since the install. */
  lemma InstallBetweenIff(s0: State, past: Events, log0: seq<Timed>, emitted0: seq<Events>, h0: Events, t: nat,
                          s: State, log: seq<Timed>, emitted: seq<Events>, h: Events, prefix: string, size: nat)
    requires NodeHistory(s0, past, log0, emitted0, h0) && t <= |log0|
    requires Installed(Run(s0, log0), h0, s, log, emitted, h)
    requires forall i :: 0 <= i < |h| - size ==> h[i].revision <= Run(s0, log0[..t]).revision
    ensures var since := Run(s0, log0[..t]).revision;
            ApplyEvents(Listing(s0, log0, prefix, t), Matching(Since(LastN(h, size), since), prefix))
            == Listing(s, log, prefix, |log|)
            <==> Repaired(Data(Run(s0, log0).store), Data(s.store), Flatten(emitted), prefix)
  {
    var since, first, second := Run(s0, log0[..t]).revision, Flatten(emitted0[t..]), Flatten(emitted);
    assert Since(LastN(h, size), since) == first + second by {
      ReplayCompleteIff(h, size, since);
      SinceConcat(h0, second, since);
      SeamAt(s0, past, log0, emitted0, h0, t);
      SinceIsSuffix(h0, since);
      NewerAbove(s0, log0, t, s, log, emitted);
      SinceEverything(second, since);
    }
    var listed := Data(Run(s0, log0[..t]).store);
    MatchingConcat(listed, first, second, prefix);
    ViewFrom(s0, log0, emitted0, t);
    ViewFollowsStore(s, log, emitted);
    assert log[..|log|] == log;
    RebuiltIff(Data(Run(s0, log0).store), Data(s.store), second, prefix);
  }

  // ----- The hole -----

  function PutEntry(key: string): seq<Timed> {
    [Timed(Command(Put(key, "1", 0), 0, 0), 0)]
  }

  lemma PutLegal(s: State, past: Events, key: string)
    requires !s.crashed && Nondecreasing(past) && forall i :: 0 <= i < |past| ==> past[i].revision <= s.revision
    ensures var e := PutEvent(key, "1", s.revision + 1); NodeHistory(s, past, PutEntry(key), [[e]], past + [e])
    ensures var after := Run(s, PutEntry(key));
            !after.crashed && after.revision == s.revision + 1 && Data(after.store) == Data(s.store)[key := "1"]
  {
    var e := PutEvent(key, "1", s.revision + 1);
    assert PutEntry(key)[..0] == [];
    assert [[e]][..0] == [];
    assert Flatten([[e]]) == [e];
  }

  /** The node lists, applies a put of "c", is given a snapshot that covers a put of "a", and then
      applies a put of "b". Replaying from the listing's revision brings "c" and "b" and misses "a". */
  lemma InstallLeavesHole() returns (h0: Events, s: State, emitted: seq<Events>, h: Events)
    ensures exists emitted0 :: NodeHistory(Init, [], PutEntry("c"), emitted0, h0)
    ensures s == Run(Run(Init, PutEntry("c")), PutEntry("a"))
    ensures Installed(Run(Init, PutEntry("c")), h0, s, PutEntry("b"), emitted, h)
    ensures ApplyEvents(Listing(Init, PutEntry("c"), "", 0), Matching(Since(LastN(h, 1000), 0), ""))
         != Listing(s, PutEntry("b"), "", 1)
  {
    var emitted0;
    h0, emitted0, s, emitted, h := HoleRun();
    var before := Run(Init, PutEntry("c"));
    assert PutEntry("c")[..0] == [];
    InstallBetweenIff(Init, [], PutEntry("c"), emitted0, h0, 0, s, PutEntry("b"), emitted, h, "", 1000);
    assert !Repaired(Data(before.store), Data(s.store), Flatten(emitted), "") by {
      assert HasPrefix("a", "") && At(Data(before.store), "a") != At(Data(s.store), "a");
    }
  }

  lemma HoleRun() returns (h0: Events, emitted0: seq<Events>, s: State, emitted: seq<Events>, h: Events)
    ensures NodeHistory(Init, [], PutEntry("c"), emitted0, h0) && |h| <= 1000
    ensures s == Run(Run(Init, PutEntry("c")), PutEntry("a"))
    ensures Installed(Run(Init, PutEntry("c")), h0, s, PutEntry("b"), emitted, h)
    ensures "a" !in Data(Run(Init, PutEntry("c")).store) && "a" in Data(s.store) && Last(Flatten(emitted), "a") == None
  {
    var c, b := PutEvent("c", "1", 1), PutEvent("b", "1", 3);
    PutLegal(Init, [], "c");
    var before := Run(Init, PutEntry("c"));
    PutLegal(before, [], "a");
    s := Run(before, PutEntry("a"));
    h0, emitted0, emitted := [] + [c], [[c]], [[b]];
    PutLegal(s, h0, "b");
    h := h0 + [b];
    assert Flatten(emitted) == [b] by { assert emitted[..0] == []; }
    assert [b][..0] == [];
  }
}
