/** A watch that breaks off and is taken up again with `Last-Event-ID`. */
module Resume {
  import opened Text
  import opened Api
  import opened StoreSpec
  import opened Paging
  import opened Views
  import opened Machine
  import opened MaterialisedView
  import opened Ring
  import opened Watch
  import opened ListWatch
  import Sse
  import WatchProtocol

  /** Where `handleWatch` starts to replay; none is a bad request. */
  function WatchSince(since: string, lastEventId: string): Option<int> {
    var chosen := match ParseInt(lastEventId) case Some(n) => (if n > 0 then lastEventId else since) case None => since;
    if chosen == "" then Some(0) else ParseInt(chosen)
  }

  /** The id of a received event is taken up as it was written, whatever `since` says. */
  lemma IdTakenUp(since: string, revision: int)
    requires 0 < revision && IsInt64(revision)
    ensures WatchSince(since, FormatInt(revision)) == Some(revision)
  {
    ParseFormat(revision);
  }

  /** The id of the last event read. */
  function Id(got: Events): int
    requires got != []
  {
    got[|got| - 1].revision
  }

  /** The client's map of the prefix: the listing brought up with what it read at first, and then with
      the replay from the id of the last event it read. */
  function TakenUp(listed: View, got: Events, h: Events, prefix: string, size: nat): View
    requires got != []
  {
    ApplyEvents(ListPrefix(ApplyEvents(listed, got), prefix), Matching(Since(LastN(h, size), Id(got)), prefix))
  }

  // ----- Any client -----

  /** The first `u` commands are the ones that reach a revision no higher than `r`. */
  ghost predicate Reached(s: State, log: seq<Timed>, r: int, u: nat) {
    && u <= |log|
    && (u > 0 ==> Run(s, log[..u]).revision <= r)
    && (u < |log| ==> Run(s, log[..u + 1]).revision > r)
  }

  lemma ReachedExists(s: State, log: seq<Timed>, r: int) returns (u: nat)
    ensures Reached(s, log, r, u)
  {
    u := |log|;
    while u > 0 && Run(s, log[..u]).revision > r
      invariant u <= |log| && (u < |log| ==> Run(s, log[..u + 1]).revision > r)
    {
      u := u - 1;
    }
  }

  /** What the commands after that emit is above `r`. */
  lemma AboveReached(s: State, log: seq<Timed>, emitted: seq<Events>, r: int, u: nat)
    requires LegalEvents(s, log, emitted) && Reached(s, log, r, u)
    ensures forall i :: 0 <= i < |Flatten(emitted[u..])| ==> Flatten(emitted[u..])[i].revision > r
  {
    if u < |log| {
      HistoryAround(s, log, emitted, u);
      RunSnoc(s, log, u);
      assert log[..0] == [];
      assert Run(s, log[..u]).revision >= r;
    } else {
      assert emitted[u..] == [];
    }
  }

  /** What is buffered from before the first `u` commands are done and still above the id; nothing, if
      the id is one of this node state's own. */
  ghost function StillAbove(past: Events, emitted: seq<Events>, u: nat, id: int, size: nat): Events
    requires u <= |emitted|
  {
    Since(LastN(past + Flatten(emitted[..u]), Room(Flatten(emitted[u..]), size)), id)
  }

  lemma NothingAbove(s: State, past: Events, log: seq<Timed>, emitted: seq<Events>, h: Events,
                     u: nat, id: int, size: nat)
    requires NodeHistory(s, past, log, emitted, h) && Reached(s, log, id, u) && s.revision <= id
    ensures StillAbove(past, emitted, u, id, size) == []
  {
    assert log[..0] == [];
    HistoryParts(s, past, log, emitted, h, u);
    SinceEmptyIff(LastN(past + Flatten(emitted[..u]), Room(Flatten(emitted[u..]), size)), id);
  }

  /** Every matching key that the client's map has otherwise than the store had it at the id of the last
      event read, and at the oldest event still buffered after that, has an event still buffered. */
  ghost predicate LossRepaired(view: View, s: State, log: seq<Timed>, emitted: seq<Events>, u: nat, prefix: string,
                               size: nat)
    requires u <= |log| == |emitted|
  {
    var later := Flatten(emitted[u..]);
    Repaired(view, ApplyEvents(Data(Run(s, log[..u]).store), Evicted(later, size)), LastN(later, size), prefix)
  }

  /** Whatever a client started from and whatever it has read, in whatever order: after it takes up at
      the id of the last event read, its map is the current listing exactly when its losses are repaired. */
  lemma ResumedViewIff(s: State, past: Events, log: seq<Timed>, emitted: seq<Events>, h: Events,
                       listed: View, got: Events, u: nat, prefix: string, size: nat)
    requires NodeHistory(s, past, log, emitted, h) && got != [] && Reached(s, log, Id(got), u)
    ensures TakenUp(listed, got, h, prefix, size) == Listing(s, log, prefix, |log|)
       <==> LossRepaired(ApplyEvents(ApplyEvents(listed, got), StillAbove(past, emitted, u, Id(got), size)),
                         s, log, emitted, u, prefix, size)
  {
    var h0, later, base := past + Flatten(emitted[..u]), Flatten(emitted[u..]), Data(Run(s, log[..u]).store);
    assert h == h0 + later by { HistoryParts(s, past, log, emitted, h, u); }
    assert TakenUp(listed, got, h, prefix, size) == ListPrefix(ApplyEvents(base, later), prefix)
      <==> LossRepaired(ApplyEvents(ApplyEvents(listed, got), StillAbove(past, emitted, u, Id(got), size)),
                        s, log, emitted, u, prefix, size)
    by {
      AboveReached(s, log, emitted, Id(got), u);
      ReplayOnto(ApplyEvents(listed, got), base, h0, later, size, Id(got), prefix);
    }
    assert ApplyEvents(base, later) == Data(Run(s, log[..|log|]).store) by {
      ViewFrom(s, log, emitted, u);
      assert log[..|log|] == log;
    }
  }

  // ----- A watcher's client -----

  /** The client of a watcher has read the first `m` events that the watcher wrote. */
  ghost predicate Cut(w: WatchProtocol.Watcher, m: nat) {
    0 < m <= |w.out|
  }

  /** What the history has under the key at the point up to which a client that was sent `idxs` knows it. */
  ghost function ClientHas(s: State, past: Events, h: Events, idxs: seq<nat>, since: int, key: string): Option<string>
    requires WatchProtocol.InHistory(h, idxs)
  {
    HistoryHas(s, past, h, WatchProtocol.Known(h, idxs, key, Seam(h, since)), key)
  }

  ghost function HistoryHas(s: State, past: Events, h: Events, p: nat, key: string): Option<string> {
    if |past| <= p <= |h| then At(DataAt(s, past, h, p), key) else None
  }

  /** What the store had under the key after the first `u` commands and the events evicted since. */
  ghost function StoreHad(s: State, log: seq<Timed>, emitted: seq<Events>, u: nat, size: nat,
                          key: string): Option<string>
    requires u <= |log| == |emitted|
  {
    At(ApplyEvents(Data(Run(s, log[..u]).store), Evicted(Flatten(emitted[u..]), size)), key)
  }

  /** Every matching key that the client knew otherwise than the store had it has an event that is still
      buffered. */
  ghost predicate KeysRepaired(s: State, past: Events, log: seq<Timed>, emitted: seq<Events>, h: Events,
                               idxs: seq<nat>, since: int, u: nat, prefix: string, size: nat)
    requires u <= |log| == |emitted| && WatchProtocol.InHistory(h, idxs)
  {
    forall k :: HasPrefix(k, prefix) ==>
      || ClientHas(s, past, h, idxs, since, k) == StoreHad(s, log, emitted, u, size, k)
      || Last(LastN(Flatten(emitted[u..]), size), k).Some?
  }

  lemma ResumedSentIff(s: State, past: Events, log: seq<Timed>, emitted: seq<Events>, h: Events,
                       t: nat, idxs: seq<nat>, u: nat, prefix: string, size: nat)
    requires NodeHistory(s, past, log, emitted, h) && t <= |log| && idxs != []
    requires forall i :: 0 <= i < |idxs| ==> |past| <= idxs[i] < |h|
    requires Reached(s, log, h[idxs[|idxs| - 1]].revision, u)
    ensures TakenUp(Data(Run(s, log[..t]).store), WatchProtocol.EventsOf(h, idxs), h, prefix, size)
         == Listing(s, log, prefix, |log|)
       <==> KeysRepaired(s, past, log, emitted, h, idxs, Run(s, log[..t]).revision, u, prefix, size)
  {
    var got, listed := WatchProtocol.EventsOf(h, idxs), Data(Run(s, log[..t]).store);
    var view := ApplyEvents(listed, got);
    assert TakenUp(listed, got, h, prefix, size) == Listing(s, log, prefix, |log|)
      <==> LossRepaired(view, s, log, emitted, u, prefix, size)
    by {
      AboveStart(s, past, log, emitted, h, idxs[|idxs| - 1]);
      NothingAbove(s, past, log, emitted, h, u, Id(got), size);
      ResumedViewIff(s, past, log, emitted, h, listed, got, u, prefix, size);
    }
    forall k ensures At(view, k) == ClientHas(s, past, h, idxs, Run(s, log[..t]).revision, k) {
      SentKnown(s, past, log, emitted, h, t, idxs, k);
    }
  }

  /** What a run of the protocol tells of a client that has read the first `m` events of its watcher. */
  ghost predicate HasRead(s: State, past: Events, log: seq<Timed>, emitted: seq<Events>, h: Events,
                          t: nat, size: nat, w: WatchProtocol.Watcher, m: nat, inReplay: bool) {
    && NodeHistory(s, past, log, emitted, h) && t <= |log| && w.since == Run(s, log[..t]).revision
    && WatchProtocol.ReadsAs(h, size, w, m, inReplay) && forall i :: 0 <= i < m ==> |past| <= w.out[i] < |h|
  }

  lemma RunTells(s: State, past: Events, log: seq<Timed>, emitted: seq<Events>, h: Events,
                 t: nat, start: WatchProtocol.Net, acts: seq<WatchProtocol.Act>, id: int, m: nat)
    requires WatchProtocol.Starts(start) && Watches(s, past, log, emitted, h, t, WatchProtocol.Execute(start, acts), id)
    requires Cut(WatchProtocol.Execute(start, acts).watchers[id], m)
    ensures var n := WatchProtocol.Execute(start, acts); var w := n.watchers[id];
            HasRead(s, past, log, emitted, h, t, n.size, w, m, m <= |WatchProtocol.Replayed(n, w)|)
  {
    WatchProtocol.ReadShape(start, acts, id, h, m);
    SentAllInRange(s, past, log, emitted, h, t, start, acts, id);
  }

  lemma ReadResumedIff(s: State, past: Events, log: seq<Timed>, emitted: seq<Events>, h: Events,
                       t: nat, size: nat, w: WatchProtocol.Watcher, m: nat, inReplay: bool, u: nat)
    requires HasRead(s, past, log, emitted, h, t, size, w, m, inReplay)
    requires Reached(s, log, h[w.out[m - 1]].revision, u)
    ensures WatchProtocol.InHistory(h, w.out[..m])
    ensures TakenUp(Data(Run(s, log[..t]).store), WatchProtocol.EventsOf(h, w.out[..m]), h, w.sub.prefix, size)
            == Listing(s, log, w.sub.prefix, |log|)
       <==> KeysRepaired(s, past, log, emitted, h, w.out[..m], w.since, u, w.sub.prefix, size)
  {
    ResumedSentIff(s, past, log, emitted, h, t, w.out[..m], u, w.sub.prefix, size);
  }

  /** A client lists, watches from there, and its stream breaks after `m` events, in any run with any
      prefix. After taking up, its map is the current listing exactly when every matching key that the
      client knew otherwise than the store had it at the id of the last event read, and at the oldest event
      still buffered after that, has an event that is still buffered. */
  lemma ResumedWatchIff(s: State, past: Events, log: seq<Timed>, emitted: seq<Events>, h: Events,
                        t: nat, start: WatchProtocol.Net, acts: seq<WatchProtocol.Act>, id: int, m: nat, u: nat)
    requires WatchProtocol.Starts(start) && Watches(s, past, log, emitted, h, t, WatchProtocol.Execute(start, acts), id)
    requires var w := WatchProtocol.Execute(start, acts).watchers[id];
             Cut(w, m) && WatchProtocol.InHistory(h, w.out) && Reached(s, log, h[w.out[m - 1]].revision, u)
    ensures var n := WatchProtocol.Execute(start, acts); var w := n.watchers[id]; var prefix := w.sub.prefix;
            TakenUp(Data(Run(s, log[..t]).store), WatchProtocol.EventsOf(h, w.out[..m]), h, prefix, n.size)
            == Listing(s, log, prefix, |log|)
            <==> KeysRepaired(s, past, log, emitted, h, w.out[..m], w.since, u, prefix, n.size)
  {
    var n := WatchProtocol.Execute(start, acts);
    var w := n.watchers[id];
    RunTells(s, past, log, emitted, h, t, start, acts, id, m);
    ReadResumedIff(s, past, log, emitted, h, t, n.size, w, m, m <= |WatchProtocol.Replayed(n, w)|, u);
  }

  // ----- In the replay, in the overlap, and past it -----

  /** What an unhurt watcher's client has under a key is what the history has at the cut position. */
  lemma CutKnown(s: State, past: Events, log: seq<Timed>, emitted: seq<Events>, h: Events,
                 t: nat, size: nat, w: WatchProtocol.Watcher, m: nat, inReplay: bool, key: string)
    requires HasRead(s, past, log, emitted, h, t, size, w, m, inReplay)
    requires WatchProtocol.Unhurt(h, size, w, w.out[m - 1]) && HasPrefix(key, w.sub.prefix)
    ensures WatchProtocol.InHistory(h, w.out[..m])
    ensures var x := WatchProtocol.CutPosition(h, w, inReplay, w.out[m - 1], key);
            |past| <= x <= |h| && ClientHas(s, past, h, w.out[..m], w.since, key) == At(DataAt(s, past, h, x), key)
  {
    assert Nondecreasing(h) by { SeamAt(s, past, log, emitted, h, t); }
    WatchProtocol.KnownAtCut(h, size, w, m, inReplay, key);
    var p, x := WatchProtocol.Known(h, w.out[..m], key, Seam(h, w.since)),
      WatchProtocol.CutPosition(h, w, inReplay, w.out[m - 1], key);
    assert |past| <= p by { SentKnown(s, past, log, emitted, h, t, w.out[..m], key); }
    WatchProtocol.QuietBetween(Data(s.store), h, |past|, p, x, key);
  }

  /** The exact condition for an unhurt watcher, by where its client stopped: every matching key that the
      history has otherwise at the cut position than the store had it has an event still buffered. */
  lemma ResumedCutIff(s: State, past: Events, log: seq<Timed>, emitted: seq<Events>, h: Events,
                      t: nat, start: WatchProtocol.Net, acts: seq<WatchProtocol.Act>, id: int, m: nat, u: nat)
    requires WatchProtocol.Starts(start) && Watches(s, past, log, emitted, h, t, WatchProtocol.Execute(start, acts), id)
    requires var n := WatchProtocol.Execute(start, acts); var w := n.watchers[id];
             && Cut(w, m) && WatchProtocol.InHistory(h, w.out) && Reached(s, log, h[w.out[m - 1]].revision, u)
             && WatchProtocol.Unhurt(h, n.size, w, w.out[m - 1])
    ensures var n := WatchProtocol.Execute(start, acts); var w := n.watchers[id];
            var prefix, inReplay := w.sub.prefix, m <= |WatchProtocol.Replayed(n, w)|;
            TakenUp(Data(Run(s, log[..t]).store), WatchProtocol.EventsOf(h, w.out[..m]), h, prefix, n.size)
            == Listing(s, log, prefix, |log|)
            <==> forall k :: HasPrefix(k, prefix) ==>
                   || CutHas(s, past, h, w, inReplay, w.out[m - 1], k) == StoreHad(s, log, emitted, u, n.size, k)
                   || Last(LastN(Flatten(emitted[u..]), n.size), k).Some?
  {
    var n := WatchProtocol.Execute(start, acts);
    var w := n.watchers[id];
    var inReplay := m <= |WatchProtocol.Replayed(n, w)|;
    RunTells(s, past, log, emitted, h, t, start, acts, id, m);
    ResumedWatchIff(s, past, log, emitted, h, t, start, acts, id, m, u);
    forall k | HasPrefix(k, w.sub.prefix)
      ensures ClientHas(s, past, h, w.out[..m], w.since, k) == CutHas(s, past, h, w, inReplay, w.out[m - 1], k)
    {
      CutKnown(s, past, log, emitted, h, t, n.size, w, m, inReplay, k);
    }
  }

  ghost function CutHas(s: State, past: Events, h: Events, w: WatchProtocol.Watcher, inReplay: bool, j: nat,
                        key: string): Option<string> {
    if w.replayAt.Some? && j < |h|
    then HistoryHas(s, past, h, WatchProtocol.CutPosition(h, w, inReplay, j, key), key)
    else None
  }

  /** The event at `j` is the last one of its command. */
  ghost predicate AtBoundary(h: Events, j: nat) {
    j < |h| && (j + 1 < |h| ==> h[j + 1].revision > h[j].revision)
  }

  /** Then the store at its id is the data right after it, and what comes later are the events after it. */
  lemma BoundaryParts(s: State, past: Events, log: seq<Timed>, emitted: seq<Events>, h: Events, j: nat, u: nat)
    requires NodeHistory(s, past, log, emitted, h) && |past| <= j && AtBoundary(h, j)
    requires Reached(s, log, h[j].revision, u)
    ensures DataAt(s, past, h, j + 1) == Data(Run(s, log[..u]).store) && Flatten(emitted[u..]) == h[j + 1..]
  {
    var h0, later, r := past + Flatten(emitted[..u]), Flatten(emitted[u..]), h[j].revision;
    AboveStart(s, past, log, emitted, h, j);
    assert Run(s, log[..u]).revision <= r by { assert log[..0] == []; }
    assert |h0| == j + 1 by {
      HistoryParts(s, past, log, emitted, h, u);
      AboveReached(s, log, emitted, r, u);
    }
    HistoryParts(s, past, log, emitted, h, u);
    ListedAt(s, past, log, emitted, h, u);
    assert Seam(h, Run(s, log[..u]).revision) == j + 1;
  }

  /** The watcher was unhurt up to the event after which the stream breaks, that event is the last one of
      its command, and the buffer still has everything after it. */
  ghost predicate CleanCut(h: Events, size: nat, w: WatchProtocol.Watcher, m: nat) {
    && Cut(w, m) && w.out[m - 1] < |h| && WatchProtocol.Unhurt(h, size, w, w.out[m - 1])
    && AtBoundary(h, w.out[m - 1]) && |h| - (w.out[m - 1] + 1) <= size
  }

  /** As of the event at `j`, or with an event still to come, the client has every matching key right. */
  ghost predicate RightOrLater(s: State, past: Events, h: Events, idxs: seq<nat>, since: int, j: nat, prefix: string) {
    && |past| <= j < |h| && WatchProtocol.InHistory(h, idxs)
    && forall k :: HasPrefix(k, prefix) ==>
         ClientHas(s, past, h, idxs, since, k) == At(DataAt(s, past, h, j + 1), k) || Last(h[j + 1..], k).Some?
  }

  /** The client has every matching key as the history has it at the key's cut position. */
  ghost predicate KnownAtCuts(s: State, past: Events, h: Events, w: WatchProtocol.Watcher, m: nat, inReplay: bool) {
    && 0 < m <= |w.out| && w.replayAt.Some? && |past| <= w.out[m - 1] < |h| && WatchProtocol.InHistory(h, w.out[..m])
    && forall k :: HasPrefix(k, w.sub.prefix) ==>
         var x := WatchProtocol.CutPosition(h, w, inReplay, w.out[m - 1], k);
         x <= |h| && ClientHas(s, past, h, w.out[..m], w.since, k) == HistoryHas(s, past, h, x, k)
  }

  lemma CutsKnown(s: State, past: Events, log: seq<Timed>, emitted: seq<Events>, h: Events,
                  t: nat, size: nat, w: WatchProtocol.Watcher, m: nat, inReplay: bool)
    requires HasRead(s, past, log, emitted, h, t, size, w, m, inReplay)
    requires WatchProtocol.Unhurt(h, size, w, w.out[m - 1])
    ensures KnownAtCuts(s, past, h, w, m, inReplay)
  {
    forall k | HasPrefix(k, w.sub.prefix)
      ensures var x := WatchProtocol.CutPosition(h, w, inReplay, w.out[m - 1], k);
              x <= |h| && ClientHas(s, past, h, w.out[..m], w.since, k) == HistoryHas(s, past, h, x, k)
    {
      CutKnown(s, past, log, emitted, h, t, size, w, m, inReplay, k);
    }
  }

  lemma KnownIsRightOrLater(s: State, past: Events, h: Events, w: WatchProtocol.Watcher, m: nat, inReplay: bool)
    requires KnownAtCuts(s, past, h, w, m, inReplay)
    ensures RightOrLater(s, past, h, w.out[..m], w.since, w.out[m - 1], w.sub.prefix)
  {
    var j := w.out[m - 1];
    forall k | HasPrefix(k, w.sub.prefix)
      ensures || ClientHas(s, past, h, w.out[..m], w.since, k) == At(DataAt(s, past, h, j + 1), k)
              || Last(h[j + 1..], k).Some?
    {
      SameOrLater(s, past, h, j + 1, WatchProtocol.CutPosition(h, w, inReplay, j, k), k);
    }
  }

  lemma CleanCutRight(s: State, past: Events, log: seq<Timed>, emitted: seq<Events>, h: Events,
                      t: nat, size: nat, w: WatchProtocol.Watcher, m: nat, inReplay: bool)
    requires HasRead(s, past, log, emitted, h, t, size, w, m, inReplay) && CleanCut(h, size, w, m)
    ensures WatchProtocol.InHistory(h, w.out[..m])
    ensures TakenUp(Data(Run(s, log[..t]).store), WatchProtocol.EventsOf(h, w.out[..m]), h, w.sub.prefix, size)
         == Listing(s, log, w.sub.prefix, |log|)
  {
    var j, idxs := w.out[m - 1], w.out[..m];
    var u := ReachedExists(s, log, h[j].revision);
    CutsKnown(s, past, log, emitted, h, t, size, w, m, inReplay);
    KnownIsRightOrLater(s, past, h, w, m, inReplay);
    BoundaryRepairs(s, past, log, emitted, h, idxs, w.since, j, u, w.sub.prefix, size);
    ResumedSentIff(s, past, log, emitted, h, t, idxs, u, w.sub.prefix, size);
  }

  /** A client whose stream breaks so, in the replay, in the overlap or past it, is right after taking up. */
  lemma CleanCutResumesRight(s: State, past: Events, log: seq<Timed>, emitted: seq<Events>, h: Events,
                             t: nat, start: WatchProtocol.Net, acts: seq<WatchProtocol.Act>, id: int, m: nat)
    requires WatchProtocol.Starts(start) && Watches(s, past, log, emitted, h, t, WatchProtocol.Execute(start, acts), id)
    requires var n := WatchProtocol.Execute(start, acts); CleanCut(h, n.size, n.watchers[id], m)
    ensures var n := WatchProtocol.Execute(start, acts); var w := n.watchers[id]; var prefix := w.sub.prefix;
            && WatchProtocol.InHistory(h, w.out[..m])
            && TakenUp(Data(Run(s, log[..t]).store), WatchProtocol.EventsOf(h, w.out[..m]), h, prefix, n.size)
               == Listing(s, log, prefix, |log|)
  {
    var n := WatchProtocol.Execute(start, acts);
    var w := n.watchers[id];
    RunTells(s, past, log, emitted, h, t, start, acts, id, m);
    CleanCutRight(s, past, log, emitted, h, t, n.size, w, m, m <= |WatchProtocol.Replayed(n, w)|);
  }

  lemma BoundaryRepairs(s: State, past: Events, log: seq<Timed>, emitted: seq<Events>, h: Events,
                        idxs: seq<nat>, since: int, j: nat, u: nat, prefix: string, size: nat)
    requires NodeHistory(s, past, log, emitted, h) && |past| <= j && AtBoundary(h, j)
    requires Reached(s, log, h[j].revision, u)
    requires RightOrLater(s, past, h, idxs, since, j, prefix) && |h| - (j + 1) <= size
    ensures KeysRepaired(s, past, log, emitted, h, idxs, since, u, prefix, size)
  {
    BoundaryParts(s, past, log, emitted, h, j, u);
    var later := h[j + 1..];
    assert Evicted(later, size) == [] && LastN(later, size) == later;
  }

  /** A key is the same further on, or has an event on the way. */
  lemma SameOrLater(s: State, past: Events, h: Events, p: nat, x: nat, key: string)
    requires |past| <= p <= x <= |h|
    ensures At(DataAt(s, past, h, p), key) == At(DataAt(s, past, h, x), key) || Last(h[p..], key).Some?
  {
    if forall i :: p <= i < x ==> h[i].key != key {
      WatchProtocol.QuietBetween(Data(s.store), h, |past|, p, x, key);
    } else {
      var i :| p <= i < x && h[i].key == key;
      assert h[p..][i - p].key == key;
      LastSome(h[p..], key);
    }
  }

  lemma AboveStart(s: State, past: Events, log: seq<Timed>, emitted: seq<Events>, h: Events, i: nat)
    requires NodeHistory(s, past, log, emitted, h) && |past| <= i < |h|
    ensures h[i].revision > s.revision
  {
    HistoryRevisions(s, log, emitted);
    assert h[i] == Flatten(emitted)[i - |past|];
  }

  // ----- Where a stream can break -----

  /** A stream cut at any character has brought the events up to some place, and the server takes the id
      of the last one up as the place to go on from, whatever `since` says. */
  lemma CutOfStream(c: Sse.Codec, events: Events, k: nat, param: string) returns (m: nat)
    requires Sse.Lawful(c) && forall i :: 0 <= i < |events| ==> Sse.Sendable(events[i]) && events[i].revision > 0
    requires k <= |Sse.WriteAll(c, events)|
    ensures m <= |events| && Sse.Read(c, Sse.WriteAll(c, events)[..k]) == events[..m]
    ensures m > 0 ==> WatchSince(param, FormatInt(Id(events[..m]))) == Some(Id(events[..m]))
  {
    Sse.CutGivesPrefix(c, events, k);
    m := |Sse.Read(c, Sse.WriteAll(c, events)[..k])|;
    if m > 0 {
      IdTakenUp(param, events[m - 1].revision);
    }
  }

  // ----- A transaction cut in two -----

  function PutOp(key: string, value: string): TxnOp {
    TxnOp(OpPut, key, value, "", 0)
  }

  /** A transaction of two puts, and its events. */
  function TwoPuts(a: TxnOp, b: TxnOp): seq<Timed> {
    [Timed(Command(Txn([], [a, b], []), 0, 0), 0)]
  }

  function TwoEvents(a: TxnOp, b: TxnOp): Events {
    [PutEvent(a.key, a.value, 1), PutEvent(b.key, b.value, 1)]
  }

  lemma TwoPutsHistory(a: TxnOp, b: TxnOp)
    requires a.op == OpPut && b.op == OpPut
    ensures NodeHistory(Init, [], TwoPuts(a, b), [TwoEvents(a, b)], TwoEvents(a, b))
    ensures Data(Run(Init, TwoPuts(a, b)).store) == ApplyEvents(map[], TwoEvents(a, b))
  {
    var log, ops, events := TwoPuts(a, b), [a, b], TwoEvents(a, b);
    assert log[..0] == [];
    var results := OpResults(EmptyStore, ops);
    assert ops[..1] == [a] && results[..1] == [results[0]];
    assert ops[..1][..0] == [] && results[..1][..0] == [];
    forall post ensures TxnEvents(ops, results, post, 1) == events {
      assert TxnEvents(ops[..1], results[..1], post, 1) == [PutEvent(a.key, a.value, 1)];
    }
    assert Emits(Init, log[0].command, events);
    assert [events][..0] == [];
    assert Flatten([events]) == events;
    assert KnownOps(ops);
    ViewFollowsStore(Init, log, [events]);
    assert Data(Init.store) == map[];
  }

  lemma TwoPutsListing(a: TxnOp, b: TxnOp)
    requires a.op == OpPut && b.op == OpPut
    ensures Listing(Init, TwoPuts(a, b), "", 1) == ListPrefix(ApplyEvents(map[], TwoEvents(a, b)), "")
  {
    TwoPutsHistory(a, b);
    assert TwoPuts(a, b)[..1] == TwoPuts(a, b);
  }

  /** At id 1 nothing is replayed, so a client that has a key wrong keeps it. */
  lemma StaysWrong(events: Events, got: Events, key: string)
    requires got != [] && Id(got) == 1 && |events| <= 1000 && forall i :: 0 <= i < |events| ==> events[i].revision <= 1
    requires At(ApplyEvents(map[], got), key) != At(ApplyEvents(map[], events), key)
    ensures TakenUp(map[], got, events, "", 1000) != ListPrefix(ApplyEvents(map[], events), "")
  {
    SinceEmptyIff(events, 1);
    assert HasPrefix(key, "");
    var view, now := ApplyEvents(map[], got), ApplyEvents(map[], events);
    assert At(ListPrefix(view, ""), key) == At(view, key) && At(ListPrefix(now, ""), key) == At(now, key);
  }

  /** The two events of one transaction share their revision. A stream that breaks between them and is
      taken up at the id of the first never brings the second. */
  lemma ResumeLosesHalfATransaction(a: TxnOp, b: TxnOp)
    requires a.op == OpPut && b.op == OpPut && a.key != b.key
    ensures NodeHistory(Init, [], TwoPuts(a, b), [TwoEvents(a, b)], TwoEvents(a, b))
    ensures WatchSince("0", FormatInt(TwoEvents(a, b)[0].revision)) == Some(1)
    ensures TakenUp(map[], TwoEvents(a, b)[..1], TwoEvents(a, b), "", 1000) != Listing(Init, TwoPuts(a, b), "", 1)
  {
    var events := TwoEvents(a, b);
    TwoPutsHistory(a, b);
    IdTakenUp("0", 1);
    assert At(ApplyEvents(map[], events[..1]), b.key) != At(ApplyEvents(map[], events), b.key) by {
      ViewAt(map[], events, b.key);
      ViewAt(map[], events[..1], b.key);
    }
    StaysWrong(events, events[..1], b.key);
    TwoPutsListing(a, b);
  }

  const ONE := PutOp("k", "1")
  const TWO := PutOp("k", "2")

  /** A watcher that subscribes before both events of a transaction and replays after both. */
  const OVERLAP: seq<WatchProtocol.Act> :=
    [WatchProtocol.Subscribe("", 0), WatchProtocol.PushBuffer(PutEvent("k", "1", 1)), WatchProtocol.Deliver,
     WatchProtocol.PushBuffer(PutEvent("k", "2", 1)), WatchProtocol.Deliver, WatchProtocol.ReplayBuffer(1),
     WatchProtocol.Receive(1)]

  const EMPTY_NET := WatchProtocol.Net(1000, [], 0, map[], 0)

  /** Its client has read both events, and then the first one again: nothing is lost, and it is set back. */
  lemma OverlapRun()
    ensures var n := WatchProtocol.Execute(EMPTY_NET, OVERLAP);
            && n.history == TwoEvents(ONE, TWO) && n.size == 1000 && 1 in n.watchers
            && var w := n.watchers[1]; w.out == [0, 1, 0] && w.since == 0 && w.sub.prefix == "" && w.subAt == 0
  {
    var h, e0, e1 := TwoEvents(ONE, TWO), PutEvent("k", "1", 1), PutEvent("k", "2", 1);
    var w0 := WatchProtocol.Watcher(Sub("", []), 0, 0, None, [], {});
    var w1, w2 := w0.(sub := Sub("", [0])), w0.(sub := Sub("", [0, 1]));
    var n0 := EMPTY_NET.(watchSeq := 1, watchers := map[1 := w0]);
    assert WatchProtocol.Do(EMPTY_NET, OVERLAP[0]) == n0;
    var n1 := n0.(history := [e0]);
    assert WatchProtocol.Do(n0, OVERLAP[1]) == n1;
    var n2 := n1.(delivered := 1, watchers := map[1 := w1]);
    assert WatchProtocol.OfferTo(w0, "k", 0) == w1;
    assert WatchProtocol.Do(n1, OVERLAP[2]) == n2;
    var n3 := n2.(history := h);
    assert WatchProtocol.Do(n2, OVERLAP[3]) == n3;
    var n4 := n3.(delivered := 2, watchers := map[1 := w2]);
    assert WatchProtocol.OfferTo(w1, "k", 1) == w2;
    assert WatchProtocol.Do(n3, OVERLAP[4]) == n4;
    assert WatchProtocol.Select(0, 2, WatchProtocol.Above(h, 0)) == [0, 1] by {
      assert WatchProtocol.Select(0, 1, WatchProtocol.Above(h, 0)) == [0];
    }
    var w3 := w2.(replayAt := Some(2), out := [0, 1]);
    var n5 := n4.(watchers := map[1 := w3]);
    assert WatchProtocol.Do(n4, OVERLAP[5]) == n5;
    var n6 := WatchProtocol.Do(n5, OVERLAP[6]);
    assert n6.watchers[1].out == [0, 1, 0];
    Unroll(OVERLAP, [EMPTY_NET, n0, n1, n2, n3, n4, n5, n6], 7);
    assert OVERLAP[..7] == OVERLAP;
  }

  lemma {:induction false} Unroll(acts: seq<WatchProtocol.Act>, nets: seq<WatchProtocol.Net>, k: nat)
    requires k <= |acts| && |nets| == |acts| + 1
    requires forall i :: 0 <= i < |acts| ==> nets[i + 1] == WatchProtocol.Do(nets[i], acts[i])
    ensures WatchProtocol.Execute(nets[0], acts[..k]) == nets[k]
  {
    if k > 0 {
      Unroll(acts, nets, k - 1);
      assert acts[..k][..k - 1] == acts[..k - 1];
    }
  }

  lemma SetBack(got: Events)
    requires var h := TwoEvents(ONE, TWO); got == [h[0], h[1], h[0]]
    ensures TakenUp(map[], got, TwoEvents(ONE, TWO), "", 1000)
         != ListPrefix(ApplyEvents(map[], TwoEvents(ONE, TWO)), "")
  {
    var h := TwoEvents(ONE, TWO);
    ViewAt(map[], h, "k");
    ViewAt(map[], got, "k");
    StaysWrong(h, got, "k");
  }

  /** A stream that breaks there has brought every event. Taken up at id 1 it brings nothing more, and the
      client is left with the older value. */
  lemma ResumeInTheOverlap() returns (n: WatchProtocol.Net)
    ensures WatchProtocol.Starts(EMPTY_NET) && n == WatchProtocol.Execute(EMPTY_NET, OVERLAP)
    ensures Watches(Init, [], TwoPuts(ONE, TWO), [TwoEvents(ONE, TWO)], n.history, 0, n, 1)
    ensures SetBackIn(n)
  {
    n := WatchProtocol.Execute(EMPTY_NET, OVERLAP);
    OverlapRun();
    TwoPutsHistory(ONE, TWO);
    assert TwoPuts(ONE, TWO)[..0] == [];
    SetBackAfter(n);
  }

  /** The client of watcher 1 has read every event, and after taking up has not the current listing. */
  ghost predicate SetBackIn(n: WatchProtocol.Net) {
    && 1 in n.watchers
    && var h, out := n.history, n.watchers[1].out;
       && WatchProtocol.InHistory(h, out) && out != [] && (forall i :: 0 <= i < |h| ==> i in out)
       && TakenUp(map[], WatchProtocol.EventsOf(h, out), h, "", n.size) != Listing(Init, TwoPuts(ONE, TWO), "", 1)
  }

  lemma SetBackAfter(n: WatchProtocol.Net)
    requires n.history == TwoEvents(ONE, TWO) && n.size == 1000 && 1 in n.watchers && n.watchers[1].out == [0, 1, 0]
    ensures SetBackIn(n)
  {
    var out := n.watchers[1].out;
    assert out[0] == 0 && out[1] == 1;
    TwoPutsListing(ONE, TWO);
    SetBack(WatchProtocol.EventsOf(n.history, out));
  }
}
