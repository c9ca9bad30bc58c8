/** What a watcher can rebuild from events: applying them in order to a key-value map. */
module Views {
  import opened Text
  import opened Api
  import opened Paging

  type View = map<string, string>

  type Events = seq<WatchEvent>

  function At(view: View, key: string): Option<string> {
    if key in view then Some(view[key]) else None
  }

  function ApplyEvent(view: View, e: WatchEvent): View {
    if e.kind == EventPut then view[e.key := e.value] else view - {e.key}
  }

  function ApplyEvents(view: View, events: seq<WatchEvent>): View {
    if events == [] then view
    else ApplyEvent(ApplyEvents(view, events[..|events| - 1]), events[|events| - 1])
  }

  /** The last event on a key. */
  function Last(events: seq<WatchEvent>, key: string): (e: Option<WatchEvent>)
    ensures e.Some? ==> e.value in events && e.value.key == key
  {
    if events == [] then None
    else if events[|events| - 1].key == key then Some(events[|events| - 1])
    else Last(events[..|events| - 1], key)
  }

  function Outcome(e: WatchEvent): Option<string> {
    if e.kind == EventPut then Some(e.value) else None
  }

  /** Only the last event on a key matters for it. */
  lemma {:induction false} ViewAt(view: View, events: seq<WatchEvent>, key: string)
    ensures At(ApplyEvents(view, events), key)
         == match Last(events, key) case Some(e) => Outcome(e) case None => At(view, key)
  {
    if events != [] {
      ViewAt(view, events[..|events| - 1], key);
    }
  }

  lemma SameView(a: View, b: View)
    requires forall k :: At(a, k) == At(b, k)
    ensures a == b
  {
    forall k ensures k in a <==> k in b {
      assert At(a, k) == At(b, k);
    }
    forall k | k in a ensures a[k] == b[k] {
      assert At(a, k) == At(b, k);
    }
  }

  lemma {:induction false} LastConcat(a: seq<WatchEvent>, b: seq<WatchEvent>, key: string)
    ensures Last(a + b, key) == if Last(b, key).Some? then Last(b, key) else Last(a, key)
  {
    if b == [] {
      assert a + b == a;
    } else {
      LastConcat(a, b[..|b| - 1], key);
      assert (a + b)[..|a + b| - 1] == a + b[..|b| - 1];
    }
  }

  lemma {:induction false} ApplyConcat(view: View, a: seq<WatchEvent>, b: seq<WatchEvent>)
    ensures ApplyEvents(view, a + b) == ApplyEvents(ApplyEvents(view, a), b)
  {
    if b == [] {
      assert a + b == a;
    } else {
      ApplyConcat(view, a, b[..|b| - 1]);
      assert (a + b)[..|a + b| - 1] == a + b[..|b| - 1];
    }
  }

  // ----- Filters -----

  function Matching(events: seq<WatchEvent>, prefix: string): seq<WatchEvent> {
    if events == [] then []
    else Matching(events[..|events| - 1], prefix)
         + (if HasPrefix(events[|events| - 1].key, prefix) then [events[|events| - 1]] else [])
  }

  /** The events above a revision, which is what replay hands out. */
  function Since(events: seq<WatchEvent>, since: int): seq<WatchEvent> {
    if events == [] then []
    else Since(events[..|events| - 1], since)
         + (if events[|events| - 1].revision > since then [events[|events| - 1]] else [])
  }

  lemma {:induction false} LastMatching(events: seq<WatchEvent>, prefix: string, key: string)
    ensures Last(Matching(events, prefix), key) == if HasPrefix(key, prefix) then Last(events, key) else None
  {
    if events != [] {
      var e := events[|events| - 1];
      LastMatching(events[..|events| - 1], prefix, key);
      LastConcat(Matching(events[..|events| - 1], prefix), if HasPrefix(e.key, prefix) then [e] else [], key);
    }
  }

  /** Filtering the events and filtering the map come to the same. */
  lemma MatchingView(view: View, events: seq<WatchEvent>, prefix: string)
    ensures ApplyEvents(ListPrefix(view, prefix), Matching(events, prefix))
         == ListPrefix(ApplyEvents(view, events), prefix)
  {
    var l, r := ApplyEvents(ListPrefix(view, prefix), Matching(events, prefix)),
      ListPrefix(ApplyEvents(view, events), prefix);
    forall k ensures At(l, k) == At(r, k) {
      ViewAt(ListPrefix(view, prefix), Matching(events, prefix), k);
      LastMatching(events, prefix, k);
      ViewAt(view, events, k);
    }
    SameView(l, r);
  }

  ghost predicate Nondecreasing(events: seq<WatchEvent>) {
    forall i, j :: 0 <= i <= j < |events| ==> events[i].revision <= events[j].revision
  }

  /** Where the events above a revision begin in a history of nondecreasing revisions. */
  function Seam(events: seq<WatchEvent>, since: int): (n: nat)
    ensures n <= |events|
  {
    if events == [] then 0
    else if events[|events| - 1].revision > since then Seam(events[..|events| - 1], since)
    else |events|
  }

  /** With nondecreasing revisions the events above one are a suffix. */
  lemma {:induction false} SinceIsSuffix(events: seq<WatchEvent>, since: int)
    requires Nondecreasing(events)
    ensures Since(events, since) == events[Seam(events, since)..]
    ensures forall i :: 0 <= i < |events| ==> (events[i].revision > since <==> Seam(events, since) <= i)
  {
    if events != [] {
      var front := events[..|events| - 1];
      SinceIsSuffix(front, since);
      if events[|events| - 1].revision > since {
        assert events[Seam(front, since)..] == front[Seam(front, since)..] + [events[|events| - 1]];
      } else {
        assert forall i :: 0 <= i < |front| ==> front[i].revision <= events[|events| - 1].revision;
        assert front[Seam(front, since)..] == [];
      }
    }
  }
}
