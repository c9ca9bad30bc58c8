/** The event ring buffer. */
module Ring {
  import opened Api
  import opened Views

  /** The last `n` elements, or all of them. */
  function LastN(h: seq<WatchEvent>, n: nat): seq<WatchEvent> {
    if |h| <= n then h else h[|h| - n..]
  }

  /** Keeping the last `n` of what is kept loses nothing that keeping the last `n` of all would not. */
  lemma LastNSnoc(h: seq<WatchEvent>, n: nat, e: WatchEvent)
    requires n > 0
    ensures LastN(LastN(h, n) + [e], n) == LastN(h + [e], n)
  {
  }

  /** The ring wraps at most once for the positions the buffer forms. */
  lemma WrapsOnce(i: nat, size: nat)
    requires i < 2 * size
    ensures i % size == if i < size then i else i - size
  {
  }

  class EventBuffer {
    var events: seq<WatchEvent>
    var start: nat
    var count: nat
    const size: nat
    ghost var history: seq<WatchEvent>  // everything ever pushed

    ghost predicate Valid()
      reads this
    {
      && count <= size && start <= size && (0 < size ==> start < size)
      && |events| == count && (count < size ==> start == 0)
      && LastN(history, size) == events[start..] + events[..start]
    }

    constructor (size: nat)
      ensures Valid() && this.size == size && history == []
    {
      this.size := size;
      events, start, count, history := [], 0, 0, [];
    }

    /** A buffer of size zero has no slot to write to. */
    method Push(e: WatchEvent)
      requires Valid() && size > 0
      modifies this
      ensures Valid() && history == old(history) + [e]
    {
      LastNSnoc(history, size, e);
      ghost var kept := events[start..] + events[..start];
      if count == size {
        events := events[start := e];
        WrapsOnce(start + 1, size);
        start := (start + 1) % size;
        assert events[start..] + events[..start] == kept[1..] + [e];
      } else {
        WrapsOnce(start + count, size);
        var idx := (start + count) % size;
        if idx >= |events| {
          events := events + [e];
        } else {
          // Nothing is ever taken out, so a buffer that is not full has no old slot to overwrite.
          assert false;
        }
        count := count + 1;
        assert events[start..] + events[..start] == kept + [e];
      }
      history := history + [e];
    }

    /** Hands out exactly the buffered events above `since`, oldest first. */
    method Replay(since: int) returns (result: seq<WatchEvent>)
      requires Valid()
      ensures result == Since(LastN(history, size), since)
    {
      result := [];
      ghost var kept := LastN(history, size);
      for i := 0 to count
        invariant result == Since(kept[..i], since)
      {
        WrapsOnce(start + i, size);
        var idx := (start + i) % size;
        var e := events[idx];
        assert e == kept[i];
        assert kept[..i + 1][..i] == kept[..i];
        if e.revision > since {
          result := result + [e];
        }
      }
      assert kept[..count] == kept;
    }
  }

  // ----- What replay can miss -----

  lemma {:induction false} SinceConcat(a: seq<WatchEvent>, b: seq<WatchEvent>, since: int)
    ensures Since(a + b, since) == Since(a, since) + Since(b, since)
  {
    if b == [] {
      assert a + b == a;
    } else {
      SinceConcat(a, b[..|b| - 1], since);
      assert (a + b)[..|a + b| - 1] == a + b[..|b| - 1];
    }
  }

  lemma {:induction false} SinceEmptyIff(a: seq<WatchEvent>, since: int)
    ensures Since(a, since) == [] <==> forall i :: 0 <= i < |a| ==> a[i].revision <= since
  {
    if a != [] {
      SinceEmptyIff(a[..|a| - 1], since);
      assert forall i :: 0 <= i < |a| - 1 ==> a[..|a| - 1][i] == a[i];
    }
  }

  /** Replay is complete exactly when everything evicted is at or below `since`. */
  lemma ReplayCompleteIff(history: seq<WatchEvent>, size: nat, since: int)
    ensures Since(LastN(history, size), since) == Since(history, since)
       <==> forall i :: 0 <= i < |history| - size ==> history[i].revision <= since
  {
    var cut := if |history| <= size then 0 else |history| - size;
    var evicted, kept := history[..cut], history[cut..];
    assert history == evicted + kept;
    SinceConcat(evicted, kept, since);
    SinceEmptyIff(evicted, since);
    assert LastN(history, size) == kept;
    if Since(kept, since) == Since(evicted, since) + Since(kept, since) {
      assert |Since(evicted, since)| == 0;
    }
    assert forall i :: 0 <= i < cut ==> evicted[i] == history[i];
  }

  /** With nondecreasing revisions, what replay hands out is always the tail of the history. */
  lemma ReplayIsSuffix(history: seq<WatchEvent>, size: nat, since: int)
    requires Nondecreasing(history)
    ensures var r := Since(LastN(history, size), since);
            |r| <= |history| && r == history[|history| - |r|..]
  {
    var kept := LastN(history, size);
    SinceIsSuffix(kept, since);
  }
}
