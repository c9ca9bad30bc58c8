/** Commit subscriptions: request handlers open a channel for a log index, the apply loop
    answers it when that index commits, and a snapshot cancels what it covers. */
module CommitSubs {

  datatype ChanOp = Send | Close

  /** Where the apply loop stands in answering: the lock is only held while it pops. */
  datatype Phase = Idle | Popped(chan: nat) | Sent(chan: nat)

  /** `chans[c]` is everything done to channel `c` so far; `table` maps log indices to channels. */
  datatype Subs = Subs(chans: seq<seq<ChanOp>>, table: map<int, nat>, phase: Phase)

  const NoSubs := Subs([], map[], Idle)

  datatype Act = Create(index: int) | Pop(index: int) | SendReply | CloseChan | Install(index: int)

  /** The channels that a snapshot at `index` cancels. */
  function Covered(s: Subs, index: int): set<nat> {
    set i | i in s.table && i <= index :: s.table[i]
  }

  function Do(s: Subs, a: Act): Subs {
    match a
    case Create(index) =>
      // A second subscription for an index panics and changes nothing.
      if index in s.table then s
      else s.(chans := s.chans + [[]], table := s.table[index := |s.chans|])
    case Pop(index) =>
      if s.phase.Idle? && index in s.table
      then s.(table := s.table - {index}, phase := Popped(s.table[index]))
      else s
    case SendReply =>
      if s.phase.Popped? && s.phase.chan < |s.chans|
      then s.(chans := s.chans[s.phase.chan := s.chans[s.phase.chan] + [Send]], phase := Sent(s.phase.chan))
      else s
    case CloseChan =>
      if s.phase.Sent? && s.phase.chan < |s.chans|
      then s.(chans := s.chans[s.phase.chan := s.chans[s.phase.chan] + [Close]], phase := Idle)
      else s
    case Install(index) =>
      if s.phase.Idle?
      then s.(chans := seq(|s.chans|, c requires 0 <= c < |s.chans| =>
                           if c in Covered(s, index) then s.chans[c] + [Close] else s.chans[c]),
              table := map i | i in s.table && i > index :: s.table[i])
      else s
  }

  function Execute(s: Subs, acts: seq<Act>): Subs {
    if acts == [] then s else Do(Execute(s, acts[..|acts| - 1]), acts[|acts| - 1])
  }

  /** The only histories a channel may have: answered or cancelled at most once, closed last. */
  predicate Orderly(ops: seq<ChanOp>) {
    ops == [] || ops == [Send] || ops == [Close] || ops == [Send, Close]
  }

  ghost predicate Waiting(s: Subs, c: nat) {
    exists i :: i in s.table && s.table[i] == c
  }

  ghost predicate Ok(s: Subs) {
    && (forall i :: i in s.table ==> s.table[i] < |s.chans| && s.chans[s.table[i]] == [])
    && (forall i, j :: i in s.table && j in s.table && s.table[i] == s.table[j] ==> i == j)
    && (!s.phase.Idle? ==> s.phase.chan < |s.chans| && !Waiting(s, s.phase.chan))
    && (s.phase.Popped? ==> s.chans[s.phase.chan] == [])
    && (s.phase.Sent? ==> s.chans[s.phase.chan] == [Send])
    && (forall c :: 0 <= c < |s.chans| && !Waiting(s, c) && (s.phase.Idle? || s.phase.chan != c) ==>
          s.chans[c] == [Close] || s.chans[c] == [Send, Close])
  }

  lemma DoOk(s: Subs, a: Act)
    requires Ok(s)
    ensures Ok(Do(s, a))
  {
    var t := Do(s, a);
    match a
    case Create(index) =>
      if index !in s.table {
        CreateOk(s, index);
      }
    case Pop(index) =>
      if s.phase.Idle? && index in s.table {
        forall c: nat | Waiting(s, c) ensures Waiting(t, c) || c == t.phase.chan {
          var i :| i in s.table && s.table[i] == c;
          assert i != index ==> i in t.table;
        }
      }
    case SendReply => SameWaiting(s, t);
    case CloseChan => SameWaiting(s, t);
    case Install(index) =>
      if s.phase.Idle? {
        InstallOk(s, index);
      }
  }

  lemma SameWaiting(s: Subs, t: Subs)
    requires s.table == t.table
    ensures forall c: nat :: Waiting(s, c) <==> Waiting(t, c)
  {
  }

  lemma CreateOk(s: Subs, index: int)
    requires Ok(s) && index !in s.table
    ensures Ok(Do(s, Create(index)))
  {
    var t := Do(s, Create(index));
    forall c: nat ensures Waiting(t, c) <==> Waiting(s, c) || c == |s.chans| {
      assert index in t.table;
      if Waiting(s, c) {
        var i :| i in s.table && s.table[i] == c;
        assert i in t.table && t.table[i] == c;
      }
    }
  }

  lemma InstallOk(s: Subs, index: int)
    requires Ok(s) && s.phase.Idle?
    ensures Ok(Do(s, Install(index)))
  {
    var t := Do(s, Install(index));
    forall c: nat ensures Waiting(s, c) <==> Waiting(t, c) || c in Covered(s, index) {
      if Waiting(s, c) {
        var i :| i in s.table && s.table[i] == c;
        assert i <= index || i in t.table;
      }
    }
    forall c | c in Covered(s, index) ensures !Waiting(t, c) {
    }
  }

  lemma {:induction false} ExecuteOk(acts: seq<Act>)
    ensures Ok(Execute(NoSubs, acts))
  {
    if acts != [] {
      ExecuteOk(acts[..|acts| - 1]);
      DoOk(Execute(NoSubs, acts[..|acts| - 1]), acts[|acts| - 1]);
    }
  }

  /** In every interleaving, each channel sees at most one send and at most one close, in that order. */
  lemma ChannelsOrderly(acts: seq<Act>)
    ensures forall c :: 0 <= c < |Execute(NoSubs, acts).chans| ==> Orderly(Execute(NoSubs, acts).chans[c])
  {
    ExecuteOk(acts);
    var s := Execute(NoSubs, acts);
    forall c | 0 <= c < |s.chans| ensures Orderly(s.chans[c]) {
      if Waiting(s, c) {
        var i :| i in s.table && s.table[i] == c;
      }
    }
  }

  /** The apply loop only ever sends on a channel nothing was sent on, so a buffer of one never
      makes it wait; and when it is between commands every handler is either still in the table
      or has been told. */
  lemma ApplyLoopNeverBlocks(acts: seq<Act>)
    ensures var s := Execute(NoSubs, acts);
            && (s.phase.Popped? ==> s.phase.chan < |s.chans| && s.chans[s.phase.chan] == [])
            && (s.phase.Idle? ==> forall c :: 0 <= c < |s.chans| ==> (Waiting(s, c) <==> s.chans[c] == []))
  {
    ExecuteOk(acts);
    var s := Execute(NoSubs, acts);
    if s.phase.Idle? {
      forall c | 0 <= c < |s.chans| ensures Waiting(s, c) <==> s.chans[c] == [] {
        if Waiting(s, c) {
          var i :| i in s.table && s.table[i] == c;
        }
      }
    }
  }

  /** Installing a snapshot leaves exactly the subscriptions above it, and closes the others. */
  lemma SnapshotCancels(acts: seq<Act>, index: int, i: int)
    requires Execute(NoSubs, acts).phase.Idle? && i in Execute(NoSubs, acts).table
    ensures var s := Execute(NoSubs, acts); var t := Do(s, Install(index)); var c := s.table[i];
            && (i in t.table <==> i > index)
            && c < |t.chans| && t.chans[c] == if i <= index then [Close] else []
  {
    ExecuteOk(acts);
    var s := Execute(NoSubs, acts);
    assert s.table[i] in Covered(s, index) <==> i <= index;
  }
}
