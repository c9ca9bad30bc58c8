/** Client retries: the duplicate filter over a whole log. */
module Retry {
  import opened Api
  import opened Machine

  /** One request, sent again: the whole command is the same, under a client id. */
  predicate SameRequest(a: Command, b: Command) {
    a == b && a.clientId != 0
  }

  /** All that the filter looks at. */
  predicate SameIds(a: Command, b: Command) {
    a.clientId == b.clientId != 0 && a.requestId == b.requestId
  }

  /** Entry `i` is the same request as an earlier one. */
  ghost predicate Repeat(log: seq<Timed>, i: nat)
    requires i < |log|
  {
    exists j :: 0 <= j < i && SameRequest(log[j].command, log[i].command)
  }

  /** The node answers entry `i` as a duplicate. */
  ghost predicate Flagged(log: seq<Timed>, i: nat)
    requires i < |log|
  {
    IsDuplicate(Run(Init, log[..i]), log[i].command)
  }

  ghost predicate Overtaken(log: seq<Timed>, i: nat, c: Command) {
    exists j :: 0 <= j < i <= |log| && log[j].command.clientId == c.clientId && log[j].command.requestId >= c.requestId
  }

  ghost predicate NeverCrashes(log: seq<Timed>) {
    forall i :: 0 <= i < |log| ==> !log[i].command.op.Invalid?
  }

  lemma {:induction false} NotCrashed(log: seq<Timed>)
    requires NeverCrashes(log)
    ensures !Run(Init, log).crashed
  {
    if log != [] {
      NotCrashed(log[..|log| - 1]);
    }
  }

  /** The table remembers exactly each client's highest request id so far. */
  lemma {:induction false} TableIsHighest(log: seq<Timed>, client: int)
    requires NeverCrashes(log) && client != 0
    ensures var dedup := Run(Init, log).dedup;
            && (client in dedup <==> exists j :: 0 <= j < |log| && log[j].command.clientId == client)
            && (client in dedup ==>
                 && (forall j :: 0 <= j < |log| && log[j].command.clientId == client ==>
                   log[j].command.requestId <= dedup[client])
                 && exists j :: 0 <= j < |log| && log[j].command.clientId == client
                                && log[j].command.requestId == dedup[client])
  {
    if log != [] {
      var n := |log| - 1;
      var front := log[..n];
      TableIsHighest(front, client);
      NotCrashed(front);
      assert forall j :: 0 <= j < n ==> front[j] == log[j];
      var before, dedup := Run(Init, front), Run(Init, log).dedup;
      if log[n].command.clientId != client || IsDuplicate(before, log[n].command) {
        assert client in dedup <==> client in before.dedup;
        if client in dedup {
          var j :| 0 <= j < n && front[j].command.clientId == client && front[j].command.requestId == dedup[client];
          assert log[j].command.clientId == client && log[j].command.requestId == dedup[client];
        }
      } else {
        assert log[n].command.clientId == client && log[n].command.requestId == dedup[client];
      }
    }
  }

  /** An entry is flagged exactly when its client already got as far or further. */
  lemma FlaggedIff(log: seq<Timed>, i: nat)
    requires NeverCrashes(log) && i < |log|
    ensures Flagged(log, i) <==> log[i].command.clientId != 0 && Overtaken(log, i, log[i].command)
  {
    var c := log[i].command;
    if c.clientId != 0 {
      var front := log[..i];
      assert forall j :: 0 <= j < i ==> front[j] == log[j];
      TableIsHighest(front, c.clientId);
      if Overtaken(log, i, c) {
        var j :| 0 <= j < i && log[j].command.clientId == c.clientId && log[j].command.requestId >= c.requestId;
        assert front[j].command.clientId == c.clientId;
      }
    }
  }

  /** The request of entry `i` was applied by an earlier entry. */
  ghost predicate Served(log: seq<Timed>, i: nat)
    requires i < |log|
  {
    exists j :: 0 <= j < i && SameRequest(log[j].command, log[i].command) && !Flagged(log, j)
  }

  /** No request is ever applied twice, whatever order requests arrive in; nor are two requests
      that share their ids. */
  lemma AtMostOnce(log: seq<Timed>, i: nat, j: nat)
    requires NeverCrashes(log) && i < j < |log|
    requires SameIds(log[i].command, log[j].command)
    ensures Flagged(log, j)
  {
    FlaggedIff(log, j);
  }

  /** Entry `i` brings its pair of ids for the first time. */
  ghost predicate NewIds(log: seq<Timed>, i: nat)
    requires i < |log|
  {
    forall j :: 0 <= j < i ==> !SameIds(log[j].command, log[i].command)
  }

  /** Every client's request ids first appear in increasing order. */
  ghost predicate FirstsIncrease(log: seq<Timed>) {
    forall i, j :: 0 <= i < j < |log| && log[i].command.clientId == log[j].command.clientId != 0 && NewIds(log, j) ==>
      log[i].command.requestId < log[j].command.requestId
  }

  /** No two requests share their ids: client ids are told apart, and each client counts its requests. */
  ghost predicate IdsDistinct(log: seq<Timed>) {
    forall i, j :: 0 <= i < |log| && 0 <= j < |log| && SameIds(log[i].command, log[j].command) ==>
      log[i].command == log[j].command
  }

  ghost predicate Disciplined(log: seq<Timed>) {
    FirstsIncrease(log) && IdsDistinct(log)
  }

  /** Being called a duplicate means having been applied, and the other way round. */
  ghost predicate FilterRight(log: seq<Timed>) {
    forall i :: 0 <= i < |log| ==> (Flagged(log, i) <==> Served(log, i))
  }

  /** With new ids nothing overtakes an entry, so it is applied. */
  lemma NewIdsApplied(log: seq<Timed>, i: nat)
    requires NeverCrashes(log) && FirstsIncrease(log) && i < |log| && NewIds(log, i)
    ensures !Flagged(log, i)
  {
    FlaggedIff(log, i);
  }

  /** The first entry that brought the ids of entry `i`. */
  lemma {:induction false} FirstOfIds(log: seq<Timed>, i: nat) returns (f: nat)
    requires i < |log| && log[i].command.clientId != 0
    ensures f <= i && SameIds(log[f].command, log[i].command) && NewIds(log, f)
    decreases i
  {
    f := i;
    if !NewIds(log, i) {
      var j :| 0 <= j < i && SameIds(log[j].command, log[i].command);
      f := FirstOfIds(log, j);
    }
  }

  lemma DisciplineSuffices(log: seq<Timed>, i: nat)
    requires NeverCrashes(log) && Disciplined(log) && i < |log|
    ensures Flagged(log, i) <==> Served(log, i)
    ensures Flagged(log, i) <==> Repeat(log, i)
  {
    FlaggedIff(log, i);
    if log[i].command.clientId != 0 {
      var f := FirstOfIds(log, i);
      NewIdsApplied(log, f);
      assert f < i ==> SameRequest(log[f].command, log[i].command);
    }
  }

  /** Under a right filter the entry that first brought a pair of ids fixes the command. */
  lemma RightFilterFixesCommand(log: seq<Timed>, i: nat)
    requires NeverCrashes(log) && FilterRight(log) && i < |log| && log[i].command.clientId != 0
    ensures exists f :: 0 <= f <= i && NewIds(log, f) && SameRequest(log[f].command, log[i].command)
  {
    var f := FirstOfIds(log, i);
    if f < i {
      AtMostOnce(log, f, i);
      var j :| 0 <= j < i && SameRequest(log[j].command, log[i].command) && !Flagged(log, j);
      if f < j {
        AtMostOnce(log, f, j);
      }
    }
  }

  lemma DisciplineNeeded(log: seq<Timed>)
    requires NeverCrashes(log) && FilterRight(log)
    ensures Disciplined(log)
  {
    forall i, j | 0 <= i < j < |log| && log[i].command.clientId == log[j].command.clientId != 0 && NewIds(log, j)
      ensures log[i].command.requestId < log[j].command.requestId
    {
      FlaggedIff(log, j);
    }
    forall i, j | 0 <= i < |log| && 0 <= j < |log| && SameIds(log[i].command, log[j].command)
      ensures log[i].command == log[j].command
    {
      RightFilterFixesCommand(log, i);
      RightFilterFixesCommand(log, j);
    }
  }

  /** A duplicate answer means that the request was applied, and a request that was applied is
      answered so, exactly when no two requests share their ids and each client's ids first appear
      in increasing order. */
  lemma FilterExact(log: seq<Timed>)
    requires NeverCrashes(log)
    ensures FilterRight(log) <==> Disciplined(log)
  {
    if Disciplined(log) {
      forall i | 0 <= i < |log| ensures Flagged(log, i) <==> Served(log, i) {
        DisciplineSuffices(log, i);
      }
    }
    if FilterRight(log) {
      DisciplineNeeded(log);
    }
  }

  // ----- Erasing the repeats -----

  ghost function Erased(log: seq<Timed>): seq<Timed> {
    if log == [] then []
    else Erased(log[..|log| - 1]) + if Repeat(log, |log| - 1) then [] else [log[|log| - 1]]
  }

  lemma DisciplinedFront(log: seq<Timed>, n: nat)
    requires Disciplined(log) && n <= |log|
    ensures Disciplined(log[..n])
  {
    forall i | 0 <= i < n ensures NewIds(log[..n], i) ==> NewIds(log, i) {
      assert forall j :: 0 <= j < i ==> log[..n][j] == log[j];
    }
  }

  lemma RepeatFront(log: seq<Timed>, n: nat, i: nat)
    requires i < n <= |log|
    ensures Repeat(log[..n], i) <==> Repeat(log, i)
  {
    if Repeat(log, i) {
      var j :| 0 <= j < i && SameRequest(log[j].command, log[i].command);
      assert SameRequest(log[..n][j].command, log[..n][i].command);
    }
  }

  /** Retries are transparent: the node ends in the state of the log without them. */
  lemma {:induction false} RetriesTransparent(log: seq<Timed>)
    requires NeverCrashes(log) && Disciplined(log)
    ensures Run(Init, Erased(log)) == Run(Init, log)
  {
    if log != [] {
      var n := |log| - 1;
      DisciplinedFront(log, n);
      RetriesTransparent(log[..n]);
      DisciplineSuffices(log, n);
      if Repeat(log, n) {
        assert Erased(log) == Erased(log[..n]);
      } else {
        assert Erased(log)[..|Erased(log)| - 1] == Erased(log[..n]);
      }
    }
  }

  lemma ErasedAt(log: seq<Timed>, i: nat)
    requires i < |log| && !Repeat(log, i)
    ensures var p := |Erased(log[..i])|;
            p < |Erased(log)| && Erased(log)[p] == log[i] && Erased(log)[..p] == Erased(log[..i])
  {
    ErasedFront(log, i + 1);
    var front := log[..i + 1];
    assert front[..i] == log[..i];
    RepeatFront(log, i + 1, i);
    assert Erased(front) == Erased(log[..i]) + [log[i]];
  }

  /** And every first attempt gets the answer it would get with no retries around. */
  lemma FirstAnswersSame(log: seq<Timed>, i: nat)
    requires NeverCrashes(log) && Disciplined(log) && i < |log| && !Repeat(log, i)
    ensures var p := |Erased(log[..i])|;
            && p < |Erased(log)| && Erased(log)[p] == log[i] && Erased(log)[..p] == Erased(log[..i])
            && ReplyTo(Run(Init, Erased(log)[..p]), log[i].command) == ReplyTo(Run(Init, log[..i]), log[i].command)
  {
    ErasedAt(log, i);
    assert Run(Init, Erased(log[..i])) == Run(Init, log[..i]) by {
      DisciplinedFront(log, i);
      RetriesTransparent(log[..i]);
    }
  }

  lemma {:induction false} ErasedFront(log: seq<Timed>, n: nat)
    requires n <= |log|
    ensures Erased(log[..n]) <= Erased(log)
    decreases |log|
  {
    if n < |log| {
      var front := log[..|log| - 1];
      ErasedFront(front, n);
      assert front[..n] == log[..n];
    } else {
      assert log[..n] == log;
    }
  }

  /** Each request in the log was applied by exactly one of its entries. */
  lemma ExactlyOnce(log: seq<Timed>, i: nat) returns (j: nat)
    requires NeverCrashes(log) && Disciplined(log)
    requires i < |log| && log[i].command.clientId != 0
    ensures j <= i && SameRequest(log[j].command, log[i].command) && !Flagged(log, j)
    ensures forall k :: 0 <= k < |log| && SameRequest(log[k].command, log[i].command) && !Flagged(log, k) ==> k == j
  {
    j := FirstOfIds(log, i);
    NewIdsApplied(log, j);
    forall k | j < k < |log| && SameIds(log[j].command, log[k].command) ensures Flagged(log, k) {
      AtMostOnce(log, j, k);
    }
  }

  // ----- Where the filter goes wrong -----

  /** Entry `i` is answered as a duplicate although its request was never applied. */
  ghost predicate LostRequest(log: seq<Timed>, i: nat) {
    NeverCrashes(log) && i < |log| && Flagged(log, i) && !Served(log, i)
  }

  /** Two requests of one client that commit out of order: the second one is lost. */
  lemma OvertakenRequestIsLost()
    ensures exists log: seq<Timed>, i: nat :: LostRequest(log, i) && IdsDistinct(log)
  {
    var log := [Timed(Command(Put("a", "1", 0), 5, 2), 0), Timed(Command(Put("b", "1", 0), 5, 1), 0)];
    assert log[0].command.clientId == 5;
    assert Overtaken(log, 1, log[1].command);
    FlaggedIff(log, 1);
    assert LostRequest(log, 1);
  }

  /** Two client processes that both count themselves as client 1: all ids come in order, yet the later
      one's first request is lost, and its key never appears. */
  lemma CollidingClientsLoseRequest()
    ensures exists log: seq<Timed>, i: nat ::
              LostRequest(log, i) && FirstsIncrease(log) && "b" !in Run(Init, log).store.entries
  {
    var log := [Timed(Command(Put("a", "1", 0), 1, 1), 0), Timed(Command(Put("b", "2", 0), 1, 1), 0)];
    assert log[0].command.op != log[1].command.op;
    assert SameIds(log[0].command, log[1].command);
    AtMostOnce(log, 0, 1);
    assert LostRequest(log, 1);
    assert log[..0] == [];
    RunSnoc(Init, log, 0);
    RunSnoc(Init, log, 1);
    assert log[..2] == log;
  }
}
