/** The revision as a logical clock. */
module Revision {
  import opened Api
  import opened StoreSpec
  import opened Machine

  /** How many commands of a write kind the log really applied. */
  function AppliedWrites(s: State, log: seq<Timed>): nat {
    if log == [] then 0
    else
      var n := |log| - 1;
      AppliedWrites(s, log[..n])
      + if Applies(Run(s, log[..n]), log[n].command) && log[n].command.op.IsWrite() then 1 else 0
  }

  lemma {:induction false} RevisionCounts(s: State, log: seq<Timed>)
    ensures Run(s, log).revision == s.revision + AppliedWrites(s, log)
  {
    if log != [] {
      RevisionCounts(s, log[..|log| - 1]);
    }
  }

  lemma {:induction false} RevisionGrows(s: State, log: seq<Timed>, i: nat, j: nat)
    requires i <= j <= |log|
    ensures Run(s, log[..i]).revision <= Run(s, log[..j]).revision
    decreases j
  {
    if i < j {
      RevisionGrows(s, log, i, j - 1);
      RunSnoc(s, log, j - 1);
    }
  }

  /** Two points of a run with the same revision hold the same keys, values and owners. */
  lemma {:induction false} RevisionFixesEntries(s: State, log: seq<Timed>, i: nat, j: nat)
    requires i <= j <= |log|
    requires Run(s, log[..i]).revision == Run(s, log[..j]).revision
    ensures Run(s, log[..i]).store.entries == Run(s, log[..j]).store.entries
    decreases j
  {
    if i < j {
      RevisionGrows(s, log, i, j - 1);
      RevisionGrows(s, log, j - 1, j);
      RevisionFixesEntries(s, log, i, j - 1);
      RunSnoc(s, log, j - 1);
    }
  }

  /** So two reads, fresh or retried, that report the same revision report the same result. */
  lemma SameRevisionSameRead(s: State, log: seq<Timed>, i: nat, j: nat, a: Command, b: Command)
    requires i <= j <= |log|
    requires a.op == b.op && (a.op.Get? || a.op.List?)
    requires ReplyTo(Run(s, log[..i]), a).Some? && ReplyTo(Run(s, log[..j]), b).Some?
    requires ReplyTo(Run(s, log[..i]), a).value.revision == ReplyTo(Run(s, log[..j]), b).value.revision
    ensures ReplyTo(Run(s, log[..i]), a).value.answer == ReplyTo(Run(s, log[..j]), b).value.answer
  {
    RevisionFixesEntries(s, log, i, j);
    assert Data(Run(s, log[..i]).store) == Data(Run(s, log[..j]).store);
  }
}
