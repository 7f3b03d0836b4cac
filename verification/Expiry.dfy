/** What becomes of a value whose lifetime is over: which commands bring it back, over any run of
    commands and batches. */
module Expiry {
  import opened Prelude
  import opened KvCodec
  import opened ReplyCodec
  import opened KvModel
  import Decimal

  /** The key still holds this very version: the value as written then, not written again. */
  predicate Holds(s: State, k: Bytes, x: Stored) {
    k in s.entries && s.entries[k] == x
  }

  /** Persisting drops a deadline without asking whether it has passed; so does get-and-delete when it
      finds nothing to delete. */
  predicate Uncovers(c: Command, k: Bytes) {
    (c.Persist? || c.GetDel?) && c.key == k
  }

  // ------------------------------------------------------------------
  // One command
  // ------------------------------------------------------------------

  /** A lapsed version that survives a command shows again exactly when the command uncovers it. */
  lemma LapsedStep(s: State, c: Command, now: u64, max: nat, k: Bytes, x: Stored)
    requires Invariant(s) && !c.Batch? && Holds(s, k, x) && Expired(s, k, now)
    ensures var after := ApplySingle(s, c, now, max).0;
            Holds(after, k, x) && !Expired(after, k, now) <==> Uncovers(c, k)
  {
    hide Decimal.ParseI64, Decimal.ToText, Purged, RemoveAll, VisibleScan, Invariant, Admits;
    if c.PurgeExpired? {
      PurgeExact(s, c.upTo, now, max);
    }
    HeldIsIssued(s, k, x);
  }

  lemma HeldIsIssued(s: State, k: Bytes, x: Stored)
    requires Invariant(s) && Holds(s, k, x)
    ensures x.sequence <= s.sequence
  {
  }

  /** No version comes back: one held after a command, and not newer than the machine, was held before it. */
  lemma NoVersionReturns(s: State, c: Command, now: u64, max: nat, k: Bytes, x: Stored)
    requires !c.Batch? && x.sequence <= s.sequence && Holds(ApplySingle(s, c, now, max).0, k, x)
    ensures Holds(s, k, x)
  {
    hide Decimal.ParseI64, Decimal.ToText, Purged, RemoveAll, VisibleScan, Admits;
    if c.PurgeExpired? {
      PurgeExact(s, c.upTo, now, max);
    }
  }

  lemma SequenceGrows(s: State, c: Command, now: u64, max: nat)
    requires !c.Batch?
    ensures s.sequence <= ApplySingle(s, c, now, max).0.sequence
  {
    hide Decimal.ParseI64, Decimal.ToText, Purged, RemoveAll, VisibleScan, Admits;
    if c.PurgeExpired? {
      PurgeExact(s, c.upTo, now, max);
    }
  }

  // ------------------------------------------------------------------
  // Runs
  // ------------------------------------------------------------------

  datatype Timed = Timed(command: Command, at: u64)

  /** States passed through by ordinary commands, one by one. */
  ghost predicate Walk(trace: seq<State>, steps: seq<Timed>, max: nat) {
    |trace| == |steps| + 1 &&
    forall i | 0 <= i < |steps| ::
      !steps[i].command.Batch? && ApplySingle(trace[i], steps[i].command, steps[i].at, max).0 == trace[i + 1]
  }

  predicate Forward(steps: seq<Timed>) {
    forall i, j | 0 <= i <= j < |steps| :: steps[i].at <= steps[j].at
  }

  /** After this step a read shows the version. */
  ghost predicate ShownAt(trace: seq<State>, steps: seq<Timed>, k: Bytes, x: Stored, i: nat)
    requires |trace| == |steps| + 1 && i < |steps|
  {
    Holds(trace[i + 1], k, x) && !Expired(trace[i + 1], k, steps[i].at)
  }

  /** This step uncovers the version while it is lapsed. */
  ghost predicate UncoveredAt(trace: seq<State>, steps: seq<Timed>, k: Bytes, x: Stored, i: nat)
    requires |trace| == |steps| + 1 && i < |steps|
  {
    Holds(trace[i], k, x) && Expired(trace[i], k, steps[i].at) && Uncovers(steps[i].command, k)
  }

  lemma {:induction false} WalkKeeps(trace: seq<State>, steps: seq<Timed>, max: nat, n: nat)
    requires Walk(trace, steps, max) && Invariant(trace[0]) && n <= |steps|
    ensures Invariant(trace[n]) && trace[0].sequence <= trace[n].sequence
    decreases n
  {
    hide ApplySingle, Invariant;
    if n > 0 {
      WalkKeeps(trace, steps, max, n - 1);
      SingleKeepsInvariant(trace[n - 1], steps[n - 1].command, steps[n - 1].at, max);
      SequenceGrows(trace[n - 1], steps[n - 1].command, steps[n - 1].at, max);
    }
  }

  /** A version that shows after step `n`, having been lapsed at the start, was uncovered by then. */
  lemma {:induction false} ShownWasUncovered(trace: seq<State>, steps: seq<Timed>, max: nat, k: Bytes, x: Stored, n: nat)
    requires Walk(trace, steps, max) && Forward(steps) && Invariant(trace[0]) && Holds(trace[0], k, x)
    requires n < |steps| && Expired(trace[0], k, steps[0].at) && ShownAt(trace, steps, k, x, n)
    ensures exists i | 0 <= i <= n :: UncoveredAt(trace, steps, k, x, i)
    decreases n
  {
    hide ApplySingle, Invariant, Uncovers;
    WalkKeeps(trace, steps, max, n);
    HeldIsIssued(trace[0], k, x);
    NoVersionReturns(trace[n], steps[n].command, steps[n].at, max, k, x);
    if n > 0 && ShownAt(trace, steps, k, x, n - 1) {
      ShownWasUncovered(trace, steps, max, k, x, n - 1);
    } else {
      LapsedStep(trace[n], steps[n].command, steps[n].at, max, k, x);
      assert UncoveredAt(trace, steps, k, x, n);
    }
  }

  /** Over any run, a lapsed version shows again exactly when some command uncovers it: nothing else, no
      write to the key, no purge and no passing of time, ever brings it back. */
  lemma ReturnsIff(trace: seq<State>, steps: seq<Timed>, max: nat, k: Bytes, x: Stored)
    requires Walk(trace, steps, max) && Forward(steps) && Invariant(trace[0]) && Holds(trace[0], k, x)
    requires steps != [] ==> Expired(trace[0], k, steps[0].at)
    ensures (exists i | 0 <= i < |steps| :: ShownAt(trace, steps, k, x, i)) <==>
            (exists i | 0 <= i < |steps| :: UncoveredAt(trace, steps, k, x, i))
  {
    hide ApplySingle, Invariant, ShownAt, UncoveredAt;
    if i :| 0 <= i < |steps| && ShownAt(trace, steps, k, x, i) {
      ShownWasUncovered(trace, steps, max, k, x, i);
    }
    if i :| 0 <= i < |steps| && UncoveredAt(trace, steps, k, x, i) {
      UncoveredShows(trace, steps, max, k, x, i);
    }
  }

  lemma UncoveredShows(trace: seq<State>, steps: seq<Timed>, max: nat, k: Bytes, x: Stored, i: nat)
    requires Walk(trace, steps, max) && Invariant(trace[0]) && i < |steps| && UncoveredAt(trace, steps, k, x, i)
    ensures ShownAt(trace, steps, k, x, i)
  {
    hide ApplySingle, Invariant, Uncovers;
    WalkKeeps(trace, steps, max, i);
    LapsedStep(trace[i], steps[i].command, steps[i].at, max, k, x);
  }

  // ------------------------------------------------------------------
  // Runs with batches
  // ------------------------------------------------------------------

  ghost function After(s: State, run: seq<Timed>, limits: Limits): State {
    if run == [] then s
    else
      var n := |run| - 1;
      ApplyCommand(After(s, run[..n], limits), run[n].command, run[n].at, limits).0
  }

  /** The step is a command of the run, or one inside a batch of the run. */
  predicate PartOf(step: Timed, c: Timed) {
    step.at == c.at && (step.command == c.command || (c.command.Batch? && step.command in c.command.commands))
  }

  ghost predicate FromRun(step: Timed, run: seq<Timed>) {
    exists i | 0 <= i < |run| :: PartOf(step, run[i])
  }

  /** What one command does, as ordinary steps: itself, its children when it is a batch that succeeds,
      nothing when it is a batch that does not. */
  lemma CommandWalks(s: State, c: Timed, limits: Limits) returns (trace: seq<State>, steps: seq<Timed>)
    ensures Walk(trace, steps, limits.maxExpiryItems) && trace[0] == s
    ensures trace[|steps|] == ApplyCommand(s, c.command, c.at, limits).0
    ensures forall i | 0 <= i < |steps| :: PartOf(steps[i], c)
  {
    hide ApplySingle, FieldsFit, ChildCharge, EncodeReply, ReplyFits, RunFirst;
    if !c.command.Batch? {
      trace, steps := [s, ApplyCommand(s, c.command, c.at, limits).0], [c];
    } else {
      var cs := c.command.commands;
      trace, steps := [s], [];
      if Admissible(cs, limits.maxCommands, limits.maxBytes) && ApplyBatch(s, cs, c.at, limits).0 != s {
        var replies;
        trace, replies := BatchAtomicity(s, cs, c.at, limits);
        steps := seq(|cs|, i requires 0 <= i < |cs| => Timed(cs[i], c.at));
        ChildrenAreOrdinary(cs);
      }
    }
  }

  lemma ChildrenAreOrdinary(cs: seq<Command>)
    requires Flat(cs)
    ensures forall i | 0 <= i < |cs| :: !cs[i].Batch?
  {
    forall i | 0 <= i < |cs| ensures !cs[i].Batch? {
      assert FieldsFit(cs[i]);
    }
  }

  lemma WalkConcat(a: seq<State>, p: seq<Timed>, b: seq<State>, q: seq<Timed>, max: nat)
    requires Walk(a, p, max) && Walk(b, q, max) && a[|p|] == b[0]
    ensures Walk(a + b[1..], p + q, max) && (a + b[1..])[|p + q|] == b[|q|] && (a + b[1..])[0] == a[0]
  {
    hide ApplySingle;
    var c, r := a + b[1..], p + q;
    forall i | 0 <= i < |r|
      ensures !r[i].command.Batch? && ApplySingle(c[i], r[i].command, r[i].at, max).0 == c[i + 1]
    {
      if i >= |p| {
        assert r[i] == q[i - |p|] && c[i] == b[i - |p|] && c[i + 1] == b[i - |p| + 1];
      } else {
        assert r[i] == p[i] && c[i] == a[i] && c[i + 1] == a[i + 1];
      }
    }
  }

  /** Every run of commands and batches is a walk of ordinary commands taken from it, in order. */
  lemma {:induction false} RunWalks(s: State, run: seq<Timed>, limits: Limits) returns (trace: seq<State>, steps: seq<Timed>)
    requires Forward(run)
    ensures Walk(trace, steps, limits.maxExpiryItems) && trace[0] == s && trace[|steps|] == After(s, run, limits)
    ensures Forward(steps) && forall i | 0 <= i < |steps| :: FromRun(steps[i], run)
    decreases |run|
  {
    hide Walk, ApplyCommand;
    if run == [] {
      trace, steps := [s], [];
      assert Walk(trace, steps, limits.maxExpiryItems) by { Standing(s, limits.maxExpiryItems); }
    } else {
      var n := |run| - 1;
      var a, p := RunWalks(s, run[..n], limits);
      var b, q := CommandWalks(After(s, run[..n], limits), run[n], limits);
      Lengths(a, p, limits.maxExpiryItems);
      Lengths(b, q, limits.maxExpiryItems);
      WalkConcat(a, p, b, q, limits.maxExpiryItems);
      trace, steps := a + b[1..], p + q;
      forall i | 0 <= i < |steps| ensures FromRun(steps[i], run) {
        if i < |p| {
          FromLonger(p[i], run, n);
        } else {
          assert steps[i] == q[i - |p|] && PartOf(q[i - |p|], run[n]);
        }
      }
      InOrderTogether(p, q, run);
    }
  }

  lemma Standing(s: State, max: nat)
    ensures Walk([s], [], max)
  {
  }

  lemma Lengths(trace: seq<State>, steps: seq<Timed>, max: nat)
    requires Walk(trace, steps, max)
    ensures |trace| == |steps| + 1
  {
  }

  lemma FromLonger(step: Timed, run: seq<Timed>, n: nat)
    requires n <= |run| && FromRun(step, run[..n])
    ensures FromRun(step, run)
  {
    var i :| 0 <= i < |run[..n]| && PartOf(step, run[..n][i]);
    assert run[..n][i] == run[i];
  }

  lemma InOrderTogether(p: seq<Timed>, q: seq<Timed>, run: seq<Timed>)
    requires run != [] && Forward(run) && Forward(p)
    requires forall i | 0 <= i < |p| :: FromRun(p[i], run[..|run| - 1])
    requires forall i | 0 <= i < |q| :: PartOf(q[i], run[|run| - 1])
    ensures Forward(p + q)
  {
    var front, last := run[..|run| - 1], run[|run| - 1].at;
    forall i | 0 <= i < |p| ensures p[i].at <= last {
      assert FromRun(p[i], front);
      var j :| 0 <= j < |front| && PartOf(p[i], front[j]);
      assert front[j] == run[j];
    }
  }

  /** Once a value's lifetime is over, a run of commands and batches that neither persists the key nor
      get-and-deletes it never shows that value again. */
  lemma LapsedForGood(s: State, run: seq<Timed>, limits: Limits, k: Bytes, x: Stored)
    requires Invariant(s) && Holds(s, k, x) && run != [] && Forward(run) && Expired(s, k, run[0].at)
    requires forall c: Timed | FromRun(c, run) :: !Uncovers(c.command, k)
    ensures var after := After(s, run, limits); Holds(after, k, x) ==> Expired(after, k, run[|run| - 1].at)
  {
    hide Walk, Invariant, After, Uncovers;
    var trace, steps := RunWalks(s, run, limits);
    Lengths(trace, steps, limits.maxExpiryItems);
    if steps != [] {
      StartsLater(steps[0], run);
      ReturnsIff(trace, steps, limits.maxExpiryItems, k, x);
      var n := |steps| - 1;
      assert forall i | 0 <= i < |steps| :: !UncoveredAt(trace, steps, k, x, i);
      assert !ShownAt(trace, steps, k, x, n);
      EndsSooner(steps[n], run);
    }
  }

  lemma StartsLater(step: Timed, run: seq<Timed>)
    requires FromRun(step, run) && Forward(run)
    ensures run != [] && run[0].at <= step.at
  {
  }

  lemma EndsSooner(step: Timed, run: seq<Timed>)
    requires FromRun(step, run) && Forward(run)
    ensures run != [] && step.at <= run[|run| - 1].at
  {
  }

  // ------------------------------------------------------------------
  // Such commands exist
  // ------------------------------------------------------------------

  /** From an empty machine: a value set for five is gone at ten, and shows again there once its key is
      persisted, or get-and-deleted. */
  lemma LapsedValueReturns(limits: Limits, uncover: Command)
    requires uncover == Persist([1]) || uncover == GetDel([1])
    ensures var empty := State(8, 8, map[], 0, map[], map[]);
            var held := ApplyCommand(empty, Set([1], [7], Some(5)), 0, limits).0;
            var after := ApplyCommand(held, uncover, 10, limits).0;
            Invariant(empty) && ApplyCommand(held, Get([1]), 10, limits).1 == Done(Value(None)) &&
            (uncover.GetDel? ==> ApplyCommand(held, uncover, 10, limits).1 == Done(Value(None))) &&
            ApplyCommand(after, Get([1]), 10, limits).1 == Done(Value(Some([7])))
  {
    hide ApplyBatch, Decimal.ParseI64, Decimal.ToText, Purged, RemoveAll, VisibleScan;
  }
}
