/** Which operations may have changed a key, and what a linearization therefore fixes
    between two operations nothing may have come between. */
module Effects {
  import opened Prelude
  import opened History
  import Decimal

  predicate TouchesKey(kind: Kind, k: Bytes) {
    match kind
    case Batch(commands) => exists i | 0 <= i < |commands| :: TouchesKey(commands[i], k)
    case Set(_, _) => KeyOf(kind) == k
    case Del(_) => KeyOf(kind) == k
    case Incr(_) => KeyOf(kind) == k
    case Cas(_, _, _) => KeyOf(kind) == k
    case Get(_) => false
    case Scan(_, _) => false
  }

  predicate IsMutation(kind: Kind, outcome: Outcome) {
    ((kind.Set? || kind.Del?) && outcome.Ok?) ||
    (kind.Cas? && outcome == Swapped(true)) ||
    (kind.Incr? && outcome.Integer?)
  }

  predicate MutatesKey(op: Operation, k: Bytes) {
    if op.kind.Batch? && op.outcome.Replies? then
      exists i | 0 <= i < |op.kind.commands| ::
        KeyOf(op.kind.commands[i]) == k && i < |op.outcome.replies| &&
        IsMutation(op.kind.commands[i], op.outcome.replies[i])
    else KeyOf(op.kind) == k && IsMutation(op.kind, op.outcome)
  }

  predicate MayHaveMutated(op: Operation, k: Bytes) {
    if op.outcome.Timeout? then TouchesKey(op.kind, k) else MutatesKey(op, k)
  }

  predicate Overlaps(op: Operation, left: u64, right: u64) {
    op.invoke <= right && (op.complete.None? || op.complete.value >= left)
  }

  /** Some other operation that may have changed the key is not forced by real time to lie
      wholly before `left` or wholly after `right`. */
  predicate Intervening(h: seq<Operation>, k: Bytes, left: u64, right: u64, excluded: u64) {
    exists i | 0 <= i < |h| ::
      h[i].id != excluded && MayHaveMutated(h[i], k) && Overlaps(h[i], left, right)
  }

  // ------------------------------------------------------------------
  // What these tests mean
  // ------------------------------------------------------------------

  /** Every other operation that may have changed the key had completed before `a` began, or began
      after `b` completed. */
  ghost predicate Undisturbed(h: seq<Operation>, k: Bytes, a: Operation, b: Operation) {
    forall op | op in h && op.id != a.id && MayHaveMutated(op, k) :: HappensBefore(op, a) || HappensBefore(b, op)
  }

  lemma NothingBetween(h: seq<Operation>, k: Bytes, a: Operation, b: Operation)
    requires b.complete.Some?
    ensures Intervening(h, k, a.invoke, b.complete.value, a.id) <==> !Undisturbed(h, k, a, b)
  {
    hide MayHaveMutated;
    if !Undisturbed(h, k, a, b) {
      var op :| op in h && op.id != a.id && MayHaveMutated(op, k) && !HappensBefore(op, a) && !HappensBefore(b, op);
      var i :| 0 <= i < |h| && h[i] == op;
      assert h[i].id != a.id && MayHaveMutated(h[i], k) && Overlaps(h[i], a.invoke, b.complete.value);
    }
    if Intervening(h, k, a.invoke, b.complete.value, a.id) {
      var i :| 0 <= i < |h| && h[i].id != a.id && MayHaveMutated(h[i], k) && Overlaps(h[i], a.invoke, b.complete.value);
      assert h[i] in h;
    }
  }

  ghost predicate ChangesFrom(m: Model, c: Choice, k: Bytes) {
    Step(m, c).Some? && Lookup(Step(m, c).value, k) != Lookup(m, k)
  }

  /** Some model explains the operation, with its answer, by a step that changes the key's cell. */
  ghost predicate MayChange(op: Operation, k: Bytes) {
    exists m, applied :: ChangesFrom(m, Choice(op, applied), k)
  }

  /** The one answer no increment ever gives. */
  predicate ImpossibleCount(op: Operation) {
    op.kind.Incr? && op.outcome == Integer(-0x8000_0000_0000_0000)
  }

  /** For a command on its own, the test for a possible mutation is exact. */
  lemma MayMutateExact(op: Operation, k: Bytes)
    requires !op.kind.Batch? && !ImpossibleCount(op)
    ensures MayHaveMutated(op, k) <==> MayChange(op, k)
  {
    if MayHaveMutated(op, k) {
      var m := ModelItChanges(op, k);
      assert ChangesFrom(m, Choice(op, true), k);
    }
    if MayChange(op, k) {
      var m, applied :| ChangesFrom(m, Choice(op, applied), k);
      if !MayHaveMutated(op, k) {
        StepLeavesKey(m, Choice(op, applied), k);
      }
    }
  }

  lemma ModelItChanges(op: Operation, k: Bytes) returns (m: Model)
    requires !op.kind.Batch? && !ImpossibleCount(op) && MayHaveMutated(op, k)
    ensures ChangesFrom(m, Choice(op, true), k)
  {
    match op.kind
    case Incr(_) =>
      var before: i64 := if op.outcome.Integer? then op.outcome.n - 1 else 0;
      Decimal.ParseToText(before);
      m := map[k := Cell(Decimal.ToText(before), Some(0))];
    case Cas(_, expected, v) => m := if expected.Some? then map[k := Cell(expected.value, Some(0))] else map[];
    case Set(_, v) => m := map[k := Cell(v + [0], None)];
    case Del(_) => m := map[k := Cell([], None)];
    case _ =>
  }

  function Member(op: Operation, i: nat): Operation
    requires op.kind.Batch? && i < |op.kind.commands| && (op.outcome.Timeout? || (op.outcome.Replies? && i < |op.outcome.replies|))
  {
    op.(kind := op.kind.commands[i], outcome := if op.outcome.Timeout? then Timeout else op.outcome.replies[i])
  }

  /** A batch may have changed a key exactly when one of its commands, with its own answer, may have. */
  lemma BatchMayMutate(op: Operation, k: Bytes)
    requires op.kind.Batch? && forall c | c in op.kind.commands :: !c.Batch?
    requires op.outcome.Timeout? || (op.outcome.Replies? && |op.outcome.replies| == |op.kind.commands| && Timeout !in op.outcome.replies)
    ensures MayHaveMutated(op, k) <==> exists i: nat :: i < |op.kind.commands| && MayHaveMutated(Member(op, i), k)
  {
    var commands := op.kind.commands;
    forall i: nat | i < |commands|
      ensures MayHaveMutated(Member(op, i), k) <==>
              if op.outcome.Timeout? then TouchesKey(commands[i], k)
              else KeyOf(commands[i]) == k && IsMutation(commands[i], op.outcome.replies[i])
    {
      assert commands[i] in commands;
      if op.outcome.Replies? {
        assert op.outcome.replies[i] in op.outcome.replies;
      }
    }
  }

  // ------------------------------------------------------------------
  // Operations that leave a key alone
  // ------------------------------------------------------------------

  lemma {:induction false} UntouchedByKind(m: Model, kind: Kind, deadline: Option<u64>, k: Bytes)
    requires Apply(m, kind, deadline).Some? && !TouchesKey(kind, k)
    ensures Lookup(Apply(m, kind, deadline).value.0, k) == Lookup(m, k)
    decreases kind, 1
  {
    if kind.Batch? {
      UntouchedByAll(m, kind.commands, deadline, k);
    }
  }

  lemma {:induction false} UntouchedByAll(m: Model, commands: seq<Kind>, deadline: Option<u64>, k: Bytes)
    requires ApplyAll(m, commands, deadline).Some?
    requires forall i | 0 <= i < |commands| :: !TouchesKey(commands[i], k)
    ensures Lookup(ApplyAll(m, commands, deadline).value.0, k) == Lookup(m, k)
    decreases commands, 0
  {
    if commands != [] {
      UntouchedByKind(m, commands[0], deadline, k);
      UntouchedByAll(Apply(m, commands[0], deadline).value.0, commands[1..], deadline, k);
    }
  }

  /** One non-batch command whose reply is no mutation of the key. */
  lemma UnchangedByReply(m: Model, kind: Kind, deadline: Option<u64>, k: Bytes)
    requires !kind.Batch? && Apply(m, kind, deadline).Some?
    requires KeyOf(kind) == k ==> !IsMutation(kind, Apply(m, kind, deadline).value.1)
    ensures Lookup(Apply(m, kind, deadline).value.0, k) == Lookup(m, k)
  {
  }

  lemma {:induction false} UnchangedByReplies(m: Model, commands: seq<Kind>, deadline: Option<u64>, k: Bytes)
    requires ApplyAll(m, commands, deadline).Some?
    requires forall i | 0 <= i < |commands| :: !commands[i].Batch?
    requires var replies := ApplyAll(m, commands, deadline).value.1;
             forall i | 0 <= i < |commands| && KeyOf(commands[i]) == k :: !IsMutation(commands[i], replies[i])
    ensures Lookup(ApplyAll(m, commands, deadline).value.0, k) == Lookup(m, k)
    decreases commands
  {
    if commands != [] {
      var first := Apply(m, commands[0], deadline).value;
      var rest := ApplyAll(first.0, commands[1..], deadline).value;
      var replies := ApplyAll(m, commands, deadline).value.1;
      assert replies == [first.1] + rest.1;
      UnchangedByReply(m, commands[0], deadline, k);
      forall i | 0 <= i < |commands| - 1 && KeyOf(commands[1..][i]) == k
        ensures !IsMutation(commands[1..][i], rest.1[i])
      {
        assert commands[1..][i] == commands[i + 1] && rest.1[i] == replies[i + 1];
      }
      UnchangedByReplies(first.0, commands[1..], deadline, k);
    }
  }

  lemma StepLeavesKey(m: Model, c: Choice, k: Bytes)
    requires Step(m, c).Some? && !MayHaveMutated(c.op, k)
    ensures Lookup(Step(m, c).value, k) == Lookup(m, k)
  {
    var op := c.op;
    if op.outcome.Timeout? {
      if c.applied {
        UntouchedByKind(m, op.kind, op.deadline, k);
      }
    } else if !op.outcome.Error? && !op.kind.Get? {
      var r := Apply(m, op.kind, op.deadline).value;
      if op.kind.Batch? {
        UnchangedByReplies(m, op.kind.commands, op.deadline, k);
      } else {
        UnchangedByReply(m, op.kind, op.deadline, k);
      }
    }
  }

  // ------------------------------------------------------------------
  // States along a linearization
  // ------------------------------------------------------------------

  lemma {:induction false} PrefixReplays(m: Model, order: seq<Choice>, n: nat)
    requires Replay(m, order).Some? && n <= |order|
    ensures Replay(m, order[..n]).Some?
    decreases |order|
  {
    if n > 0 {
      PrefixReplays(Step(m, order[0]).value, order[1..], n - 1);
      assert order[..n][1..] == order[1..][..n - 1];
    }
  }

  /** The model after the first `n` choices. */
  ghost function StateAt(m: Model, order: seq<Choice>, n: nat): Model
    requires Replay(m, order).Some? && n <= |order|
  {
    PrefixReplays(m, order, n);
    Replay(m, order[..n]).value
  }

  lemma {:induction false} StateAdvances(m: Model, order: seq<Choice>, n: nat)
    requires Replay(m, order).Some? && n < |order|
    ensures Step(StateAt(m, order, n), order[n]) == Some(StateAt(m, order, n + 1))
    decreases |order|
  {
    PrefixReplays(m, order, n);
    PrefixReplays(m, order, n + 1);
    if n == 0 {
      assert order[..1] == [order[0]];
      assert order[..1][1..] == [];
    } else {
      var m1 := Step(m, order[0]).value;
      StateAdvances(m1, order[1..], n - 1);
      assert order[..n][1..] == order[1..][..n - 1];
      assert order[..n + 1][1..] == order[1..][..n];
    }
  }

  lemma {:induction false} KeyUndisturbed(m: Model, order: seq<Choice>, i: nat, j: nat, k: Bytes)
    requires Replay(m, order).Some? && i <= j <= |order|
    requires forall t | i <= t < j :: !MayHaveMutated(order[t].op, k)
    ensures Lookup(StateAt(m, order, i), k) == Lookup(StateAt(m, order, j), k)
    decreases j - i
  {
    if i < j {
      KeyUndisturbed(m, order, i, j - 1, k);
      StateAdvances(m, order, j - 1);
      StepLeavesKey(StateAt(m, order, j - 1), order[j - 1], k);
    }
  }

  // ------------------------------------------------------------------
  // Positions in a linearization
  // ------------------------------------------------------------------

  lemma {:induction false} DistinctCount(s: seq<Operation>, x: Operation)
    requires DistinctIds(s)
    ensures multiset(s)[x] <= 1
  {
    if s != [] {
      assert s == [s[0]] + s[1..];
      DistinctCount(s[1..], x);
      if x == s[0] {
        assert x !in s[1..];
      }
    }
  }

  lemma TwiceCount(s: seq<Operation>, i: nat, j: nat)
    requires i < j < |s| && s[i] == s[j]
    ensures multiset(s)[s[i]] >= 2
  {
    assert s == s[..j] + s[j..];
    assert s[..j][i] == s[i] && s[j..][0] == s[i];
  }

  lemma PermutationKeepsIdsDistinct(s: seq<Operation>, t: seq<Operation>)
    requires DistinctIds(s) && multiset(t) == multiset(s)
    ensures DistinctIds(t)
  {
    forall i, j | 0 <= i < j < |t| ensures t[i].id != t[j].id {
      assert t[i] in multiset(s) && t[j] in multiset(s);
      var p :| 0 <= p < |s| && s[p] == t[i];
      var q :| 0 <= q < |s| && s[q] == t[j];
      if t[i] == t[j] {
        TwiceCount(t, i, j);
        DistinctCount(s, t[i]);
      }
    }
  }

  lemma {:induction false} StrongPartDistinct(h: seq<Operation>)
    requires DistinctIds(h)
    ensures DistinctIds(StrongPart(h))
  {
    if h != [] {
      StrongPartDistinct(h[1..]);
      var rest := StrongPart(h[1..]);
      forall i | 0 <= i < |rest| ensures rest[i].id != h[0].id {
        assert rest[i] in h[1..];
        var j :| 0 <= j < |h| - 1 && h[1..][j] == rest[i];
        assert h[j + 1] == rest[i];
      }
    }
  }

  lemma PlaceOf(order: seq<Choice>, s: seq<Operation>, op: Operation) returns (i: nat)
    requires multiset(OpsOf(order)) == multiset(s) && op in s
    ensures i < |order| && order[i].op == op
  {
    assert op in multiset(OpsOf(order));
    i :| 0 <= i < |order| && OpsOf(order)[i] == op;
  }

  /** Two ordered operations between which nothing may have changed the key: the model holds
      the same cell for it right after the first and right before the second. */
  lemma QuietInterval(h: seq<Operation>, m: Model, order: seq<Choice>, a: Operation, b: Operation, k: Bytes)
      returns (i: nat, j: nat)
    requires DistinctIds(h) && Linearizes(StrongPart(h), m, order)
    requires a in h && b in h && IsStrong(a) && IsStrong(b) && a.id != b.id
    requires HappensBefore(a, b) && b.complete.Some?
    requires !Intervening(h, k, a.invoke, b.complete.value, a.id)
    ensures i < j < |order| && order[i].op == a && order[j].op == b
    ensures Lookup(StateAt(m, order, i + 1), k) == Lookup(StateAt(m, order, j), k)
  {
    var s := StrongPart(h);
    i := PlaceOf(order, s, a);
    j := PlaceOf(order, s, b);
    StrongPartDistinct(h);
    PermutationKeepsIdsDistinct(s, OpsOf(order));
    assert i < j;
    forall t | i + 1 <= t < j ensures !MayHaveMutated(order[t].op, k) {
      var x := order[t].op;
      assert OpsOf(order)[t] in multiset(s);
      assert x in h && x.id != a.id by {
        assert OpsOf(order)[t].id != OpsOf(order)[i].id;
      }
      assert !HappensBefore(b, x) && !HappensBefore(x, a);
      var p :| 0 <= p < |h| && h[p] == x;
    }
    KeyUndisturbed(m, order, i + 1, j, k);
  }

  /** What a later read must report after an acknowledged mutation nothing came between. */
  datatype Expected = ExpectValue(found: Option<Bytes>) | ExpectInteger(n: i64)

  function ExpectedAfter(op: Operation): Option<Expected> {
    match (op.kind, op.outcome)
    case (Set(_, v), Ok) => Some(ExpectValue(Some(v)))
    case (Cas(_, _, v), Swapped(true)) => Some(ExpectValue(Some(v)))
    case (Del(_), Ok) => Some(ExpectValue(None))
    case (Incr(_), Integer(n)) => Some(ExpectInteger(n))
    case _ => None
  }

  function Numeric(outcome: Outcome): Option<i64> {
    match outcome
    case Integer(n) => Some(n)
    case Value(Some(v)) => Decimal.ParseI64(v)
    case _ => None
  }

  predicate Observes(expected: Expected, outcome: Outcome) {
    match expected
    case ExpectValue(v) => outcome == Value(v)
    case ExpectInteger(n) => Numeric(outcome) == Some(n)
  }

  /** The cell an acknowledged mutation leaves. */
  ghost predicate Left(cell: Option<Cell>, op: Operation) {
    match ExpectedAfter(op)
    case Some(ExpectValue(Some(v))) =>
      cell == Some(Cell(v, if op.kind.Set? then op.deadline else None))
    case Some(ExpectValue(None)) => cell.None?
    case Some(ExpectInteger(n)) => cell == Some(Cell(Decimal.ToText(n), None))
    case None => true
  }

  lemma MutationLeaves(m: Model, c: Choice)
    requires ExpectedAfter(c.op).Some? && Step(m, c).Some?
    ensures Left(Lookup(Step(m, c).value, KeyOf(c.op.kind)), c.op)
  {
  }

  predicate ExpiresAfter(op: Operation, read: Operation) {
    op.deadline.None? || (read.complete.Some? && read.complete.value < op.deadline.value)
  }

  lemma ReadObserves(m: Model, w: Operation, r: Operation)
    requires ExpectedAfter(w).Some? && Left(Lookup(m, KeyOf(w.kind)), w)
    requires r.kind == Get(KeyOf(w.kind)) && GetExplained(m, KeyOf(w.kind), r)
    requires w.kind.Set? ==> ExpiresAfter(w, r)
    ensures Observes(ExpectedAfter(w).value, r.outcome)
  {
    match ExpectedAfter(w)
    case Some(ExpectInteger(n)) => Decimal.ParseToText(n);
    case _ =>
  }

  /** In a linearizable history a read observes the last acknowledged mutation of its key when
      nothing may have come between them and the mutation had not expired. */
  lemma LinearizableReadObserves(h: seq<Operation>, m: Model, w: Operation, r: Operation)
    requires DistinctIds(h) && Linearizable(StrongPart(h), m)
    requires w in h && r in h && IsStrong(w) && IsStrong(r)
    requires ExpectedAfter(w).Some? && r.kind == Get(KeyOf(w.kind)) && !r.outcome.Timeout? && !r.outcome.Error?
    requires HappensBefore(w, r) && r.complete.Some? && (w.kind.Set? ==> ExpiresAfter(w, r))
    requires !Intervening(h, KeyOf(w.kind), w.invoke, r.complete.value, w.id)
    ensures Observes(ExpectedAfter(w).value, r.outcome)
  {
    var order: seq<Choice> :| Linearizes(StrongPart(h), m, order);
    assert w.id != r.id by {
      var p :| 0 <= p < |h| && h[p] == w;
      var q :| 0 <= q < |h| && h[q] == r;
      assert w.kind != r.kind;
    }
    var i, j := QuietInterval(h, m, order, w, r, KeyOf(w.kind));
    StateAdvances(m, order, i);
    MutationLeaves(StateAt(m, order, i), order[i]);
    StateAdvances(m, order, j);
    ReadObserves(StateAt(m, order, j), w, r);
  }
}
