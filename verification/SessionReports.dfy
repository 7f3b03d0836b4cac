/** What the session checker reports, said in real time: every finding, and no other. */
module SessionReports {
  import opened Prelude
  import opened History
  import opened Effects
  import opened Guarantees
  import Decimal
  import Locality

  // ------------------------------------------------------------------
  // Which clients are judged
  // ------------------------------------------------------------------

  predicate Answered(op: Operation) {
    op.complete.Some? && IsStrong(op) && !op.outcome.Timeout? && !op.outcome.Error?
  }

  ghost predicate OneAtATime(h: seq<Operation>, client: u64) {
    forall a, b | a in h && b in h && a.client == client && b.client == client && a.id != b.id ::
      HappensBefore(a, b) || HappensBefore(b, a)
  }

  /** A client is judged exactly when all its operations are strong and answered, and it issued them one
      at a time. */
  lemma EligibleExact(h: seq<Operation>, client: u64)
    requires DistinctIds(h) && Locality.WellTimed(h)
    ensures EligibleSession(Session(h, client)) <==>
            OneAtATime(h, client) && forall op | op in h && op.client == client :: Answered(op)
  {
    hide Session, Locality.WellTimed;
    var s := Session(h, client);
    SessionDistinct(h, client);
    if EligibleSession(s) {
      EligibleIsSequential(h, client);
      forall op | op in h && op.client == client ensures Answered(op) {
        assert op in s;
      }
    }
    if OneAtATime(h, client) && forall op | op in h && op.client == client :: Answered(op) {
      assert InDomain(s);
      forall i: nat | i < |s| - 1 ensures Precedes(s, i) {
        assert s[i] in h && s[i + 1] in h && s[i].id != s[i + 1].id && StartsBefore(s[i], s[i + 1]);
        InTime(h, s[i + 1]);
      }
    }
  }

  lemma InTime(h: seq<Operation>, op: Operation)
    requires Locality.WellTimed(h) && op in h && op.complete.Some?
    ensures op.invoke <= op.complete.value
  {
  }

  lemma EligibleIsSequential(h: seq<Operation>, client: u64)
    requires DistinctIds(h) && EligibleSession(Session(h, client))
    ensures OneAtATime(h, client)
  {
    hide Session, EligibleSession;
    var s := Session(h, client);
    forall a, b | a in h && b in h && a.client == client && b.client == client && a.id != b.id
      ensures HappensBefore(a, b) || HappensBefore(b, a)
    {
      assert a in s && b in s;
      var p :| 0 <= p < |s| && s[p] == a;
      var q :| 0 <= q < |s| && s[q] == b;
      if p < q {
        SessionPrecedes(s, p, q);
      } else {
        SessionPrecedes(s, q, p);
      }
    }
  }

  // ------------------------------------------------------------------
  // Missing one's own write
  // ------------------------------------------------------------------

  predicate Acknowledged(w: Operation) {
    match w.kind
    case Set(_, _) => w.outcome.Ok?
    case Del(_) => w.outcome.Ok?
    case Cas(_, _, _) => w.outcome == Swapped(true)
    case Incr(_) => w.outcome.Integer?
    case _ => false
  }

  /** The read shows what the acknowledged mutation left. */
  predicate Shows(w: Operation, r: Operation) {
    match w.kind
    case Set(_, v) => r.outcome == Value(Some(v))
    case Del(_) => r.outcome == Value(None)
    case Cas(_, _, v) => r.outcome == Value(Some(v))
    case Incr(_) => w.outcome.Integer? && ShowsNumber(r.outcome, w.outcome.n)
    case _ => false
  }

  predicate ShowsNumber(outcome: Outcome, n: i64) {
    outcome == Integer(n) || (outcome.Value? && outcome.found.Some? && Decimal.ParseI64(outcome.found.value) == Some(n))
  }

  /** Whatever the model held before an acknowledged mutation, a read of it right afterwards is shown the
      mutation; and a mutation other than an increment shows nothing else. */
  lemma ShowsWhatWasLeft(m: Model, w: Operation, r: Operation)
    requires Acknowledged(w) && Step(m, Choice(w, true)).Some?
    ensures var answer := Apply(Step(m, Choice(w, true)).value, Get(KeyOf(w.kind)), None).value.1;
            Shows(w, r.(outcome := answer)) && (!w.kind.Incr? ==> (Shows(w, r) <==> r.outcome == answer))
  {
    MutationLeaves(m, Choice(w, true));
    if w.kind.Incr? {
      Decimal.ParseToText(w.outcome.n);
    }
  }

  ghost predicate LostWrite(h: seq<Operation>, w: Operation, r: Operation) {
    Acknowledged(w) && r.kind == Get(KeyOf(w.kind)) && r.complete.Some? && HappensBefore(w, r) &&
    (w.deadline.None? || r.complete.value < w.deadline.value) &&
    Undisturbed(h, KeyOf(w.kind), w, r) && !Shows(w, r)
  }

  lemma MissesExactly(h: seq<Operation>, w: Operation, r: Operation)
    requires r.complete.Some?
    ensures MissesWrite(h, w, r) <==> LostWrite(h, w, r)
  {
    hide Intervening, Undisturbed;
    NothingBetween(h, KeyOf(w.kind), w, r);
  }

  lemma FindInSession(s: seq<Operation>, op: Operation) returns (p: nat)
    requires op in s
    ensures p < |s| && s[p] == op
  {
    p :| 0 <= p < |s| && s[p] == op;
  }

  /** Read your writes: an eligible client is reported for a pair of its operations exactly when the read
      lost the write. */
  lemma LostWritesReported(h: seq<Operation>, client: u64, w: Operation, r: Operation)
    requires DistinctIds(h) && EligibleSession(Session(h, client))
    requires w in Session(h, client) && r in Session(h, client)
    ensures ClientViolation(h, client, Violation(client, ReadYourWrites, [w.id, r.id])) <==> LostWrite(h, w, r)
  {
    hide Session, Reads, ReadsChanged, MissesWrite, LostWrite, Sequential;
    var s, v := Session(h, client), Violation(client, ReadYourWrites, [w.id, r.id]);
    SessionDistinct(h, client);
    var p := FindInSession(s, w);
    var q := FindInSession(s, r);
    MissesExactly(h, w, r);
    assert MissesWrite(h, w, r) ==> MissesWriteAt(h, client, s, p, q, v);
    forall i, j | MissesWriteAt(h, client, s, i, j, v) ensures i == p && j == q {
    }
    forall i ensures !RegressionAt(client, s, i, v) && !ReadsChangedAt(h, client, Reads(s), i, v) {
    }
  }

  // ------------------------------------------------------------------
  // Reads that change
  // ------------------------------------------------------------------

  predicate BeginsBefore(a: Operation, b: Operation) {
    a.invoke < b.invoke || (a.invoke == b.invoke && a.id < b.id)
  }

  predicate Skipped(op: Operation, readsOnly: bool) {
    readsOnly && !op.kind.Get?
  }

  /** `b` is the first operation of the client, or its first read, to begin after `a`. */
  ghost predicate NextOf(s: seq<Operation>, readsOnly: bool, a: Operation, b: Operation) {
    a in s && b in s && BeginsBefore(a, b) && (readsOnly ==> a.kind.Get? && b.kind.Get?) &&
    forall x | x in s && BeginsBefore(a, x) && BeginsBefore(x, b) :: Skipped(x, readsOnly)
  }

  /** Where two operations stand in the session tells which began first. */
  lemma OrderIsStart(s: seq<Operation>, p: nat, q: nat)
    requires InStartOrder(s) && DistinctIds(s) && p < |s| && q < |s|
    ensures BeginsBefore(s[p], s[q]) <==> p < q
  {
    if p < q {
      assert StartsBefore(s[p], s[q]);
    } else if q < p {
      assert StartsBefore(s[q], s[p]);
    }
  }

  ghost predicate DeadlineBetween(h: seq<Operation>, k: Bytes, from: u64, to: u64) {
    exists op :: op in h && KeyOf(op.kind) == k && op.deadline.Some? && from <= op.deadline.value <= to
  }

  ghost predicate ChangedRead(h: seq<Operation>, a: Operation, b: Operation) {
    a.kind == b.kind && a.outcome != b.outcome && b.complete.Some? &&
    !DeadlineBetween(h, KeyOf(a.kind), a.invoke, b.complete.value) && Undisturbed(h, KeyOf(a.kind), a, b)
  }

  lemma ChangesExactly(h: seq<Operation>, a: Operation, b: Operation)
    requires a.kind.Get? && b.kind.Get? && b.complete.Some?
    ensures ReadsChanged(h, a, b) <==> ChangedRead(h, a, b)
  {
    hide Intervening, Undisturbed;
    NothingBetween(h, KeyOf(a.kind), a, b);
    if MayExpireBetween(h, a, b) {
      var i :| 0 <= i < |h| && KeyOf(h[i].kind) == KeyOf(a.kind) && ExpiresWithin(h[i], a, b);
      assert h[i] in h;
    }
    if DeadlineBetween(h, KeyOf(a.kind), a.invoke, b.complete.value) {
      var op :| op in h && KeyOf(op.kind) == KeyOf(a.kind) && op.deadline.Some? && a.invoke <= op.deadline.value <= b.complete.value;
      var i :| 0 <= i < |h| && h[i] == op;
      assert ExpiresWithin(h[i], a, b);
    }
  }

  /** Where successive reads stand in the session: no read lies between them. */
  lemma {:induction false} SuccessiveReads(s: seq<Operation>, i: nat) returns (p: nat, q: nat)
    requires i < |Reads(s)| - 1
    ensures p < q < |s| && s[p] == Reads(s)[i] && s[q] == Reads(s)[i + 1]
    ensures NoneBetween(s, true, p, q)
  {
    hide NoneBetween;
    if s[0].kind.Get? && i == 0 {
      p := 0;
      q := FirstRead(s[1..]);
      FromStart(s, q);
      q := q + 1;
    } else {
      p, q := SuccessiveReads(s[1..], if s[0].kind.Get? then i - 1 else i);
      ShiftNone(s, p, q);
      p, q := p + 1, q + 1;
    }
  }

  lemma FromStart(s: seq<Operation>, q: nat)
    requires q < |s| - 1
    ensures (forall t | 0 <= t < q :: !s[1..][t].kind.Get?) <==> NoneBetween(s, true, 0, q + 1)
  {
    assert forall t | 0 <= t < q :: s[1..][t] == s[t + 1];
    assert forall t | 0 < t < q + 1 :: s[t] == s[1..][t - 1];
  }

  lemma ShiftNone(s: seq<Operation>, p: nat, q: nat)
    requires p < q < |s| - 1
    ensures NoneBetween(s[1..], true, p, q) <==> NoneBetween(s, true, p + 1, q + 1)
  {
    assert forall t | p < t < q :: s[1..][t] == s[t + 1];
    assert forall t | p + 1 < t < q + 1 :: s[t] == s[1..][t - 1];
  }

  lemma {:induction false} FirstRead(s: seq<Operation>) returns (p: nat)
    requires Reads(s) != []
    ensures p < |s| && s[p] == Reads(s)[0] && forall t | 0 <= t < p :: !s[t].kind.Get?
  {
    if s[0].kind.Get? {
      p := 0;
    } else {
      p := FirstRead(s[1..]);
      assert forall t | 0 < t <= p :: s[t] == s[1..][t - 1];
      p := p + 1;
    }
  }

  /** Two reads of the session with none between them are successive. */
  lemma {:induction false} SuccessiveAt(s: seq<Operation>, p: nat, q: nat) returns (i: nat)
    requires p < q < |s| && s[p].kind.Get? && s[q].kind.Get? && NoneBetween(s, true, p, q)
    ensures i < |Reads(s)| - 1 && Reads(s)[i] == s[p] && Reads(s)[i + 1] == s[q]
  {
    hide NoneBetween;
    if p == 0 {
      i := 0;
      FromStart(s, q - 1);
      ReadsBegin(s[1..], q - 1);
    } else {
      ShiftNone(s, p - 1, q - 1);
      i := SuccessiveAt(s[1..], p - 1, q - 1);
      if s[0].kind.Get? {
        i := i + 1;
      }
    }
  }

  lemma {:induction false} ReadsBegin(s: seq<Operation>, q: nat)
    requires q < |s| && s[q].kind.Get? && forall t | 0 <= t < q :: !s[t].kind.Get?
    ensures Reads(s) != [] && Reads(s)[0] == s[q]
  {
    if q > 0 {
      assert forall t | 0 <= t < q - 1 :: s[1..][t] == s[t + 1];
      ReadsBegin(s[1..], q - 1);
    }
  }

  predicate NoneBetween(s: seq<Operation>, readsOnly: bool, p: nat, q: nat)
    requires q < |s|
  {
    forall t | p < t < q :: Skipped(s[t], readsOnly)
  }

  /** Being next in the session is a matter of when operations began. */
  lemma NextExact(s: seq<Operation>, readsOnly: bool, p: nat, q: nat)
    requires InStartOrder(s) && DistinctIds(s) && p < |s| && q < |s|
    ensures NextOf(s, readsOnly, s[p], s[q]) <==>
            p < q && (readsOnly ==> s[p].kind.Get? && s[q].kind.Get?) && NoneBetween(s, readsOnly, p, q)
  {
    OrderIsStart(s, p, q);
    if NextOf(s, readsOnly, s[p], s[q]) {
      NextHasNoneBetween(s, readsOnly, p, q);
    }
    if p < q && (readsOnly ==> s[p].kind.Get? && s[q].kind.Get?) && NoneBetween(s, readsOnly, p, q) {
      NoneBetweenIsNext(s, readsOnly, p, q);
    }
  }

  lemma NextHasNoneBetween(s: seq<Operation>, readsOnly: bool, p: nat, q: nat)
    requires InStartOrder(s) && DistinctIds(s) && p < |s| && q < |s| && NextOf(s, readsOnly, s[p], s[q])
    ensures NoneBetween(s, readsOnly, p, q)
  {
    hide BeginsBefore, InStartOrder;
    forall t | p < t < q ensures Skipped(s[t], readsOnly) {
      OrderIsStart(s, p, t);
      OrderIsStart(s, t, q);
      assert s[t] in s;
    }
  }

  lemma NoneBetweenIsNext(s: seq<Operation>, readsOnly: bool, p: nat, q: nat)
    requires InStartOrder(s) && DistinctIds(s) && p < q < |s| && NoneBetween(s, readsOnly, p, q)
    requires readsOnly ==> s[p].kind.Get? && s[q].kind.Get?
    ensures NextOf(s, readsOnly, s[p], s[q])
  {
    hide BeginsBefore, InStartOrder;
    OrderIsStart(s, p, q);
    forall x | x in s && BeginsBefore(s[p], x) && BeginsBefore(x, s[q]) ensures Skipped(x, readsOnly) {
      var t := FindInSession(s, x);
      OrderIsStart(s, p, t);
      OrderIsStart(s, t, q);
    }
  }

  /** Monotonic reads: an eligible client is reported for a pair of its operations exactly when they are
      successive reads of one key that differ although nothing accounts for it. */
  lemma ChangedReadsReported(h: seq<Operation>, client: u64, a: Operation, b: Operation)
    requires DistinctIds(h) && EligibleSession(Session(h, client))
    requires a in Session(h, client) && b in Session(h, client)
    ensures ClientViolation(h, client, Violation(client, MonotonicReads, [a.id, b.id])) <==>
            NextOf(Session(h, client), true, a, b) && ChangedRead(h, a, b)
  {
    hide Session, Reads, ReadsChanged, MissesWrite, ChangedRead, NextOf, Sequential, InStartOrder;
    var s, v := Session(h, client), Violation(client, MonotonicReads, [a.id, b.id]);
    SessionDistinct(h, client);
    var p := FindInSession(s, a);
    var q := FindInSession(s, b);
    NextExact(s, true, p, q);
    forall i, j ensures !RegressionAt(client, s, i, v) && !MissesWriteAt(h, client, s, i, j, v) {
    }
    if NextOf(s, true, a, b) && ChangedRead(h, a, b) {
      ChangesExactly(h, a, b);
      var i := SuccessiveAt(s, p, q);
      assert ReadsChangedAt(h, client, Reads(s), i, v);
    }
    forall i: nat | ReadsChangedAt(h, client, Reads(s), i, v) ensures NextOf(s, true, a, b) && ChangedRead(h, a, b) {
      var t, u := SuccessiveReads(s, i);
      assert t == p && u == q;
      assert Reads(s)[i].kind.Get? && Reads(s)[i + 1].kind.Get?;
      ChangesExactly(h, a, b);
    }
  }

  // ------------------------------------------------------------------
  // Request numbers that go back
  // ------------------------------------------------------------------

  /** An eligible client is reported for reusing an older request number exactly when its next operation
      carries one, and the report names writes-follow-reads exactly when a read was followed by an
      acknowledged mutation. */
  lemma RegressionsReported(h: seq<Operation>, client: u64, a: Operation, b: Operation, g: Guarantee)
    requires DistinctIds(h) && EligibleSession(Session(h, client)) && (g.MonotonicWrites? || g.WritesFollowReads?)
    requires a in Session(h, client) && b in Session(h, client)
    ensures ClientViolation(h, client, Violation(client, g, [a.id, b.id])) <==>
            NextOf(Session(h, client), false, a, b) && a.sequence > b.sequence &&
            (g.WritesFollowReads? <==> a.kind.Get? && Acknowledged(b))
  {
    hide Session, Reads, ReadsChanged, MissesWrite, NextOf, Sequential, InStartOrder;
    var s, v := Session(h, client), Violation(client, g, [a.id, b.id]);
    SessionDistinct(h, client);
    var p := FindInSession(s, a);
    var q := FindInSession(s, b);
    NextExact(s, false, p, q);
    forall i, j ensures !MissesWriteAt(h, client, s, i, j, v) && !ReadsChangedAt(h, client, Reads(s), i, v) {
    }
    assert IsMutation(b.kind, b.outcome) <==> Acknowledged(b);
    assert p + 1 < q ==> p < p + 1 < q && s[p + 1] in s;
    if q == p + 1 && RegressionOf(client, a, b) == v && a.sequence > b.sequence {
      assert RegressionAt(client, s, p, v);
    }
    forall i: nat | RegressionAt(client, s, i, v) ensures i == p && i + 1 == q {
    }
  }
}
