/** The session checker, and its agreement with the linearizability checker. */
module Guarantees {
  import opened Prelude
  import opened Ordering
  import opened History
  import opened Effects
  import opened Checker
  import opened Search
  import Locality

  datatype Guarantee = ReadYourWrites | MonotonicReads | MonotonicWrites | WritesFollowReads

  datatype Violation = Violation(client: u64, guarantee: Guarantee, ids: seq<u64>)

  datatype ClientReport = ClientReport(client: u64, eligible: bool, ids: seq<u64>)

  // ------------------------------------------------------------------
  // One client's session
  // ------------------------------------------------------------------

  predicate StartsBefore(a: Operation, b: Operation) {
    a.invoke < b.invoke || (a.invoke == b.invoke && a.id <= b.id)
  }

  predicate InStartOrder(s: seq<Operation>) {
    forall i, j | 0 <= i < j < |s| :: StartsBefore(s[i], s[j])
  }

  function InsertByStart(x: Operation, s: seq<Operation>): (r: seq<Operation>)
    requires InStartOrder(s)
    ensures InStartOrder(r) && multiset(r) == multiset{x} + multiset(s)
    ensures forall i | 0 <= i < |r| :: r[i] == x || r[i] in s
  {
    if s == [] || StartsBefore(x, s[0]) then [x] + s
    else
      assert s == [s[0]] + s[1..];
      var rest := InsertByStart(x, s[1..]);
      assert forall i | 0 <= i < |rest| :: StartsBefore(s[0], rest[i]);
      [s[0]] + rest
  }

  /** The operations of one client in order of invocation, ties by id. */
  function Session(h: seq<Operation>, client: u64): (r: seq<Operation>)
    ensures forall op :: op in r <==> op in h && op.client == client
    ensures InStartOrder(r)
  {
    if h == [] then []
    else if h[0].client == client then
      var rest := Session(h[1..], client);
      var r := InsertByStart(h[0], rest);
      assert forall op :: op in r <==> op in multiset(r);
      r
    else Session(h[1..], client)
  }

  /** Completed, strong, answered operations only. */
  predicate InDomain(s: seq<Operation>) {
    forall i | 0 <= i < |s| ::
      s[i].complete.Some? && IsStrong(s[i]) && !s[i].outcome.Timeout? && !s[i].outcome.Error?
  }

  predicate Sequential(s: seq<Operation>) {
    forall i | 0 <= i < |s| - 1 :: Precedes(s, i)
  }

  predicate Precedes(s: seq<Operation>, i: nat)
    requires i < |s| - 1
  {
    HappensBefore(s[i], s[i + 1])
  }

  predicate EligibleSession(s: seq<Operation>) {
    InDomain(s) && Sequential(s)
  }

  function Reads(s: seq<Operation>): (r: seq<Operation>)
    ensures forall i | 0 <= i < |r| :: r[i] in s && r[i].kind.Get?
  {
    if s == [] then []
    else if s[0].kind.Get? then [s[0]] + Reads(s[1..])
    else Reads(s[1..])
  }

  // ------------------------------------------------------------------
  // The four guarantees
  // ------------------------------------------------------------------

  function End(op: Operation): u64 {
    if op.complete.Some? then op.complete.value else op.invoke
  }

  function RegressionOf(client: u64, a: Operation, b: Operation): Violation {
    Violation(client,
              if a.kind.Get? && IsMutation(b.kind, b.outcome) then WritesFollowReads else MonotonicWrites,
              [a.id, b.id])
  }

  predicate RegressionAt(client: u64, s: seq<Operation>, i: nat, v: Violation) {
    i < |s| - 1 && s[i].sequence > s[i + 1].sequence && v == RegressionOf(client, s[i], s[i + 1])
  }

  /** A later read that does not show the client's own last acknowledged write. */
  predicate MissesWrite(h: seq<Operation>, w: Operation, r: Operation) {
    ExpectedAfter(w).Some? && r.kind.Get? && KeyOf(r.kind) == KeyOf(w.kind) &&
    HappensBefore(w, r) && ExpiresAfter(w, r) &&
    !Intervening(h, KeyOf(w.kind), w.invoke, End(r), w.id) &&
    !Observes(ExpectedAfter(w).value, r.outcome)
  }

  predicate MissesWriteAt(h: seq<Operation>, client: u64, s: seq<Operation>, i: nat, j: nat, v: Violation) {
    i < |s| && j < |s| && MissesWrite(h, s[i], s[j]) &&
    v == Violation(client, ReadYourWrites, [s[i].id, s[j].id])
  }

  /** A deadline recorded for the key of `a` falls inside the span of the two reads. */
  predicate MayExpireBetween(h: seq<Operation>, a: Operation, b: Operation) {
    exists i | 0 <= i < |h| :: KeyOf(h[i].kind) == KeyOf(a.kind) && ExpiresWithin(h[i], a, b)
  }

  predicate ExpiresWithin(op: Operation, a: Operation, b: Operation) {
    op.deadline.Some? && op.deadline.value >= a.invoke &&
    b.complete.Some? && op.deadline.value <= b.complete.value
  }

  /** Two successive reads of one key that differ although nothing accounts for it. */
  predicate ReadsChanged(h: seq<Operation>, a: Operation, b: Operation) {
    KeyOf(a.kind) == KeyOf(b.kind) && a.outcome != b.outcome &&
    !MayExpireBetween(h, a, b) && !Intervening(h, KeyOf(a.kind), a.invoke, End(b), a.id)
  }

  predicate ReadsChangedAt(h: seq<Operation>, client: u64, gets: seq<Operation>, i: nat, v: Violation) {
    i < |gets| - 1 && ReadsChanged(h, gets[i], gets[i + 1]) &&
    v == Violation(client, MonotonicReads, [gets[i].id, gets[i + 1].id])
  }

  ghost predicate ClientViolation(h: seq<Operation>, client: u64, v: Violation) {
    var s := Session(h, client);
    EligibleSession(s) &&
    ((exists i :: RegressionAt(client, s, i, v)) ||
     (exists i, j :: MissesWriteAt(h, client, s, i, j, v)) ||
     (exists i :: ReadsChangedAt(h, client, Reads(s), i, v)))
  }

  function Clients(h: seq<Operation>): (r: set<u64>)
    ensures forall c :: c in r <==> c != 0 && exists i :: 0 <= i < |h| && h[i].client == c
  {
    set i | 0 <= i < |h| && h[i].client != 0 :: h[i].client
  }

  function ClientRank(c: u64): seq<nat> {
    [c]
  }

  // ------------------------------------------------------------------
  // The session checker as a procedure
  // ------------------------------------------------------------------

  method Regressions(client: u64, s: seq<Operation>) returns (out: seq<Violation>)
    ensures forall v :: v in out <==> exists i :: RegressionAt(client, s, i, v)
  {
    out := [];
    if |s| < 2 {
      return;
    }
    for n := 0 to |s| - 1
      invariant forall v :: v in out <==> exists i: nat :: i < n && RegressionAt(client, s, i, v)
    {
      if s[n].sequence > s[n + 1].sequence {
        var v := RegressionOf(client, s[n], s[n + 1]);
        assert RegressionAt(client, s, n, v);
        out := out + [v];
      }
    }
  }

  method MissedWritesOf(h: seq<Operation>, client: u64, s: seq<Operation>, i: nat) returns (out: seq<Violation>)
    requires i < |s|
    ensures forall v :: v in out <==> exists j :: MissesWriteAt(h, client, s, i, j, v)
  {
    hide MissesWrite;
    out := [];
    for n := 0 to |s|
      invariant forall v :: v in out <==> exists j: nat :: j < n && MissesWriteAt(h, client, s, i, j, v)
    {
      if MissesWrite(h, s[i], s[n]) {
        var v := Violation(client, ReadYourWrites, [s[i].id, s[n].id]);
        assert MissesWriteAt(h, client, s, i, n, v);
        out := out + [v];
      }
    }
  }

  method MissedWrites(h: seq<Operation>, client: u64, s: seq<Operation>) returns (out: seq<Violation>)
    ensures forall v :: v in out <==> exists i, j :: MissesWriteAt(h, client, s, i, j, v)
  {
    hide MissesWrite;
    out := [];
    for n := 0 to |s|
      invariant forall v :: v in out <==> exists i: nat, j: nat :: i < n && MissesWriteAt(h, client, s, i, j, v)
    {
      var more := MissedWritesOf(h, client, s, n);
      out := out + more;
    }
  }

  method ChangedReads(h: seq<Operation>, client: u64, gets: seq<Operation>) returns (out: seq<Violation>)
    ensures forall v :: v in out <==> exists i :: ReadsChangedAt(h, client, gets, i, v)
  {
    hide ReadsChanged;
    out := [];
    if |gets| < 2 {
      return;
    }
    for n := 0 to |gets| - 1
      invariant forall v :: v in out <==> exists i: nat :: i < n && ReadsChangedAt(h, client, gets, i, v)
    {
      if ReadsChanged(h, gets[n], gets[n + 1]) {
        var v := Violation(client, MonotonicReads, [gets[n].id, gets[n + 1].id]);
        assert ReadsChangedAt(h, client, gets, n, v);
        out := out + [v];
      }
    }
  }

  method CheckClient(h: seq<Operation>, client: u64) returns (report: ClientReport, out: seq<Violation>)
    ensures report == ClientReport(client, EligibleSession(Session(h, client)), Ids(Session(h, client)))
    ensures forall v :: v in out <==> ClientViolation(h, client, v)
  {
    hide RegressionAt, MissesWriteAt, ReadsChangedAt, EligibleSession;
    var s := Session(h, client);
    var eligible := EligibleSession(s);
    report, out := ClientReport(client, eligible, Ids(s)), [];
    if eligible {
      var a := Regressions(client, s);
      var b := MissedWrites(h, client, s);
      var c := ChangedReads(h, client, Reads(s));
      out := a + b + c;
    }
  }

  ghost predicate AnyOf(h: seq<Operation>, ids: seq<u64>, v: Violation) {
    exists i :: 0 <= i < |ids| && ClientViolation(h, ids[i], v)
  }

  method CheckClients(h: seq<Operation>, ids: seq<u64>) returns (clients: seq<ClientReport>, violations: seq<Violation>)
    ensures |clients| == |ids|
    ensures forall i | 0 <= i < |ids| ::
              clients[i] == ClientReport(ids[i], EligibleSession(Session(h, ids[i])), Ids(Session(h, ids[i])))
    ensures forall v :: v in violations <==> AnyOf(h, ids, v)
  {
    hide ClientViolation, EligibleSession, Session, Ids;
    clients, violations := [], [];
    for n := 0 to |ids|
      invariant |clients| == n
      invariant forall i | 0 <= i < n ::
                  clients[i] == ClientReport(ids[i], EligibleSession(Session(h, ids[i])), Ids(Session(h, ids[i])))
      invariant forall v :: v in violations <==> AnyOf(h, ids[..n], v)
    {
      var report, more := CheckClient(h, ids[n]);
      clients, violations := clients + [report], violations + more;
      assert forall v :: AnyOf(h, ids[..n + 1], v) <==> AnyOf(h, ids[..n], v) || ClientViolation(h, ids[n], v);
    }
    assert ids[..|ids|] == ids;
  }

  /** The report lists every client once, in order, and exactly the violations there are. */
  method CheckSessionGuarantees(h: seq<Operation>) returns (clients: seq<ClientReport>, violations: seq<Violation>)
    ensures var ids := SortedBy(Clients(h), ClientRank);
            |clients| == |ids| &&
            forall i | 0 <= i < |ids| ::
              clients[i] == ClientReport(ids[i], EligibleSession(Session(h, ids[i])), Ids(Session(h, ids[i])))
    ensures forall v :: v in violations <==> exists c :: c in Clients(h) && ClientViolation(h, c, v)
  {
    hide ClientViolation, EligibleSession, Session, Ids;
    var ids := SortedBy(Clients(h), ClientRank);
    clients, violations := CheckClients(h, ids);
    forall v ensures v in violations <==> exists c :: c in Clients(h) && ClientViolation(h, c, v) {
      AnyClient(h, ids, v);
    }
  }

  lemma AnyClient(h: seq<Operation>, ids: seq<u64>, v: Violation)
    requires forall c :: c in ids <==> c in Clients(h)
    ensures AnyOf(h, ids, v) <==> exists c :: c in Clients(h) && ClientViolation(h, c, v)
  {
    hide ClientViolation, Clients;
    if AnyOf(h, ids, v) {
      var i :| 0 <= i < |ids| && ClientViolation(h, ids[i], v);
      assert ids[i] in Clients(h);
    }
    if exists c :: c in Clients(h) && ClientViolation(h, c, v) {
      var c :| c in Clients(h) && ClientViolation(h, c, v);
      assert c in ids;
    }
  }

  // ------------------------------------------------------------------
  // Agreement with linearizability
  // ------------------------------------------------------------------

  /** No eligible client of a linearizable history is reported for missing its own write. */
  lemma NoMissedWrites(h: seq<Operation>, m: Model, client: u64, i: nat, j: nat, v: Violation)
    requires DistinctIds(h) && Linearizable(StrongPart(h), m) && EligibleSession(Session(h, client))
    ensures !MissesWriteAt(h, client, Session(h, client), i, j, v)
  {
    hide Intervening, Observes, Linearizable;
    var s := Session(h, client);
    if i < |s| && j < |s| && MissesWrite(h, s[i], s[j]) {
      assert s[i] in h && s[j] in h;
      LinearizableReadObserves(h, m, s[i], s[j]);
    }
  }

  /** The operation may have attached this deadline to the key. */
  predicate SetsUnder(op: Operation, k: Bytes, d: u64) {
    op.deadline == Some(d) && KindSets(op.kind, k)
  }

  predicate KindSets(kind: Kind, k: Bytes) {
    match kind
    case Set(key, _) => key == k
    case Batch(commands) => exists i | 0 <= i < |commands| :: commands[i].Set? && KeyOf(commands[i]) == k
    case _ => false
  }

  ghost predicate Expires(m: Model, k: Bytes, d: u64) {
    k in m && m[k].deadline == Some(d)
  }

  lemma {:induction false} AllDeadlines(m: Model, commands: seq<Kind>, deadline: Option<u64>, k: Bytes, d: u64)
    requires forall i | 0 <= i < |commands| :: !commands[i].Batch?
    requires ApplyAll(m, commands, deadline).Some? && Expires(ApplyAll(m, commands, deadline).value.0, k, d)
    ensures Expires(m, k, d) || (deadline == Some(d) && KindSets(Batch(commands), k))
    decreases commands
  {
    if commands != [] {
      var first := Apply(m, commands[0], deadline).value;
      AllDeadlines(first.0, commands[1..], deadline, k, d);
      if KindSets(Batch(commands[1..]), k) {
        var i :| 0 <= i < |commands| - 1 && commands[1..][i].Set? && KeyOf(commands[1..][i]) == k;
        assert commands[i + 1].Set? && KeyOf(commands[i + 1]) == k;
      } else if !Expires(m, k, d) {
        assert commands[0].Set? && KeyOf(commands[0]) == k;
      }
    }
  }

  lemma StepDeadlines(m: Model, c: Choice, k: Bytes, d: u64)
    requires Step(m, c).Some? && Expires(Step(m, c).value, k, d)
    ensures Expires(m, k, d) || SetsUnder(c.op, k, d)
  {
    if c.op.kind.Batch? && Apply(m, c.op.kind, c.op.deadline).Some? {
      var r := ApplyAll(m, c.op.kind.commands, c.op.deadline).value;
      if Expires(r.0, k, d) {
        AllDeadlines(m, c.op.kind.commands, c.op.deadline, k, d);
      }
    }
  }

  /** Every deadline in force along a linearization was set by an earlier operation. */
  lemma {:induction false} DeadlineHasOrigin(m: Model, order: seq<Choice>, n: nat, k: Bytes, d: u64)
    requires Replay(m, order).Some? && n <= |order| && !Expires(m, k, d)
    requires Expires(StateAt(m, order, n), k, d)
    ensures exists t :: 0 <= t < n && SetsUnder(order[t].op, k, d)
  {
    if n > 0 {
      StateAdvances(m, order, n - 1);
      StepDeadlines(StateAt(m, order, n - 1), order[n - 1], k, d);
      if Expires(StateAt(m, order, n - 1), k, d) {
        DeadlineHasOrigin(m, order, n - 1, k, d);
      }
    }
  }

  /** A strong batch that set the key of the two reads under a deadline falling between them. */
  ghost predicate BatchExpiresBetween(h: seq<Operation>, a: Operation, b: Operation) {
    exists op :: op in h && IsStrong(op) && op.kind.Batch? && KindSets(op.kind, KeyOf(a.kind)) && ExpiresWithin(op, a, b)
  }

  lemma UnequalReadsExpire(m1: Model, m2: Model, a: Operation, b: Operation) returns (d: u64)
    requires a.kind.Get? && b.kind == a.kind && a.outcome != b.outcome
    requires Lookup(m1, a.kind.key) == Lookup(m2, a.kind.key)
    requires GetExplained(m1, a.kind.key, a) && GetExplained(m2, a.kind.key, b)
    requires HappensBefore(a, b) && b.complete.Some?
    ensures Expires(m2, a.kind.key, d) && a.invoke <= d <= b.complete.value
  {
    var cell := m1[a.kind.key];
    d := cell.deadline.value;
  }

  lemma OriginInHistory(h: seq<Operation>, m: Model, order: seq<Choice>, n: nat, k: Bytes, d: u64) returns (op: Operation)
    requires Linearizes(StrongPart(h), m, order) && n <= |order| && !Expires(m, k, d)
    requires Expires(StateAt(m, order, n), k, d)
    ensures op in h && IsStrong(op) && SetsUnder(op, k, d)
  {
    DeadlineHasOrigin(m, order, n, k, d);
    var t :| 0 <= t < n && SetsUnder(order[t].op, k, d);
    assert OpsOf(order)[t] in multiset(StrongPart(h));
    op := order[t].op;
  }

  /** When two successive reads of a linearizable history differ unaccountably, the one thing the
      session checker overlooked is a batch whose deadline fell between them. */
  lemma ChangedReadsNeedBatch(h: seq<Operation>, image: map<Bytes, Bytes>, a: Operation, b: Operation)
    requires DistinctIds(h) && Linearizable(StrongPart(h), InitialModel(image))
    requires a in h && b in h && a.id != b.id && a.kind.Get? && b.kind.Get?
    requires InDomain([a, b]) && HappensBefore(a, b)
    requires ReadsChanged(h, a, b)
    ensures BatchExpiresBetween(h, a, b)
  {
    hide Intervening, GetExplained, Linearizes, StateAt, DistinctIds, SetsUnder, Lookup;
    var m, k := InitialModel(image), KeyOf(a.kind);
    assert [a, b][0] == a && [a, b][1] == b;
    var order: seq<Choice> :| Linearizes(StrongPart(h), m, order);
    var d := DeadlineBetween(h, m, order, a, b);
    var op := d.1;
    AccountedFor(h, a, b, op, d.0);
  }

  lemma AccountedFor(h: seq<Operation>, a: Operation, b: Operation, op: Operation, d: u64)
    requires op in h && IsStrong(op) && SetsUnder(op, KeyOf(a.kind), d)
    requires b.complete.Some? && a.invoke <= d <= b.complete.value
    requires !MayExpireBetween(h, a, b)
    ensures BatchExpiresBetween(h, a, b)
  {
    assert ExpiresWithin(op, a, b);
    var p :| 0 <= p < |h| && h[p] == op;
  }

  lemma DeadlineBetween(h: seq<Operation>, m: Model, order: seq<Choice>, a: Operation, b: Operation) returns (r: (u64, Operation))
    requires DistinctIds(h) && Linearizes(StrongPart(h), m, order)
    requires forall k | k in m :: m[k].deadline.None?
    requires a in h && b in h && a.id != b.id && a.kind.Get? && b.kind == a.kind
    requires InDomain([a, b]) && HappensBefore(a, b) && a.outcome != b.outcome
    requires !Intervening(h, KeyOf(a.kind), a.invoke, End(b), a.id)
    ensures r.1 in h && IsStrong(r.1) && SetsUnder(r.1, KeyOf(a.kind), r.0) && a.invoke <= r.0 <= End(b)
  {
    hide Intervening, GetExplained, DistinctIds, SetsUnder, RespectsRealTime;
    assert [a, b][0] == a && [a, b][1] == b;
    var k := KeyOf(a.kind);
    var i, j := QuietInterval(h, m, order, a, b, k);
    StateAdvances(m, order, i);
    StateAdvances(m, order, j);
    var d := UnequalReadsExpire(StateAt(m, order, i), StateAt(m, order, j), a, b);
    var op := OriginInHistory(h, m, order, j, k, d);
    r := (d, op);
  }

  // ------------------------------------------------------------------
  // The cross-check
  // ------------------------------------------------------------------

  lemma {:induction false} ReadsAreSpaced(s: seq<Operation>, i: nat) returns (p: nat, q: nat)
    requires i < |Reads(s)| - 1
    ensures p < q < |s| && s[p] == Reads(s)[i] && s[q] == Reads(s)[i + 1]
  {
    var rest := Reads(s[1..]);
    if s[0].kind.Get? && i == 0 {
      assert Reads(s)[1] == rest[0];
      assert rest[0] in s[1..];
      q :| 1 <= q < |s| && s[1..][q - 1] == rest[0];
      p := 0;
    } else {
      p, q := ReadsAreSpaced(s[1..], if s[0].kind.Get? then i - 1 else i);
      p, q := p + 1, q + 1;
    }
  }

  lemma InsertDistinct(x: Operation, s: seq<Operation>)
    requires InStartOrder(s) && DistinctIds(s) && forall i | 0 <= i < |s| :: s[i].id != x.id
    ensures DistinctIds(InsertByStart(x, s))
  {
    PermutationKeepsIdsDistinct([x] + s, InsertByStart(x, s));
  }

  lemma {:induction false} SessionDistinct(h: seq<Operation>, client: u64)
    requires DistinctIds(h)
    ensures DistinctIds(Session(h, client))
  {
    if h != [] {
      SessionDistinct(h[1..], client);
      if h[0].client == client {
        var rest := Session(h[1..], client);
        forall i | 0 <= i < |rest| ensures rest[i].id != h[0].id {
          assert rest[i] in h[1..];
          var j :| 0 <= j < |h| - 1 && h[1..][j] == rest[i];
          assert h[j + 1] == rest[i];
        }
        InsertDistinct(h[0], rest);
      }
    }
  }

  /** In an eligible session, an earlier operation completed before every later one began. */
  lemma SessionPrecedes(s: seq<Operation>, p: nat, q: nat)
    requires EligibleSession(s) && InStartOrder(s) && p < q < |s|
    ensures HappensBefore(s[p], s[q])
  {
    assert Precedes(s, p);
    assert p + 1 < q ==> StartsBefore(s[p + 1], s[q]);
  }

  /** No strong batch carries a deadline. */
  ghost predicate NoBatchDeadline(h: seq<Operation>) {
    forall op | op in h && IsStrong(op) && op.kind.Batch? :: op.deadline.None?
  }

  lemma NoChangedReads(h: seq<Operation>, image: map<Bytes, Bytes>, client: u64, i: nat, v: Violation)
    requires DistinctIds(h) && Linearizable(StrongPart(h), InitialModel(image))
    requires EligibleSession(Session(h, client)) && NoBatchDeadline(h)
    ensures !ReadsChangedAt(h, client, Reads(Session(h, client)), i, v)
  {
    hide ReadsChanged, Linearizable, Session, Reads, Sequential, InStartOrder, StrongPart;
    var s := Session(h, client);
    var r := Reads(s);
    if i < |r| - 1 && ReadsChanged(h, r[i], r[i + 1]) {
      var p, q := ReadsAreSpaced(s, i);
      SessionDistinct(h, client);
      SessionPrecedes(s, p, q);
      assert s[p] in h && s[q] in h;
      assert InDomain([s[p], s[q]]);
      ChangedReadsNeedBatch(h, image, s[p], s[q]);
    }
  }

  /** Some eligible client's request numbers went backwards. */
  ghost predicate SequenceRegressed(h: seq<Operation>) {
    exists c, i, v :: c in Clients(h) && EligibleSession(Session(h, c)) && RegressionAt(c, Session(h, c), i, v)
  }

  lemma OnlyRegressions(h: seq<Operation>, image: map<Bytes, Bytes>, c: u64, v: Violation)
    requires DistinctIds(h) && Linearizable(StrongPart(h), InitialModel(image)) && NoBatchDeadline(h)
    requires ClientViolation(h, c, v)
    ensures exists i :: RegressionAt(c, Session(h, c), i, v)
  {
    hide EligibleSession, RegressionAt, MissesWriteAt, ReadsChangedAt, Linearizable, Session, Reads;
    forall i, j ensures !MissesWriteAt(h, c, Session(h, c), i, j, v) {
      NoMissedWrites(h, InitialModel(image), c, i, j, v);
    }
    forall i ensures !ReadsChangedAt(h, c, Reads(Session(h, c)), i, v) {
      NoChangedReads(h, image, c, i, v);
    }
  }

  /** The cross-check: on a history the checker accepted, the session checker reports something
      exactly when an eligible client reused an older request number, and nothing else. */
  lemma CrossCheckExact(h: seq<Operation>, image: map<Bytes, Bytes>, max: nat)
    requires DistinctIds(h) && RawVerdict(h, InitialModel(image), max).Accepted?
    requires Locality.WellTimed(StrongPart(h)) && NoBatchDeadline(h)
    ensures (exists c, v :: c in Clients(h) && ClientViolation(h, c, v)) <==> SequenceRegressed(h)
    ensures forall c, v | c in Clients(h) && ClientViolation(h, c, v) ::
              v.guarantee.MonotonicWrites? || v.guarantee.WritesFollowReads?
  {
    hide RawVerdict, EligibleSession, MissesWriteAt, ReadsChangedAt, Linearizable, Session, Reads, Clients, IsMutation;
    RawVerdictExact(h, InitialModel(image), max);
    forall c, v | c in Clients(h) && ClientViolation(h, c, v)
      ensures exists i :: RegressionAt(c, Session(h, c), i, v)
    {
      OnlyRegressions(h, image, c, v);
    }
    if SequenceRegressed(h) {
      var c, i, v :| c in Clients(h) && EligibleSession(Session(h, c)) && RegressionAt(c, Session(h, c), i, v);
      assert ClientViolation(h, c, v);
    }
  }

  /** One client reads an absent key twice, the second time under an older request number. */
  function OlderNumber(): seq<Operation> {
    var r := Operation(1, 5, 2, 0, Some(1), Get([7]), Value(None), None, Strong, NoProbe);
    [r, r.(id := 2, sequence := 1, invoke := 2, complete := Some(3))]
  }

  /** The cross-check does report accepted histories: this one is accepted, has no batch at all, and its
      client's numbers went back. */
  lemma AcceptedYetReported()
    ensures var h := OlderNumber();
            DistinctIds(h) && Locality.WellTimed(StrongPart(h)) && NoBatchDeadline(h) &&
            RawVerdict(h, InitialModel(map[]), 2).Accepted? && 5 in Clients(h) &&
            SequenceRegressed(h) && ClientViolation(h, 5, Violation(5, MonotonicWrites, [1, 2]))
  {
    hide RawVerdict, Session, EligibleSession, Reads, MissesWriteAt, ReadsChangedAt, IsMutation;
    var h := OlderNumber();
    OlderNumberIsStrong();
    OlderNumberIsAccepted();
    OlderNumberSession();
    var v := Violation(5, MonotonicWrites, [1, 2]);
    assert RegressionAt(5, Session(h, 5), 0, v) by { NotAMutation(); }
    assert h[0].client == 5;
    assert ClientViolation(h, 5, v);
  }

  lemma NotAMutation()
    ensures !IsMutation(OlderNumber()[1].kind, OlderNumber()[1].outcome)
  {
  }

  lemma OlderNumberIsStrong()
    ensures StrongPart(OlderNumber()) == OlderNumber()
  {
    var h := OlderNumber();
    assert h[1..] == [h[1]] && [h[1]][1..] == [];
    assert StrongPart([h[1]]) == [h[1]];
  }

  lemma OlderNumberIsAccepted()
    ensures RawVerdict(OlderNumber(), InitialModel(map[]), 2).Accepted?
  {
    var h := OlderNumber();
    OlderNumberIsStrong();
    assert Locality.Keys(h) == {[7]} by { OneKeyOnly(); }
    hide Locality.Keys;
    assert All(|h|) == [0, 1];
    OlderNumberSearch();
  }

  lemma OneKeyOnly()
    ensures Locality.Keys(OlderNumber()) == {[7]}
  {
    var h := OlderNumber();
    assert h[0] in h;
  }

  lemma OlderNumberSearch()
    ensures Within(OlderNumber(), [0, 1]) && Explore(OlderNumber(), [0, 1], InitialModel(map[]), 2, Progress(0, {})).result.Found?
  {
    var h, m := OlderNumber(), InitialModel(map[]);
    var first := Progress(1, {MemoKey([0, 1], m)});
    var second := Progress(2, first.memo + {MemoKey([1], m)});
    assert Without([0, 1], 0) == [1] && Without([1], 0) == [];
    assert Within(h, [0, 1]) && Within(h, [1]);
    assert Eligible(h, [0, 1], 0) && Eligible(h, [1], 1);
    assert ApplyObserved(m, h[0]) == Some(m) && ApplyObserved(m, h[1]) == Some(m);
    assert TryAt(h, [1], 0, m, 2, second).result.Found?;
    assert TryFrom(h, [1], 0, m, 2, second, false).result.Found?;
    assert [1] != [0, 1];
    assert MemoKey([1], m) !in first.memo;
    assert Explore(h, [1], m, 2, first).result.Found?;
    assert TryAt(h, [0, 1], 0, m, 2, first).result.Found?;
    assert TryFrom(h, [0, 1], 0, m, 2, first, false).result.Found?;
  }

  lemma OlderNumberSession()
    ensures Session(OlderNumber(), 5) == OlderNumber() && EligibleSession(OlderNumber())
  {
    var h := OlderNumber();
    assert h[1..] == [h[1]] && [h[1]][1..] == [];
    assert Session([], 5) == [] && Session([h[1]], 5) == [h[1]];
    assert InDomain(h) && Precedes(h, 0);
  }

  /** A batch writes a key that expires at 50; its client reads it at 20 and again at 60. */
  function ExpiringBatch(): seq<Operation> {
    var w := Operation(1, 9, 1, 1, Some(2), Batch([Set([7], [1])]), Replies([Ok]), Some(50), Strong, NoProbe);
    var r := Operation(2, 5, 1, 20, Some(21), Get([7]), Value(Some([1])), None, Strong, NoProbe);
    [w, r, r.(id := 3, sequence := 2, invoke := 60, complete := Some(61), outcome := Value(None))]
  }

  /** With a deadline on a batch the two checkers can disagree: this history is linearizable
      and the session checker still reports a changed read. */
  lemma BatchDeadlineDisagreement()
    ensures Linearizable(StrongPart(ExpiringBatch()), map[])
    ensures ClientViolation(ExpiringBatch(), 5, Violation(5, MonotonicReads, [2, 3]))
  {
    hide Linearizable, Session, Reads, EligibleSession, ReadsChanged;
    var h := ExpiringBatch();
    assert StrongPart(h) == h by {
      assert h[1..] == [h[1], h[2]] && h[1..][1..] == [h[2]] && h[1..][1..][1..] == [];
    }
    ExpiringBatchLinearizes();
    ExpiringBatchSession();
    assert ReadsChangedAt(h, 5, Reads(Session(h, 5)), 0, Violation(5, MonotonicReads, [2, 3]));
  }

  lemma ExpiringBatchLinearizes()
    ensures Linearizable(ExpiringBatch(), map[])
  {
    var h := ExpiringBatch();
    var order := [Choice(h[0], true), Choice(h[1], true), Choice(h[2], true)];
    var m1: Model := map[[7] := Cell([1], Some(50))];
    assert OpsOf(order) == h;
    assert Step(map[], order[0]) == Some(m1) by {
      assert [Set([7], [1])][1..] == [];
      assert Apply(map[], Set([7], [1]), Some(50)) == Some((m1, Ok));
      assert ApplyAll(m1, [], Some(50)) == Some((m1, []));
      assert [Ok] + [] == [Ok];
    }
    assert Replay(m1, order[1..]) == Some(m1) by {
      assert Step(m1, order[1]) == Some(m1) && Step(m1, order[2]) == Some(m1);
      assert order[1..] == [order[1], order[2]] && [order[1], order[2]][1..] == [order[2]] && [order[2]][1..] == [];
      assert Replay(m1, []) == Some(m1);
      assert Replay(m1, [order[2]]) == Some(m1);
    }
    assert Linearizes(h, map[], order);
  }

  lemma ExpiringBatchSession()
    ensures var h := ExpiringBatch();
            Reads(Session(h, 5)) == [h[1], h[2]] && EligibleSession(Session(h, 5)) && ReadsChanged(h, h[1], h[2])
  {
    var h := ExpiringBatch();
    var s := [h[1], h[2]];
    assert Session(h, 5) == s by {
      assert h[1..] == s && s[1..] == [h[2]] && [h[2]][1..] == [];
      assert Session([], 5) == [];
      assert Session([h[2]], 5) == [h[2]];
    }
    assert Reads(s) == s by {
      assert s[1..] == [h[2]] && [h[2]][1..] == [];
      assert Reads([h[2]]) == [h[2]];
    }
    assert EligibleSession(s) by {
      assert InDomain(s) && Precedes(s, 0);
    }
    ExpiringBatchUnaccounted();
  }

  lemma ExpiringBatchUnaccounted()
    ensures ReadsChanged(ExpiringBatch(), ExpiringBatch()[1], ExpiringBatch()[2])
  {
    var h := ExpiringBatch();
    assert !MayExpireBetween(h, h[1], h[2]);
    assert !Intervening(h, [7], 20, 61, 2);
  }
}
