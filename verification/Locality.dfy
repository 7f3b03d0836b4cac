/** Linearizability is local: a history of single-key operations may be checked key by key. */
module Locality {
  import opened Prelude
  import opened History

  predicate SingleKey(op: Operation) {
    !op.kind.Scan? && !op.kind.Batch?
  }

  predicate OnlySingleKey(h: seq<Operation>) {
    forall i | 0 <= i < |h| :: SingleKey(h[i])
  }

  /** No operation completes before it is invoked. */
  predicate WellTimed(h: seq<Operation>) {
    forall i | 0 <= i < |h| :: h[i].complete.Some? ==> h[i].invoke <= h[i].complete.value
  }

  function OpKey(op: Operation): Bytes {
    KeyOf(op.kind)
  }

  /** The operations on one key, in history order. */
  function KeyOps(h: seq<Operation>, k: Bytes): (r: seq<Operation>)
    ensures forall i | 0 <= i < |r| :: r[i] in h && OpKey(r[i]) == k
  {
    if h == [] then []
    else if OpKey(h[0]) == k then [h[0]] + KeyOps(h[1..], k)
    else KeyOps(h[1..], k)
  }

  function OffKey(h: seq<Operation>, k: Bytes): (r: seq<Operation>)
    ensures forall i | 0 <= i < |r| :: r[i] in h && OpKey(r[i]) != k
  {
    if h == [] then []
    else if OpKey(h[0]) == k then OffKey(h[1..], k)
    else [h[0]] + OffKey(h[1..], k)
  }

  /** The part of the model one key sees. */
  function Cut(m: Model, k: Bytes): Model {
    if k in m then map[k := m[k]] else map[]
  }

  function OnKey(order: seq<Choice>, k: Bytes): seq<Choice> {
    if order == [] then []
    else if OpKey(order[0].op) == k then [order[0]] + OnKey(order[1..], k)
    else OnKey(order[1..], k)
  }

  ghost predicate AllSingleKey(order: seq<Choice>) {
    forall i | 0 <= i < |order| :: SingleKey(order[i].op)
  }

  // ------------------------------------------------------------------
  // Replaying a single-key order is replaying it key by key
  // ------------------------------------------------------------------

  lemma StepIsLocal(m: Model, c: Choice)
    requires SingleKey(c.op)
    ensures var k := OpKey(c.op);
            Step(m, c).Some? == Step(Cut(m, k), c).Some? &&
            (Step(m, c).Some? ==> Cut(Step(m, c).value, k) == Step(Cut(m, k), c).value)
  {
    hide Apply;
    var k, small := OpKey(c.op), Cut(m, OpKey(c.op));
    assert Lookup(small, k) == Lookup(m, k) && StoredValue(small, k) == StoredValue(m, k);
    ApplyIsLocal(m, c.op.kind, c.op.deadline);
  }

  lemma ApplyIsLocal(m: Model, kind: Kind, deadline: Option<u64>)
    requires !kind.Scan? && !kind.Batch?
    ensures var k := KeyOf(kind);
            var r, s := Apply(m, kind, deadline), Apply(Cut(m, k), kind, deadline);
            r.Some? == s.Some? &&
            (r.Some? ==> r.value.1 == s.value.1 && Cut(r.value.0, k) == s.value.0)
  {
    var k := KeyOf(kind);
    assert Counter(m, k) == Counter(Cut(m, k), k);
  }

  lemma StepKeepsOtherKeys(m: Model, c: Choice, k: Bytes)
    requires SingleKey(c.op) && k != OpKey(c.op) && Step(m, c).Some?
    ensures Cut(Step(m, c).value, k) == Cut(m, k)
  {
  }

  lemma {:induction false} ReplayProjects(m: Model, order: seq<Choice>, k: Bytes)
    requires AllSingleKey(order) && Replay(m, order).Some?
    ensures Replay(Cut(m, k), OnKey(order, k)).Some?
    decreases |order|
  {
    if order != [] {
      var c := order[0];
      StepIsLocal(m, c);
      ReplayProjects(Step(m, c).value, order[1..], k);
      if OpKey(c.op) == k {
        assert OnKey(order, k)[1..] == OnKey(order[1..], k);
      } else {
        StepKeepsOtherKeys(m, c, k);
      }
    }
  }

  lemma {:induction false} ReplayCombines(m: Model, order: seq<Choice>)
    requires AllSingleKey(order)
    requires forall k :: Replay(Cut(m, k), OnKey(order, k)).Some?
    ensures Replay(m, order).Some?
    decreases |order|
  {
    if order != [] {
      var c, k0 := order[0], OpKey(order[0].op);
      assert Replay(Cut(m, k0), OnKey(order, k0)).Some?;
      assert OnKey(order, k0)[1..] == OnKey(order[1..], k0);
      StepIsLocal(m, c);
      var m' := Step(m, c).value;
      forall k ensures Replay(Cut(m', k), OnKey(order[1..], k)).Some? {
        assert Replay(Cut(m, k), OnKey(order, k)).Some?;
        if k != k0 {
          StepKeepsOtherKeys(m, c, k);
        }
      }
      ReplayCombines(m', order[1..]);
    }
  }

  // ------------------------------------------------------------------
  // From the whole history to each key
  // ------------------------------------------------------------------

  lemma {:induction false} OnKeyOps(order: seq<Choice>, k: Bytes)
    ensures OpsOf(OnKey(order, k)) == KeyOps(OpsOf(order), k)
  {
    if order != [] {
      OnKeyOps(order[1..], k);
      assert OpsOf(order)[1..] == OpsOf(order[1..]);
      assert OpsOf(order)[0] == order[0].op;
    }
  }

  lemma {:induction false} KeyOpsCount(h: seq<Operation>, k: Bytes, x: Operation)
    ensures multiset(KeyOps(h, k))[x] == if OpKey(x) == k then multiset(h)[x] else 0
  {
    if h != [] {
      assert h == [h[0]] + h[1..];
      KeyOpsCount(h[1..], k, x);
    }
  }

  lemma KeyOpsPermutation(a: seq<Operation>, b: seq<Operation>, k: Bytes)
    requires multiset(a) == multiset(b)
    ensures multiset(KeyOps(a, k)) == multiset(KeyOps(b, k))
  {
    forall x ensures multiset(KeyOps(a, k))[x] == multiset(KeyOps(b, k))[x] {
      KeyOpsCount(a, k, x);
      KeyOpsCount(b, k, x);
    }
  }

  lemma RealTimeCons(c: Choice, rest: seq<Choice>)
    ensures RespectsRealTime([c] + rest) <==>
            RespectsRealTime(rest) && forall j | 0 <= j < |rest| :: !HappensBefore(rest[j].op, c.op)
  {
    var order := [c] + rest;
    if RespectsRealTime(order) {
      forall i, j | 0 <= i < j < |rest| ensures !HappensBefore(rest[j].op, rest[i].op) {
        assert order[i + 1] == rest[i] && order[j + 1] == rest[j];
      }
      forall j | 0 <= j < |rest| ensures !HappensBefore(rest[j].op, c.op) {
        assert order[j + 1] == rest[j] && order[0] == c;
      }
    }
  }

  lemma {:induction false} OnKeyRealTime(order: seq<Choice>, k: Bytes)
    requires RespectsRealTime(order)
    ensures RespectsRealTime(OnKey(order, k))
    ensures forall c | c in OnKey(order, k) :: c in order && OpKey(c.op) == k
  {
    if order != [] {
      assert order == [order[0]] + order[1..];
      RealTimeCons(order[0], order[1..]);
      OnKeyRealTime(order[1..], k);
      var rest := OnKey(order[1..], k);
      forall j | 0 <= j < |rest| ensures !HappensBefore(rest[j].op, order[0].op) {
        assert rest[j] in order[1..];
      }
      RealTimeCons(order[0], rest);
    }
  }

  lemma SameOperations(order: seq<Choice>, h: seq<Operation>)
    requires multiset(OpsOf(order)) == multiset(h)
    ensures forall c | c in order :: c.op in h
  {
    forall c | c in order ensures c.op in h {
      var i :| 0 <= i < |order| && order[i] == c;
      assert OpsOf(order)[i] in multiset(h);
    }
  }

  /** One key's operations are linearizable from its part of the model. */
  ghost predicate KeyLinearizable(h: seq<Operation>, m: Model, k: Bytes) {
    Linearizable(KeyOps(h, k), Cut(m, k))
  }

  /** A linearization of the whole restricts to one of each key. */
  lemma WholeImpliesKey(h: seq<Operation>, m: Model, k: Bytes)
    requires OnlySingleKey(h) && Linearizable(h, m)
    ensures KeyLinearizable(h, m, k)
  {
    var order: seq<Choice> :| Linearizes(h, m, order);
    SameOperations(order, h);
    OnKeyOps(order, k);
    KeyOpsPermutation(OpsOf(order), h, k);
    OnKeyRealTime(order, k);
    forall i | 0 <= i < |order| ensures SingleKey(order[i].op) {
      assert order[i] in order;
    }
    ReplayProjects(m, order, k);
    assert Linearizes(KeyOps(h, k), Cut(m, k), OnKey(order, k));
  }

  // ------------------------------------------------------------------
  // From each key to the whole history
  // ------------------------------------------------------------------

  /** `a` completes no later than `b`; an open operation completes last. */
  predicate CompletesBy(a: Operation, b: Operation) {
    b.complete.None? || (a.complete.Some? && a.complete.value <= b.complete.value)
  }

  predicate TimedChoices(order: seq<Choice>) {
    forall i | 0 <= i < |order| ::
      order[i].op.complete.Some? ==> order[i].op.invoke <= order[i].op.complete.value
  }

  lemma {:induction false} FirstToComplete(order: seq<Choice>) returns (i: nat)
    requires order != []
    ensures i < |order| && forall j | 0 <= j < |order| :: CompletesBy(order[i].op, order[j].op)
  {
    if |order| == 1 {
      i := 0;
    } else {
      var r := FirstToComplete(order[1..]);
      i := if CompletesBy(order[0].op, order[r + 1].op) then 0 else r + 1;
      forall j | 0 <= j < |order| ensures CompletesBy(order[i].op, order[j].op) {
        if j > 0 {
          assert order[j] == order[1..][j - 1];
        }
      }
    }
  }

  /** The head of the order that owns the next completion precedes everything else. */
  lemma HeadMayLead(a: seq<Choice>, i: nat, c: Choice)
    requires RespectsRealTime(a) && TimedChoices(a) && i < |a|
    requires CompletesBy(a[i].op, c.op)
    ensures !HappensBefore(c.op, a[0].op)
  {
    assert i > 0 ==> !HappensBefore(a[i].op, a[0].op);
  }

  lemma OnKeyCons(c: Choice, rest: seq<Choice>, k: Bytes)
    ensures OnKey([c] + rest, k) == (if OpKey(c.op) == k then [c] else []) + OnKey(rest, k)
  {
    assert ([c] + rest)[1..] == rest;
  }

  ghost predicate Disjoint(a: seq<Choice>, b: seq<Choice>) {
    forall i, j | 0 <= i < |a| && 0 <= j < |b| :: OpKey(a[i].op) != OpKey(b[j].op)
  }

  /** `m` interleaves `a` and `b`, keeping each one's order on every key. */
  ghost predicate Interleaves(a: seq<Choice>, b: seq<Choice>, m: seq<Choice>) {
    multiset(OpsOf(m)) == multiset(OpsOf(a)) + multiset(OpsOf(b)) &&
    forall k :: OnKey(m, k) == OnKey(a, k) + OnKey(b, k)
  }

  lemma {:induction false} NoneOnKey(b: seq<Choice>, k: Bytes)
    requires forall j | 0 <= j < |b| :: OpKey(b[j].op) != k
    ensures OnKey(b, k) == []
  {
    if b != [] {
      NoneOnKey(b[1..], k);
    }
  }

  lemma TakeLeft(a: seq<Choice>, b: seq<Choice>, rest: seq<Choice>)
    requires a != [] && Interleaves(a[1..], b, rest)
    ensures Interleaves(a, b, [a[0]] + rest)
  {
    assert a == [a[0]] + a[1..];
    assert OpsOf(a) == [a[0].op] + OpsOf(a[1..]);
    assert OpsOf([a[0]] + rest) == [a[0].op] + OpsOf(rest);
    forall k ensures OnKey([a[0]] + rest, k) == OnKey(a, k) + OnKey(b, k) {
      OnKeyCons(a[0], rest, k);
      OnKeyCons(a[0], a[1..], k);
      assert OnKey(rest, k) == OnKey(a[1..], k) + OnKey(b, k);
    }
  }

  lemma InterleaveSwap(a: seq<Choice>, b: seq<Choice>, m: seq<Choice>)
    requires Disjoint(a, b) && Interleaves(b, a, m)
    ensures Interleaves(a, b, m)
  {
    forall k ensures OnKey(m, k) == OnKey(a, k) + OnKey(b, k) {
      assert OnKey(m, k) == OnKey(b, k) + OnKey(a, k);
      if exists i :: 0 <= i < |a| && OpKey(a[i].op) == k {
        NoneOnKey(b, k);
      } else {
        NoneOnKey(a, k);
      }
    }
  }

  /** Two linearizations over different keys merge, always continuing with the order
      that holds the least completion time still to be placed. */
  lemma {:induction false} Merge(a: seq<Choice>, b: seq<Choice>) returns (m: seq<Choice>)
    requires RespectsRealTime(a) && RespectsRealTime(b)
    requires TimedChoices(a) && TimedChoices(b) && Disjoint(a, b)
    ensures RespectsRealTime(m) && Interleaves(a, b, m)
    decreases |a| + |b|
  {
    if a == [] {
      m := b;
      assert OpsOf(a) == [];
      assert forall k :: OnKey(b, k) == OnKey(a, k) + OnKey(b, k);
    } else if b == [] {
      m := a;
      assert OpsOf(b) == [];
      assert forall k :: OnKey(a, k) == OnKey(a, k) + OnKey(b, k);
    } else {
      var i := FirstToComplete(a);
      var j := FirstToComplete(b);
      if CompletesBy(a[i].op, b[j].op) {
        m := MergeLeft(a, b, i, j);
      } else {
        m := MergeLeft(b, a, j, i);
        InterleaveSwap(a, b, m);
      }
    }
  }

  lemma {:induction false} MergeLeft(a: seq<Choice>, b: seq<Choice>, i: nat, j: nat) returns (m: seq<Choice>)
    requires RespectsRealTime(a) && RespectsRealTime(b)
    requires TimedChoices(a) && TimedChoices(b) && Disjoint(a, b)
    requires i < |a| && j < |b| && CompletesBy(a[i].op, b[j].op)
    requires forall q | 0 <= q < |a| :: CompletesBy(a[i].op, a[q].op)
    requires forall q | 0 <= q < |b| :: CompletesBy(b[j].op, b[q].op)
    ensures RespectsRealTime(m) && Interleaves(a, b, m)
    decreases |a| + |b|, 0
  {
    assert a == [a[0]] + a[1..];
    RealTimeCons(a[0], a[1..]);
    assert TimedChoices(a[1..]) && Disjoint(a[1..], b);
    var rest := Merge(a[1..], b);
    m := [a[0]] + rest;
    forall q | 0 <= q < |rest| ensures !HappensBefore(rest[q].op, a[0].op) {
      assert OpsOf(rest)[q] in multiset(OpsOf(a[1..])) + multiset(OpsOf(b));
      HeadMayLead(a, i, rest[q]);
    }
    RealTimeCons(a[0], rest);
    TakeLeft(a, b, rest);
  }

  /** An order of exactly these operations whose restriction to each key replays. */
  ghost predicate KeywiseOrder(h: seq<Operation>, m: Model, order: seq<Choice>) {
    multiset(OpsOf(order)) == multiset(h) && RespectsRealTime(order) &&
    forall k :: Replay(Cut(m, k), OnKey(order, k)).Some?
  }

  lemma {:induction false} KeySplit(h: seq<Operation>, k: Bytes)
    ensures multiset(h) == multiset(KeyOps(h, k)) + multiset(OffKey(h, k))
  {
    if h != [] {
      assert h == [h[0]] + h[1..];
      KeySplit(h[1..], k);
    }
  }

  lemma {:induction false} KeyOpsOffKey(h: seq<Operation>, k: Bytes, k': Bytes)
    requires k != k'
    ensures KeyOps(OffKey(h, k), k') == KeyOps(h, k')
  {
    if h != [] {
      KeyOpsOffKey(h[1..], k, k');
      if OpKey(h[0]) != k {
        assert OffKey(h, k)[1..] == OffKey(h[1..], k);
      }
    }
  }

  lemma {:induction false} KeysCombine(h: seq<Operation>, m: Model, keys: set<Bytes>) returns (order: seq<Choice>)
    requires WellTimed(h)
    requires forall i | 0 <= i < |h| :: OpKey(h[i]) in keys
    requires forall k | k in keys :: KeyLinearizable(h, m, k)
    ensures KeywiseOrder(h, m, order)
    decreases |keys|
  {
    if keys == {} {
      order := [];
      assert h == [];
      assert OpsOf([]) == [];
    } else {
      var k :| k in keys;
      var off := OffKey(h, k);
      forall k' | k' in keys - {k} ensures KeyLinearizable(off, m, k') {
        KeyOpsOffKey(h, k, k');
        assert KeyLinearizable(h, m, k');
      }
      var others := KeysCombine(off, m, keys - {k});
      assert KeyLinearizable(h, m, k);
      var mine :| Linearizes(KeyOps(h, k), Cut(m, k), mine);
      order := CombineOne(h, m, k, mine, others);
    }
  }

  lemma {:induction false} AllOnKey(a: seq<Choice>, k: Bytes)
    requires forall i | 0 <= i < |a| :: OpKey(a[i].op) == k
    ensures OnKey(a, k) == a
  {
    if a != [] {
      AllOnKey(a[1..], k);
    }
  }

  lemma ChoicesFrom(order: seq<Choice>, part: seq<Operation>, h: seq<Operation>)
    requires multiset(OpsOf(order)) == multiset(part) && WellTimed(h)
    requires forall x | x in part :: x in h
    ensures TimedChoices(order)
  {
    SameOperations(order, part);
    forall i | 0 <= i < |order|
      ensures order[i].op.complete.Some? ==> order[i].op.invoke <= order[i].op.complete.value
    {
      assert order[i] in order;
      assert order[i].op in h;
    }
  }

  lemma CombineOne(h: seq<Operation>, m: Model, k: Bytes, mine: seq<Choice>, others: seq<Choice>)
      returns (order: seq<Choice>)
    requires WellTimed(h)
    requires Linearizes(KeyOps(h, k), Cut(m, k), mine)
    requires KeywiseOrder(OffKey(h, k), m, others)
    ensures KeywiseOrder(h, m, order)
  {
    var on, off := KeyOps(h, k), OffKey(h, k);
    ChoicesFrom(mine, on, h);
    ChoicesFrom(others, off, h);
    SameOperations(mine, on);
    SameOperations(others, off);
    assert forall i | 0 <= i < |mine| :: mine[i] in mine && OpKey(mine[i].op) == k;
    assert forall i | 0 <= i < |others| :: others[i] in others && OpKey(others[i].op) != k;
    order := Merge(mine, others);
    KeySplit(h, k);
    forall k' ensures Replay(Cut(m, k'), OnKey(order, k')).Some? {
      assert OnKey(order, k') == OnKey(mine, k') + OnKey(others, k');
      if k' == k {
        AllOnKey(mine, k);
        NoneOnKey(others, k);
        assert OnKey(order, k) == mine;
      } else {
        NoneOnKey(mine, k');
        assert OnKey(order, k') == OnKey(others, k');
      }
    }
  }

  function Keys(h: seq<Operation>): set<Bytes> {
    set i | 0 <= i < |h| :: OpKey(h[i])
  }

  /** Locality: the whole history is linearizable exactly when every key's part is. */
  lemma WholeIffEachKey(h: seq<Operation>, m: Model)
    requires OnlySingleKey(h) && WellTimed(h)
    ensures Linearizable(h, m) <==> forall k | k in Keys(h) :: KeyLinearizable(h, m, k)
  {
    if Linearizable(h, m) {
      forall k | k in Keys(h) ensures KeyLinearizable(h, m, k) {
        WholeImpliesKey(h, m, k);
      }
    }
    if forall k | k in Keys(h) :: KeyLinearizable(h, m, k) {
      var order := KeysCombine(h, m, Keys(h));
      SameOperations(order, h);
      forall i | 0 <= i < |order| ensures SingleKey(order[i].op) {
        assert order[i] in order;
      }
      ReplayCombines(m, order);
      assert Linearizes(h, m, order);
    }
  }
}
