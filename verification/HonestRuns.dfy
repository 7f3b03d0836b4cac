/** Whole runs of an honest service: what the checker makes of their histories. */
module HonestRuns {
  import opened Prelude
  import opened KvModel
  import opened Conformance
  import H = History
  import Checker
  import Decimal

  ghost predicate HonestRun(limits: Limits, s: State, es: seq<Event>)
    decreases |es|
  {
    es == [] || (Honest(limits, s, es[0]) && HonestRun(limits, Next(limits, s, es[0]), es[1..]))
  }

  predicate InOrder(es: seq<Event>, from: u64) {
    es == [] || (from <= es[0].point && InOrder(es[1..], es[0].point))
  }

  /** Where the model is after an event it can follow. */
  function ModelNext(limits: Limits, s: State, m: H.Model, e: Event): H.Model
    requires Honest(limits, s, e)
  {
    if e.Swept? then m
    else
      var next := H.Step(m, ChoiceOf(limits, s, e));
      if next.Some? then next.value else m
  }

  /** Every request of the run is compatible where the ones before it have led machine and model. */
  ghost predicate CompatibleRun(limits: Limits, s: State, m: H.Model, es: seq<Event>)
    requires HonestRun(limits, s, es)
    decreases |es|
  {
    es == [] ||
    ((es[0].Served? ==> Compatible(limits, s, m, es[0])) &&
     CompatibleRun(limits, Next(limits, s, es[0]), ModelNext(limits, s, m, es[0]), es[1..]))
  }

  /** Machine and model at the end of a run. */
  ghost function Ends(limits: Limits, s: State, m: H.Model, es: seq<Event>): (State, H.Model)
    requires HonestRun(limits, s, es)
    decreases |es|
  {
    if es == [] then (s, m)
    else Ends(limits, Next(limits, s, es[0]), ModelNext(limits, s, m, es[0]), es[1..])
  }

  function EndTime(es: seq<Event>, from: u64): u64 {
    if es == [] then from else es[|es| - 1].point
  }

  /** The operations of a run, in the order served. */
  function Ops(es: seq<Event>): seq<H.Operation> {
    if es == [] then [] else (if es[0].Swept? then [] else [es[0].op]) + Ops(es[1..])
  }

  ghost function Choices(limits: Limits, s: State, es: seq<Event>): seq<H.Choice>
    requires HonestRun(limits, s, es)
    decreases |es|
  {
    if es == [] then []
    else (if es[0].Swept? then [] else [ChoiceOf(limits, s, es[0])]) + Choices(limits, Next(limits, s, es[0]), es[1..])
  }

  function Points(es: seq<Event>): seq<u64> {
    if es == [] then [] else (if es[0].Swept? then [] else [es[0].point]) + Points(es[1..])
  }

  ghost predicate AllDuring(order: seq<H.Choice>, points: seq<u64>, from: u64) {
    |points| == |order| &&
    (forall i | 0 <= i < |order| :: During(order[i].op, points[i]) && from <= points[i]) &&
    (forall i, j | 0 <= i < j < |order| :: points[i] <= points[j])
  }

  // ------------------------------------------------------------------
  // Compatible runs replay
  // ------------------------------------------------------------------

  lemma LostSkips(limits: Limits, s: State, m: H.Model, e: Event)
    requires e.Lost? && Honest(limits, s, e)
    ensures H.Step(m, ChoiceOf(limits, s, e)) == Some(m) && ModelNext(limits, s, m, e) == m && Next(limits, s, e) == s
  {
  }

  /** One event of a compatible run. */
  lemma EventTracks(limits: Limits, s: State, m: H.Model, now: u64, e: Event)
    requires Tracks(s, m, now) && now <= e.point && Honest(limits, s, e) && (e.Served? ==> Compatible(limits, s, m, e))
    ensures Tracks(Next(limits, s, e), ModelNext(limits, s, m, e), e.point)
    ensures if e.Swept? then ModelNext(limits, s, m, e) == m
            else H.Step(m, ChoiceOf(limits, s, e)) == Some(ModelNext(limits, s, m, e))
  {
    hide Tracks, H.Step, Compatible, Serve, ApplySingle;
    match e
    case Swept(_, _, _) => SweepTracks(limits, s, m, now, e);
    case Lost(_, _) =>
      LostSkips(limits, s, m, e);
      TracksLater(s, m, now, e.point);
    case Served(_, _, _) => ServedTracks(limits, s, m, now, e);
  }

  /** A compatible run replays in the model, in the order the service applied it. */
  lemma {:induction false} RunReplays(limits: Limits, s: State, m: H.Model, now: u64, es: seq<Event>)
    requires Tracks(s, m, now) && HonestRun(limits, s, es) && InOrder(es, now) && CompatibleRun(limits, s, m, es)
    ensures var (s', m') := Ends(limits, s, m, es);
            H.Replay(m, Choices(limits, s, es)) == Some(m') && Tracks(s', m', EndTime(es, now))
    ensures H.OpsOf(Choices(limits, s, es)) == Ops(es) && AllDuring(Choices(limits, s, es), Points(es), now)
    ensures now <= EndTime(es, now)
    decreases |es|
  {
    hide Tracks, H.Step, Compatible, Next, ModelNext, ChoiceOf, During, AllDuring;
    if es == [] {
      NothingDuring(now);
    } else {
      var e := es[0];
      EventTracks(limits, s, m, now, e);
      RunReplays(limits, Next(limits, s, e), ModelNext(limits, s, m, e), e.point, es[1..]);
      assert EndTime(es, now) == EndTime(es[1..], e.point);
      var rest, later := Choices(limits, Next(limits, s, e), es[1..]), Points(es[1..]);
      if e.Swept? {
        DuringEarlier(rest, later, e.point, now);
        assert [] + rest == rest && [] + later == later && [] + Ops(es[1..]) == Ops(es[1..]);
      } else {
        ChoiceOps(limits, s, e);
        ReplayCons(m, ChoiceOf(limits, s, e), rest, ModelNext(limits, s, m, e));
        DuringCons(ChoiceOf(limits, s, e), e.point, rest, later, now);
      }
    }
  }

  lemma ChoiceOps(limits: Limits, s: State, e: Event)
    requires Honest(limits, s, e) && !e.Swept?
    ensures ChoiceOf(limits, s, e).op == e.op && During(e.op, e.point)
  {
  }

  lemma NothingDuring(now: u64)
    ensures AllDuring([], [], now)
  {
  }

  lemma DuringEarlier(order: seq<H.Choice>, points: seq<u64>, from: u64, now: u64)
    requires AllDuring(order, points, from) && now <= from
    ensures AllDuring(order, points, now)
  {
    hide During;
  }

  lemma ReplayCons(m: H.Model, c: H.Choice, rest: seq<H.Choice>, next: H.Model)
    requires H.Step(m, c) == Some(next)
    ensures H.Replay(m, [c] + rest) == H.Replay(next, rest) && H.OpsOf([c] + rest) == [c.op] + H.OpsOf(rest)
  {
    hide H.Step;
    assert ([c] + rest)[1..] == rest;
  }

  lemma DuringCons(c: H.Choice, point: u64, rest: seq<H.Choice>, later: seq<u64>, now: u64)
    requires During(c.op, point) && now <= point && AllDuring(rest, later, point)
    ensures AllDuring([c] + rest, [point] + later, now)
  {
    hide During;
  }

  /** Points inside the intervals, in order, mean real time is respected. */
  lemma PointsRespectRealTime(order: seq<H.Choice>, points: seq<u64>, from: u64)
    requires AllDuring(order, points, from)
    ensures H.RespectsRealTime(order)
  {
    forall i, j | 0 <= i < j < |order| ensures !H.HappensBefore(order[j].op, order[i].op) {
      assert During(order[i].op, points[i]) && During(order[j].op, points[j]) && points[i] <= points[j];
    }
  }

  /** The machine started from a state image, with nothing set to expire. */
  ghost predicate Starts(s: State, image: map<Bytes, Bytes>) {
    s.ttl == map[] && s.entries.Keys == image.Keys && forall k | k in image :: s.entries[k].value == image[k]
  }

  /** However requests overlap, and whether or not they are answered, a service that applies each at
      one instant of its interval, and whose requests are compatible, produces a linearizable history,
      which the checker never rejects. */
  lemma HonestRunsAreLinearizable(limits: Limits, s: State, image: map<Bytes, Bytes>, es: seq<Event>, h: seq<H.Operation>, max: nat)
    requires Starts(s, image) && HonestRun(limits, s, es) && InOrder(es, 0) && CompatibleRun(limits, s, H.InitialModel(image), es)
    requires multiset(h) == multiset(Ops(es))
    ensures H.Linearizable(h, H.InitialModel(image))
    ensures !Checker.RawVerdict(h, H.InitialModel(image), max).Rejected?
  {
    hide Checker.RawVerdict, CompatibleRun, HonestRun, Choices, Ends, Ops, Points, InOrder;
    var m := H.InitialModel(image);
    assert Tracks(s, m, 0);
    RunReplays(limits, s, m, 0, es);
    PointsRespectRealTime(Choices(limits, s, es), Points(es), 0);
    assert H.Linearizes(h, m, Choices(limits, s, es));
    AllStrong(limits, s, es);
    StrongPermutation(h, es);
    Checker.RawVerdictExact(h, m, max);
  }

  lemma {:induction false} AllStrong(limits: Limits, s: State, es: seq<Event>)
    requires HonestRun(limits, s, es)
    ensures forall op | op in Ops(es) :: H.IsStrong(op)
    decreases |es|
  {
    hide Next, Serve;
    if es != [] {
      AllStrong(limits, Next(limits, s, es[0]), es[1..]);
    }
  }

  lemma StrongPermutation(h: seq<H.Operation>, es: seq<Event>)
    requires multiset(h) == multiset(Ops(es)) && forall op | op in Ops(es) :: H.IsStrong(op)
    ensures H.StrongPart(h) == h
  {
    forall op | op in h ensures H.IsStrong(op) {
      assert op in multiset(h);
    }
    StrongAll(h);
  }

  lemma {:induction false} StrongAll(h: seq<H.Operation>)
    requires forall op | op in h :: H.IsStrong(op)
    ensures H.StrongPart(h) == h
  {
    if h != [] {
      StrongAll(h[1..]);
    }
  }

  // ------------------------------------------------------------------
  // Sequential histories
  // ------------------------------------------------------------------

  predicate Answered(op: H.Operation) {
    !op.outcome.Timeout? && op.complete.Some? && op.invoke <= op.complete.value
  }

  /** Each operation is answered, and has completed before the next is invoked. */
  ghost predicate Sequential(h: seq<H.Operation>) {
    (forall i | 0 <= i < |h| :: Answered(h[i])) &&
    (forall i, j | 0 <= i < j < |h| :: H.HappensBefore(h[i], h[j]))
  }

  ghost function Straight(h: seq<H.Operation>): (order: seq<H.Choice>)
    ensures |order| == |h| && forall i | 0 <= i < |h| :: order[i] == H.Choice(h[i], true)
  {
    seq(|h|, i requires 0 <= i < |h| => H.Choice(h[i], true))
  }

  /** Real time leaves a sequential history one order. */
  lemma {:induction false} OrderIsForced(h: seq<H.Operation>, order: seq<H.Choice>)
    requires Sequential(h) && multiset(H.OpsOf(order)) == multiset(h) && H.RespectsRealTime(order)
    ensures H.OpsOf(order) == h
    decreases |h|
  {
    hide H.HappensBefore, Answered;
    var ops := H.OpsOf(order);
    assert |ops| == |multiset(ops)| == |h|;
    if h != [] {
      FirstIsForced(h, order);
      assert H.OpsOf(order[1..]) == ops[1..];
      RestPermutes(ops, h);
      OrderIsForced(h[1..], order[1..]);
      assert ops == [ops[0]] + ops[1..];
    }
  }

  lemma FirstIsForced(h: seq<H.Operation>, order: seq<H.Choice>)
    requires Sequential(h) && h != [] && |order| == |h| && multiset(H.OpsOf(order)) == multiset(h) && H.RespectsRealTime(order)
    ensures order[0].op == h[0]
  {
    hide H.HappensBefore, Answered;
    var ops := H.OpsOf(order);
    assert h[0] in multiset(ops) && ops[0] in multiset(h);
    var p :| 0 <= p < |ops| && ops[p] == h[0];
    var j :| 0 <= j < |h| && h[j] == ops[0];
    assert order[p].op == h[0] && order[0].op == h[j];
    assert p > 0 ==> !H.HappensBefore(order[p].op, order[0].op);
    assert j > 0 ==> H.HappensBefore(h[0], h[j]);
  }

  lemma RestPermutes<T>(a: seq<T>, b: seq<T>)
    requires a != [] && b != [] && a[0] == b[0] && multiset(a) == multiset(b)
    ensures multiset(a[1..]) == multiset(b[1..])
  {
    assert a == [a[0]] + a[1..] && b == [b[0]] + b[1..];
    assert multiset(a[1..]) == multiset(a) - multiset{a[0]} && multiset(b[1..]) == multiset(b) - multiset{b[0]};
  }

  lemma {:induction false} AnsweredAreApplied(m: H.Model, order: seq<H.Choice>)
    requires H.Replay(m, order).Some? && forall i | 0 <= i < |order| :: !order[i].op.outcome.Timeout?
    ensures forall i | 0 <= i < |order| :: order[i].applied
    decreases |order|
  {
    if order != [] {
      AnsweredAreApplied(H.Step(m, order[0]).value, order[1..]);
      assert forall i | 1 <= i < |order| :: order[i] == order[1..][i - 1];
    }
  }

  /** A sequential history is linearizable exactly when it replays as it stands. */
  lemma SequentialExact(h: seq<H.Operation>, m: H.Model)
    requires Sequential(h)
    ensures H.Linearizable(h, m) <==> H.Replay(m, Straight(h)).Some?
  {
    hide H.Replay;
    if H.Linearizable(h, m) {
      var order: seq<H.Choice> :| H.Linearizes(h, m, order);
      OrderIsForced(h, order);
      assert forall i | 0 <= i < |order| :: order[i].op == h[i];
      AnsweredAreApplied(m, order);
      assert order == Straight(h);
    }
    if H.Replay(m, Straight(h)).Some? {
      assert H.OpsOf(Straight(h)) == h;
      assert H.Linearizes(h, m, Straight(h));
    }
  }

  lemma {:induction false} ReplayConcat(m: H.Model, a: seq<H.Choice>, b: seq<H.Choice>)
    requires H.Replay(m, a).Some?
    ensures H.Replay(m, a + b) == H.Replay(H.Replay(m, a).value, b)
    decreases |a|
  {
    if a == [] {
      assert a + b == b;
    } else {
      assert (a + b)[0] == a[0] && (a + b)[1..] == a[1..] + b;
      ReplayConcat(H.Step(m, a[0]).value, a[1..], b);
    }
  }

  lemma {:induction false} OpsConcat(a: seq<Event>, b: seq<Event>)
    ensures Ops(a + b) == Ops(a) + Ops(b)
    decreases |a|
  {
    if a == [] {
      assert a + b == b && [] + Ops(b) == Ops(b);
    } else {
      assert (a + b)[0] == a[0] && (a + b)[1..] == a[1..] + b;
      OpsConcat(a[1..], b);
      var first := if a[0].Swept? then [] else [a[0].op];
      assert first + (Ops(a[1..]) + Ops(b)) == first + Ops(a[1..]) + Ops(b);
    }
  }

  lemma {:induction false} RunSplits(limits: Limits, s: State, m: H.Model, a: seq<Event>, b: seq<Event>, from: u64)
    requires HonestRun(limits, s, a + b) && InOrder(a + b, from)
    ensures HonestRun(limits, s, a) && InOrder(a, from)
    ensures HonestRun(limits, Ends(limits, s, m, a).0, b) && InOrder(b, EndTime(a, from))
    decreases |a|
  {
    hide Next, ModelNext, Serve;
    if a == [] {
      assert a + b == b;
    } else {
      assert (a + b)[0] == a[0] && (a + b)[1..] == a[1..] + b;
      RunSplits(limits, Next(limits, s, a[0]), ModelNext(limits, s, m, a[0]), a[1..], b, a[0].point);
      assert EndTime(a, from) == EndTime(a[1..], a[0].point);
    }
  }

  /** The answered beginning of a sequential run replays as it stands. */
  lemma FrontReplays(limits: Limits, s: State, image: map<Bytes, Bytes>, front: seq<Event>, tail: seq<Event>)
    requires Starts(s, image) && HonestRun(limits, s, front + tail) && InOrder(front + tail, 0) && Sequential(Ops(front + tail))
    requires HonestRun(limits, s, front) && CompatibleRun(limits, s, H.InitialModel(image), front)
    ensures var (s', m') := Ends(limits, s, H.InitialModel(image), front);
            Tracks(s', m', EndTime(front, 0)) && HonestRun(limits, s', tail) && InOrder(tail, EndTime(front, 0)) &&
            (H.Linearizable(Ops(front + tail), H.InitialModel(image)) <==> H.Replay(m', Straight(Ops(tail))).Some?)
  {
    hide Tracks, HonestRun, InOrder, CompatibleRun, Ops, Choices, Ends, Points, H.Replay, H.Linearizable, AllDuring;
    var m := H.InitialModel(image);
    StartTracks(s, image);
    RunSplits(limits, s, m, front, tail, 0);
    RunReplays(limits, s, m, 0, front);
    OpsConcat(front, tail);
    var order := Choices(limits, s, front);
    assert forall i | 0 <= i < |order| :: order[i].op == Ops(front + tail)[i];
    AnsweredAreApplied(m, order);
    assert order == Straight(Ops(front));
    ReplayConcat(m, order, Straight(Ops(tail)));
    assert Straight(Ops(front + tail)) == order + Straight(Ops(tail));
    SequentialExact(Ops(front + tail), m);
  }

  lemma StartTracks(s: State, image: map<Bytes, Bytes>)
    requires Starts(s, image)
    ensures Tracks(s, H.InitialModel(image), 0)
  {
  }

  // ------------------------------------------------------------------
  // What the model cannot explain
  // ------------------------------------------------------------------

  lemma LastOp(e: Event)
    requires !e.Swept?
    ensures Ops([e]) == [e.op]
  {
    assert [e][1..] == [];
  }

  lemma ReplayOne(m: H.Model, op: H.Operation)
    ensures H.Replay(m, Straight([op])) == H.Step(m, H.Choice(op, true))
  {
    var order := Straight([op]);
    assert order[1..] == [];
  }

  /** After a compatible beginning, requests one after the other, a comparison is accepted exactly when it
      is compatible: one that finds its key expired, where the model still has the value it was given, is
      refused. */
  lemma ComparisonDecides(limits: Limits, s: State, image: map<Bytes, Bytes>, front: seq<Event>, e: Event)
    requires Starts(s, image) && HonestRun(limits, s, front + [e]) && InOrder(front + [e], 0) && Sequential(Ops(front + [e]))
    requires HonestRun(limits, s, front) && CompatibleRun(limits, s, H.InitialModel(image), front)
    requires e.Served? && e.op.kind.Cas?
    ensures var (s', m') := Ends(limits, s, H.InitialModel(image), front);
            H.Linearizable(Ops(front + [e]), H.InitialModel(image)) <==> Compatible(limits, s', m', e)
  {
    hide Tracks, H.Step, H.Linearizable, HonestRun, InOrder, CompatibleRun, Ends, Sequential, Starts, H.Replay;
    var (s', m') := Ends(limits, s, H.InitialModel(image), front);
    FrontReplays(limits, s, image, front, [e]);
    LastOp(e);
    ReplayOne(m', e.op);
    OneEvent(limits, s', e, EndTime(front, 0));
    LastIsAnswered(front, e);
    ComparisonSteps(limits, s', m', EndTime(front, 0), e);
  }

  lemma OneEvent(limits: Limits, s: State, e: Event, from: u64)
    requires HonestRun(limits, s, [e]) && InOrder([e], from)
    ensures Honest(limits, s, e) && from <= e.point
  {
    hide Honest, Next;
  }

  lemma LastIsAnswered(front: seq<Event>, e: Event)
    requires Sequential(Ops(front + [e])) && !e.Swept?
    ensures Answered(e.op)
  {
    OpsConcat(front, [e]);
    LastOp(e);
    var h := Ops(front + [e]);
    assert h[|h| - 1] == e.op;
  }

  /** An answered comparison has a step exactly when it is compatible. */
  lemma ComparisonSteps(limits: Limits, s: State, m: H.Model, now: u64, e: Event)
    requires Tracks(s, m, now) && now <= e.point && e.Served? && Honest(limits, s, e) && e.op.kind.Cas? && !e.op.outcome.Timeout?
    ensures H.Step(m, H.Choice(e.op, true)).Some? <==> Compatible(limits, s, m, e)
  {
    hide Tracks, Put, Disarm, Compatible;
    CasExact(limits, s, m, now, e);
    if Serve(limits, s, e).1.Done? {
      CasMirrorsIff(s, m, now, e.point, e.op.kind, limits.maxExpiryItems);
      AnsweredStep(limits, s, m, e);
    } else {
      NothingHappened(limits, s, m, now, e);
    }
  }

  /** After a compatible beginning, requests one after the other, an increment of a key that has a
      deadline followed by a read past that deadline is refused: the machine answers that the key is
      gone, and the model has forgotten that it would go. */
  lemma IncrementForgetsDeadline(limits: Limits, s: State, image: map<Bytes, Bytes>, front: seq<Event>, incr: Event, get: Event)
    requires Starts(s, image) && HonestRun(limits, s, front + [incr, get]) && InOrder(front + [incr, get], 0)
    requires Sequential(Ops(front + [incr, get]))
    requires HonestRun(limits, s, front) && CompatibleRun(limits, s, H.InitialModel(image), front)
    requires incr.Served? && incr.op.kind.Incr? && !incr.op.outcome.Error?
    requires get.Served? && get.op.kind == H.Get(incr.op.kind.key)
    requires var (s', m') := Ends(limits, s, H.InitialModel(image), front);
             Expired(s', incr.op.kind.key, get.point)
    ensures !H.Linearizable(Ops(front + [incr, get]), H.InitialModel(image))
  {
    hide Tracks, H.Step, H.Linearizable, HonestRun, InOrder, CompatibleRun, Ends, Sequential, Starts, H.Replay;
    var (s', m') := Ends(limits, s, H.InitialModel(image), front);
    FrontReplays(limits, s, image, front, [incr, get]);
    TwoEvents(limits, s', incr, get, EndTime(front, 0));
    BothAnswered(front, incr, get);
    ReplayTwo(m', incr.op, get.op);
    ReadAfterIncrement(limits, s', m', incr, get);
  }

  lemma TwoEvents(limits: Limits, s: State, a: Event, b: Event, from: u64)
    requires HonestRun(limits, s, [a, b]) && InOrder([a, b], from)
    ensures Honest(limits, s, a) && Honest(limits, Next(limits, s, a), b) && from <= a.point <= b.point
  {
    hide Serve;
    assert [a, b][1..] == [b];
    OneEvent(limits, Next(limits, s, a), b, a.point);
  }

  lemma BothAnswered(front: seq<Event>, a: Event, b: Event)
    requires Sequential(Ops(front + [a, b])) && !a.Swept? && !b.Swept?
    ensures Answered(a.op) && Answered(b.op) && Ops([a, b]) == [a.op, b.op]
  {
    OpsConcat(front, [a, b]);
    assert [a, b][1..] == [b];
    LastOp(b);
    var h := Ops(front + [a, b]);
    assert h[|h| - 2] == a.op && h[|h| - 1] == b.op;
  }

  lemma ReplayTwo(m: H.Model, a: H.Operation, b: H.Operation)
    ensures var next := H.Step(m, H.Choice(a, true));
            H.Replay(m, Straight([a, b])) == if next.None? then None else H.Step(next.value, H.Choice(b, true))
  {
    hide H.Step;
    var order := Straight([a, b]);
    assert order[1..] == Straight([b]);
    if H.Step(m, H.Choice(a, true)).Some? {
      ReplayOne(H.Step(m, H.Choice(a, true)).value, b);
    }
  }

  lemma ReadAfterIncrement(limits: Limits, s: State, m: H.Model, incr: Event, get: Event)
    requires incr.Served? && incr.op.kind.Incr? && Honest(limits, s, incr) && Answered(incr.op) && !incr.op.outcome.Error?
    requires get.Served? && get.op.kind == H.Get(incr.op.kind.key) && Honest(limits, Next(limits, s, incr), get) && Answered(get.op)
    requires Expired(s, incr.op.kind.key, get.point)
    ensures var next := H.Step(m, H.Choice(incr.op, true));
            next.Some? ==> H.Step(next.value, H.Choice(get.op, true)).None?
  {
    hide Decimal.ParseI64, Decimal.ToText, H.Counter;
  }

  // ------------------------------------------------------------------
  // Such runs exist
  // ------------------------------------------------------------------

  function BriefSet(v: Bytes): H.Operation {
    H.Operation(1, 0, 1, 0, Some(0), H.Set([1], v), H.Ok, Some(5), H.Strong, H.NoProbe)
  }

  function LateCompare(): H.Operation {
    H.Operation(2, 0, 2, 10, Some(10), H.Cas([1], None, [9]), H.Swapped(true), None, H.Strong, H.NoProbe)
  }

  function EarlyIncrement(): H.Operation {
    H.Operation(2, 0, 2, 2, Some(2), H.Incr([1]), H.Integer(2), None, H.Strong, H.NoProbe)
  }

  function LateRead(): H.Operation {
    H.Operation(3, 0, 3, 10, Some(10), H.Get([1]), H.Value(None), None, H.Strong, H.NoProbe)
  }

  /** Sent at 0 to live for five, applied at 3, and recorded with the deadline it was sent with. */
  function SlowSet(): H.Operation {
    BriefSet([7]).(complete := Some(3))
  }

  function ReadBetween(): H.Operation {
    H.Operation(2, 0, 2, 6, Some(6), H.Get([1]), H.Value(Some([7])), None, H.Strong, H.NoProbe)
  }

  function Blank(): State {
    State(8, 8, map[], 0, map[], map[])
  }

  /** An honest run the checker's model cannot explain: a compare-and-set that finds the key expired. */
  lemma LapsedCompareIsRejected(limits: Limits) returns (es: seq<Event>)
    ensures Starts(Blank(), map[]) && HonestRun(limits, Blank(), es) && InOrder(es, 0)
    ensures Ops(es) == [BriefSet([7]), LateCompare()] && !H.Linearizable(Ops(es), H.InitialModel(map[]))
  {
    var set', compare := Served(BriefSet([7]), 0, Some(5)), Served(LateCompare(), 10, None);
    es := [set', compare];
    CompareSteps(limits);
    hide Honest, Next, Serve, H.Step, H.Linearizable, H.Replay;
    var next := Next(limits, Blank(), set');
    assert es[1..] == [compare] && [compare][1..] == [];
    assert HonestRun(limits, next, [compare]);
    assert InOrder([compare], 0) by { LastInOrder(compare, 0); }
    LastOp(compare);
    assert Ops(es) == [set'.op] + Ops(es[1..]);
    SequentialExact(Ops(es), H.InitialModel(map[]));
    ReplayTwo(H.InitialModel(map[]), BriefSet([7]), LateCompare());
  }

  /** A third: a set that is applied later than its deadline was counted from, read after the recorded
      deadline and before the machine's. */
  lemma SlowSetIsRejected(limits: Limits) returns (es: seq<Event>)
    ensures Starts(Blank(), map[]) && HonestRun(limits, Blank(), es) && InOrder(es, 0)
    ensures Ops(es) == [SlowSet(), ReadBetween()] && !H.Linearizable(Ops(es), H.InitialModel(map[]))
  {
    var set', get := Served(SlowSet(), 3, Some(5)), Served(ReadBetween(), 6, None);
    es := [set', get];
    SlowSteps(limits);
    hide Honest, Next, Serve, H.Step, H.Linearizable, H.Replay;
    var next := Next(limits, Blank(), set');
    assert es[1..] == [get] && [get][1..] == [];
    assert HonestRun(limits, next, [get]);
    assert InOrder([get], 3) by { LastInOrder(get, 3); }
    LastOp(get);
    assert Ops(es) == [set'.op] + Ops(es[1..]);
    SequentialExact(Ops(es), H.InitialModel(map[]));
    ReplayTwo(H.InitialModel(map[]), SlowSet(), ReadBetween());
  }

  lemma SlowSteps(limits: Limits)
    ensures var set', get := Served(SlowSet(), 3, Some(5)), Served(ReadBetween(), 6, None);
            Honest(limits, Blank(), set') && Honest(limits, Next(limits, Blank(), set'), get)
    ensures var held := H.Step(H.InitialModel(map[]), H.Choice(SlowSet(), true));
            held.Some? && H.Step(held.value, H.Choice(ReadBetween(), true)).None?
  {
    assert H.Step(H.InitialModel(map[]), H.Choice(SlowSet(), true)) == Some(map[[1] := H.Cell([7], Some(5))]);
  }

  lemma LastInOrder(e: Event, from: u64)
    requires from <= e.point
    ensures InOrder([e], from)
  {
    assert [e][1..] == [];
  }

  lemma CompareSteps(limits: Limits)
    ensures var set', compare := Served(BriefSet([7]), 0, Some(5)), Served(LateCompare(), 10, None);
            Honest(limits, Blank(), set') && Honest(limits, Next(limits, Blank(), set'), compare)
    ensures var held := H.Step(H.InitialModel(map[]), H.Choice(BriefSet([7]), true));
            held.Some? && H.Step(held.value, H.Choice(LateCompare(), true)).None?
  {
    assert H.Step(H.InitialModel(map[]), H.Choice(BriefSet([7]), true)) == Some(map[[1] := H.Cell([7], Some(5))]);
  }

  /** And another: a counter with a lifetime is incremented, and reads as gone when its time is over. */
  lemma IncrementedCounterIsRejected(limits: Limits) returns (es: seq<Event>)
    ensures Starts(Blank(), map[]) && HonestRun(limits, Blank(), es) && InOrder(es, 0)
    ensures Ops(es) == [BriefSet(Decimal.ToText(1)), EarlyIncrement(), LateRead()]
    ensures !H.Linearizable(Ops(es), H.InitialModel(map[]))
  {
    var set', incr, get := Served(BriefSet(Decimal.ToText(1)), 0, Some(5)), Served(EarlyIncrement(), 2, None), Served(LateRead(), 10, None);
    var front := [set'];
    es := front + [incr, get];
    CounterIsHonest(limits, set', incr, get);
    assert Ops(es) == [set'.op, incr.op, get.op] by {
      OpsConcat(front, [incr, get]);
      LastOp(set');
      LastOp(get);
      assert [incr, get][1..] == [get];
    }
    hide HonestRun, InOrder, Ops, Honest, H.Linearizable;
    IncrementForgetsDeadline(limits, Blank(), map[], front, incr, get);
  }

  lemma CounterSteps(limits: Limits)
    ensures var set', incr, get := Served(BriefSet(Decimal.ToText(1)), 0, Some(5)), Served(EarlyIncrement(), 2, None), Served(LateRead(), 10, None);
            Honest(limits, Blank(), set') &&
            var s1 := Next(limits, Blank(), set');
            Honest(limits, s1, incr) && Expired(s1, [1], 10) && Honest(limits, Next(limits, s1, incr), get)
  {
    Decimal.ParseToText(1);
    assert |Decimal.ToText(1)| == 1 && |Decimal.ToText(2)| == 1;
    hide Decimal.ParseI64, Decimal.ToText;
    var set', incr := Served(BriefSet(Decimal.ToText(1)), 0, Some(5)), Served(EarlyIncrement(), 2, None);
    var s1 := Next(limits, Blank(), set');
    assert s1 == State(8, 8, map[[1] := Stored(Decimal.ToText(1), 1)], 1, map[[1] := 5], map[]);
    assert Next(limits, s1, incr) == State(8, 8, map[[1] := Stored(Decimal.ToText(2), 2)], 2, map[[1] := 5], map[]);
  }

  lemma CounterIsHonest(limits: Limits, set': Event, incr: Event, get: Event)
    requires set' == Served(BriefSet(Decimal.ToText(1)), 0, Some(5)) && incr == Served(EarlyIncrement(), 2, None)
    requires get == Served(LateRead(), 10, None)
    ensures HonestRun(limits, Blank(), [set'] + [incr, get]) && InOrder([set'] + [incr, get], 0)
    ensures HonestRun(limits, Blank(), [set']) && CompatibleRun(limits, Blank(), H.InitialModel(map[]), [set'])
    ensures Expired(Ends(limits, Blank(), H.InitialModel(map[]), [set']).0, [1], 10)
  {
    CounterSteps(limits);
    hide Honest, Next, ModelNext, Serve, Decimal.ToText, Blank;
    var s1 := Next(limits, Blank(), set');
    var s2 := Next(limits, s1, incr);
    assert [get][1..] == [] && [incr, get][1..] == [get] && ([set'] + [incr, get])[1..] == [incr, get] && [set'][1..] == [];
    assert HonestRun(limits, s2, [get]);
    assert HonestRun(limits, s1, [incr, get]);
    assert InOrder([get], 2);
    assert [incr, get][0] == incr && [incr, get][1..] == [get] && incr.point == 2;
    assert InOrder([incr, get], 0);
  }
}
