/** A run that meets every premise of the node's exactly-once theorem: a client increments a counter, is
    not answered, and asks again. */
module CountedOnce {
  import opened Prelude
  import opened KvCodec
  import opened ReplyCodec
  import opened Codec
  import opened ClusterConfig
  import opened Sessions
  import opened Replication
  import Kv = KvModel
  import S = KvSnapshot
  import D = Durability
  import E = ExactlyOnce
  import Decimal

  function TightPolicy(): Policy {
    Policy(1, 1, 1, 39, 20, 19, 1, 1, 1, 39, 1, 1, 1, 1, 1, 1, 1, 1)
  }

  /** A client's first request: add one to the counter. */
  ghost predicate Counts(m: Meaning) {
    m.Ask? && m.session == Some((Key(0, 7), 1)) && m.at == 0 && !m.batched && |m.command| == 20 &&
    DecodeCommand(m.command) == Some(Incr([1], 1))
  }

  lemma CountingRequest() returns (m: Meaning)
    ensures Counts(m) && m.Ask?
  {
    var c := Incr([1], 1);
    assert |EncodeCommand(c)| == 20 by {
      hide PutBytes, PutU16, PutU32, PutU64;
    }
    hide EncodeCommand, DecodeCommand;
    CommandRoundTrip(c);
    m := Ask(Some((Key(0, 7), 1)), EncodeCommand(c), 0, false);
  }

  lemma OneReply()
    ensures ReplyFits(Integer(1)) && |EncodeReply(Integer(1))| == 19 && Cacheable(Integer(1))
  {
    hide PutU16, PutU32, PutU64, Seal;
  }

  lemma OkReply()
    ensures ReplyFits(Ok) && |EncodeReply(Ok)| == 11
  {
    hide PutU16, PutU32, Seal;
  }

  function Empty(): Composite {
    Composite(S.Replica(Kv.State(1, 1, map[], 0, map[], map[]), 0, 0, 0), EMPTY)
  }

  ghost function Surroundings(m: Meaning): Env<bool> {
    Env(TightPolicy(), AdminRules((x, y) => x == y, x => true), e => Some(m), w => false, w => None,
        (w, e) => (w, None, []), (w, e, r) => (w, None), (a, b, e) => [], w => None, w => [], (w, qs) => w, (q, r) => [])
  }

  ghost function Node(env: Env<bool>): D.Core<Composite, bool> {
    D.Core((w, k, bs) => None, (w, k, t) => (w, []), w => w, (w, k) => w, (w, k, t) => Some(None), (w, k, bs) => None, (w, i) => w,
           (k, w, e) => Prepare(env, k, w, e), (w, p) => w, (w, k) => Drain(env, w, k), w => w)
  }

  lemma NodeObeys(env: Env<bool>)
    ensures Obeys(Node(env), env)
  {
    hide Prepare, Drain;
  }

  // ------------------------------------------------------------------
  // A group of two entries, made durable one by one
  // ------------------------------------------------------------------

  function Steps<W>(group: seq<D.Entry>, p: D.Prepared<Composite, W>, q: D.Prepared<Composite, W>): seq<D.Event<Composite, W>> {
    [D.Supply(D.ByTick(0), [D.Apply(group)]), D.Expanded(group, [p, q]), D.Barrier(D.Commit(p)), D.Ack(p.reply), D.Barrier(D.Commit(q)), D.Ack(q.reply)]
  }

  /** Both entries are acknowledged, in order. */
  lemma GroupRuns<W(!new)>(core: D.Core<Composite, W>, k: Composite, p: D.Prepared<Composite, W>, q: D.Prepared<Composite, W>)
    requires D.Derives(core, k, p) && D.Derives(core, p.k, q) && p.post == [] && q.post == []
    ensures var es := Steps([p.entry, q.entry], p, q);
            D.Run(core, D.Status(k, [], false), es) == Some(D.Status(q.k, [], false)) && D.Acked(core, D.Status(k, [], false), es) == [p, q]
  {
    hide D.Derives, D.Next, D.Run, D.Acked;
    var start: D.Status<Composite, W> := D.Status(k, [], false);
    var es := Steps([p.entry, q.entry], p, q);
    var s1 := start.(work := [D.Do(D.Apply([p.entry, q.entry]))]);
    var s2 := start.(work := [D.Commit(p), D.Commit(q)]);
    GroupOpens(core, k, p, q);
    GroupCommits(core, k, p, [D.Commit(q)]);
    GroupCommits(core, p.k, q, []);
    assert [D.Commit(p)] + [D.Commit(q)] == s2.work && [D.Commit(q)] + [] == [D.Commit(q)];
    RunNone(core, start);
    assert es[..0] == [];
    RunTakes(core, start, es, 0, start, s1);
    RunTakes(core, start, es, 1, s1, s2);
    RunTakes(core, start, es, 2, s2, s2.(awaiting := true));
    RunTakes(core, start, es, 3, s2.(awaiting := true), D.Status(p.k, [D.Commit(q)], false));
    RunTakes(core, start, es, 4, D.Status(p.k, [D.Commit(q)], false), D.Status(p.k, [D.Commit(q)], true));
    RunTakes(core, start, es, 5, D.Status(p.k, [D.Commit(q)], true), D.Status(q.k, [], false));
    assert es[..6] == es;
  }

  lemma RunNone<W(!new)>(core: D.Core<Composite, W>, s: D.Status<Composite, W>)
    ensures D.Run(core, s, []) == Some(s) && D.Acked(core, s, []) == []
  {
  }

  lemma GroupOpens<W(!new)>(core: D.Core<Composite, W>, k: Composite, p: D.Prepared<Composite, W>, q: D.Prepared<Composite, W>)
    requires D.Derives(core, k, p) && D.Derives(core, p.k, q) && p.post == [] && q.post == []
    ensures var group := [p.entry, q.entry];
            var s1: D.Status<Composite, W> := D.Status(k, [D.Do(D.Apply(group))], false);
            D.Next(core, D.Status(k, [], false), D.Supply(D.ByTick(0), [D.Apply(group)])) == Some(s1) &&
            D.Next(core, s1, D.Expanded(group, [p, q])) == Some(D.Status(k, [D.Commit(p), D.Commit(q)], false))
  {
    hide D.Derives, D.Chain;
    TwoChain(core, k, p, q);
    NothingPosted(p, q);
    var group := [p.entry, q.entry];
    assert D.Dos<Composite, W>([D.Apply(group)]) == [D.Do(D.Apply(group))];
    var work: seq<D.Item<Composite, W>> := [D.Do(D.Apply(group))];
    assert work[1..] == [];
    assert D.Commits([p, q]) + D.Dos([]) + [] == [D.Commit(p), D.Commit(q)];
  }

  lemma NothingPosted<W>(p: D.Prepared<Composite, W>, q: D.Prepared<Composite, W>)
    requires p.post == [] && q.post == []
    ensures D.Posts([p, q]) == []
  {
    assert [p, q][1..] == [q] && [q][1..] == [];
    assert D.Posts([q]) == [];
  }

  lemma GroupCommits<W(!new)>(core: D.Core<Composite, W>, k: Composite, p: D.Prepared<Composite, W>, rest: seq<D.Item<Composite, W>>)
    ensures var s := D.Status(k, [D.Commit(p)] + rest, false);
            D.Next(core, s, D.Barrier(D.Commit(p))) == Some(s.(awaiting := true)) &&
            D.Next(core, s.(awaiting := true), D.Ack(p.reply)) == Some(D.Status(p.k, rest, false))
  {
    assert ([D.Commit(p)] + rest)[1..] == rest;
  }

  lemma TwoChain<W(!new)>(core: D.Core<Composite, W>, k: Composite, p: D.Prepared<Composite, W>, q: D.Prepared<Composite, W>)
    requires D.Derives(core, k, p) && D.Derives(core, p.k, q)
    ensures D.Prepares(core, k, [p.entry, q.entry], [p, q])
  {
    hide D.Derives;
    assert [p, q][1..] == [q] && [q][1..] == [];
    assert D.Chain(core, q.k, []);
    assert D.Chain(core, p.k, [q]);
  }

  /** One event more, and what it acknowledges. */
  lemma RunTakes<W(!new)>(core: D.Core<Composite, W>, start: D.Status<Composite, W>, es: seq<D.Event<Composite, W>>, n: nat,
                          before: D.Status<Composite, W>, after: D.Status<Composite, W>)
    requires n < |es| && D.Run(core, start, es[..n]) == Some(before) && D.Next(core, before, es[n]) == Some(after)
    ensures D.Run(core, start, es[..n + 1]) == Some(after)
    ensures D.Acked(core, start, es[..n + 1]) ==
            D.Acked(core, start, es[..n]) + (if es[n].Ack? && before.work[0].Commit? then [before.work[0].prepared] else [])
  {
    hide D.Next;
    assert es[..n + 1][..n] == es[..n];
    assert es[n].Ack? ==> before.work != [] by { AckHasWork(core, before, es[n]); }
  }

  lemma AckHasWork<W(!new)>(core: D.Core<Composite, W>, s: D.Status<Composite, W>, e: D.Event<Composite, W>)
    requires D.Next(core, s, e).Some?
    ensures e.Ack? ==> s.work != []
  {
  }

  // ------------------------------------------------------------------
  // The request, asked twice
  // ------------------------------------------------------------------

  lemma TightIsValid()
    ensures ValidPolicy(TightPolicy())
  {
  }

  lemma RunsFirst(command: Bytes)
    requires |command| == 20
    ensures Runs(TightPolicy(), EMPTY, Key(0, 7), 1, command, 0)
  {
    hide EncodeReply, ReplyFits, DecodeReply;
    OkReply();
    assert Sum(map[]) == 0;
    assert Sweep(map[], 0) == map[];
  }

  function Counted(): map<Bytes, Kv.Stored> {
    map[[1] := Kv.Stored(Decimal.ToText(1), 1)]
  }

  lemma AddsOne()
    ensures Kv.Increment(Empty().kv.state, [1], 1, 0) == (Kv.State(1, 1, Counted(), 1, map[], map[]), Kv.Done(Integer(1)))
  {
    Decimal.ParseToText(0);
    assert Decimal.ToText(0) == [Decimal.ZERO] && |Decimal.ToText(1)| == 1;
    hide Decimal.ParseI64, Decimal.ToText;
  }

  lemma CountsToOne(e: D.Entry)
    ensures RunOn(TightPolicy(), Empty().kv, e, Incr([1], 1), 0) ==
            Some((S.Replica(Kv.State(1, 1, Counted(), 1, map[], map[]), e.index, e.term, 0), Integer(1)))
  {
    hide Kv.ApplyCommand, ReplyFits, Kv.Increment, Counted, EncodeReply;
    AddsOne();
    OneReply();
    AppliesIncrement(Empty().kv.state, E.LimitsOf(TightPolicy()));
  }

  lemma AppliesIncrement(s: Kv.State, limits: Kv.Limits)
    ensures Kv.ApplyCommand(s, Incr([1], 1), 0, limits) == Kv.Increment(s, [1], 1, 0)
  {
    hide Kv.Increment;
  }

  /** The entry was answered with this reply. */
  ghost predicate Replied(env: Env<bool>, k: Composite, p: D.Prepared<Composite, bool>, reply: Reply) {
    var m := Says(env, p);
    m.Ask? && DecodeCommand(m.command).Some? &&
    var asked := Asked(env.policy, k, p.entry, m);
    asked.Some? && asked.value.1 == reply
  }

  lemma RepliedWith(m: Meaning, k: Composite, p: D.Prepared<Composite, bool>)
    requires Counts(m) && Says(Surroundings(m), p) == m && Asked(TightPolicy(), k, p.entry, m).Some?
    ensures Replied(Surroundings(m), k, p, Asked(TightPolicy(), k, p.entry, m).value.1)
  {
    hide DecodeCommand, Asked;
  }

  /** The first entry takes effect. */
  lemma FirstCounts(e: D.Entry, m: Meaning)
    requires Counts(m)
    ensures Effective(TightPolicy(), Empty(), e, m) && Asked(TightPolicy(), Empty(), e, m).Some?
    ensures Asked(TightPolicy(), Empty(), e, m).value.1 == Integer(1)
    ensures Asked(TightPolicy(), Empty(), e, m).value.0.kv.state.entries == Counted()
  {
    hide DecodeCommand, EncodeReply, ReplyFits, RunOn, Runs, ValidPolicy, Asked, Counted;
    OneReply();
    RunsFirst(m.command);
    CountsToOne(e);
    TightIsValid();
    EffectiveIsRecorded(TightPolicy(), AdminRules((x, y) => x == y, x => true), Empty(), e, m);
    AskedStore(Empty(), e, m);
  }

  /** The store after a request that runs is the machine's. */
  lemma AskedStore(k: Composite, e: D.Entry, m: Meaning)
    requires Effective(TightPolicy(), k, e, m) && Asked(TightPolicy(), k, e, m).Some?
    ensures Asked(TightPolicy(), k, e, m).value.0.kv == RunOn(TightPolicy(), k.kv, e, DecodeCommand(m.command).value, m.at).value.0
  {
    hide DecodeCommand, RunOn, ApplyUser, ReplyFits, EncodeReply;
  }

  lemma Timely(m: Meaning)
    requires Counts(m)
    ensures InTime(TightPolicy(), m.at, m) && AsksAgain(m, Key(0, 7), 1)
  {
    hide DecodeCommand;
  }

  /** What preparing either entry gives. */
  lemma Prepared(m: Meaning, k: Composite, e: D.Entry) returns (p: D.Prepared<Composite, bool>)
    requires Counts(m) && Asked(TightPolicy(), k, e, m).Some?
    ensures D.Derives(Node(Surroundings(m)), k, p) && p.entry == e && p.post == [] && Says(Surroundings(m), p) == m
    ensures p.k == Asked(TightPolicy(), k, e, m).value.0
  {
    hide DecodeCommand, Asked, Drain;
    p := Prepare(Surroundings(m), k, false, e).value;
    assert Node(Surroundings(m)).prepare(k, false, p.entry) == Some(p);
  }

  /** The two acknowledged entries are the premises of exactly-once. */
  lemma Premises(m: Meaning, p: D.Prepared<Composite, bool>, q: D.Prepared<Composite, bool>)
    requires Counts(m) && Says(Surroundings(m), p) == m && Says(Surroundings(m), q) == m && Effective(TightPolicy(), Empty(), p.entry, m)
    ensures AskedLater(Surroundings(m), Empty(), [p, q], 0, 1)
  {
    hide Effective, InTime;
    Timely(m);
  }

  /** The run: a counter incremented by one request, asked twice.  It meets the premises of exactly-once, and
      the counter stands at one, which is what both requests were told. */
  lemma AskedTwiceCountsOnce(e: D.Entry, f: D.Entry) returns (core: D.Core<Composite, bool>, env: Env<bool>, es: seq<D.Event<Composite, bool>>)
    ensures Obeys(core, env) && ValidPolicy(env.policy) && D.Run(core, D.Status(Empty(), [], false), es).Some?
    ensures var ps := D.Acked(core, D.Status(Empty(), [], false), es);
            AskedLater(env, Empty(), ps, 0, 1) && TookEffectOnce(env, Empty(), ps, 0, 1) && ps[0].entry == e && ps[1].entry == f &&
            Replied(env, Empty(), ps[0], Integer(1)) && Replied(env, ps[0].k, ps[1], Integer(1))
    ensures D.Run(core, D.Status(Empty(), [], false), es).value.k.kv.state.entries == Counted()
  {
    hide *;
    var m := CountingRequest();
    env := Surroundings(m);
    core := Node(env);
    NodeObeys(env);
    TightIsValid();
    PolicyOf(m);
    FirstCounts(e, m);
    var p := Prepared(m, Empty(), e);
    Timely(m);
    AskedAtOnce(TightPolicy(), env.rules, Empty(), e, f, m);
    var q := Prepared(m, p.k, f);
    Unmoved(p.k.kv, f, m.at);
    OneReply();
    RepliedWith(m, Empty(), p);
    RepliedWith(m, p.k, q);
    GroupRuns(core, Empty(), p, q);
    es := Steps([e, f], p, q);
    Premises(m, p, q);
    NodeExactlyOnce(core, env, Empty(), es, 0, 1);
  }

  lemma PolicyOf(m: Meaning)
    ensures Surroundings(m).policy == TightPolicy()
  {
  }

  lemma Unmoved(r: S.Replica, e: D.Entry, at: u64)
    ensures Mark(r, e, at).state == r.state
  {
  }
}
