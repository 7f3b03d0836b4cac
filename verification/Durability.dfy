/** The order in which a node lets effects out, as a protocol over events.

    Consensus hands the node lists of effects.  Some are barriers: nothing after them may happen
    before the host says they are on disk.  A committed group becomes one barrier per entry, and
    the effects those entries cause come after the whole group and before the rest of the list.
    This module says which event sequences follow that protocol, and what they guarantee. */
module Durability {
  import opened Prelude

  datatype Entry = Entry(index: u64, term: u64, payload: Bytes)

  /** An effect asked for by consensus.  Everything that is not a barrier travels as its payload. */
  datatype Effect =
    | Plain(payload: Bytes)
    | PersistHard(state: Bytes)
    | PersistEntries(entries: seq<Entry>)
    | TruncateSuffix(index: u64)
    | Apply(group: seq<Entry>)

  /** One committed entry, applied tentatively: the state it leads to, the store record that makes
      it durable, and what it owes the outside once it is. */
  datatype Prepared<K, W> = Prepared(entry: Entry, k: K, w: W, frame: Bytes, reply: Option<Bytes>, post: seq<Effect>)

  datatype Item<K, W> = Do(effect: Effect) | Commit(prepared: Prepared<K, W>)

  /** The parts of the node this protocol leaves open. */
  datatype Core<!K, !W> = Core(
    accept: (W, K, Bytes) -> Option<(W, seq<Effect>)>,
    tick: (W, K, u64) -> (W, seq<Effect>),
    shed: W -> W,
    rescan: (W, K) -> W,
    sweep: (W, K, u64) -> Option<Option<(W, seq<Effect>)>>,
    observe: (W, K, Bytes) -> Option<(W, seq<Bytes>)>,
    truncate: (W, u64) -> W,
    prepare: (K, W, Entry) -> Option<Prepared<K, W>>,
    publish: (W, Prepared<K, W>) -> W,
    drain: (W, K) -> (W, seq<Bytes>),
    settle: W -> W)

  // ------------------------------------------------------------------
  // The protocol
  // ------------------------------------------------------------------

  /** Why consensus hands over a list. */
  datatype Cause = ByMessage(payload: Bytes) | ByTick(now: u64) | BySweep(now: u64)

  /** Changes to volatile state alone: routes are shed before a list is taken up and at the end of a call,
      and a tick looks again for sweeps under way, and finds none due. */
  datatype Chore = Shed | Rescan | NoSweep(now: u64) | Settle

  datatype Event<K, W> =
    | Supply(cause: Cause, effects: seq<Effect>)                  // consensus hands over a list
    | Upkeep(chore: Chore)                                        // volatile state is tidied
    | Observed(payload: Bytes, outs: seq<Bytes>)                  // a plain effect is taken up
    | Expanded(group: seq<Entry>, prepared: seq<Prepared<K, W>>)  // a committed group is prepared
    | Barrier(item: Item<K, W>)                                   // a barrier goes out
    | Ack(reply: Option<Bytes>)                                   // it is durable
    | Fail                                                        // it is not
    | Reads(outs: seq<Bytes>)                                     // reads answered from published state
    | Abort                                                       // an error drops the rest

  /** Published state, what is still to be done in order, and whether its head waits for the disk. */
  datatype Status<K, W> = Status(k: K, work: seq<Item<K, W>>, awaiting: bool)

  function Dos<K, W>(es: seq<Effect>): seq<Item<K, W>> {
    seq(|es|, i requires 0 <= i < |es| => Do(es[i]))
  }

  function Commits<K, W>(ps: seq<Prepared<K, W>>): seq<Item<K, W>> {
    seq(|ps|, i requires 0 <= i < |ps| => Commit(ps[i]))
  }

  /** The effects a group causes, entry by entry. */
  function Posts<K, W>(ps: seq<Prepared<K, W>>): seq<Effect> {
    if ps == [] then [] else ps[0].post + Posts(ps[1..])
  }

  predicate IsBarrier<K, W>(item: Item<K, W>) {
    item.Commit? || item.effect.PersistHard? || item.effect.PersistEntries? || item.effect.TruncateSuffix?
  }

  /** `p` is what applying its entry to `k` gives, in some volatile context. */
  ghost predicate Derives<K(!new), W(!new)>(core: Core<K, W>, k: K, p: Prepared<K, W>) {
    exists w: W :: core.prepare(k, w, p.entry) == Some(p)
  }

  /** Each entry is applied to the state the previous one led to. */
  ghost predicate Chain<K(!new), W(!new)>(core: Core<K, W>, k: K, ps: seq<Prepared<K, W>>) {
    ps == [] || (Derives(core, k, ps[0]) && Chain(core, ps[0].k, ps[1..]))
  }

  ghost predicate Prepares<K(!new), W(!new)>(core: Core<K, W>, k: K, group: seq<Entry>, ps: seq<Prepared<K, W>>) {
    |ps| == |group| && (forall i | 0 <= i < |ps| :: ps[i].entry == group[i]) && Chain(core, k, ps)
  }

  /** These are answers to waiting reads given from the state `k`. */
  ghost predicate ReadFrom<K(!new), W(!new)>(core: Core<K, W>, k: K, outs: seq<Bytes>) {
    exists w: W :: core.drain(w, k).1 == outs
  }

  /** This is what a plain effect sends, given the state `k`. */
  ghost predicate SentFrom<K(!new), W(!new)>(core: Core<K, W>, k: K, payload: Bytes, outs: seq<Bytes>) {
    exists w: W :: core.observe(w, k, payload).Some? && core.observe(w, k, payload).value.1 == outs
  }

  ghost function Next<K(!new), W(!new)>(core: Core<K, W>, s: Status<K, W>, e: Event<K, W>): Option<Status<K, W>> {
    match e
    case Supply(_, effects) => if s.work == [] && !s.awaiting then Some(s.(work := Dos(effects))) else None
    case Upkeep(_) => Some(s)
    case Observed(payload, outs) =>
      if !s.awaiting && s.work != [] && s.work[0] == Do(Plain(payload)) && SentFrom(core, s.k, payload, outs)
      then Some(s.(work := s.work[1..])) else None
    case Expanded(group, ps) =>
      if !s.awaiting && s.work != [] && s.work[0] == Do(Apply(group)) && Prepares(core, s.k, group, ps)
      then Some(s.(work := Commits(ps) + Dos(Posts(ps)) + s.work[1..])) else None
    case Barrier(item) =>
      if !s.awaiting && s.work != [] && s.work[0] == item && IsBarrier(item) then Some(s.(awaiting := true)) else None
    case Ack(reply) =>
      if !s.awaiting || s.work == [] then None
      else if s.work[0].Commit? then
        if reply == s.work[0].prepared.reply then Some(Status(s.work[0].prepared.k, s.work[1..], false)) else None
      else if reply == None then Some(Status(s.k, s.work[1..], false)) else None
    case Fail => if s.awaiting then Some(Status(s.k, [], false)) else None
    case Reads(outs) => if ReadFrom(core, s.k, outs) then Some(s) else None
    case Abort => if s.awaiting then None else Some(s.(work := []))
  }

  /** Where a sequence of events leads, or none when it breaks the protocol. */
  ghost function Run<K(!new), W(!new)>(core: Core<K, W>, s: Status<K, W>, es: seq<Event<K, W>>): Option<Status<K, W>> {
    if es == [] then Some(s)
    else
      var before :- Run(core, s, es[..|es| - 1]);
      Next(core, before, es[|es| - 1])
  }

  lemma RunSnoc<K(!new), W(!new)>(core: Core<K, W>, s: Status<K, W>, es: seq<Event<K, W>>, e: Event<K, W>)
    requires Run(core, s, es).Some?
    ensures Run(core, s, es + [e]) == Next(core, Run(core, s, es).value, e)
  {
    assert (es + [e])[..|es|] == es;
  }

  lemma {:induction false} RunPrefix<K(!new), W(!new)>(core: Core<K, W>, s: Status<K, W>, es: seq<Event<K, W>>, n: nat)
    requires Run(core, s, es).Some? && n <= |es|
    ensures Run(core, s, es[..n]).Some?
    decreases |es|
  {
    if n < |es| {
      RunPrefix(core, s, es[..|es| - 1], n);
      assert es[..|es| - 1][..n] == es[..n];
    } else {
      assert es[..n] == es;
    }
  }

  // ------------------------------------------------------------------
  // At most one barrier is outstanding
  // ------------------------------------------------------------------

  predicate Settles<K, W>(e: Event<K, W>) {
    e.Ack? || e.Fail?
  }

  function Count<K, W>(es: seq<Event<K, W>>, barriers: bool): nat {
    if es == [] then 0
    else
      Count(es[..|es| - 1], barriers) +
      (if (if barriers then es[|es| - 1].Barrier? else Settles(es[|es| - 1])) then 1 else 0)
  }

  /** Barriers and completions alternate: the difference is one while a barrier waits, else zero. */
  lemma {:induction false} OneOutstanding<K(!new), W(!new)>(core: Core<K, W>, k: K, es: seq<Event<K, W>>)
    requires Run(core, Status(k, [], false), es).Some?
    ensures Count(es, true) == Count(es, false) + (if Run(core, Status(k, [], false), es).value.awaiting then 1 else 0)
    decreases |es|
  {
    if es != [] {
      OneOutstanding(core, k, es[..|es| - 1]);
    }
  }

  /** Between a barrier and its completion nothing happens but upkeep and reads, which are answered from the
      state published before it. */
  lemma {:induction false} NothingPassesABarrier<K(!new), W(!new)>(core: Core<K, W>, s: Status<K, W>, es: seq<Event<K, W>>, i: nat, j: nat)
    requires Run(core, s, es).Some? && i < j <= |es| && es[i].Barrier?
    requires forall m | i < m < j :: !Settles(es[m])
    ensures Run(core, s, es[..i + 1]).Some? && Run(core, s, es[..i + 1]).value.awaiting
    ensures Run(core, s, es[..j]) == Run(core, s, es[..i + 1])
    ensures forall m | i < m < j ::
              es[m].Upkeep? || (es[m].Reads? && ReadFrom(core, Run(core, s, es[..i + 1]).value.k, es[m].outs))
    ensures j < |es| ==> es[j].Upkeep? || es[j].Reads? || Settles(es[j])
    decreases j
  {
    hide Next, ReadFrom;
    RunStep(core, s, es, j - 1);
    if i + 1 < j {
      NothingPassesABarrier(core, s, es, i, j - 1);
    }
    AwaitingOnlyReads(core, Run(core, s, es[..j - 1]).value, es[j - 1]);
    if j < |es| {
      RunStep(core, s, es, j);
      AwaitingOnlyReads(core, Run(core, s, es[..j]).value, es[j]);
    }
  }

  lemma RunStep<K(!new), W(!new)>(core: Core<K, W>, s: Status<K, W>, es: seq<Event<K, W>>, n: nat)
    requires Run(core, s, es).Some? && n < |es|
    ensures Run(core, s, es[..n]).Some? && Next(core, Run(core, s, es[..n]).value, es[n]).Some?
    ensures Run(core, s, es[..n + 1]) == Next(core, Run(core, s, es[..n]).value, es[n])
  {
    hide Next;
    RunPrefix(core, s, es, n + 1);
    assert es[..n + 1][..n] == es[..n];
  }

  lemma AwaitingOnlyReads<K(!new), W(!new)>(core: Core<K, W>, s: Status<K, W>, e: Event<K, W>)
    requires Next(core, s, e).Some?
    ensures s.awaiting ==> e.Upkeep? || e.Reads? || Settles(e)
    ensures e.Upkeep? || e.Reads? ==> Next(core, s, e).value == s
    ensures e.Reads? ==> ReadFrom(core, s.k, e.outs)
    ensures e.Barrier? ==> Next(core, s, e).value.awaiting
  {
    hide Prepares, Dos, Posts, Commits;
  }

  // ------------------------------------------------------------------
  // Published state is the fold of the acknowledged entries
  // ------------------------------------------------------------------

  /** The entries whose store record was acknowledged, in order. */
  ghost function Acked<K(!new), W(!new)>(core: Core<K, W>, s: Status<K, W>, es: seq<Event<K, W>>): seq<Prepared<K, W>>
    requires Run(core, s, es).Some?
  {
    if es == [] then []
    else
      var front := es[..|es| - 1];
      var before := Run(core, s, front).value;
      Acked(core, s, front) +
      (if es[|es| - 1].Ack? && before.work[0].Commit? then [before.work[0].prepared] else [])
  }

  function Final<K, W>(k: K, ps: seq<Prepared<K, W>>): K {
    if ps == [] then k else ps[|ps| - 1].k
  }

  lemma {:induction false} ChainSnoc<K(!new), W(!new)>(core: Core<K, W>, k: K, ps: seq<Prepared<K, W>>, p: Prepared<K, W>)
    requires Chain(core, k, ps) && Derives(core, Final(k, ps), p)
    ensures Chain(core, k, ps + [p])
    decreases |ps|
  {
    if ps != [] {
      ChainSnoc(core, ps[0].k, ps[1..], p);
      assert (ps + [p])[1..] == ps[1..] + [p];
    } else {
      assert ([p])[1..] == [];
    }
  }

  /** The work list is prepared entries continuing from the published state, then effects. */
  ghost predicate ShapedAs<K(!new), W(!new)>(core: Core<K, W>, s: Status<K, W>, ps: seq<Prepared<K, W>>, rest: seq<Effect>) {
    s.work == Commits(ps) + Dos(rest) && Chain(core, s.k, ps)
  }

  ghost predicate Shaped<K(!new), W(!new)>(core: Core<K, W>, s: Status<K, W>) {
    exists ps: seq<Prepared<K, W>>, rest: seq<Effect> :: ShapedAs(core, s, ps, rest)
  }

  lemma ExpandShaped<K(!new), W(!new)>(core: Core<K, W>, s: Status<K, W>, e: Event<K, W>, rest: seq<Effect>)
    requires e.Expanded? && Next(core, s, e).Some? && ShapedAs(core, s, [], rest)
    ensures Shaped(core, Next(core, s, e).value)
  {
    hide Derives, Chain, Posts, Dos, Commits, Shaped;
    var t, more := Next(core, s, e).value, e.prepared;
    WorkTail(s, rest);
    DosConcat<K, W>(Posts(more), rest[1..]);
    assert Commits(more) + Dos(Posts(more)) + Dos(rest[1..]) == Commits(more) + (Dos(Posts(more)) + Dos(rest[1..]));
    ShapedBy(core, t, more, Posts(more) + rest[1..]);
  }

  lemma ShapedBy<K(!new), W(!new)>(core: Core<K, W>, s: Status<K, W>, ps: seq<Prepared<K, W>>, rest: seq<Effect>)
    requires ShapedAs(core, s, ps, rest)
    ensures Shaped(core, s)
  {
    hide ShapedAs;
  }

  lemma WorkTail<K, W>(s: Status<K, W>, rest: seq<Effect>)
    requires s.work == Commits([]) + Dos(rest) && s.work != []
    ensures rest != [] && s.work[1..] == Dos(rest[1..])
  {
    assert s.work == Dos(rest);
  }

  lemma DosConcat<K, W>(a: seq<Effect>, b: seq<Effect>)
    ensures Dos<K, W>(a + b) == Dos(a) + Dos(b)
  {
  }

  lemma PopShaped<K(!new), W(!new)>(core: Core<K, W>, s: Status<K, W>, ps: seq<Prepared<K, W>>, rest: seq<Effect>)
    requires ShapedAs(core, s, ps, rest) && s.work != []
    ensures s.work[0].Commit? ==>
              Derives(core, s.k, s.work[0].prepared) && Shaped(core, Status(s.work[0].prepared.k, s.work[1..], false))
    ensures s.work[0].Do? ==> ps == [] && Shaped(core, Status(s.k, s.work[1..], false))
  {
    hide Derives;
    if ps == [] {
      assert s.work[1..] == Dos(rest[1..]);
      assert ShapedAs(core, Status(s.k, s.work[1..], false), [], rest[1..]);
    } else {
      assert s.work[0] == Commit(ps[0]);
      assert s.work[1..] == Commits(ps[1..]) + Dos(rest);
      assert ShapedAs(core, Status(ps[0].k, s.work[1..], false), ps[1..], rest);
    }
  }

  lemma NextShaped<K(!new), W(!new)>(core: Core<K, W>, s: Status<K, W>, e: Event<K, W>)
    requires Next(core, s, e).Some? && Shaped(core, s)
    ensures Shaped(core, Next(core, s, e).value)
    ensures e.Ack? && s.work[0].Commit? ==> Derives(core, s.k, s.work[0].prepared)
  {
    hide Derives, Chain, Prepares, IsBarrier, Posts;
    var t := Next(core, s, e).value;
    var ps: seq<Prepared<K, W>>, rest :| ShapedAs(core, s, ps, rest);
    if s.work != [] {
      PopShaped(core, s, ps, rest);
    }
    if e.Expanded? {
      ExpandShaped(core, s, e, rest);
    } else if e.Supply? {
      SupplyShaped(core, t, e.effects);
    } else if e.Barrier? {
      assert ShapedAs(core, t, ps, rest);
    } else if e.Fail? || e.Abort? {
      EmptyShaped(core, t);
    }
  }

  lemma SupplyShaped<K(!new), W(!new)>(core: Core<K, W>, s: Status<K, W>, effects: seq<Effect>)
    requires s.work == Dos(effects)
    ensures Shaped(core, s)
  {
    assert ShapedAs(core, s, [], effects);
  }

  lemma EmptyShaped<K(!new), W(!new)>(core: Core<K, W>, s: Status<K, W>)
    requires s.work == []
    ensures Shaped(core, s)
  {
    assert ShapedAs(core, s, [], []);
  }

  /** Published state is the sequential application of exactly the acknowledged entries. */
  lemma {:induction false} PublishedIsFold<K(!new), W(!new)>(core: Core<K, W>, k: K, es: seq<Event<K, W>>)
    requires Run(core, Status(k, [], false), es).Some?
    ensures var start := Status(k, [], false);
            Chain(core, k, Acked(core, start, es)) &&
            Run(core, start, es).value.k == Final(k, Acked(core, start, es)) &&
            Shaped(core, Run(core, start, es).value)
    decreases |es|
  {
    hide Next, Shaped, Chain;
    var start: Status<K, W> := Status(k, [], false);
    if es == [] {
      EmptyShaped(core, start);
      NoChain(core, k);
    } else {
      var front, e := es[..|es| - 1], es[|es| - 1];
      PublishedIsFold(core, k, front);
      FoldStep(core, k, Acked(core, start, front), Run(core, start, front).value, e);
    }
  }

  lemma NoChain<K(!new), W(!new)>(core: Core<K, W>, k: K)
    ensures Chain(core, k, [])
  {
  }

  lemma FoldStep<K(!new), W(!new)>(core: Core<K, W>, k: K, acked: seq<Prepared<K, W>>, s: Status<K, W>, e: Event<K, W>)
    requires Chain(core, k, acked) && s.k == Final(k, acked) && Shaped(core, s) && Next(core, s, e).Some?
    ensures e.Ack? ==> s.work != []
    ensures var more := acked + (if e.Ack? && s.work[0].Commit? then [s.work[0].prepared] else []);
            Chain(core, k, more) && Next(core, s, e).value.k == Final(k, more) && Shaped(core, Next(core, s, e).value)
  {
    hide Shaped, Chain, Derives, Prepares, IsBarrier, Dos, Posts, Commits;
    NextShaped(core, s, e);
    if e.Ack? && s.work[0].Commit? {
      ChainSnoc(core, k, acked, s.work[0].prepared);
    } else {
      assert acked + [] == acked;
    }
  }

  /** Every read is answered from the sequential application of exactly the entries acknowledged
      before it, never from an entry that is only prepared. */
  lemma ReadsSeeAcknowledged<K(!new), W(!new)>(core: Core<K, W>, k: K, es: seq<Event<K, W>>, i: nat)
    requires Run(core, Status(k, [], false), es).Some? && i < |es| && es[i].Reads?
    ensures var start: Status<K, W> := Status(k, [], false);
            Run(core, start, es[..i]).Some? && Chain(core, k, Acked(core, start, es[..i])) &&
            ReadFrom(core, Final(k, Acked(core, start, es[..i])), es[i].outs)
  {
    hide Next, Chain, ReadFrom, Acked;
    var start: Status<K, W> := Status(k, [], false);
    RunStep(core, start, es, i);
    AwaitingOnlyReads(core, Run(core, start, es[..i]).value, es[i]);
    PublishedIsFold(core, k, es[..i]);
  }

  // ------------------------------------------------------------------
  // Canonical order
  // ------------------------------------------------------------------

  /** The whole order a list of effects stands for, given how its groups were prepared: a group's
      entries one by one, then what they cause, then the rest. */
  function Canonical<K, W>(effects: seq<Effect>, groups: seq<seq<Prepared<K, W>>>): seq<Item<K, W>>
    decreases |groups|, |effects|
  {
    if effects == [] then []
    else if !effects[0].Apply? then [Do(effects[0])] + Canonical(effects[1..], groups)
    else if groups == [] then Dos(effects)
    else Commits(groups[0]) + Canonical(Posts(groups[0]) + effects[1..], groups[1..])
  }

  /** The groups prepared, in order. */
  function Groups<K, W>(es: seq<Event<K, W>>): seq<seq<Prepared<K, W>>> {
    if es == [] then []
    else Groups(es[..|es| - 1]) + (if es[|es| - 1].Expanded? then [es[|es| - 1].prepared] else [])
  }

  /** The items completed: plain effects out, barriers acknowledged. */
  ghost function Completed<K(!new), W(!new)>(core: Core<K, W>, s: Status<K, W>, es: seq<Event<K, W>>): seq<Item<K, W>>
    requires Run(core, s, es).Some?
  {
    if es == [] then []
    else
      var front, e := es[..|es| - 1], es[|es| - 1];
      Completed(core, s, front) + (if e.Observed? || e.Ack? then [Run(core, s, front).value.work[0]] else [])
  }

  /** No new list, failure or error: the events belong to one activation. */
  predicate OneActivation<K, W>(es: seq<Event<K, W>>) {
    forall i | 0 <= i < |es| :: !es[i].Supply? && !es[i].Fail? && !es[i].Abort?
  }

  /** A list without a further prepared group is taken as it stands. */
  lemma {:induction false} CanonicalPlain<K, W>(effects: seq<Effect>)
    ensures Canonical<K, W>(effects, []) == Dos(effects)
    decreases |effects|
  {
    if effects != [] && !effects[0].Apply? {
      CanonicalPlain<K, W>(effects[1..]);
      assert Dos<K, W>(effects) == [Do(effects[0])] + Dos(effects[1..]);
    }
  }

  lemma Splits<T>(a: seq<T>, b: seq<T>, c: seq<T>, d: seq<T>)
    requires a + b == c + d && |a| <= |c|
    ensures c == a + c[|a|..] && b == c[|a|..] + d
  {
    assert forall i | 0 <= i < |a| :: a[i] == (a + b)[i] == c[i];
    assert forall i | 0 <= i < |b| :: b[i] == (a + b)[|a| + i] == (c + d)[|a| + i];
  }

  /** Preparing the group at the front of what remains expands the canonical order in place. */
  lemma {:induction false} CanonicalExpands<K, W>(effects: seq<Effect>, groups: seq<seq<Prepared<K, W>>>, done: seq<Item<K, W>>,
                                                  group: seq<Entry>, rest: seq<Item<K, W>>, ps: seq<Prepared<K, W>>)
    requires Canonical(effects, groups) == done + ([Do(Apply(group))] + rest)
    requires Unexpanded(done)
    ensures Canonical(effects, groups + [ps]) == done + (Commits(ps) + Dos(Posts(ps)) + rest)
    decreases |groups|, |effects|
  {
    var head: Item<K, W> := Do(Apply(group));
    if effects == [] {
    } else if !effects[0].Apply? {
      var inner := Canonical(effects[1..], groups);
      assert (done + ([head] + rest))[0] == Do(effects[0]);
      HeadOf(done, head, rest);
      Splits([Do(effects[0])], inner, done, [head] + rest);
      CanonicalExpands(effects[1..], groups, done[1..], group, rest, ps);
      assert done + (Commits(ps) + Dos(Posts(ps)) + rest) ==
             [Do(effects[0])] + (done[1..] + (Commits(ps) + Dos(Posts(ps)) + rest));
    } else if groups == [] {
      assert groups + [ps] == [ps];
      FirstGroup(effects, done, group, rest, ps);
    } else {
      var first := Commits(groups[0]);
      var inner := Canonical(Posts(groups[0]) + effects[1..], groups[1..]);
      var n := |first|;
      CommitsFirst(groups[0], inner, |done|);
      HeadOf(done, head, rest);
      Splits(first, inner, done, [head] + rest);
      CanonicalExpands(Posts(groups[0]) + effects[1..], groups[1..], done[n..], group, rest, ps);
      assert (groups + [ps])[0] == groups[0] && (groups + [ps])[1..] == groups[1..] + [ps];
      assert done + (Commits(ps) + Dos(Posts(ps)) + rest) == first + (done[n..] + (Commits(ps) + Dos(Posts(ps)) + rest));
    }
  }

  lemma FirstGroup<K, W>(effects: seq<Effect>, done: seq<Item<K, W>>, group: seq<Entry>, rest: seq<Item<K, W>>, ps: seq<Prepared<K, W>>)
    requires effects != [] && effects[0].Apply? && Unexpanded(done)
    requires Dos<K, W>(effects) == done + ([Do(Apply(group))] + rest)
    ensures Canonical(effects, [ps]) == done + (Commits(ps) + Dos(Posts(ps)) + rest)
  {
    hide Posts;
    HeadOf(done, Do(Apply(group)), rest);
    assert Dos<K, W>(effects)[0] == Do(effects[0]);
    assert rest == Dos<K, W>(effects)[1..] == Dos(effects[1..]);
    assert [ps][1..] == [];
    CanonicalPlain<K, W>(Posts(ps) + effects[1..]);
    assert Dos<K, W>(Posts(ps) + effects[1..]) == Dos(Posts(ps)) + Dos(effects[1..]);
  }

  lemma HeadOf<K, W>(done: seq<Item<K, W>>, head: Item<K, W>, rest: seq<Item<K, W>>)
    ensures (done + ([head] + rest))[|done|] == head
    ensures (done + ([head] + rest))[0] == if done == [] then head else done[0]
  {
  }

  lemma CommitsFirst<K, W>(ps: seq<Prepared<K, W>>, rest: seq<Item<K, W>>, i: nat)
    requires i < |Commits(ps) + rest|
    ensures i < |ps| ==> (Commits(ps) + rest)[i].Commit?
  {
  }

  ghost predicate Unexpanded<K, W>(done: seq<Item<K, W>>) {
    forall i | 0 <= i < |done| :: !(done[i].Do? && done[i].effect.Apply?)
  }

  /** Canonical order.  From the moment a list is supplied, what has been completed followed by what
      is left is exactly the list's canonical order: nothing is lost, repeated or overtaken. */
  lemma {:induction false} CanonicalOrder<K(!new), W(!new)>(core: Core<K, W>, k: K, effects: seq<Effect>, es: seq<Event<K, W>>)
    requires OneActivation(es) && Run(core, Status(k, Dos(effects), false), es).Some?
    ensures var start := Status(k, Dos(effects), false);
            Completed(core, start, es) + Run(core, start, es).value.work == Canonical(effects, Groups(es)) &&
            Unexpanded(Completed(core, start, es))
    decreases |es|
  {
    hide Prepares, Canonical, Commits, Dos, Posts;
    var start: Status<K, W> := Status(k, Dos(effects), false);
    if es == [] {
      CanonicalPlain<K, W>(effects);
    } else {
      var front, e := es[..|es| - 1], es[|es| - 1];
      CanonicalOrder(core, k, effects, front);
      var before := Run(core, start, front).value;
      var done := Completed(core, start, front);
      if e.Expanded? {
        assert before.work == [before.work[0]] + before.work[1..];
        CanonicalExpands(effects, Groups(front), done, e.group, before.work[1..], e.prepared);
        assert Completed(core, start, es) == done;
      } else if e.Ack? || e.Observed? {
        AwaitingIsBarrier(core, start, front);
        assert done + before.work == done + [before.work[0]] + before.work[1..];
        assert Groups(es) == Groups(front);
      } else {
        assert Groups(es) == Groups(front) && Completed(core, start, es) == done;
      }
    }
  }

  /** Only barriers wait. */
  lemma {:induction false} AwaitingIsBarrier<K(!new), W(!new)>(core: Core<K, W>, s: Status<K, W>, es: seq<Event<K, W>>)
    requires Run(core, s, es).Some? && !s.awaiting
    ensures var t := Run(core, s, es).value; t.awaiting ==> t.work != [] && IsBarrier(t.work[0])
    decreases |es|
  {
    hide Prepares;
    if es != [] {
      AwaitingIsBarrier(core, s, es[..|es| - 1]);
    }
  }

  // ------------------------------------------------------------------
  // After a failed completion
  // ------------------------------------------------------------------

  /** A status with nothing to do stays as it is until a list is supplied. */
  lemma IdleStep<K(!new), W(!new)>(core: Core<K, W>, s: Status<K, W>, e: Event<K, W>)
    requires s.work == [] && !s.awaiting && !e.Supply? && Next(core, s, e).Some?
    ensures Next(core, s, e).value == s && (e.Upkeep? || e.Reads? || e.Abort?)
  {
    hide Prepares, ReadFrom;
  }

  /** Once a completion fails, nothing of the interrupted list happens.  The failed record's entry is
      not published: until consensus supplies a new list there are only errors, upkeep and reads, published
      state is what it was before the failure, and no further entry counts as acknowledged. */
  lemma {:induction false} FailureStops<K(!new), W(!new)>(core: Core<K, W>, s: Status<K, W>, es: seq<Event<K, W>>, i: nat, j: nat)
    requires Run(core, s, es).Some? && i < j <= |es| && es[i].Fail?
    requires forall m | i < m < j :: !es[m].Supply?
    ensures Run(core, s, es[..i]).Some? && Run(core, s, es[..i]).value.awaiting
    ensures Run(core, s, es[..j]) == Some(Status(Run(core, s, es[..i]).value.k, [], false))
    ensures Acked(core, s, es[..j]) == Acked(core, s, es[..i])
    ensures forall m | i < m < j :: es[m].Upkeep? || es[m].Reads? || es[m].Abort?
    decreases j
  {
    hide Next, Run, Acked;
    RunStep(core, s, es, j - 1);
    QuietStep(core, s, es, j - 1);
    if i + 1 < j {
      FailureStops(core, s, es, i, j - 1);
      IdleStep(core, Run(core, s, es[..j - 1]).value, es[j - 1]);
    } else {
      FailStep(core, Run(core, s, es[..i]).value);
    }
  }

  /** Only an acknowledgement acknowledges. */
  lemma QuietStep<K(!new), W(!new)>(core: Core<K, W>, s: Status<K, W>, es: seq<Event<K, W>>, n: nat)
    requires n < |es| && Run(core, s, es[..n]).Some? && Run(core, s, es[..n + 1]).Some?
    ensures !es[n].Ack? ==> Acked(core, s, es[..n + 1]) == Acked(core, s, es[..n])
  {
    hide Next;
    assert es[..n + 1][..n] == es[..n];
  }

  lemma FailStep<K(!new), W(!new)>(core: Core<K, W>, s: Status<K, W>)
    requires Next(core, s, Fail).Some?
    ensures s.awaiting && Next(core, s, Fail).value == Status(s.k, [], false)
  {
  }

  // ------------------------------------------------------------------
  // What brings events about
  // ------------------------------------------------------------------

  /** What a cause makes consensus hand over. */
  function Handed<K, W>(core: Core<K, W>, w: W, k: K, cause: Cause): Option<(W, seq<Effect>)> {
    match cause
    case ByMessage(payload) => core.accept(w, k, payload)
    case ByTick(now) => Some(core.tick(w, k, now))
    case BySweep(now) =>
      var due := core.sweep(w, k, now);
      if due.Some? then due.value else None
  }

  /** A group applied entry after entry, each to the state and context the previous one led to. */
  function PrepareAll<K, W>(core: Core<K, W>, k: K, w: W, group: seq<Entry>): Option<seq<Prepared<K, W>>>
    decreases |group|
  {
    if group == [] then Some([])
    else
      var p :- core.prepare(k, w, group[0]);
      var ps :- PrepareAll(core, p.k, p.w, group[1..]);
      Some([p] + ps)
  }

  function FinalContext<K, W>(w: W, ps: seq<Prepared<K, W>>): W {
    if ps == [] then w else ps[|ps| - 1].w
  }

  /** The entries before this one can be applied, and this one cannot be applied to what they led to. */
  predicate RefusedAt<K, W>(core: Core<K, W>, k: K, w: W, group: seq<Entry>, i: nat) {
    i < |group| &&
    var ps := PrepareAll(core, k, w, group[..i]);
    ps.Some? && core.prepare(Final(k, ps.value), FinalContext(w, ps.value), group[i]).None?
  }

  /** A group is refused exactly when one of its entries is. */
  lemma {:induction false} RefusedExactly<K, W>(core: Core<K, W>, k: K, w: W, group: seq<Entry>)
    ensures PrepareAll(core, k, w, group).None? <==> exists i :: RefusedAt(core, k, w, group, i)
    decreases |group|
  {
    if group != [] {
      assert group[..0] == [];
      var p := core.prepare(k, w, group[0]);
      if p.None? {
        assert RefusedAt(core, k, w, group, 0);
      } else {
        RefusedExactly(core, p.value.k, p.value.w, group[1..]);
        forall i: nat | i < |group| - 1
          ensures RefusedAt(core, k, w, group, i + 1) <==> RefusedAt(core, p.value.k, p.value.w, group[1..], i)
        {
          assert group[..i + 1][1..] == group[1..][..i];
        }
        if exists i :: RefusedAt(core, p.value.k, p.value.w, group[1..], i) {
          var i: nat :| RefusedAt(core, p.value.k, p.value.w, group[1..], i);
          assert RefusedAt(core, k, w, group, i + 1);
        }
        if exists i :: RefusedAt(core, k, w, group, i) {
          var i: nat :| RefusedAt(core, k, w, group, i);
          assert group[..i] == [] ==> PrepareAll(core, k, w, group[..i]) == Some([]);
          if i > 0 {
            assert RefusedAt(core, p.value.k, p.value.w, group[1..], i - 1);
          }
        }
      }
    }
  }

  /** The head of the work cannot be done. */
  predicate Stuck<K, W>(core: Core<K, W>, s: Status<K, W>, w: W) {
    s.work != [] && s.work[0].Do? &&
    match s.work[0].effect
    case Plain(payload) => core.observe(w, s.k, payload).None?
    case Apply(group) => PrepareAll(core, s.k, w, group).None?
    case _ => false
  }

  /** The volatile state after an event that the node's own parts, in the volatile state before, bring
      about; none for an event they do not. */
  ghost function Absorb<K(!new), W(!new)>(core: Core<K, W>, s: Status<K, W>, w: W, e: Event<K, W>): Option<W> {
    match e
    case Supply(cause, effects) =>
      var (v, asked) :- Handed(core, w, s.k, cause);
      if asked == effects then Some(v) else None
    case Upkeep(Shed) => Some(core.shed(w))
    case Upkeep(Rescan) => Some(core.rescan(w, s.k))
    case Upkeep(NoSweep(now)) => if core.sweep(w, s.k, now) == Some(None) then Some(w) else None
    case Upkeep(Settle) => Some(core.settle(w))
    case Observed(payload, outs) =>
      var (v, sent) :- core.observe(w, s.k, payload);
      if sent == outs then Some(v) else None
    case Expanded(group, ps) => if PrepareAll(core, s.k, w, group) == Some(ps) then Some(w) else None
    case Barrier(item) => Some(if item.Do? && item.effect.TruncateSuffix? then core.truncate(w, item.effect.index) else w)
    case Ack(_) => Some(if s.work != [] && s.work[0].Commit? then core.publish(w, s.work[0].prepared) else w)
    case Fail => Some(w)
    case Reads(outs) =>
      var (v, told) := core.drain(w, s.k);
      if told == outs then Some(v) else None
    case Abort => if Stuck(core, s, w) then Some(w) else None
  }

  /** The volatile state after a run, when every event of it was brought about by the node's own parts. */
  ghost function VolatileAfter<K(!new), W(!new)>(core: Core<K, W>, s: Status<K, W>, w: W, es: seq<Event<K, W>>): Option<W> {
    if es == [] then Some(w)
    else
      var before :- Run(core, s, es[..|es| - 1]);
      var v :- VolatileAfter(core, s, w, es[..|es| - 1]);
      Absorb(core, before, v, es[|es| - 1])
  }

  lemma VolatileSnoc<K(!new), W(!new)>(core: Core<K, W>, s: Status<K, W>, w: W, es: seq<Event<K, W>>, e: Event<K, W>)
    requires Run(core, s, es).Some? && VolatileAfter(core, s, w, es).Some?
    ensures VolatileAfter(core, s, w, es + [e]) == Absorb(core, Run(core, s, es).value, VolatileAfter(core, s, w, es).value, e)
  {
    assert (es + [e])[..|es|] == es;
  }

  /** Every list taken up in such a run is exactly what its cause made consensus hand over, in the volatile
      and published state of that moment. */
  lemma {:induction false} SuppliedAsAsked<K(!new), W(!new)>(core: Core<K, W>, s: Status<K, W>, w: W, es: seq<Event<K, W>>, i: nat) returns (v: W)
    requires Run(core, s, es).Some? && VolatileAfter(core, s, w, es).Some? && i < |es| && es[i].Supply?
    ensures Run(core, s, es[..i]).Some? && VolatileAfter(core, s, w, es[..i]) == Some(v)
    ensures Handed(core, v, Run(core, s, es[..i]).value.k, es[i].cause).Some?
    ensures Handed(core, v, Run(core, s, es[..i]).value.k, es[i].cause).value.1 == es[i].effects
    decreases |es|
  {
    hide Next, Handed;
    if i == |es| - 1 {
      v := VolatileAfter(core, s, w, es[..i]).value;
    } else {
      v := SuppliedAsAsked(core, s, w, es[..|es| - 1], i);
      assert es[..|es| - 1][..i] == es[..i];
    }
  }

  // ------------------------------------------------------------------
  // What the host sees
  // ------------------------------------------------------------------

  datatype Out =
    | Sent(payload: Bytes) | HardState(state: Bytes) | Appended(entries: seq<Entry>) | Truncated(index: u64)
    | StoreRecord(frame: Bytes) | Reply(reply: Bytes) | ReadReply(reply: Bytes)

  function Sends(outs: seq<Bytes>): seq<Out> {
    seq(|outs|, i requires 0 <= i < |outs| => Sent(outs[i]))
  }

  function ReadReplies(outs: seq<Bytes>): seq<Out> {
    seq(|outs|, i requires 0 <= i < |outs| => ReadReply(outs[i]))
  }

  function BarrierOut<K, W>(item: Item<K, W>): seq<Out> {
    match item
    case Commit(p) => [StoreRecord(p.frame)]
    case Do(PersistHard(h)) => [HardState(h)]
    case Do(PersistEntries(es)) => [Appended(es)]
    case Do(TruncateSuffix(i)) => [Truncated(i)]
    case _ => []
  }

  /** What an event hands to the host, if the call it belongs to returns without an error. */
  function OutOf<K, W>(e: Event<K, W>): seq<Out> {
    match e
    case Observed(_, outs) => Sends(outs)
    case Barrier(item) => BarrierOut(item)
    case Ack(Some(reply)) => [Reply(reply)]
    case Reads(outs) => ReadReplies(outs)
    case _ => []
  }

  function Outs<K, W>(es: seq<Event<K, W>>): seq<Out> {
    if es == [] then [] else Outs(es[..|es| - 1]) + OutOf(es[|es| - 1])
  }

  lemma OutsSnoc<K, W>(es: seq<Event<K, W>>, e: Event<K, W>)
    ensures Outs(es + [e]) == Outs(es) + OutOf(e)
  {
    assert (es + [e])[..|es|] == es;
  }
}
