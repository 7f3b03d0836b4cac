/** The node as an object: it maps consensus effects to host effects, stops at every barrier with
    a continuation, and publishes an applied entry only when its store record is acknowledged.

    Each node keeps, for the proof, the sequence of protocol events it has gone through; every
    operation is shown to extend it by the rules of `Durability`. */
module Node {
  import opened Prelude
  import opened Durability

  /** What is left to do once the outstanding barrier is durable. */
  datatype Continuation<K, W> =
    | Raft(effects: seq<Effect>)
    | Store(current: Prepared<K, W>, pending: seq<Prepared<K, W>>, deferred: seq<Effect>, remaining: seq<Effect>)

  datatype Input = Persisted(success: bool) | Tick(now: u64) | Message(payload: Bytes)

  datatype Result = Outputs(outs: seq<Out>) | PersistencePending | UnexpectedCompletion | DurabilityFailure | Refused

  ghost function WorkOf<K(!new), W(!new)>(c: Continuation<K, W>, barrier: Effect): seq<Item<K, W>> {
    match c
    case Raft(effects) => [Do(barrier)] + Dos(effects)
    case Store(current, pending, deferred, remaining) =>
      Commits([current] + pending) + Dos(deferred + Posts([current] + pending) + remaining)
  }

  /** Preparation answers for the entry it was asked about. */
  ghost predicate Sound<K(!new), W(!new)>(core: Core<K, W>) {
    forall k, w, e | core.prepare(k, w, e).Some? :: core.prepare(k, w, e).value.entry == e
  }

  lemma StoreWork<K(!new), W(!new)>(ps: seq<Prepared<K, W>>, remaining: seq<Effect>, barrier: Effect)
    requires ps != []
    ensures Commits(ps) + Dos(Posts(ps)) + Dos(remaining) == WorkOf(Store(ps[0], ps[1..], [], remaining), barrier)
  {
    hide Posts, Dos, Commits;
    assert [ps[0]] + ps[1..] == ps;
    assert [] + Posts(ps) + remaining == Posts(ps) + remaining;
    DosConcat<K, W>(Posts(ps), remaining);
    assert Commits(ps) + Dos(Posts(ps)) + Dos(remaining) == Commits(ps) + (Dos(Posts(ps)) + Dos(remaining));
  }

  /** Finishing one entry of a group leaves the same work, whether more entries follow or not. */
  lemma StoreAdvances<K(!new), W(!new)>(c: Continuation<K, W>, barrier: Effect)
    requires c.Store?
    ensures WorkOf(c, barrier) != [] && WorkOf(c, barrier)[0] == Commit(c.current)
    ensures var deferred := c.deferred + c.current.post;
            WorkOf(c, barrier)[1..] ==
            if c.pending == [] then Dos(deferred + c.remaining)
            else WorkOf(Store(c.pending[0], c.pending[1..], deferred, c.remaining), barrier)
  {
    var all := [c.current] + c.pending;
    assert all[1..] == c.pending;
    var deferred := c.deferred + c.current.post;
    assert c.deferred + Posts(all) + c.remaining == deferred + Posts(c.pending) + c.remaining;
    hide Posts;
    assert WorkOf(c, barrier)[1..] == Commits(c.pending) + Dos(deferred + Posts(c.pending) + c.remaining);
    if c.pending == [] {
      assert Posts(c.pending) == [] by { NoPosts<K, W>(); }
      assert deferred + [] + c.remaining == deferred + c.remaining;
    } else {
      assert [c.pending[0]] + c.pending[1..] == c.pending;
    }
  }

  lemma NoPosts<K, W>()
    ensures Posts<K, W>([]) == []
  {
  }

  // ------------------------------------------------------------------
  // The shape of a call
  // ------------------------------------------------------------------

  /** Effects taken up one by one. */
  ghost predicate Taken<K, W>(es: seq<Event<K, W>>, from: nat, to: nat)
    requires to <= |es|
  {
    forall i | from <= i < to :: es[i].Observed? || es[i].Expanded? || es[i].Barrier?
  }

  /** One list: routes are shed, effects are taken up, and the reads that are due are answered. */
  ghost predicate Activation<K(!new), W(!new)>(before: seq<Event<K, W>>, after: seq<Event<K, W>>) {
    |before| + 2 <= |after| && before < after && after[|before|] == Upkeep(Shed) && after[|after| - 1].Reads? &&
    Taken(after, |before| + 1, |after| - 1)
  }

  /** One list that an error cuts short. */
  ghost predicate Cut<K(!new), W(!new)>(before: seq<Event<K, W>>, after: seq<Event<K, W>>) {
    |before| + 2 <= |after| && before < after && after[|before|] == Upkeep(Shed) && after[|after| - 1].Abort? &&
    Taken(after, |before| + 1, |after| - 1)
  }

  /** A message: its list is supplied, taken up, and the call is closed. */
  ghost predicate MessageCall<K(!new), W(!new)>(before: seq<Event<K, W>>, after: seq<Event<K, W>>, payload: Bytes, effects: seq<Effect>) {
    |after| > |before| && after[|after| - 1] == Upkeep(Settle) &&
    Activation(before + [Supply(ByMessage(payload), effects)], after[..|after| - 1])
  }

  /** A completion: it is taken note of; then either the next entry of the group goes to the store, or the
      work behind it is taken up. */
  ghost predicate CompletionCall<K(!new), W(!new)>(before: seq<Event<K, W>>, after: seq<Event<K, W>>) {
    |after| > |before| + 1 && before < after && after[|before|].Ack? && after[|after| - 1] == Upkeep(Settle) &&
    (Activation(before + [after[|before|]], after[..|after| - 1]) ||
     (|after| == |before| + 3 && after[|before| + 1].Barrier? && after[|before| + 1].item.Commit?))
  }

  /** What follows the rescan of a tick: nothing while a barrier waits, else a sweep or the finding that
      none is due. */
  ghost predicate SweepPart<K(!new), W(!new)>(core: Core<K, W>, start: Status<K, W>, before: seq<Event<K, W>>, after: seq<Event<K, W>>, now: u64) {
    if Run(core, start, before).Some? && Run(core, start, before).value.awaiting then after == before
    else
      after == before + [Upkeep(NoSweep(now))] ||
      (|after| > |before| && after[|before|].Supply? && after[|before|].cause == BySweep(now) &&
       Activation(before + [after[|before|]], after))
  }

  /** A tick: consensus's list, a rescan, and the sweep if one is due. */
  ghost predicate TickCall<K(!new), W(!new)>(core: Core<K, W>, start: Status<K, W>, before: seq<Event<K, W>>, after: seq<Event<K, W>>,
                                             now: u64, effects: seq<Effect>, middle: seq<Event<K, W>>)
  {
    Activation(before + [Supply(ByTick(now), effects)], middle) && |after| > |middle| + 1 && after[|after| - 1] == Upkeep(Settle) &&
    SweepPart(core, start, middle + [Upkeep(Rescan)], after[..|after| - 1], now)
  }

  class Node<K(!new), W(!new)> {
    const core: Core<K, W>
    ghost const origin: K
    ghost const context: W
    var published: K
    var volatile: W
    var continuation: Option<Continuation<K, W>>
    ghost var barrier: Effect
    ghost var events: seq<Event<K, W>>

    ghost function Start(): Status<K, W> {
      Status(origin, [], false)
    }

    /** The events so far follow the protocol, were brought about by the node's own parts, and lead here. */
    ghost predicate At(k: K, w: W, work: seq<Item<K, W>>, awaiting: bool)
      reads this
    {
      Run(core, Start(), events) == Some(Status(k, work, awaiting)) && VolatileAfter(core, Start(), context, events) == Some(w)
    }

    ghost predicate Valid()
      reads this
    {
      Sound(core) &&
      At(published, volatile, if continuation.None? then [] else WorkOf(continuation.value, barrier), continuation.Some?)
    }

    constructor (core: Core<K, W>, published: K, volatile: W)
      requires Sound(core)
      ensures Valid() && this.core == core && origin == published && this.published == published && this.volatile == volatile
      ensures context == volatile && continuation.None? && events == []
    {
      this.core, this.published, this.volatile := core, published, volatile;
      origin, context := published, volatile;
      continuation := None;
      barrier := Plain([]);
      events := [];
    }

    /** Take one protocol step. */
    ghost method Record(e: Event<K, W>, s: Status<K, W>, w: W, next: Status<K, W>, v: W)
      requires At(s.k, w, s.work, s.awaiting) && Next(core, s, e) == Some(next) && Absorb(core, s, w, e) == Some(v)
      modifies `events
      ensures events == old(events) + [e] && Outs(events) == Outs(old(events)) + OutOf(e)
      ensures At(next.k, v, next.work, next.awaiting)
    {
      RunSnoc(core, Start(), events, e);
      VolatileSnoc(core, Start(), context, events, e);
      OutsSnoc(events, e);
      events := events + [e];
    }

    ghost method RecordSupply(cause: Cause, effects: seq<Effect>, v: W)
      requires At(published, volatile, [], false) && Handed(core, volatile, published, cause) == Some((v, effects))
      modifies `events
      ensures events == old(events) + [Supply(cause, effects)] && Outs(events) == Outs(old(events))
      ensures At(published, v, Dos(effects), false)
    {
      hide Run, Outs, Dos, VolatileAfter;
      var s: Status<K, W> := Status(published, [], false);
      Record(Supply(cause, effects), s, volatile, s.(work := Dos(effects)), v);
      assert Outs(old(events)) + [] == Outs(old(events));
    }

    /** Tidying changes volatile state alone. */
    ghost method RecordUpkeep(chore: Chore, k: K, w: W, work: seq<Item<K, W>>, awaiting: bool, v: W)
      requires At(k, w, work, awaiting) && Absorb(core, Status(k, work, awaiting), w, Upkeep(chore)) == Some(v)
      modifies `events
      ensures events == old(events) + [Upkeep(chore)] && Outs(events) == Outs(old(events)) && At(k, v, work, awaiting)
    {
      hide Run, Outs, VolatileAfter;
      Record(Upkeep(chore), Status(k, work, awaiting), w, Status(k, work, awaiting), v);
      assert Outs(old(events)) + [] == Outs(old(events));
    }

    ghost method RecordReads(k: K, w: W, work: seq<Item<K, W>>, awaiting: bool)
      requires At(k, w, work, awaiting)
      modifies `events
      ensures var (v, outs) := core.drain(w, k);
              events == old(events) + [Reads(outs)] && Outs(events) == Outs(old(events)) + ReadReplies(outs) && At(k, v, work, awaiting)
    {
      hide Run, Outs, VolatileAfter;
      var (v, outs) := core.drain(w, k);
      assert ReadFrom(core, k, outs);
      Record(Reads(outs), Status(k, work, awaiting), w, Status(k, work, awaiting), v);
    }

    ghost method RecordBarrier(work: seq<Item<K, W>>, v: W)
      requires work != [] && IsBarrier(work[0]) && At(published, volatile, work, false)
      requires v == if work[0].Do? && work[0].effect.TruncateSuffix? then core.truncate(volatile, work[0].effect.index) else volatile
      modifies `events
      ensures events == old(events) + [Barrier(work[0])] && Outs(events) == Outs(old(events)) + BarrierOut(work[0])
      ensures At(published, v, work, true)
    {
      hide Run, Outs, VolatileAfter;
      Record(Barrier(work[0]), Status(published, work, false), volatile, Status(published, work, true), v);
    }

    /** An acknowledgement completes the head of the work. */
    ghost method RecordAck(work: seq<Item<K, W>>, reply: Option<Bytes>)
      requires work != [] && At(published, volatile, work, true)
      requires reply == if work[0].Commit? then work[0].prepared.reply else None
      modifies `events
      ensures events == old(events) + [Ack(reply)]
      ensures Outs(events) == Outs(old(events)) + (if reply.Some? then [Reply(reply.value)] else [])
      ensures At(if work[0].Commit? then work[0].prepared.k else published,
                 if work[0].Commit? then core.publish(volatile, work[0].prepared) else volatile, work[1..], false)
    {
      hide Run, Outs, VolatileAfter;
      Record(Ack(reply), Status(published, work, true), volatile,
             Status(if work[0].Commit? then work[0].prepared.k else published, work[1..], false),
             if work[0].Commit? then core.publish(volatile, work[0].prepared) else volatile);
    }

    ghost method RecordFail(work: seq<Item<K, W>>)
      requires At(published, volatile, work, true)
      modifies `events
      ensures events == old(events) + [Fail] && At(published, volatile, [], false)
    {
      hide Run, Outs, VolatileAfter;
      Record(Fail, Status(published, work, true), volatile, Status(published, [], false), volatile);
    }

    ghost method RecordAbort(work: seq<Item<K, W>>)
      requires At(published, volatile, work, false) && Stuck(core, Status(published, work, false), volatile)
      modifies `events
      ensures events == old(events) + [Abort] && At(published, volatile, [], false)
    {
      hide Run, Outs, VolatileAfter, Stuck;
      Record(Abort, Status(published, work, false), volatile, Status(published, [], false), volatile);
    }

    /** Apply a committed group tentatively, entry after entry; there is no result exactly when some entry
        cannot be applied to what the ones before it led to. */
    method PrepareCommitted(group: seq<Entry>) returns (prepared: Option<seq<Prepared<K, W>>>)
      requires Sound(core)
      ensures prepared == PrepareAll(core, published, volatile, group)
      ensures prepared.Some? ==> Prepares(core, published, group, prepared.value)
    {
      hide Chain, Derives;
      var k, w := published, volatile;
      var ps: seq<Prepared<K, W>> := [];
      NoChain(core, published);
      assert group[0..] == group;
      assert forall rest: seq<Prepared<K, W>> {:trigger ps + rest} :: ps + rest == rest;
      for i := 0 to |group|
        invariant |ps| == i && (forall j | 0 <= j < i :: ps[j].entry == group[j])
        invariant Chain(core, published, ps) && k == Final(published, ps)
        invariant PrepareAll(core, published, volatile, group) ==
                  var rest := PrepareAll(core, k, w, group[i..]); if rest.None? then None else Some(ps + rest.value)
      {
        assert group[i..][1..] == group[i + 1..];
        var p := core.prepare(k, w, group[i]);
        if p.None? {
          return None;
        }
        DerivedNow(core, k, w, group[i]);
        ChainSnoc(core, published, ps, p.value);
        PrependPrepared(core, k, w, group[i..], ps);
        ps := ps + [p.value];
        k, w := p.value.k, p.value.w;
      }
      assert group[|group|..] == [] && ps + [] == ps;
      return Some(ps);
    }

    /** Let one effect out.  A barrier leaves the rest as a continuation; an error drops it. */
    method LetOut(effect: Effect, rest: seq<Effect>) returns (result: Option<seq<Out>>)
      requires Sound(core) && continuation.None? && At(published, volatile, [Do(effect)] + Dos(rest), false)
      modifies this
      ensures published == old(published) && old(events) < events
      ensures result.None? ==>
                continuation.None? && At(published, volatile, [], false) && events == old(events) + [Abort]
      ensures result.Some? ==>
                Taken(events, |old(events)|, |events|) && Outs(events) == Outs(old(events)) + result.value &&
                At(published, volatile, if continuation.None? then Dos(rest) else WorkOf(continuation.value, barrier), continuation.Some?)
    {
      hide Run, Outs, Posts, Commits, Dos, Chain, VolatileAfter, PrepareAll;
      ghost var work := [Do(effect)] + Dos<K, W>(rest);
      assert work[1..] == Dos(rest);
      if effect.Plain? {
        var seen := core.observe(volatile, published, effect.payload);
        if seen.None? {
          RecordAbort(work);
          return None;
        }
        assert SentFrom(core, published, effect.payload, seen.value.1);
        Record(Observed(effect.payload, seen.value.1), Status(published, work, false), volatile,
               Status(published, Dos(rest), false), seen.value.0);
        volatile := seen.value.0;
        return Some(Sends(seen.value.1));
      }
      if effect.Apply? {
        var prepared := PrepareCommitted(effect.group);
        if prepared.None? {
          RecordAbort(work);
          return None;
        }
        result := BeginGroup(effect.group, prepared.value, rest);
        return;
      }
      ghost var cleared := if effect.TruncateSuffix? then core.truncate(volatile, effect.index) else volatile;
      RecordBarrier(work, cleared);
      if effect.TruncateSuffix? {
        volatile := core.truncate(volatile, effect.index);
      }
      barrier := effect;
      continuation := Some(Raft(rest));
      return Some(BarrierOut<K, W>(Do(effect)));
    }

    /** Send a prepared group's first store record, keeping the others for later. */
    method BeginGroup(group: seq<Entry>, ps: seq<Prepared<K, W>>, rest: seq<Effect>) returns (result: Option<seq<Out>>)
      requires continuation.None? && At(published, volatile, [Do(Apply(group))] + Dos(rest), false)
      requires Prepares(core, published, group, ps) && PrepareAll(core, published, volatile, group) == Some(ps)
      modifies this
      ensures published == old(published) && old(events) < events && Taken(events, |old(events)|, |events|)
      ensures result.Some? && Outs(events) == Outs(old(events)) + result.value
      ensures At(published, volatile, if continuation.None? then Dos(rest) else WorkOf(continuation.value, barrier), continuation.Some?)
    {
      hide Run, Outs, Posts, Commits, Dos, Chain, Prepares, WorkOf, VolatileAfter, PrepareAll;
      ghost var work := [Do(Apply(group))] + Dos<K, W>(rest);
      assert work[1..] == Dos(rest);
      Record(Expanded(group, ps), Status(published, work, false), volatile,
             Status(published, Commits(ps) + Dos(Posts(ps)) + Dos(rest), false), volatile);
      if ps == [] {
        EmptyGroup<K, W>(Dos(rest));
        return Some([]);
      }
      StoreWork(ps, rest, barrier);
      continuation := Some(Store(ps[0], ps[1..], [], rest));
      CommitHead(continuation.value, barrier);
      RecordBarrier(WorkOf(continuation.value, barrier), volatile);
      return Some([StoreRecord(ps[0].frame)]);
    }

    /** Shed routes, let effects out in order up to the first barrier, then answer the reads that are ready.
        An error lets nothing out and drops the rest. */
    method MapEffects(effects: seq<Effect>) returns (result: Option<seq<Out>>)
      requires Sound(core) && continuation.None? && At(published, volatile, Dos(effects), false)
      modifies this
      ensures Valid() && published == old(published)
      ensures result.Some? ==> Activation(old(events), events) && Outs(events) == Outs(old(events)) + result.value
      ensures result.None? ==> Cut(old(events), events) && continuation.None?
    {
      hide Run, Outs, Dos, WorkOf, Sound, Next, VolatileAfter;
      RecordUpkeep(Shed, published, volatile, Dos(effects), false, core.shed(volatile));
      volatile := core.shed(volatile);
      var outs: seq<Out> := [];
      var i := 0;
      assert effects[0..] == effects;
      while i < |effects| && continuation.None?
        invariant i <= |effects| && published == old(published)
        invariant old(events) + [Upkeep(Shed)] <= events && Taken(events, |old(events)| + 1, |events|)
        invariant Outs(events) == Outs(old(events)) + outs
        invariant At(published, volatile, if continuation.None? then Dos(effects[i..]) else WorkOf(continuation.value, barrier), continuation.Some?)
      {
        DosTail<K, W>(effects, i);
        var more := LetOut(effects[i], effects[i + 1..]);
        if more.None? {
          return None;
        }
        Assoc(Outs(old(events)), outs, more.value);
        outs := outs + more.value;
        i := i + 1;
      }
      if continuation.None? {
        assert effects[i..] == [];
        NoDos<K, W>();
      }
      RecordReads(published, volatile, if continuation.None? then [] else WorkOf(continuation.value, barrier), continuation.Some?);
      var (w, replies) := core.drain(volatile, published);
      volatile := w;
      Assoc(Outs(old(events)), outs, ReadReplies(replies));
      outs := outs + ReadReplies(replies);
      return Some(outs);
    }

    /** Take up the work behind an acknowledged barrier. */
    method Resume() returns (result: Option<seq<Out>>)
      requires Valid() && continuation.Some?
      modifies this
      ensures Valid()
      ensures |events| > |old(events)| && old(events) < events && events[|old(events)|].Ack?
      ensures result.Some? ==>
                Outs(events) == Outs(old(events)) + result.value &&
                (Activation(old(events) + [events[|old(events)|]], events) ||
                 (|events| == |old(events)| + 2 && events[|old(events)| + 1].Barrier? && events[|old(events)| + 1].item.Commit?))
      ensures result.None? ==> events[|events| - 1].Abort? && continuation.None?
    {
      hide Run, Outs, Dos, Sound, WorkOf, Next, VolatileAfter, Taken;
      var c := continuation.value;
      continuation := None;
      if c.Raft? {
        RaftAdvances(c, barrier);
        RecordAck(WorkOf(c, barrier), None);
        result := MapEffects(c.effects);
        return;
      }
      StoreAdvances(c, barrier);
      RecordAck(WorkOf(c, barrier), c.current.reply);
      published := c.current.k;
      volatile := core.publish(volatile, c.current);
      var outs := if c.current.reply.Some? then [Reply(c.current.reply.value)] else [];
      var deferred := c.deferred + c.current.post;
      if c.pending != [] {
        continuation := Some(Store(c.pending[0], c.pending[1..], deferred, c.remaining));
        CommitHead(continuation.value, barrier);
        RecordBarrier(WorkOf(continuation.value, barrier), volatile);
        Assoc(Outs(old(events)), outs, [StoreRecord(c.pending[0].frame)]);
        return Some(outs + [StoreRecord(c.pending[0].frame)]);
      }
      var more := MapEffects(deferred + c.remaining);
      if more.None? {
        return None;
      }
      Assoc(Outs(old(events)), outs, more.value);
      return Some(outs + more.value);
    }

    /** Close a call. */
    method Close()
      requires Valid()
      modifies this
      ensures Valid() && published == old(published) && continuation == old(continuation)
      ensures events == old(events) + [Upkeep(Settle)] && Outs(events) == Outs(old(events))
    {
      hide Run, Outs, WorkOf, Sound, Next, VolatileAfter;
      RecordUpkeep(Settle, published, volatile, if continuation.None? then [] else WorkOf(continuation.value, barrier),
                   continuation.Some?, core.settle(volatile));
      volatile := core.settle(volatile);
    }

    /** A message from a peer or a client. */
    method OnMessage(payload: Bytes) returns (result: Result)
      requires Valid() && continuation.None?
      modifies this
      ensures Valid() && (result.Outputs? || result.Refused?)
      ensures var accepted := core.accept(old(volatile), old(published), payload);
              if accepted.None? then result.Refused? && unchanged(this)
              else if result.Outputs? then
                MessageCall(old(events), events, payload, accepted.value.1) && Outs(events) == Outs(old(events)) + result.outs
              else Cut(old(events) + [Supply(ByMessage(payload), accepted.value.1)], events) && continuation.None?
    {
      hide Run, Outs, Dos, WorkOf, Sound, Next, VolatileAfter, Taken;
      var accepted := core.accept(volatile, published, payload);
      if accepted.None? {
        return Refused;
      }
      RecordSupply(ByMessage(payload), accepted.value.1, accepted.value.0);
      volatile := accepted.value.0;
      var outs := MapEffects(accepted.value.1);
      if outs.None? {
        return Refused;
      }
      ghost var done := events;
      Close();
      assert events[..|events| - 1] == done;
      return Outputs(outs.value);
    }

    /** Time passes: what consensus then wants, and a sweep of what has expired. */
    method OnTick(now: u64) returns (result: Result)
      requires Valid() && continuation.None?
      modifies this
      ensures Valid() && (result.Outputs? || result.Refused?) && old(events) < events
      ensures |events| > |old(events)| &&
              events[|old(events)|] == Supply(ByTick(now), core.tick(old(volatile), old(published), now).1)
      ensures result.Outputs? ==>
                Outs(events) == Outs(old(events)) + result.outs &&
                exists middle :: TickCall(core, Start(), old(events), events, now, core.tick(old(volatile), old(published), now).1, middle)
      ensures result.Refused? ==>
                continuation.None? &&
                (events[|events| - 1].Abort? ||
                 (events[|events| - 1] == Upkeep(Rescan) && core.sweep(volatile, published, now).None?))
    {
      hide Run, Outs, Dos, WorkOf, Sound, Next, VolatileAfter, Taken;
      var (w, effects) := core.tick(volatile, published, now);
      RecordSupply(ByTick(now), effects, w);
      volatile := w;
      var outs := MapEffects(effects);
      if outs.None? {
        return Refused;
      }
      ghost var middle := events;
      var swept := AfterTick(now);
      if swept.None? {
        return Refused;
      }
      ghost var done := events;
      Close();
      assert events[..|events| - 1] == done;
      Assoc(Outs(old(events)), outs.value, swept.value);
      assert TickCall(core, Start(), old(events), events, now, effects, middle);
      return Outputs(outs.value + swept.value);
    }

    /** Look for sweeps under way, and begin one that is due unless a barrier waits. */
    method AfterTick(now: u64) returns (result: Option<seq<Out>>)
      requires Valid()
      modifies this
      ensures Valid() && old(events) < events
      ensures result.Some? ==>
                SweepPart(core, Start(), old(events) + [Upkeep(Rescan)], events, now) && Outs(events) == Outs(old(events)) + result.value
      ensures result.None? ==>
                continuation.None? &&
                (events[|events| - 1].Abort? ||
                 (events[|events| - 1] == Upkeep(Rescan) && core.sweep(volatile, published, now).None?))
    {
      hide Run, Outs, Dos, WorkOf, Sound, Next, VolatileAfter, Taken;
      RecordUpkeep(Rescan, published, volatile, if continuation.None? then [] else WorkOf(continuation.value, barrier),
                   continuation.Some?, core.rescan(volatile, published));
      volatile := core.rescan(volatile, published);
      assert Outs(events) + [] == Outs(events);
      if continuation.Some? {
        return Some([]);
      }
      var sweep := core.sweep(volatile, published, now);
      if sweep.None? {
        return None;
      }
      if sweep.value.None? {
        RecordUpkeep(NoSweep(now), published, volatile, [], false, volatile);
        return Some([]);
      }
      RecordSupply(BySweep(now), sweep.value.value.1, sweep.value.value.0);
      volatile := sweep.value.value.0;
      result := MapEffects(sweep.value.value.1);
    }

    /** The entry point.  While a barrier is outstanding only its completion is accepted; a failed
        completion drops everything behind it.  Otherwise the call has the shape its input calls for. */
    method OnInput(input: Input) returns (result: Result)
      requires Valid()
      modifies this
      ensures Valid()
      ensures old(events) <= events
      ensures result.PersistencePending? <==> old(continuation).Some? && !input.Persisted?
      ensures result.UnexpectedCompletion? <==> old(continuation).None? && input.Persisted?
      ensures result.DurabilityFailure? <==> old(continuation).Some? && input == Persisted(false)
      ensures result.PersistencePending? || result.UnexpectedCompletion? ==> unchanged(this)
      ensures result.DurabilityFailure? ==>
                events == old(events) + [Fail] && published == old(published) && volatile == old(volatile) && continuation.None?
      ensures result.Outputs? ==> Outs(events) == Outs(old(events)) + result.outs
      ensures result.Outputs? ==>
                match input
                case Persisted(_) => CompletionCall(old(events), events)
                case Message(payload) =>
                  var accepted := core.accept(old(volatile), old(published), payload);
                  accepted.Some? && MessageCall(old(events), events, payload, accepted.value.1)
                case Tick(now) =>
                  exists middle :: TickCall(core, Start(), old(events), events, now, core.tick(old(volatile), old(published), now).1, middle)
      ensures result.Refused? ==>
                continuation.None? &&
                ((input.Message? && core.accept(old(volatile), old(published), input.payload).None? && unchanged(this)) ||
                 (|events| > 0 && events[|events| - 1].Abort?) ||
                 (|events| > 0 && input.Tick? && events[|events| - 1] == Upkeep(Rescan) && core.sweep(volatile, published, input.now).None?))
    {
      hide Run, Outs, Dos, WorkOf, Sound, Next, VolatileAfter, Taken;
      if continuation.Some? && !input.Persisted? {
        return PersistencePending;
      }
      match input
      case Persisted(success) =>
        if continuation.None? {
          return UnexpectedCompletion;
        }
        if !success {
          RecordFail(WorkOf(continuation.value, barrier));
          continuation := None;
          return DurabilityFailure;
        }
        var outs := Resume();
        if outs.None? {
          return Refused;
        }
        ghost var done := events;
        Close();
        assert events[..|events| - 1] == done;
        return Outputs(outs.value);
      case Message(payload) => result := OnMessage(payload);
      case Tick(now) => result := OnTick(now);
    }
  }

  /** Preparing from here on puts the entry's result in front of the others'. */
  lemma PrependPrepared<K(!new), W(!new)>(core: Core<K, W>, k: K, w: W, group: seq<Entry>, ps: seq<Prepared<K, W>>)
    requires group != [] && core.prepare(k, w, group[0]).Some?
    ensures var p := core.prepare(k, w, group[0]).value;
            var rest := PrepareAll(core, k, w, group);
            var later := PrepareAll(core, p.k, p.w, group[1..]);
            (rest.None? <==> later.None?) && (rest.Some? ==> ps + rest.value == (ps + [p]) + later.value)
  {
  }

  lemma Assoc<T>(a: seq<T>, b: seq<T>, c: seq<T>)
    ensures (a + b) + c == a + (b + c)
  {
  }

  lemma RaftAdvances<K(!new), W(!new)>(c: Continuation<K, W>, barrier: Effect)
    requires c.Raft?
    ensures var work := WorkOf(c, barrier); work != [] && work[0] == Do(barrier) && work[1..] == Dos(c.effects)
  {
  }

  lemma NoDos<K(!new), W(!new)>()
    ensures Dos<K, W>([]) == []
  {
  }

  lemma DerivedNow<K(!new), W(!new)>(core: Core<K, W>, k: K, w: W, e: Entry)
    requires Sound(core) && core.prepare(k, w, e).Some?
    ensures Derives(core, k, core.prepare(k, w, e).value) && core.prepare(k, w, e).value.entry == e
  {
  }

  lemma DosTail<K(!new), W(!new)>(effects: seq<Effect>, i: nat)
    requires i < |effects|
    ensures Dos<K, W>(effects[i..]) == [Do(effects[i])] + Dos(effects[i + 1..])
  {
  }

  lemma EmptyGroup<K(!new), W(!new)>(rest: seq<Item<K, W>>)
    ensures Commits<K, W>([]) + Dos(Posts<K, W>([])) + rest == rest
  {
  }

  lemma CommitHead<K(!new), W(!new)>(c: Continuation<K, W>, barrier: Effect)
    requires c.Store?
    ensures var work := WorkOf(c, barrier); work != [] && work[0] == Commit(c.current) && IsBarrier(work[0])
  {
  }
}
