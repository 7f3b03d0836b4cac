/** The checker's sequential model against the key/value machine's own behaviour, request by request:
    which requests the model explains, exactly. */
module Conformance {
  import opened Prelude
  import opened KvModel
  import H = History
  import C = KvCodec
  import Decimal

  // ------------------------------------------------------------------
  // Honest service
  // ------------------------------------------------------------------

  /** What the service does, in the order it does it. */
  datatype Event =
    | Served(op: H.Operation, point: u64, lifetime: Option<u64>)  // applied at `point`, answered or not
    | Lost(op: H.Operation, point: u64)                           // never applied, never answered
    | Swept(upTo: u64, max: nat, point: u64)                      // a purge of expired keys

  predicate OneKey(kind: H.Kind) {
    !kind.Scan? && !kind.Batch?
  }

  predicate OneKeyEach(kinds: seq<H.Kind>) {
    forall i | 0 <= i < |kinds| :: OneKey(kinds[i])
  }

  predicate Servable(kind: H.Kind) {
    OneKey(kind) || (kind.Batch? && OneKeyEach(kind.commands))
  }

  function CommandOf(kind: H.Kind, lifetime: Option<u64>): (c: C.Command)
    requires OneKey(kind)
    ensures !c.Batch?
  {
    match kind
    case Set(k, v) => C.Set(k, v, lifetime)
    case Get(k) => C.Get(k)
    case Del(k) => C.Del(k)
    case Incr(k) => C.Incr(k, 1)
    case Cas(k, expected, v) => C.Cas(k, expected, Some(v))
  }

  function CommandsOf(kinds: seq<H.Kind>): (cs: seq<C.Command>)
    requires OneKeyEach(kinds)
    ensures |cs| == |kinds| && forall i | 0 <= i < |cs| :: cs[i] == CommandOf(kinds[i], None)
  {
    seq(|kinds|, i requires 0 <= i < |kinds| => CommandOf(kinds[i], None))
  }

  /** How one answer is recorded: a deletion as done, whatever it counted. */
  function RecordedReply(kind: H.Kind, reply: C.Reply): H.Outcome {
    match reply
    case Ok => H.Ok
    case Value(v) => H.Value(v)
    case Integer(n) => if kind.Del? then H.Ok else H.Integer(n)
    case Swapped(b) => H.Swapped(b)
    case Conditional(b) => H.Swapped(b)
    case _ => H.Error
  }

  function RecordedReplies(kinds: seq<H.Kind>, replies: seq<C.Reply>): (os: seq<H.Outcome>)
    requires |kinds| == |replies|
    ensures |os| == |kinds| && forall i | 0 <= i < |os| :: os[i] == RecordedReply(kinds[i], replies[i])
  {
    seq(|kinds|, i requires 0 <= i < |kinds| => RecordedReply(kinds[i], replies[i]))
  }

  /** A failure, of a batch too, is recorded as an error. */
  function Recorded(kind: H.Kind, o: Outcome): H.Outcome {
    if !o.Done? then H.Error
    else if !kind.Batch? then RecordedReply(kind, o.reply)
    else if o.reply.Replies? && |o.reply.replies| == |kind.commands| then
      H.Replies(RecordedReplies(kind.commands, o.reply.replies))
    else H.Error
  }

  predicate During(op: H.Operation, point: u64) {
    op.invoke <= point && (op.complete.Some? ==> point <= op.complete.value) &&
    (!op.outcome.Timeout? ==> op.complete.Some?)
  }

  /** The machine's part in a served request. */
  function Serve(limits: Limits, s: State, e: Event): (State, Outcome)
    requires e.Served? && Servable(e.op.kind)
  {
    if e.op.kind.Batch? then ApplyBatch(s, CommandsOf(e.op.kind.commands), e.point, limits)
    else ApplySingle(s, CommandOf(e.op.kind, e.lifetime), e.point, limits.maxExpiryItems)
  }

  /** The event is what the machine would do in state `s`.  The deadline a set is recorded with is stamped
      when it is sent; it is not assumed to be the one the machine sets when it applies it. */
  predicate Honest(limits: Limits, s: State, e: Event) {
    match e
    case Served(op, point, lifetime) =>
      Servable(op.kind) && During(op, point) && H.IsStrong(op) &&
      (lifetime.Some? ==> op.kind.Set? && point + lifetime.value <= U64_MAX) &&
      (op.deadline.Some? <==> lifetime.Some?) &&
      (op.outcome.Timeout? || op.outcome == Recorded(op.kind, Serve(limits, s, e).1))
    case Lost(op, point) => op.outcome.Timeout? && During(op, point) && H.IsStrong(op)
    case Swept(upTo, _, point) => upTo <= point
  }

  function Next(limits: Limits, s: State, e: Event): State
    requires e.Served? ==> Servable(e.op.kind)
  {
    match e
    case Served(_, _, _) => Serve(limits, s, e).0
    case Lost(_, _) => s
    case Swept(upTo, max, point) => ApplySingle(s, C.PurgeExpired(upTo), point, max).0
  }

  // ------------------------------------------------------------------
  // Machine and model side by side
  // ------------------------------------------------------------------

  predicate Agrees(s: State, m: H.Model, k: Bytes)
    requires k in s.entries
  {
    k in m && m[k].value == s.entries[k].value &&
    m[k].deadline == if k in s.ttl then Some(s.ttl[k]) else None
  }

  /** The model holds what the machine stores, and beyond that only lapsed values the machine has
      swept away. */
  ghost predicate Tracks(s: State, m: H.Model, now: u64) {
    (forall k | k in s.ttl :: k in s.entries) &&
    (forall k | k in s.entries :: Agrees(s, m, k)) &&
    (forall k | k in m && k !in s.entries :: m[k].deadline.Some? && m[k].deadline.value <= now)
  }

  /** The model still holds the key, with a deadline that has passed. */
  predicate Lapsed(m: H.Model, k: Bytes, at: u64) {
    k in m && m[k].deadline.Some? && m[k].deadline.value <= at
  }

  lemma TracksLater(s: State, m: H.Model, now: u64, at: u64)
    requires Tracks(s, m, now) && now <= at
    ensures Tracks(s, m, at)
  {
  }

  /** Machine and model show the same value exactly when the model's has not lapsed. */
  lemma ShownIsStored(s: State, m: H.Model, now: u64, k: Bytes, at: u64)
    requires Tracks(s, m, now) && now <= at
    ensures Lapsed(m, k, at) ==> VisibleGet(s, k, at) == None && H.StoredValue(m, k).Some? && (k in s.entries ==> k in s.ttl)
    ensures !Lapsed(m, k, at) ==>
              VisibleGet(s, k, at) == H.StoredValue(m, k) && (k in s.entries <==> k in m) && !Expired(s, k, at)
    ensures k in s.ttl ==> k in s.entries && k in m && m[k].deadline == Some(s.ttl[k])
    ensures k in s.entries ==> k in m && m[k].value == s.entries[k].value
  {
    assert k in s.entries ==> Agrees(s, m, k);
  }

  lemma PutTracks(s: State, m: H.Model, now: u64, at: u64, k: Bytes, v: Bytes)
    requires Tracks(s, m, now) && now <= at
    ensures Tracks(Disarm(Put(s, k, v), k), m[k := H.Cell(v, None)], at)
    ensures k !in s.ttl ==> Tracks(Put(s, k, v), m[k := H.Cell(v, None)], at)
  {
    assert k !in s.ttl ==> Disarm(Put(s, k, v), k) == Put(s, k, v);
  }

  lemma ArmTracks(s: State, m: H.Model, now: u64, at: u64, k: Bytes, v: Bytes, d: u64)
    requires Tracks(s, m, now) && now <= at
    ensures Tracks(Arm(Put(s, k, v), k, d), m[k := H.Cell(v, Some(d))], at)
  {
  }

  lemma RemoveTracks(s: State, m: H.Model, now: u64, at: u64, k: Bytes)
    requires Tracks(s, m, now) && now <= at
    ensures Tracks(Disarm(Remove(s, k), k), m - {k}, at)
  {
  }

  /** A sweep removes only what the model already counts as lapsed. */
  lemma SweepTracks(limits: Limits, s: State, m: H.Model, now: u64, e: Event)
    requires Tracks(s, m, now) && now <= e.point && e.Swept? && e.upTo <= e.point
    ensures Tracks(Next(limits, s, e), m, e.point)
  {
    hide Purged, ApplySingle, KeysOf;
    PurgeExact(s, e.upTo, e.point, e.max);
    var gone := KeysOf(Purged(s.ttl, e.upTo, e.max));
    DropTracks(s, Next(limits, s, e), m, now, gone, e.upTo, e.point);
  }

  lemma DropTracks(s: State, after: State, m: H.Model, now: u64, gone: set<Bytes>, upTo: u64, at: u64)
    requires Tracks(s, m, now) && now <= at && upTo <= at
    requires after.entries == s.entries - gone && after.ttl == s.ttl - gone
    requires forall k | k in gone :: k in s.ttl && s.ttl[k] <= upTo
    ensures Tracks(after, m, at)
  {
    forall k | k in m && k !in after.entries ensures m[k].deadline.Some? && m[k].deadline.value <= at {
      if k in s.entries { assert Agrees(s, m, k); }
    }
    forall k | k in after.entries ensures Agrees(after, m, k) {
      assert Agrees(s, m, k);
    }
  }

  // ------------------------------------------------------------------
  // One answered command, exactly
  // ------------------------------------------------------------------

  /** The model performs the command, gives the recorded answer and goes on tracking the machine. */
  ghost predicate Mirrors(m: H.Model, kind: H.Kind, deadline: Option<u64>, after: State, reply: C.Reply, at: u64) {
    var r := H.Apply(m, kind, deadline);
    r.Some? && r.value.1 == RecordedReply(kind, reply) && Tracks(after, r.value.0, at)
  }

  /** Nothing about the key makes the model differ: a read or a comparison does not meet a lapsed value
      (or compares with neither it nor absence), and an increment meets no deadline that the machine
      would keep and no lapsed number that the model would add to. */
  predicate Calm(s: State, m: H.Model, kind: H.Kind, at: u64) {
    match kind
    case Get(k) => !Lapsed(m, k, at)
    case Cas(k, expected, _) => Lapsed(m, k, at) ==> expected.Some? && expected != H.StoredValue(m, k)
    case Incr(k) => k !in s.ttl && (Lapsed(m, k, at) ==> H.Counter(m, k) == 0)
    case _ => true
  }

  lemma SetMirrors(s: State, m: H.Model, now: u64, at: u64, kind: H.Kind, lifetime: Option<u64>, deadline: Option<u64>, max: nat)
    requires Tracks(s, m, now) && now <= at && (kind.Set? || kind.Del?)
    requires deadline.Some? == lifetime.Some? && (lifetime.Some? ==> deadline.value == at + lifetime.value)
    requires ApplySingle(s, CommandOf(kind, lifetime), at, max).1.Done?
    ensures var (after, o) := ApplySingle(s, CommandOf(kind, lifetime), at, max);
            Mirrors(m, kind, deadline, after, o.reply, at)
  {
    hide Tracks, Put, Remove, Disarm, Arm, Admits;
    if kind.Del? {
      RemoveTracks(s, m, now, at, kind.key);
    } else if deadline.Some? {
      ArmTracks(s, m, now, at, kind.key, kind.value, deadline.value);
    } else {
      PutTracks(s, m, now, at, kind.key, kind.value);
    }
  }

  lemma GetMirrorsIff(s: State, m: H.Model, now: u64, at: u64, kind: H.Kind, max: nat)
    requires Tracks(s, m, now) && now <= at && kind.Get?
    ensures var (after, o) := ApplySingle(s, CommandOf(kind, None), at, max);
            Mirrors(m, kind, None, after, o.reply, at) <==> Calm(s, m, kind, at)
  {
    hide Tracks;
    ShownIsStored(s, m, now, kind.key, at);
    TracksLater(s, m, now, at);
  }

  /** A comparison the model judges otherwise is one it answers otherwise. */
  lemma CasMirrorsIff(s: State, m: H.Model, now: u64, at: u64, kind: H.Kind, max: nat)
    requires Tracks(s, m, now) && now <= at && kind.Cas?
    requires ApplySingle(s, CommandOf(kind, None), at, max).1.Done?
    ensures var (after, o) := ApplySingle(s, CommandOf(kind, None), at, max);
            (Mirrors(m, kind, None, after, o.reply, at) <==> Calm(s, m, kind, at)) &&
            (H.Apply(m, kind, None).value.1 == RecordedReply(kind, o.reply) <==> Calm(s, m, kind, at))
  {
    hide Tracks, Put, Disarm, Admits;
    ShownIsStored(s, m, now, kind.key, at);
    TracksLater(s, m, now, at);
    PutTracks(s, m, now, at, kind.key, kind.value);
  }

  lemma ZeroParses()
    ensures Decimal.ParseI64([Decimal.ZERO]) == Some(0)
  {
    assert Decimal.ToText(0) == [Decimal.ZERO];
    Decimal.ParseToText(0);
  }

  /** What an increment answers. */
  lemma IncrementAdds(s: State, m: H.Model, now: u64, at: u64, k: Bytes)
    requires Tracks(s, m, now) && now <= at && Increment(s, k, 1, at).1.Done?
    ensures var (after, o) := Increment(s, k, 1, at);
            o.reply.Integer? && after == Put(s, k, Decimal.ToText(o.reply.n)) &&
            (Lapsed(m, k, at) ==> o.reply.n == 1) &&
            (!Lapsed(m, k, at) ==> o.reply.n as int == H.Counter(m, k) as int + 1)
  {
    hide Tracks, Put, Admits, Decimal.ParseI64, Decimal.ToText;
    ShownIsStored(s, m, now, k, at);
    ZeroParses();
  }

  /** An increment on a key with a deadline: the machine keeps the deadline and the model drops it. */
  lemma KeptDeadlineIsLost(s: State, m: H.Model, k: Bytes, v: Bytes, w: Bytes, at: u64)
    requires k in s.ttl
    ensures !Tracks(Put(s, k, v), m[k := H.Cell(w, None)], at)
  {
    assert k in Put(s, k, v).entries;
  }

  lemma OtherValueIsLost(s: State, m: H.Model, k: Bytes, v: Bytes, w: Bytes, at: u64)
    requires v != w
    ensures !Tracks(Put(s, k, v), m[k := H.Cell(w, None)], at)
  {
    assert k in Put(s, k, v).entries;
  }

  lemma IncrMirrorsIff(s: State, m: H.Model, now: u64, at: u64, kind: H.Kind, max: nat)
    requires Tracks(s, m, now) && now <= at && kind.Incr?
    requires ApplySingle(s, CommandOf(kind, None), at, max).1.Done?
    ensures var (after, o) := ApplySingle(s, CommandOf(kind, None), at, max);
            Mirrors(m, kind, None, after, o.reply, at) <==> Calm(s, m, kind, at)
  {
    hide Tracks, Put, Decimal.ParseI64, Decimal.ToText, Increment;
    var k := kind.key;
    IncrementAdds(s, m, now, at, k);
    var n, count := Increment(s, k, 1, at).1.reply.n, H.Counter(m, k);
    if k in s.ttl {
      KeptDeadlineIsLost(s, m, k, Decimal.ToText(n), Decimal.ToText(n), at);
    } else {
      PutTracks(s, m, now, at, k, Decimal.ToText(n));
    }
  }

  /** One answered command is mirrored by the model exactly when it is calm. */
  lemma MirrorsIff(s: State, m: H.Model, now: u64, at: u64, kind: H.Kind, max: nat)
    requires Tracks(s, m, now) && now <= at && OneKey(kind)
    requires ApplySingle(s, CommandOf(kind, None), at, max).1.Done?
    ensures var (after, o) := ApplySingle(s, CommandOf(kind, None), at, max);
            Mirrors(m, kind, None, after, o.reply, at) <==> Calm(s, m, kind, at)
  {
    hide Tracks, ApplySingle, Mirrors;
    match kind
    case Set(_, _) => SetMirrors(s, m, now, at, kind, None, None, max);
    case Del(_) => SetMirrors(s, m, now, at, kind, None, None, max);
    case Get(_) => GetMirrorsIff(s, m, now, at, kind, max);
    case Incr(_) => IncrMirrorsIff(s, m, now, at, kind, max);
    case Cas(_, _, _) => CasMirrorsIff(s, m, now, at, kind, max);
  }

  // ------------------------------------------------------------------
  // One request, exactly
  // ------------------------------------------------------------------

  /** The model takes this choice and goes on tracking the machine. */
  ghost predicate Follows(limits: Limits, s: State, m: H.Model, e: Event, applied: bool)
    requires e.Served? && Servable(e.op.kind)
  {
    var next := H.Step(m, H.Choice(e.op, applied));
    next.Some? && Tracks(Next(limits, s, e), next.value, e.point)
  }

  /** Some way of placing the request, applied or dropped, is a step of the model that gives the recorded
      answer and goes on tracking the machine. */
  ghost predicate Explained(limits: Limits, s: State, m: H.Model, e: Event)
    requires e.Served? && Servable(e.op.kind)
  {
    Follows(limits, s, m, e, true) || Follows(limits, s, m, e, false)
  }

  /** The recorded deadline is the one the machine sets. */
  predicate StampedRight(e: Event)
    requires e.Served?
  {
    e.lifetime.Some? ==> e.op.deadline.Some? && e.op.deadline.value == e.point + e.lifetime.value
  }

  /** The model already holds what the machine has just written. */
  predicate HeldAlready(m: H.Model, e: Event)
    requires e.Served? && e.op.kind.Set? && e.lifetime.Some?
  {
    var k := e.op.kind.key;
    k in m && m[k].value == e.op.kind.value && m[k].deadline.Some? && m[k].deadline.value == e.point + e.lifetime.value
  }

  /** What the model needs of a request.  It takes a set's deadline as recorded.  It looks at deadlines only when it judges a read on its own:
      a comparison must not meet a lapsed value, unless its outcome is the same without it; and it gives
      up a deadline on every increment, which the machine keeps. */
  predicate Compatible(limits: Limits, s: State, m: H.Model, e: Event)
    requires e.Served? && Servable(e.op.kind)
  {
    match e.op.kind
    case Set(_, _) => Serve(limits, s, e).1.Done? && !StampedRight(e) ==> e.op.outcome.Timeout? && HeldAlready(m, e)
    case Cas(k, expected, v) =>
      Lapsed(m, k, e.point) ==>
        if expected.None? then !Admits(s, k, v) else e.op.outcome.Timeout? || expected != H.StoredValue(m, k)
    case Incr(k) =>
      Serve(limits, s, e).1.Done? ==>
        if k in s.ttl then
          e.op.outcome.Timeout? && Expired(s, k, e.point) && H.StoredValue(m, k) == Some(Decimal.ToText(1))
        else Lapsed(m, k, e.point) ==> H.Counter(m, k) == 0
    case Batch(kinds) =>
      Serve(limits, s, e).1.Done? && Serve(limits, s, e).1.reply.Replies? ==>
        CalmAll(s, m, kinds, e.point, limits.maxExpiryItems)
    case _ => true
  }

  /** Every command of a batch is calm where the ones before it have led. */
  predicate CalmAll(s: State, m: H.Model, kinds: seq<H.Kind>, at: u64, max: nat)
    requires OneKeyEach(kinds)
    decreases |kinds|
  {
    kinds == [] ||
    (Calm(s, m, kinds[0], at) &&
     var r := H.Apply(m, kinds[0], None);
     (r.Some? ==> CalmAll(ApplySingle(s, CommandOf(kinds[0], None), at, max).0, r.value.0, kinds[1..], at, max)))
  }

  /** An unanswered request is taken as applied when it changed something the model can follow. */
  function ChoiceOf(limits: Limits, s: State, e: Event): H.Choice
    requires !e.Swept? && (e.Served? ==> Servable(e.op.kind))
  {
    H.Choice(e.op,
             e.Served? &&
             (!e.op.outcome.Timeout? ||
              (Next(limits, s, e) != s && !(e.op.kind.Incr? && e.op.kind.key in s.ttl) && (e.op.kind.Set? ==> StampedRight(e)))))
  }

  /** A command that does not answer leaves no trace. */
  lemma RefusalLeavesNoTrace(s: State, c: C.Command, at: u64, max: nat)
    requires !c.Batch? && !ApplySingle(s, c, at, max).1.Done?
    ensures ApplySingle(s, c, at, max).0 == s
  {
    hide Decimal.ParseI64, Decimal.ToText, Purged, RemoveAll, VisibleScan;
  }

  /** A request that changed nothing, and was not answered or was refused, is explained by dropping it. */
  lemma NothingHappened(limits: Limits, s: State, m: H.Model, now: u64, e: Event)
    requires Tracks(s, m, now) && now <= e.point && e.Served? && Servable(e.op.kind)
    requires Next(limits, s, e) == s && (e.op.outcome.Timeout? || e.op.outcome.Error?)
    ensures Follows(limits, s, m, e, ChoiceOf(limits, s, e).applied)
  {
    hide Tracks, Next;
    TracksLater(s, m, now, e.point);
  }

  /** An answered request other than a read takes the one step the model has for it. */
  lemma AnsweredStep(limits: Limits, s: State, m: H.Model, e: Event)
    requires e.Served? && OneKey(e.op.kind) && !e.op.kind.Get? && Honest(limits, s, e)
    requires !e.op.outcome.Timeout? && Serve(limits, s, e).1.Done?
    ensures Explained(limits, s, m, e) <==>
            Mirrors(m, e.op.kind, e.op.deadline, Next(limits, s, e), Serve(limits, s, e).1.reply, e.point)
    ensures ChoiceOf(limits, s, e).applied
    ensures Explained(limits, s, m, e) ==> Follows(limits, s, m, e, true)
  {
    hide Tracks, H.Apply, Decimal.ParseI64, Decimal.ToText, Purged, RemoveAll, VisibleScan;
  }

  /** An unanswered request: what applying and dropping it take. */
  lemma UnansweredStep(limits: Limits, s: State, m: H.Model, e: Event)
    requires e.Served? && Servable(e.op.kind) && e.op.outcome.Timeout?
    ensures Follows(limits, s, m, e, false) <==> Tracks(Next(limits, s, e), m, e.point)
    ensures Follows(limits, s, m, e, true) <==>
            var r := H.Apply(m, e.op.kind, e.op.deadline); r.Some? && Tracks(Next(limits, s, e), r.value.0, e.point)
  {
    hide Tracks, H.Apply, Next;
  }

  lemma SetExplained(limits: Limits, s: State, m: H.Model, now: u64, e: Event)
    requires Tracks(s, m, now) && now <= e.point && e.Served? && Honest(limits, s, e) && (e.op.kind.Set? || e.op.kind.Del?)
    requires e.op.kind.Set? && Serve(limits, s, e).1.Done? ==> StampedRight(e)
    ensures Follows(limits, s, m, e, ChoiceOf(limits, s, e).applied)
  {
    hide Tracks, ApplySingle, H.Apply, Follows;
    var c := CommandOf(e.op.kind, e.lifetime);
    var (after, o) := ApplySingle(s, c, e.point, limits.maxExpiryItems);
    if o.Done? {
      SetMirrors(s, m, now, e.point, e.op.kind, e.lifetime, e.op.deadline, limits.maxExpiryItems);
      if e.op.outcome.Timeout? {
        UnansweredStep(limits, s, m, e);
        SetChanges(s, c, e.point, limits.maxExpiryItems);
      } else {
        AnsweredStep(limits, s, m, e);
      }
    } else {
      RefusalLeavesNoTrace(s, c, e.point, limits.maxExpiryItems);
      NothingHappened(limits, s, m, now, e);
    }
  }

  /** A served set is explained exactly when it is compatible: recorded with the deadline the machine set,
      or unanswered and writing what the model already holds. */
  lemma SetExact(limits: Limits, s: State, m: H.Model, now: u64, e: Event)
    requires Tracks(s, m, now) && now <= e.point && e.Served? && Honest(limits, s, e) && e.op.kind.Set?
    ensures Explained(limits, s, m, e) <==> Compatible(limits, s, m, e)
    ensures Compatible(limits, s, m, e) ==> Follows(limits, s, m, e, ChoiceOf(limits, s, e).applied)
  {
    hide Tracks, Follows, H.Apply, Put, Arm, Disarm, Admits;
    if !Serve(limits, s, e).1.Done? || StampedRight(e) {
      SetExplained(limits, s, m, now, e);
    } else {
      MisstampedSet(limits, s, m, now, e);
    }
  }

  lemma MisstampedSet(limits: Limits, s: State, m: H.Model, now: u64, e: Event)
    requires Tracks(s, m, now) && now <= e.point && e.Served? && Honest(limits, s, e) && e.op.kind.Set?
    requires Serve(limits, s, e).1.Done? && !StampedRight(e)
    ensures Explained(limits, s, m, e) <==> e.op.outcome.Timeout? && HeldAlready(m, e)
    ensures e.op.outcome.Timeout? && HeldAlready(m, e) ==> Follows(limits, s, m, e, ChoiceOf(limits, s, e).applied)
  {
    hide Tracks, Follows, Put, Arm, Disarm, Admits;
    var k, v, d := e.op.kind.key, e.op.kind.value, e.point + e.lifetime.value;
    assert Next(limits, s, e) == Arm(Put(s, k, v), k, d);
    OtherDeadlineIsLost(s, m, k, v, d, e.op.deadline, e.point);
    if e.op.outcome.Timeout? {
      UnansweredStep(limits, s, m, e);
      RearmTracks(s, m, now, e.point, k, v, d);
    } else {
      AnsweredStep(limits, s, m, e);
      assert H.Apply(m, e.op.kind, e.op.deadline).value.0 == m[k := H.Cell(v, e.op.deadline)];
    }
  }

  lemma OtherDeadlineIsLost(s: State, m: H.Model, k: Bytes, v: Bytes, d: u64, other: Option<u64>, at: u64)
    requires other != Some(d)
    ensures !Tracks(Arm(Put(s, k, v), k, d), m[k := H.Cell(v, other)], at)
  {
    assert k in Arm(Put(s, k, v), k, d).entries;
  }

  /** Writing a key with a deadline is unseen exactly when the model already holds both. */
  lemma RearmTracks(s: State, m: H.Model, now: u64, at: u64, k: Bytes, v: Bytes, d: u64)
    requires Tracks(s, m, now) && now <= at
    ensures Tracks(Arm(Put(s, k, v), k, d), m, at) <==> k in m && m[k] == H.Cell(v, Some(d))
  {
    var after := Arm(Put(s, k, v), k, d);
    if k in m && m[k] == H.Cell(v, Some(d)) {
      forall j | j in after.entries ensures Agrees(after, m, j) {
        assert j != k ==> Agrees(s, m, j);
      }
    } else {
      assert k in after.entries && after.entries[k].value == v && after.ttl[k] == d;
      assert Tracks(after, m, at) ==> Agrees(after, m, k);
      assert k in m ==> m[k] == H.Cell(m[k].value, m[k].deadline);
    }
  }

  lemma SetChanges(s: State, c: C.Command, at: u64, max: nat)
    requires (c.Set? || c.Del?) && ApplySingle(s, c, at, max).1.Done?
    ensures ApplySingle(s, c, at, max).0 != s
  {
    assert ApplySingle(s, c, at, max).0.sequence == s.sequence + 1;
  }

  lemma GetExplained(limits: Limits, s: State, m: H.Model, now: u64, e: Event)
    requires Tracks(s, m, now) && now <= e.point && e.Served? && Honest(limits, s, e) && e.op.kind.Get?
    ensures Follows(limits, s, m, e, ChoiceOf(limits, s, e).applied)
  {
    hide Tracks;
    TracksLater(s, m, now, e.point);
    ShownIsStored(s, m, now, e.op.kind.key, e.point);
  }

  /** A served comparison is explained exactly when it is compatible. */
  lemma CasExact(limits: Limits, s: State, m: H.Model, now: u64, e: Event)
    requires Tracks(s, m, now) && now <= e.point && e.Served? && Honest(limits, s, e) && e.op.kind.Cas?
    ensures Explained(limits, s, m, e) <==> Compatible(limits, s, m, e)
    ensures Compatible(limits, s, m, e) ==> Follows(limits, s, m, e, ChoiceOf(limits, s, e).applied)
  {
    hide Tracks, H.Apply, Follows, Put, Disarm;
    var k, at := e.op.kind.key, e.point;
    ShownIsStored(s, m, now, k, at);
    var (after, o) := Serve(limits, s, e);
    if !o.Done? {
      NothingHappened(limits, s, m, now, e);
    } else if !e.op.outcome.Timeout? {
      CasMirrorsIff(s, m, now, at, e.op.kind, limits.maxExpiryItems);
      AnsweredStep(limits, s, m, e);
    } else if !o.reply.success {
      NothingHappened(limits, s, m, now, e);
    } else {
      SwapUnanswered(limits, s, m, now, e);
    }
  }

  /** An unanswered comparison that succeeded is explained exactly when it met no lapsed value. */
  lemma SwapUnanswered(limits: Limits, s: State, m: H.Model, now: u64, e: Event)
    requires Tracks(s, m, now) && now <= e.point && e.Served? && e.op.kind.Cas? && e.op.outcome.Timeout? && Honest(limits, s, e)
    requires Serve(limits, s, e).1 == Done(C.Swapped(true))
    ensures Explained(limits, s, m, e) <==> !Lapsed(m, e.op.kind.key, e.point)
    ensures !Lapsed(m, e.op.kind.key, e.point) ==> Follows(limits, s, m, e, ChoiceOf(limits, s, e).applied)
  {
    hide Tracks, Follows;
    var k, v, at := e.op.kind.key, e.op.kind.value, e.point;
    ShownIsStored(s, m, now, k, at);
    UnansweredStep(limits, s, m, e);
    PutTracks(s, m, now, at, k, v);
    assert Next(limits, s, e).sequence == s.sequence + 1;
    if Lapsed(m, k, at) {
      NewIsNotLapsed(Next(limits, s, e), m, k, at);
    }
  }

  /** A key stored without a deadline is not tracked by a model that has it with one. */
  lemma NewIsNotLapsed(s: State, m: H.Model, k: Bytes, at: u64)
    requires k in s.entries && k !in s.ttl && Lapsed(m, k, at)
    ensures !Tracks(s, m, at)
  {
    assert Tracks(s, m, at) ==> Agrees(s, m, k);
  }

  /** A served increment is explained exactly when it is compatible. */
  lemma IncrExact(limits: Limits, s: State, m: H.Model, now: u64, e: Event)
    requires Tracks(s, m, now) && now <= e.point && e.Served? && Honest(limits, s, e) && e.op.kind.Incr?
    ensures Explained(limits, s, m, e) <==> Compatible(limits, s, m, e)
    ensures Compatible(limits, s, m, e) ==> Follows(limits, s, m, e, ChoiceOf(limits, s, e).applied)
  {
    hide Tracks, H.Apply, Follows, Increment, H.Counter, Decimal.ToText;
    var (after, o) := Serve(limits, s, e);
    if !o.Done? {
      RefusalLeavesNoTrace(s, CommandOf(e.op.kind, None), e.point, limits.maxExpiryItems);
      NothingHappened(limits, s, m, now, e);
    } else if !e.op.outcome.Timeout? {
      IncrMirrorsIff(s, m, now, e.point, e.op.kind, limits.maxExpiryItems);
      AnsweredStep(limits, s, m, e);
    } else if e.op.kind.key in s.ttl {
      KeptUnanswered(limits, s, m, now, e);
    } else {
      CountUnanswered(limits, s, m, now, e);
    }
  }

  /** Unanswered, on a key with a deadline: only dropping it can track, and only where the machine has
      written over a lapsed value what was there already. */
  lemma KeptUnanswered(limits: Limits, s: State, m: H.Model, now: u64, e: Event)
    requires Tracks(s, m, now) && now <= e.point && e.Served? && e.op.kind.Incr? && e.op.outcome.Timeout? && Honest(limits, s, e)
    requires Serve(limits, s, e).1.Done? && e.op.kind.key in s.ttl
    ensures Explained(limits, s, m, e) <==>
            Expired(s, e.op.kind.key, e.point) && H.StoredValue(m, e.op.kind.key) == Some(Decimal.ToText(1))
    ensures Explained(limits, s, m, e) ==> Follows(limits, s, m, e, false)
  {
    hide Tracks, Follows, Increment, Put, Decimal.ParseI64, Decimal.ToText;
    var k, at := e.op.kind.key, e.point;
    UnansweredStep(limits, s, m, e);
    IncrementAdds(s, m, now, at, k);
    ShownIsStored(s, m, now, k, at);
    var n := Increment(s, k, 1, at).1.reply.n;
    if H.Counter(m, k) != 0x7fff_ffff_ffff_ffff {
      KeptDeadlineIsLost(s, m, k, Decimal.ToText(n), Decimal.ToText(H.Counter(m, k) + 1), at);
    }
    Decimal.ParseToText(n);
    RewriteTracks(s, m, now, at, k, Decimal.ToText(n));
  }

  /** Writing over a stored key without touching its deadline is unseen exactly when the value is the same. */
  lemma RewriteTracks(s: State, m: H.Model, now: u64, at: u64, k: Bytes, v: Bytes)
    requires Tracks(s, m, now) && now <= at && k in s.entries
    ensures Tracks(Put(s, k, v), m, at) <==> H.StoredValue(m, k) == Some(v)
  {
    var after := Put(s, k, v);
    assert Agrees(s, m, k);
    if H.StoredValue(m, k) == Some(v) {
      forall j | j in after.entries ensures Agrees(after, m, j) {
        assert Agrees(s, m, j);
      }
    } else {
      assert !Agrees(after, m, k);
    }
  }

  /** Unanswered, on a key without a deadline: applying it tracks exactly when the model counts from the
      same number. */
  lemma CountUnanswered(limits: Limits, s: State, m: H.Model, now: u64, e: Event)
    requires Tracks(s, m, now) && now <= e.point && e.Served? && e.op.kind.Incr? && e.op.outcome.Timeout? && Honest(limits, s, e)
    requires Serve(limits, s, e).1.Done? && e.op.kind.key !in s.ttl
    ensures Explained(limits, s, m, e) <==> (Lapsed(m, e.op.kind.key, e.point) ==> H.Counter(m, e.op.kind.key) == 0)
    ensures Explained(limits, s, m, e) ==> Follows(limits, s, m, e, ChoiceOf(limits, s, e).applied)
  {
    hide Tracks, Follows, Increment, Decimal.ParseI64, Decimal.ToText;
    var k, at := e.op.kind.key, e.point;
    UnansweredStep(limits, s, m, e);
    IncrementAdds(s, m, now, at, k);
    ShownIsStored(s, m, now, k, at);
    var n, count := Increment(s, k, 1, at).1.reply.n, H.Counter(m, k);
    PutTracks(s, m, now, at, k, Decimal.ToText(n));
    assert Next(limits, s, e).sequence == s.sequence + 1;
    if Lapsed(m, k, at) {
      NewIsNotLapsed(Next(limits, s, e), m, k, at);
      if count != 0 && count != 0x7fff_ffff_ffff_ffff {
        Decimal.ParseToText(1);
        Decimal.ParseToText(count + 1);
        OtherValueIsLost(s, m, k, Decimal.ToText(1), Decimal.ToText(count + 1), at);
      }
    }
  }

  /** One request on one key, however it is answered: the checker's model has a step for it that gives the
      recorded answer and goes on tracking the machine exactly when it is compatible. */
  lemma ServedExact(limits: Limits, s: State, m: H.Model, now: u64, e: Event)
    requires Tracks(s, m, now) && now <= e.point && e.Served? && OneKey(e.op.kind) && Honest(limits, s, e)
    ensures Explained(limits, s, m, e) <==> Compatible(limits, s, m, e)
    ensures Compatible(limits, s, m, e) ==> Follows(limits, s, m, e, ChoiceOf(limits, s, e).applied)
  {
    hide Tracks, Follows, Serve, Honest, ChoiceOf;
    match e.op.kind
    case Set(_, _) => SetExact(limits, s, m, now, e);
    case Del(_) => SetExplained(limits, s, m, now, e);
    case Get(_) => GetExplained(limits, s, m, now, e);
    case Incr(_) => IncrExact(limits, s, m, now, e);
    case Cas(_, _, _) => CasExact(limits, s, m, now, e);
  }

  // ------------------------------------------------------------------
  // Batches
  // ------------------------------------------------------------------

  /** Commands run one by one, each answered. */
  ghost predicate Answers(trace: seq<State>, kinds: seq<H.Kind>, replies: seq<C.Reply>, at: u64, max: nat) {
    OneKeyEach(kinds) && |trace| == |kinds| + 1 && |replies| == |kinds| &&
    forall i | 0 <= i < |kinds| :: ApplySingle(trace[i], CommandOf(kinds[i], None), at, max) == (trace[i + 1], Done(replies[i]))
  }

  lemma AnswersRest(trace: seq<State>, kinds: seq<H.Kind>, replies: seq<C.Reply>, at: u64, max: nat)
    requires Answers(trace, kinds, replies, at, max) && kinds != []
    ensures Answers(trace[1..], kinds[1..], replies[1..], at, max)
  {
    hide ApplySingle;
    forall i | 0 <= i < |kinds| - 1
      ensures ApplySingle(trace[1..][i], CommandOf(kinds[1..][i], None), at, max) == (trace[1..][i + 1], Done(replies[1..][i]))
    {
      assert trace[1..][i] == trace[i + 1] && trace[1..][i + 1] == trace[i + 2] && kinds[1..][i] == kinds[i + 1];
    }
  }

  /** Calm commands, one after the other, are mirrored one after the other. */
  lemma {:induction false} ChildrenMirror(trace: seq<State>, m: H.Model, kinds: seq<H.Kind>, replies: seq<C.Reply>, at: u64, max: nat)
    requires Answers(trace, kinds, replies, at, max) && Tracks(trace[0], m, at) && CalmAll(trace[0], m, kinds, at, max)
    ensures var r := H.ApplyAll(m, kinds, None);
            r.Some? && r.value.1 == RecordedReplies(kinds, replies) && Tracks(trace[|kinds|], r.value.0, at)
    decreases |kinds|
  {
    hide Tracks, ApplySingle, H.Apply, Calm, RecordedReply;
    if kinds != [] {
      assert ApplySingle(trace[0], CommandOf(kinds[0], None), at, max) == (trace[0 + 1], Done(replies[0]));
      MirrorsIff(trace[0], m, at, at, kinds[0], max);
      AnswersRest(trace, kinds, replies, at, max);
      ChildrenMirror(trace[1..], H.Apply(m, kinds[0], None).value.0, kinds[1..], replies[1..], at, max);
      assert RecordedReplies(kinds, replies) == [RecordedReply(kinds[0], replies[0])] + RecordedReplies(kinds[1..], replies[1..]);
    }
  }

  /** The replies of a batch that answered come from its commands one by one. */
  lemma BatchAnswers(limits: Limits, s: State, kinds: seq<H.Kind>, at: u64) returns (trace: seq<State>)
    requires OneKeyEach(kinds)
    requires var o := ApplyBatch(s, CommandsOf(kinds), at, limits).1; o.Done? && o.reply.Replies?
    ensures var (after, o) := ApplyBatch(s, CommandsOf(kinds), at, limits);
            Answers(trace, kinds, o.reply.replies, at, limits.maxExpiryItems) && trace[0] == s && trace[|kinds|] == after
    ensures kinds != []
  {
    hide ApplySingle, RunFirst, C.ChildCharge, C.Flat;
    var cs := CommandsOf(kinds);
    assert C.Admissible(cs, limits.maxCommands, limits.maxBytes);
    var replies;
    trace, replies := BatchAtomicity(s, cs, at, limits);
    assert |replies| == |cs|;
  }

  /** A served batch of compatible commands is explained. */
  lemma BatchExplained(limits: Limits, s: State, m: H.Model, now: u64, e: Event)
    requires Tracks(s, m, now) && now <= e.point && e.Served? && e.op.kind.Batch? && Honest(limits, s, e)
    requires Compatible(limits, s, m, e)
    ensures Follows(limits, s, m, e, ChoiceOf(limits, s, e).applied)
  {
    hide Tracks, CalmAll, ApplyBatch, H.ApplyAll, Follows;
    var kinds := e.op.kind.commands;
    var (after, o) := ApplyBatch(s, CommandsOf(kinds), e.point, limits);
    FailedBatchChangesNothing(s, CommandsOf(kinds), e.point, limits);
    if o.Done? && o.reply.Replies? {
      var trace := BatchAnswers(limits, s, kinds, e.point);
      TracksLater(s, m, now, e.point);
      ChildrenMirror(trace, m, kinds, o.reply.replies, e.point, limits.maxExpiryItems);
      BatchFollows(limits, s, m, e);
      if e.op.outcome.Timeout? && Next(limits, s, e) == s {
        NothingHappened(limits, s, m, now, e);
      }
    } else {
      NothingHappened(limits, s, m, now, e);
    }
  }

  lemma BatchFollows(limits: Limits, s: State, m: H.Model, e: Event)
    requires e.Served? && e.op.kind.Batch? && e.op.kind.commands != [] && Honest(limits, s, e)
    requires var (after, o) := ApplyBatch(s, CommandsOf(e.op.kind.commands), e.point, limits);
             var r := H.ApplyAll(m, e.op.kind.commands, None);
             o.Done? && o.reply.Replies? && |o.reply.replies| == |e.op.kind.commands| && r.Some? &&
             r.value.1 == RecordedReplies(e.op.kind.commands, o.reply.replies) && Tracks(after, r.value.0, e.point)
    ensures Follows(limits, s, m, e, true)
  {
    hide Tracks, ApplyBatch, H.ApplyAll, RecordedReplies;
    assert !exists c | c in e.op.kind.commands :: c.Batch?;
  }

  /** Any compatible request, batches included, is explained. */
  lemma ServedTracks(limits: Limits, s: State, m: H.Model, now: u64, e: Event)
    requires Tracks(s, m, now) && now <= e.point && e.Served? && Honest(limits, s, e) && Compatible(limits, s, m, e)
    ensures Follows(limits, s, m, e, ChoiceOf(limits, s, e).applied)
  {
    hide Tracks, Follows, Serve, Compatible, ChoiceOf;
    if e.op.kind.Batch? {
      BatchExplained(limits, s, m, now, e);
    } else {
      ServedExact(limits, s, m, now, e);
    }
  }
}
