/** The key/value state machine as a function on values.

    The state here has no deadline index: the set of due keys is read off the TTL map.  The
    imperative state machine in module `Kv` keeps the index and is proved to follow these
    functions step by step. */
module KvModel {
  import opened Prelude
  import opened Ordering
  import opened KvCodec
  import opened ReplyCodec
  import Decimal

  const SECOND: nat := 1_000_000_000
  const SESSION_IDLE: nat := 1800 * SECOND

  datatype Stored = Stored(value: Bytes, sequence: nat)
  datatype Session = Session(lastSequence: u64, cached: Reply, lastActive: u64)

  datatype State = State(
    maxKey: nat, maxValue: nat,
    entries: map<Bytes, Stored>,
    sequence: nat,
    ttl: map<Bytes, u64>,
    sessions: map<u64, Session>)

  /** A reply, an error, or the end of the process on a failed internal assertion. */
  datatype Outcome = Done(reply: Reply) | Failed(error: KvError) | Panicked

  datatype Limits = Limits(maxCommands: u32, maxBytes: u64, maxReplyBytes: u64, maxExpiryItems: u32)

  // ------------------------------------------------------------------
  // Reads
  // ------------------------------------------------------------------

  predicate Expired(s: State, k: Bytes, now: u64) {
    k in s.ttl && s.ttl[k] <= now
  }

  function VisibleGet(s: State, k: Bytes, now: u64): Option<Bytes> {
    if Expired(s, k, now) || k !in s.entries then None else Some(s.entries[k].value)
  }

  function TtlSeconds(s: State, k: Bytes, now: u64): i64 {
    if VisibleGet(s, k, now).None? then -2
    else if k !in s.ttl then -1
    else SatSub(s.ttl[k], now) / SECOND
  }

  function KeyRank(k: Bytes): seq<nat> {
    k
  }

  predicate InRange(k: Bytes, start: Option<Bytes>, end: Option<Bytes>) {
    (start.Some? ==> LexLe(start.value, k)) && (end.Some? ==> LexLt(k, end.value))
  }

  function Page(s: State, start: Option<Bytes>, end: Option<Bytes>, limit: nat): (page: seq<Bytes>)
    ensures forall i | 0 <= i < |page| :: page[i] in s.entries
  {
    var keys := SortedBy((set k | k in s.entries && InRange(k, start, end)), KeyRank);
    assert forall i | 0 <= i < |keys| :: keys[i] in keys;
    if |keys| <= limit then keys else keys[..limit]
  }

  function Live(s: State, page: seq<Bytes>, now: u64): seq<(Bytes, Bytes)>
    requires forall i | 0 <= i < |page| :: page[i] in s.entries
  {
    if page == [] then []
    else
      (if Expired(s, page[0], now) then [] else [(page[0], s.entries[page[0]].value)]) + Live(s, page[1..], now)
  }

  function VisibleScan(s: State, start: Option<Bytes>, end: Option<Bytes>, now: u64, limit: nat): seq<(Bytes, Bytes)> {
    Live(s, Page(s, start, end, if limit <= MAX_SCAN then limit else MAX_SCAN), now)
  }

  // ------------------------------------------------------------------
  // Writes
  // ------------------------------------------------------------------

  predicate KeyAdmitted(s: State, k: Bytes) {
    k != [] && |k| <= s.maxKey
  }

  predicate Admits(s: State, k: Bytes, v: Bytes) {
    KeyAdmitted(s, k) && |v| <= s.maxValue
  }

  function Put(s: State, k: Bytes, v: Bytes): State {
    s.(entries := s.entries[k := Stored(v, s.sequence + 1)], sequence := s.sequence + 1)
  }

  function Remove(s: State, k: Bytes): State {
    s.(entries := s.entries - {k}, sequence := s.sequence + 1)
  }

  function Disarm(s: State, k: Bytes): State {
    s.(ttl := s.ttl - {k})
  }

  function Arm(s: State, k: Bytes, deadline: u64): State {
    s.(ttl := s.ttl[k := deadline])
  }

  /** Store a value, replacing the key's deadline by `now + ttl` or by none. */
  function Write(s: State, k: Bytes, v: Bytes, ttl: Option<u64>, now: u64, reply: Reply): (State, Outcome) {
    if !Admits(s, k, v) then (s, Failed(StoreError))
    else if ttl.None? then (Disarm(Put(s, k, v), k), Done(reply))
    else if now + ttl.value > U64_MAX then (s, Panicked)
    else (Arm(Put(s, k, v), k, now + ttl.value), Done(reply))
  }

  function Erase(s: State, k: Bytes, reply: Reply): (State, Outcome) {
    if !KeyAdmitted(s, k) then (s, Failed(StoreError)) else (Disarm(Remove(s, k), k), Done(reply))
  }

  function Length(v: Bytes): i64 {
    if |v| <= 0x7fff_ffff_ffff_ffff then |v| else 0x7fff_ffff_ffff_ffff
  }

  function Increment(s: State, k: Bytes, delta: i64, now: u64): (State, Outcome) {
    var current := VisibleGet(s, k, now);
    var parsed := Decimal.ParseI64(if current.Some? then current.value else [Decimal.ZERO]);
    if parsed.None? then (s, Failed(NotNumeric))
    else
      var sum := parsed.value as int + delta as int;
      if !(-0x8000_0000_0000_0000 <= sum <= 0x7fff_ffff_ffff_ffff) then (s, Failed(NotNumeric))
      else if !Admits(s, k, Decimal.ToText(sum)) then (s, Failed(StoreError))
      else (Put(s, k, Decimal.ToText(sum)), Done(Integer(sum)))
  }

  // ------------------------------------------------------------------
  // Purging
  // ------------------------------------------------------------------

  /** The TTL map read backwards. */
  function Index(ttl: map<Bytes, u64>): set<(u64, Bytes)> {
    set k | k in ttl :: (ttl[k], k)
  }

  function DeadlineRank(d: (u64, Bytes)): seq<nat> {
    [d.0] + KeyRank(d.1)
  }

  lemma DeadlinesRanked(s: set<(u64, Bytes)>)
    ensures Ranked(s, DeadlineRank)
  {
    forall x, y | x in s && y in s && DeadlineRank(x) == DeadlineRank(y) ensures x == y {
      assert DeadlineRank(x)[0] == DeadlineRank(y)[0];
      assert DeadlineRank(x)[1..] == x.1 && DeadlineRank(y)[1..] == y.1;
    }
  }

  function Due(ttl: map<Bytes, u64>, upTo: u64): set<(u64, Bytes)> {
    set d | d in Index(ttl) && d.0 <= upTo
  }

  /** The earliest due deadlines, at most `max` of them. */
  function Purged(ttl: map<Bytes, u64>, upTo: u64, max: nat): seq<(u64, Bytes)> {
    DeadlinesRanked(Due(ttl, upTo));
    var due := SortedBy(Due(ttl, upTo), DeadlineRank);
    if |due| <= max then due else due[..max]
  }

  function RemoveAll(s: State, keys: seq<(u64, Bytes)>): State {
    if keys == [] then s
    else
      var k := keys[|keys| - 1].1;
      Disarm(Remove(RemoveAll(s, keys[..|keys| - 1]), k), k)
  }

  // ------------------------------------------------------------------
  // Commands
  // ------------------------------------------------------------------

  function KeepSessions(sessions: map<u64, Session>, upTo: u64): map<u64, Session> {
    map c | c in sessions && SatSub(upTo, sessions[c].lastActive) <= SESSION_IDLE :: sessions[c]
  }

  function ApplySingle(s: State, c: Command, now: u64, maxExpiryItems: nat): (r: (State, Outcome))
    requires !c.Batch?
  {
    match c
    case Set(k, v, ttl) => Write(s, k, v, ttl, now, Ok)
    case ConditionalSet(k, v, ttl, condition) =>
      if VisibleGet(s, k, now).Some? == condition.Xx? then Write(s, k, v, ttl, now, Conditional(true))
      else (s, Done(Conditional(false)))
    case Del(k) => Erase(s, k, Integer(1))
    case Cas(k, expected, replacement) =>
      if VisibleGet(s, k, now) != expected then (s, Done(Swapped(false)))
      else if replacement.Some? then Write(s, k, replacement.value, None, now, Swapped(true))
      else Erase(s, k, Swapped(true))
    case Incr(k, delta) => Increment(s, k, delta, now)
    case Append(k, v) =>
      var current := VisibleGet(s, k, now);
      var combined := (if current.Some? then current.value else []) + v;
      if !Admits(s, k, combined) then (s, Failed(StoreError)) else (Put(s, k, combined), Done(Integer(Length(combined))))
    case GetSet(k, v) => Write(s, k, v, None, now, Value(VisibleGet(s, k, now)))
    case GetDel(k) =>
      if VisibleGet(s, k, now).Some? then Erase(s, k, Value(VisibleGet(s, k, now)))
      else (Disarm(s, k), Done(Value(None)))
    case Expire(k, lifetime) =>
      if VisibleGet(s, k, now).None? then (s, Done(Integer(0)))
      else if now + lifetime > U64_MAX then (s, Panicked)
      else (Arm(s, k, now + lifetime), Done(Integer(1)))
    case ExpireAt(k, at) =>
      if VisibleGet(s, k, now).None? then (s, Done(Integer(0))) else (Arm(s, k, at), Done(Integer(1)))
    case Ttl(k) => (s, Done(Integer(TtlSeconds(s, k, now))))
    case Persist(k) => (Disarm(s, k), Done(Integer(if k in s.ttl then 1 else 0)))
    case PurgeExpired(upTo) =>
      var due := Purged(s.ttl, upTo, maxExpiryItems);
      (RemoveAll(s, due), Done(Integer(if |due| <= 0x7fff_ffff_ffff_ffff then |due| else 0x7fff_ffff_ffff_ffff)))
    case ExpireSessions(upTo) => (s.(sessions := KeepSessions(s.sessions, upTo)), Done(Ok))
    case Get(k) => (s, Done(Value(VisibleGet(s, k, now))))
    case Scan(start, end, limit) => (s, Done(Scanned(VisibleScan(s, start, end, now, limit))))
    case Ping => (s, Done(Ok))
  }

  /** A run of commands against a tentative state. */
  datatype Run = Ran(state: State, replies: seq<Reply>) | Broke(index: nat, error: KvError) | Died

  function RunFirst(s: State, commands: seq<Command>, n: nat, now: u64, maxExpiryItems: nat): (r: Run)
    requires n <= |commands| && Flat(commands)
    ensures r.Broke? ==> r.index < n
    ensures r.Ran? ==> |r.replies| == n
  {
    if n == 0 then Ran(s, [])
    else
      match RunFirst(s, commands, n - 1, now, maxExpiryItems)
      case Broke(i, e) => Broke(i, e)
      case Died => Died
      case Ran(t, replies) =>
        assert FieldsFit(commands[n - 1]);
        match ApplySingle(t, commands[n - 1], now, maxExpiryItems)
        case (u, Done(reply)) => Ran(u, replies + [reply])
        case (_, Failed(e)) => Broke(n - 1, e)
        case (_, Panicked) => Died
  }

  function ApplyBatch(s: State, commands: seq<Command>, now: u64, limits: Limits): (r: (State, Outcome)) {
    var refused := AdmissionError(commands, limits.maxCommands, limits.maxBytes);
    if refused.Some? then (s, Failed(refused.value))
    else
      match RunFirst(s, commands, |commands|, now, limits.maxExpiryItems)
      case Died => (s, Panicked)
      case Broke(i, e) => (s, Done(BatchError(Some(i), e)))
      case Ran(t, replies) =>
        if !ReplyFits(Replies(replies)) then (s, Panicked)
        else if |EncodeReply(Replies(replies))| > limits.maxReplyBytes then (s, Done(BatchError(None, TooLarge)))
        else (t, Done(Replies(replies)))
  }

  function ApplyCommand(s: State, c: Command, now: u64, limits: Limits): (State, Outcome) {
    if c.Batch? then ApplyBatch(s, c.commands, now, limits) else ApplySingle(s, c, now, limits.maxExpiryItems)
  }

  // ------------------------------------------------------------------
  // What every command keeps
  // ------------------------------------------------------------------

  /** Deadlines belong to stored keys; stored keys are ones the store admits; every value carries a
      sequence the store has issued. */
  ghost predicate Invariant(s: State) {
    (forall k | k in s.ttl :: k in s.entries) &&
    (forall k | k in s.entries :: Admits(s, k, s.entries[k].value) && 0 < s.entries[k].sequence <= s.sequence)
  }

  lemma {:induction false} RemoveAllIs(s: State, keys: seq<(u64, Bytes)>)
    ensures var gone := set i | 0 <= i < |keys| :: keys[i].1;
            RemoveAll(s, keys) ==
            s.(entries := s.entries - gone, ttl := s.ttl - gone, sequence := s.sequence + |keys|)
    decreases |keys|
  {
    var gone := set i | 0 <= i < |keys| :: keys[i].1;
    if keys == [] {
      assert gone == {};
      assert s.entries - gone == s.entries && s.ttl - gone == s.ttl;
    } else {
      var n := |keys| - 1;
      var front := keys[..n];
      RemoveAllIs(s, front);
      var fewer := set i | 0 <= i < |front| :: front[i].1;
      assert gone == fewer + {keys[n].1} by {
        assert forall i | 0 <= i < n :: front[i] == keys[i];
        assert forall x | x in gone :: exists i | 0 <= i < |keys| :: keys[i].1 == x;
      }
      assert s.entries - gone == s.entries - fewer - {keys[n].1};
      assert s.ttl - gone == s.ttl - fewer - {keys[n].1};
    }
  }

  lemma PutKeepsInvariant(s: State, k: Bytes, v: Bytes)
    requires Invariant(s) && Admits(s, k, v)
    ensures Invariant(Put(s, k, v))
    ensures Invariant(Disarm(Put(s, k, v), k))
    ensures forall d :: Invariant(Arm(Put(s, k, v), k, d))
  {
  }

  lemma DisarmKeepsInvariant(s: State, k: Bytes)
    requires Invariant(s)
    ensures Invariant(Disarm(s, k)) && Invariant(Disarm(Remove(s, k), k))
  {
  }

  lemma ArmKeepsInvariant(s: State, k: Bytes, d: u64)
    requires Invariant(s) && k in s.entries
    ensures Invariant(Arm(s, k, d))
  {
  }

  lemma WriteKeepsInvariant(s: State, k: Bytes, v: Bytes, ttl: Option<u64>, now: u64, reply: Reply)
    requires Invariant(s)
    ensures Invariant(Write(s, k, v, ttl, now, reply).0) && Invariant(Erase(s, k, reply).0)
  {
    hide Invariant, Put, Remove, Disarm, Arm;
    DisarmKeepsInvariant(s, k);
    if Admits(s, k, v) {
      PutKeepsInvariant(s, k, v);
    }
  }

  lemma IncrementKeepsInvariant(s: State, k: Bytes, delta: i64, now: u64)
    requires Invariant(s)
    ensures Invariant(Increment(s, k, delta, now).0)
  {
    hide Invariant, Put, Decimal.ParseI64, Decimal.ToText, Admits;
    forall v | Admits(s, k, v) ensures Invariant(Put(s, k, v)) {
      PutKeepsInvariant(s, k, v);
    }
  }

  lemma PurgeKeepsInvariant(s: State, ds: seq<(u64, Bytes)>)
    requires Invariant(s)
    ensures Invariant(RemoveAll(s, ds))
  {
    RemoveAllIs(s, ds);
    var gone := set i | 0 <= i < |ds| :: ds[i].1;
    hide RemoveAll;
  }

  lemma SingleKeepsInvariant(s: State, c: Command, now: u64, maxExpiryItems: nat)
    requires Invariant(s) && !c.Batch?
    ensures Invariant(ApplySingle(s, c, now, maxExpiryItems).0)
  {
    hide Invariant, Purged, VisibleScan, Write, Erase, Increment, Put, Remove, Disarm, Arm, RemoveAll, Admits;
    match c
    case Set(k, v, ttl) => WriteKeepsInvariant(s, k, v, ttl, now, Ok);
    case ConditionalSet(k, v, ttl, _) => WriteKeepsInvariant(s, k, v, ttl, now, Conditional(true));
    case Del(k) => WriteKeepsInvariant(s, k, [], None, now, Integer(1));
    case Cas(k, _, replacement) =>
      WriteKeepsInvariant(s, k, if replacement.Some? then replacement.value else [], None, now, Swapped(true));
    case Incr(k, delta) => IncrementKeepsInvariant(s, k, delta, now);
    case Append(k, v) =>
      forall w | Admits(s, k, w) ensures Invariant(Put(s, k, w)) {
        PutKeepsInvariant(s, k, w);
      }
    case GetSet(k, v) => WriteKeepsInvariant(s, k, v, None, now, Value(VisibleGet(s, k, now)));
    case GetDel(k) =>
      WriteKeepsInvariant(s, k, [], None, now, Value(VisibleGet(s, k, now)));
      DisarmKeepsInvariant(s, k);
    case Expire(k, lifetime) =>
      if VisibleGet(s, k, now).Some? && now + lifetime <= U64_MAX { ArmKeepsInvariant(s, k, now + lifetime); }
    case ExpireAt(k, at) =>
      if VisibleGet(s, k, now).Some? { ArmKeepsInvariant(s, k, at); }
    case Persist(k) => DisarmKeepsInvariant(s, k);
    case PurgeExpired(upTo) => PurgeKeepsInvariant(s, Purged(s.ttl, upTo, maxExpiryItems));
    case ExpireSessions(upTo) => SessionsDoNotMatter(s, KeepSessions(s.sessions, upTo));
    case _ =>
  }

  lemma SessionsDoNotMatter(s: State, sessions: map<u64, Session>)
    requires Invariant(s)
    ensures Invariant(s.(sessions := sessions))
  {
  }

  lemma {:induction false} RunKeepsInvariant(s: State, commands: seq<Command>, n: nat, now: u64, maxExpiryItems: nat)
    requires Invariant(s) && n <= |commands| && Flat(commands)
    ensures RunFirst(s, commands, n, now, maxExpiryItems).Ran? ==>
              Invariant(RunFirst(s, commands, n, now, maxExpiryItems).state)
    decreases n
  {
    hide ApplySingle, Invariant;
    if n > 0 {
      RunKeepsInvariant(s, commands, n - 1, now, maxExpiryItems);
      var before := RunFirst(s, commands, n - 1, now, maxExpiryItems);
      if before.Ran? {
        SingleKeepsInvariant(before.state, commands[n - 1], now, maxExpiryItems);
      }
    }
  }

  /** Every command keeps the invariant, batches included. */
  lemma CommandKeepsInvariant(s: State, c: Command, now: u64, limits: Limits)
    requires Invariant(s)
    ensures Invariant(ApplyCommand(s, c, now, limits).0)
  {
    hide ApplySingle, Invariant, EncodeReply, ReplyFits, RunFirst;
    if c.Batch? {
      if AdmissionError(c.commands, limits.maxCommands, limits.maxBytes).None? {
        RunKeepsInvariant(s, c.commands, |c.commands|, now, limits.maxExpiryItems);
      }
    } else {
      SingleKeepsInvariant(s, c, now, limits.maxExpiryItems);
    }
  }

  // ------------------------------------------------------------------
  // Batches are atomic
  // ------------------------------------------------------------------

  /** `trace` is the states passed through by applying the first commands one by one, and `replies`
      what they answered. */
  ghost predicate Applies(trace: seq<State>, commands: seq<Command>, replies: seq<Reply>, now: u64, maxExpiryItems: nat)
    requires Flat(commands)
  {
    |trace| == |replies| + 1 && |replies| <= |commands| &&
    forall i | 0 <= i < |replies| ::
      FieldsFit(commands[i]) && ApplySingle(trace[i], commands[i], now, maxExpiryItems) == (trace[i + 1], Done(replies[i]))
  }

  /** A run is exactly such a trace, up to the first command that does not answer. */
  lemma {:induction false} RunIsTrace(s: State, commands: seq<Command>, n: nat, now: u64, m: nat)
    returns (trace: seq<State>, replies: seq<Reply>)
    requires n <= |commands| && Flat(commands)
    ensures Applies(trace, commands, replies, now, m) && trace[0] == s && |replies| <= n
    ensures |replies| < n ==> !ApplySingle(trace[|replies|], commands[|replies|], now, m).1.Done?
    ensures match RunFirst(s, commands, n, now, m)
            case Ran(t, rs) => |replies| == n && rs == replies && t == trace[n]
            case Broke(i, e) =>
              |replies| == i && i < n && ApplySingle(trace[i], commands[i], now, m).1 == Failed(e)
            case Died => |replies| < n && ApplySingle(trace[|replies|], commands[|replies|], now, m).1.Panicked?
    decreases n
  {
    hide ApplySingle, FieldsFit;
    if n == 0 {
      trace, replies := [s], [];
    } else {
      trace, replies := RunIsTrace(s, commands, n - 1, now, m);
      if |replies| == n - 1 {
        assert FieldsFit(commands[n - 1]);
        assert !commands[n - 1].Batch? by { if commands[n - 1].Batch? { BatchIsNotFlat(commands, n - 1); } }
        var (u, outcome) := ApplySingle(trace[n - 1], commands[n - 1], now, m);
        if outcome.Done? {
          trace, replies := trace + [u], replies + [outcome.reply];
        }
      }
    }
  }

  /** The whole of batch atomicity.  An admitted batch either answers every command in order, in
      which case its effect is theirs, or changes nothing; and it names the first command that
      failed, or none when only the combined reply was too large. */
  lemma BatchAtomicity(s: State, commands: seq<Command>, now: u64, limits: Limits)
    returns (trace: seq<State>, replies: seq<Reply>)
    requires Admissible(commands, limits.maxCommands, limits.maxBytes)
    ensures Applies(trace, commands, replies, now, limits.maxExpiryItems) && trace[0] == s
    ensures var (after, outcome) := ApplyBatch(s, commands, now, limits);
      var done := |replies|;
      if done == |commands| then
        if !ReplyFits(Replies(replies)) then outcome.Panicked? && after == s
        else if |EncodeReply(Replies(replies))| > limits.maxReplyBytes then
          outcome == Done(BatchError(None, TooLarge)) && after == s
        else outcome == Done(Replies(replies)) && after == trace[done]
      else
        after == s &&
        match ApplySingle(trace[done], commands[done], now, limits.maxExpiryItems).1
        case Failed(e) => outcome == Done(BatchError(Some(done), e))
        case Panicked => outcome.Panicked?
        case Done(_) => false
  {
    hide ApplySingle, EncodeReply, ReplyFits, FieldsFit, ChildCharge;
    trace, replies := RunIsTrace(s, commands, |commands|, now, limits.maxExpiryItems);
  }

  /** A batch changes the state only by succeeding. */
  lemma FailedBatchChangesNothing(s: State, commands: seq<Command>, now: u64, limits: Limits)
    ensures var (after, outcome) := ApplyBatch(s, commands, now, limits);
            !(outcome.Done? && outcome.reply.Replies?) ==> after == s
  {
  }

  // ------------------------------------------------------------------
  // Purging is bounded, earliest-first and invisible
  // ------------------------------------------------------------------

  function KeysOf(ds: seq<(u64, Bytes)>): set<Bytes> {
    set i | 0 <= i < |ds| :: ds[i].1
  }

  /** A purge removes exactly the earliest due keys up to its bound, value and deadline together. */
  lemma PurgeExact(s: State, upTo: u64, now: u64, max: nat)
    ensures var (after, outcome) := ApplySingle(s, PurgeExpired(upTo), now, max);
      var gone := KeysOf(Purged(s.ttl, upTo, max));
      var due := set k | k in s.ttl && s.ttl[k] <= upTo;
      && after == s.(entries := s.entries - gone, ttl := s.ttl - gone, sequence := s.sequence + |gone|)
      && gone <= due
      && |gone| == (if |due| <= max then |due| else max)
      && (forall k, j | k in gone && j in due && j !in gone :: Sooner(s.ttl, k, j))
  {
    hide LexLe, LexLt, Purged, KeysOf;
    var ds := Purged(s.ttl, upTo, max);
    PurgedAre(s.ttl, upTo, max);
    assert KeysOf(ds) == set i | 0 <= i < |ds| :: ds[i].1 by { KeysOfIs(ds); }
    RemoveAllIs(s, ds);
    forall k, j | k in KeysOf(ds) && j in s.ttl && s.ttl[j] <= upTo && j !in KeysOf(ds) ensures Sooner(s.ttl, k, j) {
      PurgedFirst(s.ttl, upTo, max, k, j);
    }
  }

  lemma KeysOfIs(ds: seq<(u64, Bytes)>)
    ensures KeysOf(ds) == set i | 0 <= i < |ds| :: ds[i].1
  {
  }

  ghost predicate Sooner(ttl: map<Bytes, u64>, k: Bytes, j: Bytes) {
    k in ttl && j in ttl && LexLt(DeadlineRank((ttl[k], k)), DeadlineRank((ttl[j], j)))
  }

  lemma PurgedFirst(ttl: map<Bytes, u64>, upTo: u64, max: nat, k: Bytes, j: Bytes)
    requires var gone := KeysOf(Purged(ttl, upTo, max)); k in gone && j in ttl && ttl[j] <= upTo && j !in gone
    ensures Sooner(ttl, k, j)
  {
    hide LexLe, LexLt, SortedBy, DeadlineRank;
    DeadlinesRanked(Due(ttl, upTo));
    var all := SortedBy(Due(ttl, upTo), DeadlineRank);
    var ds := Purged(ttl, upTo, max);
    var i :| 0 <= i < |ds| && ds[i].1 == k;
    assert all[i] == ds[i] && ds[i] in all;
    assert (ttl[j], j) in Due(ttl, upTo);
    var p :| 0 <= p < |all| && all[p] == (ttl[j], j);
    assert forall q | 0 <= q < |ds| :: all[q] == ds[q] && all[q].1 in KeysOf(ds);
  }

  lemma PurgedAre(ttl: map<Bytes, u64>, upTo: u64, max: nat)
    ensures var ds := Purged(ttl, upTo, max);
      var due := set k | k in ttl && ttl[k] <= upTo;
      && (forall i | 0 <= i < |ds| :: ds[i].1 in ttl && ttl[ds[i].1] == ds[i].0 && ds[i].0 <= upTo)
      && KeysOf(ds) <= due
      && |KeysOf(ds)| == |ds| == (if |due| <= max then |due| else max)
  {
    hide LexLe, LexLt;
    var ds := Purged(ttl, upTo, max);
    DeadlinesRanked(Due(ttl, upTo));
    var all := SortedBy(Due(ttl, upTo), DeadlineRank);
    var due := set k | k in ttl && ttl[k] <= upTo;
    assert forall i | 0 <= i < |ds| :: ds[i] in all;
    assert forall i | 0 <= i < |ds| :: ds[i] in Due(ttl, upTo);
    DueSize(ttl, upTo);
    forall i, j | 0 <= i < j < |ds| ensures ds[i].1 != ds[j].1 {
      assert LexLt(DeadlineRank(all[i]), DeadlineRank(all[j]));
      DistinctRanks(all[i], all[j]);
    }
    DistinctCount(ds);
  }

  lemma DistinctRanks(a: (u64, Bytes), b: (u64, Bytes))
    requires LexLt(DeadlineRank(a), DeadlineRank(b))
    ensures a != b
  {
  }

  lemma {:induction false} DistinctCount(ds: seq<(u64, Bytes)>)
    requires forall i, j | 0 <= i < j < |ds| :: ds[i].1 != ds[j].1
    ensures |KeysOf(ds)| == |ds|
    decreases |ds|
  {
    if ds != [] {
      var n := |ds| - 1;
      DistinctCount(ds[..n]);
      assert KeysOf(ds) == KeysOf(ds[..n]) + {ds[n].1} by {
        assert forall i | 0 <= i < n :: ds[..n][i] == ds[i];
        forall x | x in KeysOf(ds) ensures x in KeysOf(ds[..n]) + {ds[n].1} {
          var i :| 0 <= i < |ds| && ds[i].1 == x;
          if i < n { assert ds[..n][i].1 == x; }
        }
      }
      assert ds[n].1 !in KeysOf(ds[..n]);
    }
  }

  lemma DueSize(ttl: map<Bytes, u64>, upTo: u64)
    ensures |Due(ttl, upTo)| == |set k | k in ttl && ttl[k] <= upTo|
  {
    var due := set k | k in ttl && ttl[k] <= upTo;
    assert Due(ttl, upTo) == set k | k in due :: (ttl[k], k);
    PairsSize(ttl, due);
  }

  lemma {:induction false} PairsSize(ttl: map<Bytes, u64>, ks: set<Bytes>)
    requires ks <= ttl.Keys
    ensures |set k | k in ks :: (ttl[k], k)| == |ks|
    decreases ks
  {
    if ks != {} {
      var x :| x in ks;
      PairsSize(ttl, ks - {x});
      assert (set k | k in ks :: (ttl[k], k)) == (set k | k in ks - {x} :: (ttl[k], k)) + {(ttl[x], x)};
    }
  }

  /** Purging up to `u` changes no Get or Ttl answer at any time from `u` on. */
  lemma PurgeInvisible(s: State, upTo: u64, now: u64, max: nat, k: Bytes, at: u64)
    requires Invariant(s) && upTo <= at
    ensures var after := ApplySingle(s, PurgeExpired(upTo), now, max).0;
            VisibleGet(after, k, at) == VisibleGet(s, k, at) &&
            TtlSeconds(after, k, at) == TtlSeconds(s, k, at)
  {
    hide LexLe, LexLt, Purged, ApplySingle, KeysOf;
    PurgeExact(s, upTo, now, max);
  }
}
