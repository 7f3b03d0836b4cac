/** The key/value state machine as the program runs it: fields updated in place, with an ordered
    index of deadlines beside the TTL map.  `Model()` forgets the index; every method is proved
    to follow `KvModel` on what remains, and to keep the index the exact inverse of the map. */
module Kv {
  import opened Prelude
  import opened Ordering
  import opened KvCodec
  import opened ReplyCodec
  import opened KvModel
  import opened KvSnapshot
  import Decimal

  lemma IndexInsert(ttl: map<Bytes, u64>, k: Bytes, d: u64)
    requires k !in ttl
    ensures Index(ttl[k := d]) == Index(ttl) + {(d, k)}
  {
    var more := ttl[k := d];
    forall p | p in Index(ttl) + {(d, k)} ensures p in Index(more) {
      assert p.1 in more && more[p.1] == p.0;
    }
  }

  lemma IndexRemove(ttl: map<Bytes, u64>, k: Bytes)
    requires k in ttl
    ensures Index(ttl - {k}) == Index(ttl) - {(ttl[k], k)}
  {
    var less := ttl - {k};
    forall p | p in Index(ttl) - {(ttl[k], k)} ensures p in Index(less) {
      assert p.1 in less && less[p.1] == p.0;
    }
  }

  lemma LaterDeadline(a: (u64, Bytes), b: (u64, Bytes))
    requires LexLt(DeadlineRank(a), DeadlineRank(b))
    ensures a.0 <= b.0
  {
    assert DeadlineRank(a)[0] == a.0 && DeadlineRank(b)[0] == b.0;
  }

  /** Walking the whole index in order until a deadline is in the future lists the due ones. */
  lemma DuePrefix(ttl: map<Bytes, u64>, all: seq<(u64, Bytes)>, upTo: u64, n: nat)
    requires Increasing(all, DeadlineRank) && forall d :: d in all <==> d in Index(ttl)
    requires n <= |all| && (forall i | 0 <= i < n :: all[i].0 <= upTo) && (n < |all| ==> all[n].0 > upTo)
    ensures Ranked(Due(ttl, upTo), DeadlineRank)
    ensures SortedBy(Due(ttl, upTo), DeadlineRank) == all[..n]
  {
    hide LexLt, DeadlineRank;
    DeadlinesRanked(Due(ttl, upTo));
    forall d ensures d in all[..n] <==> d in Due(ttl, upTo) {
      if d in Due(ttl, upTo) {
        var p :| 0 <= p < |all| && all[p] == d;
        if n < p {
          LaterDeadline(all[n], all[p]);
        }
      }
      if d in all[..n] {
        assert d in all;
      }
    }
    SortedUnique(SortedBy(Due(ttl, upTo), DeadlineRank), all[..n], DeadlineRank);
  }

  /** The key to delete next is one the store accepts. */
  lemma PurgeStep(start: State, upTo: u64, max: nat, i: nat)
    requires Invariant(start) && i < |Purged(start.ttl, upTo, max)|
    ensures var ds := Purged(start.ttl, upTo, max);
            KeyAdmitted(RemoveAll(start, ds[..i]), ds[i].1) &&
            RemoveAll(start, ds[..i + 1]) == Disarm(Remove(RemoveAll(start, ds[..i]), ds[i].1), ds[i].1) &&
            Invariant(RemoveAll(start, ds[..i + 1]))
  {
    var ds := Purged(start.ttl, upTo, max);
    PurgedAre(start.ttl, upTo, max);
    hide Purged, LexLe;
    RemoveAllIs(start, ds[..i]);
    PurgeKeepsInvariant(start, ds[..i + 1]);
    assert ds[..i + 1][..i] == ds[..i];
  }

  lemma NothingRemoved(s: State)
    ensures RemoveAll(s, []) == s
  {
  }

  lemma NotNested(commands: seq<Command>, i: nat)
    requires Flat(commands) && i < |commands|
    ensures !commands[i].Batch? && FieldsFit(commands[i])
  {
  }

  /** A run that has stopped stays stopped. */
  lemma {:induction false} RunStops(s: State, commands: seq<Command>, n: nat, now: u64, m: nat)
    requires n <= |commands| && Flat(commands)
    ensures !RunFirst(s, commands, n, now, m).Ran? ==>
              RunFirst(s, commands, |commands|, now, m) == RunFirst(s, commands, n, now, m)
    decreases |commands| - n
  {
    hide KvModel.ApplySingle, FieldsFit;
    if n < |commands| {
      RunStops(s, commands, n + 1, now, m);
    }
  }

  class Machine {
    const maxKey: nat
    const maxValue: nat
    var entries: map<Bytes, Stored>
    var sequence: nat
    var sessions: map<u64, Session>
    var ttl: map<Bytes, u64>
    var deadlines: set<(u64, Bytes)>
    var appliedIndex: u64
    var appliedTerm: u64
    var lastLeaderTime: u64

    ghost predicate Valid()
      reads this
    {
      deadlines == Index(ttl) && Invariant(Model())
    }

    function Model(): State
      reads this
    {
      State(maxKey, maxValue, entries, sequence, ttl, sessions)
    }

    constructor (maxKey: nat, maxValue: nat)
      ensures Valid()
      ensures Model() == State(maxKey, maxValue, map[], 0, map[], map[])
      ensures appliedIndex == 0 && appliedTerm == 0 && lastLeaderTime == 0
    {
      this.maxKey, this.maxValue := maxKey, maxValue;
      entries, sequence, sessions, ttl, deadlines := map[], 0, map[], map[], {};
      appliedIndex, appliedTerm, lastLeaderTime := 0, 0, 0;
    }

    /** A copy to work on tentatively. */
    constructor Clone(other: Machine)
      requires other.Valid()
      ensures Valid() && Model() == other.Model()
    {
      maxKey, maxValue := other.maxKey, other.maxValue;
      entries, sequence, sessions := other.entries, other.sequence, other.sessions;
      ttl, deadlines := other.ttl, other.deadlines;
      appliedIndex, appliedTerm, lastLeaderTime := other.appliedIndex, other.appliedTerm, other.lastLeaderTime;
    }

    /** Store one value, or refuse it and change nothing. */
    method StorePut(k: Bytes, v: Bytes) returns (ok: bool)
      modifies `entries, `sequence
      ensures ok <==> Admits(old(Model()), k, v)
      ensures Model() == if ok then Put(old(Model()), k, v) else old(Model())
    {
      if k == [] || |k| > maxKey || |v| > maxValue {
        return false;
      }
      sequence := sequence + 1;
      entries := entries[k := Stored(v, sequence)];
      return true;
    }

    method StoreDelete(k: Bytes) returns (ok: bool)
      modifies `entries, `sequence
      ensures ok <==> KeyAdmitted(old(Model()), k)
      ensures Model() == if ok then Remove(old(Model()), k) else old(Model())
    {
      if k == [] || |k| > maxKey {
        return false;
      }
      sequence := sequence + 1;
      entries := entries - {k};
      return true;
    }

    /** Map and index move together. */
    method ReplaceDeadline(k: Bytes, deadline: Option<u64>)
      requires deadlines == Index(ttl)
      modifies `ttl, `deadlines
      ensures deadlines == Index(ttl)
      ensures Model() == if deadline.None? then Disarm(old(Model()), k) else Arm(old(Model()), k, deadline.value)
    {
      if k in ttl {
        IndexRemove(ttl, k);
        deadlines := deadlines - {(ttl[k], k)};
        ttl := ttl - {k};
      } else {
        assert ttl - {k} == ttl;
      }
      if deadline.Some? {
        IndexInsert(ttl, k, deadline.value);
        assert old(ttl)[k := deadline.value] == ttl[k := deadline.value];
        ttl := ttl[k := deadline.value];
        deadlines := deadlines + {(deadline.value, k)};
      }
    }

    /** Store a value and replace the key's deadline. */
    method PutAndArm(k: Bytes, v: Bytes, lifetime: Option<u64>, now: u64, reply: Reply) returns (outcome: Outcome)
      requires Valid()
      modifies `entries, `sequence, `ttl, `deadlines
      ensures !outcome.Panicked? ==> Valid() && (Model(), outcome) == Write(old(Model()), k, v, lifetime, now, reply)
      ensures outcome.Panicked? <==> Write(old(Model()), k, v, lifetime, now, reply).1.Panicked?
    {
      WriteKeepsInvariant(Model(), k, v, lifetime, now, reply);
      hide Invariant, Index;
      var ok := StorePut(k, v);
      if !ok {
        return Failed(StoreError);
      }
      if lifetime.Some? && now + lifetime.value > U64_MAX {
        return Panicked;
      }
      ReplaceDeadline(k, if lifetime.None? then None else Some(now + lifetime.value));
      return Done(reply);
    }

    method DeleteAndDisarm(k: Bytes, reply: Reply) returns (outcome: Outcome)
      requires Valid()
      modifies `entries, `sequence, `ttl, `deadlines
      ensures Valid() && (Model(), outcome) == Erase(old(Model()), k, reply)
    {
      WriteKeepsInvariant(Model(), k, [], None, 0, reply);
      hide Invariant, Index;
      var ok := StoreDelete(k);
      if !ok {
        return Failed(StoreError);
      }
      ReplaceDeadline(k, None);
      return Done(reply);
    }

    /** Store a value, keeping whatever deadline the key has. */
    method PutInPlace(k: Bytes, v: Bytes, reply: Reply) returns (outcome: Outcome)
      requires Valid()
      modifies `entries, `sequence
      ensures Valid()
      ensures (Model(), outcome) ==
              if Admits(old(Model()), k, v) then (Put(old(Model()), k, v), Done(reply)) else (old(Model()), Failed(StoreError))
    {
      if Admits(Model(), k, v) {
        PutKeepsInvariant(Model(), k, v);
      }
      hide Invariant, Index;
      var ok := StorePut(k, v);
      return if ok then Done(reply) else Failed(StoreError);
    }

    method Deadline(k: Bytes, deadline: Option<u64>)
      requires Valid() && (deadline.Some? ==> k in entries)
      modifies `ttl, `deadlines
      ensures Valid()
      ensures Model() == if deadline.None? then Disarm(old(Model()), k) else Arm(old(Model()), k, deadline.value)
    {
      DisarmKeepsInvariant(Model(), k);
      if deadline.Some? {
        ArmKeepsInvariant(Model(), k, deadline.value);
      }
      hide Invariant, Index;
      ReplaceDeadline(k, deadline);
    }

    /** Remove the earliest due keys by walking the index from its front. */
    method Purge(upTo: u64, max: nat) returns (count: nat)
      requires Valid()
      modifies `entries, `sequence, `ttl, `deadlines
      ensures Valid()
      ensures Model() == RemoveAll(old(Model()), Purged(old(ttl), upTo, max))
      ensures count == |Purged(old(ttl), upTo, max)|
    {
      var expired := FrontOfIndex(upTo, max);
      hide Purged, Invariant, Index, RemoveAll;
      ghost var start := Model();
      NothingRemoved(start);
      assert expired[..0] == [];
      for i := 0 to |expired|
        invariant Valid() && Model() == RemoveAll(start, expired[..i])
      {
        PurgeStep(start, upTo, max, i);
        var ok := StoreDelete(expired[i].1);
        ReplaceDeadline(expired[i].1, None);
      }
      assert expired[..|expired|] == expired;
      count := |expired|;
    }

    method FrontOfIndex(upTo: u64, max: nat) returns (expired: seq<(u64, Bytes)>)
      requires Valid()
      ensures expired == Purged(ttl, upTo, max)
    {
      hide Invariant, Index, LexLt, DeadlineRank, Due, SortedBy, Increasing, Ranked;
      DeadlinesRanked(deadlines);
      var all := SortedBy(deadlines, DeadlineRank);
      var n := 0;
      while n < |all| && all[n].0 <= upTo
        invariant n <= |all| && forall i | 0 <= i < n :: all[i].0 <= upTo
      {
        n := n + 1;
      }
      DuePrefix(ttl, all, upTo, n);
      expired := if n <= max then all[..n] else all[..max];
      assert n > max ==> all[..n][..max] == all[..max];
    }

    /** One ordinary command. */
    method ApplySingle(c: Command, now: u64, maxExpiryItems: nat) returns (outcome: Outcome)
      requires Valid() && !c.Batch?
      modifies `entries, `sequence, `ttl, `deadlines, `sessions
      ensures outcome.Panicked? <==> KvModel.ApplySingle(old(Model()), c, now, maxExpiryItems).1.Panicked?
      ensures !outcome.Panicked? ==>
                Valid() && (Model(), outcome) == KvModel.ApplySingle(old(Model()), c, now, maxExpiryItems)
    {
      hide Invariant, Index, Purged, RemoveAll, VisibleScan, Write, Erase, Put, Remove, Disarm, Arm,
           Decimal.ParseI64, Decimal.ToText;
      match c
      case Set(k, v, lifetime) => outcome := PutAndArm(k, v, lifetime, now, Ok);
      case ConditionalSet(k, v, lifetime, condition) =>
        var exists' := VisibleGet(Model(), k, now).Some?;
        var matches := match condition case Nx => !exists' case Xx => exists';
        if !matches {
          return Done(Conditional(false));
        }
        outcome := PutAndArm(k, v, lifetime, now, Conditional(true));
      case Del(k) => outcome := DeleteAndDisarm(k, Integer(1));
      case Cas(k, expected, replacement) =>
        if VisibleGet(Model(), k, now) != expected {
          return Done(Swapped(false));
        }
        if replacement.Some? {
          outcome := PutAndArm(k, replacement.value, None, now, Swapped(true));
        } else {
          outcome := DeleteAndDisarm(k, Swapped(true));
        }
      case Incr(k, delta) =>
        var current := VisibleGet(Model(), k, now);
        var parsed := Decimal.ParseI64(if current.Some? then current.value else [Decimal.ZERO]);
        if parsed.None? {
          return Failed(NotNumeric);
        }
        var sum := parsed.value as int + delta as int;
        if !(-0x8000_0000_0000_0000 <= sum <= 0x7fff_ffff_ffff_ffff) {
          return Failed(NotNumeric);
        }
        outcome := PutInPlace(k, Decimal.ToText(sum), Integer(sum));
      case Append(k, v) =>
        var current := VisibleGet(Model(), k, now);
        var combined := (if current.Some? then current.value else []) + v;
        outcome := PutInPlace(k, combined, Integer(Length(combined)));
      case GetSet(k, v) =>
        outcome := PutAndArm(k, v, None, now, Value(VisibleGet(Model(), k, now)));
      case GetDel(k) =>
        var previous := VisibleGet(Model(), k, now);
        if previous.Some? {
          outcome := DeleteAndDisarm(k, Value(previous));
        } else {
          Deadline(k, None);
          outcome := Done(Value(None));
        }
      case Expire(k, lifetime) =>
        if VisibleGet(Model(), k, now).None? {
          return Done(Integer(0));
        }
        if now + lifetime > U64_MAX {
          return Panicked;
        }
        Deadline(k, Some(now + lifetime));
        outcome := Done(Integer(1));
      case ExpireAt(k, at) =>
        if VisibleGet(Model(), k, now).None? {
          return Done(Integer(0));
        }
        Deadline(k, Some(at));
        outcome := Done(Integer(1));
      case Ttl(k) => outcome := Done(Integer(TtlSeconds(Model(), k, now)));
      case Persist(k) =>
        var existed := k in ttl;
        Deadline(k, None);
        outcome := Done(Integer(if existed then 1 else 0));
      case PurgeExpired(upTo) =>
        var count := Purge(upTo, maxExpiryItems);
        outcome := Done(Integer(if count <= 0x7fff_ffff_ffff_ffff then count else 0x7fff_ffff_ffff_ffff));
      case ExpireSessions(upTo) =>
        SessionsDoNotMatter(Model(), KeepSessions(sessions, upTo));
        sessions := KeepSessions(sessions, upTo);
        outcome := Done(Ok);
      case Get(k) => outcome := Done(Value(VisibleGet(Model(), k, now)));
      case Scan(start, end, limit) => outcome := Done(Scanned(VisibleScan(Model(), start, end, now, limit)));
      case Ping => outcome := Done(Ok);
    }

    /** A batch runs on a copy, which replaces the machine only when everything answered and the
        combined reply is small enough. */
    method ApplyBatch(commands: seq<Command>, now: u64, limits: Limits) returns (outcome: Outcome)
      requires Valid()
      requires forall i | 0 <= i < |commands| :: commands[i].Batch? || FieldsFit(commands[i])
      modifies `entries, `sequence, `ttl, `deadlines, `sessions
      ensures Valid() && (Model(), outcome) == KvModel.ApplyBatch(old(Model()), commands, now, limits)
    {
      hide Invariant, Index, KvModel.ApplySingle, FieldsFit, ReplyFits, EncodeReply, ChildCharge;
      var refused := ValidateBatch(commands, limits.maxCommands, limits.maxBytes);
      if refused.Some? {
        return Failed(refused.value);
      }
      var tentative := new Machine.Clone(this);
      var replies := [];
      for i := 0 to |commands|
        invariant tentative.Valid() && unchanged(this)
        invariant RunFirst(old(Model()), commands, i, now, limits.maxExpiryItems) == Ran(tentative.Model(), replies)
      {
        NotNested(commands, i);
        var result := tentative.ApplySingle(commands[i], now, limits.maxExpiryItems);
        RunStops(old(Model()), commands, i + 1, now, limits.maxExpiryItems);
        match result
        case Done(reply) => replies := replies + [reply];
        case Failed(e) => return Done(BatchError(Some(i), e));
        case Panicked => return Panicked;
      }
      var reply := Replies(replies);
      if !ReplyFits(reply) {
        return Panicked;
      }
      if |EncodeReply(reply)| > limits.maxReplyBytes {
        return Done(BatchError(None, TooLarge));
      }
      entries, sequence, sessions := tentative.entries, tentative.sequence, tentative.sessions;
      ttl, deadlines := tentative.ttl, tentative.deadlines;
      return Done(reply);
    }

    /** Apply one committed command at a time that never runs backwards, and move the cursor. */
    method ApplyCommandOnly(index: u64, term: u64, c: Command, leaderTime: u64, limits: Limits) returns (reply: Option<Reply>)
      requires Valid()
      requires c.Batch? ==> forall i | 0 <= i < |c.commands| :: c.commands[i].Batch? || FieldsFit(c.commands[i])
      modifies this
      ensures lastLeaderTime == if leaderTime < old(lastLeaderTime) then old(lastLeaderTime) else leaderTime
      ensures var (after, outcome) := ApplyCommand(old(Model()), c, lastLeaderTime, limits);
              (reply.None? <==> outcome.Panicked?) &&
              (reply.Some? ==>
                 Valid() && Model() == after && appliedIndex == index && appliedTerm == term &&
                 reply.value == if outcome.Done? then outcome.reply else Error(outcome.error))
    {
      hide Invariant, Index, KvModel.ApplySingle, KvModel.ApplyBatch;
      if leaderTime >= lastLeaderTime {
        lastLeaderTime := leaderTime;
      }
      var outcome;
      if c.Batch? {
        outcome := ApplyBatch(c.commands, lastLeaderTime, limits);
      } else {
        outcome := ApplySingle(c, lastLeaderTime, limits.maxExpiryItems);
      }
      if outcome.Panicked? {
        return None;
      }
      appliedIndex, appliedTerm := index, term;
      return Some(if outcome.Done? then outcome.reply else Error(outcome.error));
    }

    function AsReplica(): Replica
      reads this
    {
      Replica(Model(), appliedIndex, appliedTerm, lastLeaderTime)
    }

    constructor Resume(state: State, appliedIndex: u64, appliedTerm: u64, lastLeaderTime: u64)
      requires Invariant(state)
      ensures Valid() && AsReplica() == Replica(state, appliedIndex, appliedTerm, lastLeaderTime)
    {
      maxKey, maxValue := state.maxKey, state.maxValue;
      entries, sequence, sessions, ttl := state.entries, state.sequence, state.sessions, state.ttl;
      deadlines := set k | k in state.ttl :: (state.ttl[k], k);
      this.appliedIndex, this.appliedTerm, this.lastLeaderTime := appliedIndex, appliedTerm, lastLeaderTime;
    }
  }

  /** The TTL map of a snapshot, refused when a deadline has passed or a key repeats. */
  method RestoreDeadlines(es: seq<LogicalEntry>, lastLeaderTime: u64) returns (ttl: Option<map<Bytes, u64>>)
    ensures ttl.Some? ==> ttl.value == DeadlinesOf(es)
    ensures ttl.Some? ==> forall j | 0 <= j < |es| && es[j].deadline.Some? :: es[j].deadline.value > lastLeaderTime
    ensures ttl.None? ==>
              !KeysAscend(es) || exists j | 0 <= j < |es| :: es[j].deadline.Some? && es[j].deadline.value <= lastLeaderTime
  {
    hide LexLe, LexLt, KeysAscend;
    var m: map<Bytes, u64> := map[];
    for i := 0 to |es|
      invariant m == DeadlinesOf(es[..i])
      invariant forall j | 0 <= j < i :: es[j].deadline.Some? ==> es[j].deadline.value > lastLeaderTime
    {
      assert es[..i + 1][..i] == es[..i];
      if es[i].deadline.Some? {
        if es[i].deadline.value <= lastLeaderTime {
          return None;
        }
        if es[i].key in m {
          RepeatedKey(es, i);
          return None;
        }
        m := m[es[i].key := es[i].deadline.value];
      }
    }
    assert es[..|es|] == es;
    return Some(m);
  }

  /** The store's contents, refused at the first entry out of order or out of bounds. */
  method RestoreValues(es: seq<LogicalEntry>, maxKey: nat, maxValue: nat, storeSequence: nat)
    returns (values: Option<map<Bytes, Stored>>)
    ensures values.Some? <==>
              KeysAscend(es) &&
              forall j | 0 <= j < |es| ::
                es[j].key != [] && |es[j].key| <= maxKey && |es[j].value| <= maxValue && 0 < es[j].sequence <= storeSequence
    ensures values.Some? ==> values.value == ValuesOf(es)
  {
    hide LexLe, LexLt;
    var m: map<Bytes, Stored> := map[];
    for i := 0 to |es|
      invariant m == ValuesOf(es[..i])
      invariant forall j | 0 <= j < i ::
        es[j].key != [] && |es[j].key| <= maxKey && |es[j].value| <= maxValue && 0 < es[j].sequence <= storeSequence
      invariant forall j | 0 < j < i :: LexLt(es[j - 1].key, es[j].key)
    {
      var e := es[i];
      if e.key == [] || |e.key| > maxKey || |e.value| > maxValue || e.sequence == 0 || e.sequence > storeSequence {
        return None;
      }
      if i > 0 && !LexLt(es[i - 1].key, e.key) {
        return None;
      }
      assert es[..i + 1][..i] == es[..i];
      m := m[e.key := Stored(e.value, e.sequence)];
    }
    assert es[..|es|] == es;
    return Some(m);
  }

  /** Rebuild a machine from a portable snapshot, or refuse it. */
  method RestoreLogical(snapshot: Logical, maxKey: nat, maxValue: nat) returns (m: Machine?)
    ensures m == null <==> !Acceptable(snapshot, maxKey, maxValue)
    ensures m != null ==> fresh(m) && m.Valid() && m.AsReplica() == Restored(snapshot, maxKey, maxValue)
  {
    hide LexLe, LexLt, Invariant, Index, KeysAscend, ValuesOf, DeadlinesOf;
    var es := snapshot.entries;
    var ttl := RestoreDeadlines(es, snapshot.lastLeaderTime);
    if ttl.None? {
      return null;
    }
    var values := RestoreValues(es, maxKey, maxValue, snapshot.storeSequence);
    if values.None? {
      return null;
    }
    if snapshot.appliedIndex != 0 && snapshot.appliedTerm == 0 {
      return null;
    }
    RestoredKeepsInvariant(snapshot, maxKey, maxValue);
    m := new Machine.Resume(
      State(maxKey, maxValue, values.value, snapshot.storeSequence, ttl.value, map[]),
      snapshot.appliedIndex, snapshot.appliedTerm, snapshot.lastLeaderTime);
  }

  lemma RepeatedKey(es: seq<LogicalEntry>, i: nat)
    requires i < |es| && es[i].key in DeadlinesOf(es[..i])
    ensures !KeysAscend(es)
  {
    KeysListed(es[..i]);
    var j :| 0 <= j < i && es[..i][j].key == es[i].key;
    AscendIsSorted(es);
    assert !LexLt(es[j].key, es[i].key);
  }
}
