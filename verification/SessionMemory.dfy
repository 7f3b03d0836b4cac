/** How long the retry table remembers: past the idle time, through the retry grace, and what ends it. */
module SessionMemory {
  import opened Prelude
  import opened Ordering
  import opened KvCodec
  import opened ReplyCodec
  import opened ClusterConfig
  import opened Sessions
  import opened ExactlyOnce
  import RetryTable

  // ------------------------------------------------------------------
  // What the table remembers
  // ------------------------------------------------------------------

  ghost predicate Apart(t: Table) {
    t.records.Keys !! t.tombstones.Keys
  }

  /** A record or a tombstone of the key has seen the sequence. */
  ghost predicate Seen(t: Table, key: Key, sequence: u64) {
    (key in t.records && sequence <= t.records[key].maxSequence) ||
    (key in t.tombstones && sequence <= t.tombstones[key].maxSequence)
  }

  predicate AsksAgain(q: Request, key: Key, sequence: u64) {
    !q.Expire? && q.key == key && q.sequence <= sequence && (q.User? ==> q.sequence != 0)
  }

  ghost predicate Runs(p: Policy, rules: AdminRules, t: Table, q: Request)
    requires Encodes(q) && !q.Expire?
  {
    if q.User? then Ran(p, t, q) else ApplyAdmin(p, rules, t, q.key, q.sequence, q.command, q.at, q.result).2
  }

  /** The key's tombstone is past its grace. */
  ghost predicate GraceOver(t: Table, key: Key, at: u64) {
    key in t.tombstones && t.tombstones[key].expiresAt <= at
  }

  /** The sweep comes to the key as the `j`th thing it retires, and leaves nothing of it. */
  ghost predicate RetiredFor(p: Policy, t: Table, q: Request, key: Key, j: nat)
    requires q.Expire?
  {
    var ds := Chosen(p, t, q.at, q.maxItems, q.pinned);
    j < |ds| && ds[j].key == key &&
    (ds[j].stone || SatAdd(ds[j].at, p.sessionRetryGrace) <= q.at || NoRoom(p, t, q, j))
  }

  /** There is no room for another tombstone when the sweep comes to its `j`th thing. */
  ghost predicate NoRoom(p: Policy, t: Table, q: Request, j: nat)
    requires q.Expire? && j < |Chosen(p, t, q.at, q.maxItems, q.pinned)|
  {
    |RetireAll(p, t, Chosen(p, t, q.at, q.maxItems, q.pinned)[..j], q.at).tombstones| >= p.maxSessionTombstones
  }

  /** What makes the table forget the key. */
  ghost predicate Forgets(p: Policy, t: Table, q: Request, key: Key) {
    if q.Expire? then exists j :: RetiredFor(p, t, q, key, j) else GraceOver(t, key, q.at)
  }

  // ------------------------------------------------------------------
  // One request
  // ------------------------------------------------------------------

  /** A sequence the table has seen runs only once the key's tombstone is past its grace. */
  lemma SeenDoesNotRun(p: Policy, rules: AdminRules, t: Table, q: Request, key: Key, sequence: u64)
    requires Encodes(q) && AsksAgain(q, key, sequence) && Apart(t) && Seen(t, key, sequence)
    ensures Runs(p, rules, t, q) ==> GraceOver(t, key, q.at)
  {
    hide EncodeReply, ReplyFits, Sum, DecodeReply;
  }

  lemma UserRemembers(p: Policy, t: Table, q: Request, key: Key, sequence: u64)
    requires Encodes(q) && q.User? && Apart(t) && Seen(t, key, sequence)
    ensures var after := ApplyUser(p, t, q.key, q.sequence, q.command, q.at, q.answer).table;
            Apart(after) && (GraceOver(t, key, q.at) || Seen(after, key, sequence)) &&
            (GraceOver(t, key, q.at) && q.key != key && q.sequence != 0 ==> !Seen(after, key, sequence))
  {
    hide EncodeReply, ReplyFits, Sum, DecodeReply;
  }

  lemma AdminRemembers(p: Policy, rules: AdminRules, t: Table, q: Request, key: Key, sequence: u64)
    requires q.Admin? && Apart(t) && Seen(t, key, sequence)
    ensures var after := ApplyAdmin(p, rules, t, q.key, q.sequence, q.command, q.at, q.result).0;
            Apart(after) && (GraceOver(t, key, q.at) || Seen(after, key, sequence)) &&
            (GraceOver(t, key, q.at) && q.key != key ==> !Seen(after, key, sequence))
  {
    hide Sum;
  }

  lemma {:induction false} RetireApart(p: Policy, t: Table, ds: seq<Deadline>, upTo: u64)
    requires Apart(t)
    ensures Apart(RetireAll(p, t, ds, upTo))
    decreases |ds|
  {
    if ds != [] {
      RetireApart(p, t, ds[..|ds| - 1], upTo);
    }
  }

  lemma {:induction false} RetireSplit(p: Policy, t: Table, ds: seq<Deadline>, j: nat, upTo: u64)
    requires j <= |ds|
    ensures RetireAll(p, t, ds, upTo) == RetireAll(p, RetireAll(p, t, ds[..j], upTo), ds[j..], upTo)
    decreases |ds|
  {
    hide Retire;
    if j == |ds| {
      assert ds[..j] == ds && ds[j..] == [];
    } else {
      var n := |ds| - 1;
      RetireSplit(p, t, ds[..n], j, upTo);
      assert ds[..n][..j] == ds[..j] && ds[..n][j..] == ds[j..][..n - j];
    }
  }

  ghost predicate SameFor(before: Table, after: Table, key: Key) {
    (key in after.records <==> key in before.records) && (key in after.tombstones <==> key in before.tombstones) &&
    (key in before.records ==> after.records[key] == before.records[key]) &&
    (key in before.tombstones ==> after.tombstones[key] == before.tombstones[key])
  }

  /** What a sweep does to one key is decided where it comes to it. */
  lemma SweepOfKey(p: Policy, t: Table, ds: seq<Deadline>, j: nat, upTo: u64)
    requires j < |ds| && RetryTable.DistinctKeys(ds)
    ensures var before := RetireAll(p, t, ds[..j], upTo);
            SameFor(t, before, ds[j].key) && SameFor(Retire(p, before, ds[j], upTo), RetireAll(p, t, ds, upTo), ds[j].key)
  {
    hide Retire, RetireAll;
    RetireSplit(p, t, ds, j + 1, upTo);
    RetryTable.RetireNext(p, t, ds, j, upTo);
    forall i | 0 <= i < j ensures ds[..j][i].key != ds[j].key {
      assert ds[..j][i] == ds[i];
    }
    var rest := ds[j + 1..];
    forall i | 0 <= i < |rest| ensures rest[i].key != ds[j].key {
      assert rest[i] == ds[j + 1 + i];
    }
    RetireOthers(p, t, ds[..j], upTo, ds[j].key);
    RetireOthers(p, RetireAll(p, t, ds[..j + 1], upTo), rest, upTo, ds[j].key);
  }

  /** A sweep forgets a key exactly when it retires its tombstone, or its record with the grace over or no
      room for a tombstone. */
  lemma ExpireRemembers(p: Policy, t: Table, q: Request, key: Key, sequence: u64)
    requires q.Expire? && Apart(t) && Seen(t, key, sequence)
    ensures var after := ExpireDue(p, t, q.at, q.maxItems, q.pinned);
            Apart(after) && (Seen(after, key, sequence) <==> !Forgets(p, t, q, key))
  {
    hide Chosen, RetireAll, Retire, LexLt, Due, DeadlineRank, SatAdd;
    var ds := Chosen(p, t, q.at, q.maxItems, q.pinned);
    RetireApart(p, t, ds, q.at);
    RetryTable.ChosenFacts(p, t, q.at, q.maxItems, q.pinned);
    if exists j: nat :: j < |ds| && ds[j].key == key {
      var j: nat :| j < |ds| && ds[j].key == key;
      assert RetryTable.Names(p, t, ds[j]);
      SweepOfKey(p, t, ds, j, q.at);
      OneRetired(p, t, RetireAll(p, t, ds[..j], q.at), ds[j], q.at, sequence);
      assert forall i: nat :: RetiredFor(p, t, q, key, i) ==> i == j;
      assert (exists i :: RetiredFor(p, t, q, key, i)) <==> RetiredFor(p, t, q, key, j);
    } else {
      RetireOthers(p, t, ds, q.at, key);
    }
  }

  lemma OneRetired(p: Policy, t: Table, before: Table, d: Deadline, upTo: u64, sequence: u64)
    requires Apart(t) && Seen(t, d.key, sequence) && SameFor(t, before, d.key) && RetryTable.Names(p, t, d)
    ensures Seen(Retire(p, before, d, upTo), d.key, sequence) <==>
            !(d.stone || SatAdd(d.at, p.sessionRetryGrace) <= upTo || |before.tombstones| >= p.maxSessionTombstones)
  {
    hide IdleDeadline, SatAdd;
  }

  /** A request of any kind: unless it makes the table forget the key, the key is remembered. */
  lemma Remembering(p: Policy, rules: AdminRules, t: Table, q: Request, key: Key, sequence: u64)
    requires Encodes(q) && Apart(t) && Seen(t, key, sequence)
    ensures Apart(Next(p, rules, t, q)) && (Forgets(p, t, q, key) || Seen(Next(p, rules, t, q), key, sequence))
  {
    hide ApplyUser, ApplyAdmin, ExpireDue, Seen, Apart, GraceOver, RetiredFor, ReplyFits;
    match q
    case User(_, _, _, _, _) => UserRemembers(p, t, q, key, sequence);
    case Admin(_, _, _, _, _) => AdminRemembers(p, rules, t, q, key, sequence);
    case Expire(_, _, _) => ExpireRemembers(p, t, q, key, sequence);
  }

  // ------------------------------------------------------------------
  // Runs
  // ------------------------------------------------------------------

  /** The `k`th request of the run makes the table forget the key. */
  ghost predicate ForgetsAt(p: Policy, rules: AdminRules, t: Table, qs: seq<Request>, k: nat, key: Key)
    requires AllEncode(qs)
  {
    k < |qs| && Forgets(p, After(p, rules, t, qs[..k]), qs[k], key)
  }

  lemma {:induction false} RemembersUntil(p: Policy, rules: AdminRules, t: Table, qs: seq<Request>, key: Key, sequence: u64)
    requires AllEncode(qs) && Apart(t) && Seen(t, key, sequence)
    requires forall k :: !ForgetsAt(p, rules, t, qs, k, key)
    ensures Apart(After(p, rules, t, qs)) && Seen(After(p, rules, t, qs), key, sequence)
    decreases |qs|
  {
    hide Next, Encodes, Forgets, Seen, Apart;
    if qs != [] {
      var n := |qs| - 1;
      forall k: nat | k < n ensures !ForgetsAt(p, rules, t, qs[..n], k, key) {
        assert qs[..n][..k] == qs[..k];
        assert !ForgetsAt(p, rules, t, qs, k, key);
      }
      RemembersUntil(p, rules, t, qs[..n], key, sequence);
      assert !ForgetsAt(p, rules, t, qs, n, key);
      Remembering(p, rules, After(p, rules, t, qs[..n]), qs[n], key, sequence);
    }
  }

  /** Whatever is asked, and at whatever times: a sequence the table has seen runs again only if some
      request up to then made the table forget the key. */
  lemma RunsOnlyIfForgotten(p: Policy, rules: AdminRules, t: Table, qs: seq<Request>, i: nat, key: Key, sequence: u64)
    requires AllEncode(qs) && Apart(t) && Seen(t, key, sequence)
    requires i < |qs| && AsksAgain(qs[i], key, sequence) && Encodes(qs[i])
    requires Runs(p, rules, After(p, rules, t, qs[..i]), qs[i])
    ensures exists k: nat :: k <= i && ForgetsAt(p, rules, t, qs, k, key)
  {
    hide Next, Encodes, Forgets, Seen, Apart, Runs;
    var front := qs[..i];
    if forall k :: !ForgetsAt(p, rules, t, front, k, key) {
      RemembersUntil(p, rules, t, front, key, sequence);
      SeenDoesNotRun(p, rules, After(p, rules, t, front), qs[i], key, sequence);
      assert ForgetsAt(p, rules, t, qs, i, key) by { GraceOverForgets(p, After(p, rules, t, front), qs[i], key); }
    } else {
      var k: nat :| ForgetsAt(p, rules, t, front, k, key);
      assert front[..k] == qs[..k];
      assert ForgetsAt(p, rules, t, qs, k, key);
    }
  }

  lemma GraceOverForgets(p: Policy, t: Table, q: Request, key: Key)
    requires !q.Expire? && GraceOver(t, key, q.at)
    ensures Forgets(p, t, q, key)
  {
  }

  // ------------------------------------------------------------------
  // How long that is
  // ------------------------------------------------------------------

  /** A session active at `start` is remembered at least this long. */
  function GraceEnd(p: Policy, start: u64): u64 {
    SatAdd(SatAdd(start, p.sessionIdle), p.sessionRetryGrace)
  }

  /** Remembered, and the record was active, or the tombstone lasts, long enough. */
  ghost predicate Lasting(p: Policy, t: Table, key: Key, sequence: u64, start: u64) {
    Apart(t) && Seen(t, key, sequence) &&
    (key in t.records ==> t.records[key].lastActive >= start) &&
    (key in t.tombstones ==> t.tombstones[key].expiresAt >= GraceEnd(p, start))
  }

  /** The sweep retires the key's record for want of room. */
  ghost predicate CrowdedOut(p: Policy, t: Table, q: Request, key: Key) {
    q.Expire? && exists j :: RetiredFor(p, t, q, key, j) && NoRoom(p, t, q, j)
  }

  lemma UserLasts(p: Policy, t: Table, q: Request, key: Key, sequence: u64, start: u64)
    requires Encodes(q) && q.User? && Lasting(p, t, key, sequence, start) && start <= q.at < GraceEnd(p, start)
    ensures Lasting(p, ApplyUser(p, t, q.key, q.sequence, q.command, q.at, q.answer).table, key, sequence, start)
  {
    hide EncodeReply, ReplyFits, Sum, DecodeReply, Seen, Apart;
    UserRemembers(p, t, q, key, sequence);
  }

  lemma AdminLasts(p: Policy, rules: AdminRules, t: Table, q: Request, key: Key, sequence: u64, start: u64)
    requires q.Admin? && Lasting(p, t, key, sequence, start) && start <= q.at < GraceEnd(p, start)
    ensures Lasting(p, ApplyAdmin(p, rules, t, q.key, q.sequence, q.command, q.at, q.result).0, key, sequence, start)
  {
    hide Sum, Seen, Apart;
    AdminRemembers(p, rules, t, q, key, sequence);
  }

  lemma ExpireLasts(p: Policy, t: Table, q: Request, key: Key, sequence: u64, start: u64)
    requires q.Expire? && Lasting(p, t, key, sequence, start) && start <= q.at < GraceEnd(p, start)
    requires !CrowdedOut(p, t, q, key)
    ensures Lasting(p, ExpireDue(p, t, q.at, q.maxItems, q.pinned), key, sequence, start)
  {
    hide Chosen, RetireAll, Retire, LexLt, DeadlineRank, GraceEnd, Due, Seen, Apart, NoRoom;
    var ds := Chosen(p, t, q.at, q.maxItems, q.pinned);
    assert Apart(t);
    ApartMeans(t);
    RetryTable.ChosenFacts(p, t, q.at, q.maxItems, q.pinned);
    ExpireRemembers(p, t, q, key, sequence);
    if exists j: nat :: j < |ds| && ds[j].key == key {
      var j: nat :| j < |ds| && ds[j].key == key;
      assert RetryTable.Names(p, t, ds[j]) && ds[j] in Due(p, t, q.at, q.pinned);
      SweepOfKey(p, t, ds, j, q.at);
      NotYet(p, t, ds[j], q.at, q.pinned, start);
      assert forall i: nat :: RetiredFor(p, t, q, key, i) ==> i == j;
      RetiredLasts(p, t, RetireAll(p, t, ds[..j], q.at), ds[j], q.at, start);
    } else {
      RetireOthers(p, t, ds, q.at, key);
    }
  }

  lemma ApartMeans(t: Table)
    requires Apart(t)
    ensures t.records.Keys !! t.tombstones.Keys
  {
  }

  /** What comes due before the grace ends is a record, and its grace is not over. */
  lemma NotYet(p: Policy, t: Table, d: Deadline, upTo: u64, pinned: Option<Key>, start: u64)
    requires d in Due(p, t, upTo, pinned) && upTo < GraceEnd(p, start)
    requires d.key in t.records ==> t.records[d.key].lastActive >= start
    requires d.key in t.tombstones ==> t.tombstones[d.key].expiresAt >= GraceEnd(p, start)
    ensures !d.stone && SatAdd(d.at, p.sessionRetryGrace) > upTo && SatAdd(d.at, p.sessionRetryGrace) >= GraceEnd(p, start)
  {
  }

  lemma RetiredLasts(p: Policy, t: Table, before: Table, d: Deadline, upTo: u64, start: u64)
    requires !d.stone && SatAdd(d.at, p.sessionRetryGrace) >= GraceEnd(p, start) && RetryTable.Names(p, t, d)
    requires SameFor(t, before, d.key)
    ensures var after := Retire(p, before, d, upTo);
            d.key !in after.records && (d.key in after.tombstones ==> after.tombstones[d.key].expiresAt >= GraceEnd(p, start))
  {
    hide GraceEnd, IdleDeadline, SatAdd;
  }

  lemma NextLasts(p: Policy, rules: AdminRules, t: Table, q: Request, key: Key, sequence: u64, start: u64)
    requires Encodes(q) && Lasting(p, t, key, sequence, start) && start <= q.at < GraceEnd(p, start)
    requires !CrowdedOut(p, t, q, key)
    ensures Lasting(p, Next(p, rules, t, q), key, sequence, start)
  {
    hide ApplyUser, ApplyAdmin, ExpireDue, Lasting, CrowdedOut, GraceEnd, ReplyFits;
    match q
    case User(_, _, _, _, _) => UserLasts(p, t, q, key, sequence, start);
    case Admin(_, _, _, _, _) => AdminLasts(p, rules, t, q, key, sequence, start);
    case Expire(_, _, _) => ExpireLasts(p, t, q, key, sequence, start);
  }

  ghost predicate CrowdedAt(p: Policy, rules: AdminRules, t: Table, qs: seq<Request>, k: nat, key: Key)
    requires AllEncode(qs)
  {
    k < |qs| && CrowdedOut(p, After(p, rules, t, qs[..k]), qs[k], key)
  }

  /** Between `start` and the end of the grace. */
  ghost predicate InGrace(p: Policy, start: u64, qs: seq<Request>) {
    forall i | 0 <= i < |qs| :: start <= qs[i].at < GraceEnd(p, start)
  }

  lemma {:induction false} LastsThrough(p: Policy, rules: AdminRules, t: Table, qs: seq<Request>, key: Key, sequence: u64, start: u64)
    requires AllEncode(qs) && InGrace(p, start, qs) && Lasting(p, t, key, sequence, start)
    requires forall k :: !CrowdedAt(p, rules, t, qs, k, key)
    ensures Lasting(p, After(p, rules, t, qs), key, sequence, start)
    decreases |qs|
  {
    hide Next, Encodes, CrowdedOut, Lasting, GraceEnd;
    if qs != [] {
      var n := |qs| - 1;
      forall k: nat | k < n ensures !CrowdedAt(p, rules, t, qs[..n], k, key) {
        assert qs[..n][..k] == qs[..k];
        assert !CrowdedAt(p, rules, t, qs, k, key);
      }
      LastsThrough(p, rules, t, qs[..n], key, sequence, start);
      assert !CrowdedAt(p, rules, t, qs, n, key);
      NextLasts(p, rules, After(p, rules, t, qs[..n]), qs[n], key, sequence, start);
    }
  }

  /** Exactly once through the grace.  A user request that ran with a reply within the limit is not run
      again, and nor is an earlier sequence of its key, before the idle time and then the retry grace have
      both passed, unless a sweep retires the record when the tombstones are full. */
  lemma OnceThroughGrace(p: Policy, rules: AdminRules, t: Table, first: Request, qs: seq<Request>, i: nat)
    requires Encodes(first) && first.User? && first.sequence != 0 && Ran(p, t, first) && Apart(t)
    requires |EncodeReply(first.answer)| <= p.maxReplyBytes && p.maxSessionBytes < U64_MAX
    requires AllEncode(qs) && InGrace(p, first.at, qs)
    requires forall k :: !CrowdedAt(p, rules, Next(p, rules, t, first), qs, k, first.key)
    requires i < |qs| && AsksAgain(qs[i], first.key, first.sequence)
    ensures Encodes(qs[i]) && !Runs(p, rules, After(p, rules, Next(p, rules, t, first), qs[..i]), qs[i])
  {
    hide Next, Ran, Runs, EncodeReply, Encodes, CrowdedOut, GraceEnd;
    var next, front := Next(p, rules, t, first), qs[..i];
    RanIsRemembered(p, rules, t, first);
    RanApart(p, rules, t, first);
    forall k: nat | k < i ensures !CrowdedAt(p, rules, next, front, k, first.key) {
      assert front[..k] == qs[..k];
      assert !CrowdedAt(p, rules, next, qs, k, first.key);
    }
    LastsThrough(p, rules, next, front, first.key, first.sequence, first.at);
    SeenDoesNotRun(p, rules, After(p, rules, next, front), qs[i], first.key, first.sequence);
  }

  lemma RanApart(p: Policy, rules: AdminRules, t: Table, q: Request)
    requires Encodes(q) && q.User? && Apart(t)
    ensures Apart(Next(p, rules, t, q))
  {
    hide EncodeReply, ReplyFits, Sum, DecodeReply;
  }

  // ------------------------------------------------------------------
  // What each request is told
  // ------------------------------------------------------------------

  ghost predicate Entombed(t: Table, q: Request)
    requires !q.Expire?
  {
    q.key in t.tombstones && q.at < t.tombstones[q.key].expiresAt
  }

  /** More than the idle time has passed since the key's last activity. */
  ghost predicate GoneIdle(p: Policy, t: Table, q: Request)
    requires !q.Expire?
  {
    q.key in t.records && q.at > t.records[q.key].lastActive + p.sessionIdle
  }

  /** There is a place for the key's record, and for the longest reply the policy allows. */
  ghost predicate HasPlace(p: Policy, t: Table, q: Request)
    requires !q.Expire?
  {
    (q.key in t.records || |t.records| < p.maxSessions) &&
    Sum(t.records) - Existing(t.records, q.key) + |q.command| + p.maxReplyBytes <= p.maxSessionBytes
  }

  /** The tombstones that stand at the request's time. */
  ghost function Standing(t: Table, at: u64): set<Key> {
    set k | k in t.tombstones && at < t.tombstones[k].expiresAt
  }

  lemma SweepIsStanding(t: Table, at: u64)
    ensures Sweep(t.tombstones, at).Keys == Standing(t, at)
  {
  }

  /** A numbered user request runs exactly when its key is not entombed, not idle and has not seen the
      number, and there is a place for it. */
  lemma RunsExactly(p: Policy, t: Table, q: Request)
    requires Encodes(q) && q.User? && q.sequence != 0 && p.maxSessionBytes < U64_MAX && Sum(t.records) < U64_MAX
    ensures Ran(p, t, q) <==>
            !Entombed(t, q) && !GoneIdle(p, t, q) && HasPlace(p, t, q) &&
            (q.key in t.records ==> q.sequence > t.records[q.key].maxSequence)
  {
    hide EncodeReply, ReplyFits, Sum, DecodeReply, Size;
    SumReplace(t.records, q.key, Record(0, [], [], 0));
  }

  /** An idle session's request never runs: it is told the session expired, or that it is too large
      exactly when the standing tombstones are full. */
  lemma IdleIsTold(p: Policy, t: Table, q: Request)
    requires Encodes(q) && q.User? && q.sequence != 0 && !Entombed(t, q) && GoneIdle(p, t, q)
    ensures !Ran(p, t, q)
    ensures ReplyTo(p, t, q) == Error(if |Standing(t, q.at)| >= p.maxSessionTombstones then TooLarge else SessionExpired)
    ensures var after := ApplyUser(p, t, q.key, q.sequence, q.command, q.at, q.answer).table;
            if |Standing(t, q.at)| >= p.maxSessionTombstones then after.records == t.records
            else
              q.key !in after.records && q.key in after.tombstones &&
              after.tombstones[q.key] == Tombstone(t.records[q.key].maxSequence, SatAdd(q.at, p.sessionRetryGrace))
  {
    hide EncodeReply, ReplyFits, Sum, DecodeReply, Standing, Admit;
    SweepIsStanding(t, q.at);
    assert |Sweep(t.tombstones, q.at)| == |Sweep(t.tombstones, q.at).Keys|;
  }

  /** What every other request that does not run is told. */
  lemma RefusalIsTold(p: Policy, t: Table, q: Request)
    requires Encodes(q) && q.User? && q.sequence != 0 && p.maxSessionBytes < U64_MAX && Sum(t.records) < U64_MAX
    requires !Ran(p, t, q) && (Entombed(t, q) || !GoneIdle(p, t, q))
    ensures ReplyTo(p, t, q) ==
            if Entombed(t, q) then Error(SessionExpired)
            else if q.key !in t.records || q.sequence > t.records[q.key].maxSequence then Error(Busy)
            else if q.sequence < t.records[q.key].maxSequence then Error(StaleSequence)
            else if q.command == t.records[q.key].command then CachedReply(t.records[q.key].reply)
            else Error(SequenceConflict)
  {
    hide EncodeReply, ReplyFits, Sum, DecodeReply, Size;
    SumReplace(t.records, q.key, Record(0, [], [], 0));
  }

  /** A sweep that forgets a key leaves nothing of it, and then any numbered request of the key runs
      exactly when there is a place for it. */
  lemma ForgottenRunsAgain(p: Policy, t: Table, sweep: Request, q: Request)
    requires sweep.Expire? && q.User? && q.sequence != 0 && Encodes(q) && Apart(t)
    requires Forgets(p, t, sweep, q.key) && p.maxSessionBytes < U64_MAX
    requires Sum(ExpireDue(p, t, sweep.at, sweep.maxItems, sweep.pinned).records) < U64_MAX
    ensures var after := ExpireDue(p, t, sweep.at, sweep.maxItems, sweep.pinned);
            q.key !in after.records && q.key !in after.tombstones && (Ran(p, after, q) <==> HasPlace(p, after, q))
  {
    hide Chosen, RetireAll, Retire, LexLt, Due, DeadlineRank, SatAdd, Sum, Encodes, HasPlace, Ran;
    var ds := Chosen(p, t, sweep.at, sweep.maxItems, sweep.pinned);
    RetryTable.ChosenFacts(p, t, sweep.at, sweep.maxItems, sweep.pinned);
    var j: nat :| RetiredFor(p, t, sweep, q.key, j);
    assert RetryTable.Names(p, t, ds[j]);
    SweepOfKey(p, t, ds, j, sweep.at);
    LeavesNothing(p, t, RetireAll(p, t, ds[..j], sweep.at), ds[j], sweep.at);
    RunsExactly(p, ExpireDue(p, t, sweep.at, sweep.maxItems, sweep.pinned), q);
  }

  lemma LeavesNothing(p: Policy, t: Table, before: Table, d: Deadline, upTo: u64)
    requires Apart(t) && SameFor(t, before, d.key) && RetryTable.Names(p, t, d)
    requires d.stone || SatAdd(d.at, p.sessionRetryGrace) <= upTo || |before.tombstones| >= p.maxSessionTombstones
    ensures var after := Retire(p, before, d, upTo); d.key !in after.records && d.key !in after.tombstones
  {
    hide IdleDeadline, SatAdd;
  }

  // ------------------------------------------------------------------
  // Administrative requests
  // ------------------------------------------------------------------

  /** An administrative request runs exactly when its key is not entombed, not idle and has not seen the
      number, and has a record or room for one. */
  lemma AdminRunsExactly(p: Policy, rules: AdminRules, t: Table, q: Request)
    requires q.Admin?
    ensures Runs(p, rules, t, q) <==>
            !Entombed(t, q) && !GoneIdle(p, t, q) &&
            (if q.key in t.records then q.sequence > t.records[q.key].maxSequence else |t.records| < p.maxSessions)
  {
    hide Sum;
  }

  ghost function AdminTold(p: Policy, rules: AdminRules, t: Table, q: Request): AdminOutcome
    requires q.Admin?
  {
    ApplyAdmin(p, rules, t, q.key, q.sequence, q.command, q.at, q.result).1
  }

  /** What an administrative request that does not run is told. */
  lemma AdminRefusalIsTold(p: Policy, rules: AdminRules, t: Table, q: Request)
    requires q.Admin? && !Runs(p, rules, t, q)
    ensures AdminTold(p, rules, t, q) ==
            if Entombed(t, q) || GoneIdle(p, t, q) then RequestExpired
            else if q.key !in t.records then AdminBusy
            else
              var r := t.records[q.key];
              if q.sequence < r.maxSequence then Stale
              else if !rules.same(r.command, q.command) then Conflict
              else if rules.decodes(r.reply) then Replayed(r.reply) else InvalidReply
  {
    hide Sum;
  }

  /** One that runs fails with its mutation, or is recorded and told the reply exactly when command and
      reply fit beside the other sessions. */
  lemma AdminRunIsTold(p: Policy, rules: AdminRules, t: Table, q: Request)
    requires q.Admin? && Runs(p, rules, t, q) && p.maxSessionBytes < U64_MAX && Sum(t.records) < U64_MAX
    ensures var after := ApplyAdmin(p, rules, t, q.key, q.sequence, q.command, q.at, q.result).0;
            if q.result.None? then AdminTold(p, rules, t, q) == MutationFailed && after.records == t.records
            else if Sum(t.records) - Existing(t.records, q.key) + |q.command| + |q.result.value| > p.maxSessionBytes
            then AdminTold(p, rules, t, q) == AdminBusy && after.records == t.records
            else
              AdminTold(p, rules, t, q) == Applied(q.result.value) &&
              after.records == t.records[q.key := Record(q.sequence, q.command, q.result.value, q.at)]
  {
    hide Sum, Size;
    SumReplace(t.records, q.key, Record(0, [], [], 0));
  }

  // ------------------------------------------------------------------
  // Sweeps
  // ------------------------------------------------------------------

  /** When a record has been idle for the policy's time, up to the largest time there is. */
  function IdleEnd(p: Policy, r: Record): nat {
    if r.lastActive + p.sessionIdle <= U64_MAX then r.lastActive + p.sessionIdle else U64_MAX
  }

  /** A sweep with no bound to speak of retires exactly the records gone idle and the tombstones past their
      grace, apart from the pinned key, and leaves the others as they were. */
  lemma SweepClears(p: Policy, t: Table, q: Request)
    requires q.Expire? && Apart(t) && |Due(p, t, q.at, q.pinned)| <= q.maxItems
    ensures var after := ExpireDue(p, t, q.at, q.maxItems, q.pinned);
      && (forall k :: k in after.records <==> k in t.records && (Some(k) == q.pinned || q.at < IdleEnd(p, t.records[k])))
      && (forall k | k in after.records :: after.records[k] == t.records[k])
      && (forall k | k in t.tombstones ::
            (k in after.tombstones <==> Some(k) == q.pinned || q.at < t.tombstones[k].expiresAt) &&
            (k in after.tombstones ==> after.tombstones[k] == t.tombstones[k]))
  {
    hide ExpireDue, DeadlineRank, LexLt, RetryTable.Grave;
    RetryTable.ExpiryExact(p, t, q.at, q.maxItems, q.pinned);
    var ds := Chosen(p, t, q.at, q.maxItems, q.pinned);
    ChosenAreAll(p, t, q);
    hide Chosen;
    forall k ensures k in RetryTable.KeysOf(ds, false) <==> k in t.records && Some(k) != q.pinned && IdleEnd(p, t.records[k]) <= q.at {
      RecordDue(p, t, q, k);
    }
    forall k ensures k in RetryTable.KeysOf(ds, true) <==> k in t.tombstones && Some(k) != q.pinned && t.tombstones[k].expiresAt <= q.at {
      StoneDue(p, t, q, k);
    }
  }

  lemma ChosenAreAll(p: Policy, t: Table, q: Request)
    requires q.Expire? && |Due(p, t, q.at, q.pinned)| <= q.maxItems
    ensures forall d :: d in Chosen(p, t, q.at, q.maxItems, q.pinned) <==> d in Due(p, t, q.at, q.pinned)
  {
    hide Due;
    DeadlinesRanked(Due(p, t, q.at, q.pinned));
  }

  lemma RecordDue(p: Policy, t: Table, q: Request, k: Key)
    requires q.Expire? && forall d :: d in Chosen(p, t, q.at, q.maxItems, q.pinned) <==> d in Due(p, t, q.at, q.pinned)
    ensures k in RetryTable.KeysOf(Chosen(p, t, q.at, q.maxItems, q.pinned), false) <==>
            k in t.records && Some(k) != q.pinned && IdleEnd(p, t.records[k]) <= q.at
  {
    hide Chosen;
    var ds := Chosen(p, t, q.at, q.maxItems, q.pinned);
    if k in t.records && Some(k) != q.pinned && IdleEnd(p, t.records[k]) <= q.at {
      var d := Deadline(IdleDeadline(p, t.records[k]), k, false);
      assert d in Due(p, t, q.at, q.pinned);
      var i :| 0 <= i < |ds| && ds[i] == d;
    }
    if k in RetryTable.KeysOf(ds, false) {
      var i :| 0 <= i < |ds| && ds[i].stone == false && ds[i].key == k;
      assert ds[i] in Due(p, t, q.at, q.pinned);
    }
  }

  lemma StoneDue(p: Policy, t: Table, q: Request, k: Key)
    requires q.Expire? && forall d :: d in Chosen(p, t, q.at, q.maxItems, q.pinned) <==> d in Due(p, t, q.at, q.pinned)
    ensures k in RetryTable.KeysOf(Chosen(p, t, q.at, q.maxItems, q.pinned), true) <==>
            k in t.tombstones && Some(k) != q.pinned && t.tombstones[k].expiresAt <= q.at
  {
    hide Chosen;
    var ds := Chosen(p, t, q.at, q.maxItems, q.pinned);
    if k in t.tombstones && Some(k) != q.pinned && t.tombstones[k].expiresAt <= q.at {
      var d := Deadline(t.tombstones[k].expiresAt, k, true);
      assert d in Due(p, t, q.at, q.pinned);
      var i :| 0 <= i < |ds| && ds[i] == d;
    }
    if k in RetryTable.KeysOf(ds, true) {
      var i :| 0 <= i < |ds| && ds[i].stone == true && ds[i].key == k;
      assert ds[i] in Due(p, t, q.at, q.pinned);
    }
  }
}
