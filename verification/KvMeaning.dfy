/** What every command means to a client: the answers `Get` gives afterwards, at every time, and which
    commands are which others under a condition. */
module KvMeaning {
  import opened Prelude
  import opened Ordering
  import opened KvCodec
  import opened ReplyCodec
  import opened KvModel
  import Decimal

  // ------------------------------------------------------------------
  // What a client can see
  // ------------------------------------------------------------------

  /** What a `Get` of the key answers at a time. */
  ghost function Sees(s: State, k: Bytes, t: u64): Option<Bytes> {
    var o := ApplySingle(s, Get(k), t, 0).1;
    if o.Done? && o.reply.Value? then o.reply.found else None
  }

  /** The key shows this value, until the deadline if there is one. */
  ghost predicate ShowsUntil(s: State, k: Bytes, v: Bytes, deadline: Option<u64>) {
    forall t: u64 :: Sees(s, k, t) == if deadline.Some? && deadline.value <= t then None else Some(v)
  }

  ghost predicate ShowsNever(s: State, k: Bytes) {
    forall t: u64 :: Sees(s, k, t) == None
  }

  /** Every other key shows what it did, and keeps what is stored and its deadline, lapsed or not. */
  ghost predicate OthersShowAlike(before: State, after: State, k: Bytes) {
    (forall j, t: u64 | j != k :: Sees(after, j, t) == Sees(before, j, t)) &&
    (forall j | j != k ::
       (j in after.entries <==> j in before.entries) && (j in before.entries ==> after.entries[j] == before.entries[j]) &&
       (j in after.ttl <==> j in before.ttl) && (j in before.ttl ==> after.ttl[j] == before.ttl[j]))
  }

  /** A value put in place of what the key held, under the deadline it had. */
  ghost predicate ShowsInPlace(before: State, after: State, k: Bytes, v: Bytes) {
    forall t: u64 :: Sees(after, k, t) == if Expired(before, k, t) then None else Some(v)
  }

  // ------------------------------------------------------------------
  // Writing and deleting
  // ------------------------------------------------------------------

  ghost predicate SetMeans(s: State, k: Bytes, v: Bytes, ttl: Option<u64>, now: u64, r: (State, Outcome)) {
    if k == [] || |k| > s.maxKey || |v| > s.maxValue then r == (s, Failed(StoreError))
    else if ttl.Some? && now + ttl.value > U64_MAX then r == (s, Panicked)
    else
      r.1 == Done(Ok) && OthersShowAlike(s, r.0, k) &&
      ShowsUntil(r.0, k, v, if ttl.Some? then Some(now + ttl.value) else None)
  }

  ghost predicate DelMeans(s: State, k: Bytes, r: (State, Outcome)) {
    if k == [] || |k| > s.maxKey then r == (s, Failed(StoreError))
    else r.1 == Done(Integer(1)) && OthersShowAlike(s, r.0, k) && ShowsNever(r.0, k)
  }

  /** The command does what another does, and answers this instead of its answer. */
  predicate Like(r: (State, Outcome), other: (State, Outcome), reply: Reply) {
    r == if other.1.Done? then (other.0, Done(reply)) else other
  }

  // ------------------------------------------------------------------
  // Changing what is there
  // ------------------------------------------------------------------

  /** The number a value stands for; no value stands for zero. */
  function NumberIn(found: Option<Bytes>): Option<i64> {
    if found.None? then Some(0) else Decimal.ParseI64(found.value)
  }

  ghost predicate IncrMeans(s: State, k: Bytes, delta: i64, now: u64, r: (State, Outcome)) {
    var n := NumberIn(Sees(s, k, now));
    if n.None? || !(-0x8000_0000_0000_0000 <= n.value as int + delta as int <= 0x7fff_ffff_ffff_ffff)
    then r == (s, Failed(NotNumeric))
    else
      var text := Decimal.ToText(n.value as int + delta as int);
      if k == [] || |k| > s.maxKey || |text| > s.maxValue then r == (s, Failed(StoreError))
      else
        r.1 == Done(Integer(n.value as int + delta as int)) && OthersShowAlike(s, r.0, k) && ShowsInPlace(s, r.0, k, text)
  }

  ghost predicate AppendMeans(s: State, k: Bytes, v: Bytes, now: u64, r: (State, Outcome)) {
    var found := Sees(s, k, now);
    var whole := (if found.Some? then found.value else []) + v;
    if k == [] || |k| > s.maxKey || |whole| > s.maxValue then r == (s, Failed(StoreError))
    else
      r.1.Done? && r.1.reply.Integer? && (|whole| <= 0x7fff_ffff_ffff_ffff ==> r.1.reply.n == |whole|) &&
      OthersShowAlike(s, r.0, k) && ShowsInPlace(s, r.0, k, whole)
  }

  // ------------------------------------------------------------------
  // Deadlines
  // ------------------------------------------------------------------

  ghost predicate ExpireAtMeans(s: State, k: Bytes, at: u64, now: u64, r: (State, Outcome)) {
    if Sees(s, k, now).None? then r == (s, Done(Integer(0)))
    else r.1 == Done(Integer(1)) && OthersShowAlike(s, r.0, k) && ShowsUntil(r.0, k, Sees(s, k, now).value, Some(at))
  }

  /** What is stored shows for good: what showed, or what had lapsed. */
  ghost predicate PersistMeans(s: State, k: Bytes, now: u64, r: (State, Outcome)) {
    r.1 == Done(Integer(if k in s.ttl then 1 else 0)) && OthersShowAlike(s, r.0, k) &&
    (if k in s.entries then ShowsUntil(r.0, k, s.entries[k].value, None) else ShowsNever(r.0, k)) &&
    (Sees(s, k, now).Some? ==> ShowsUntil(r.0, k, Sees(s, k, now).value, None))
  }

  /** The value stops showing at `d`, which is `n` whole seconds away. */
  ghost predicate LeavesIn(s: State, k: Bytes, now: u64, n: i64, d: u64) {
    now < d && n * SECOND <= d - now < (n + 1) * SECOND &&
    Sees(s, k, now).Some? && ShowsUntil(s, k, Sees(s, k, now).value, Some(d))
  }

  ghost predicate TtlMeans(s: State, k: Bytes, now: u64, r: (State, Outcome)) {
    r.0 == s && r.1.Done? && r.1.reply.Integer? &&
    var n := r.1.reply.n;
    if Sees(s, k, now).None? then n == -2
    else if ShowsUntil(s, k, Sees(s, k, now).value, None) then n == -1
    else exists d :: LeavesIn(s, k, now, n, d)
  }

  // ------------------------------------------------------------------
  // Scans
  // ------------------------------------------------------------------

  /** The stored keys of the range that come before `k`. */
  ghost function Before(s: State, start: Option<Bytes>, end: Option<Bytes>, k: Bytes): set<Bytes> {
    set j | j in s.entries && InRange(j, start, end) && LexLt(j, k)
  }

  /** The key is stored, in the range, and among the first `limit` that are. */
  ghost predicate OnPage(s: State, start: Option<Bytes>, end: Option<Bytes>, limit: nat, k: Bytes) {
    k in s.entries && InRange(k, start, end) && |Before(s, start, end, k)| < limit
  }

  predicate InKeyOrder(items: seq<(Bytes, Bytes)>) {
    forall i, j | 0 <= i < j < |items| :: LexLt(items[i].0, items[j].0)
  }

  ghost predicate ScanMeans(s: State, start: Option<Bytes>, end: Option<Bytes>, limit: nat, now: u64, r: (State, Outcome)) {
    r.0 == s && r.1.Done? && r.1.reply.Scanned? && InKeyOrder(r.1.reply.items) &&
    forall k, v :: (k, v) in r.1.reply.items <==>
      OnPage(s, start, end, if limit <= MAX_SCAN then limit else MAX_SCAN, k) && Sees(s, k, now) == Some(v)
  }

  // ------------------------------------------------------------------
  // Every command
  // ------------------------------------------------------------------

  ghost predicate PurgeMeans(s: State, upTo: u64, r: (State, Outcome)) {
    |r.0.ttl| <= |s.ttl| && |s.ttl| - |r.0.ttl| == |s.entries| - |r.0.entries| &&
    (|s.ttl| - |r.0.ttl| <= 0x7fff_ffff_ffff_ffff ==> r.1 == Done(Integer(|s.ttl| - |r.0.ttl|))) &&
    forall k, t: u64 | t >= upTo :: Sees(r.0, k, t) == Sees(s, k, t)
  }

  ghost predicate SessionsMean(s: State, upTo: u64, r: (State, Outcome)) {
    r == (s.(sessions := r.0.sessions), Done(Ok)) &&
    (forall c :: c in r.0.sessions <==> c in s.sessions && upTo <= s.sessions[c].lastActive + SESSION_IDLE) &&
    (forall c | c in r.0.sessions :: r.0.sessions[c] == s.sessions[c])
  }

  /** The meaning of each command. */
  ghost predicate Means(s: State, c: Command, now: u64, max: nat)
    requires !c.Batch?
  {
    var r := ApplySingle(s, c, now, max);
    match c
    case Set(k, v, ttl) => SetMeans(s, k, v, ttl, now, r)
    case Del(k) => DelMeans(s, k, r)
    case ConditionalSet(k, v, ttl, condition) =>
      if (condition.Nx? && Sees(s, k, now).None?) || (condition.Xx? && Sees(s, k, now).Some?)
      then Like(r, ApplySingle(s, Set(k, v, ttl), now, max), Conditional(true))
      else r == (s, Done(Conditional(false)))
    case Cas(k, expected, replacement) =>
      if Sees(s, k, now) != expected then r == (s, Done(Swapped(false)))
      else Like(r, ApplySingle(s, if replacement.Some? then Set(k, replacement.value, None) else Del(k), now, max), Swapped(true))
    case GetSet(k, v) => Like(r, ApplySingle(s, Set(k, v, None), now, max), Value(Sees(s, k, now)))
    case GetDel(k) =>
      if Sees(s, k, now).Some? then Like(r, ApplySingle(s, Del(k), now, max), Value(Sees(s, k, now)))
      else Like(r, ApplySingle(s, Persist(k), now, max), Value(None))
    case Incr(k, delta) => IncrMeans(s, k, delta, now, r)
    case Append(k, v) => AppendMeans(s, k, v, now, r)
    case ExpireAt(k, at) => ExpireAtMeans(s, k, at, now, r)
    case Expire(k, lifetime) =>
      if Sees(s, k, now).Some? && now + lifetime > U64_MAX then r == (s, Panicked)
      else ExpireAtMeans(s, k, if now + lifetime <= U64_MAX then now + lifetime else 0, now, r)
    case Persist(k) => PersistMeans(s, k, now, r)
    case Ttl(k) => TtlMeans(s, k, now, r)
    case Get(k) => r == (s, Done(Value(Sees(s, k, now))))
    case Scan(start, end, limit) => ScanMeans(s, start, end, limit, now, r)
    case PurgeExpired(upTo) => PurgeMeans(s, upTo, r)
    case ExpireSessions(upTo) => SessionsMean(s, upTo, r)
    case Ping => r == (s, Done(Ok))
  }

  lemma SeesVisible(s: State, k: Bytes, t: u64)
    ensures Sees(s, k, t) == VisibleGet(s, k, t)
  {
    hide Purged, RemoveAll, VisibleScan, Write, Erase, Increment;
  }

  lemma WriteMeans(s: State, k: Bytes, v: Bytes, ttl: Option<u64>, now: u64, max: nat)
    ensures SetMeans(s, k, v, ttl, now, ApplySingle(s, Set(k, v, ttl), now, max))
  {
    hide Purged, RemoveAll, VisibleScan, Increment, Sees;
    var after := ApplySingle(s, Set(k, v, ttl), now, max).0;
    forall j, t: u64 ensures Sees(after, j, t) == VisibleGet(after, j, t) && Sees(s, j, t) == VisibleGet(s, j, t) {
      SeesVisible(after, j, t);
      SeesVisible(s, j, t);
    }
  }

  lemma EraseMeans(s: State, k: Bytes, now: u64, max: nat)
    ensures DelMeans(s, k, ApplySingle(s, Del(k), now, max))
  {
    hide Purged, RemoveAll, VisibleScan, Increment, Sees, Write;
    var after := ApplySingle(s, Del(k), now, max).0;
    forall j, t: u64 ensures Sees(after, j, t) == VisibleGet(after, j, t) && Sees(s, j, t) == VisibleGet(s, j, t) {
      SeesVisible(after, j, t);
      SeesVisible(s, j, t);
    }
  }

  /** Putting a value in place leaves the deadline. */
  lemma PutMeans(s: State, k: Bytes, v: Bytes)
    ensures OthersShowAlike(s, Put(s, k, v), k) && ShowsInPlace(s, Put(s, k, v), k, v)
  {
    hide ApplySingle, Sees;
    forall j, t: u64 ensures Sees(Put(s, k, v), j, t) == VisibleGet(Put(s, k, v), j, t) && Sees(s, j, t) == VisibleGet(s, j, t) {
      SeesVisible(Put(s, k, v), j, t);
      SeesVisible(s, j, t);
    }
  }

  lemma ArmMeans(s: State, k: Bytes, at: u64)
    requires k in s.entries
    ensures OthersShowAlike(s, Arm(s, k, at), k) && ShowsUntil(Arm(s, k, at), k, s.entries[k].value, Some(at))
  {
    hide ApplySingle, Sees;
    forall j, t: u64 ensures Sees(Arm(s, k, at), j, t) == VisibleGet(Arm(s, k, at), j, t) && Sees(s, j, t) == VisibleGet(s, j, t) {
      SeesVisible(Arm(s, k, at), j, t);
      SeesVisible(s, j, t);
    }
  }

  lemma DisarmMeans(s: State, k: Bytes)
    ensures OthersShowAlike(s, Disarm(s, k), k)
    ensures if k in s.entries then ShowsUntil(Disarm(s, k), k, s.entries[k].value, None) else ShowsNever(Disarm(s, k), k)
  {
    hide ApplySingle, Sees;
    forall j, t: u64 ensures Sees(Disarm(s, k), j, t) == VisibleGet(Disarm(s, k), j, t) && Sees(s, j, t) == VisibleGet(s, j, t) {
      SeesVisible(Disarm(s, k), j, t);
      SeesVisible(s, j, t);
    }
  }

  lemma IncrementMeans(s: State, k: Bytes, delta: i64, now: u64, max: nat)
    ensures IncrMeans(s, k, delta, now, ApplySingle(s, Incr(k, delta), now, max))
  {
    hide Purged, RemoveAll, VisibleScan, Sees, Write, Erase, Decimal.ParseI64, Decimal.ToText, OthersShowAlike, ShowsInPlace, Put;
    SeesVisible(s, k, now);
    ZeroParses();
    var n := NumberIn(Sees(s, k, now));
    if n.Some? && -0x8000_0000_0000_0000 <= n.value as int + delta as int <= 0x7fff_ffff_ffff_ffff {
      PutMeans(s, k, Decimal.ToText(n.value as int + delta as int));
    }
  }

  lemma ZeroParses()
    ensures Decimal.ParseI64([Decimal.ZERO]) == Some(0)
  {
    Decimal.ParseToText(0);
  }

  lemma AppendedMeans(s: State, k: Bytes, v: Bytes, now: u64, max: nat)
    ensures AppendMeans(s, k, v, now, ApplySingle(s, Append(k, v), now, max))
  {
    hide Purged, RemoveAll, VisibleScan, Sees, Write, Erase, Increment, OthersShowAlike, ShowsInPlace, Put;
    SeesVisible(s, k, now);
    var found := Sees(s, k, now);
    PutMeans(s, k, (if found.Some? then found.value else []) + v);
  }

  lemma DeadlinesMean(s: State, c: Command, now: u64, max: nat)
    requires c.Expire? || c.ExpireAt? || c.Persist?
    ensures Means(s, c, now, max)
  {
    hide Purged, RemoveAll, VisibleScan, Sees, Write, Erase, Increment, OthersShowAlike, ShowsUntil, ShowsNever, Arm, Disarm;
    SeesVisible(s, c.key, now);
    DisarmMeans(s, c.key);
    if c.key in s.entries {
      if c.ExpireAt? {
        ArmMeans(s, c.key, c.at);
      } else if c.Expire? && now + c.lifetime <= U64_MAX {
        ArmMeans(s, c.key, now + c.lifetime);
      }
    }
  }

  lemma RemainingMeans(s: State, k: Bytes, now: u64, max: nat)
    ensures TtlMeans(s, k, now, ApplySingle(s, Ttl(k), now, max))
  {
    hide Purged, RemoveAll, VisibleScan, Sees, Write, Erase, Increment;
    forall t: u64 ensures Sees(s, k, t) == VisibleGet(s, k, t) {
      SeesVisible(s, k, t);
    }
    if VisibleGet(s, k, now).Some? && k in s.ttl {
      var n := TtlSeconds(s, k, now);
      assert Sees(s, k, s.ttl[k]).None?;
      assert LeavesIn(s, k, now, n, s.ttl[k]);
    }
  }

  lemma PurgingMeans(s: State, upTo: u64, now: u64, max: nat)
    requires Invariant(s)
    ensures PurgeMeans(s, upTo, ApplySingle(s, PurgeExpired(upTo), now, max))
  {
    PurgeCounts(s, upTo, now, max);
    hide ApplySingle, Sees, Invariant, TtlSeconds, VisibleGet;
    var after := ApplySingle(s, PurgeExpired(upTo), now, max).0;
    forall k, t: u64 | t >= upTo ensures Sees(after, k, t) == Sees(s, k, t) {
      PurgeInvisible(s, upTo, now, max, k, t);
      SeesVisible(after, k, t);
      SeesVisible(s, k, t);
    }
  }

  lemma PurgeCounts(s: State, upTo: u64, now: u64, max: nat)
    requires Invariant(s)
    ensures var r := ApplySingle(s, PurgeExpired(upTo), now, max);
            |r.0.ttl| <= |s.ttl| && |s.ttl| - |r.0.ttl| == |s.entries| - |r.0.entries| &&
            (|s.ttl| - |r.0.ttl| <= 0x7fff_ffff_ffff_ffff ==> r.1 == Done(Integer(|s.ttl| - |r.0.ttl|)))
  {
    hide Purged, RemoveAll, KeysOf, Sooner, VisibleScan, Write, Erase, Increment;
    PurgeExact(s, upTo, now, max);
    PurgedAre(s.ttl, upTo, max);
    var gone := KeysOf(Purged(s.ttl, upTo, max));
    FewerBy(s.ttl, gone);
    FewerBy(s.entries, gone);
  }

  lemma FewerBy<K, V>(m: map<K, V>, gone: set<K>)
    requires gone <= m.Keys
    ensures |m - gone| == |m| - |gone|
  {
    assert (m - gone).Keys == m.Keys - gone;
    assert |m.Keys - gone| == |m.Keys| - |gone|;
  }

  lemma ExpiringSessionsMeans(s: State, upTo: u64, now: u64, max: nat)
    ensures SessionsMean(s, upTo, ApplySingle(s, ExpireSessions(upTo), now, max))
  {
    hide Purged, RemoveAll, VisibleScan, Write, Erase, Increment;
  }

  // ------------------------------------------------------------------
  // Scans list the first keys
  // ------------------------------------------------------------------

  ghost function Keys(s: State, start: Option<Bytes>, end: Option<Bytes>): set<Bytes> {
    set k | k in s.entries && InRange(k, start, end)
  }

  function Elements(ks: seq<Bytes>): set<Bytes> {
    set k | k in ks
  }

  lemma {:induction false} PrefixSize(ks: seq<Bytes>, n: nat)
    requires Increasing(ks, KeyRank) && n <= |ks|
    ensures |Elements(ks[..n])| == n
  {
    if n > 0 {
      PrefixSize(ks, n - 1);
      NotEarlier(ks, n - 1, n - 1);
      assert ks[..n] == ks[..n - 1] + [ks[n - 1]];
      assert Elements(ks[..n]) == Elements(ks[..n - 1]) + {ks[n - 1]};
    }
  }

  /** In an increasing list, what comes before an element is what is smaller. */
  lemma SmallerAreBefore(ks: seq<Bytes>, i: nat, j: nat)
    requires Increasing(ks, KeyRank) && i < |ks| && j < |ks|
    ensures LexLt(ks[j], ks[i]) <==> j < i
  {
    if j < i {
      assert LexLt(KeyRank(ks[j]), KeyRank(ks[i]));
    } else if i < j {
      assert LexLt(KeyRank(ks[i]), KeyRank(ks[j]));
      if LexLt(ks[j], ks[i]) {
        LexAntisymmetric(ks[i], ks[j]);
      }
    }
  }

  lemma BeforeIsIndex(s: State, start: Option<Bytes>, end: Option<Bytes>, ks: seq<Bytes>, i: nat)
    requires Increasing(ks, KeyRank) && (forall k :: k in ks <==> k in Keys(s, start, end)) && i < |ks|
    ensures |Before(s, start, end, ks[i])| == i
  {
    hide LexLt, InRange;
    PrefixSize(ks, i);
    var first := Elements(ks[..i]);
    forall k ensures k in Before(s, start, end, ks[i]) <==> k in first {
      if k in Before(s, start, end, ks[i]) {
        assert k in ks;
        var j :| 0 <= j < |ks| && ks[j] == k;
        SmallerAreBefore(ks, i, j);
        assert ks[..i][j] == k;
      }
      if k in first {
        var j :| 0 <= j < i && ks[..i][j] == k;
        SmallerAreBefore(ks, i, j);
        assert ks[j] in ks;
      }
    }
    assert Before(s, start, end, ks[i]) == first;
  }

  lemma PageExact(s: State, start: Option<Bytes>, end: Option<Bytes>, limit: nat)
    ensures Increasing(Page(s, start, end, limit), KeyRank)
    ensures forall k :: k in Page(s, start, end, limit) <==> OnPage(s, start, end, limit, k)
  {
    hide LexLt, InRange, SortedBy, Before;
    var ks := SortedBy(Keys(s, start, end), KeyRank);
    var page := Page(s, start, end, limit);
    assert Keys(s, start, end) == set k | k in s.entries && InRange(k, start, end);
    assert page == if |ks| <= limit then ks else ks[..limit];
    forall k ensures k in page <==> OnPage(s, start, end, limit, k) {
      if k in ks {
        var i :| 0 <= i < |ks| && ks[i] == k;
        BeforeIsIndex(s, start, end, ks, i);
        if i < limit {
          assert page[i] == k;
        } else {
          NotEarlier(ks, limit, i);
        }
      }
    }
  }

  lemma NotEarlier(ks: seq<Bytes>, n: nat, i: nat)
    requires Increasing(ks, KeyRank) && n <= i < |ks|
    ensures ks[i] !in ks[..n]
  {
    forall j | 0 <= j < n ensures ks[..n][j] != ks[i] {
      assert LexLt(KeyRank(ks[j]), KeyRank(ks[i]));
    }
  }

  lemma {:induction false} LiveExact(s: State, page: seq<Bytes>, now: u64)
    requires Increasing(page, KeyRank) && forall i | 0 <= i < |page| :: page[i] in s.entries
    ensures var items := Live(s, page, now);
            InKeyOrder(items) && forall k, v :: (k, v) in items <==> k in page && VisibleGet(s, k, now) == Some(v)
    decreases |page|
  {
    hide LexLt;
    if page != [] {
      var rest := page[1..];
      assert Increasing(rest, KeyRank);
      LiveExact(s, rest, now);
      var items := Live(s, rest, now);
      assert page == [page[0]] + rest;
      forall i | 0 <= i < |items| ensures LexLt(page[0], items[i].0) {
        assert (items[i].0, items[i].1) in items;
        var j :| 0 <= j < |rest| && rest[j] == items[i].0;
        assert LexLt(KeyRank(page[0]), KeyRank(page[j + 1]));
      }
    }
  }

  lemma ScanningMeans(s: State, start: Option<Bytes>, end: Option<Bytes>, limit: nat, now: u64, max: nat)
    ensures ScanMeans(s, start, end, limit, now, ApplySingle(s, Scan(start, end, limit), now, max))
  {
    hide Purged, RemoveAll, Write, Erase, Increment, OnPage, Page, Live, InKeyOrder, Sees, VisibleGet;
    var n := if limit <= MAX_SCAN then limit else MAX_SCAN;
    PageExact(s, start, end, n);
    LiveExact(s, Page(s, start, end, n), now);
    forall k ensures Sees(s, k, now) == VisibleGet(s, k, now) {
      SeesVisible(s, k, now);
    }
  }

  // ------------------------------------------------------------------
  // The theorem
  // ------------------------------------------------------------------

  /** Every ordinary command, on every state, at every time, means what it says, and only the session
      sweep touches sessions. */
  lemma EveryCommand(s: State, c: Command, now: u64, max: nat)
    requires !c.Batch? && Invariant(s)
    ensures Means(s, c, now, max)
    ensures var after := ApplySingle(s, c, now, max).0;
            after.maxKey == s.maxKey && after.maxValue == s.maxValue && (!c.ExpireSessions? ==> after.sessions == s.sessions)
  {
    hide SetMeans, DelMeans, IncrMeans, AppendMeans, ExpireAtMeans, PersistMeans, TtlMeans, ScanMeans, PurgeMeans, SessionsMean,
         Invariant, Sees, Purged, RemoveAll, VisibleScan, Increment;
    OnlySessionSweeps(s, c, now, max);
    match c
    case Set(k, v, ttl) => WriteMeans(s, k, v, ttl, now, max);
    case Del(k) => EraseMeans(s, k, now, max);
    case Incr(k, delta) => IncrementMeans(s, k, delta, now, max);
    case Append(k, v) => AppendedMeans(s, k, v, now, max);
    case Expire(_, _) => DeadlinesMean(s, c, now, max);
    case ExpireAt(_, _) => DeadlinesMean(s, c, now, max);
    case Persist(_) => DeadlinesMean(s, c, now, max);
    case Ttl(k) => RemainingMeans(s, k, now, max);
    case Scan(start, end, limit) => ScanningMeans(s, start, end, limit, now, max);
    case PurgeExpired(upTo) => PurgingMeans(s, upTo, now, max);
    case ExpireSessions(upTo) => ExpiringSessionsMeans(s, upTo, now, max);
    case Ping =>
    case ConditionalSet(k, _, _, _) => SeesVisible(s, k, now);
    case Cas(k, _, _) => SeesVisible(s, k, now);
    case GetSet(k, _) => SeesVisible(s, k, now);
    case GetDel(k) => SeesVisible(s, k, now);
    case Get(k) => SeesVisible(s, k, now);
  }

  lemma OnlySessionSweeps(s: State, c: Command, now: u64, max: nat)
    requires !c.Batch?
    ensures var after := ApplySingle(s, c, now, max).0;
            after.maxKey == s.maxKey && after.maxValue == s.maxValue && (!c.ExpireSessions? ==> after.sessions == s.sessions)
  {
    hide Purged, RemoveAll, VisibleScan, Decimal.ParseI64, Decimal.ToText, Admits;
    if c.PurgeExpired? {
      RemoveAllIs(s, Purged(s.ttl, c.upTo, max));
    }
  }
}
