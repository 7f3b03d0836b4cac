/** The replicated retry table: one cached reply per session key, tombstones for sessions that
    have gone idle, and bounds on both.

    The mutation a request carries is run by the caller; here it is the reply it would give, and
    each operation reports whether it ran. */
module Sessions {
  import opened Prelude
  import opened Ordering
  import opened KvCodec
  import opened ReplyCodec
  import opened ClusterConfig

  datatype Key = Key(namespace: byte, client: u64)
  datatype Record = Record(maxSequence: u64, command: Bytes, reply: Bytes, lastActive: u64)
  datatype Tombstone = Tombstone(maxSequence: u64, expiresAt: u64)
  datatype Table = Table(records: map<Key, Record>, tombstones: map<Key, Tombstone>)

  const EMPTY := Table(map[], map[])

  function Size(r: Record): nat {
    |r.command| + |r.reply|
  }

  // ------------------------------------------------------------------
  // The sum of the cached bytes
  // ------------------------------------------------------------------

  ghost function Sum(m: map<Key, Record>): nat
    decreases m.Keys
  {
    if m.Keys == {} then 0
    else
      var k :| k in m.Keys;
      assert (m - {k}).Keys < m.Keys;
      Size(m[k]) + Sum(m - {k})
  }

  lemma {:induction false} SumRemove(m: map<Key, Record>, k: Key)
    requires k in m
    ensures Sum(m) == Size(m[k]) + Sum(m - {k})
    decreases m.Keys
  {
    var j :| j in m.Keys && Sum(m) == Size(m[j]) + Sum(m - {j});
    if j != k {
      assert (m - {j}).Keys < m.Keys && (m - {k}).Keys < m.Keys;
      SumRemove(m - {j}, k);
      SumRemove(m - {k}, j);
      assert m - {j} - {k} == m - {k} - {j};
    }
  }

  function Existing(m: map<Key, Record>, k: Key): nat {
    if k in m then Size(m[k]) else 0
  }

  lemma SumReplace(m: map<Key, Record>, k: Key, r: Record)
    ensures Existing(m, k) <= Sum(m)
    ensures Sum(m[k := r]) == Sum(m) - Existing(m, k) + Size(r)
    ensures Sum(m - {k}) == Sum(m) - Existing(m, k)
  {
    var after := m[k := r];
    SumRemove(after, k);
    assert after - {k} == m - {k};
    if k in m {
      SumRemove(m, k);
    } else {
      assert m - {k} == m;
    }
  }

  lemma {:induction false} SumDrop(m: map<Key, Record>, ks: set<Key>)
    ensures Sum(m - ks) <= Sum(m)
    decreases ks
  {
    if ks == {} {
      assert m - ks == m;
    } else {
      var k :| k in ks;
      SumDrop(m, ks - {k});
      var rest := m - (ks - {k});
      assert m - ks == rest - {k};
      if k in rest {
        SumRemove(rest, k);
      } else {
        assert rest - {k} == rest;
      }
    }
  }

  ghost function Encoded(m: map<Key, Record>): u64 {
    SatAdd(Sum(m), 0)
  }

  // ------------------------------------------------------------------
  // A user request
  // ------------------------------------------------------------------

  ghost function Sweep(tombstones: map<Key, Tombstone>, at: u64): map<Key, Tombstone> {
    map k | k in tombstones && tombstones[k].expiresAt > at :: tombstones[k]
  }

  /** The table after a request, what it is answered, and whether its mutation ran. */
  datatype Step = Step(table: Table, reply: Reply, ran: bool)

  ghost function Admit(p: Policy, t: Table, key: Key, sequence: u64, command: Bytes, at: u64, answer: Reply): Step
    requires ReplyFits(answer)
  {
    var others := SatSub(Encoded(t.records), Existing(t.records, key));
    var cached := EncodeReply(answer);
    if key !in t.records && |t.records| >= p.maxSessions then Step(t, Error(Busy), false)
    else if SatAdd(SatAdd(others, |command|), p.maxReplyBytes) > p.maxSessionBytes then Step(t, Error(Busy), false)
    else if SatAdd(others, |command| + |cached|) > p.maxSessionBytes then Step(t, Error(Busy), true)
    else Step(t.(records := t.records[key := Record(sequence, command, cached, at)]), answer, true)
  }

  ghost function ApplyUser(p: Policy, t: Table, key: Key, sequence: u64, command: Bytes, at: u64, answer: Reply): Step
    requires ReplyFits(answer)
  {
    if sequence == 0 then Step(t, answer, true)
    else
      var swept := t.(tombstones := Sweep(t.tombstones, at));
      if key in swept.tombstones then Step(swept, Error(SessionExpired), false)
      else if key !in t.records then Admit(p, swept, key, sequence, command, at, answer)
      else
        var r := t.records[key];
        if SatSub(at, r.lastActive) > p.sessionIdle then
          if |swept.tombstones| >= p.maxSessionTombstones then Step(swept, Error(TooLarge), false)
          else
            var stone := Tombstone(r.maxSequence, SatAdd(at, p.sessionRetryGrace));
            Step(Table(t.records - {key}, swept.tombstones[key := stone]), Error(SessionExpired), false)
        else if sequence < r.maxSequence then Step(swept, Error(StaleSequence), false)
        else if sequence == r.maxSequence then
          Step(swept.(records := t.records[key := r.(lastActive := at)]),
               if r.command == command then CachedReply(r.reply) else Error(SequenceConflict), false)
        else Admit(p, swept, key, sequence, command, at, answer)
  }

  function CachedReply(bs: Bytes): Reply {
    var r := DecodeReply(bs);
    if r.Some? then r.value else Error(InvalidInput)
  }

  // ------------------------------------------------------------------
  // An administrative request
  // ------------------------------------------------------------------

  /** How administrative payloads are compared and read back. */
  datatype AdminRules = AdminRules(same: (Bytes, Bytes) -> bool, decodes: Bytes -> bool)

  datatype AdminOutcome =
    | RequestExpired | Stale | Conflict | Replayed(reply: Bytes) | Applied(reply: Bytes)
    | AdminBusy | InvalidReply | MutationFailed

  /** `answer` is the encoded reply of the mutation, or none when it fails. */
  ghost function ApplyAdmin(p: Policy, rules: AdminRules, t: Table, key: Key, sequence: u64, command: Bytes,
                            at: u64, answer: Option<Bytes>): (Table, AdminOutcome, bool)
  {
    var swept := t.(tombstones := Sweep(t.tombstones, at));
    if key in swept.tombstones then (swept, RequestExpired, false)
    else if key in t.records && SatSub(at, t.records[key].lastActive) > p.sessionIdle then (swept, RequestExpired, false)
    else if key in t.records && sequence < t.records[key].maxSequence then (swept, Stale, false)
    else if key in t.records && sequence == t.records[key].maxSequence then
      var r := t.records[key];
      var touched := swept.(records := t.records[key := r.(lastActive := at)]);
      if !rules.same(r.command, command) then (touched, Conflict, false)
      else if rules.decodes(r.reply) then (touched, Replayed(r.reply), false)
      else (swept, InvalidReply, false)
    else if key !in t.records && |t.records| >= p.maxSessions then (swept, AdminBusy, false)
    else if answer.None? then (swept, MutationFailed, true)
    else
      var others := SatSub(Encoded(t.records), Existing(t.records, key));
      if SatAdd(others, |command| + |answer.value|) > p.maxSessionBytes then (swept, AdminBusy, true)
      else
        (swept.(records := t.records[key := Record(sequence, command, answer.value, at)]), Applied(answer.value), true)
  }

  // ------------------------------------------------------------------
  // Expiry
  // ------------------------------------------------------------------

  datatype Deadline = Deadline(at: u64, key: Key, stone: bool)

  function DeadlineRank(d: Deadline): seq<nat> {
    [d.at, d.key.namespace, d.key.client, if d.stone then 1 else 0]
  }

  lemma DeadlinesRanked(s: set<Deadline>)
    ensures Ranked(s, DeadlineRank)
  {
    forall x, y | x in s && y in s && DeadlineRank(x) == DeadlineRank(y) ensures x == y {
      var a, b := DeadlineRank(x), DeadlineRank(y);
      assert a[0] == b[0] && a[1] == b[1] && a[2] == b[2] && a[3] == b[3];
    }
  }

  function IdleDeadline(p: Policy, r: Record): u64 {
    SatAdd(r.lastActive, p.sessionIdle)
  }

  function Due(p: Policy, t: Table, upTo: u64, pinned: Option<Key>): set<Deadline> {
    (set k | k in t.records && Some(k) != pinned && IdleDeadline(p, t.records[k]) <= upTo ::
      Deadline(IdleDeadline(p, t.records[k]), k, false)) +
    (set k | k in t.tombstones && Some(k) != pinned && t.tombstones[k].expiresAt <= upTo ::
      Deadline(t.tombstones[k].expiresAt, k, true))
  }

  /** The earliest due deadlines, at most `maxItems` of them. */
  function Chosen(p: Policy, t: Table, upTo: u64, maxItems: nat, pinned: Option<Key>): seq<Deadline> {
    DeadlinesRanked(Due(p, t, upTo, pinned));
    var due := SortedBy(Due(p, t, upTo, pinned), DeadlineRank);
    if |due| <= maxItems then due else due[..maxItems]
  }

  function Retire(p: Policy, t: Table, d: Deadline, upTo: u64): Table {
    if d.stone then t.(tombstones := t.tombstones - {d.key})
    else if d.key !in t.records then t
    else
      var records := t.records - {d.key};
      var graceEnd := SatAdd(d.at, p.sessionRetryGrace);
      if graceEnd > upTo && |t.tombstones| < p.maxSessionTombstones then
        Table(records, t.tombstones[d.key := Tombstone(t.records[d.key].maxSequence, graceEnd)])
      else t.(records := records)
  }

  function RetireAll(p: Policy, t: Table, ds: seq<Deadline>, upTo: u64): Table {
    if ds == [] then t else Retire(p, RetireAll(p, t, ds[..|ds| - 1], upTo), ds[|ds| - 1], upTo)
  }

  function ExpireDue(p: Policy, t: Table, upTo: u64, maxItems: nat, pinned: Option<Key>): Table {
    RetireAll(p, t, Chosen(p, t, upTo, maxItems, pinned), upTo)
  }

  // ------------------------------------------------------------------
  // Capacity
  // ------------------------------------------------------------------

  ghost predicate Within(p: Policy, t: Table) {
    t.records.Keys !! t.tombstones.Keys &&
    |t.records| <= p.maxSessions &&
    |t.tombstones| <= p.maxSessionTombstones &&
    Sum(t.records) <= p.maxSessionBytes
  }

  lemma SweepShrinks(tombstones: map<Key, Tombstone>, at: u64)
    ensures Sweep(tombstones, at).Keys <= tombstones.Keys && |Sweep(tombstones, at)| <= |tombstones|
  {
    Fewer(Sweep(tombstones, at).Keys, tombstones.Keys);
  }

  lemma {:induction false} Fewer<K>(a: set<K>, b: set<K>)
    requires a <= b
    ensures |a| <= |b|
    decreases a
  {
    if a != {} {
      var x :| x in a;
      Fewer(a - {x}, b - {x});
    }
  }

  /** Storing a record within the byte check keeps the bounds. */
  lemma StoreKeeps(p: Policy, t: Table, key: Key, r: Record)
    requires Within(p, t) && p.maxSessionBytes < U64_MAX
    requires key !in t.tombstones && (key in t.records || |t.records| < p.maxSessions)
    requires SatAdd(SatSub(Encoded(t.records), Existing(t.records, key)), Size(r)) <= p.maxSessionBytes
    ensures Within(p, t.(records := t.records[key := r]))
  {
    hide Sum, Size, Existing;
    SumReplace(t.records, key, r);
    KeysAfter(t.records, key, r);
  }

  lemma KeysAfter<V>(m: map<Key, V>, key: Key, v: V)
    ensures m[key := v].Keys == m.Keys + {key}
    ensures |m[key := v]| == |m| + (if key in m then 0 else 1)
  {
    if key in m {
      assert m[key := v].Keys == m.Keys;
    } else {
      assert m[key := v].Keys == m.Keys + {key};
    }
  }

  lemma SweepKeeps(p: Policy, t: Table, at: u64)
    requires Within(p, t)
    ensures Within(p, t.(tombstones := Sweep(t.tombstones, at)))
  {
    hide Sum;
    SweepShrinks(t.tombstones, at);
  }

  lemma TouchKeeps(p: Policy, t: Table, key: Key, at: u64)
    requires Within(p, t) && key in t.records
    ensures Within(p, t.(records := t.records[key := t.records[key].(lastActive := at)]))
  {
    SumReplace(t.records, key, t.records[key].(lastActive := at));
    hide Sum;
    KeysAfter(t.records, key, t.records[key].(lastActive := at));
  }

  lemma BuryKeeps(p: Policy, t: Table, key: Key, stone: Tombstone)
    requires Within(p, t) && |t.tombstones| < p.maxSessionTombstones && key in t.records
    ensures Within(p, Table(t.records - {key}, t.tombstones[key := stone]))
  {
    hide Sum, Size;
    SumReplace(t.records, key, t.records[key]);
    KeysAfter(t.tombstones, key, stone);
    assert (t.records - {key}).Keys == t.records.Keys - {key};
  }

  lemma AdmitKeeps(p: Policy, t: Table, key: Key, sequence: u64, command: Bytes, at: u64, answer: Reply)
    requires Within(p, t) && p.maxSessionBytes < U64_MAX && ReplyFits(answer) && key !in t.tombstones
    ensures Within(p, Admit(p, t, key, sequence, command, at, answer).table)
  {
    hide Within, Encoded, EncodeReply, ReplyFits;
    var r := Record(sequence, command, EncodeReply(answer), at);
    if (key in t.records || |t.records| < p.maxSessions) &&
       SatAdd(SatSub(Encoded(t.records), Existing(t.records, key)), Size(r)) <= p.maxSessionBytes {
      StoreKeeps(p, t, key, r);
    }
  }

  lemma UserKeeps(p: Policy, t: Table, key: Key, sequence: u64, command: Bytes, at: u64, answer: Reply)
    requires Within(p, t) && p.maxSessionBytes < U64_MAX && ReplyFits(answer)
    ensures Within(p, ApplyUser(p, t, key, sequence, command, at, answer).table)
  {
    hide Within, Admit, ReplyFits, Sweep;
    SweepKeeps(p, t, at);
    var swept := t.(tombstones := Sweep(t.tombstones, at));
    if key in t.records {
      TouchKeeps(p, swept, key, at);
      if |swept.tombstones| < p.maxSessionTombstones {
        BuryKeeps(p, swept, key, Tombstone(t.records[key].maxSequence, SatAdd(at, p.sessionRetryGrace)));
      }
    }
    if key !in swept.tombstones {
      AdmitKeeps(p, swept, key, sequence, command, at, answer);
    }
  }

  lemma AdminKeeps(p: Policy, rules: AdminRules, t: Table, key: Key, sequence: u64, command: Bytes,
                   at: u64, answer: Option<Bytes>)
    requires Within(p, t) && p.maxSessionBytes < U64_MAX
    ensures Within(p, ApplyAdmin(p, rules, t, key, sequence, command, at, answer).0)
  {
    hide Within, Sum, Sweep;
    SweepKeeps(p, t, at);
    var swept := t.(tombstones := Sweep(t.tombstones, at));
    if key in t.records {
      TouchKeeps(p, swept, key, at);
    }
    if answer.Some? && key !in swept.tombstones && (key in t.records || |t.records| < p.maxSessions) {
      var r := Record(sequence, command, answer.value, at);
      if SatAdd(SatSub(Encoded(t.records), Existing(t.records, key)), Size(r)) <= p.maxSessionBytes {
        StoreKeeps(p, swept, key, r);
      }
    }
  }

  lemma DropKeeps(p: Policy, t: Table, key: Key)
    requires Within(p, t)
    ensures Within(p, t.(records := t.records - {key})) && Within(p, t.(tombstones := t.tombstones - {key}))
  {
    SumDrop(t.records, {key});
    Fewer((t.records - {key}).Keys, t.records.Keys);
    Fewer((t.tombstones - {key}).Keys, t.tombstones.Keys);
  }

  lemma {:induction false} RetireKeeps(p: Policy, t: Table, ds: seq<Deadline>, upTo: u64)
    requires Within(p, t)
    ensures Within(p, RetireAll(p, t, ds, upTo))
    decreases |ds|
  {
    hide Within;
    if ds != [] {
      var n := |ds| - 1;
      RetireKeeps(p, t, ds[..n], upTo);
      var before := RetireAll(p, t, ds[..n], upTo);
      DropKeeps(p, before, ds[n].key);
      if ds[n].key in before.records && |before.tombstones| < p.maxSessionTombstones {
        BuryKeeps(p, before, ds[n].key,
                  Tombstone(before.records[ds[n].key].maxSequence, SatAdd(ds[n].at, p.sessionRetryGrace)));
      }
    }
  }

  // ------------------------------------------------------------------
  // Runs
  // ------------------------------------------------------------------

  datatype Request =
    | User(key: Key, sequence: u64, command: Bytes, at: u64, answer: Reply)
    | Admin(key: Key, sequence: u64, command: Bytes, at: u64, result: Option<Bytes>)
    | Expire(at: u64, maxItems: nat, pinned: Option<Key>)

  ghost predicate Encodes(q: Request) {
    q.User? ==> ReplyFits(q.answer)
  }

  ghost function Next(p: Policy, rules: AdminRules, t: Table, q: Request): Table
    requires Encodes(q)
  {
    match q
    case User(key, sequence, command, at, answer) => ApplyUser(p, t, key, sequence, command, at, answer).table
    case Admin(key, sequence, command, at, result) => ApplyAdmin(p, rules, t, key, sequence, command, at, result).0
    case Expire(at, maxItems, pinned) => ExpireDue(p, t, at, maxItems, pinned)
  }

  /** The table after a run of requests. */
  ghost function After(p: Policy, rules: AdminRules, t: Table, qs: seq<Request>): Table
    requires forall i | 0 <= i < |qs| :: Encodes(qs[i])
  {
    if qs == [] then t else Next(p, rules, After(p, rules, t, qs[..|qs| - 1]), qs[|qs| - 1])
  }

  /** Whatever is asked, records and tombstones stay disjoint and within policy. */
  lemma {:induction false} CapacityAlways(p: Policy, rules: AdminRules, qs: seq<Request>)
    requires p.maxSessionBytes < U64_MAX && forall i | 0 <= i < |qs| :: Encodes(qs[i])
    ensures Within(p, After(p, rules, EMPTY, qs))
    decreases |qs|
  {
    hide ApplyUser, ApplyAdmin;
    if qs != [] {
      hide Within;
      var n := |qs| - 1;
      CapacityAlways(p, rules, qs[..n]);
      var t := After(p, rules, EMPTY, qs[..n]);
      assert Encodes(qs[n]);
      match qs[n]
      case User(key, sequence, command, at, answer) => UserKeeps(p, t, key, sequence, command, at, answer);
      case Admin(key, sequence, command, at, result) => AdminKeeps(p, rules, t, key, sequence, command, at, result);
      case Expire(at, maxItems, pinned) => RetireKeeps(p, t, Chosen(p, t, at, maxItems, pinned), at);
    } else {
      assert Within(p, EMPTY);
    }
  }
}
