/** The retry table as an object updated in place, and what an expiry sweep does to it. */
module RetryTable {
  import opened Prelude
  import opened Ordering
  import opened KvCodec
  import opened ReplyCodec
  import opened ClusterConfig
  import opened Sessions
  import opened ExactlyOnce

  // ------------------------------------------------------------------
  // What an expiry sweep removes
  // ------------------------------------------------------------------

  function KeysOf(ds: seq<Deadline>, stone: bool): set<Key> {
    set i | 0 <= i < |ds| && ds[i].stone == stone :: ds[i].key
  }

  ghost predicate Names(p: Policy, t: Table, d: Deadline) {
    if d.stone then d.key in t.tombstones && d.key !in t.records
    else d.key in t.records && d.key !in t.tombstones && d.at == IdleDeadline(p, t.records[d.key])
  }

  predicate DistinctKeys(ds: seq<Deadline>) {
    forall i, j | 0 <= i < j < |ds| :: ds[i].key != ds[j].key
  }

  /** A tombstone left by a record retired at `upTo`. */
  ghost predicate Grave(p: Policy, t: Table, k: Key, stone: Tombstone, upTo: u64) {
    k in t.records &&
    stone == Tombstone(t.records[k].maxSequence, SatAdd(IdleDeadline(p, t.records[k]), p.sessionRetryGrace)) &&
    stone.expiresAt > upTo
  }

  /** After retiring the records `gone` and the tombstones `lapsed`: the other tombstones remain,
      beside graves of retired records. */
  ghost predicate Swept(p: Policy, t: Table, after: Table, gone: set<Key>, lapsed: set<Key>, upTo: u64) {
    after.records == t.records - gone &&
    (forall k | k in t.tombstones ::
       (k in after.tombstones <==> k !in lapsed) &&
       (k in after.tombstones ==> after.tombstones[k] == t.tombstones[k])) &&
    (forall k | k in after.tombstones && k !in t.tombstones ::
       k in gone && Grave(p, t, k, after.tombstones[k], upTo))
  }

  lemma KeysOfGrows(ds: seq<Deadline>, n: nat, stone: bool)
    requires n < |ds|
    ensures KeysOf(ds[..n + 1], stone) ==
            if ds[n].stone == stone then KeysOf(ds[..n], stone) + {ds[n].key} else KeysOf(ds[..n], stone)
  {
    var more, less := ds[..n + 1], ds[..n];
    forall k | k in KeysOf(less, stone) ensures k in KeysOf(more, stone) {
      var i :| 0 <= i < n && less[i].stone == stone && less[i].key == k;
      assert more[i].key == k;
    }
    forall k | k in KeysOf(more, stone) ensures k in KeysOf(less, stone) || (ds[n].stone == stone && k == ds[n].key) {
      var i :| 0 <= i < n + 1 && more[i].stone == stone && more[i].key == k;
      if i < n { assert less[i].key == k; }
    }
    if ds[n].stone == stone { assert more[n].key in KeysOf(more, stone); }
  }

  lemma {:induction false} SweepIs(p: Policy, t: Table, ds: seq<Deadline>, n: nat, upTo: u64)
    requires n <= |ds| && DistinctKeys(ds) && forall i | 0 <= i < |ds| :: Names(p, t, ds[i])
    ensures Swept(p, t, RetireAll(p, t, ds[..n], upTo), KeysOf(ds[..n], false), KeysOf(ds[..n], true), upTo)
    decreases n
  {
    hide Swept, Names, Retire;
    if n == 0 {
      assert ds[..0] == [];
      NothingSwept(p, t, upTo);
    } else {
      hide KeysOf;
      var m := n - 1;
      SweepIs(p, t, ds, m, upTo);
      KeysOfGrows(ds, m, false);
      KeysOfGrows(ds, m, true);
      assert ds[..n][..m] == ds[..m];
      Unnamed(ds, m);
      SweepStep(p, t, RetireAll(p, t, ds[..m], upTo), KeysOf(ds[..m], false), KeysOf(ds[..m], true), ds[m], upTo);
    }
  }

  lemma NothingSwept(p: Policy, t: Table, upTo: u64)
    ensures Swept(p, t, t, KeysOf([], false), KeysOf([], true), upTo)
  {
    assert KeysOf([], false) == {} && KeysOf([], true) == {};
    assert t.records - {} == t.records;
  }

  lemma Unnamed(ds: seq<Deadline>, m: nat)
    requires m < |ds| && DistinctKeys(ds)
    ensures ds[m].key !in KeysOf(ds[..m], false) && ds[m].key !in KeysOf(ds[..m], true)
  {
    forall i | 0 <= i < m ensures ds[..m][i].key != ds[m].key {
      assert ds[..m][i] == ds[i];
    }
  }

  lemma SweepStep(p: Policy, t: Table, before: Table, gone: set<Key>, lapsed: set<Key>, d: Deadline, upTo: u64)
    requires Names(p, t, d) && Swept(p, t, before, gone, lapsed, upTo) && d.key !in gone && d.key !in lapsed
    ensures var after := Retire(p, before, d, upTo);
            if d.stone then Swept(p, t, after, gone, lapsed + {d.key}, upTo)
            else Swept(p, t, after, gone + {d.key}, lapsed, upTo)
  {
    hide Swept, IdleDeadline;
    if d.stone {
      StoneStep(p, t, before, gone, lapsed, d.key, upTo);
    } else {
      RecordStep(p, t, before, gone, lapsed, d, upTo);
    }
  }

  lemma StoneStep(p: Policy, t: Table, before: Table, gone: set<Key>, lapsed: set<Key>, key: Key, upTo: u64)
    requires Swept(p, t, before, gone, lapsed, upTo) && key in t.tombstones
    ensures Swept(p, t, before.(tombstones := before.tombstones - {key}), gone, lapsed + {key}, upTo)
  {
    hide Grave;
  }

  lemma RecordStep(p: Policy, t: Table, before: Table, gone: set<Key>, lapsed: set<Key>, d: Deadline, upTo: u64)
    requires Names(p, t, d) && !d.stone && Swept(p, t, before, gone, lapsed, upTo) && d.key !in gone
    ensures Swept(p, t, Retire(p, before, d, upTo), gone + {d.key}, lapsed, upTo)
  {
    hide IdleDeadline, Grave;
    var graceEnd := SatAdd(d.at, p.sessionRetryGrace);
    assert d.key in before.records && before.records[d.key] == t.records[d.key];
    assert t.records - (gone + {d.key}) == before.records - {d.key};
    if graceEnd > upTo {
      GraveOf(p, t, d, upTo);
    }
  }

  lemma GraveOf(p: Policy, t: Table, d: Deadline, upTo: u64)
    requires Names(p, t, d) && !d.stone && SatAdd(d.at, p.sessionRetryGrace) > upTo
    ensures Grave(p, t, d.key, Tombstone(t.records[d.key].maxSequence, SatAdd(d.at, p.sessionRetryGrace)), upTo)
  {
  }

  lemma DueAreNamed(p: Policy, t: Table, upTo: u64, pinned: Option<Key>, d: Deadline)
    requires t.records.Keys !! t.tombstones.Keys && d in Due(p, t, upTo, pinned)
    ensures Names(p, t, d) && Some(d.key) != pinned
  {
    hide IdleDeadline;
  }

  lemma OnePerKey(p: Policy, t: Table, upTo: u64, pinned: Option<Key>, c: Deadline, d: Deadline)
    requires t.records.Keys !! t.tombstones.Keys
    requires c in Due(p, t, upTo, pinned) && d in Due(p, t, upTo, pinned) && c != d
    ensures c.key != d.key
  {
    hide IdleDeadline;
  }

  lemma ChosenFacts(p: Policy, t: Table, upTo: u64, maxItems: nat, pinned: Option<Key>)
    requires t.records.Keys !! t.tombstones.Keys
    ensures var ds := Chosen(p, t, upTo, maxItems, pinned);
      var due := Due(p, t, upTo, pinned);
      && (forall i | 0 <= i < |ds| :: ds[i] in due && Names(p, t, ds[i]) && Some(ds[i].key) != pinned)
      && DistinctKeys(ds)
      && |ds| == (if |due| <= maxItems then |due| else maxItems)
      && (forall c, d | c in ds && d in due && d !in ds :: LexLt(DeadlineRank(c), DeadlineRank(d)))
  {
    hide LexLe, LexLt, DeadlineRank, SortedBy, Increasing, Due, Names, Ranked;
    var due := Due(p, t, upTo, pinned);
    DeadlinesRanked(due);
    var all := SortedBy(due, DeadlineRank);
    var ds := Chosen(p, t, upTo, maxItems, pinned);
    assert ds == all[..|ds|];
    forall i | 0 <= i < |ds| ensures ds[i] in due && Names(p, t, ds[i]) && Some(ds[i].key) != pinned {
      assert ds[i] in all;
      DueAreNamed(p, t, upTo, pinned, ds[i]);
    }
    forall i, j | 0 <= i < j < |ds| ensures ds[i].key != ds[j].key {
      Irreflexive(all, i, j);
      OnePerKey(p, t, upTo, pinned, ds[i], ds[j]);
    }
    forall c, d | c in ds && d in due && d !in ds ensures LexLt(DeadlineRank(c), DeadlineRank(d)) {
      EarlierInOrder(all, |ds|, c, d);
    }
  }

  lemma EarlierInOrder(all: seq<Deadline>, n: nat, c: Deadline, d: Deadline)
    requires Increasing(all, DeadlineRank) && n <= |all| && c in all[..n] && d in all && d !in all[..n]
    ensures LexLt(DeadlineRank(c), DeadlineRank(d))
  {
    hide LexLt, DeadlineRank;
    var i :| 0 <= i < n && all[..n][i] == c;
    var j :| 0 <= j < |all| && all[j] == d;
    assert forall k | 0 <= k < n :: all[..n][k] in all[..n];
  }

  lemma Irreflexive(all: seq<Deadline>, i: nat, j: nat)
    requires Increasing(all, DeadlineRank) && i < j < |all|
    ensures all[i] != all[j]
  {
    hide DeadlineRank;
    assert LexLt(DeadlineRank(all[i]), DeadlineRank(all[j]));
  }

  /** A sweep retires the earliest due records and tombstones, at most `maxItems` of them and never
      the pinned one; a retired record leaves a grave only while its retry grace lasts. */
  lemma ExpiryExact(p: Policy, t: Table, upTo: u64, maxItems: nat, pinned: Option<Key>)
    requires t.records.Keys !! t.tombstones.Keys
    ensures var ds := Chosen(p, t, upTo, maxItems, pinned);
      var due := Due(p, t, upTo, pinned);
      var after := ExpireDue(p, t, upTo, maxItems, pinned);
      && Swept(p, t, after, KeysOf(ds, false), KeysOf(ds, true), upTo)
      && |ds| == (if |due| <= maxItems then |due| else maxItems)
      && (forall d | d in ds :: d in due)
      && (forall c, d | c in ds && d in due && d !in ds :: LexLt(DeadlineRank(c), DeadlineRank(d)))
      && (pinned.Some? && pinned.value in t.records ==>
            pinned.value in after.records && after.records[pinned.value] == t.records[pinned.value])
  {
    hide Due, Swept, RetireAll, DeadlineRank, LexLt, Names;
    ChosenFacts(p, t, upTo, maxItems, pinned);
    var ds := Chosen(p, t, upTo, maxItems, pinned);
    SweepIs(p, t, ds, |ds|, upTo);
    assert ds[..|ds|] == ds;
    if pinned.Some? {
      RetireOthers(p, t, ds, upTo, pinned.value);
    }
  }

  // ------------------------------------------------------------------
  // The object
  // ------------------------------------------------------------------

  class SessionTable {
    var records: map<Key, Record>
    var tombstones: map<Key, Tombstone>

    function T(): Table
      reads this
    {
      Table(records, tombstones)
    }

    constructor ()
      ensures T() == EMPTY
    {
      records, tombstones := map[], map[];
    }

    /** Saturating sum of every record's cached bytes. */
    method EncodedBytes() returns (total: u64)
      ensures total == Encoded(records)
    {
      total := 0;
      var left := records;
      while left.Keys != {}
        invariant left.Keys <= records.Keys
        invariant SatAdd(total, Sum(left)) == Encoded(records)
        decreases left.Keys
      {
        var k :| k in left.Keys;
        SumRemove(left, k);
        assert (left - {k}).Keys < left.Keys;
        total := SatAdd(total, Size(left[k]));
        left := left - {k};
      }
    }

    method Sweep(at: u64)
      modifies `tombstones
      ensures tombstones == Sessions.Sweep(old(tombstones), at)
    {
      tombstones := map k | k in tombstones && tombstones[k].expiresAt > at :: tombstones[k];
    }

    /** One user request; `answer` is what running its mutation would reply. */
    method ApplyUser(p: Policy, key: Key, sequence: u64, command: Bytes, at: u64, answer: Reply)
      returns (reply: Reply, ran: bool)
      requires ReplyFits(answer)
      modifies this
      ensures Step(T(), reply, ran) == Sessions.ApplyUser(p, old(T()), key, sequence, command, at, answer)
    {
      hide ReplyFits, EncodeReply, DecodeReply, Sum, Sessions.Sweep;
      if sequence == 0 {
        return answer, true;
      }
      Sweep(at);
      if key in tombstones {
        return Error(SessionExpired), false;
      }
      if key in records {
        var r := records[key];
        if SatSub(at, r.lastActive) > p.sessionIdle {
          if |tombstones| >= p.maxSessionTombstones {
            return Error(TooLarge), false;
          }
          records := records - {key};
          tombstones := tombstones[key := Tombstone(r.maxSequence, SatAdd(at, p.sessionRetryGrace))];
          return Error(SessionExpired), false;
        }
        if sequence < r.maxSequence {
          return Error(StaleSequence), false;
        }
        if sequence == r.maxSequence {
          records := records[key := r.(lastActive := at)];
          return if r.command == command then CachedReply(r.reply) else Error(SequenceConflict), false;
        }
      }
      var existing := if key in records then Size(records[key]) else 0;
      if key !in records && |records| >= p.maxSessions {
        return Error(Busy), false;
      }
      var encoded := EncodedBytes();
      if SatAdd(SatAdd(SatSub(encoded, existing), |command|), p.maxReplyBytes) > p.maxSessionBytes {
        return Error(Busy), false;
      }
      var cached := EncodeReply(answer);
      if SatAdd(SatSub(encoded, existing), |command| + |cached|) > p.maxSessionBytes {
        return Error(Busy), true;
      }
      records := records[key := Record(sequence, command, cached, at)];
      return answer, true;
    }

    /** One administrative request; `answer` is the mutation's encoded reply, if it succeeds. */
    method ApplyAdmin(p: Policy, rules: AdminRules, key: Key, sequence: u64, command: Bytes, at: u64, answer: Option<Bytes>)
      returns (outcome: AdminOutcome, ran: bool)
      modifies this
      ensures (T(), outcome, ran) == Sessions.ApplyAdmin(p, rules, old(T()), key, sequence, command, at, answer)
    {
      hide Sum, Sessions.Sweep;
      Sweep(at);
      if key in tombstones {
        return RequestExpired, false;
      }
      if key in records {
        var r := records[key];
        if SatSub(at, r.lastActive) > p.sessionIdle {
          return RequestExpired, false;
        }
        if sequence < r.maxSequence {
          return Stale, false;
        }
        if sequence == r.maxSequence {
          if rules.same(r.command, command) {
            if !rules.decodes(r.reply) {
              return InvalidReply, false;
            }
            outcome := Replayed(r.reply);
          } else {
            outcome := Conflict;
          }
          records := records[key := r.(lastActive := at)];
          return outcome, false;
        }
      }
      var existing := if key in records then Size(records[key]) else 0;
      if key !in records && |records| >= p.maxSessions {
        return AdminBusy, false;
      }
      if answer.None? {
        return MutationFailed, true;
      }
      var encoded := EncodedBytes();
      if SatAdd(SatSub(encoded, existing), |command| + |answer.value|) > p.maxSessionBytes {
        return AdminBusy, true;
      }
      records := records[key := Record(sequence, command, answer.value, at)];
      return Applied(answer.value), true;
    }

    method Retire(p: Policy, d: Deadline, upTo: u64)
      modifies this
      ensures T() == Sessions.Retire(p, old(T()), d, upTo)
    {
      if d.stone {
        tombstones := tombstones - {d.key};
      } else if d.key in records {
        var r := records[d.key];
        records := records - {d.key};
        var graceEnd := SatAdd(d.at, p.sessionRetryGrace);
        if graceEnd > upTo && |tombstones| < p.maxSessionTombstones {
          tombstones := tombstones[d.key := Tombstone(r.maxSequence, graceEnd)];
        }
      }
    }

    /** Retire what is due, earliest first, and say how many. */
    method ExpireDue(p: Policy, upTo: u64, maxItems: nat, pinned: Option<Key>) returns (count: nat)
      modifies this
      ensures T() == Sessions.ExpireDue(p, old(T()), upTo, maxItems, pinned)
      ensures count == |Chosen(p, old(T()), upTo, maxItems, pinned)|
    {
      hide Chosen, RetireAll, Sessions.Retire;
      var due := Chosen(p, T(), upTo, maxItems, pinned);
      ghost var start := T();
      RetireNone(p, start, due, upTo);
      for i := 0 to |due|
        invariant T() == RetireAll(p, start, due[..i], upTo)
      {
        RetireNext(p, start, due, i, upTo);
        Retire(p, due[i], upTo);
      }
      assert due[..|due|] == due;
      count := |due|;
    }
  }

  lemma RetireNone(p: Policy, t: Table, ds: seq<Deadline>, upTo: u64)
    ensures RetireAll(p, t, ds[..0], upTo) == t
  {
  }

  lemma RetireNext(p: Policy, t: Table, ds: seq<Deadline>, i: nat, upTo: u64)
    requires i < |ds|
    ensures RetireAll(p, t, ds[..i + 1], upTo) == Sessions.Retire(p, RetireAll(p, t, ds[..i], upTo), ds[i], upTo)
  {
    hide Sessions.Retire;
    assert ds[..i + 1][..i] == ds[..i];
  }
}
