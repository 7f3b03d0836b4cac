/** Decoding the encoding of a checkpoint gives the checkpoint back. */
module CcsnRoundTrip {
  import opened Prelude
  import opened Ordering
  import opened ClusterConfig
  import opened KvSnapshot
  import opened Sessions
  import opened CcsnRecords
  import opened CcsnDecode
  import opened CcsnEncode

  /** Beyond what the encoder checks: a valid policy, identities a decoder accepts, and session counts
      within the policy. */
  predicate Recognized(s: Snapshot) {
    ValidPolicy(s.policy) &&
    (forall k | k in s.sessions.records :: k.client != 0) &&
    (forall k | k in s.sessions.tombstones :: k.client != 0) &&
    (s.transfer.Some? && s.transfer.value.admin.Some? ==> s.transfer.value.admin.value.0.client != 0) &&
    |s.sessions.records| <= s.policy.maxSessions && |s.sessions.tombstones| <= s.policy.maxSessionTombstones
  }

  predicate Portable(admin: (Bytes, Bytes) -> bool, s: Snapshot) {
    Exportable(admin, s) && FileFits(s) && Recognized(s)
  }

  // ------------------------------------------------------------------
  // Section by section
  // ------------------------------------------------------------------

  function Started(s: Snapshot): Build {
    Build(Some(s.membership), Some(s.policy), s.transfer, [], EMPTY, 0, 2, None, None, None)
  }

  lemma FeedOne(admin: (Bytes, Bytes) -> bool, h: Header, b: Build, r: Rec, rest: seq<Rec>, next: Build)
    requires AddRecord(admin, h, b, r.tag, r.body) == Some(next)
    ensures Feed(admin, h, b, [r] + rest) == Feed(admin, h, next, rest)
  {
    hide AddRecord;
    assert ([r] + rest)[1..] == rest;
  }

  lemma FeedNone(admin: (Bytes, Bytes) -> bool, h: Header, b: Build)
    ensures Feed(admin, h, b, []) == Some(b)
  {
  }

  lemma FirstFeed(admin: (Bytes, Bytes) -> bool, h: Header, s: Snapshot)
    requires ValidMembership(s.membership) && ValidPolicy(s.policy) && h.policyHash == PolicyHash(s.policy)
    requires s.transfer.Some? ==> TransferAccepted(s.transfer.value, h.index)
    ensures Feed(admin, h, BLANK, FirstRecs(s)) == Some(Started(s))
  {
    hide DecodeMembership, EncodeMembership, DecodePolicy, EncodePolicy, PolicyHash, ValidMembership, ValidPolicy,
         TransferAccepted, PutTransfer, AddRecord, Feed;
    MembershipRoundTrip(s.membership);
    PolicyRoundTrip(s.policy);
    var b1 := BLANK.(membership := Some(s.membership), phase := 1);
    var b2 := b1.(policy := Some(s.policy), phase := 2);
    var first, second := Rec(1, EncodeMembership(s.membership).value), Rec(2, EncodePolicy(s.policy));
    var tail := if s.transfer.Some? then [Rec(6, PutTransfer(s.transfer.value))] else [];
    assert FirstRecs(s) == [first] + ([second] + tail);
    MembershipStep(admin, h, s.membership);
    FeedOne(admin, h, BLANK, first, [second] + tail, b1);
    PolicyStep(admin, h, b1, s.policy);
    FeedOne(admin, h, b1, second, tail, b2);
    if s.transfer.Some? {
      TransferStep(admin, h, b2, s.transfer.value);
      FeedOne(admin, h, b2, tail[0], [], Started(s));
      assert tail == [tail[0]] + [];
    }
    FeedNone(admin, h, Started(s));
  }

  lemma MembershipStep(admin: (Bytes, Bytes) -> bool, h: Header, m: Membership)
    requires EncodeMembership(m).Some? && DecodeMembership(EncodeMembership(m).value) == Some(m)
    ensures AddRecord(admin, h, BLANK, 1, EncodeMembership(m).value) == Some(BLANK.(membership := Some(m), phase := 1))
  {
    hide DecodeMembership, EncodeMembership;
  }

  lemma PolicyStep(admin: (Bytes, Bytes) -> bool, h: Header, b: Build, p: Policy)
    requires b.phase == 1 && b.policy.None? && h.policyHash == PolicyHash(p) && DecodePolicy(EncodePolicy(p)) == Some(p)
    ensures AddRecord(admin, h, b, 2, EncodePolicy(p)) == Some(b.(policy := Some(p), phase := 2))
  {
    hide DecodePolicy, EncodePolicy, PolicyHash;
  }

  lemma TransferStep(admin: (Bytes, Bytes) -> bool, h: Header, b: Build, t: Transfer)
    requires b.phase == 2 && b.transfer.None? && TransferAccepted(t, h.index)
    ensures AddRecord(admin, h, b, 6, PutTransfer(t)) == Some(b.(transfer := Some(t)))
  {
    hide GetTransfer, PutTransfer;
    TransferRoundTrip(t, h.index);
  }

  lemma KeyStep(admin: (Bytes, Bytes) -> bool, h: Header, b: Build, e: LogicalEntry)
    requires b.phase == 2 && KeyFits(e) && KeyAccepted(e, h)
    requires b.priorKey.Some? ==> LexLt(b.priorKey.value, e.key)
    ensures AddRecord(admin, h, b, 3, PutKey(e)) == Some(b.(entries := b.entries + [e], priorKey := Some(e.key)))
  {
    hide GetKey, PutKey, LexLt;
    KeyRoundTrip(e, h);
  }

  lemma {:induction false} KeysFeed(admin: (Bytes, Bytes) -> bool, h: Header, b: Build, es: seq<LogicalEntry>) returns (after: Build)
    requires b.phase == 2 && KeysAscend(es)
    requires forall i | 0 <= i < |es| :: KeyFits(es[i]) && KeyAccepted(es[i], h)
    requires es != [] && b.priorKey.Some? ==> LexLt(b.priorKey.value, es[0].key)
    ensures Feed(admin, h, b, KeyRecs(es)) == Some(after)
    ensures after == b.(entries := b.entries + es, priorKey := after.priorKey)
    decreases |es|
  {
    hide AddRecord, LexLt, PutKey, KeyAccepted, Feed;
    if es == [] {
      after := b;
      FeedNone(admin, h, b);
      assert b.entries + es == b.entries;
    } else {
      KeyStep(admin, h, b, es[0]);
      var next := b.(entries := b.entries + [es[0]], priorKey := Some(es[0].key));
      after := KeysFeed(admin, h, next, es[1..]);
      assert KeyRecs(es) == [Rec(3, PutKey(es[0]))] + KeyRecs(es[1..]);
      FeedOne(admin, h, b, Rec(3, PutKey(es[0])), KeyRecs(es[1..]), next);
      assert b.entries + [es[0]] + es[1..] == b.entries + es;
    }
  }

  ghost predicate Climbing(ks: seq<Key>) {
    forall i, j | 0 <= i < j < |ks| :: KeyBefore(ks[i], ks[j])
  }

  predicate SessionAdmitted(admin: (Bytes, Bytes) -> bool, h: Header, k: Key, r: Record) {
    SessionFits(r) && SessionAccepted(admin, k, r) && r.lastActive <= h.lastLeaderTime
  }

  lemma SessionStep(admin: (Bytes, Bytes) -> bool, h: Header, b: Build, k: Key, r: Record)
    requires (b.phase == 2 || b.phase == 3) && SessionAdmitted(admin, h, k, r)
    requires (b.priorSession.Some? ==> KeyBefore(b.priorSession.value, k)) && k !in b.sessions.records && k !in b.sessions.tombstones
    ensures AddRecord(admin, h, b, 4, PutSession(k, r)) ==
            Some(b.(phase := 3, sessionBytes := SatAdd(b.sessionBytes, Size(r)), priorSession := Some(k),
                    sessions := b.sessions.(records := b.sessions.records[k := r])))
  {
    hide GetSession, PutSession, CanonicalPayload;
    SessionRoundTrip(admin, k, r);
  }

  ghost function Only<V>(ks: seq<Key>, m: map<Key, V>): map<Key, V>
    requires forall i | 0 <= i < |ks| :: ks[i] in m
  {
    map k | k in ks && k in m :: m[k]
  }

  lemma OnlyFirst<V>(old': map<Key, V>, ks: seq<Key>, m: map<Key, V>)
    requires ks != [] && forall i | 0 <= i < |ks| :: ks[i] in m
    ensures old'[ks[0] := m[ks[0]]] + Only(ks[1..], m) == old' + Only(ks, m)
  {
    assert ks == [ks[0]] + ks[1..];
  }

  lemma {:induction false} BytesFirst(ks: seq<Key>, m: map<Key, Record>)
    requires ks != [] && forall i | 0 <= i < |ks| :: ks[i] in m
    ensures BytesOf(ks, m) == Size(m[ks[0]]) + BytesOf(ks[1..], m)
    decreases |ks|
  {
    var n := |ks| - 1;
    if n == 0 {
      assert ks[..0] == [] && ks[1..] == [];
    } else {
      BytesFirst(ks[..n], m);
      assert ks[..n][1..] == ks[1..][..n - 1];
    }
  }

  lemma {:induction false} SessionsFeed(admin: (Bytes, Bytes) -> bool, h: Header, b: Build, ks: seq<Key>, m: map<Key, Record>)
    returns (after: Build)
    requires (b.phase == 2 || b.phase == 3) && Climbing(ks)
    requires forall i | 0 <= i < |ks| :: ks[i] in m && SessionAdmitted(admin, h, ks[i], m[ks[i]])
    requires forall i | 0 <= i < |ks| :: ks[i] !in b.sessions.records && ks[i] !in b.sessions.tombstones
    requires ks != [] && b.priorSession.Some? ==> KeyBefore(b.priorSession.value, ks[0])
    requires b.sessionBytes + BytesOf(ks, m) < U64_MAX
    ensures SessionsFit(ks, m) && Feed(admin, h, b, SessionRecs(ks, m)) == Some(after)
    ensures 2 <= after.phase <= 3
    ensures after == b.(phase := after.phase, priorSession := after.priorSession, sessionBytes := b.sessionBytes + BytesOf(ks, m),
                        sessions := b.sessions.(records := b.sessions.records + Only(ks, m)))
    decreases |ks|
  {
    hide AddRecord, PutSession, SessionAdmitted, Size, Feed, BytesOf, Only, SessionRecs, KeyBefore;
    AdmittedFit(admin, h, ks, m);
    if ks == [] {
      after := b;
      NoSessions(admin, h, b, m);
    } else {
      var k := ks[0];
      BytesFirst(ks, m);
      var next := b.(phase := 3, sessionBytes := b.sessionBytes + Size(m[k]), priorSession := Some(k),
                     sessions := b.sessions.(records := b.sessions.records[k := m[k]]));
      SessionStepExact(admin, h, b, k, m[k]);
      TailDistinct(ks, b.sessions.records, m[k]);
      after := SessionsFeed(admin, h, next, ks[1..], m);
      SessionRecsFirst(ks, m);
      FeedOne(admin, h, b, Rec(4, PutSession(k, m[k])), SessionRecs(ks[1..], m), next);
      OnlyFirst(b.sessions.records, ks, m);
    }
  }

  lemma AdmittedFit(admin: (Bytes, Bytes) -> bool, h: Header, ks: seq<Key>, m: map<Key, Record>)
    requires forall i | 0 <= i < |ks| :: ks[i] in m && SessionAdmitted(admin, h, ks[i], m[ks[i]])
    ensures SessionsFit(ks, m)
  {
    hide SessionAccepted, SessionFits;
  }

  lemma NoSessions(admin: (Bytes, Bytes) -> bool, h: Header, b: Build, m: map<Key, Record>)
    ensures Feed(admin, h, b, SessionRecs([], m)) == Some(b) && BytesOf([], m) == 0
    ensures b.sessions.records + Only([], m) == b.sessions.records
  {
    hide AddRecord;
  }

  lemma SessionStepExact(admin: (Bytes, Bytes) -> bool, h: Header, b: Build, k: Key, r: Record)
    requires (b.phase == 2 || b.phase == 3) && SessionAdmitted(admin, h, k, r) && b.sessionBytes + Size(r) < U64_MAX
    requires (b.priorSession.Some? ==> KeyBefore(b.priorSession.value, k)) && k !in b.sessions.records && k !in b.sessions.tombstones
    ensures SessionFits(r)
    ensures AddRecord(admin, h, b, 4, PutSession(k, r)) ==
            Some(b.(phase := 3, sessionBytes := b.sessionBytes + Size(r), priorSession := Some(k),
                    sessions := b.sessions.(records := b.sessions.records[k := r])))
  {
    hide AddRecord, PutSession, SessionAccepted, Size;
    SessionStep(admin, h, b, k, r);
  }

  /** The keys after the first are new to a table that has just taken the first. */
  lemma TailDistinct<V>(ks: seq<Key>, records: map<Key, V>, v: V)
    requires ks != [] && Climbing(ks) && forall i | 0 <= i < |ks| :: ks[i] !in records
    ensures Climbing(ks[1..]) && forall i | 0 <= i < |ks[1..]| :: ks[1..][i] !in records[ks[0] := v]
    ensures |ks| > 1 ==> KeyBefore(ks[0], ks[1..][0])
  {
    forall i | 0 <= i < |ks[1..]| ensures ks[1..][i] !in records[ks[0] := v] {
      assert ks[1..][i] == ks[i + 1] && KeyBefore(ks[0], ks[i + 1]);
    }
  }

  lemma SessionRecsFirst(ks: seq<Key>, m: map<Key, Record>)
    requires ks != [] && SessionsFit(ks, m)
    ensures SessionRecs(ks, m) == [Rec(4, PutSession(ks[0], m[ks[0]]))] + SessionRecs(ks[1..], m)
  {
    hide PutSession, SessionFits;
  }

  predicate TombstoneAdmitted(h: Header, k: Key, t: Tombstone) {
    ValidKey(k) && t.maxSequence != 0 && t.expiresAt > h.lastLeaderTime
  }

  lemma TombstoneStep(admin: (Bytes, Bytes) -> bool, h: Header, b: Build, k: Key, t: Tombstone)
    requires 2 <= b.phase <= 4 && TombstoneAdmitted(h, k, t)
    requires (b.priorTombstone.Some? ==> KeyBefore(b.priorTombstone.value, k)) && k !in b.sessions.records && k !in b.sessions.tombstones
    ensures AddRecord(admin, h, b, 5, PutTombstone(k, t)) ==
            Some(b.(phase := 4, priorTombstone := Some(k),
                    sessions := b.sessions.(tombstones := b.sessions.tombstones[k := t])))
  {
    hide GetTombstone, PutTombstone;
    TombstoneRoundTrip(k, t);
  }

  lemma {:induction false} TombstonesFeed(admin: (Bytes, Bytes) -> bool, h: Header, b: Build, ks: seq<Key>, m: map<Key, Tombstone>)
    returns (after: Build)
    requires 2 <= b.phase <= 4 && Climbing(ks)
    requires forall i | 0 <= i < |ks| :: ks[i] in m && TombstoneAdmitted(h, ks[i], m[ks[i]])
    requires forall i | 0 <= i < |ks| :: ks[i] !in b.sessions.records && ks[i] !in b.sessions.tombstones
    requires ks != [] && b.priorTombstone.Some? ==> KeyBefore(b.priorTombstone.value, ks[0])
    ensures Feed(admin, h, b, TombstoneRecs(ks, m)) == Some(after)
    ensures after == b.(phase := after.phase, priorTombstone := after.priorTombstone,
                        sessions := b.sessions.(tombstones := b.sessions.tombstones + Only(ks, m)))
    decreases |ks|
  {
    hide AddRecord, PutTombstone, TombstoneAdmitted, Feed;
    if ks == [] {
      after := b;
      FeedNone(admin, h, b);
      assert b.sessions.tombstones + Only(ks, m) == b.sessions.tombstones;
    } else {
      var k := ks[0];
      TombstoneStep(admin, h, b, k, m[k]);
      var next := b.(phase := 4, priorTombstone := Some(k), sessions := b.sessions.(tombstones := b.sessions.tombstones[k := m[k]]));
      assert forall i | 0 <= i < |ks| - 1 :: ks[1..][i] == ks[i + 1];
      after := TombstonesFeed(admin, h, next, ks[1..], m);
      assert TombstoneRecs(ks, m) == [Rec(5, PutTombstone(k, m[k]))] + TombstoneRecs(ks[1..], m);
      FeedOne(admin, h, b, Rec(5, PutTombstone(k, m[k])), TombstoneRecs(ks[1..], m), next);
      OnlyFirst(b.sessions.tombstones, ks, m);
    }
  }

  // ------------------------------------------------------------------
  // The whole file
  // ------------------------------------------------------------------

  lemma OnlyAll<V>(m: map<Key, V>)
    ensures (forall i | 0 <= i < |InOrder(m.Keys)| :: InOrder(m.Keys)[i] in m) && map[] + Only(InOrder(m.Keys), m) == m
  {
  }

  predicate HeaderFor(s: Snapshot, h: Header) {
    h.policyHash == PolicyHash(s.policy) && h.index == s.kv.appliedIndex && h.term == s.kv.appliedTerm &&
    h.lastLeaderTime == s.kv.lastLeaderTime && h.storeSequence == s.kv.storeSequence
  }

  lemma HeaderIsFor(s: Snapshot, count: u64)
    requires s.kv.storeSequence <= U64_MAX
    ensures HeaderFor(s, HeaderOf(s, count)) && HeaderOf(s, count).recordCount == count
  {
  }

  /** Reading all records of a portable snapshot rebuilds it. */
  lemma RecordsFeed(admin: (Bytes, Bytes) -> bool, h: Header, s: Snapshot) returns (after: Build)
    requires Portable(admin, s) && HeaderFor(s, h)
    ensures Feed(admin, h, BLANK, RecordsOf(s)) == Some(after)
    ensures after.membership == Some(s.membership) && after.policy == Some(s.policy) && after.transfer == s.transfer
    ensures after.entries == s.kv.entries && after.sessions == s.sessions
    ensures after.sessionBytes == BytesOf(InOrder(s.sessions.records.Keys), s.sessions.records)
  {
    hide Feed, FirstRecs, KeyRecs, SessionRecs, TombstoneRecs, HeaderFor, ValidMembership, ValidPolicy, InOrder, BytesOf, Frameable, Front,
         EntryExportable, SessionExportable, TombstoneExportable, TransferExportable, KeyFits, SessionFits;
    TransferReady(s, h);
    FirstFeed(admin, h, s) by { HeaderHash(s, h); }
    EntriesReady(s, h);
    var b1 := KeysFeed(admin, h, Started(s), s.kv.entries);
    assert Started(s).entries + s.kv.entries == s.kv.entries;
    var b2;
    b2, after := TableFeed(admin, h, s, b1);
    FeedFour(admin, h, BLANK, FirstRecs(s), KeyRecs(s.kv.entries),
             SessionRecs(InOrder(s.sessions.records.Keys), s.sessions.records),
             TombstoneRecs(InOrder(s.sessions.tombstones.Keys), s.sessions.tombstones), Started(s), b1, b2, after);
  }

  lemma HeaderHash(s: Snapshot, h: Header)
    requires HeaderFor(s, h)
    ensures h.policyHash == PolicyHash(s.policy)
  {
  }

  /** Sessions and tombstones rebuild the whole table. */
  lemma TableFeed(admin: (Bytes, Bytes) -> bool, h: Header, s: Snapshot, b: Build) returns (middle: Build, after: Build)
    requires Portable(admin, s) && HeaderFor(s, h)
    requires b.phase == 2 && b.sessions == EMPTY && b.sessionBytes == 0 && b.priorSession.None? && b.priorTombstone.None?
    ensures SessionsFit(InOrder(s.sessions.records.Keys), s.sessions.records)
    ensures Feed(admin, h, b, SessionRecs(InOrder(s.sessions.records.Keys), s.sessions.records)) == Some(middle)
    ensures Feed(admin, h, middle, TombstoneRecs(InOrder(s.sessions.tombstones.Keys), s.sessions.tombstones)) == Some(after)
    ensures after.membership == b.membership && after.policy == b.policy && after.transfer == b.transfer && after.entries == b.entries
    ensures after.sessions == s.sessions && after.sessionBytes == BytesOf(InOrder(s.sessions.records.Keys), s.sessions.records)
  {
    hide Feed, SessionRecs, TombstoneRecs, HeaderFor, ValidMembership, ValidPolicy, InOrder, BytesOf, FileFits, KeysAscend, Only,
         EntryExportable, SessionExportable, TombstoneExportable, TransferExportable, SessionFits, SessionAdmitted, TombstoneAdmitted, Climbing;
    FitSessions(s);
    SessionsReady(admin, s, h);
    middle := SessionsFeed(admin, h, b, InOrder(s.sessions.records.Keys), s.sessions.records);
    OnlyAll(s.sessions.records);
    TombstonesReady(s, h);
    after := TombstonesFeed(admin, h, middle, InOrder(s.sessions.tombstones.Keys), s.sessions.tombstones);
    OnlyAll(s.sessions.tombstones);
  }

  lemma FitSessions(s: Snapshot)
    requires FileFits(s)
    ensures forall k | k in s.sessions.records :: SessionFits(s.sessions.records[k])
  {
    hide SessionFits, RecordsOf, Front, ValidMembership;
  }

  lemma FeedFour(admin: (Bytes, Bytes) -> bool, h: Header, b: Build, r1: seq<Rec>, r2: seq<Rec>, r3: seq<Rec>, r4: seq<Rec>,
                 b1: Build, b2: Build, b3: Build, b4: Build)
    requires Feed(admin, h, b, r1) == Some(b1) && Feed(admin, h, b1, r2) == Some(b2)
    requires Feed(admin, h, b2, r3) == Some(b3) && Feed(admin, h, b3, r4) == Some(b4)
    ensures Feed(admin, h, b, r1 + r2 + r3 + r4) == Some(b4)
  {
    hide Feed;
    FeedConcat(admin, h, b, r1, r2);
    FeedConcat(admin, h, b, r1 + r2, r3);
    FeedConcat(admin, h, b, r1 + r2 + r3, r4);
  }

  lemma TransferReady(s: Snapshot, h: Header)
    requires ValidMembership(s.membership) && HeaderFor(s, h)
    requires s.transfer.Some? ==> TransferExportable(s.transfer.value, s)
    requires s.transfer.Some? && s.transfer.value.admin.Some? ==> s.transfer.value.admin.value.0.client != 0
    ensures s.transfer.Some? ==> TransferAccepted(s.transfer.value, h.index)
  {
    hide PolicyHash;
  }

  lemma EntriesReady(s: Snapshot, h: Header)
    requires HeaderFor(s, h) && forall i | 0 <= i < |s.kv.entries| :: EntryExportable(s.kv.entries[i], s)
    ensures forall i | 0 <= i < |s.kv.entries| :: KeyAccepted(s.kv.entries[i], h)
  {
    hide PolicyHash;
    forall i | 0 <= i < |s.kv.entries| ensures KeyAccepted(s.kv.entries[i], h) {
      assert EntryExportable(s.kv.entries[i], s);
    }
  }

  lemma SessionsReady(admin: (Bytes, Bytes) -> bool, s: Snapshot, h: Header)
    requires HeaderFor(s, h) && ValidPolicy(s.policy)
    requires forall k | k in s.sessions.records :: SessionExportable(admin, k, s.sessions.records[k], s)
    requires forall k | k in s.sessions.records :: SessionFits(s.sessions.records[k]) && k.client != 0
    requires BytesOf(InOrder(s.sessions.records.Keys), s.sessions.records) <= s.policy.maxSessionBytes
    ensures var ks := InOrder(s.sessions.records.Keys);
            Climbing(ks) && BytesOf(ks, s.sessions.records) < U64_MAX &&
            forall i | 0 <= i < |ks| :: ks[i] in s.sessions.records && SessionAdmitted(admin, h, ks[i], s.sessions.records[ks[i]])
  {
    hide PolicyHash, CanonicalPayload, BytesOf, InOrder, SessionFits;
    var ks := InOrder(s.sessions.records.Keys);
    forall i | 0 <= i < |ks| ensures ks[i] in s.sessions.records && SessionAdmitted(admin, h, ks[i], s.sessions.records[ks[i]]) {
      assert SessionExportable(admin, ks[i], s.sessions.records[ks[i]], s);
    }
  }

  lemma TombstonesReady(s: Snapshot, h: Header)
    requires HeaderFor(s, h)
    requires forall k | k in s.sessions.tombstones :: TombstoneExportable(k, s.sessions.tombstones[k], s) && k.client != 0
    ensures var ts := InOrder(s.sessions.tombstones.Keys);
            Climbing(ts) &&
            forall i | 0 <= i < |ts| ::
              ts[i] in s.sessions.tombstones && TombstoneAdmitted(h, ts[i], s.sessions.tombstones[ts[i]]) && ts[i] !in s.sessions.records
  {
    hide PolicyHash, InOrder;
    var ts := InOrder(s.sessions.tombstones.Keys);
    forall i | 0 <= i < |ts|
      ensures ts[i] in s.sessions.tombstones && TombstoneAdmitted(h, ts[i], s.sessions.tombstones[ts[i]]) && ts[i] !in s.sessions.records
    {
      assert TombstoneExportable(ts[i], s.sessions.tombstones[ts[i]], s);
    }
  }

  /** The parts of a portable snapshot's file are good. */
  lemma PartsAreGood(admin: (Bytes, Bytes) -> bool, s: Snapshot) returns (h: Header, b: Build)
    requires Portable(admin, s)
    ensures |s.clusterId| == 16 && s.kv.storeSequence <= U64_MAX && h == HeaderOf(s, |RecordsOf(s)|)
    ensures ParseHeader(HeaderBytes(s.clusterId, h), s.clusterId) == Some(h)
    ensures Records(admin, h, BLANK, 0, Frames(RecordsOf(s))) == Some((b, |RecordsOf(s)|))
    ensures Conclude(s.clusterId, h, b, |RecordsOf(s)|) == Some(s)
  {
    hide *;
    PortableParts(admin, s);
    h := HeaderOf(s, |RecordsOf(s)|);
    HeaderIsFor(s, |RecordsOf(s)|);
    HeaderRead(admin, s, h);
    b := RecordsConclude(admin, s, h);
    FramesParse(admin, h, BLANK, 0, RecordsOf(s));
  }

  lemma PortableParts(admin: (Bytes, Bytes) -> bool, s: Snapshot)
    requires Portable(admin, s)
    ensures Exportable(admin, s) && Encodable(s) && ValidMembership(s.membership) && FileFits(s)
    ensures |s.clusterId| == 16 && s.kv.storeSequence <= U64_MAX
    ensures Frameable(RecordsOf(s)) && |RecordsOf(s)| <= 0xffff_ffff_ffff_ffff
    ensures |s.sessions.records| <= s.policy.maxSessions && |s.sessions.tombstones| <= s.policy.maxSessionTombstones
  {
    hide Exportable, ValidMembership, RecordsOf, Front, Frameable;
  }

  lemma RecordsConclude(admin: (Bytes, Bytes) -> bool, s: Snapshot, h: Header) returns (b: Build)
    requires Portable(admin, s) && HeaderFor(s, h) && ValidMembership(s.membership) && Encodable(s) && h.recordCount == |RecordsOf(s)|
    ensures Feed(admin, h, BLANK, RecordsOf(s)) == Some(b)
    ensures Conclude(s.clusterId, h, b, |RecordsOf(s)|) == Some(s)
  {
    hide *;
    PortableParts(admin, s);
    b := RecordsFeed(admin, h, s);
    Concluded(admin, s, h, b, |RecordsOf(s)|);
  }

  /** Decoding the encoding of a portable snapshot returns that snapshot. */
  lemma SnapshotRoundTrip(admin: (Bytes, Bytes) -> bool, s: Snapshot, maxBytes: nat)
    requires Portable(admin, s) && |Encoding(s)| <= maxBytes
    ensures Decode(admin, Encoding(s), s.clusterId, maxBytes) == Some(s)
  {
    hide Exportable, Encodable, Frameable, ValidMembership, ValidPolicy, RecordsOf, Frames, Records, HeaderBytes, FooterBytes, HeaderOf,
         ParseHeader, FooterAccepted, Conclude, Decode;
    var h, b := PartsAreGood(admin, s);
    FooterRoundTrip(Front(s));
    DecodeParts(admin, s.clusterId, maxBytes, HeaderBytes(s.clusterId, h), Frames(RecordsOf(s)), FooterBytes(Front(s)), h, b, |RecordsOf(s)|);
  }

  /** A file made of a good header, good records and a good footer decodes to what its records rebuild. */
  lemma DecodeParts(admin: (Bytes, Bytes) -> bool, clusterId: Bytes, maxBytes: nat, head: Bytes, frames: Bytes, footer: Bytes,
                    h: Header, b: Build, seen: nat)
    requires |head| == HEADER_LENGTH && |footer| == FOOTER_LENGTH && |head + frames + footer| <= maxBytes
    requires ParseHeader(head, clusterId) == Some(h) && FooterAccepted(head + frames, footer)
    requires Records(admin, h, BLANK, 0, frames) == Some((b, seen))
    ensures Decode(admin, head + frames + footer, clusterId, maxBytes) == Conclude(clusterId, h, b, seen)
  {
    hide ParseHeader, FooterAccepted, Records, Conclude;
    var bytes := head + frames + footer;
    var end := |bytes| - FOOTER_LENGTH;
    assert bytes[..HEADER_LENGTH] == head;
    assert bytes[..end] == head + frames && bytes[end..] == footer;
    assert bytes[HEADER_LENGTH..end] == frames;
  }

  lemma HeaderRead(admin: (Bytes, Bytes) -> bool, s: Snapshot, h: Header)
    requires Exportable(admin, s) && Encodable(s) && HeaderFor(s, h)
    ensures |s.clusterId| == 16 && ParseHeader(HeaderBytes(s.clusterId, h), s.clusterId) == Some(h)
  {
    hide PolicyHash, ParseHeader, HeaderBytes, BytesOf, InOrder, ValidMembership;
    HeaderRoundTrip(s.clusterId, h);
  }

  lemma Concluded(admin: (Bytes, Bytes) -> bool, s: Snapshot, h: Header, b: Build, seen: nat)
    requires Exportable(admin, s) && HeaderFor(s, h) && seen == h.recordCount
    requires |s.sessions.records| <= s.policy.maxSessions && |s.sessions.tombstones| <= s.policy.maxSessionTombstones
    requires b.membership == Some(s.membership) && b.policy == Some(s.policy) && b.transfer == s.transfer
    requires b.entries == s.kv.entries && b.sessions == s.sessions
    requires b.sessionBytes == BytesOf(InOrder(s.sessions.records.Keys), s.sessions.records)
    ensures Conclude(s.clusterId, h, b, seen) == Some(s)
  {
    hide PolicyHash, BytesOf, ValidMembership, InOrder, SessionExportable, TombstoneExportable, KeysAscend;
    assert forall i | 0 <= i < |b.entries| :: EntryExportable(b.entries[i], s);
  }
}
