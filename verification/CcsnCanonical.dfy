/** Which accepted checkpoint files are the ones the encoder writes: exactly those whose membership image
    is in the encoder's form and whose transfer record, if any, comes before the keys. */
module CcsnCanonical {
  import opened Prelude
  import opened Ordering
  import opened Codec
  import opened ClusterConfig
  import opened KvSnapshot
  import opened Sessions
  import opened CcsnRecords
  import opened CcsnDecode
  import opened CcsnEncode
  import opened CcsnRoundTrip
  import opened CcsnNormal
  import Form = MembershipForm
  import Crc

  // ------------------------------------------------------------------
  // The form, read off the bytes
  // ------------------------------------------------------------------

  /** The framed records of a region, as far as they are whole. */
  function Split(region: Bytes): seq<Rec>
    decreases |region|
  {
    if |region| < 9 || BodyLength(region) + 9 > |region| then []
    else
      var n := BodyLength(region) + 9;
      [Rec(region[8], region[9..n])] + Split(region[n..])
  }

  /** The records of a file. */
  function RecordsIn(bytes: Bytes): seq<Rec> {
    if |bytes| < HEADER_LENGTH + FOOTER_LENGTH then [] else Split(bytes[HEADER_LENGTH..|bytes| - FOOTER_LENGTH])
  }

  /** No transfer record behind the third place. */
  predicate TransferFirst(rs: seq<Rec>) {
    forall i | 3 <= i < |rs| :: rs[i].tag != 6
  }

  /** The first record is a membership image in the encoder's form. */
  predicate ImageInForm(rs: seq<Rec>) {
    rs != [] && Form.InOrder(rs[0].body)
  }

  predicate RecordsInForm(rs: seq<Rec>) {
    ImageInForm(rs) && TransferFirst(rs)
  }

  // ------------------------------------------------------------------
  // Bodies are their one encoding
  // ------------------------------------------------------------------

  lemma KeyCanonical(body: Bytes, h: Header)
    requires GetKey(body, h).Some?
    ensures KeyFits(GetKey(body, h).value) && PutKey(GetKey(body, h).value) == body
  {
    hide GetBytes, PutBytes, GetU64, PutU64;
    BytesCanonical(body);
    var r0 := GetBytes(body).value.1;
    U64Canonical(r0);
    var r1 := GetU64(r0).value.1;
    BytesCanonical(r1);
    var r2 := GetBytes(r1).value.1;
    U64Canonical(GetU8(r2).value.1);
  }

  lemma SessionCanonical(admin: (Bytes, Bytes) -> bool, body: Bytes)
    requires GetSession(admin, body).Some?
    ensures var (k, r) := GetSession(admin, body).value; SessionFits(r) && PutSession(k, r) == body
  {
    hide GetBytes, PutBytes, GetU64, PutU64, CanonicalPayload;
    var r0 := GetU8(body).value.1;
    U64Canonical(r0);
    var r1 := GetU64(r0).value.1;
    U64Canonical(r1);
    var r2 := GetU64(r1).value.1;
    U64Canonical(r2);
    var r3 := GetU64(r2).value.1;
    BytesCanonical(r3);
    BytesCanonical(GetBytes(r3).value.1);
  }

  lemma TombstoneCanonical(body: Bytes)
    requires GetTombstone(body).Some?
    ensures var (k, t) := GetTombstone(body).value; PutTombstone(k, t) == body
  {
    hide GetU64, PutU64;
    var r0 := GetU8(body).value.1;
    U64Canonical(r0);
    var r1 := GetU64(r0).value.1;
    U64Canonical(r1);
    U64Canonical(GetU64(r1).value.1);
  }

  lemma TransferCanonical(body: Bytes, index: u64)
    requires GetTransfer(body, index).Some?
    ensures PutTransfer(GetTransfer(body, index).value) == body
  {
    hide GetU64, PutU64, GetAdmin, PutAdmin;
    U64Canonical(body);
    var r0 := GetU64(body).value.1;
    U64Canonical(r0);
    var r1 := GetU64(r0).value.1;
    U64Canonical(r1);
    AdminCanonical(GetU8(GetU64(r1).value.1).value.1);
  }

  lemma AdminCanonical(bs: Bytes)
    requires GetAdmin(bs).Some?
    ensures PutAdmin(GetAdmin(bs).value) == bs
  {
    hide GetU64, PutU64;
    var r1 := GetU8(GetU8(bs).value.1).value.1;
    U64Canonical(r1);
    U64Canonical(GetU64(r1).value.1);
  }

  // ------------------------------------------------------------------
  // Header, frames and footer are determined
  // ------------------------------------------------------------------

  lemma HeaderCanonical(bs: Bytes, clusterId: Bytes)
    requires ParseHeader(bs, clusterId).Some?
    ensures |clusterId| == 16 && HeaderBytes(clusterId, ParseHeader(bs, clusterId).value) == bs
  {
    hide Seal, Unseal, GetU16, PutU16, GetU32, PutU32, GetWords, PutWords;
    UnsealCanonical(bs);
    var body := Unseal(bs).value;
    U32Canonical(body);
    U16Canonical(GetU32(body).value.1);
    var r0 := GetHeader(body, CCSN_MAGIC, CCSN_VERSION).value;
    var r1 := Chop(r0, 16).value.1;
    Form.WordsCanonical(r1, 6);
    var w := GetWords(r1, 6).value.0;
    assert w == [w[0], w[1], w[2], w[3], w[4], w[5]];
  }

  lemma FooterCanonical(done: Bytes, footer: Bytes)
    requires |done| >= HEADER_LENGTH && |footer| == FOOTER_LENGTH && FooterAccepted(done, footer)
    ensures |done| + FOOTER_LENGTH <= U64_MAX && FooterBytes(done) == footer
  {
    hide Crc.Crc32c, ToLE, PutU32, GetU32, PutU64, GetU64;
    var f := ParseFooter(footer).value;
    U64Canonical(footer);
    var r0 := GetU64(footer).value.1;
    U32Canonical(r0);
    var r1 := GetU32(r0).value.1;
    U32Canonical(r1);
    U32Canonical(GetU32(r1).value.1);
    PutsAreConcats(f.totalLength, f.recordsCrc, f.fileCrc);
    PutsAreConcats(f.totalLength, f.recordsCrc, 0);
    ZeroLE();
    assert footer[..12] + ZERO4 + footer[16..] == BlankFooter(done);
    assert Blanked(done, footer) == done + (footer[..12] + ZERO4 + footer[16..]);
  }

  lemma FrameCanonical(record: Bytes)
    requires |record| >= 9 && |record| == BodyLength(record) + 9 && FrameBody(record).Some?
    ensures |record[9..]| <= U32_MAX && Frame(Rec(record[8], record[9..])) == record
    ensures FrameBody(record).value == (record[8], record[9..])
  {
    hide Crc.Crc32c, PutU32, GetU32;
    U32Canonical(record);
    U32Canonical(record[4..]);
    var r0, r1 := GetU32(record).value.1, GetU32(record[4..]).value.1;
    assert record[4..] == r0 by { DropU32(GetU32(record).value.0, r0); }
    assert record[8..] == r1 by {
      DropU32(GetU32(record[4..]).value.0, r1);
      assert record[8..] == record[4..][4..];
    }
    assert record[8..] == [record[8]] + record[9..];
  }

  lemma LengthOfPrefix(region: Bytes, n: nat)
    requires 9 <= n <= |region|
    ensures BodyLength(region[..n]) == BodyLength(region)
  {
    hide GetU32;
    U32OfPrefix(region[..n], region[n..]);
    assert region[..n] + region[n..] == region;
  }

  /** A region that is read is the frames of its records, and reading it is feeding them. */
  lemma {:induction false} RecordsAreFrames(admin: (Bytes, Bytes) -> bool, h: Header, b: Build, seen: nat, region: Bytes)
    requires Records(admin, h, b, seen, region).Some?
    ensures var rs := Split(region);
            Frameable(rs) && Frames(rs) == region &&
            Feed(admin, h, b, rs) == Some(Records(admin, h, b, seen, region).value.0) &&
            Records(admin, h, b, seen, region).value.1 == seen + |rs|
    decreases |region|
  {
    hide AddRecord, FrameBody, BodyLength, Frame, Frames, Feed, Frameable;
    if region == [] {
      FeedNone(admin, h, b);
      NoFrames();
    } else {
      var n := BodyLength(region) + 9;
      var record, rest := region[..n], region[n..];
      LengthOfPrefix(region, n);
      FrameCanonical(record);
      assert record[8] == region[8] && record[9..] == region[9..n];
      var r := Rec(region[8], region[9..n]);
      var more := AddRecord(admin, h, b, r.tag, r.body).value;
      RecordsAreFrames(admin, h, more, seen + 1, rest);
      FrameThenRest(r, Split(rest), region, n);
      FeedOne(admin, h, b, r, Split(rest), more);
    }
  }

  lemma FrameThenRest(r: Rec, rs: seq<Rec>, region: Bytes, n: nat)
    requires |r.body| <= U32_MAX && Frameable(rs) && n <= |region| && Frame(r) == region[..n] && Frames(rs) == region[n..]
    ensures Frameable([r] + rs) && Frames([r] + rs) == region
  {
    hide Frame, Frames;
    FramesPrepend(r, rs);
    assert region == region[..n] + region[n..];
  }

  lemma NoFrames()
    ensures Frameable([]) && Frames([]) == []
  {
  }

  lemma {:induction false} SplitFrames(rs: seq<Rec>)
    requires Frameable(rs)
    ensures Split(Frames(rs)) == rs
    decreases |rs|
  {
    hide Frame, BodyLength;
    if rs != [] {
      var r, rest := rs[0], rs[1..];
      assert rs == [r] + rest;
      FramesPrepend(r, rest);
      FrameReads(r, Frames(rest));
      SplitOne(r, Frames(rest));
      SplitFrames(rest);
    }
  }

  lemma SplitOne(r: Rec, more: Bytes)
    requires |r.body| <= U32_MAX
    ensures Split(Frame(r) + more) == [r] + Split(more)
  {
    hide Frame, BodyLength;
    FrameReads(r, more);
    var bs, n := Frame(r) + more, |Frame(r)|;
    FramePlaces(r);
    assert bs[8] == Frame(r)[8] && bs[9..n] == Frame(r)[9..] && bs[n..] == more;
  }

  lemma FramePlaces(r: Rec)
    requires |r.body| <= U32_MAX
    ensures Frame(r)[8] == r.tag && Frame(r)[9..] == r.body
  {
    hide Crc.Crc32c, PutU32, GetU32, Frame;
    FrameReads(r, []);
  }

  // ------------------------------------------------------------------
  // What has been read, as the encoder would write it
  // ------------------------------------------------------------------

  /** The parts read so far are ones the encoder has bodies for. */
  predicate Writable(b: Build) {
    (b.membership.Some? ==> ValidMembership(b.membership.value)) &&
    (forall i | 0 <= i < |b.entries| :: KeyFits(b.entries[i])) &&
    (forall k | k in b.sessions.records :: SessionFits(b.sessions.records[k]))
  }

  function WrittenHead(b: Build): seq<Rec>
    requires Writable(b)
  {
    (if b.membership.Some? then MembershipRoundTrip(b.membership.value); [Rec(1, EncodeMembership(b.membership.value).value)] else []) +
    (if b.policy.Some? then [Rec(2, EncodePolicy(b.policy.value))] else []) +
    (if b.transfer.Some? then [Rec(6, PutTransfer(b.transfer.value))] else [])
  }

  function Written(b: Build): (rs: seq<Rec>)
    requires Writable(b)
    ensures |rs| == |WrittenHead(b)| + |b.entries| + |b.sessions.records| + |b.sessions.tombstones|
  {
    WrittenHead(b) + KeyRecs(b.entries) +
    SessionRecs(InOrder(b.sessions.records.Keys), b.sessions.records) +
    TombstoneRecs(InOrder(b.sessions.tombstones.Keys), b.sessions.tombstones)
  }

  ghost predicate Latest(ks: set<Key>, prior: Option<Key>) {
    forall k | k in ks :: prior.Some? && (k == prior.value || KeyBefore(k, prior.value))
  }

  /** How far reading has come: sections are entered in order, and keys of a section in order. */
  ghost predicate Staged(b: Build) {
    b.phase <= 4 && (b.phase == 0 ==> b == BLANK) &&
    (b.phase >= 1 ==> b.membership.Some?) && (b.policy.Some? <==> b.phase >= 2) &&
    (b.phase <= 1 ==> b.transfer.None? && b.entries == []) &&
    (b.phase <= 2 ==> b.sessions.records == map[]) && (b.phase <= 3 ==> b.sessions.tombstones == map[]) &&
    Latest(b.sessions.records.Keys, b.priorSession) && Latest(b.sessions.tombstones.Keys, b.priorTombstone)
  }

  lemma ClimbingUnique(a: seq<Key>, b: seq<Key>)
    requires Climbing(a) && Climbing(b) && forall k :: k in a <==> k in b
    ensures a == b
  {
    RanksClimb(a);
    RanksClimb(b);
    SortedUnique(a, b, SessionRank);
  }

  lemma RanksClimb(ks: seq<Key>)
    requires Climbing(ks)
    ensures Increasing(ks, SessionRank)
  {
    forall i, j | 0 <= i < j < |ks| ensures LexLt(SessionRank(ks[i]), SessionRank(ks[j])) {
      RankClimbs(ks[i], ks[j]);
    }
  }

  lemma RankClimbs(a: Key, b: Key)
    requires KeyBefore(a, b)
    ensures LexLt(SessionRank(a), SessionRank(b))
  {
    var x, y := SessionRank(a), SessionRank(b);
    assert x[1..] == [a.client] && y[1..] == [b.client] && x[1..][1..] == [] && x[0] == a.namespace && y[0] == b.namespace;
    assert x[1..][0] == a.client && y[1..][0] == b.client;
  }

  /** A key behind all others is listed last. */
  lemma InOrderAppend(ks: set<Key>, prior: Option<Key>, k: Key)
    requires Latest(ks, prior) && k !in ks && (prior.Some? ==> KeyBefore(prior.value, k))
    ensures InOrder(ks + {k}) == InOrder(ks) + [k]
  {
    hide InOrder;
    var a, b := InOrder(ks + {k}), InOrder(ks) + [k];
    forall i, j | 0 <= i < j < |b| ensures KeyBefore(b[i], b[j]) {
      if j == |b| - 1 {
        assert b[i] in ks;
      }
    }
    ClimbingUnique(a, b);
  }

  lemma SessionRecsAppend(m: map<Key, Record>, prior: Option<Key>, k: Key, r: Record)
    requires (forall j | j in m :: SessionFits(m[j])) && SessionFits(r)
    requires Latest(m.Keys, prior) && k !in m && (prior.Some? ==> KeyBefore(prior.value, k))
    ensures var n := m[k := r];
            SessionsFit(InOrder(m.Keys), m) && SessionsFit(InOrder(n.Keys), n) &&
            SessionRecs(InOrder(n.Keys), n) == SessionRecs(InOrder(m.Keys), m) + [Rec(4, PutSession(k, r))]
  {
    hide InOrder, PutSession, SessionFits, KeyBefore, SessionRecs, Latest;
    assert m[k := r].Keys == m.Keys + {k};
    InOrderAppend(m.Keys, prior, k);
    SessionRecsSnoc(InOrder(m.Keys), m, m[k := r], k);
  }

  lemma SessionRecsSnoc(ks: seq<Key>, m: map<Key, Record>, n: map<Key, Record>, k: Key)
    requires SessionsFit(ks, m) && SessionsFit(ks + [k], n) && forall i | 0 <= i < |ks| :: ks[i] in m && ks[i] in n && m[ks[i]] == n[ks[i]]
    ensures k in n && SessionFits(n[k]) && SessionRecs(ks + [k], n) == SessionRecs(ks, m) + [Rec(4, PutSession(k, n[k]))]
  {
    hide PutSession, SessionFits;
    assert (ks + [k])[|ks|] == k;
    assert forall i | 0 <= i < |ks| :: (ks + [k])[i] == ks[i];
  }

  lemma TombstoneRecsAppend(m: map<Key, Tombstone>, prior: Option<Key>, k: Key, t: Tombstone)
    requires Latest(m.Keys, prior) && k !in m && (prior.Some? ==> KeyBefore(prior.value, k))
    ensures var n := m[k := t];
            TombstoneRecs(InOrder(n.Keys), n) == TombstoneRecs(InOrder(m.Keys), m) + [Rec(5, PutTombstone(k, t))]
  {
    hide InOrder, PutTombstone, KeyBefore, TombstoneRecs, Latest;
    assert m[k := t].Keys == m.Keys + {k};
    InOrderAppend(m.Keys, prior, k);
    TombstoneRecsSnoc(InOrder(m.Keys), m, m[k := t], k);
  }

  lemma TombstoneRecsSnoc(ks: seq<Key>, m: map<Key, Tombstone>, n: map<Key, Tombstone>, k: Key)
    requires k in n && forall i | 0 <= i < |ks| :: ks[i] in m && ks[i] in n && m[ks[i]] == n[ks[i]]
    ensures TombstoneRecs(ks + [k], n) == TombstoneRecs(ks, m) + [Rec(5, PutTombstone(k, n[k]))]
  {
    hide PutTombstone;
    assert forall i | 0 <= i < |ks| :: (ks + [k])[i] == ks[i];
  }

  lemma SessionStaged(b: Build, h: Header, k: Key, r: Record)
    requires Writable(b) && Staged(b) && SessionFits(r) && AddSession(b, h, k, r).Some? && (b.phase == 2 || b.phase == 3)
    ensures var c := AddSession(b, h, k, r).value; Writable(c) && Staged(c)
  {
    hide SessionFits, KeyFits, ValidMembership, Size, KeyBefore;
    LatestGrows(b.sessions.records.Keys, b.priorSession, k);
    assert b.sessions.records[k := r].Keys == b.sessions.records.Keys + {k};
  }

  lemma TombstoneStaged(b: Build, h: Header, k: Key, t: Tombstone)
    requires Writable(b) && Staged(b) && AddTombstone(b, h, k, t).Some? && 2 <= b.phase <= 4
    ensures var c := AddTombstone(b, h, k, t).value; Writable(c) && Staged(c)
  {
    hide SessionFits, KeyFits, ValidMembership, KeyBefore;
    LatestGrows(b.sessions.tombstones.Keys, b.priorTombstone, k);
    assert b.sessions.tombstones[k := t].Keys == b.sessions.tombstones.Keys + {k};
  }

  lemma SessionAppend(b: Build, h: Header, k: Key, r: Record)
    requires Writable(b) && Staged(b) && SessionFits(r) && AddSession(b, h, k, r).Some? && (b.phase == 2 || b.phase == 3)
    ensures var c := AddSession(b, h, k, r).value;
            Writable(c) && Staged(c) && Written(c) == Written(b) + [Rec(4, PutSession(k, r))]
  {
    hide InOrder, PutSession, SessionFits, KeyFits, ValidMembership, KeyRecs, WrittenHead, SessionRecs, TombstoneRecs, Size, KeyBefore, Latest;
    SessionStaged(b, h, k, r);
    SessionRecsAppend(b.sessions.records, b.priorSession, k, r);
    assert TombstoneRecs(InOrder(b.sessions.tombstones.Keys), b.sessions.tombstones) == [];
    SameHead(b, AddSession(b, h, k, r).value);
  }

  lemma SameHead(b: Build, c: Build)
    requires Writable(b) && Writable(c) && c.membership == b.membership && c.policy == b.policy && c.transfer == b.transfer
    ensures WrittenHead(c) == WrittenHead(b)
  {
  }

  lemma LatestGrows(ks: set<Key>, prior: Option<Key>, k: Key)
    requires Latest(ks, prior) && (prior.Some? ==> KeyBefore(prior.value, k))
    ensures Latest(ks + {k}, Some(k))
  {
  }

  lemma TombstoneAppend(b: Build, h: Header, k: Key, t: Tombstone)
    requires Writable(b) && Staged(b) && AddTombstone(b, h, k, t).Some? && 2 <= b.phase <= 4
    ensures var c := AddTombstone(b, h, k, t).value;
            Writable(c) && Staged(c) && Written(c) == Written(b) + [Rec(5, PutTombstone(k, t))]
  {
    hide InOrder, PutTombstone, SessionFits, KeyFits, ValidMembership, KeyRecs, WrittenHead, SessionRecs, TombstoneRecs, KeyBefore, Latest;
    TombstoneStaged(b, h, k, t);
    TombstoneRecsAppend(b.sessions.tombstones, b.priorTombstone, k, t);
    SameHead(b, AddTombstone(b, h, k, t).value);
  }

  lemma NoTable(b: Build)
    requires Writable(b) && Staged(b) && b.phase <= 2
    ensures Written(b) == WrittenHead(b) + KeyRecs(b.entries)
  {
    hide InOrder, KeyRecs, WrittenHead, ValidMembership, KeyFits;
    assert InOrder(b.sessions.records.Keys) == [] && InOrder(b.sessions.tombstones.Keys) == [];
  }

  lemma KeyAppend(b: Build, e: LogicalEntry)
    requires Writable(b) && Staged(b) && KeyFits(e) && AddKey(b, e).Some? && b.phase == 2
    ensures var c := AddKey(b, e).value;
            Writable(c) && Staged(c) && Written(c) == Written(b) + [Rec(3, PutKey(e))]
  {
    hide PutKey, KeyFits, ValidMembership, WrittenHead, Written, LexLt, SessionFits, KeyRecs;
    var c := AddKey(b, e).value;
    NoTable(b);
    NoTable(c);
    SameHead(b, c);
    KeyRecsSnoc(b.entries, e);
  }

  lemma KeyRecsSnoc(es: seq<LogicalEntry>, e: LogicalEntry)
    requires KeyFits(e) && forall i | 0 <= i < |es| :: KeyFits(es[i])
    ensures KeyRecs(es + [e]) == KeyRecs(es) + [Rec(3, PutKey(e))]
  {
    hide PutKey, KeyFits;
  }

  lemma TransferAppend(b: Build, t: Transfer)
    requires Writable(b) && Staged(b) && b.phase == 2 && b.transfer.None? && b.entries == []
    ensures var c := b.(transfer := Some(t));
            Writable(c) && Staged(c) && Written(c) == Written(b) + [Rec(6, PutTransfer(t))]
  {
    hide PutTransfer, KeyFits, ValidMembership, Written, EncodeMembership, EncodePolicy, SessionFits;
    var c := b.(transfer := Some(t));
    NoTable(b);
    NoTable(c);
  }

  lemma PolicyAppend(b: Build, p: Policy)
    requires Writable(b) && Staged(b) && b.phase == 1
    ensures var c := b.(policy := Some(p), phase := 2);
            Writable(c) && Staged(c) && Written(c) == Written(b) + [Rec(2, EncodePolicy(p))]
  {
    hide KeyFits, ValidMembership, Written, EncodeMembership, DecodeMembership, EncodePolicy, SessionFits, Latest;
    var c := b.(policy := Some(p), phase := 2);
    NoTable(b);
    NoTable(c);
    assert KeyRecs(b.entries) == [] && KeyRecs(c.entries) == [];
  }

  lemma MembershipAppend(m: Membership)
    requires ValidMembership(m)
    ensures EncodeMembership(m).Some?
    ensures var c := BLANK.(membership := Some(m), phase := 1);
            Writable(c) && Staged(c) && Written(c) == [Rec(1, EncodeMembership(m).value)]
  {
    hide KeyFits, ValidMembership, Written, EncodeMembership, DecodeMembership, SessionFits;
    MembershipRoundTrip(m);
    NoTable(BLANK.(membership := Some(m), phase := 1));
  }

  /** One record more, in the encoder's form and place: it is what the encoder would write next. */
  lemma RecordAppends(admin: (Bytes, Bytes) -> bool, h: Header, b: Build, r: Rec)
    requires Writable(b) && Staged(b) && AddRecord(admin, h, b, r.tag, r.body).Some?
    requires r.tag == 1 ==> Form.InOrder(r.body)
    requires r.tag == 6 ==> b.entries == []
    ensures var c := AddRecord(admin, h, b, r.tag, r.body).value;
            Writable(c) && Staged(c) && Written(c) == Written(b) + [r]
  {
    hide PutKey, GetKey, GetSession, PutSession, GetTombstone, PutTombstone, GetTransfer, PutTransfer, DecodeMembership, EncodeMembership,
         DecodePolicy, EncodePolicy, AddRecord, AddKey, AddSession, AddTombstone, Written, Writable, Staged, Form.InOrder, ValidMembership;
    Opened(admin, h, b, r);
    if r.tag == 1 {
      Form.EncoderFormIff(r.body);
      BlankIsStaged();
      MembershipAppend(DecodeMembership(r.body).value);
      assert [] + [r] == [r];
    } else if r.tag == 2 {
      PolicyAppend(b, DecodePolicy(r.body).value);
    } else if r.tag == 6 {
      TransferCanonical(r.body, h.index);
      TransferAppend(b, GetTransfer(r.body, h.index).value);
    } else if r.tag == 3 {
      KeyCanonical(r.body, h);
      KeyAppend(b, GetKey(r.body, h).value);
    } else if r.tag == 4 {
      SessionCanonical(admin, r.body);
      var (k, v) := GetSession(admin, r.body).value;
      SessionAppend(b, h, k, v);
    } else {
      TombstoneCanonical(r.body);
      var (k, t) := GetTombstone(r.body).value;
      TombstoneAppend(b, h, k, t);
    }
  }

  /** Which arm of the decoder took the record. */
  lemma Opened(admin: (Bytes, Bytes) -> bool, h: Header, b: Build, r: Rec)
    requires AddRecord(admin, h, b, r.tag, r.body).Some? && Staged(b)
    ensures 1 <= r.tag <= 6
    ensures var c := AddRecord(admin, h, b, r.tag, r.body).value;
            (r.tag == 1 ==> b == BLANK && DecodeMembership(r.body).Some? && c == b.(membership := DecodeMembership(r.body), phase := 1)) &&
            (r.tag == 2 ==> b.phase == 1 && DecodePolicy(r.body).Some? && EncodePolicy(DecodePolicy(r.body).value) == r.body &&
                            c == b.(policy := DecodePolicy(r.body), phase := 2)) &&
            (r.tag == 6 ==> b.phase == 2 && b.transfer.None? && GetTransfer(r.body, h.index).Some? &&
                            c == b.(transfer := GetTransfer(r.body, h.index))) &&
            (r.tag == 3 ==> b.phase == 2 && GetKey(r.body, h).Some? && AddKey(b, GetKey(r.body, h).value) == Some(c)) &&
            (r.tag == 4 ==> (b.phase == 2 || b.phase == 3) && GetSession(admin, r.body).Some? &&
                            AddSession(b, h, GetSession(admin, r.body).value.0, GetSession(admin, r.body).value.1) == Some(c)) &&
            (r.tag == 5 ==> 2 <= b.phase <= 4 && GetTombstone(r.body).Some? &&
                            AddTombstone(b, h, GetTombstone(r.body).value.0, GetTombstone(r.body).value.1) == Some(c))
  {
    hide GetKey, GetSession, GetTombstone, GetTransfer, DecodeMembership, DecodePolicy, PolicyHash, EncodePolicy, AddKey, AddSession,
         AddTombstone, Latest;
  }

  lemma PlaceOfTransfer(b: Build, n: nat)
    requires Writable(b) && Staged(b) && b.phase == 2 && b.transfer.None? && |Written(b)| == n && n <= 2
    ensures b.entries == []
  {
    hide Written, EncodeMembership, EncodePolicy, ValidMembership;
    NoTable(b);
  }

  /** Records in form that are accepted are exactly what the encoder writes for what they rebuild. */
  lemma {:induction false} FeedInForm(admin: (Bytes, Bytes) -> bool, h: Header, rs: seq<Rec>, n: nat) returns (b: Build)
    requires RecordsInForm(rs) && Feed(admin, h, BLANK, rs).Some? && n <= |rs|
    ensures Feed(admin, h, BLANK, rs[..n]) == Some(b) && Writable(b) && Staged(b) && Written(b) == rs[..n]
    decreases n
  {
    hide *;
    if n == 0 {
      b := BLANK;
      FeedNone(admin, h, BLANK);
      BlankIsStaged();
      NoPrefix(rs);
    } else {
      var before := FeedInForm(admin, h, rs, n - 1);
      TakeOne(rs, n);
      FeedPrefix(admin, h, BLANK, rs[..n - 1], [rs[n - 1]] + rs[n..]);
      b := FeedHead(admin, h, before, rs[n - 1], rs[n..]);
      PlaceAllows(admin, h, before, rs, n - 1);
      RecordAppends(admin, h, before, rs[n - 1]);
      FeedConcat(admin, h, BLANK, rs[..n - 1], [rs[n - 1]]);
      FeedSingle(admin, h, before, rs[n - 1], b);
    }
  }

  lemma NoPrefix(rs: seq<Rec>)
    ensures rs[..0] == []
  {
  }

  lemma TakeOne(rs: seq<Rec>, n: nat)
    requires 0 < n <= |rs|
    ensures rs == rs[..n - 1] + ([rs[n - 1]] + rs[n..]) && rs[..n] == rs[..n - 1] + [rs[n - 1]]
  {
  }

  lemma FeedSingle(admin: (Bytes, Bytes) -> bool, h: Header, b: Build, r: Rec, c: Build)
    requires AddRecord(admin, h, b, r.tag, r.body) == Some(c)
    ensures Feed(admin, h, b, [r]) == Some(c)
  {
    hide AddRecord, Feed;
    assert [r] == [r] + [];
    FeedOne(admin, h, b, r, [], c);
    FeedNone(admin, h, c);
  }

  /** In form, a record at this place is one the encoder could write here. */
  lemma PlaceAllows(admin: (Bytes, Bytes) -> bool, h: Header, b: Build, rs: seq<Rec>, n: nat)
    requires RecordsInForm(rs) && n < |rs| && Writable(b) && Staged(b) && Written(b) == rs[..n]
    requires AddRecord(admin, h, b, rs[n].tag, rs[n].body).Some?
    ensures rs[n].tag == 1 ==> Form.InOrder(rs[n].body)
    ensures rs[n].tag == 6 ==> b.entries == []
  {
    hide AddRecord, Written, Writable, Staged, Form.InOrder;
    Opened(admin, h, b, rs[n]);
    BlankIsStaged();
    assert |rs[..n]| == n;
    if rs[n].tag == 6 {
      PlaceOfTransfer(b, n);
    }
  }

  lemma BlankIsStaged()
    ensures Writable(BLANK) && Staged(BLANK) && Written(BLANK) == []
  {
    hide Written;
    assert Written(BLANK) == [] by { NoTable(BLANK); }
  }

  lemma FeedHead(admin: (Bytes, Bytes) -> bool, h: Header, b: Build, r: Rec, rest: seq<Rec>) returns (c: Build)
    requires Feed(admin, h, b, [r] + rest).Some?
    ensures AddRecord(admin, h, b, r.tag, r.body) == Some(c)
  {
    hide AddRecord;
    c := AddRecord(admin, h, b, r.tag, r.body).value;
  }

  // ------------------------------------------------------------------
  // The whole file
  // ------------------------------------------------------------------

  lemma ConcludedIsWritten(clusterId: Bytes, h: Header, b: Build, seen: nat)
    requires Conclude(clusterId, h, b, seen).Some? && Writable(b) && |clusterId| == 16
    ensures var s := Conclude(clusterId, h, b, seen).value;
            ValidMembership(s.membership) && Encodable(s) && s.clusterId == clusterId && s.kv.storeSequence <= U64_MAX &&
            RecordsOf(s) == Written(b)
  {
    hide KeyFits, SessionFits, ValidMembership, KeyRecs, SessionRecs, TombstoneRecs, InOrder, EncodeMembership, EncodePolicy, PutTransfer;
    var s := Conclude(clusterId, h, b, seen).value;
    assert WrittenHead(b) == FirstRecs(s);
  }

  /** The policy that was read is the one the header names. */
  lemma {:induction false} PolicyIsNamed(admin: (Bytes, Bytes) -> bool, h: Header, b: Build, rs: seq<Rec>)
    requires Feed(admin, h, b, rs).Some? && (b.policy.Some? ==> PolicyHash(b.policy.value) == h.policyHash)
    ensures var c := Feed(admin, h, b, rs).value; c.policy.Some? ==> PolicyHash(c.policy.value) == h.policyHash
    decreases |rs|
  {
    hide AddRecord, PolicyHash;
    if rs != [] {
      PolicyStepNamed(admin, h, b, rs[0]);
      PolicyIsNamed(admin, h, AddRecord(admin, h, b, rs[0].tag, rs[0].body).value, rs[1..]);
    }
  }

  lemma PolicyStepNamed(admin: (Bytes, Bytes) -> bool, h: Header, b: Build, r: Rec)
    requires AddRecord(admin, h, b, r.tag, r.body).Some? && (b.policy.Some? ==> PolicyHash(b.policy.value) == h.policyHash)
    ensures var c := AddRecord(admin, h, b, r.tag, r.body).value; c.policy.Some? ==> PolicyHash(c.policy.value) == h.policyHash
  {
    hide GetKey, GetSession, GetTombstone, GetTransfer, DecodeMembership, DecodePolicy, EncodePolicy, PolicyHash;
  }

  /** The parts an accepted file is made of. */
  lemma FileParts(admin: (Bytes, Bytes) -> bool, bytes: Bytes, clusterId: Bytes, maxBytes: nat)
    returns (h: Header, b: Build, front: Bytes)
    requires Decode(admin, bytes, clusterId, maxBytes).Some?
    ensures var rs := RecordsIn(bytes);
            |clusterId| == 16 && Frameable(rs) && front == HeaderBytes(clusterId, h) + Frames(rs) &&
            Feed(admin, h, BLANK, rs) == Some(b) && Conclude(clusterId, h, b, |rs|) == Decode(admin, bytes, clusterId, maxBytes)
    ensures |front| >= HEADER_LENGTH && |front| + FOOTER_LENGTH <= U64_MAX && bytes == front + FooterBytes(front)
  {
    hide ParseHeader, FooterAccepted, Records, Conclude, Split, Frames, Feed, HeaderBytes, FooterBytes, Frameable;
    var end := |bytes| - FOOTER_LENGTH;
    var head, region, footer := bytes[..HEADER_LENGTH], bytes[HEADER_LENGTH..end], bytes[end..];
    h := ParseHeader(head, clusterId).value;
    HeaderCanonical(head, clusterId);
    b := Records(admin, h, BLANK, 0, region).value.0;
    RecordsAreFrames(admin, h, BLANK, 0, region);
    front := bytes[..end];
    assert front == head + region;
    FooterCanonical(front, footer);
    assert bytes == front + footer;
  }

  lemma HeaderNames(clusterId: Bytes, h: Header, b: Build, seen: nat)
    requires Conclude(clusterId, h, b, seen).Some? && PolicyHash(b.policy.value) == h.policyHash
    ensures h == HeaderOf(Conclude(clusterId, h, b, seen).value, h.recordCount) && seen == h.recordCount
  {
    hide PolicyHash, ValidMembership;
  }

  /** In form, an accepted file is the encoder's. */
  lemma InFormIsEncoded(admin: (Bytes, Bytes) -> bool, bytes: Bytes, clusterId: Bytes, maxBytes: nat)
    requires Decode(admin, bytes, clusterId, maxBytes).Some? && RecordsInForm(RecordsIn(bytes))
    ensures var s := Decode(admin, bytes, clusterId, maxBytes).value; FileFits(s) && Encoding(s) == bytes
  {
    hide *;
    var h, b, front := FileParts(admin, bytes, clusterId, maxBytes);
    var rs := RecordsIn(bytes);
    var c := FeedInForm(admin, h, rs, |rs|);
    WholePrefix(rs);
    ConcludedIsWritten(clusterId, h, b, |rs|);
    NoPolicyYet();
    PolicyIsNamed(admin, h, BLANK, rs);
    ConcludedParts(clusterId, h, b, |rs|);
    HeaderNames(clusterId, h, b, |rs|);
    FrontFits(Conclude(clusterId, h, b, |rs|).value, h, front);
  }

  lemma WholePrefix(rs: seq<Rec>)
    ensures rs[..|rs|] == rs
  {
  }

  lemma NoPolicyYet()
    ensures BLANK.policy.None?
  {
  }

  lemma ConcludedParts(clusterId: Bytes, h: Header, b: Build, seen: nat)
    requires Conclude(clusterId, h, b, seen).Some?
    ensures b.policy.Some?
  {
    hide ValidMembership;
  }

  lemma FrontFits(s: Snapshot, h: Header, front: Bytes)
    requires ValidMembership(s.membership) && Encodable(s) && |s.clusterId| == 16 && s.kv.storeSequence <= U64_MAX
    requires Frameable(RecordsOf(s)) && h == HeaderOf(s, h.recordCount) && |RecordsOf(s)| == h.recordCount
    requires front == HeaderBytes(s.clusterId, h) + Frames(RecordsOf(s)) && |front| >= HEADER_LENGTH && |front| + FOOTER_LENGTH <= U64_MAX
    ensures FileFits(s) && Encoding(s) == front + FooterBytes(front)
  {
    hide HeaderBytes, HeaderOf, RecordsOf, Frames, FooterBytes, Frameable, ValidMembership, Encodable;
    var rs := RecordsOf(s);
    assert |rs| <= U64_MAX && HeaderOf(s, |rs|) == h;
    assert Front(s) == front;
  }

  /** The encoder's file is in form. */
  lemma EncodedIsInForm(s: Snapshot)
    requires FileFits(s)
    ensures RecordsInForm(RecordsIn(Encoding(s)))
  {
    hide *;
    FitsParts(s);
    var rs := RecordsOf(s);
    var tail := FrontIs(s);
    RegionOf(HeaderBytes(s.clusterId, HeaderOf(s, |rs|)), Frames(rs), tail);
    SplitFrames(rs);
    WrittenInForm(s);
  }

  lemma FitsParts(s: Snapshot)
    requires FileFits(s)
    ensures ValidMembership(s.membership) && Encodable(s) && Frameable(RecordsOf(s)) && |s.clusterId| == 16 &&
            s.kv.storeSequence <= U64_MAX && |RecordsOf(s)| <= 0xffff_ffff_ffff_ffff
  {
    hide ValidMembership, RecordsOf, Frameable, Front;
  }

  lemma RegionOf(head: Bytes, region: Bytes, footer: Bytes)
    requires |head| == HEADER_LENGTH && |footer| == FOOTER_LENGTH
    ensures RecordsIn(head + region + footer) == Split(region)
  {
    hide Split;
    var bytes := head + region + footer;
    assert bytes[HEADER_LENGTH..|bytes| - FOOTER_LENGTH] == region;
  }

  lemma WrittenInForm(s: Snapshot)
    requires ValidMembership(s.membership) && Encodable(s)
    ensures RecordsInForm(RecordsOf(s))
  {
    hide EncodePolicy, PutTransfer, PutKey, PutSession, PutTombstone, InOrder, ValidMembership, KeyFits, SessionFits, EncodeMembership,
         DecodeMembership, Form.InOrder;
    MembershipRoundTrip(s.membership);
    var body := EncodeMembership(s.membership).value;
    Form.EncoderFormIff(body);
    assert RecordsOf(s)[0].body == body;
  }

  /** Exactly which accepted files are the encoder's own: those whose membership image is in format 2 with
      ids and addresses ascending, and whose transfer record, if any, is the third. */
  lemma CanonicalIff(admin: (Bytes, Bytes) -> bool, bytes: Bytes, clusterId: Bytes, maxBytes: nat)
    requires Decode(admin, bytes, clusterId, maxBytes).Some?
    ensures var s := Decode(admin, bytes, clusterId, maxBytes).value;
            FileFits(s) && bytes == Encoding(s) <==> RecordsInForm(RecordsIn(bytes))
  {
    hide *;
    var s := Decode(admin, bytes, clusterId, maxBytes).value;
    if RecordsInForm(RecordsIn(bytes)) {
      InFormIsEncoded(admin, bytes, clusterId, maxBytes);
    }
    if FileFits(s) && bytes == Encoding(s) {
      EncodedIsInForm(s);
    }
  }

  /** Accepted files in form are told apart by what they stand for. */
  lemma InFormUnique(admin: (Bytes, Bytes) -> bool, x: Bytes, y: Bytes, clusterId: Bytes, maxBytes: nat)
    requires Decode(admin, x, clusterId, maxBytes).Some? && Decode(admin, y, clusterId, maxBytes) == Decode(admin, x, clusterId, maxBytes)
    requires RecordsInForm(RecordsIn(x)) && RecordsInForm(RecordsIn(y))
    ensures x == y
  {
    hide *;
    InFormIsEncoded(admin, x, clusterId, maxBytes);
    InFormIsEncoded(admin, y, clusterId, maxBytes);
  }

  // ------------------------------------------------------------------
  // A snapshot has more than one file
  // ------------------------------------------------------------------

  lemma {:induction false} FramesConcat(a: seq<Rec>, b: seq<Rec>)
    requires Frameable(a) && Frameable(b)
    ensures Frameable(a + b) && Frames(a + b) == Frames(a) + Frames(b)
    decreases |a|
  {
    hide Frame, Frames;
    if a == [] {
      NoFrames();
      assert a + b == b && [] + Frames(b) == Frames(b);
    } else {
      var r, rest := a[0], a[1..];
      FramesConcat(rest, b);
      FramesPrepend(r, rest);
      FramesPrepend(r, rest + b);
      assert a == [r] + rest && a + b == [r] + (rest + b);
      assert (Frame(r) + Frames(rest)) + Frames(b) == Frame(r) + (Frames(rest) + Frames(b));
    }
  }

  lemma TwoFrames(x: Rec, y: Rec)
    requires |x.body| <= U32_MAX && |y.body| <= U32_MAX
    ensures Frames([x, y]) == Frame(x) + Frame(y)
  {
    hide Frame;
    assert [x, y][..1] == [x] && [x][..0] == [];
    assert Frames([x]) == Frame(x);
  }

  /** The transfer record and a key record may come in either order. */
  lemma SwapFeeds(admin: (Bytes, Bytes) -> bool, h: Header, b: Build, t: Rec, k: Rec)
    requires b.phase == 2 && t.tag == 6 && k.tag == 3 && Feed(admin, h, b, [t, k]).Some?
    ensures Feed(admin, h, b, [k, t]) == Feed(admin, h, b, [t, k])
  {
    hide AddRecord, Feed;
    assert [t, k] == [t] + [k] && [k, t] == [k] + [t];
    FeedFirst(admin, h, b, t, [k]);
    var c := AddRecord(admin, h, b, t.tag, t.body).value;
    assert [k] == [k] + [] && [t] == [t] + [];
    FeedFirst(admin, h, c, k, []);
    var d := AddRecord(admin, h, c, k.tag, k.body).value;
    FeedNone(admin, h, d);
    var e := SwapAdds(admin, h, b, c, d, t.body, k.body);
    FeedFirst(admin, h, b, k, [t]);
    FeedFirst(admin, h, e, t, []);
  }

  lemma SwapAdds(admin: (Bytes, Bytes) -> bool, h: Header, b: Build, c: Build, d: Build, t: Bytes, k: Bytes) returns (e: Build)
    requires b.phase == 2 && AddRecord(admin, h, b, 6, t) == Some(c) && AddRecord(admin, h, c, 3, k) == Some(d)
    ensures AddRecord(admin, h, b, 3, k) == Some(e) && AddRecord(admin, h, e, 6, t) == Some(d)
  {
    hide GetKey, GetTransfer, LexLt, DecodeMembership, DecodePolicy, PolicyHash, EncodePolicy, GetSession, GetTombstone, AddSession, AddTombstone,
         ValidMembership, ValidPolicy, KeyAccepted, SessionAccepted, TransferAccepted, ValidKey;
    e := AddRecord(admin, h, b, 3, k).value;
  }

  lemma {:induction false} FeedPrefix(admin: (Bytes, Bytes) -> bool, h: Header, b: Build, xs: seq<Rec>, ys: seq<Rec>)
    requires Feed(admin, h, b, xs + ys).Some?
    ensures Feed(admin, h, b, xs).Some? && Feed(admin, h, b, xs + ys) == Feed(admin, h, Feed(admin, h, b, xs).value, ys)
    decreases |xs|
  {
    hide AddRecord;
    if xs == [] {
      assert xs + ys == ys;
    } else {
      assert (xs + ys)[0] == xs[0] && (xs + ys)[1..] == xs[1..] + ys;
      FeedPrefix(admin, h, AddRecord(admin, h, b, xs[0].tag, xs[0].body).value, xs[1..], ys);
    }
  }

  lemma OpeningPhase(admin: (Bytes, Bytes) -> bool, h: Header, m: Rec, p: Rec)
    requires m.tag == 1 && p.tag == 2 && Feed(admin, h, BLANK, [m, p]).Some?
    ensures Feed(admin, h, BLANK, [m, p]).value.phase == 2
  {
    hide AddRecord, Feed;
    assert [m, p] == [m] + [p] && [p] == [p] + [];
    FeedFirst(admin, h, BLANK, m, [p]);
    var b := AddRecord(admin, h, BLANK, m.tag, m.body).value;
    FeedFirst(admin, h, b, p, []);
    FeedNone(admin, h, AddRecord(admin, h, b, p.tag, p.body).value);
    PolicyPhase(admin, h, b, p);
  }

  lemma PolicyPhase(admin: (Bytes, Bytes) -> bool, h: Header, b: Build, p: Rec)
    requires p.tag == 2 && AddRecord(admin, h, b, p.tag, p.body).Some?
    ensures AddRecord(admin, h, b, p.tag, p.body).value.phase == 2
  {
    hide DecodeMembership, DecodePolicy, PolicyHash, EncodePolicy, GetKey, GetSession, GetTombstone, GetTransfer, AddKey, AddSession,
         AddTombstone;
  }

  /** Records whose third and fourth are the transfer and a key rebuild the same with the two exchanged. */
  lemma ExchangedFeeds(admin: (Bytes, Bytes) -> bool, h: Header, rs: seq<Rec>)
    requires |rs| >= 4 && rs[0].tag == 1 && rs[1].tag == 2 && rs[2].tag == 6 && rs[3].tag == 3
    requires Feed(admin, h, BLANK, rs).Some?
    ensures Feed(admin, h, BLANK, Exchanged(rs)) == Feed(admin, h, BLANK, rs)
  {
    hide Feed;
    var opening, pair, rest := [rs[0], rs[1]], [rs[2], rs[3]], rs[4..];
    assert rs == opening + (pair + rest);
    FeedPrefix(admin, h, BLANK, opening, pair + rest);
    OpeningPhase(admin, h, rs[0], rs[1]);
    var b := Feed(admin, h, BLANK, opening).value;
    FeedPrefix(admin, h, b, pair, rest);
    SwapFeeds(admin, h, b, rs[2], rs[3]);
    FeedConcat(admin, h, b, [rs[3], rs[2]], rest);
    assert Exchanged(rs) == opening + ([rs[3], rs[2]] + rest);
    FeedConcat(admin, h, BLANK, opening, [rs[3], rs[2]] + rest);
  }

  function Exchanged(rs: seq<Rec>): seq<Rec>
    requires |rs| >= 4
  {
    rs[2 := rs[3]][3 := rs[2]]
  }

  lemma ExchangedFrames(rs: seq<Rec>)
    requires |rs| >= 4 && Frameable(rs)
    ensures Frameable(Exchanged(rs)) && |Frames(Exchanged(rs))| == |Frames(rs)|
  {
    hide Frames, Frame;
    var opening, rest := rs[..2], rs[4..];
    assert rs == opening + ([rs[2], rs[3]] + rest);
    assert Exchanged(rs) == opening + ([rs[3], rs[2]] + rest);
    FramesConcat([rs[2], rs[3]], rest);
    FramesConcat(opening, [rs[2], rs[3]] + rest);
    FramesConcat([rs[3], rs[2]], rest);
    FramesConcat(opening, [rs[3], rs[2]] + rest);
    TwoFrames(rs[2], rs[3]);
    TwoFrames(rs[3], rs[2]);
  }

  /** Other records that rebuild the same make another file that decodes to the same snapshot. */
  lemma RewrittenDecodes(admin: (Bytes, Bytes) -> bool, s: Snapshot, h: Header, b: Build, rs: seq<Rec>, maxBytes: nat) returns (bytes: Bytes)
    requires Portable(admin, s) && |Encoding(s)| <= maxBytes && Encodable(s) && ValidMembership(s.membership)
    requires s.kv.storeSequence <= U64_MAX && |RecordsOf(s)| <= 0xffff_ffff_ffff_ffff && h == HeaderOf(s, |RecordsOf(s)|)
    requires Frameable(rs) && |rs| == |RecordsOf(s)| && rs != RecordsOf(s)
    requires Frameable(RecordsOf(s)) && |Frames(rs)| <= |Frames(RecordsOf(s))|
    requires Feed(admin, h, BLANK, rs) == Some(b) && Conclude(s.clusterId, h, b, |rs|) == Some(s)
    ensures Decode(admin, bytes, s.clusterId, maxBytes) == Some(s) && RecordsIn(bytes) == rs
    ensures bytes != Encoding(s) && |bytes| - |Frames(rs)| == |Encoding(s)| - |Frames(RecordsOf(s))|
  {
    hide *;
    PortableParts(admin, s);
    HeaderIsFor(s, |RecordsOf(s)|);
    HeaderRead(admin, s, h);
    CountIs(h, |rs|);
    FramesParse(admin, h, BLANK, 0, rs);
    var head, frames := HeaderBytes(s.clusterId, h), Frames(rs);
    var tail := FrontIs(s);
    var front := head + frames;
    StillFits(front);
    FooterRoundTrip(front);
    bytes := front + FooterBytes(front);
    DecodeParts(admin, s.clusterId, maxBytes, head, frames, FooterBytes(front), h, b, |rs|);
    RegionOf(head, frames, FooterBytes(front));
    SplitFrames(rs);
    RegionOf(head, Frames(RecordsOf(s)), tail);
    SplitFrames(RecordsOf(s));
  }

  lemma CountIs(h: Header, n: nat)
    requires h.recordCount == n
    ensures 0 + n <= h.recordCount
  {
  }

  lemma StillFits(front: Bytes)
    requires HEADER_LENGTH <= |front| && |front| + FOOTER_LENGTH <= 0xffff_ffff_ffff_ffff
    ensures |front| + FOOTER_LENGTH <= U64_MAX
  {
  }

  lemma FrontIs(s: Snapshot) returns (tail: Bytes)
    requires FileFits(s)
    ensures |s.clusterId| == 16 && s.kv.storeSequence <= U64_MAX && Frameable(RecordsOf(s)) && |RecordsOf(s)| <= U64_MAX
    ensures var front := HeaderBytes(s.clusterId, HeaderOf(s, |RecordsOf(s)|)) + Frames(RecordsOf(s));
            Encoding(s) == front + tail && |front| + FOOTER_LENGTH <= 0xffff_ffff_ffff_ffff
    ensures |tail| == FOOTER_LENGTH
  {
    hide HeaderBytes, HeaderOf, RecordsOf, Frames, FooterBytes, Frameable, ValidMembership;
    tail := FooterBytes(Front(s));
  }

  /** The parts of a portable snapshot's own file. */
  lemma OwnParts(admin: (Bytes, Bytes) -> bool, s: Snapshot) returns (h: Header, b: Build)
    requires Portable(admin, s)
    ensures ValidMembership(s.membership) && Encodable(s) && Frameable(RecordsOf(s)) && s.kv.storeSequence <= U64_MAX
    ensures |RecordsOf(s)| <= 0xffff_ffff_ffff_ffff && h == HeaderOf(s, |RecordsOf(s)|)
    ensures Feed(admin, h, BLANK, RecordsOf(s)) == Some(b) && Conclude(s.clusterId, h, b, |RecordsOf(s)|) == Some(s)
  {
    hide *;
    PortableParts(admin, s);
    h := HeaderOf(s, |RecordsOf(s)|);
    HeaderIsFor(s, |RecordsOf(s)|);
    b := RecordsConclude(admin, s, h);
  }

  /** One source of second files: a transfer record behind a key. */
  lemma TransferMayFollowKey(admin: (Bytes, Bytes) -> bool, s: Snapshot, maxBytes: nat) returns (bytes: Bytes)
    requires Portable(admin, s) && |Encoding(s)| <= maxBytes && s.transfer.Some? && s.kv.entries != []
    ensures bytes != Encoding(s) && |bytes| == |Encoding(s)| && Decode(admin, bytes, s.clusterId, maxBytes) == Some(s)
    ensures !TransferFirst(RecordsIn(bytes))
  {
    hide *;
    var h, b := OwnParts(admin, s);
    var rs := RecordsOf(s);
    FirstFour(s);
    ExchangedFeeds(admin, h, rs);
    ExchangedFrames(rs);
    ExchangedDiffer(rs);
    bytes := RewrittenDecodes(admin, s, h, b, Exchanged(rs), maxBytes);
  }

  lemma ExchangedDiffer(rs: seq<Rec>)
    requires |rs| >= 4 && rs[2].tag == 6 && rs[3].tag == 3
    ensures |Exchanged(rs)| == |rs| && Exchanged(rs) != rs && !TransferFirst(Exchanged(rs))
  {
    assert Exchanged(rs)[3].tag == 6;
  }

  lemma FirstFour(s: Snapshot)
    requires ValidMembership(s.membership) && Encodable(s) && s.transfer.Some? && s.kv.entries != []
    ensures var rs := RecordsOf(s);
            |rs| >= 4 && rs[0].tag == 1 && rs[1].tag == 2 && rs[2].tag == 6 && rs[3].tag == 3
  {
    hide EncodeMembership, EncodePolicy, PutTransfer, PutKey, SessionRecs, TombstoneRecs, InOrder, ValidMembership, KeyFits;
  }

  /** Another: the membership image in its older format. */
  lemma MembershipMayBeOlder(admin: (Bytes, Bytes) -> bool, s: Snapshot, maxBytes: nat) returns (bytes: Bytes)
    requires Portable(admin, s) && |Encoding(s)| <= maxBytes && s.membership.activeFeatures == 0
    ensures bytes != Encoding(s) && |bytes| == |Encoding(s)| - 8 && Decode(admin, bytes, s.clusterId, maxBytes) == Some(s)
    ensures !ImageInForm(RecordsIn(bytes))
  {
    hide *;
    var h, b := OwnParts(admin, s);
    var rs := RecordsOf(s);
    var older := Rec(1, Form.OlderImage(s.membership));
    FirstIsImage(s);
    Form.OlderImageDecodes(s.membership);
    Form.OlderIsShorter(s.membership);
    FirstReplaced(rs, older);
    SameFeed(admin, h, BLANK, rs[0], older, rs[1..]);
    bytes := RewrittenDecodes(admin, s, h, b, [older] + rs[1..], maxBytes);
    FirstDecides([older] + rs[1..]);
  }

  lemma FirstDecides(rs: seq<Rec>)
    ensures ImageInForm(rs) ==> Form.InOrder(rs[0].body)
  {
    hide Form.InOrder;
  }

  lemma FirstIsImage(s: Snapshot)
    requires ValidMembership(s.membership) && Encodable(s)
    ensures RecordsOf(s) != [] && EncodeMembership(s.membership).Some? && RecordsOf(s)[0] == Rec(1, EncodeMembership(s.membership).value)
    ensures DecodeMembership(EncodeMembership(s.membership).value) == Some(s.membership)
  {
    hide EncodeMembership, DecodeMembership, EncodePolicy, PutTransfer, KeyRecs, SessionRecs, TombstoneRecs, InOrder, ValidMembership, KeyFits;
    MembershipRoundTrip(s.membership);
  }

  lemma FirstReplaced(rs: seq<Rec>, r: Rec)
    requires rs != [] && Frameable(rs) && |r.body| + 8 == |rs[0].body|
    ensures var other := [r] + rs[1..];
            rs == [rs[0]] + rs[1..] && |other| == |rs| && other != rs && other[0] == r && Frameable(other) &&
            |Frames(other)| + 8 == |Frames(rs)|
  {
    hide Frames, Frame;
    assert rs == [rs[0]] + rs[1..];
    FramesPrepend(rs[0], rs[1..]);
    FramesPrepend(r, rs[1..]);
    assert ([r] + rs[1..])[0] != rs[0];
  }

  lemma SameFeed(admin: (Bytes, Bytes) -> bool, h: Header, b: Build, x: Rec, y: Rec, rest: seq<Rec>)
    requires x.tag == 1 && y.tag == 1 && DecodeMembership(x.body).Some? && DecodeMembership(x.body) == DecodeMembership(y.body)
    ensures Feed(admin, h, b, [x] + rest) == Feed(admin, h, b, [y] + rest)
  {
    hide AddRecord, DecodeMembership, Feed;
    SameImage(admin, h, b, x.body, y.body);
    FeedFirst(admin, h, b, x, rest);
    FeedFirst(admin, h, b, y, rest);
  }

  lemma FeedFirst(admin: (Bytes, Bytes) -> bool, h: Header, b: Build, r: Rec, rest: seq<Rec>)
    ensures Feed(admin, h, b, [r] + rest) ==
            var more := AddRecord(admin, h, b, r.tag, r.body); if more.None? then None else Feed(admin, h, more.value, rest)
  {
    hide AddRecord;
    assert ([r] + rest)[1..] == rest;
  }

  lemma SameImage(admin: (Bytes, Bytes) -> bool, h: Header, b: Build, x: Bytes, y: Bytes)
    requires DecodeMembership(x).Some? && DecodeMembership(x) == DecodeMembership(y)
    ensures AddRecord(admin, h, b, 1, x) == AddRecord(admin, h, b, 1, y)
  {
    hide DecodeMembership, DecodePolicy, EncodePolicy, PolicyHash, GetKey, GetSession, GetTombstone, GetTransfer, AddKey, AddSession, AddTombstone,
         ValidMembership, ValidPolicy, KeyAccepted, SessionAccepted, TransferAccepted, ValidKey;
  }
}
