/** What any accepted checkpoint file stands for: a snapshot that can be written again, and read back
    from what is written; and exactly which snapshots read back from their own file. */
module CcsnNormal {
  import opened Prelude
  import opened Ordering
  import opened Codec
  import opened ClusterConfig
  import opened KvSnapshot
  import opened Sessions
  import opened CcsnRecords
  import opened CcsnDecode
  import opened CcsnEncode
  import opened CcsnRoundTrip
  import KvCodec
  import ReplyCodec

  // ------------------------------------------------------------------
  // The state being rebuilt
  // ------------------------------------------------------------------

  ghost predicate EntriesSound(h: Header, b: Build) {
    (forall i | 0 <= i < |b.entries| :: KeyFits(b.entries[i]) && KeyAccepted(b.entries[i], h)) && KeysAscend(b.entries) &&
    b.priorKey == if b.entries == [] then None else Some(b.entries[|b.entries| - 1].key)
  }

  ghost predicate TableSound(admin: (Bytes, Bytes) -> bool, h: Header, b: Build) {
    (forall k | k in b.sessions.records :: SessionAdmitted(admin, h, k, b.sessions.records[k])) &&
    (forall k | k in b.sessions.tombstones ::
       TombstoneAdmitted(h, k, b.sessions.tombstones[k]) && k !in b.sessions.records) &&
    b.sessionBytes == SatAdd(Sum(b.sessions.records), 0)
  }

  /** Every part read so far is one the encoder would write. */
  ghost predicate Sound(admin: (Bytes, Bytes) -> bool, h: Header, b: Build) {
    (b.policy.Some? ==> ValidPolicy(b.policy.value)) &&
    (b.transfer.Some? ==> TransferAccepted(b.transfer.value, h.index)) &&
    EntriesSound(h, b) && TableSound(admin, h, b)
  }

  lemma GotKeyFits(body: Bytes, h: Header)
    requires GetKey(body, h).Some?
    ensures KeyFits(GetKey(body, h).value)
  {
    hide GetBytes, GetU64;
  }

  lemma GotSessionFits(admin: (Bytes, Bytes) -> bool, body: Bytes)
    requires GetSession(admin, body).Some?
    ensures SessionFits(GetSession(admin, body).value.1)
  {
    hide GetBytes, GetU64, CanonicalPayload;
  }

  lemma AddKeySound(h: Header, b: Build, e: LogicalEntry)
    requires EntriesSound(h, b) && KeyFits(e) && KeyAccepted(e, h) && AddKey(b, e).Some?
    ensures EntriesSound(h, AddKey(b, e).value)
  {
    hide KeyFits, KeyAccepted, LexLt;
  }

  lemma AddSessionSound(admin: (Bytes, Bytes) -> bool, h: Header, b: Build, k: Key, r: Record)
    requires TableSound(admin, h, b) && SessionFits(r) && SessionAccepted(admin, k, r) && AddSession(b, h, k, r).Some?
    ensures TableSound(admin, h, AddSession(b, h, k, r).value)
  {
    hide SessionFits, SessionAccepted, Sum, Size, TombstoneAdmitted;
    SumReplace(b.sessions.records, k, r);
  }

  lemma AddTombstoneSound(admin: (Bytes, Bytes) -> bool, h: Header, b: Build, k: Key, t: Tombstone)
    requires TableSound(admin, h, b) && ValidKey(k) && AddTombstone(b, h, k, t).Some?
    ensures TableSound(admin, h, AddTombstone(b, h, k, t).value)
  {
    hide SessionAdmitted, Sum;
  }

  /** Reading a record keeps it so. */
  lemma AddRecordSound(admin: (Bytes, Bytes) -> bool, h: Header, b: Build, tag: byte, body: Bytes)
    requires Sound(admin, h, b) && AddRecord(admin, h, b, tag, body).Some?
    ensures Sound(admin, h, AddRecord(admin, h, b, tag, body).value)
  {
    hide GetKey, GetSession, GetTombstone, GetTransfer, KeyAccepted, KeyFits, SessionFits, SessionAdmitted, SessionAccepted,
         TombstoneAdmitted, TransferAccepted, ValidPolicy, AddKey, AddSession, AddTombstone, Sum, KeysAscend, PolicyHash, EncodePolicy,
         DecodePolicy, DecodeMembership;
    if tag == 3 {
      GotKeyFits(body, h);
      var e := GetKey(body, h).value;
      AddKeySound(h, b, e);
      OnlyEntries(b, e);
    } else if tag == 4 {
      GotSessionFits(admin, body);
      var (k, r) := GetSession(admin, body).value;
      AddSessionSound(admin, h, b, k, r);
      OnlySessions(b, h, k, r);
    } else if tag == 5 {
      var (k, t) := GetTombstone(body).value;
      AddTombstoneSound(admin, h, b, k, t);
      OnlyTombstones(b, h, k, t);
    }
  }

  lemma OnlyEntries(b: Build, e: LogicalEntry)
    requires AddKey(b, e).Some?
    ensures var c := AddKey(b, e).value; c == b.(entries := c.entries, priorKey := c.priorKey)
  {
  }

  lemma OnlySessions(b: Build, h: Header, k: Key, r: Record)
    requires AddSession(b, h, k, r).Some?
    ensures var c := AddSession(b, h, k, r).value;
            c == b.(phase := c.phase, sessionBytes := c.sessionBytes, priorSession := c.priorSession, sessions := c.sessions)
  {
  }

  lemma OnlyTombstones(b: Build, h: Header, k: Key, t: Tombstone)
    requires AddTombstone(b, h, k, t).Some?
    ensures var c := AddTombstone(b, h, k, t).value;
            c == b.(phase := c.phase, priorTombstone := c.priorTombstone, sessions := c.sessions)
  {
  }

  lemma {:induction false} RecordsSound(admin: (Bytes, Bytes) -> bool, h: Header, b: Build, seen: nat, region: Bytes)
    requires Sound(admin, h, b) && Records(admin, h, b, seen, region).Some?
    ensures Sound(admin, h, Records(admin, h, b, seen, region).value.0)
    decreases |region|
  {
    hide Sound, AddRecord, FrameBody, BodyLength;
    if region != [] {
      var n := BodyLength(region) + 9;
      var (tag, body) := FrameBody(region[..n]).value;
      AddRecordSound(admin, h, b, tag, body);
      RecordsSound(admin, h, AddRecord(admin, h, b, tag, body).value, seen + 1, region[n..]);
    }
  }

  lemma BlankSound(admin: (Bytes, Bytes) -> bool, h: Header)
    ensures Sound(admin, h, BLANK)
  {
  }

  // ------------------------------------------------------------------
  // Cached bytes, listed or summed
  // ------------------------------------------------------------------

  lemma {:induction false} BytesAgree(ks: seq<Key>, m: map<Key, Record>, n: map<Key, Record>)
    requires forall i | 0 <= i < |ks| :: ks[i] in m && ks[i] in n && m[ks[i]] == n[ks[i]]
    ensures BytesOf(ks, m) == BytesOf(ks, n)
    decreases |ks|
  {
    if ks != [] {
      BytesAgree(ks[..|ks| - 1], m, n);
    }
  }

  lemma NoSum(m: map<Key, Record>)
    requires forall k :: k !in m
    ensures Sum(m) == 0
  {
    assert m.Keys == {};
  }

  lemma LastIsNew(ks: seq<Key>)
    requires Climbing(ks) && ks != []
    ensures forall i | 0 <= i < |ks| - 1 :: ks[i] != ks[|ks| - 1]
  {
    forall i | 0 <= i < |ks| - 1 ensures ks[i] != ks[|ks| - 1] {
      assert KeyBefore(ks[i], ks[|ks| - 1]);
    }
  }

  lemma {:induction false} BytesAreSum(ks: seq<Key>, m: map<Key, Record>)
    requires Climbing(ks) && (forall k :: k in ks <==> k in m)
    ensures (forall i | 0 <= i < |ks| :: ks[i] in m) && BytesOf(ks, m) == Sum(m)
    decreases |ks|
  {
    hide Sum, Size, KeyBefore;
    assert forall i | 0 <= i < |ks| :: ks[i] in ks;
    if ks == [] {
      NoSum(m);
    } else {
      var n := |ks| - 1;
      var last, front := ks[n], ks[..n];
      SumRemove(m, last);
      assert ks == front + [last];
      assert forall i | 0 <= i < n :: front[i] == ks[i] && ks[i] != last by { LastIsNew(ks); }
      assert forall k :: k in front <==> k in m - {last};
      BytesAreSum(front, m - {last});
      BytesAgree(front, m, m - {last});
    }
  }

  // ------------------------------------------------------------------
  // What is decoded can be written
  // ------------------------------------------------------------------

  predicate Named(clusterId: Bytes) {
    exists i | 0 <= i < |clusterId| :: clusterId[i] != 0
  }

  lemma ConcludedIsExportable(admin: (Bytes, Bytes) -> bool, clusterId: Bytes, h: Header, b: Build, seen: nat)
    requires Sound(admin, h, b) && h.index != 0 && h.term != 0 && |clusterId| == 16 && Named(clusterId)
    requires Conclude(clusterId, h, b, seen).Some?
    ensures var s := Conclude(clusterId, h, b, seen).value; Exportable(admin, s) && Encodable(s) && Recognized(s)
  {
    hide Sum, BytesOf, CanonicalPayload, ValidMembership, ValidPolicy, KeysAscend, SessionFits, KeyFits, InOrder;
    var s := Conclude(clusterId, h, b, seen).value;
    BytesAreSum(InOrder(s.sessions.records.Keys), s.sessions.records);
    SmallSum(b);
  }

  lemma SmallSum(b: Build)
    requires b.policy.Some? && ValidPolicy(b.policy.value) && b.sessionBytes == SatAdd(Sum(b.sessions.records), 0)
    requires b.sessionBytes <= b.policy.value.maxSessionBytes
    ensures Sum(b.sessions.records) <= b.policy.value.maxSessionBytes
  {
  }

  lemma HeaderSays(bs: Bytes, clusterId: Bytes)
    requires ParseHeader(bs, clusterId).Some?
    ensures var h := ParseHeader(bs, clusterId).value; h.index != 0 && h.term != 0 && |clusterId| == 16
  {
    hide Unseal, GetHeader, GetWords;
  }

  /** Any accepted file, however its records are arranged, stands for a snapshot the encoder accepts and
      the decoder recognizes. */
  lemma DecodedIsExportable(admin: (Bytes, Bytes) -> bool, bytes: Bytes, clusterId: Bytes, maxBytes: nat)
    requires Decode(admin, bytes, clusterId, maxBytes).Some? && Named(clusterId)
    ensures var s := Decode(admin, bytes, clusterId, maxBytes).value; Exportable(admin, s) && Encodable(s) && Recognized(s)
  {
    hide *;
    var h, b, seen := DecodedParts(admin, bytes, clusterId, maxBytes);
    ConcludedIsExportable(admin, clusterId, h, b, seen);
  }

  lemma DecodedParts(admin: (Bytes, Bytes) -> bool, bytes: Bytes, clusterId: Bytes, maxBytes: nat)
    returns (h: Header, b: Build, seen: nat)
    requires Decode(admin, bytes, clusterId, maxBytes).Some?
    ensures Conclude(clusterId, h, b, seen) == Decode(admin, bytes, clusterId, maxBytes)
    ensures Sound(admin, h, b) && h.index != 0 && h.term != 0 && |clusterId| == 16
  {
    hide ParseHeader, FooterAccepted, Records, Conclude, Sound;
    var end := |bytes| - FOOTER_LENGTH;
    h := ParseHeader(bytes[..HEADER_LENGTH], clusterId).value;
    HeaderSays(bytes[..HEADER_LENGTH], clusterId);
    var region := bytes[HEADER_LENGTH..end];
    b, seen := Records(admin, h, BLANK, 0, region).value.0, Records(admin, h, BLANK, 0, region).value.1;
    BlankSound(admin, h);
    RecordsSound(admin, h, BLANK, 0, region);
  }

  /** Writing a decoded snapshot again gives a file that decodes to it: reading normalizes. */
  lemma ReencodingDecodes(admin: (Bytes, Bytes) -> bool, bytes: Bytes, clusterId: Bytes, maxBytes: nat)
    requires Decode(admin, bytes, clusterId, maxBytes).Some? && Named(clusterId)
    requires var s := Decode(admin, bytes, clusterId, maxBytes).value; FileFits(s) && |Encoding(s)| <= maxBytes
    ensures var s := Decode(admin, bytes, clusterId, maxBytes).value;
            Decode(admin, Encoding(s), clusterId, maxBytes) == Some(s)
  {
    hide *;
    DecodedIsExportable(admin, bytes, clusterId, maxBytes);
    var s := Decode(admin, bytes, clusterId, maxBytes).value;
    PortableFrom(admin, s);
    SameCluster(admin, bytes, clusterId, maxBytes);
    SnapshotRoundTrip(admin, s, maxBytes);
  }

  lemma PortableFrom(admin: (Bytes, Bytes) -> bool, s: Snapshot)
    requires Exportable(admin, s) && FileFits(s) && Recognized(s)
    ensures Portable(admin, s)
  {
    hide Exportable, FileFits, Recognized;
  }

  lemma SameCluster(admin: (Bytes, Bytes) -> bool, bytes: Bytes, clusterId: Bytes, maxBytes: nat)
    requires Decode(admin, bytes, clusterId, maxBytes).Some?
    ensures Decode(admin, bytes, clusterId, maxBytes).value.clusterId == clusterId
  {
    hide ParseHeader, FooterAccepted, Records, ValidMembership;
  }

  /** Exactly which snapshots the encoder accepts are read back from their own file: those the decoder
      recognizes. */
  lemma ReadsBackIff(admin: (Bytes, Bytes) -> bool, s: Snapshot, maxBytes: nat)
    requires Exportable(admin, s) && FileFits(s) && |Encoding(s)| <= maxBytes
    ensures Decode(admin, Encoding(s), s.clusterId, maxBytes) == Some(s) <==> Recognized(s)
  {
    hide *;
    if Recognized(s) {
      PortableFrom(admin, s);
      SnapshotRoundTrip(admin, s, maxBytes);
    }
    if Decode(admin, Encoding(s), s.clusterId, maxBytes) == Some(s) {
      NamedCluster(admin, s);
      DecodedIsExportable(admin, Encoding(s), s.clusterId, maxBytes);
    }
  }

  lemma NamedCluster(admin: (Bytes, Bytes) -> bool, s: Snapshot)
    requires Exportable(admin, s)
    ensures Named(s.clusterId)
  {
    hide ValidMembership, BytesOf, InOrder, EntryExportable, SessionExportable, TombstoneExportable, TransferExportable, KeysAscend;
  }

  // ------------------------------------------------------------------
  // Such snapshots exist
  // ------------------------------------------------------------------

  function SamplePolicy(): Policy {
    Policy(1, 1, 1, 18, 7, 11, 1, 1, 1, 18, 1, 1, 1, 1, 1, 1, 1, 1)
  }

  function SampleEntry(): LogicalEntry {
    LogicalEntry([1], 1, [2], Some(5))
  }

  function SampleRecord(): Record {
    Record(1, KvCodec.EncodeCommand(KvCodec.Ping), ReplyCodec.EncodeReply(KvCodec.Ok), 0)
  }

  function SampleTransfer(): Transfer {
    Transfer(1, 1, 5, false, None)
  }

  /** One voter handing over, one key with a deadline, one user session, one tombstone of an operator's. */
  function SampleSnapshot(): Snapshot {
    Snapshot(seq(16, _ => 1), SamplePolicy(), Membership({1}, {}, None, map[], 0), Logical([SampleEntry()], 1, 1, 1, 0),
             Table(map[Key(USER_REQUEST, 1) := SampleRecord()], map[Key(ADMIN_REQUEST, 2) := Tombstone(1, 9)]), Some(SampleTransfer()))
  }

  lemma PingLength()
    ensures KvCodec.Fits(KvCodec.Ping) && |KvCodec.EncodeCommand(KvCodec.Ping)| == 7
  {
    hide PutU16, PutU32;
  }

  lemma OkLength()
    ensures ReplyCodec.ReplyFits(KvCodec.Ok) && |ReplyCodec.EncodeReply(KvCodec.Ok)| == 11
  {
    hide PutU16, PutU32, Seal;
  }

  lemma SampleLengths()
    ensures |SampleRecord().command| == 7 && |SampleRecord().reply| == 11
  {
    hide KvCodec.EncodeCommand, ReplyCodec.EncodeReply;
    PingLength();
    OkLength();
  }

  lemma SamplePayload()
    ensures UserPayload(SampleRecord().command, SampleRecord().reply)
  {
    hide KvCodec.EncodeCommand, KvCodec.DecodeCommand, ReplyCodec.EncodeReply, ReplyCodec.DecodeReply;
    KvCodec.CommandRoundTrip(KvCodec.Ping);
    ReplyCodec.ReplyRoundTrip(KvCodec.Ok);
  }

  lemma AloneInOrder(k: Key)
    ensures InOrder({k}) == [k]
  {
    hide SortedBy;
    var order := InOrder({k});
    assert order[0] in {k};
  }

  lemma SampleSessionBytes()
    ensures var s := SampleSnapshot(); BytesOf(InOrder(s.sessions.records.Keys), s.sessions.records) == 18
  {
    hide SampleRecord, InOrder;
    var s := SampleSnapshot();
    SampleLengths();
    AloneInOrder(Key(USER_REQUEST, 1));
    assert s.sessions.records.Keys == {Key(USER_REQUEST, 1)};
    assert BytesOf([Key(USER_REQUEST, 1)], s.sessions.records) == 18 by {
      assert [Key(USER_REQUEST, 1)][..0] == [];
    }
  }

  lemma SampleTable(admin: (Bytes, Bytes) -> bool)
    ensures var s := SampleSnapshot();
            (forall k | k in s.sessions.records ::
               SessionExportable(admin, k, s.sessions.records[k], s) && SessionFits(s.sessions.records[k]) && k.client != 0) &&
            (forall k | k in s.sessions.tombstones :: TombstoneExportable(k, s.sessions.tombstones[k], s) && k.client != 0) &&
            |s.sessions.records| == 1 && |s.sessions.tombstones| == 1
  {
    hide SampleRecord, UserPayload, SamplePolicy, SampleEntry, SampleTransfer;
    SampleLengths();
    SamplePayload();
    SampleScalars();
  }

  lemma SampleStore()
    ensures var s := SampleSnapshot();
            (forall i | 0 <= i < |s.kv.entries| :: EntryExportable(s.kv.entries[i], s) && KeyFits(s.kv.entries[i])) &&
            KeysAscend(s.kv.entries) && TransferExportable(s.transfer.value, s) && ValidMembership(s.membership) && ValidPolicy(s.policy)
  {
    hide SampleRecord;
  }

  lemma SampleIsExportable(admin: (Bytes, Bytes) -> bool)
    ensures Exportable(admin, SampleSnapshot()) && Encodable(SampleSnapshot()) && Recognized(SampleSnapshot())
  {
    hide SampleRecord, InOrder, BytesOf, SessionExportable, SessionFits, TombstoneExportable, EntryExportable, KeyFits, KeysAscend,
         TransferExportable, ValidMembership, ValidPolicy;
    SampleTable(admin);
    SampleStore();
    SampleSessionBytes();
    assert SampleSnapshot().clusterId[0] != 0;
  }

  lemma SampleScalars()
    ensures SampleRecord().maxSequence == 1 && SampleRecord().lastActive == 0
  {
    hide KvCodec.EncodeCommand, ReplyCodec.EncodeReply;
  }

  lemma {:induction false} FramesBounded(rs: seq<Rec>)
    requires forall i | 0 <= i < |rs| :: |rs[i].body| <= MAX_RECORD_BYTES
    ensures Frameable(rs) && |Frames(rs)| <= |rs| * (MAX_RECORD_BYTES + 9)
    decreases |rs|
  {
    hide Frame;
    if rs != [] {
      FramesBounded(rs[..|rs| - 1]);
    }
  }

  /** Every record of a snapshot that is accepted is within the record buffer. */
  lemma SampleBodies(admin: (Bytes, Bytes) -> bool)
    ensures var s := SampleSnapshot();
            ValidMembership(s.membership) && Encodable(s) && |RecordsOf(s)| == 6 &&
            forall i | 0 <= i < 6 :: |RecordsOf(s)[i].body| <= MAX_RECORD_BYTES
  {
    hide SampleRecord, PutKey, GetKey, PutSession, GetSession, PutTombstone, GetTombstone, PutTransfer, GetTransfer, EncodeMembership,
         DecodeMembership, EncodePolicy, InOrder, CanonicalPayload;
    var s := SampleSnapshot();
    SampleIsExportable(admin);
    var h := Header(0, 1, 1, 0, 1, 0);
    MembershipRoundTrip(s.membership);
    KeyRoundTrip(SampleEntry(), h);
    SampleSession(admin);
    TombstoneRoundTrip(Key(ADMIN_REQUEST, 2), Tombstone(1, 9));
    TransferRoundTrip(SampleTransfer(), 1);
    AloneInOrder(Key(USER_REQUEST, 1));
    AloneInOrder(Key(ADMIN_REQUEST, 2));
    assert s.sessions.records.Keys == {Key(USER_REQUEST, 1)} && s.sessions.tombstones.Keys == {Key(ADMIN_REQUEST, 2)};
    assert RecordsOf(s) == [Rec(1, EncodeMembership(s.membership).value), Rec(2, EncodePolicy(s.policy)), Rec(6, PutTransfer(SampleTransfer())),
                            Rec(3, PutKey(SampleEntry())), Rec(4, PutSession(Key(USER_REQUEST, 1), SampleRecord())),
                            Rec(5, PutTombstone(Key(ADMIN_REQUEST, 2), Tombstone(1, 9)))];
  }

  lemma SampleSession(admin: (Bytes, Bytes) -> bool)
    ensures SessionFits(SampleRecord()) && GetSession(admin, PutSession(Key(USER_REQUEST, 1), SampleRecord())).Some?
  {
    hide UserPayload, PutSession, GetSession, SampleRecord;
    SampleLengths();
    SamplePayload();
    SampleScalars();
    SessionRoundTrip(admin, Key(USER_REQUEST, 1), SampleRecord());
  }

  /** A checkpoint with a transfer, a key, a session and a tombstone meets the conditions of the round
      trip, and so has two files. */
  lemma SampleIsPortable(admin: (Bytes, Bytes) -> bool)
    ensures Portable(admin, SampleSnapshot()) && SampleSnapshot().transfer.Some? && SampleSnapshot().kv.entries != []
  {
    hide SampleRecord, RecordsOf, HeaderBytes, HeaderOf, Frames, Exportable, Recognized, Encodable, ValidMembership;
    var s := SampleSnapshot();
    SampleIsExportable(admin);
    SampleBodies(admin);
    FramesBounded(RecordsOf(s));
  }
}
