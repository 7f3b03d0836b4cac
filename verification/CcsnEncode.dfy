/** The file the encoder writes for a CCSN checkpoint, and how its records read back. */
module CcsnEncode {
  import opened Prelude
  import opened Ordering
  import opened Codec
  import opened ClusterConfig
  import opened KvSnapshot
  import opened Sessions
  import opened CcsnRecords
  import opened CcsnDecode
  import Crc

  // ------------------------------------------------------------------
  // What may be exported
  // ------------------------------------------------------------------

  function SessionRank(k: Key): seq<nat> {
    [k.namespace, k.client]
  }

  lemma SessionsRanked(ks: set<Key>)
    ensures Ranked(ks, SessionRank)
  {
    forall x, y | x in ks && y in ks && SessionRank(x) == SessionRank(y) ensures x == y {
      assert SessionRank(x)[0] == SessionRank(y)[0] && SessionRank(x)[1] == SessionRank(y)[1];
    }
  }

  /** Session keys in table order. */
  function InOrder(ks: set<Key>): (order: seq<Key>)
    ensures |order| == |ks| && (forall k :: k in order <==> k in ks)
    ensures forall i | 0 <= i < |order| :: order[i] in ks
    ensures forall i, j | 0 <= i < j < |order| :: KeyBefore(order[i], order[j])
  {
    SessionsRanked(ks);
    var order := SortedBy(ks, SessionRank);
    assert forall i | 0 <= i < |order| :: order[i] in order;
    assert forall i, j | 0 <= i < j < |order| :: LexLt(SessionRank(order[i]), SessionRank(order[j])) && KeyBefore(order[i], order[j]) by {
      forall i, j | 0 <= i < j < |order| ensures LexLt(SessionRank(order[i]), SessionRank(order[j])) && KeyBefore(order[i], order[j]) {
        RankBefore(order[i], order[j]);
      }
    }
    order
  }

  lemma RankBefore(a: Key, b: Key)
    requires LexLt(SessionRank(a), SessionRank(b))
    ensures KeyBefore(a, b)
  {
    var x, y := SessionRank(a), SessionRank(b);
    assert x[1..] == [a.client] && y[1..] == [b.client];
    assert a.namespace == b.namespace ==> LexLe(x[1..], y[1..]);
  }

  /** Cached bytes of the listed sessions. */
  function BytesOf(ks: seq<Key>, m: map<Key, Record>): nat
    requires forall i | 0 <= i < |ks| :: ks[i] in m
  {
    if ks == [] then 0 else BytesOf(ks[..|ks| - 1], m) + Size(m[ks[|ks| - 1]])
  }

  predicate EntryExportable(e: LogicalEntry, s: Snapshot) {
    e.key != [] && 0 < e.sequence <= s.kv.storeSequence &&
    |e.key| <= s.policy.maxKeyBytes && |e.value| <= s.policy.maxValueBytes &&
    (e.deadline.Some? ==> e.deadline.value > s.kv.lastLeaderTime)
  }

  predicate SessionExportable(admin: (Bytes, Bytes) -> bool, k: Key, r: Record, s: Snapshot) {
    k.namespace <= ADMIN_REQUEST && r.maxSequence != 0 && r.lastActive <= s.kv.lastLeaderTime &&
    CanonicalPayload(admin, k.namespace, r.command, r.reply)
  }

  predicate TombstoneExportable(k: Key, t: Tombstone, s: Snapshot) {
    k.namespace <= ADMIN_REQUEST && t.maxSequence != 0 && t.expiresAt > s.kv.lastLeaderTime && k !in s.sessions.records
  }

  predicate TransferExportable(t: Transfer, s: Snapshot) {
    0 < t.intentIndex <= s.kv.appliedIndex && t.target in s.membership.voters &&
    (t.admin.Some? ==> t.admin.value.0.namespace == ADMIN_REQUEST && t.admin.value.1 != 0)
  }

  /** The encoder's checks. */
  predicate Exportable(admin: (Bytes, Bytes) -> bool, s: Snapshot) {
    (exists i | 0 <= i < |s.clusterId| :: s.clusterId[i] != 0) &&
    ValidMembership(s.membership) && s.kv.appliedIndex != 0 && s.kv.appliedTerm != 0 &&
    (s.transfer.Some? ==> TransferExportable(s.transfer.value, s)) &&
    (forall i | 0 <= i < |s.kv.entries| :: EntryExportable(s.kv.entries[i], s)) && KeysAscend(s.kv.entries) &&
    (forall k | k in s.sessions.records :: SessionExportable(admin, k, s.sessions.records[k], s)) &&
    BytesOf(InOrder(s.sessions.records.Keys), s.sessions.records) <= s.policy.maxSessionBytes &&
    (forall k | k in s.sessions.tombstones :: TombstoneExportable(k, s.sessions.tombstones[k], s))
  }

  /** What the types of the program guarantee, and what its byte encoder insists on. */
  predicate Encodable(s: Snapshot) {
    |s.clusterId| == 16 && s.kv.storeSequence <= U64_MAX &&
    (forall i | 0 <= i < |s.kv.entries| :: KeyFits(s.kv.entries[i])) &&
    (forall k | k in s.sessions.records :: SessionFits(s.sessions.records[k]))
  }

  lemma EncodableScalars(s: Snapshot)
    requires Encodable(s)
    ensures |s.clusterId| == 16 && s.kv.storeSequence <= U64_MAX
  {
  }

  // ------------------------------------------------------------------
  // Records
  // ------------------------------------------------------------------

  datatype Rec = Rec(tag: byte, body: Bytes)

  function KeyRecs(es: seq<LogicalEntry>): (rs: seq<Rec>)
    requires forall i | 0 <= i < |es| :: KeyFits(es[i])
    ensures |rs| == |es|
  {
    seq(|es|, i requires 0 <= i < |es| => Rec(3, PutKey(es[i])))
  }

  predicate SessionsFit(ks: seq<Key>, m: map<Key, Record>) {
    forall i | 0 <= i < |ks| :: ks[i] in m && SessionFits(m[ks[i]])
  }

  function SessionRecs(ks: seq<Key>, m: map<Key, Record>): (rs: seq<Rec>)
    requires SessionsFit(ks, m)
    ensures |rs| == |ks|
  {
    seq(|ks|, i requires 0 <= i < |ks| => Rec(4, PutSession(ks[i], m[ks[i]])))
  }

  function TombstoneRecs(ks: seq<Key>, m: map<Key, Tombstone>): (rs: seq<Rec>)
    requires forall i | 0 <= i < |ks| :: ks[i] in m
    ensures |rs| == |ks|
  {
    seq(|ks|, i requires 0 <= i < |ks| => Rec(5, PutTombstone(ks[i], m[ks[i]])))
  }

  function FirstRecs(s: Snapshot): seq<Rec>
    requires ValidMembership(s.membership)
  {
    MembershipRoundTrip(s.membership);
    [Rec(1, EncodeMembership(s.membership).value), Rec(2, EncodePolicy(s.policy))] +
    (if s.transfer.Some? then [Rec(6, PutTransfer(s.transfer.value))] else [])
  }

  /** Every record of a checkpoint, in order. */
  function RecordsOf(s: Snapshot): (rs: seq<Rec>)
    requires ValidMembership(s.membership) && Encodable(s)
    ensures |rs| == |FirstRecs(s)| + |s.kv.entries| + |s.sessions.records| + |s.sessions.tombstones|
  {
    FirstRecs(s) + KeyRecs(s.kv.entries) +
    SessionRecs(InOrder(s.sessions.records.Keys), s.sessions.records) +
    TombstoneRecs(InOrder(s.sessions.tombstones.Keys), s.sessions.tombstones)
  }

  function Frame(r: Rec): (bs: Bytes)
    requires |r.body| <= U32_MAX
    ensures |bs| == |r.body| + 9
  {
    PutU32(|r.body|, PutU32(Crc.Crc32c([r.tag] + r.body), PutU8(r.tag, r.body)))
  }

  predicate Frameable(rs: seq<Rec>) {
    forall i | 0 <= i < |rs| :: |rs[i].body| <= U32_MAX
  }

  function Frames(rs: seq<Rec>): Bytes
    requires Frameable(rs)
  {
    if rs == [] then [] else Frames(rs[..|rs| - 1]) + Frame(rs[|rs| - 1])
  }

  lemma {:induction false} FramesPrepend(r: Rec, rs: seq<Rec>)
    requires |r.body| <= U32_MAX && Frameable(rs)
    ensures Frames([r] + rs) == Frame(r) + Frames(rs)
    decreases |rs|
  {
    hide Frame;
    if rs == [] {
      assert ([r] + rs)[..0] == [];
    } else {
      var n := |rs| - 1;
      FramesPrepend(r, rs[..n]);
      assert ([r] + rs)[..n + 1] == [r] + rs[..n];
    }
  }

  // ------------------------------------------------------------------
  // Header and footer
  // ------------------------------------------------------------------

  function HeaderOf(s: Snapshot, count: u64): Header
    requires s.kv.storeSequence <= U64_MAX
  {
    Header(PolicyHash(s.policy), s.kv.appliedIndex, s.kv.appliedTerm, s.kv.lastLeaderTime, s.kv.storeSequence, count)
  }

  function HeaderWords(h: Header): (ws: seq<u64>)
    ensures |ws| == 6
  {
    [h.policyHash, h.index, h.term, h.lastLeaderTime, h.storeSequence, h.recordCount]
  }

  function HeaderBytes(clusterId: Bytes, h: Header): (bs: Bytes)
    requires |clusterId| == 16
    ensures |bs| == HEADER_LENGTH
  {
    Seal(PutHeader(CCSN_MAGIC, CCSN_VERSION, PutRaw(clusterId, PutWords(HeaderWords(h), []))))
  }

  lemma HeaderRoundTrip(clusterId: Bytes, h: Header)
    requires |clusterId| == 16 && h.index != 0 && h.term != 0
    ensures ParseHeader(HeaderBytes(clusterId, h), clusterId) == Some(h)
  {
    hide Seal, Unseal, PutU32, GetU32, PutU16, GetU16, PutWords, GetWords;
    WordsRoundTrip(HeaderWords(h), []);
  }

  function BlankFooter(done: Bytes): (bs: Bytes)
    requires |done| >= HEADER_LENGTH && |done| + FOOTER_LENGTH <= U64_MAX
    ensures |bs| == FOOTER_LENGTH
  {
    PutU64(|done| + FOOTER_LENGTH, PutU32(Crc.Crc32c(done[HEADER_LENGTH..]), PutU32(0, PutU32(END_MAGIC, []))))
  }

  function FooterBytes(done: Bytes): (bs: Bytes)
    requires |done| >= HEADER_LENGTH && |done| + FOOTER_LENGTH <= U64_MAX
    ensures |bs| == FOOTER_LENGTH
  {
    PutU64(|done| + FOOTER_LENGTH, PutU32(Crc.Crc32c(done[HEADER_LENGTH..]),
      PutU32(Crc.Crc32c(done + BlankFooter(done)), PutU32(END_MAGIC, []))))
  }

  lemma PutsAreConcats(total: u64, records: u32, file: u32)
    ensures PutU64(total, PutU32(records, PutU32(file, PutU32(END_MAGIC, [])))) ==
            ToLE(total, 8) + ToLE(records, 4) + ToLE(file, 4) + ToLE(END_MAGIC, 4)
  {
    hide ToLE;
  }

  lemma FooterRoundTrip(done: Bytes)
    requires |done| >= HEADER_LENGTH && |done| + FOOTER_LENGTH <= U64_MAX
    ensures FooterAccepted(done, FooterBytes(done))
  {
    hide Crc.Crc32c, ToLE, PutU32, GetU32, PutU64, GetU64;
    var footer := FooterBytes(done);
    var crc := Crc.Crc32c(done + BlankFooter(done));
    PutsAreConcats(|done| + FOOTER_LENGTH, Crc.Crc32c(done[HEADER_LENGTH..]), crc);
    PutsAreConcats(|done| + FOOTER_LENGTH, Crc.Crc32c(done[HEADER_LENGTH..]), 0);
    ZeroLE();
    assert footer[..12] + ZERO4 + footer[16..] == BlankFooter(done);
    assert Blanked(done, footer) == done + (footer[..12] + ZERO4 + footer[16..]);
  }

  lemma ZeroLE()
    ensures ToLE(0, 4) == ZERO4
  {
    assert ToLE(0, 3) == [0, 0, 0];
  }

  /** Header and records, as they stand before the footer. */
  function Front(s: Snapshot): (bs: Bytes)
    requires ValidMembership(s.membership) && Encodable(s) && Frameable(RecordsOf(s)) && |RecordsOf(s)| <= U64_MAX
    ensures |bs| >= HEADER_LENGTH
  {
    HeaderBytes(s.clusterId, HeaderOf(s, |RecordsOf(s)|)) + Frames(RecordsOf(s))
  }

  /** The whole file fits the codec's and the machine's limits. */
  predicate FileFits(s: Snapshot) {
    ValidMembership(s.membership) && Encodable(s) && Frameable(RecordsOf(s)) && |RecordsOf(s)| <= U64_MAX &&
    |Front(s)| + FOOTER_LENGTH <= U64_MAX
  }

  /** The file the encoder writes for a snapshot. */
  function Encoding(s: Snapshot): Bytes
    requires FileFits(s)
  {
    Front(s) + FooterBytes(Front(s))
  }

  // ------------------------------------------------------------------
  // Decoding the records
  // ------------------------------------------------------------------

  function Feed(admin: (Bytes, Bytes) -> bool, h: Header, b: Build, rs: seq<Rec>): Option<Build>
    decreases |rs|
  {
    if rs == [] then Some(b)
    else
      var more :- AddRecord(admin, h, b, rs[0].tag, rs[0].body);
      Feed(admin, h, more, rs[1..])
  }

  lemma {:induction false} FeedConcat(admin: (Bytes, Bytes) -> bool, h: Header, b: Build, xs: seq<Rec>, ys: seq<Rec>)
    requires Feed(admin, h, b, xs).Some?
    ensures Feed(admin, h, b, xs + ys) == Feed(admin, h, Feed(admin, h, b, xs).value, ys)
    decreases |xs|
  {
    hide AddRecord;
    if xs == [] {
      assert xs + ys == ys;
    } else {
      FeedConcat(admin, h, AddRecord(admin, h, b, xs[0].tag, xs[0].body).value, xs[1..], ys);
      assert (xs + ys)[1..] == xs[1..] + ys;
    }
  }

  /** A frame reads back as its record. */
  lemma FrameReads(r: Rec, more: Bytes)
    requires |r.body| <= U32_MAX
    ensures BodyLength(Frame(r) + more) == |r.body|
    ensures FrameBody(Frame(r)) == Some((r.tag, r.body))
  {
    hide Crc.Crc32c, PutU32, GetU32;
    var bs := Frame(r);
    U32OfPrefix(bs, more);
    var inner := PutU32(Crc.Crc32c([r.tag] + r.body), PutU8(r.tag, r.body));
    assert bs[4..] == inner by { DropU32(|r.body|, inner); }
    assert bs[8..] == [r.tag] + r.body by {
      DropU32(Crc.Crc32c([r.tag] + r.body), PutU8(r.tag, r.body));
      assert bs[8..] == bs[4..][4..];
    }
    assert bs[8] == bs[8..][0] && bs[9..] == bs[8..][1..];
  }

  lemma DropU32(v: u32, rest: Bytes)
    ensures PutU32(v, rest)[4..] == rest
  {
  }

  lemma {:induction false} FramesParse(admin: (Bytes, Bytes) -> bool, h: Header, b: Build, seen: nat, rs: seq<Rec>)
    requires Frameable(rs) && seen + |rs| <= h.recordCount && Feed(admin, h, b, rs).Some?
    ensures Records(admin, h, b, seen, Frames(rs)) == Some((Feed(admin, h, b, rs).value, seen + |rs|))
    decreases |rs|
  {
    hide AddRecord, Frame, FrameBody, BodyLength;
    if rs != [] {
      var r, rest := rs[0], rs[1..];
      assert rs == [r] + rest;
      FramesPrepend(r, rest);
      FrameReads(r, Frames(rest));
      var bs, n := Frames(rs), |Frame(r)|;
      assert bs[..n] == Frame(r) && bs[n..] == Frames(rest);
      FramesParse(admin, h, AddRecord(admin, h, b, r.tag, r.body).value, seen + 1, rest);
    }
  }
}
