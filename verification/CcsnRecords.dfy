/** The records of a CCSN checkpoint: their bodies, and what reading one adds to the state being
    rebuilt. */
module CcsnRecords {
  import opened Prelude
  import opened Ordering
  import opened Codec
  import opened ClusterConfig
  import opened KvSnapshot
  import opened Sessions
  import KvCodec
  import ReplyCodec
  import Crc

  datatype Transfer = Transfer(intentIndex: u64, target: u64, deadline: u64, finishing: bool, admin: Option<(Key, u64)>)

  datatype Snapshot = Snapshot(
    clusterId: Bytes, policy: Policy, membership: Membership, kv: Logical, sessions: Table, transfer: Option<Transfer>)

  datatype Header = Header(
    policyHash: u64, index: u64, term: u64, lastLeaderTime: u64, storeSequence: u64, recordCount: u64)

  const MAX_RECORD_BYTES: nat := 16 * 1024 * 1024
  const USER_REQUEST: byte := 0
  const ADMIN_REQUEST: byte := 1

  // ------------------------------------------------------------------
  // The policy hash
  // ------------------------------------------------------------------

  lemma Pow64()
    ensures Crc.Pow2(64) == 0x1_0000_0000_0000_0000
  {
    assert Crc.Pow2(8) == 256;
    assert Crc.Pow2(16) == 0x1_0000;
    assert Crc.Pow2(24) == 0x100_0000;
    assert Crc.Pow2(32) == 0x1_0000_0000;
    assert Crc.Pow2(40) == 0x100_0000_0000;
    assert Crc.Pow2(48) == 0x1_0000_0000_0000;
    assert Crc.Pow2(56) == 0x100_0000_0000_0000;
  }

  /** FNV-1a over 64 bits. */
  function Fnv1a(hash: u64, bs: Bytes): u64
    decreases |bs|
  {
    if bs == [] then hash
    else
      Pow64();
      var mixed: nat := Crc.Xor(hash, bs[0], 64);
      Fnv1a(mixed * 0x1000_0000_01b3 % 0x1_0000_0000_0000_0000, bs[1..])
  }

  function PolicyHash(p: Policy): u64 {
    Fnv1a(0xcbf2_9ce4_8422_2325, EncodePolicy(p))
  }

  // ------------------------------------------------------------------
  // Bodies
  // ------------------------------------------------------------------

  predicate KeyFits(e: LogicalEntry) {
    |e.key| <= MAX_CODEC_BYTES && |e.value| <= MAX_CODEC_BYTES && e.sequence <= U64_MAX
  }

  function PutKey(e: LogicalEntry): Bytes
    requires KeyFits(e)
  {
    PutBytes(e.key, PutU64(e.sequence, PutBytes(e.value,
      PutU8(if e.deadline.Some? then 1 else 0, PutU64(if e.deadline.Some? then e.deadline.value else 0, [])))))
  }

  /** What a key record must say beside being well formed. */
  predicate KeyAccepted(e: LogicalEntry, h: Header) {
    e.key != [] && 0 < e.sequence <= h.storeSequence && (e.deadline.Some? ==> e.deadline.value > h.lastLeaderTime)
  }

  function GetKey(body: Bytes, h: Header): (r: Option<LogicalEntry>)
    ensures r.Some? ==> KeyAccepted(r.value, h) && |body| <= MAX_RECORD_BYTES
  {
    var (key, r0) :- GetBytes(body);
    var (sequence, r1) :- GetU64(r0);
    var (value, r2) :- GetBytes(r1);
    var (flag, r3) :- GetU8(r2);
    var (raw, rest) :- GetU64(r3);
    if rest != [] then None
    else if !((flag == 0 && raw == 0) || (flag == 1 && raw > h.lastLeaderTime)) then None
    else if key == [] || sequence == 0 || sequence > h.storeSequence then None
    else Some(LogicalEntry(key, sequence, value, if flag == 1 then Some(raw) else None))
  }

  lemma KeyRoundTrip(e: LogicalEntry, h: Header)
    requires KeyFits(e) && KeyAccepted(e, h)
    ensures GetKey(PutKey(e), h) == Some(e)
  {
    hide PutBytes, GetBytes, PutU64, GetU64;
  }

  predicate SessionFits(r: Record) {
    |r.command| <= MAX_CODEC_BYTES && |r.reply| <= MAX_CODEC_BYTES
  }

  function PutSession(key: Key, r: Record): Bytes
    requires SessionFits(r)
  {
    PutU8(key.namespace, PutU64(key.client, PutU64(r.maxSequence, PutU64(r.lastActive,
      PutBytes(r.command, PutBytes(r.reply, []))))))
  }

  /** A user session caches a command and a reply in their one encoding. */
  predicate UserPayload(command: Bytes, reply: Bytes) {
    var c, r := KvCodec.DecodeCommand(command), ReplyCodec.DecodeReply(reply);
    c.Some? && KvCodec.Fits(c.value) && KvCodec.EncodeCommand(c.value) == command &&
    r.Some? && ReplyCodec.ReplyFits(r.value) && ReplyCodec.EncodeReply(r.value) == reply
  }

  /** `admin` says which administrative commands and replies are in their one encoding. */
  predicate CanonicalPayload(admin: (Bytes, Bytes) -> bool, namespace: byte, command: Bytes, reply: Bytes) {
    if namespace == USER_REQUEST then UserPayload(command, reply)
    else namespace == ADMIN_REQUEST && admin(command, reply)
  }

  predicate ValidKey(key: Key) {
    key.namespace <= ADMIN_REQUEST && key.client != 0
  }

  predicate SessionAccepted(admin: (Bytes, Bytes) -> bool, key: Key, r: Record) {
    ValidKey(key) && r.maxSequence != 0 && CanonicalPayload(admin, key.namespace, r.command, r.reply)
  }

  function GetSession(admin: (Bytes, Bytes) -> bool, body: Bytes): (r: Option<(Key, Record)>)
    ensures r.Some? ==> SessionAccepted(admin, r.value.0, r.value.1) && |body| <= MAX_RECORD_BYTES
  {
    var (namespace, r0) :- GetU8(body);
    var (client, r1) :- GetU64(r0);
    if !ValidKey(Key(namespace, client)) then None
    else
      var (sequence, r2) :- GetU64(r1);
      var (lastActive, r3) :- GetU64(r2);
      var (command, r4) :- GetBytes(r3);
      var (reply, rest) :- GetBytes(r4);
      if rest != [] || sequence == 0 || !CanonicalPayload(admin, namespace, command, reply) then None
      else Some((Key(namespace, client), Record(sequence, command, reply, lastActive)))
  }

  lemma SessionRoundTrip(admin: (Bytes, Bytes) -> bool, key: Key, r: Record)
    requires SessionFits(r) && SessionAccepted(admin, key, r)
    ensures GetSession(admin, PutSession(key, r)) == Some((key, r))
  {
    hide PutBytes, GetBytes, PutU64, GetU64, CanonicalPayload;
  }

  function PutTombstone(key: Key, t: Tombstone): Bytes {
    PutU8(key.namespace, PutU64(key.client, PutU64(t.maxSequence, PutU64(t.expiresAt, []))))
  }

  function GetTombstone(body: Bytes): (r: Option<(Key, Tombstone)>)
    ensures r.Some? ==> ValidKey(r.value.0) && |body| <= MAX_RECORD_BYTES
  {
    var (namespace, r0) :- GetU8(body);
    var (client, r1) :- GetU64(r0);
    if !ValidKey(Key(namespace, client)) then None
    else
      var (sequence, r2) :- GetU64(r1);
      var (expiresAt, rest) :- GetU64(r2);
      if rest != [] then None else Some((Key(namespace, client), Tombstone(sequence, expiresAt)))
  }

  lemma TombstoneRoundTrip(key: Key, t: Tombstone)
    requires ValidKey(key)
    ensures GetTombstone(PutTombstone(key, t)) == Some((key, t))
  {
    hide PutU64, GetU64;
  }

  function PutTransfer(t: Transfer): Bytes {
    PutU64(t.intentIndex, PutU64(t.target, PutU64(t.deadline, PutU8(if t.finishing then 1 else 0, PutAdmin(t.admin)))))
  }

  function PutAdmin(a: Option<(Key, u64)>): Bytes {
    if a.None? then PutU8(0, PutU8(0, PutU64(0, PutU64(0, []))))
    else PutU8(1, PutU8(a.value.0.namespace, PutU64(a.value.0.client, PutU64(a.value.1, []))))
  }

  function GetAdmin(bs: Bytes): (r: Option<Option<(Key, u64)>>)
    ensures r.Some? ==> |bs| <= 18
  {
    var (flag, r0) :- GetU8(bs);
    var (namespace, r1) :- GetU8(r0);
    var (client, r2) :- GetU64(r1);
    var (sequence, rest) :- GetU64(r2);
    if rest != [] then None
    else if flag == 0 && namespace == 0 && client == 0 && sequence == 0 then Some(None)
    else if flag == 1 && namespace == ADMIN_REQUEST && sequence != 0 && client != 0 then Some(Some((Key(namespace, client), sequence)))
    else None
  }

  predicate AdminAccepted(a: Option<(Key, u64)>) {
    a.Some? ==> a.value.0.namespace == ADMIN_REQUEST && a.value.0.client != 0 && a.value.1 != 0
  }

  predicate TransferAccepted(t: Transfer, index: u64) {
    0 < t.intentIndex <= index && t.target != 0 && AdminAccepted(t.admin)
  }

  function GetTransfer(body: Bytes, index: u64): (r: Option<Transfer>)
    ensures r.Some? ==> TransferAccepted(r.value, index) && |body| <= MAX_RECORD_BYTES
  {
    var (intent, r0) :- GetU64(body);
    var (target, r1) :- GetU64(r0);
    var (deadline, r2) :- GetU64(r1);
    var (finishing, r3) :- GetU8(r2);
    if finishing > 1 then None
    else
      var admin :- GetAdmin(r3);
      if intent == 0 || intent > index || target == 0 then None
      else Some(Transfer(intent, target, deadline, finishing == 1, admin))
  }

  lemma TransferRoundTrip(t: Transfer, index: u64)
    requires TransferAccepted(t, index)
    ensures GetTransfer(PutTransfer(t), index) == Some(t)
  {
    hide PutU64, GetU64;
  }

  // ------------------------------------------------------------------
  // Rebuilding state record by record
  // ------------------------------------------------------------------

  predicate KeyBefore(a: Key, b: Key) {
    a.namespace < b.namespace || (a.namespace == b.namespace && a.client < b.client)
  }

  datatype Build = Build(
    membership: Option<Membership>, policy: Option<Policy>, transfer: Option<Transfer>,
    entries: seq<LogicalEntry>, sessions: Table, sessionBytes: u64,
    phase: nat, priorKey: Option<Bytes>, priorSession: Option<Key>, priorTombstone: Option<Key>)

  const BLANK := Build(None, None, None, [], EMPTY, 0, 0, None, None, None)

  function AddKey(b: Build, e: LogicalEntry): Option<Build> {
    if b.priorKey.Some? && !LexLt(b.priorKey.value, e.key) then None
    else Some(b.(entries := b.entries + [e], priorKey := Some(e.key)))
  }

  function AddSession(b: Build, h: Header, key: Key, r: Record): Option<Build> {
    if (b.priorSession.Some? && !KeyBefore(b.priorSession.value, key)) ||
       key in b.sessions.records || key in b.sessions.tombstones || r.lastActive > h.lastLeaderTime
    then None
    else Some(b.(phase := 3, sessionBytes := SatAdd(b.sessionBytes, Size(r)), priorSession := Some(key),
                 sessions := b.sessions.(records := b.sessions.records[key := r])))
  }

  function AddTombstone(b: Build, h: Header, key: Key, t: Tombstone): Option<Build> {
    if t.maxSequence == 0 || t.expiresAt <= h.lastLeaderTime ||
       (b.priorTombstone.Some? && !KeyBefore(b.priorTombstone.value, key)) ||
       key in b.sessions.records || key in b.sessions.tombstones
    then None
    else Some(b.(phase := 4, priorTombstone := Some(key),
                 sessions := b.sessions.(tombstones := b.sessions.tombstones[key := t])))
  }

  /** One record, in its place in the order membership, policy, transfer and keys, sessions, tombstones. */
  function AddRecord(admin: (Bytes, Bytes) -> bool, h: Header, b: Build, tag: byte, body: Bytes): (r: Option<Build>)
    ensures r.Some? ==> |body| <= MAX_RECORD_BYTES
  {
    if tag == 1 && b.phase == 0 && b.membership.None? then
      var m :- DecodeMembership(body);
      Some(b.(membership := Some(m), phase := 1))
    else if tag == 2 && b.phase == 1 && b.policy.None? then
      var p :- DecodePolicy(body);
      if PolicyHash(p) != h.policyHash || EncodePolicy(p) != body then None
      else Some(b.(policy := Some(p), phase := 2))
    else if tag == 6 && b.phase == 2 && b.transfer.None? then
      var t :- GetTransfer(body, h.index);
      Some(b.(transfer := Some(t)))
    else if tag == 3 && b.phase == 2 then
      var e :- GetKey(body, h);
      AddKey(b, e)
    else if tag == 4 && (b.phase == 2 || b.phase == 3) then
      var (key, r) :- GetSession(admin, body);
      AddSession(b, h, key, r)
    else if tag == 5 && 2 <= b.phase <= 4 then
      var (key, t) :- GetTombstone(body);
      AddTombstone(b, h, key, t)
    else None
  }

  /** The checks made once every record has been read. */
  function Conclude(clusterId: Bytes, h: Header, b: Build, seen: nat): Option<Snapshot> {
    if b.membership.None? || b.policy.None? then None
    else
      var m, p := b.membership.value, b.policy.value;
      if seen != h.recordCount || !ValidMembership(m) then None
      else if b.transfer.Some? && b.transfer.value.target !in m.voters then None
      else if exists i | 0 <= i < |b.entries| :: |b.entries[i].key| > p.maxKeyBytes || |b.entries[i].value| > p.maxValueBytes then None
      else if |b.sessions.records| > p.maxSessions || |b.sessions.tombstones| > p.maxSessionTombstones ||
              b.sessionBytes > p.maxSessionBytes then None
      else
        Some(Snapshot(clusterId, p, m, Logical(b.entries, h.storeSequence, h.index, h.term, h.lastLeaderTime), b.sessions, b.transfer))
  }
}
