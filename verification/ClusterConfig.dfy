/** The replicated limits and the membership image, with their canonical records. */
module ClusterConfig {
  import opened Prelude
  import opened Ordering
  import opened Codec

  // ------------------------------------------------------------------
  // Cluster policy
  // ------------------------------------------------------------------

  datatype Policy = Policy(
    maxMembers: u32,
    maxKeyBytes: u64,
    maxValueBytes: u64,
    maxLiveLogicalBytes: u64,
    maxCommandBytes: u64,
    maxReplyBytes: u64,
    maxScanItems: u32,
    maxLiveDeadlines: u64,
    maxSessions: u64,
    maxSessionBytes: u64,
    maxSessionTombstones: u64,
    sessionIdle: u64,
    sessionRetryGrace: u64,
    leaderTransferTimeout: u64,
    maxKeysPerExpirySweep: u32,
    maxBatchCommands: u32,
    maxBatchBytes: u64,
    maxBatchReplyBytes: u64)

  const POLICY_MAGIC: u32 := 0x4c50_4343
  const POLICY_VERSION: u16 := 1
  const POLICY_LENGTH: nat := 138
  const MAX_MEMBERS: nat := 4096
  const MAX_DURATION: nat := 365 * 24 * 60 * 60 * 1_000_000_000

  predicate ValidPolicy(p: Policy) {
    0 < p.maxMembers <= 4096 &&
    0 < p.maxKeyBytes <= p.maxCommandBytes &&
    0 < p.maxValueBytes <= p.maxCommandBytes &&
    0 < p.maxCommandBytes <= MAX_CODEC_BYTES &&
    0 < p.maxReplyBytes <= MAX_CODEC_BYTES &&
    0 < p.maxBatchBytes <= p.maxCommandBytes &&
    0 < p.maxBatchReplyBytes <= p.maxReplyBytes &&
    0 < p.maxSessionBytes <= p.maxLiveLogicalBytes &&
    p.maxLiveLogicalBytes <= 0x100_0000_0000 &&
    p.maxSessionBytes <= 0x4000_0000 &&
    0 < p.maxScanItems <= 1_000_000 &&
    0 < p.maxLiveDeadlines <= 10_000_000 &&
    0 < p.maxSessions <= 1_000_000 &&
    0 < p.maxSessionTombstones <= 1_000_000 &&
    0 < p.sessionIdle <= MAX_DURATION &&
    0 < p.sessionRetryGrace <= MAX_DURATION &&
    0 < p.leaderTransferTimeout <= MAX_DURATION &&
    0 < p.maxKeysPerExpirySweep <= 1_000_000 &&
    0 < p.maxBatchCommands <= 65_536
  }

  function PutPolicy(p: Policy): (bs: Bytes)
    ensures |bs| == POLICY_LENGTH - 4
  {
    PutHeader(POLICY_MAGIC, POLICY_VERSION, PutU32(p.maxMembers, PutWords(PolicyLimits(p),
      PutU32(p.maxScanItems, PutWords(PolicySessions(p),
        PutU32(p.maxKeysPerExpirySweep, PutU32(p.maxBatchCommands, PutWords(PolicyBatch(p), []))))))))
  }

  function PolicyLimits(p: Policy): seq<u64> {
    [p.maxKeyBytes, p.maxValueBytes, p.maxLiveLogicalBytes, p.maxCommandBytes, p.maxReplyBytes]
  }

  function PolicySessions(p: Policy): seq<u64> {
    [p.maxLiveDeadlines, p.maxSessions, p.maxSessionBytes, p.maxSessionTombstones,
     p.sessionIdle, p.sessionRetryGrace, p.leaderTransferTimeout]
  }

  function PolicyBatch(p: Policy): seq<u64> {
    [p.maxBatchBytes, p.maxBatchReplyBytes]
  }

  function EncodePolicy(p: Policy): (bs: Bytes)
    ensures |bs| == POLICY_LENGTH
  {
    Seal(PutPolicy(p))
  }

  function GetPolicy(bs: Bytes): Option<Policy> {
    var r0 :- GetHeader(bs, POLICY_MAGIC, POLICY_VERSION);
    var (maxMembers, r1) :- GetU32(r0);
    var (limits, r2) :- GetWords(r1, 5);
    var (maxScanItems, r3) :- GetU32(r2);
    var (sessions, r4) :- GetWords(r3, 7);
    var (maxKeysPerExpirySweep, r5) :- GetU32(r4);
    var (maxBatchCommands, r6) :- GetU32(r5);
    var (batch, r7) :- GetWords(r6, 2);
    if r7 != [] then None
    else Some(Policy(maxMembers, limits[0], limits[1], limits[2], limits[3], limits[4], maxScanItems,
                     sessions[0], sessions[1], sessions[2], sessions[3], sessions[4], sessions[5], sessions[6],
                     maxKeysPerExpirySweep, maxBatchCommands, batch[0], batch[1]))
  }

  function DecodePolicy(bs: Bytes): (r: Option<Policy>)
    ensures r.Some? ==> ValidPolicy(r.value) && |bs| == POLICY_LENGTH
  {
    if |bs| != POLICY_LENGTH then None
    else
      var body :- Unseal(bs);
      var p :- GetPolicy(body);
      if ValidPolicy(p) then Some(p) else None
  }

  lemma PolicyRoundTrip(p: Policy)
    requires ValidPolicy(p)
    ensures DecodePolicy(EncodePolicy(p)) == Some(p)
  {
    hide ToLE, FromLE, Chop, PutRaw, Seal, Unseal, PutU32, PutU64, GetU32, GetU64, ValidPolicy;
    PolicyFields(p);
  }

  lemma PolicyFields(p: Policy)
    ensures GetPolicy(PutPolicy(p)) == Some(p)
  {
    hide ToLE, FromLE, Chop, PutRaw, PutU16, GetU16, PutU32, PutU64, GetU32, GetU64, PutWords, GetWords;
    var r6 := PutWords(PolicyBatch(p), []);
    var r3 := PutWords(PolicySessions(p), PutU32(p.maxKeysPerExpirySweep, PutU32(p.maxBatchCommands, r6)));
    WordsRoundTrip(PolicyBatch(p), []);
    WordsRoundTrip(PolicySessions(p), PutU32(p.maxKeysPerExpirySweep, PutU32(p.maxBatchCommands, r6)));
    WordsRoundTrip(PolicyLimits(p), PutU32(p.maxScanItems, r3));
  }

  // ------------------------------------------------------------------
  // Peer addresses
  // ------------------------------------------------------------------

  datatype Address = V4(ip: Bytes, port: u16) | V6(ip: Bytes, port: u16)

  predicate AddressShape(a: Address) {
    |a.ip| == if a.V4? then 4 else 16
  }

  predicate ValidAddress(a: Address)
    requires AddressShape(a)
  {
    a.port != 0 &&
    (exists i | 0 <= i < |a.ip| :: a.ip[i] != 0) &&
    (if a.V4? then !(224 <= a.ip[0] <= 239)
     else a.ip[0] != 255 && !((forall i | 0 <= i < 10 :: a.ip[i] == 0) && a.ip[10] == 255 && a.ip[11] == 255))
  }

  predicate Wellformed(a: Address) {
    AddressShape(a) && ValidAddress(a)
  }

  function PutAddress(a: Address, rest: Bytes): (bs: Bytes)
    requires Wellformed(a)
    ensures GetAddress(bs) == Some((a, rest))
    ensures |rest| < |bs|
  {
    if a.V4? then PutU8(1, PutRaw(a.ip, PutU16(a.port, rest)))
    else PutU8(2, PutRaw(a.ip, PutU16(a.port, rest)))
  }

  function GetAddress(bs: Bytes): (r: Taken<Address>)
    ensures r.Some? ==> Wellformed(r.value.0) && |r.value.1| < |bs| <= |r.value.1| + 19
  {
    var (tag, r0) :- GetU8(bs);
    if tag != 1 && tag != 2 then None
    else
      var (ip, r1) :- Chop(r0, if tag == 1 then 4 else 16);
      var (port, r2) :- GetU16(r1);
      var a := if tag == 1 then V4(ip, port) else V6(ip, port);
      if ValidAddress(a) then Some((a, r2)) else None
  }

  // ------------------------------------------------------------------
  // Membership
  // ------------------------------------------------------------------

  datatype Joint = Joint(oldVoters: set<u64>, newVoters: set<u64>, enterIndex: u64)

  datatype Membership = Membership(
    voters: set<u64>,
    learners: set<u64>,
    joint: Option<Joint>,
    addresses: map<u64, Address>,
    activeFeatures: u64)

  const MEMBERSHIP_MAGIC: u32 := 0x534d_4343
  const ATOMIC_BATCH_FEATURE: u64 := 2

  predicate ValidMembership(m: Membership) {
    m.voters != {} && 0 !in m.voters && 0 !in m.learners && m.voters !! m.learners &&
    |m.voters| + |m.learners| <= MAX_MEMBERS &&
    (m.activeFeatures == 0 || m.activeFeatures == ATOMIC_BATCH_FEATURE) &&
    (forall id | id in m.addresses ::
       id in m.voters + m.learners && Wellformed(m.addresses[id])) &&
    (m.joint.Some? ==>
       var j := m.joint.value;
       j.oldVoters != {} && j.newVoters != {} && j.enterIndex != 0 &&
       j.oldVoters <= m.voters && j.newVoters <= m.voters)
  }

  function IdRank(id: u64): seq<nat> {
    [id]
  }

  function Sorted(ids: set<u64>): (s: seq<u64>)
    ensures |s| == |ids| && forall id :: id in s <==> id in ids
    ensures forall i, j | 0 <= i < j < |s| :: s[i] < s[j]
  {
    var s := SortedBy(ids, IdRank);
    assert forall i, j | 0 <= i < j < |s| :: LexLt(IdRank(s[i]), IdRank(s[j]));
    s
  }

  function Elements(ids: seq<u64>): (r: set<u64>)
    ensures forall id :: id in r <==> id in ids
  {
    set id | id in ids
  }

  function PutIdSet(ids: set<u64>, rest: Bytes): (bs: Bytes)
    requires |ids| <= MAX_MEMBERS
  {
    PutU32(|ids|, PutWords(Sorted(ids), rest))
  }

  /** A count, then that many nonzero ids without repetition. */
  function GetIdSet(bs: Bytes, allowEmpty: bool): (r: Taken<set<u64>>)
    ensures r.Some? ==> |bs| <= |r.value.1| + 4 + 8 * MAX_MEMBERS
  {
    var (n, r0) :- GetU32(bs);
    if (n == 0 && !allowEmpty) || n > MAX_MEMBERS then None
    else
      var (ids, rest) :- GetWords(r0, n);
      if 0 in ids || exists i, j | 0 <= i < j < |ids| :: ids[i] == ids[j] then None
      else Some((Elements(ids), rest))
  }

  lemma IdSetRoundTrip(ids: set<u64>, rest: Bytes, allowEmpty: bool)
    requires |ids| <= MAX_MEMBERS && 0 !in ids && (allowEmpty || ids != {})
    ensures GetIdSet(PutIdSet(ids, rest), allowEmpty) == Some((ids, rest))
  {
    hide PutU32, GetU32, PutWords, GetWords;
    var s := Sorted(ids);
    WordsRoundTrip(s, rest);
    assert Elements(s) == ids;
  }

  predicate AllWellformed(pairs: seq<(u64, Address)>) {
    forall i | 0 <= i < |pairs| :: Wellformed(pairs[i].1)
  }

  function PutPairs(pairs: seq<(u64, Address)>, rest: Bytes): (bs: Bytes)
    requires AllWellformed(pairs)
  {
    if pairs == [] then rest
    else
      assert Wellformed(pairs[0].1);
      PutU64(pairs[0].0, PutAddress(pairs[0].1, PutPairs(pairs[1..], rest)))
  }

  function GetPairs(bs: Bytes, n: nat): (r: Taken<seq<(u64, Address)>>)
    ensures r.Some? ==> |r.value.0| == n && |bs| <= |r.value.1| + 27 * n
    decreases n
  {
    if n == 0 then Some(([], bs))
    else
      var (id, r0) :- GetU64(bs);
      var (a, r1) :- GetAddress(r0);
      var (pairs, rest) :- GetPairs(r1, n - 1);
      Some(([(id, a)] + pairs, rest))
  }

  lemma {:induction false} PairsRoundTrip(pairs: seq<(u64, Address)>, rest: Bytes)
    requires AllWellformed(pairs)
    ensures GetPairs(PutPairs(pairs, rest), |pairs|) == Some((pairs, rest))
    decreases |pairs|
  {
    hide PutU64, GetU64, PutAddress, GetAddress, Wellformed;
    if pairs != [] {
      PairsRoundTrip(pairs[1..], rest);
      assert [pairs[0]] + pairs[1..] == pairs;
    }
  }

  function PairsOf(ids: seq<u64>, table: map<u64, Address>): (pairs: seq<(u64, Address)>)
    requires forall i | 0 <= i < |ids| :: ids[i] in table
    ensures |pairs| == |ids| && forall i | 0 <= i < |ids| :: pairs[i] == (ids[i], table[ids[i]])
  {
    seq(|ids|, i requires 0 <= i < |ids| => (ids[i], table[ids[i]]))
  }

  predicate Repeats(pairs: seq<(u64, Address)>) {
    exists i, j | 0 <= i < j < |pairs| :: pairs[i].0 == pairs[j].0
  }

  /** The table a list of bindings with distinct ids denotes. */
  function TableOf(pairs: seq<(u64, Address)>): (table: map<u64, Address>)
    requires !Repeats(pairs)
    ensures forall id :: id in table <==> exists i :: 0 <= i < |pairs| && pairs[i].0 == id
    ensures forall i | 0 <= i < |pairs| :: table[pairs[i].0] == pairs[i].1
  {
    map i | 0 <= i < |pairs| :: pairs[i].0 := pairs[i].1
  }

  /** A count, then that many bindings of distinct nonzero ids. */
  function GetTable(bs: Bytes): (r: Taken<map<u64, Address>>)
    ensures r.Some? ==> |bs| <= |r.value.1| + 4 + 27 * MAX_MEMBERS
  {
    var (n, r0) :- GetU32(bs);
    if n > MAX_MEMBERS then None
    else
      var (pairs, rest) :- GetPairs(r0, n);
      if Repeats(pairs) || exists i | 0 <= i < |pairs| :: pairs[i].0 == 0 then None
      else Some((TableOf(pairs), rest))
  }

  predicate TableFits(table: map<u64, Address>) {
    |table.Keys| <= MAX_MEMBERS && 0 !in table && forall id | id in table :: Wellformed(table[id])
  }

  function PutTable(table: map<u64, Address>, rest: Bytes): (bs: Bytes)
    requires TableFits(table)
  {
    PutU32(|table.Keys|, PutPairs(PairsOf(Sorted(table.Keys), table), rest))
  }

  lemma TableOfPairs(ids: seq<u64>, table: map<u64, Address>)
    requires forall id :: id in ids <==> id in table
    requires forall i, j | 0 <= i < j < |ids| :: ids[i] < ids[j]
    ensures !Repeats(PairsOf(ids, table)) && TableOf(PairsOf(ids, table)) == table
  {
    var pairs := PairsOf(ids, table);
    var t := TableOf(pairs);
    forall id ensures id in t <==> id in table {
      if id in table {
        var i :| 0 <= i < |ids| && ids[i] == id;
        assert pairs[i].0 == id;
      }
    }
    forall id | id in table ensures t[id] == table[id] {
      var i :| 0 <= i < |ids| && ids[i] == id;
      assert t[pairs[i].0] == pairs[i].1;
    }
  }

  lemma TableRoundTrip(table: map<u64, Address>, rest: Bytes)
    requires TableFits(table)
    ensures GetTable(PutTable(table, rest)) == Some((table, rest))
  {
    hide PutU32, GetU32, PutPairs, GetPairs, Wellformed, Sorted, TableOf, Repeats;
    var ids := Sorted(table.Keys);
    var pairs := PairsOf(ids, table);
    assert AllWellformed(pairs) by {
      forall i | 0 <= i < |pairs| ensures Wellformed(pairs[i].1) {
        assert ids[i] in table;
      }
    }
    PairsRoundTrip(pairs, rest);
    TableOfPairs(ids, table);
  }

  function PutJoint(j: Option<Joint>, rest: Bytes): (bs: Bytes)
    requires j.Some? ==> |j.value.oldVoters| <= MAX_MEMBERS && |j.value.newVoters| <= MAX_MEMBERS
  {
    if j.None? then PutU8(0, rest)
    else PutU8(1, PutIdSet(j.value.oldVoters, PutIdSet(j.value.newVoters, PutU64(j.value.enterIndex, rest))))
  }

  function GetJoint(bs: Bytes): (r: Taken<Option<Joint>>)
    ensures r.Some? ==> |bs| <= |r.value.1| + 17 + 16 * MAX_MEMBERS
  {
    var (flag, r0) :- GetU8(bs);
    if flag == 0 then Some((None, r0))
    else if flag != 1 then None
    else
      var (oldVoters, r1) :- GetIdSet(r0, false);
      var (newVoters, r2) :- GetIdSet(r1, false);
      var (enterIndex, r3) :- GetU64(r2);
      if enterIndex == 0 then None else Some((Some(Joint(oldVoters, newVoters, enterIndex)), r3))
  }

  lemma SubsetSize(a: set<u64>, b: set<u64>)
    requires a <= b
    ensures |a| <= |b|
  {
    assert b == a + (b - a);
  }

  /** Every set in a valid image is small enough for its count field. */
  lemma MembershipSizes(m: Membership)
    requires ValidMembership(m)
    ensures |m.voters| <= MAX_MEMBERS && |m.learners| <= MAX_MEMBERS && TableFits(m.addresses)
    ensures m.joint.Some? ==> |m.joint.value.oldVoters| <= MAX_MEMBERS && |m.joint.value.newVoters| <= MAX_MEMBERS
  {
    assert |m.voters + m.learners| == |m.voters| + |m.learners|;
    SubsetSize(m.addresses.Keys, m.voters + m.learners);
    if m.joint.Some? {
      SubsetSize(m.joint.value.oldVoters, m.voters);
      SubsetSize(m.joint.value.newVoters, m.voters);
    }
  }

  function PutMembership(m: Membership): (bs: Bytes)
    requires ValidMembership(m)
  {
    MembershipSizes(m);
    PutHeader(MEMBERSHIP_MAGIC, 2,
      PutIdSet(m.voters, PutIdSet(m.learners, PutJoint(m.joint, PutTable(m.addresses, PutU64(m.activeFeatures, []))))))
  }

  /** An invalid image has no encoding. */
  function EncodeMembership(m: Membership): Option<Bytes> {
    if ValidMembership(m) then Some(Seal(PutMembership(m))) else None
  }

  function GetMembership(bs: Bytes): (r: Option<Membership>)
    ensures r.Some? ==> |bs| <= 0x10_0000
  {
    var (magic, r0) :- GetU32(bs);
    var (version, r1) :- GetU16(r0);
    if magic != MEMBERSHIP_MAGIC || (version != 1 && version != 2) then None
    else
      var (voters, r2) :- GetIdSet(r1, false);
      var (learners, r3) :- GetIdSet(r2, true);
      var (joint, r4) :- GetJoint(r3);
      var (addresses, r5) :- GetTable(r4);
      var (features, r6) :- if version == 1 then Some((0, r5)) else GetU64(r5);
      if r6 != [] then None else Some(Membership(voters, learners, joint, addresses, features))
  }

  /** Formats 1 and 2; what is accepted is a valid image of bounded length. */
  function DecodeMembership(bs: Bytes): (r: Option<Membership>)
    ensures r.Some? ==> ValidMembership(r.value) && |bs| <= 0x10_0004
  {
    var body :- Unseal(bs);
    var m :- GetMembership(body);
    if ValidMembership(m) then Some(m) else None
  }

  lemma JointRoundTrip(j: Option<Joint>, rest: Bytes)
    requires j.Some? ==>
               |j.value.oldVoters| <= MAX_MEMBERS && |j.value.newVoters| <= MAX_MEMBERS &&
               j.value.oldVoters != {} && j.value.newVoters != {} && j.value.enterIndex != 0 &&
               0 !in j.value.oldVoters && 0 !in j.value.newVoters
    ensures GetJoint(PutJoint(j, rest)) == Some((j, rest))
  {
    hide PutIdSet, GetIdSet, PutU64, GetU64;
    if j.Some? {
      var r2 := PutU64(j.value.enterIndex, rest);
      IdSetRoundTrip(j.value.newVoters, r2, false);
      IdSetRoundTrip(j.value.oldVoters, PutIdSet(j.value.newVoters, r2), false);
    }
  }

  lemma MembershipParse(m: Membership, r1: Bytes, r2: Bytes, r3: Bytes, r4: Bytes, r5: Bytes)
    requires GetIdSet(r1, false) == Some((m.voters, r2)) && GetIdSet(r2, true) == Some((m.learners, r3))
    requires GetJoint(r3) == Some((m.joint, r4)) && GetTable(r4) == Some((m.addresses, r5))
    requires GetU64(r5) == Some((m.activeFeatures, []))
    ensures GetMembership(PutHeader(MEMBERSHIP_MAGIC, 2, r1)) == Some(m)
  {
    hide GetIdSet, GetJoint, GetTable, GetU64, GetU32, GetU16, PutU32, PutU16;
  }

  lemma MembershipFields(m: Membership)
    requires ValidMembership(m)
    ensures GetMembership(PutMembership(m)) == Some(m)
  {
    MembershipSizes(m);
    var r5 := PutU64(m.activeFeatures, []);
    var r4 := PutTable(m.addresses, r5);
    var r3 := PutJoint(m.joint, r4);
    var r2 := PutIdSet(m.learners, r3);
    var r1 := PutIdSet(m.voters, r2);
    JointRoundTrip(m.joint, r4);
    hide PutIdSet, GetIdSet, PutJoint, GetJoint, PutU64, GetU64, PutTable, GetTable, TableFits, GetMembership, PutHeader;
    TableRoundTrip(m.addresses, r5);
    IdSetRoundTrip(m.learners, r3, true);
    IdSetRoundTrip(m.voters, r2, false);
    MembershipParse(m, r1, r2, r3, r4, r5);
  }

  /** A valid image is far below the codec's length limit. */
  lemma MembershipFits(m: Membership)
    requires ValidMembership(m)
    ensures |PutMembership(m)| <= 0x10_0000
  {
    MembershipFields(m);
  }

  /** A valid membership image survives encoding. */
  lemma MembershipRoundTrip(m: Membership)
    requires ValidMembership(m)
    ensures EncodeMembership(m).Some? && DecodeMembership(EncodeMembership(m).value) == Some(m)
  {
    hide ValidMembership, PutMembership, GetMembership, Seal, Unseal;
    MembershipFields(m);
  }
}
