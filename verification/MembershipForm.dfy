/** Which accepted membership images are the ones the encoder writes.  The decoder takes an older format
    as well, and takes ids and addresses in any order. */
module MembershipForm {
  import opened Prelude
  import opened Ordering
  import opened Codec
  import opened ClusterConfig

  predicate Ascending(ids: seq<u64>) {
    forall i, j | 0 <= i < j < |ids| :: ids[i] < ids[j]
  }

  // ------------------------------------------------------------------
  // The form, read off the bytes
  // ------------------------------------------------------------------

  /** The ids that follow their count. */
  function ListedIds(bs: Bytes): Option<seq<u64>> {
    var (n, r0) :- GetU32(bs);
    var (ids, rest) :- GetWords(r0, n);
    Some(ids)
  }

  predicate IdsInOrder(bs: Bytes) {
    var ids := ListedIds(bs);
    ids.Some? && Ascending(ids.value)
  }

  function FirstOf(pairs: seq<(u64, Address)>): (ids: seq<u64>)
    ensures |ids| == |pairs| && forall i | 0 <= i < |ids| :: ids[i] == pairs[i].0
  {
    seq(|pairs|, i requires 0 <= i < |pairs| => pairs[i].0)
  }

  /** The ids of the addresses that follow their count. */
  function ListedAddresses(bs: Bytes): Option<seq<u64>> {
    var (n, r0) :- GetU32(bs);
    var (pairs, rest) :- GetPairs(r0, n);
    Some(FirstOf(pairs))
  }

  predicate AddressesInOrder(bs: Bytes) {
    var ids := ListedAddresses(bs);
    ids.Some? && Ascending(ids.value)
  }

  predicate JointInOrder(bs: Bytes) {
    var flag := GetU8(bs);
    flag.Some? &&
    (flag.value.0 == 1 ==>
       IdsInOrder(flag.value.1) &&
       var voters := GetIdSet(flag.value.1, false);
       voters.Some? && IdsInOrder(voters.value.1))
  }

  /** Format 2, every set of ids ascending, addresses ascending by id. */
  predicate FieldsInOrder(r1: Bytes) {
    IdsInOrder(r1) &&
    var voters := GetIdSet(r1, false);
    voters.Some? && IdsInOrder(voters.value.1) &&
    var learners := GetIdSet(voters.value.1, true);
    learners.Some? && JointInOrder(learners.value.1) &&
    var joint := GetJoint(learners.value.1);
    joint.Some? && AddressesInOrder(joint.value.1)
  }

  predicate BodyInOrder(body: Bytes) {
    var magic := GetU32(body);
    magic.Some? &&
    var version := GetU16(magic.value.1);
    version.Some? && version.value.0 == 2 && FieldsInOrder(version.value.1)
  }

  predicate InOrder(bs: Bytes) {
    var body := Unseal(bs);
    body.Some? && BodyInOrder(body.value)
  }

  // ------------------------------------------------------------------
  // Sets of ids
  // ------------------------------------------------------------------

  lemma {:induction false} WordsCanonical(bs: Bytes, n: nat)
    requires GetWords(bs, n).Some?
    ensures PutWords(GetWords(bs, n).value.0, GetWords(bs, n).value.1) == bs
    decreases n
  {
    hide GetU64, PutU64;
    if n > 0 {
      U64Canonical(bs);
      var r0 := GetU64(bs).value.1;
      WordsCanonical(r0, n - 1);
      assert GetWords(bs, n).value.0[1..] == GetWords(r0, n - 1).value.0;
    }
  }

  /** An ascending list is the sorted list of its elements. */
  lemma AscendingIsSorted(ids: seq<u64>, elements: set<u64>)
    requires Ascending(ids) && forall id :: id in elements <==> id in ids
    ensures Sorted(elements) == ids
  {
    var s := Sorted(elements);
    Ranks(s);
    Ranks(ids);
    SortedUnique(s, ids, IdRank);
  }

  lemma Ranks(ids: seq<u64>)
    requires Ascending(ids)
    ensures Increasing(ids, IdRank)
  {
    forall i, j | 0 <= i < j < |ids| ensures LexLt(IdRank(ids[i]), IdRank(ids[j])) {
      assert IdRank(ids[i])[0] == ids[i] && IdRank(ids[j])[0] == ids[j];
    }
  }

  /** A set of ids is written as the encoder writes it exactly when its ids ascend. */
  lemma IdSetForm(bs: Bytes, allowEmpty: bool)
    requires GetIdSet(bs, allowEmpty).Some?
    ensures var (ids, rest) := GetIdSet(bs, allowEmpty).value;
            ListedIds(bs).Some? && |ids| <= MAX_MEMBERS && (PutIdSet(ids, rest) == bs <==> IdsInOrder(bs))
  {
    hide GetU32, PutU32, GetWords, PutWords, Sorted;
    var (n, r0) := GetU32(bs).value;
    var (listed, rest) := GetWords(r0, n).value;
    var ids := GetIdSet(bs, allowEmpty).value.0;
    U32Canonical(bs);
    WordsCanonical(r0, n);
    FewerElements(listed);
    if Ascending(listed) {
      AscendingIsSorted(listed, ids);
    }
    if PutIdSet(ids, rest) == bs {
      WordsRoundTrip(Sorted(ids), rest);
    }
  }

  lemma {:induction false} FewerElements(ids: seq<u64>)
    ensures |Elements(ids)| <= |ids|
    decreases |ids|
  {
    if ids != [] {
      FewerElements(ids[1..]);
      assert Elements(ids) == Elements(ids[1..]) + {ids[0]};
    }
  }

  // ------------------------------------------------------------------
  // Addresses
  // ------------------------------------------------------------------

  lemma AddressCanonical(bs: Bytes)
    requires GetAddress(bs).Some?
    ensures PutAddress(GetAddress(bs).value.0, GetAddress(bs).value.1) == bs
  {
    hide GetU16, PutU16, ValidAddress;
    var (tag, r0) := GetU8(bs).value;
    U16Canonical(Chop(r0, if tag == 1 then 4 else 16).value.1);
  }

  lemma {:induction false} PairsCanonical(bs: Bytes, n: nat)
    requires GetPairs(bs, n).Some?
    ensures AllWellformed(GetPairs(bs, n).value.0) && PutPairs(GetPairs(bs, n).value.0, GetPairs(bs, n).value.1) == bs
    decreases n
  {
    hide GetU64, PutU64, GetAddress, PutAddress, Wellformed;
    if n > 0 {
      U64Canonical(bs);
      var r0 := GetU64(bs).value.1;
      AddressCanonical(r0);
      var r1 := GetAddress(r0).value.1;
      PairsCanonical(r1, n - 1);
      assert GetPairs(bs, n).value.0[1..] == GetPairs(r1, n - 1).value.0;
    }
  }

  lemma PairsOfTable(pairs: seq<(u64, Address)>)
    requires !Repeats(pairs) && Ascending(FirstOf(pairs))
    ensures var table := TableOf(pairs);
            Sorted(table.Keys) == FirstOf(pairs) && PairsOf(Sorted(table.Keys), table) == pairs
  {
    hide Sorted;
    var table, ids := TableOf(pairs), FirstOf(pairs);
    forall id ensures id in table.Keys <==> id in ids {
      if id in table.Keys {
        var i :| 0 <= i < |pairs| && pairs[i].0 == id;
        assert ids[i] == id;
      }
      if id in ids {
        var i :| 0 <= i < |ids| && ids[i] == id;
        assert pairs[i].0 == id;
      }
    }
    AscendingIsSorted(ids, table.Keys);
  }

  lemma TableFacts(pairs: seq<(u64, Address)>)
    requires !Repeats(pairs) && |pairs| <= MAX_MEMBERS && AllWellformed(pairs) && forall i | 0 <= i < |pairs| :: pairs[i].0 != 0
    ensures TableFits(TableOf(pairs))
  {
    hide Wellformed;
    var table := TableOf(pairs);
    assert table.Keys == Elements(FirstOf(pairs)) by {
      forall id ensures id in table.Keys <==> id in Elements(FirstOf(pairs)) {
        if id in table.Keys {
          var i :| 0 <= i < |pairs| && pairs[i].0 == id;
          assert FirstOf(pairs)[i] == id;
        }
      }
    }
    FewerElements(FirstOf(pairs));
  }

  /** A table of addresses is written as the encoder writes it exactly when its ids ascend. */
  lemma TableForm(bs: Bytes)
    requires GetTable(bs).Some?
    ensures var (table, rest) := GetTable(bs).value;
            TableFits(table) && (PutTable(table, rest) == bs <==> AddressesInOrder(bs))
  {
    hide GetU32, PutU32, GetPairs, PutPairs, Sorted, Repeats, TableOf, TableFits, AllWellformed;
    var (n, r0) := GetU32(bs).value;
    var (pairs, rest) := GetPairs(r0, n).value;
    var table := GetTable(bs).value.0;
    U32Canonical(bs);
    PairsCanonical(r0, n);
    TableFacts(pairs);
    if Ascending(FirstOf(pairs)) {
      PairsOfTable(pairs);
      assert |table.Keys| == |pairs|;
    }
    if PutTable(table, rest) == bs {
      var written := PairsOf(Sorted(table.Keys), table);
      WrittenWellformed(table);
      PairsRoundTrip(written, rest);
      assert pairs == written;
      assert FirstOf(pairs) == Sorted(table.Keys);
    }
  }

  lemma WrittenWellformed(table: map<u64, Address>)
    requires TableFits(table)
    ensures AllWellformed(PairsOf(Sorted(table.Keys), table))
  {
    hide Wellformed;
    var ids := Sorted(table.Keys);
    forall i | 0 <= i < |ids| ensures Wellformed(table[ids[i]]) {
      assert ids[i] in table;
    }
  }

  // ------------------------------------------------------------------
  // The whole image
  // ------------------------------------------------------------------

  lemma JointForm(bs: Bytes)
    requires GetJoint(bs).Some?
    ensures var (joint, rest) := GetJoint(bs).value;
            (joint.Some? ==> |joint.value.oldVoters| <= MAX_MEMBERS && |joint.value.newVoters| <= MAX_MEMBERS) &&
            (PutJoint(joint, rest) == bs <==> JointInOrder(bs))
  {
    hide GetIdSet, PutIdSet, GetU64, PutU64, IdsInOrder;
    var (flag, r0) := GetU8(bs).value;
    if flag == 1 {
      var (older, r1) := GetIdSet(r0, false).value;
      var (newer, r2) := GetIdSet(r1, false).value;
      IdSetForm(r0, false);
      IdSetForm(r1, false);
      U64Canonical(r2);
      var (joint, rest) := GetJoint(bs).value;
      if PutJoint(joint, rest) == bs {
        assert r0 == PutIdSet(older, PutIdSet(newer, PutU64(joint.value.enterIndex, rest)));
        ReadBack(r0, older, PutIdSet(newer, PutU64(joint.value.enterIndex, rest)), false);
        ReadBack(r1, newer, PutU64(joint.value.enterIndex, rest), false);
      }
    }
  }

  /** A written set reads back, so what follows it is determined. */
  lemma ReadBack(bs: Bytes, ids: set<u64>, rest: Bytes, allowEmpty: bool)
    requires |ids| <= MAX_MEMBERS && GetIdSet(bs, allowEmpty).Some? && bs == PutIdSet(ids, rest)
    ensures GetIdSet(bs, allowEmpty).value == (ids, rest)
  {
    hide GetU32, PutU32, GetWords, PutWords, Sorted;
    WordsRoundTrip(Sorted(ids), rest);
    assert Elements(Sorted(ids)) == ids;
  }

  /** The fields behind magic and version. */
  function PutFields(m: Membership): Bytes
    requires ValidMembership(m)
  {
    MembershipSizes(m);
    PutIdSet(m.voters, PutIdSet(m.learners, PutJoint(m.joint, PutTable(m.addresses, PutU64(m.activeFeatures, [])))))
  }

  /** Each field in turn, as one equality or as one condition per field. */
  lemma FieldsForm(m: Membership, r1: Bytes, r2: Bytes, r3: Bytes, r4: Bytes, r5: Bytes)
    requires ValidMembership(m)
    requires GetIdSet(r1, false) == Some((m.voters, r2)) && GetIdSet(r2, true) == Some((m.learners, r3))
    requires GetJoint(r3) == Some((m.joint, r4)) && GetTable(r4) == Some((m.addresses, r5))
    requires GetU64(r5) == Some((m.activeFeatures, []))
    ensures PutFields(m) == r1 <==> FieldsInOrder(r1)
  {
    hide GetIdSet, PutIdSet, GetJoint, PutJoint, GetTable, PutTable, GetU64, PutU64, IdsInOrder, JointInOrder, AddressesInOrder,
         ValidMembership, TableFits;
    MembershipSizes(m);
    IdSetForm(r1, false);
    IdSetForm(r2, true);
    JointForm(r3);
    TableForm(r4);
    U64Canonical(r5);
    if PutFields(m) == r1 {
      var w5 := PutU64(m.activeFeatures, []);
      var w4 := PutTable(m.addresses, w5);
      var w3 := PutJoint(m.joint, w4);
      ReadBack(r1, m.voters, PutIdSet(m.learners, w3), false);
      ReadBack(r2, m.learners, w3, true);
      JointReadBack(m, w4);
      TableRoundTrip(m.addresses, w5);
    }
  }

  lemma JointReadBack(m: Membership, rest: Bytes)
    requires ValidMembership(m)
    ensures m.joint.Some? ==> |m.joint.value.oldVoters| <= MAX_MEMBERS && |m.joint.value.newVoters| <= MAX_MEMBERS
    ensures GetJoint(PutJoint(m.joint, rest)) == Some((m.joint, rest))
  {
    MembershipSizes(m);
    JointRoundTrip(m.joint, rest);
  }

  lemma BodyForm(body: Bytes)
    requires GetMembership(body).Some? && ValidMembership(GetMembership(body).value)
    ensures PutMembership(GetMembership(body).value) == body <==> BodyInOrder(body)
  {
    hide GetIdSet, PutIdSet, GetJoint, PutJoint, GetTable, PutTable, GetU16, PutU16, GetU32, PutU32, GetU64, PutU64, ValidMembership,
         FieldsInOrder, TableFits;
    var m := GetMembership(body).value;
    var (_, r0) := GetU32(body).value;
    var (version, r1) := GetU16(r0).value;
    U32Canonical(body);
    U16Canonical(r0);
    assert PutMembership(m) == PutU32(MEMBERSHIP_MAGIC, PutU16(2, PutFields(m)));
    if version == 2 {
      var r2 := GetIdSet(r1, false).value.1;
      var r3 := GetIdSet(r2, true).value.1;
      var r4 := GetJoint(r3).value.1;
      FieldsForm(m, r1, r2, r3, r4, GetTable(r4).value.1);
    }
  }

  /** An accepted image is the one the encoder writes exactly when it is in format 2 and its ids and
      addresses ascend. */
  lemma EncoderFormIff(bs: Bytes)
    requires DecodeMembership(bs).Some?
    ensures EncodeMembership(DecodeMembership(bs).value) == Some(bs) <==> InOrder(bs)
  {
    hide GetMembership, PutMembership, Seal, Unseal, ValidMembership, BodyInOrder;
    UnsealCanonical(bs);
    BodyForm(Unseal(bs).value);
  }

  // ------------------------------------------------------------------
  // The older format
  // ------------------------------------------------------------------

  /** The image as format 1 has it, without features. */
  function OlderImage(m: Membership): Bytes
    requires ValidMembership(m)
  {
    MembershipSizes(m);
    Seal(PutHeader(MEMBERSHIP_MAGIC, 1,
      PutIdSet(m.voters, PutIdSet(m.learners, PutJoint(m.joint, PutTable(m.addresses, []))))))
  }

  /** Every membership without features has a second image, in the older format. */
  lemma OlderImageDecodes(m: Membership)
    requires ValidMembership(m) && m.activeFeatures == 0
    ensures DecodeMembership(OlderImage(m)) == Some(m) && !InOrder(OlderImage(m))
  {
    hide GetIdSet, PutIdSet, GetJoint, PutJoint, GetTable, PutTable, GetU16, PutU16, GetU32, PutU32, GetU64, PutU64, Seal, Unseal,
         ValidMembership, FieldsInOrder, TableFits;
    MembershipSizes(m);
    var r4 := PutTable(m.addresses, []);
    var r3 := PutJoint(m.joint, r4);
    var r2 := PutIdSet(m.learners, r3);
    TableRoundTrip(m.addresses, []);
    JointReadBack(m, r4);
    MembersReadBack(m, r2, r3);
  }

  lemma MembersReadBack(m: Membership, r2: Bytes, r3: Bytes)
    requires ValidMembership(m)
    ensures |m.voters| <= MAX_MEMBERS && |m.learners| <= MAX_MEMBERS
    ensures GetIdSet(PutIdSet(m.voters, r2), false) == Some((m.voters, r2))
    ensures GetIdSet(PutIdSet(m.learners, r3), true) == Some((m.learners, r3))
  {
    MembershipSizes(m);
    IdSetRoundTrip(m.voters, r2, false);
    IdSetRoundTrip(m.learners, r3, true);
  }

  lemma OlderIsShorter(m: Membership)
    requires ValidMembership(m)
    ensures EncodeMembership(m).Some? && |OlderImage(m)| + 8 == |EncodeMembership(m).value|
  {
    hide PutIdSet, PutJoint, PutTable, PutU16, PutU32, PutU64, Seal, ValidMembership, TableFits;
    MembershipSizes(m);
    var a := PutTable(m.addresses, PutU64(m.activeFeatures, []));
    var b := PutTable(m.addresses, []);
    TableLength(m.addresses, PutU64(m.activeFeatures, []), []);
    FieldsLength(m, a, b);
  }

  /** Fields in front of what follows add the same length to it. */
  lemma FieldsLength(m: Membership, a: Bytes, b: Bytes)
    requires ValidMembership(m) && |a| == |b| + 8
    ensures |m.voters| <= MAX_MEMBERS && |m.learners| <= MAX_MEMBERS
    ensures m.joint.Some? ==> |m.joint.value.oldVoters| <= MAX_MEMBERS && |m.joint.value.newVoters| <= MAX_MEMBERS
    ensures |PutIdSet(m.voters, PutIdSet(m.learners, PutJoint(m.joint, a)))| ==
            |PutIdSet(m.voters, PutIdSet(m.learners, PutJoint(m.joint, b)))| + 8
  {
    hide PutU32, PutU64, PutWords, Sorted;
    MembershipSizes(m);
  }

  lemma TableLength(table: map<u64, Address>, a: Bytes, b: Bytes)
    requires TableFits(table)
    ensures |PutTable(table, a)| - |a| == |PutTable(table, b)| - |b|
  {
    hide PutU32, Sorted, TableFits, PutPairs;
    WrittenWellformed(table);
    PairsLength(PairsOf(Sorted(table.Keys), table), a, b);
  }

  lemma {:induction false} PairsLength(pairs: seq<(u64, Address)>, a: Bytes, b: Bytes)
    requires AllWellformed(pairs)
    ensures |PutPairs(pairs, a)| - |a| == |PutPairs(pairs, b)| - |b|
    decreases |pairs|
  {
    hide PutU64, PutU16, PutRaw, Wellformed;
    if pairs != [] {
      PairsLength(pairs[1..], a, b);
      AddressLength(pairs[0].1, PutPairs(pairs[1..], a));
      AddressLength(pairs[0].1, PutPairs(pairs[1..], b));
    }
  }

  lemma AddressLength(x: Address, rest: Bytes)
    requires Wellformed(x)
    ensures |PutAddress(x, rest)| == |rest| + (if x.V4? then 7 else 19)
  {
    hide PutU16, PutRaw, ValidAddress;
  }
}
