/** The framed record stream: canonical records, and recovery of a torn stream to a prefix. */
module LogStream {
  import opened Prelude
  import opened Codec
  import opened ClusterConfig
  import opened RaftLog

  const LOG_MAGIC: u32 := 0x524c_4343
  const LOG_VERSION: u16 := 1
  const SEMANTIC_V3: u16 := 3

  // ------------------------------------------------------------------
  // Records
  // ------------------------------------------------------------------

  function OriginTag(o: Origin): byte {
    match o
    case Bootstrap => 1
    case Join => 2
    case Restore => 3
  }

  function OriginOf(tag: byte): Option<Origin> {
    if tag == 1 then Some(Bootstrap) else if tag == 2 then Some(Join) else if tag == 3 then Some(Restore) else None
  }

  function PutMark(m: Mark): Bytes {
    PutU64(m.index, PutU64(m.term, PutU64(m.generation, PutU32(m.crc, []))))
  }

  function GetMark(bs: Bytes): Option<Mark> {
    var (index, r0) :- GetU64(bs);
    if index == 0 then None
    else
      var (term, r1) :- GetU64(r0);
      var (generation, r2) :- GetU64(r1);
      var (crc, r3) :- GetU32(r2);
      if r3 != [] then None else Some(Mark(index, term, generation, crc))
  }

  function PutEntry(e: Entry): Bytes
    requires |e.payload| <= MAX_CODEC_BYTES && (e.kind.App? || e.kind.Noop? || e.kind.Config?)
  {
    PutU64(e.term, PutU64(e.index,
      PutU8(if e.kind.App? then 1 else if e.kind.Noop? then 2 else 3, PutBytes(e.payload, []))))
  }

  function GetEntry(bs: Bytes): Option<Entry> {
    var (term, r0) :- GetU64(bs);
    var (index, r1) :- GetU64(r0);
    var (tag, r2) :- GetU8(r1);
    var (payload, r3) :- GetBytes(r2);
    if index == 0 || tag == 0 || tag > 3 || r3 != [] then None
    else Some(Entry(term, index, if tag == 1 then App else if tag == 2 then Noop else Config, payload))
  }

  function PutEntryV3(e: Entry): Bytes
    requires |e.payload| <= MAX_CODEC_BYTES && (e.kind.AppV3? || e.kind.ConfigV3?)
  {
    PutU64(e.term, PutU64(e.index, PutU16(SEMANTIC_V3,
      PutU64(if e.kind.AppV3? then ATOMIC_BATCH_FEATURE else 0,
        PutU8(if e.kind.AppV3? then 1 else 3, PutBytes(e.payload, []))))))
  }

  function GetEntryV3(bs: Bytes): Option<Entry> {
    var (term, r0) :- GetU64(bs);
    var (index, r1) :- GetU64(r0);
    var (version, r2) :- GetU16(r1);
    var (features, r3) :- GetU64(r2);
    var (tag, r4) :- GetU8(r3);
    var (payload, r5) :- GetBytes(r4);
    if index == 0 || version != SEMANTIC_V3 || r5 != [] then None
    else if tag == 1 && features == ATOMIC_BATCH_FEATURE then Some(Entry(term, index, AppV3, payload))
    else if tag == 3 && features == 0 then Some(Entry(term, index, ConfigV3, payload))
    else None
  }

  function PutGenesis(g: Genesis): Bytes
    requires ValidGenesis(g)
  {
    MembershipFits(g.membership);
    var policy, membership := EncodePolicy(g.policy), Seal(PutMembership(g.membership));
    PutU8(OriginTag(g.origin), PutRaw(g.clusterId, PutBytes(policy, PutBytes(membership, []))))
  }

  function GetGenesis(bs: Bytes): Option<Genesis> {
    var (tag, r0) :- GetU8(bs);
    var origin :- OriginOf(tag);
    var (clusterId, r1) :- Chop(r0, 16);
    var (policyBytes, r2) :- GetBytes(r1);
    var policy :- DecodePolicy(policyBytes);
    var (membershipBytes, r3) :- GetBytes(r2);
    var membership :- DecodeMembership(membershipBytes);
    if r3 != [] then None else Some(Genesis(origin, clusterId, policy, membership))
  }

  function PutHard(h: HardState): Bytes {
    PutU64(h.term, PutU64(if h.votedFor.Some? then h.votedFor.value else 0, []))
  }

  function GetHard(bs: Bytes): Option<HardState> {
    var (term, r0) :- GetU64(bs);
    var (voter, r1) :- GetU64(r0);
    if r1 != [] then None else Some(HardState(term, if voter == 0 then None else Some(voter)))
  }

  /** The encoder accepts the record: indices are nonzero, fields fit, a genesis is valid. */
  predicate Encodable(r: Record) {
    match r
    case GenesisRecord(g) => ValidGenesis(g)
    case Hard(_) => true
    case Append(e) => e.index != 0 && |e.payload| <= MAX_CODEC_BYTES
    case Truncate(from) => from != 0
    case SnapshotMark(m) => m.index != 0
    case InstalledSnapshotMark(m) => m.index != 0
  }

  function PutRecord(r: Record): Bytes
    requires Encodable(r)
  {
    match r
    case GenesisRecord(g) => PutU8(1, PutGenesis(g))
    case Hard(h) => PutU8(2, PutHard(h))
    case Append(e) => if e.kind.AppV3? || e.kind.ConfigV3? then PutU8(7, PutEntryV3(e)) else PutU8(3, PutEntry(e))
    case Truncate(from) => PutU8(4, PutU64(from, []))
    case SnapshotMark(m) => PutU8(5, PutMark(m))
    case InstalledSnapshotMark(m) => PutU8(6, PutMark(m))
  }

  function EncodeRecord(r: Record): (bs: Bytes)
    requires Encodable(r)
    ensures |bs| > 4
  {
    Seal(PutHeader(LOG_MAGIC, LOG_VERSION, PutRecord(r)))
  }

  function GetRecord(bs: Bytes): Option<Record> {
    var (tag, body) :- GetU8(bs);
    match tag
    case 1 => var g :- GetGenesis(body); Some(GenesisRecord(g))
    case 2 => var h :- GetHard(body); Some(Hard(h))
    case 3 => var e :- GetEntry(body); Some(Append(e))
    case 4 =>
      var (from, rest) :- GetU64(body);
      if from == 0 || rest != [] then None else Some(Truncate(from))
    case 5 => var m :- GetMark(body); Some(SnapshotMark(m))
    case 6 => var m :- GetMark(body); Some(InstalledSnapshotMark(m))
    case 7 => var e :- GetEntryV3(body); Some(Append(e))
    case _ => None
  }

  function DecodeRecord(bs: Bytes): Option<Record> {
    var body :- Unseal(bs);
    var fields :- GetHeader(body, LOG_MAGIC, LOG_VERSION);
    GetRecord(fields)
  }

  /** A record that reads back as itself: its frame fits, and a vote names a node. */
  predicate Storable(r: Record) {
    Encodable(r) && |EncodeRecord(r)| <= MAX_CODEC_BYTES && (r.Hard? ==> r.hard.votedFor != Some(0))
  }

  lemma GenesisFields(g: Genesis)
    requires ValidGenesis(g)
    ensures GetGenesis(PutGenesis(g)) == Some(g)
  {
    PolicyRoundTrip(g.policy);
    MembershipRoundTrip(g.membership);
    MembershipFits(g.membership);
    var policy, membership := EncodePolicy(g.policy), Seal(PutMembership(g.membership));
    assert DecodePolicy(policy) == Some(g.policy) && DecodeMembership(membership) == Some(g.membership);
    hide *;
    GenesisFrame(g, policy, membership);
  }

  lemma GenesisFrame(g: Genesis, policy: Bytes, membership: Bytes)
    requires |policy| <= MAX_CODEC_BYTES && |membership| <= MAX_CODEC_BYTES
    requires DecodePolicy(policy) == Some(g.policy) && DecodeMembership(membership) == Some(g.membership)
    ensures GetGenesis(PutU8(OriginTag(g.origin), PutRaw(g.clusterId, PutBytes(policy, PutBytes(membership, []))))) == Some(g)
  {
    hide PutBytes, GetBytes, PutRaw, Chop, DecodePolicy, DecodeMembership;
  }

  lemma EntryFields(e: Entry)
    requires e.index != 0 && |e.payload| <= MAX_CODEC_BYTES && (e.kind.App? || e.kind.Noop? || e.kind.Config?)
    ensures GetEntry(PutEntry(e)) == Some(e)
  {
    hide PutBytes, GetBytes, PutU64, GetU64;
  }

  lemma EntryV3Fields(e: Entry)
    requires e.index != 0 && |e.payload| <= MAX_CODEC_BYTES && (e.kind.AppV3? || e.kind.ConfigV3?)
    ensures GetEntryV3(PutEntryV3(e)) == Some(e)
  {
    hide PutBytes, GetBytes, PutU16, GetU16, PutU64, GetU64;
  }

  lemma MarkFields(m: Mark)
    requires m.index != 0
    ensures GetMark(PutMark(m)) == Some(m)
  {
    hide PutU32, GetU32, PutU64, GetU64;
  }

  lemma RecordFields(r: Record)
    requires Encodable(r) && (r.Hard? ==> r.hard.votedFor != Some(0))
    ensures GetRecord(PutRecord(r)) == Some(r)
  {
    hide PutGenesis, GetGenesis, PutEntry, GetEntry, PutEntryV3, GetEntryV3, PutMark, GetMark, PutU64, GetU64, ValidGenesis;
    match r
    case GenesisRecord(g) => GenesisFields(g);
    case Append(e) =>
      if e.kind.AppV3? || e.kind.ConfigV3? {
        EntryV3Fields(e);
      } else {
        EntryFields(e);
      }
    case SnapshotMark(m) => MarkFields(m);
    case InstalledSnapshotMark(m) => MarkFields(m);
    case _ =>
  }

  lemma RecordRoundTrip(r: Record)
    requires Storable(r)
    ensures DecodeRecord(EncodeRecord(r)) == Some(r)
  {
    hide PutRecord, GetRecord, Seal, Unseal, PutU16, GetU16, PutU32, GetU32, Encodable;
    RecordFields(r);
  }

  // ------------------------------------------------------------------
  // Recovery
  // ------------------------------------------------------------------

  datatype Recovered = Recovered(state: LogView, consumed: nat, torn: bool)

  /** The effect of one decoded record on what was recovered so far. */
  function Advance(state: Option<LogView>, body: Bytes): Option<LogView> {
    var r :- DecodeRecord(body);
    if state.None? then
      if r.GenesisRecord? && ValidGenesis(r.genesis) then Some(Fresh(r.genesis)) else None
    else Apply(state.value, r)
  }

  function Stop(state: Option<LogView>, consumed: nat, torn: bool): Option<Recovered> {
    if state.None? then None else Some(Recovered(state.value, consumed, torn))
  }

  /** What the head of a stream is: nothing, a partial frame, a bad length, or a frame body. */
  datatype Head = End | Partial | BadLength | Framed(body: Bytes, after: Bytes)

  function ReadHead(rest: Bytes): (h: Head)
    ensures h.Framed? ==> |h.after| < |rest|
  {
    if rest == [] then End
    else if |rest| < 4 then Partial
    else
      var n := FromLE(rest[..4]);
      if n == 0 || n > MAX_CODEC_BYTES then BadLength
      else if |rest| < 4 + n then Partial
      else Framed(rest[4..4 + n], rest[4 + n..])
  }

  /** Recover from the bytes left; `None` is corruption or a missing genesis. */
  function Recover(rest: Bytes, consumed: nat, state: Option<LogView>): Option<Recovered>
    decreases |rest|
  {
    match ReadHead(rest)
    case End => Stop(state, consumed, false)
    case Partial => Stop(state, consumed, true)
    case BadLength => None
    case Framed(body, after) =>
      var next := Advance(state, body);
      if next.None? then None else Recover(after, consumed + |rest| - |after|, next)
  }

  /** The recovery loop over a byte string, replaying into a log updated in place. */
  method RecoverStream(bytes: Bytes) returns (r: Option<Recovered>)
    ensures r == Recover(bytes, 0, None)
  {
    hide DecodeRecord, ValidGenesis, Apply, FromLE, Fresh;
    var cursor := 0;
    var state: LogState? := null;
    var torn := false;
    while cursor < |bytes| && !torn
      invariant 0 <= cursor <= |bytes|
      invariant state != null ==> fresh(state)
      invariant var view := if state == null then None else Some(state.View());
                Recover(bytes, 0, None) ==
                if torn then Stop(view, cursor, true) else Recover(bytes[cursor..], cursor, view)
      decreases |bytes| - cursor, !torn
    {
      ghost var rest := bytes[cursor..];
      if cursor + 4 > |bytes| {
        torn := true;
      } else {
        var length := FromLE(bytes[cursor..cursor + 4]);
        assert bytes[cursor..cursor + 4] == rest[..4];
        if length == 0 || length > MAX_CODEC_BYTES {
          return None;
        }
        var end := cursor + 4 + length;
        if end > |bytes| {
          torn := true;
        } else {
          assert bytes[cursor + 4..end] == rest[4..4 + length] && bytes[end..] == rest[4 + length..];
          var record := DecodeRecord(bytes[cursor + 4..end]);
          if record.None? {
            return None;
          }
          if state == null {
            if !record.value.GenesisRecord? || !ValidGenesis(record.value.genesis) {
              return None;
            }
            state := new LogState(record.value.genesis);
          } else {
            var ok := state.ApplyRecord(record.value);
            if !ok {
              return None;
            }
          }
          cursor := end;
        }
      }
    }
    if state == null {
      return None;
    }
    return Some(Recovered(state.View(), cursor, torn));
  }

  // ------------------------------------------------------------------
  // What was consumed is a complete, replayable prefix
  // ------------------------------------------------------------------

  lemma HeadStable(bytes: Bytes, more: Bytes)
    requires ReadHead(bytes).Framed?
    ensures var f := bytes[..|bytes| - |ReadHead(bytes).after|];
            bytes == f + ReadHead(bytes).after && ReadHead(f + more) == Framed(ReadHead(bytes).body, more)
  {
    var n := FromLE(bytes[..4]);
    var f := bytes[..4 + n];
    var w := f + more;
    assert w[..4] == bytes[..4] && w[4..4 + n] == bytes[4..4 + n] && w[4 + n..] == more;
  }

  /** Recovery of any byte string stops at a prefix from which recovery can resume: the prefix alone
      recovers to the same state without a torn tail, and whatever bytes follow it are read as if
      recovery had paused there. */
  lemma {:induction false} RecoveryResumes(bytes: Bytes, consumed: nat, state: Option<LogView>, more: Bytes)
    requires Recover(bytes, consumed, state).Some?
    ensures var r := Recover(bytes, consumed, state).value;
            consumed <= r.consumed <= consumed + |bytes| &&
            Recover(bytes[..r.consumed - consumed] + more, consumed, state) == Recover(more, r.consumed, Some(r.state))
    decreases |bytes|
  {
    hide Advance, ReadHead;
    var r := Recover(bytes, consumed, state).value;
    if ReadHead(bytes).Framed? {
      var after := ReadHead(bytes).after;
      var f := bytes[..|bytes| - |after|];
      var next := Advance(state, ReadHead(bytes).body);
      RecoveryResumes(after, consumed + |f|, next, more);
      var k := r.consumed - consumed - |f|;
      HeadStable(bytes, after[..k] + more);
      assert bytes[..|f| + k] + more == f + (after[..k] + more);
      assert |f + (after[..k] + more)| - |after[..k] + more| == |f|;
    } else {
      assert bytes[..0] + more == more;
    }
  }

  /** Recovering the recovered prefix again changes nothing. */
  lemma RecoveryIdempotent(bytes: Bytes)
    requires Recover(bytes, 0, None).Some?
    ensures var r := Recover(bytes, 0, None).value;
            r.consumed <= |bytes| && Recover(bytes[..r.consumed], 0, None) == Some(r.(torn := false))
  {
    hide Recover;
    var r := Recover(bytes, 0, None).value;
    RecoveryResumes(bytes, 0, None, []);
    RecoverEnd(r.consumed, Some(r.state));
    assert bytes[..r.consumed] + [] == bytes[..r.consumed];
  }

  // ------------------------------------------------------------------
  // Torn tails of an encoded history
  // ------------------------------------------------------------------

  function Frame(r: Record): (bs: Bytes)
    requires Storable(r)
    ensures |bs| > 8
  {
    PutU32(|EncodeRecord(r)|, EncodeRecord(r))
  }

  predicate AllStorable(rs: seq<Record>) {
    forall i | 0 <= i < |rs| :: Storable(rs[i])
  }

  function Frames(rs: seq<Record>): Bytes
    requires AllStorable(rs)
  {
    if rs == [] then [] else Frame(rs[0]) + Frames(rs[1..])
  }

  /** The fold of a whole history, genesis first. */
  function Replay(state: Option<LogView>, rs: seq<Record>): Option<LogView>
    decreases |rs|
  {
    if rs == [] then state
    else if state.None? then
      if rs[0].GenesisRecord? && ValidGenesis(rs[0].genesis) then Replay(Some(Fresh(rs[0].genesis)), rs[1..]) else None
    else
      var next := Apply(state.value, rs[0]);
      if next.None? then None else Replay(next, rs[1..])
  }

  lemma FrameHead(r: Record, rest: Bytes)
    requires Storable(r)
    ensures ReadHead(Frame(r) + rest) == Framed(EncodeRecord(r), rest)
  {
    hide EncodeRecord, Encodable, ToLE;
    var body := EncodeRecord(r);
    var bs := Frame(r) + rest;
    assert |body| > 4 && |body| <= MAX_CODEC_BYTES;
    assert Frame(r) == PutU32(|body|, body) && GetU32(Frame(r)) == Some((|body|, body));
    assert bs[..4] == Frame(r)[..4] && bs[4..4 + |body|] == body && bs[4 + |body|..] == rest;
  }

  lemma RecoverStep(bytes: Bytes, consumed: nat, state: Option<LogView>, next: Option<LogView>)
    requires ReadHead(bytes).Framed? && Advance(state, ReadHead(bytes).body) == next
    ensures Recover(bytes, consumed, state) ==
            if next.None? then None else Recover(ReadHead(bytes).after, consumed + |bytes| - |ReadHead(bytes).after|, next)
  {
  }

  lemma RecoverEnd(consumed: nat, state: Option<LogView>)
    ensures Recover([], consumed, state) == Stop(state, consumed, false)
  {
  }

  lemma AdvanceReplays(state: Option<LogView>, body: Bytes, r: Record)
    requires DecodeRecord(body) == Some(r)
    ensures Advance(state, body) == Replay(state, [r])
  {
    hide DecodeRecord, Apply, ValidGenesis;
    assert [r][1..] == [];
  }

  lemma ReadFrame(r: Record, rest: Bytes, consumed: nat, state: Option<LogView>)
    requires Storable(r)
    ensures Recover(Frame(r) + rest, consumed, state) ==
            (var next := Replay(state, [r]);
             if next.None? then None else Recover(rest, consumed + |Frame(r)|, next))
  {
    hide Recover, ReadHead, Advance, Replay, Frame, EncodeRecord, DecodeRecord, Encodable;
    RecordRoundTrip(r);
    FrameHead(r, rest);
    AdvanceReplays(state, EncodeRecord(r), r);
    RecoverStep(Frame(r) + rest, consumed, state, Replay(state, [r]));
    assert |Frame(r) + rest| == |Frame(r)| + |rest|;
  }

  /** A proper part of a frame is a torn tail. */
  lemma TornFrame(r: Record, n: nat, consumed: nat, state: Option<LogView>)
    requires Storable(r) && 0 < n < |Frame(r)|
    ensures Recover(Frame(r)[..n], consumed, state) == Stop(state, consumed, true)
  {
    hide EncodeRecord, Encodable;
    var body := EncodeRecord(r);
    var bs := Frame(r)[..n];
    assert |body| > 4 && |body| <= MAX_CODEC_BYTES;
    assert GetU32(Frame(r)) == Some((|body|, body));
    if n >= 4 {
      assert bs[..4] == Frame(r)[..4];
    }
    assert ReadHead(bs) == Partial;
  }

  lemma {:induction false} ReadFrames(rs: seq<Record>, rest: Bytes, consumed: nat, state: Option<LogView>)
    requires AllStorable(rs) && Replay(state, rs).Some?
    ensures Recover(Frames(rs) + rest, consumed, state) == Recover(rest, consumed + |Frames(rs)|, Replay(state, rs))
    decreases |rs|
  {
    hide Recover, Frame, Storable, Apply, ValidGenesis;
    if rs == [] {
      assert Frames(rs) + rest == rest;
    } else {
      var tail := Frames(rs[1..]) + rest;
      assert Frames(rs) + rest == Frame(rs[0]) + tail;
      ReadFrame(rs[0], tail, consumed, state);
      var next := Replay(state, [rs[0]]);
      assert [rs[0]][1..] == [];
      ReadFrames(rs[1..], rest, consumed + |Frame(rs[0])|, next);
    }
  }

  lemma {:induction false} FramesSplit(a: seq<Record>, b: seq<Record>)
    requires AllStorable(a + b)
    ensures AllStorable(a) && AllStorable(b) && Frames(a + b) == Frames(a) + Frames(b)
  {
    hide Frame, Storable;
    assert forall i | 0 <= i < |a| :: (a + b)[i] == a[i];
    assert forall i | 0 <= i < |b| :: (a + b)[i + |a|] == b[i];
    if a == [] {
      assert a + b == b;
    } else {
      assert (a + b)[1..] == a[1..] + b;
      FramesSplit(a[1..], b);
    }
  }

  /** How many whole frames the first `cut` bytes of a stream hold. */
  lemma {:induction false} WholeFrames(rs: seq<Record>, cut: nat) returns (n: nat)
    requires AllStorable(rs) && cut <= |Frames(rs)|
    ensures n <= |rs| && AllStorable(rs[..n]) && |Frames(rs[..n])| <= cut
    ensures n == |rs| ==> cut == |Frames(rs)|
    ensures n < |rs| ==> cut < |Frames(rs[..n])| + |Frame(rs[n])|
    ensures Frames(rs)[..cut] ==
            if n == |rs| then Frames(rs) else Frames(rs[..n]) + Frame(rs[n])[..cut - |Frames(rs[..n])|]
    decreases |rs|
  {
    hide Frame, Storable;
    if rs == [] || cut < |Frame(rs[0])| {
      n := 0;
      assert rs[..0] == [];
      if rs != [] {
        assert Frames(rs)[..cut] == Frame(rs[0])[..cut];
      }
    } else {
      var k := WholeFrames(rs[1..], cut - |Frame(rs[0])|);
      n := k + 1;
      assert rs[..n] == [rs[0]] + rs[1..][..k];
      assert rs[..n][1..] == rs[1..][..k];
      assert Frames(rs)[..cut] == Frame(rs[0]) + Frames(rs[1..])[..cut - |Frame(rs[0])|];
    }
  }

  lemma {:induction false} ReplayPrefix(state: Option<LogView>, rs: seq<Record>, n: nat)
    requires n <= |rs| && Replay(state, rs).Some? && (state.Some? || n > 0)
    ensures Replay(state, rs[..n]).Some?
    decreases |rs|
  {
    hide Apply, ValidGenesis;
    if n > 0 {
      var next := if state.None? then Some(Fresh(rs[0].genesis)) else Apply(state.value, rs[0]);
      assert rs[..n][1..] == rs[1..][..n - 1];
      ReplayPrefix(next, rs[1..], n - 1);
    }
  }

  lemma NextFrames(rs: seq<Record>, n: nat)
    requires AllStorable(rs) && n < |rs|
    ensures AllStorable(rs[..n]) && AllStorable(rs[..n + 1])
    ensures Frames(rs[..n + 1]) == Frames(rs[..n]) + Frame(rs[n])
  {
    hide Frame, Storable;
    assert rs[..n + 1] == rs[..n] + [rs[n]];
    FramesSplit(rs[..n], [rs[n]]);
    assert [rs[n]][1..] == [];
  }

  /** A stream of whole frames followed by part of the next one. */
  lemma RecoverPartial(rs: seq<Record>, n: nat, tail: Bytes)
    requires AllStorable(rs) && Replay(None, rs).Some? && 0 < n <= |rs|
    requires tail != [] ==> n < |rs| && |tail| < |Frame(rs[n])| && tail == Frame(rs[n])[..|tail|]
    ensures AllStorable(rs[..n]) && Replay(None, rs[..n]).Some?
    ensures Recover(Frames(rs[..n]) + tail, 0, None) ==
            Some(Recovered(Replay(None, rs[..n]).value, |Frames(rs[..n])|, tail != []))
  {
    hide Frame, Storable, Frames, Replay, Recover;
    assert AllStorable(rs[..n]);
    ReplayPrefix(None, rs, n);
    ReadFrames(rs[..n], tail, 0, None);
    if tail == [] {
      RecoverEnd(|Frames(rs[..n])|, Replay(None, rs[..n]));
    } else {
      TornFrame(rs[n], |tail|, |Frames(rs[..n])|, Replay(None, rs[..n]));
    }
  }

  /** Torn-tail recovery: cut the encoding of an accepted history at any byte.  Past the genesis frame
      recovery yields the fold of exactly the complete frames, consumes exactly their bytes and reports
      a torn tail exactly when a partial frame remains; before that there is nothing to recover. */
  lemma TornTailRecovery(rs: seq<Record>, cut: nat) returns (n: nat)
    requires rs != [] && AllStorable(rs) && Replay(None, rs).Some? && cut <= |Frames(rs)|
    ensures cut < |Frame(rs[0])| ==> Recover(Frames(rs)[..cut], 0, None) == None
    ensures cut >= |Frame(rs[0])| ==>
              0 < n <= |rs| && AllStorable(rs[..n]) && Replay(None, rs[..n]).Some? &&
              |Frames(rs[..n])| <= cut &&
              (n < |rs| ==> AllStorable(rs[..n + 1]) && cut < |Frames(rs[..n + 1])|) &&
              Recover(Frames(rs)[..cut], 0, None) ==
              Some(Recovered(Replay(None, rs[..n]).value, |Frames(rs[..n])|, cut != |Frames(rs[..n])|))
  {
    hide Frame, Storable, Replay;
    n := WholeFrames(rs, cut);
    if cut < |Frame(rs[0])| {
      EarlyCut(rs, cut);
    } else {
      assert n > 0 by {
        assert rs[..0] == [];
      }
      var whole := Frames(rs[..n]);
      var tail := if n == |rs| then [] else Frame(rs[n])[..cut - |whole|];
      assert rs[..|rs|] == rs;
      assert Frames(rs)[..cut] == whole + tail;
      if n < |rs| {
        NextFrames(rs, n);
      }
      RecoverPartial(rs, n, tail);
    }
  }

  lemma EarlyCut(rs: seq<Record>, cut: nat)
    requires rs != [] && AllStorable(rs) && cut < |Frame(rs[0])|
    ensures cut <= |Frames(rs)| && Recover(Frames(rs)[..cut], 0, None) == None
  {
    hide Frame, Storable;
    assert Frames(rs)[..cut] == Frame(rs[0])[..cut];
    if cut > 0 {
      TornFrame(rs[0], cut, 0, None);
    }
  }

  /** Appending further accepted records to a recovered prefix continues the replay. */
  lemma RecoveryExtends(bytes: Bytes, more: seq<Record>)
    requires Recover(bytes, 0, None).Some? && AllStorable(more)
    requires Replay(Some(Recover(bytes, 0, None).value.state), more).Some?
    ensures var r := Recover(bytes, 0, None).value;
            r.consumed <= |bytes| &&
            Recover(bytes[..r.consumed] + Frames(more), 0, None) ==
            Some(Recovered(Replay(Some(r.state), more).value, r.consumed + |Frames(more)|, false))
  {
    hide Storable, Frames, Replay, Recover;
    var r := Recover(bytes, 0, None).value;
    RecoveryResumes(bytes, 0, None, Frames(more));
    ReadFrames(more, [], r.consumed, Some(r.state));
    RecoverEnd(r.consumed + |Frames(more)|, Replay(Some(r.state), more));
    assert Frames(more) + [] == Frames(more);
  }

  // ------------------------------------------------------------------
  // Which records the log gives back
  // ------------------------------------------------------------------

  lemma PutEntryLength(e: Entry)
    requires |e.payload| <= MAX_CODEC_BYTES
    ensures if e.kind.AppV3? || e.kind.ConfigV3? then |PutEntryV3(e)| == |e.payload| + 31 else |PutEntry(e)| == |e.payload| + 21
  {
    hide PutBytes, PutU16, PutU64;
  }

  lemma PutGenesisLength(g: Genesis)
    requires ValidGenesis(g)
    ensures |PutGenesis(g)| <= 0x11_0000
  {
    hide PutBytes, Seal, PutMembership, EncodePolicy, ValidMembership, ValidPolicy;
    MembershipFits(g.membership);
  }

  /** A frame is short enough for the recovery loop unless it carries too large a payload: the encoder
      bounds the payload alone, and recovery the whole record. */
  lemma FrameLength(r: Record)
    requires Encodable(r)
    ensures |EncodeRecord(r)| <= U32_MAX
    ensures |EncodeRecord(r)| <= MAX_CODEC_BYTES <==>
            (r.Append? ==> |r.entry.payload| + (if r.entry.kind.AppV3? || r.entry.kind.ConfigV3? then 42 else 32) <= MAX_CODEC_BYTES)
  {
    hide PutGenesis, PutEntry, PutEntryV3, PutU16, PutU32, PutU64, Seal, ValidGenesis;
    match r
    case GenesisRecord(g) => PutGenesisLength(g);
    case Append(e) => PutEntryLength(e);
    case _ =>
  }

  /** The frame as it is written, whatever its length. */
  function WrittenFrame(r: Record): Bytes
    requires Encodable(r) && |EncodeRecord(r)| <= U32_MAX
  {
    PutU32(|EncodeRecord(r)|, EncodeRecord(r))
  }

  lemma WrittenHead(r: Record, rest: Bytes)
    requires Encodable(r) && |EncodeRecord(r)| <= U32_MAX
    ensures ReadHead(WrittenFrame(r) + rest) ==
            if |EncodeRecord(r)| > MAX_CODEC_BYTES then BadLength else Framed(EncodeRecord(r), rest)
  {
    hide EncodeRecord, Encodable, FromLE, ToLE;
    var n := |EncodeRecord(r)|;
    var bs := WrittenFrame(r) + rest;
    Widths();
    FromToLE(n, 4);
    assert WrittenFrame(r) == ToLE(n, 4) + EncodeRecord(r);
    assert bs[..4] == ToLE(n, 4) && (|EncodeRecord(r)| <= MAX_CODEC_BYTES ==> bs[4..4 + n] == EncodeRecord(r) && bs[4 + n..] == rest);
  }

  /** A vote for node zero is read as no vote. */
  lemma ZeroVoteIsLost(r: Record)
    requires Encodable(r) && r.Hard? && r.hard.votedFor == Some(0)
    ensures DecodeRecord(EncodeRecord(r)) == Some(Hard(HardState(r.hard.term, None)))
  {
    hide Seal, Unseal, PutU16, GetU16, PutU32, GetU32, PutU64, GetU64;
  }

  /** The next frame of a stream gives this record back. */
  predicate GivesBack(bs: Bytes, r: Record) {
    ReadHead(bs).Framed? && DecodeRecord(ReadHead(bs).body) == Some(r)
  }

  /** A record the encoder takes is given back by its frame exactly when its payload leaves room for the
      rest of the record, and its vote is not for node zero. */
  lemma GivenBackIff(r: Record, rest: Bytes)
    requires Encodable(r)
    ensures |EncodeRecord(r)| <= U32_MAX && (GivesBack(WrittenFrame(r) + rest, r) <==> Storable(r))
  {
    hide EncodeRecord, DecodeRecord, ReadHead, WrittenFrame, Encodable;
    FrameLength(r);
    WrittenHead(r, rest);
    if Storable(r) {
      RecordRoundTrip(r);
    } else if |EncodeRecord(r)| <= MAX_CODEC_BYTES {
      ZeroVoteIsLost(r);
    }
  }

  /** A record that is too long makes the stream, from there on and whatever was recovered before,
      corrupt. */
  lemma OverlongIsCorruption(r: Record, rest: Bytes, consumed: nat, state: Option<LogView>)
    requires Encodable(r) && |EncodeRecord(r)| > MAX_CODEC_BYTES
    ensures |EncodeRecord(r)| <= U32_MAX && Recover(WrittenFrame(r) + rest, consumed, state) == None
  {
    hide EncodeRecord, ReadHead, WrittenFrame, Encodable;
    FrameLength(r);
    WrittenHead(r, rest);
  }

  function LargestAppend(): Record {
    Append(Entry(1, 1, App, seq(MAX_CODEC_BYTES, _ => 0)))
  }

  lemma LargestIsEncodable()
    ensures Encodable(LargestAppend()) && LargestAppend().Append? && |LargestAppend().entry.payload| == MAX_CODEC_BYTES
  {
  }

  /** Such a record exists: an append whose payload is as large as the encoder allows. */
  lemma LargestAppendIsRefused(consumed: nat, state: Option<LogView>)
    ensures Encodable(LargestAppend()) && !Storable(LargestAppend())
    ensures |EncodeRecord(LargestAppend())| <= U32_MAX && Recover(WrittenFrame(LargestAppend()), consumed, state) == None
  {
    hide EncodeRecord, Recover, WrittenFrame, LargestAppend, Encodable;
    var r := LargestAppend();
    LargestIsEncodable();
    FrameLength(r);
    OverlongIsCorruption(r, [], consumed, state);
    assert WrittenFrame(r) + [] == WrittenFrame(r);
  }
}
