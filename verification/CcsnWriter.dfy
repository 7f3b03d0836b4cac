/** The two CCSN writers: one that builds the whole file, and one that hands it out in bounded
    chunks without ever holding it.  Both write the one encoding. */
module CcsnWriter {
  import opened Prelude
  import opened Ordering
  import opened Codec
  import opened ClusterConfig
  import opened KvSnapshot
  import opened Sessions
  import opened CcsnRecords
  import opened CcsnDecode
  import opened CcsnEncode
  import opened CcsnStream
  import Crc

  // ------------------------------------------------------------------
  // The checks
  // ------------------------------------------------------------------

  method ValidateEntries(s: Snapshot) returns (ok: bool)
    ensures ok <==> KeysAscend(s.kv.entries) && forall i | 0 <= i < |s.kv.entries| :: EntryExportable(s.kv.entries[i], s)
  {
    hide LexLt, EntryExportable;
    var es := s.kv.entries;
    for i := 0 to |es|
      invariant forall j | 0 <= j < i :: EntryExportable(es[j], s)
      invariant forall j | 0 < j < i :: LexLt(es[j - 1].key, es[j].key)
    {
      if !EntryExportable(es[i], s) || (i > 0 && !LexLt(es[i - 1].key, es[i].key)) {
        return false;
      }
    }
    return true;
  }

  lemma {:induction false} BytesGrow(ks: seq<Key>, m: map<Key, Record>, n: nat)
    requires n <= |ks| && forall i | 0 <= i < |ks| :: ks[i] in m
    ensures BytesOf(ks[..n], m) <= BytesOf(ks, m)
    decreases |ks|
  {
    if n == |ks| {
      assert ks[..n] == ks;
    } else {
      var k := |ks| - 1;
      BytesGrow(ks[..k], m, n);
      assert ks[..k][..n] == ks[..n];
    }
  }

  lemma BytesSnoc(ks: seq<Key>, m: map<Key, Record>, i: nat)
    requires i < |ks| && forall j | 0 <= j < |ks| :: ks[j] in m
    ensures BytesOf(ks[..i + 1], m) == BytesOf(ks[..i], m) + Size(m[ks[i]])
  {
    assert ks[..i + 1][..i] == ks[..i];
  }

  lemma NoBytes(m: map<Key, Record>)
    ensures BytesOf([], m) == 0
  {
  }

  /** Sessions one by one in table order, with a running total of their bytes. */
  method ValidateSessions(admin: (Bytes, Bytes) -> bool, s: Snapshot) returns (ok: bool)
    ensures ok <==>
              (forall k | k in s.sessions.records :: SessionExportable(admin, k, s.sessions.records[k], s)) &&
              BytesOf(InOrder(s.sessions.records.Keys), s.sessions.records) <= s.policy.maxSessionBytes
  {
    hide SessionExportable, InOrder, BytesOf, Size;
    var ks, m := InOrder(s.sessions.records.Keys), s.sessions.records;
    var total: nat := 0;
    NoBytes(m);
    assert ks[..0] == [];
    for i := 0 to |ks|
      invariant forall j | 0 <= j < i :: SessionExportable(admin, ks[j], m[ks[j]], s)
      invariant total == BytesOf(ks[..i], m) <= s.policy.maxSessionBytes
    {
      if !SessionExportable(admin, ks[i], m[ks[i]], s) {
        return false;
      }
      BytesSnoc(ks, m, i);
      total := total + Size(m[ks[i]]);
      if total > s.policy.maxSessionBytes {
        BytesGrow(ks, m, i + 1);
        return false;
      }
    }
    assert ks[..|ks|] == ks;
    return true;
  }

  method ValidateTombstones(s: Snapshot) returns (ok: bool)
    ensures ok <==> forall k | k in s.sessions.tombstones :: TombstoneExportable(k, s.sessions.tombstones[k], s)
  {
    hide TombstoneExportable, InOrder;
    var ks, m := InOrder(s.sessions.tombstones.Keys), s.sessions.tombstones;
    for i := 0 to |ks|
      invariant forall j | 0 <= j < i :: TombstoneExportable(ks[j], m[ks[j]], s)
    {
      if !TombstoneExportable(ks[i], m[ks[i]], s) {
        return false;
      }
    }
    return true;
  }

  /** The preflight both writers make. */
  method Validate(admin: (Bytes, Bytes) -> bool, s: Snapshot) returns (ok: bool)
    ensures ok <==> Exportable(admin, s)
  {
    hide ValidMembership, TransferExportable, EntryExportable, SessionExportable, TombstoneExportable, KeysAscend, BytesOf, InOrder;
    if !(exists i | 0 <= i < |s.clusterId| :: s.clusterId[i] != 0) {
      return false;
    }
    if !ValidMembership(s.membership) || s.kv.appliedIndex == 0 || s.kv.appliedTerm == 0 {
      return false;
    }
    if s.transfer.Some? && !TransferExportable(s.transfer.value, s) {
      return false;
    }
    var entries := ValidateEntries(s);
    if !entries {
      return false;
    }
    var sessions := ValidateSessions(admin, s);
    if !sessions {
      return false;
    }
    ok := ValidateTombstones(s);
  }

  // ------------------------------------------------------------------
  // The whole file
  // ------------------------------------------------------------------

  lemma FramesSnoc(rs: seq<Rec>, r: Rec)
    requires Frameable(rs) && |r.body| <= U32_MAX
    ensures Frames(rs + [r]) == Frames(rs) + Frame(r)
  {
    hide Frame;
    assert (rs + [r])[..|rs|] == rs;
  }

  /** Frames of a list of records, appended one after another. */
  method WriteFrames(rs: seq<Rec>) returns (bytes: Bytes)
    requires Frameable(rs)
    ensures bytes == Frames(rs)
  {
    hide Frame;
    bytes := [];
    for i := 0 to |rs|
      invariant bytes == Frames(rs[..i])
    {
      FramesSnoc(rs[..i], rs[i]);
      assert rs[..i + 1] == rs[..i] + [rs[i]];
      bytes := bytes + Frame(rs[i]);
    }
    assert rs[..|rs|] == rs;
  }

  /** Build the whole file, or refuse a snapshot that fails a check. */
  method EncodeWhole(admin: (Bytes, Bytes) -> bool, s: Snapshot) returns (file: Option<Bytes>)
    requires Encodable(s) && (ValidMembership(s.membership) ==> FileFits(s))
    ensures file.Some? <==> Exportable(admin, s)
    ensures file.Some? ==> FileFits(s) && file.value == Encoding(s)
  {
    hide RecordsOf, Frames, HeaderBytes, HeaderOf, FooterBytes, Frameable, ValidMembership, KeysAscend, BytesOf, InOrder;
    var ok := Validate(admin, s);
    if !ok {
      return None;
    }
    var rs := RecordsOf(s);
    var output := HeaderBytes(s.clusterId, HeaderOf(s, |rs|));
    var frames := WriteFrames(rs);
    output := output + frames;
    output := output + FooterBytes(output);
    return Some(output);
  }

  // ------------------------------------------------------------------
  // One record at a time
  // ------------------------------------------------------------------

  lemma FourWay<T>(a: seq<T>, b: seq<T>, c: seq<T>, d: seq<T>, i: nat)
    requires i < |a| + |b| + |c| + |d|
    ensures (a + b + c + d)[i] ==
            if i < |a| then a[i]
            else if i < |a| + |b| then b[i - |a|]
            else if i < |a| + |b| + |c| then c[i - |a| - |b|]
            else d[i - |a| - |b| - |c|]
  {
  }

  lemma KeyRecAt(es: seq<LogicalEntry>, i: nat)
    requires i < |es| && forall j | 0 <= j < |es| :: KeyFits(es[j])
    ensures KeyRecs(es)[i] == Rec(3, PutKey(es[i]))
  {
    hide PutKey;
  }

  lemma SessionRecAt(ks: seq<Key>, m: map<Key, Record>, i: nat)
    requires i < |ks| && SessionsFit(ks, m)
    ensures SessionRecs(ks, m)[i] == Rec(4, PutSession(ks[i], m[ks[i]]))
  {
    hide PutSession;
  }

  lemma TombstoneRecAt(ks: seq<Key>, m: map<Key, Tombstone>, i: nat)
    requires i < |ks| && forall j | 0 <= j < |ks| :: ks[j] in m
    ensures TombstoneRecs(ks, m)[i] == Rec(5, PutTombstone(ks[i], m[ks[i]]))
  {
    hide PutTombstone;
  }

  lemma FirstRecsAre(s: Snapshot)
    requires ValidMembership(s.membership)
    ensures EncodeMembership(s.membership).Some?
    ensures var rs := FirstRecs(s);
            |rs| == 2 + (if s.transfer.Some? then 1 else 0) &&
            rs[0] == Rec(1, EncodeMembership(s.membership).value) && rs[1] == Rec(2, EncodePolicy(s.policy)) &&
            (s.transfer.Some? ==> rs[2] == Rec(6, PutTransfer(s.transfer.value)))
  {
    hide EncodeMembership, EncodePolicy, PutTransfer, ValidMembership;
    MembershipRoundTrip(s.membership);
  }

  lemma RecordsSplit(s: Snapshot)
    requires ValidMembership(s.membership) && Encodable(s)
    ensures RecordsOf(s) ==
            FirstRecs(s) + KeyRecs(s.kv.entries) + SessionRecs(InOrder(s.sessions.records.Keys), s.sessions.records) +
            TombstoneRecs(InOrder(s.sessions.tombstones.Keys), s.sessions.tombstones)
  {
    hide KeyFits, SessionFits, FirstRecs, InOrder, ValidMembership, KeyRecs, SessionRecs, TombstoneRecs;
  }

  /** The record with a given ordinal, found from the section counts alone. */
  method RecordByOrdinal(s: Snapshot, ordinal: nat) returns (r: Rec)
    requires ValidMembership(s.membership) && Encodable(s) && ordinal < |RecordsOf(s)|
    ensures r == RecordsOf(s)[ordinal]
  {
    hide KeyFits, SessionFits, PutKey, PutSession, PutTombstone, PutTransfer, EncodeMembership, EncodePolicy, InOrder, ValidMembership,
         KeyRecs, SessionRecs, TombstoneRecs, FirstRecs, RecordsOf;
    FirstRecsAre(s);
    var es, ks, ts := s.kv.entries, InOrder(s.sessions.records.Keys), InOrder(s.sessions.tombstones.Keys);
    RecordsSplit(s);
    FourWay(FirstRecs(s), KeyRecs(es), SessionRecs(ks, s.sessions.records), TombstoneRecs(ts, s.sessions.tombstones), ordinal);
    if ordinal == 0 {
      return Rec(1, EncodeMembership(s.membership).value);
    }
    if ordinal == 1 {
      return Rec(2, EncodePolicy(s.policy));
    }
    if ordinal == 2 && s.transfer.Some? {
      return Rec(6, PutTransfer(s.transfer.value));
    }
    var after := ordinal - 2 - (if s.transfer.Some? then 1 else 0);
    if after < |es| {
      KeyRecAt(es, after);
      return Rec(3, PutKey(es[after]));
    }
    var session := after - |es|;
    if session < |ks| {
      SessionRecAt(ks, s.sessions.records, session);
      return Rec(4, PutSession(ks[session], s.sessions.records[ks[session]]));
    }
    var tombstone := session - |ks|;
    TombstoneRecAt(ts, s.sessions.tombstones, tombstone);
    return Rec(5, PutTombstone(ts[tombstone], s.sessions.tombstones[ts[tombstone]]));
  }

  // ------------------------------------------------------------------
  // Parts of the file
  // ------------------------------------------------------------------

  function Join(parts: seq<Bytes>): Bytes {
    if parts == [] then [] else parts[0] + Join(parts[1..])
  }

  lemma {:induction false} JoinConcat(a: seq<Bytes>, b: seq<Bytes>)
    ensures Join(a + b) == Join(a) + Join(b)
    decreases |a|
  {
    if a == [] {
      assert a + b == b;
    } else {
      JoinConcat(a[1..], b);
      assert (a + b)[1..] == a[1..] + b;
    }
  }

  function FrameList(rs: seq<Rec>): (fs: seq<Bytes>)
    requires Frameable(rs)
    ensures |fs| == |rs| && forall i | 0 <= i < |rs| :: fs[i] == Frame(rs[i])
  {
    seq(|rs|, i requires 0 <= i < |rs| => Frame(rs[i]))
  }

  lemma {:induction false} JoinFrames(rs: seq<Rec>)
    requires Frameable(rs)
    ensures Join(FrameList(rs)) == Frames(rs)
    decreases |rs|
  {
    hide Frame;
    if rs != [] {
      JoinFrames(rs[1..]);
      assert FrameList(rs)[1..] == FrameList(rs[1..]);
      assert rs == [rs[0]] + rs[1..];
      FramesPrepend(rs[0], rs[1..]);
    }
  }

  /** Header, records and footer, one after another. */
  function PartsOf(s: Snapshot): seq<Bytes>
    requires FileFits(s)
  {
    [HeaderBytes(s.clusterId, HeaderOf(s, |RecordsOf(s)|))] + FrameList(RecordsOf(s)) + [FooterBytes(Front(s))]
  }

  lemma PartsJoin(s: Snapshot)
    requires FileFits(s)
    ensures Join(PartsOf(s)) == Encoding(s)
  {
    hide Frameable, Encodable, ValidMembership, RecordsOf, FirstRecs, Frames, FrameList, HeaderBytes, HeaderOf, FooterBytes, Join;
    EncodableScalars(s);
    var rs := RecordsOf(s);
    JoinParts(HeaderBytes(s.clusterId, HeaderOf(s, |rs|)), rs, FooterBytes(Front(s)));
  }

  lemma JoinParts(head: Bytes, rs: seq<Rec>, footer: Bytes)
    requires Frameable(rs)
    ensures Join([head] + FrameList(rs) + [footer]) == head + Frames(rs) + footer
  {
    hide Join, Frames, FrameList;
    JoinFrames(rs);
    JoinConcat([head] + FrameList(rs), [footer]);
    JoinConcat([head], FrameList(rs));
    JoinOne(head);
    JoinOne(footer);
  }

  lemma JoinOne(part: Bytes)
    ensures Join([part]) == part
  {
    assert [part][1..] == [];
    assert part + [] == part;
  }

  lemma PartsAre(s: Snapshot)
    requires FileFits(s)
    ensures var parts, rs := PartsOf(s), RecordsOf(s);
            |parts| == |rs| + 2 && parts[0] == HeaderBytes(s.clusterId, HeaderOf(s, |rs|)) && parts[|rs| + 1] == FooterBytes(Front(s)) &&
            (forall i | 0 <= i < |rs| :: |rs[i].body| <= U32_MAX && parts[i + 1] == Frame(rs[i])) &&
            (forall i | 0 <= i < |parts| :: parts[i] != [])
  {
    hide Encodable, ValidMembership, RecordsOf, FirstRecs, FrameList, HeaderBytes, HeaderOf, FooterBytes, Front;
    EncodableScalars(s);
    var rs := RecordsOf(s);
    PartsAt(HeaderBytes(s.clusterId, HeaderOf(s, |rs|)), rs, FooterBytes(Front(s)));
  }

  lemma PartsAt(head: Bytes, rs: seq<Rec>, footer: Bytes)
    requires Frameable(rs) && head != [] && footer != []
    ensures var parts := [head] + FrameList(rs) + [footer];
            |parts| == |rs| + 2 && parts[0] == head && parts[|rs| + 1] == footer &&
            (forall i | 0 <= i < |rs| :: |rs[i].body| <= U32_MAX && parts[i + 1] == Frame(rs[i])) &&
            (forall i | 0 <= i < |parts| :: parts[i] != [])
  {
    hide Frame;
    var parts := [head] + FrameList(rs) + [footer];
    assert forall i | 0 < i < |parts| - 1 :: parts[i] == FrameList(rs)[i - 1] == Frame(rs[i - 1]);
  }

  // ------------------------------------------------------------------
  // The chunked writer
  // ------------------------------------------------------------------

  datatype Next = Refused | Chunk(bytes: Bytes) | End

  lemma CutThree(part: Bytes, i: nat, n: nat, tail: Bytes)
    requires i + n <= |part|
    ensures part[i..] + tail == part[i..i + n] + (part[i + n..] + tail)
    ensures i + n == |part| ==> part[i..] + tail == part[i..i + n] + tail
  {
  }

  class StreamEncoder {
    const snapshot: Snapshot
    const header: Bytes
    const footer: Bytes
    const recordCount: nat
    var nextRecord: nat
    var current: Option<Bytes>
    var offset: nat
    var done: bool
    ghost const parts: seq<Bytes>

    /** The parts still to load. */
    ghost function Unloaded(): Bytes
      reads `nextRecord
    {
      if nextRecord <= |parts| then Join(parts[nextRecord..]) else []
    }

    /** What has not been handed out yet. */
    ghost function Rest(): Bytes
      reads `nextRecord, `current, `offset
    {
      if current.Some? && offset <= |current.value| then current.value[offset..] + Unloaded() else Unloaded()
    }

    ghost predicate Valid()
      reads this
    {
      FileFits(snapshot) && parts == PartsOf(snapshot) && |parts| == recordCount + 2 &&
      recordCount == |RecordsOf(snapshot)| && header == parts[0] && footer == parts[recordCount + 1] &&
      (current.Some? ==> offset < |current.value|) && (done ==> Rest() == [])
    }

    constructor (s: Snapshot, header: Bytes, footer: Bytes)
      requires FileFits(s) && header == HeaderBytes(s.clusterId, HeaderOf(s, |RecordsOf(s)|)) && footer == FooterBytes(Front(s))
      ensures Valid() && snapshot == s && Rest() == Encoding(s)
    {
      hide RecordsOf, FirstRecs, Frame, FrameList, HeaderBytes, HeaderOf, FooterBytes, Front, Encodable, ValidMembership, PartsOf, Frameable,
           Encoding, Join;
      PartsAre(s);
      PartsJoin(s);
      snapshot, this.header, this.footer, recordCount := s, header, footer, |RecordsOf(s)|;
      nextRecord, current, offset, done := 0, None, 0, false;
      parts := PartsOf(s);
      new;
      assert parts[0..] == parts;
      Begun();
    }

    ghost method Begun()
      requires FileFits(snapshot) && parts == PartsOf(snapshot) && |parts| == recordCount + 2
      requires recordCount == |RecordsOf(snapshot)| && header == parts[0] && footer == parts[recordCount + 1]
      requires nextRecord == 0 && current.None? && !done && parts[0..] == parts
      ensures Valid() && Rest() == Join(parts)
    {
      hide FileFits, PartsOf, RecordsOf, FirstRecs, Join;
    }

    /** The bytes of the part with a given number. */
    method PartAt(i: nat) returns (part: Bytes)
      requires FileFits(snapshot) && parts == PartsOf(snapshot) && |parts| == recordCount + 2
      requires recordCount == |RecordsOf(snapshot)| && header == parts[0] && footer == parts[recordCount + 1] && i < |parts|
      ensures part == parts[i] && part != []
    {
      hide RecordsOf, FirstRecs, Frame, HeaderBytes, HeaderOf, FooterBytes, Front, Encodable, ValidMembership, PartsOf, Frameable;
      PartsAre(snapshot);
      if i == 0 {
        return header;
      }
      if i <= recordCount {
        var r := RecordByOrdinal(snapshot, i - 1);
        assert parts[i - 1 + 1] == Frame(r);
        return Frame(r);
      }
      return footer;
    }

    /** Load the next part when none is being copied. */
    method Load()
      requires Valid() && current.None? && !done
      modifies this
      ensures Valid() && Rest() == old(Rest()) && (current.None? ==> done)
    {
      hide FileFits, PartsOf, RecordsOf, FirstRecs;
      if nextRecord <= recordCount + 1 {
        var part := PartAt(nextRecord);
        assert parts[nextRecord..][0] == part && parts[nextRecord..][1..] == parts[nextRecord + 1..];
        current := Some(part);
        nextRecord := nextRecord + 1;
        offset := 0;
        assert part[0..] == part;
      } else {
        assert nextRecord == |parts| ==> parts[nextRecord..] == [];
        done := true;
      }
    }

    /** Copy up to `wanted` bytes of the part being copied. */
    method Copy(wanted: nat) returns (piece: Bytes)
      requires Valid() && current.Some? && wanted > 0 && !done
      modifies this
      ensures Valid() && piece != [] && |piece| <= wanted && old(Rest()) == piece + Rest() && !done
    {
      hide FileFits, PartsOf, RecordsOf, FirstRecs, Unloaded, Join;
      var part := current.value;
      var available := |part| - offset;
      var n := if wanted < available then wanted else available;
      piece := part[offset..offset + n];
      CutThree(part, offset, n, Unloaded());
      offset := offset + n;
      if offset == |part| {
        current := None;
      }
    }

    /** Hand out the next chunk: exactly as much as asked for, unless the file ends first; none once
        it has ended.  A request for nothing is refused. */
    method NextChunk(maxBytes: nat) returns (next: Next)
      requires Valid()
      modifies this
      ensures Valid()
      ensures next.Refused? <==> maxBytes == 0
      ensures next.Refused? ==> Rest() == old(Rest())
      ensures next.Chunk? ==>
                next.bytes != [] && old(Rest()) == next.bytes + Rest() &&
                (|next.bytes| == maxBytes || (|next.bytes| < maxBytes && Rest() == []))
      ensures next.End? ==> old(Rest()) == [] && Rest() == []
    {
      hide FileFits, PartsOf, RecordsOf, FirstRecs, Join, Rest;
      if maxBytes == 0 {
        return Refused;
      }
      if done {
        return End;
      }
      var output: Bytes := [];
      assert old(Rest()) == output + Rest();
      while |output| < maxBytes && !done
        invariant Valid() && |output| <= maxBytes && old(Rest()) == output + Rest()
        decreases |Rest()|, !done
      {
        if current.None? {
          Load();
        }
        if current.Some? && !done {
          ghost var before := output;
          var piece := Copy(maxBytes - |output|);
          output := output + piece;
          assert old(Rest()) == before + (piece + Rest());
        }
      }
      if output == [] {
        return End;
      }
      return Chunk(output);
    }
  }

  // ------------------------------------------------------------------
  // Preflight, and writing the whole file chunk by chunk
  // ------------------------------------------------------------------

  lemma CrcStep(head: Bytes, frames: Bytes, frame: Bytes)
    ensures Crc.Update(Crc.START, frames + frame) == Crc.Update(Crc.Update(Crc.START, frames), frame)
    ensures Crc.Update(Crc.START, head + (frames + frame)) == Crc.Update(Crc.Update(Crc.START, head + frames), frame)
  {
    hide Crc.Update;
    Crc.UpdateConcat(Crc.START, frames, frame);
    Crc.UpdateConcat(Crc.START, head + frames, frame);
    assert head + frames + frame == head + (frames + frame);
  }

  /** Running checksums and length of the records, one at a time. */
  method SumRecords(s: Snapshot, header: Bytes) returns (records: u32, file: u32, length: nat)
    requires FileFits(s)
    ensures records == Crc.Update(Crc.START, Frames(RecordsOf(s))) && length == |Frames(RecordsOf(s))|
    ensures file == Crc.Update(Crc.START, header + Frames(RecordsOf(s)))
  {
    hide RecordsOf, FirstRecs, Encodable, ValidMembership, Crc.Update, Frame, Frames, Front;
    ghost var rs := RecordsOf(s);
    var count := |RecordsOf(s)|;
    records, file, length := Crc.START, Crc.Update(Crc.START, header), 0;
    NoFrames(rs, header);
    for i := 0 to count
      invariant records == Crc.Update(Crc.START, Frames(rs[..i])) && length == |Frames(rs[..i])|
      invariant file == Crc.Update(Crc.START, header + Frames(rs[..i]))
    {
      var r := RecordByOrdinal(s, i);
      var frame := Frame(r);
      FramesSnoc(rs[..i], r);
      assert rs[..i + 1] == rs[..i] + [r];
      CrcStep(header, Frames(rs[..i]), frame);
      records, file, length := Crc.Update(records, frame), Crc.Update(file, frame), length + |frame|;
    }
    assert rs[..count] == rs;
  }

  lemma NoFrames(rs: seq<Rec>, header: Bytes)
    requires Frameable(rs)
    ensures Frames(rs[..0]) == [] && header + Frames(rs[..0]) == header && Crc.Update(Crc.START, Frames(rs[..0])) == Crc.START
  {
    hide Frame;
  }

  /** Checksums and length of the file, found record by record without building it. */
  method Preflight(s: Snapshot) returns (header: Bytes, footer: Bytes, totalLength: nat, fileCrc: u32)
    requires FileFits(s)
    ensures header == HeaderBytes(s.clusterId, HeaderOf(s, |RecordsOf(s)|)) && footer == FooterBytes(Front(s))
    ensures totalLength == |Encoding(s)| && fileCrc == Crc.Crc32c(Front(s) + BlankFooter(Front(s)))
  {
    hide RecordsOf, FirstRecs, HeaderBytes, HeaderOf, Encodable, ValidMembership, Crc.Update, Frames, Frameable, PutU32, PutU64;
    EncodableScalars(s);
    header := HeaderBytes(s.clusterId, HeaderOf(s, |RecordsOf(s)|));
    var records, file, length := SumRecords(s, header);
    ghost var front := Front(s);
    assert front[HEADER_LENGTH..] == Frames(RecordsOf(s));
    totalLength := HEADER_LENGTH + length + FOOTER_LENGTH;
    var blank := PutU64(totalLength, PutU32(Crc.Finish(records), PutU32(0, PutU32(END_MAGIC, []))));
    Crc.UpdateConcat(Crc.START, front, blank);
    fileCrc := Crc.Finish(Crc.Update(file, blank));
    footer := PutU64(totalLength, PutU32(Crc.Finish(records), PutU32(fileCrc, PutU32(END_MAGIC, []))));
  }

  /** Ask a writer for chunks until it has no more. */
  method Drain(encoder: StreamEncoder, size: nat -> nat) returns (out: seq<Bytes>)
    requires encoder.Valid() && forall i :: size(i) > 0
    modifies encoder
    ensures Flatten(out) == old(encoder.Rest())
    ensures forall i | 0 <= i < |out| :: 0 < |out[i]| <= size(i)
  {
    hide *;
    out := [];
    FlattenNone();
    ghost var whole := encoder.Rest();
    assert Flatten(out) + encoder.Rest() == whole;
    var ended := false;
    while !ended
      invariant encoder.Valid()
      invariant Flatten(out) + encoder.Rest() == whole && (ended ==> encoder.Rest() == [])
      invariant forall i | 0 <= i < |out| :: 0 < |out[i]| <= size(i)
      decreases !ended, |encoder.Rest()|
    {
      var next := encoder.NextChunk(size(|out|));
      if next.End? {
        ended := true;
      } else {
        FlattenSnoc(out, next.bytes);
        assert Flatten(out) + (next.bytes + encoder.Rest()) == Flatten(out) + next.bytes + encoder.Rest();
        out := out + [next.bytes];
      }
    }
  }

  lemma FlattenNone()
    ensures Flatten([]) == []
  {
  }

  lemma FlattenSnoc(out: seq<Bytes>, chunk: Bytes)
    ensures Flatten(out + [chunk]) == Flatten(out) + chunk
  {
    assert (out + [chunk])[..|out|] == out;
  }

  /** Write a snapshot in chunks of any positive sizes: together they are the file. */
  method EncodeChunks(admin: (Bytes, Bytes) -> bool, s: Snapshot, size: nat -> nat) returns (chunks: Option<seq<Bytes>>)
    requires Encodable(s) && (ValidMembership(s.membership) ==> FileFits(s)) && forall i :: size(i) > 0
    ensures chunks.Some? <==> Exportable(admin, s)
    ensures chunks.Some? ==>
              FileFits(s) && Flatten(chunks.value) == Encoding(s) &&
              forall i | 0 <= i < |chunks.value| :: 0 < |chunks.value[i]| <= size(i)
  {
    hide *;
    var ok := Validate(admin, s);
    if !ok {
      return None;
    }
    ExportableMembership(admin, s);
    var header, footer, _, _ := Preflight(s);
    var encoder := new StreamEncoder(s, header, footer);
    var out := Drain(encoder, size);
    return Some(out);
  }

  lemma ExportableMembership(admin: (Bytes, Bytes) -> bool, s: Snapshot)
    requires Exportable(admin, s)
    ensures ValidMembership(s.membership)
  {
    hide ValidMembership, BytesOf, InOrder;
  }
}
