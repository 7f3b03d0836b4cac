/** Two decoders of CCSN checkpoints: one that sees the whole file, and one that is fed the file
    in pieces.  They accept the same files and rebuild the same snapshots. */
module CcsnDecode {
  import opened Prelude
  import opened Codec
  import opened CcsnRecords
  import Crc

  const CCSN_MAGIC: u32 := 0x4e53_4343
  const END_MAGIC: u32 := 0x454e_5343
  const CCSN_VERSION: u16 := 1
  const HEADER_LENGTH: nat := 74
  const FOOTER_LENGTH: nat := 20

  // ------------------------------------------------------------------
  // Header, footer and framing
  // ------------------------------------------------------------------

  function ParseHeader(bs: Bytes, clusterId: Bytes): Option<Header> {
    var body :- Unseal(bs);
    var r0 :- GetHeader(body, CCSN_MAGIC, CCSN_VERSION);
    var (id, r1) :- Chop(r0, 16);
    var (w, rest) :- GetWords(r1, 6);
    if rest != [] || id != clusterId || w[1] == 0 || w[2] == 0 then None
    else Some(Header(w[0], w[1], w[2], w[3], w[4], w[5]))
  }

  datatype Footer = Footer(totalLength: u64, recordsCrc: u32, fileCrc: u32)

  function ParseFooter(bs: Bytes): Option<Footer> {
    var (total, r0) :- GetU64(bs);
    var (records, r1) :- GetU32(r0);
    var (file, r2) :- GetU32(r1);
    var (magic, rest) :- GetU32(r2);
    if rest != [] || magic != END_MAGIC then None else Some(Footer(total, records, file))
  }

  /** The file with its own checksum field taken as zero. */
  function Blanked(done: Bytes, footer: Bytes): Bytes
    requires |footer| == FOOTER_LENGTH
  {
    done + footer[..12] + ZERO4 + footer[16..]
  }

  /** The footer states the file's length and both checksums. */
  predicate FooterAccepted(done: Bytes, footer: Bytes)
    requires |done| >= HEADER_LENGTH && |footer| == FOOTER_LENGTH
  {
    var f := ParseFooter(footer);
    f.Some? && f.value.totalLength == |done| + FOOTER_LENGTH &&
    f.value.recordsCrc == Crc.Crc32c(done[HEADER_LENGTH..]) &&
    f.value.fileCrc == Crc.Crc32c(Blanked(done, footer))
  }

  function BodyLength(bs: Bytes): nat
    requires |bs| >= 9
  {
    GetU32(bs).value.0
  }

  /** Tag and body of one framed record, when its checksum holds. */
  function FrameBody(record: Bytes): Option<(byte, Bytes)>
    requires |record| >= 9
  {
    if GetU32(record[4..]).value.0 == Crc.Crc32c(record[8..]) then Some((record[8], record[9..])) else None
  }

  // ------------------------------------------------------------------
  // The whole file at once
  // ------------------------------------------------------------------

  function ReadFrame(admin: (Bytes, Bytes) -> bool, h: Header, b: Build, record: Bytes): Option<Build>
    requires |record| >= 9
  {
    var (tag, body) :- FrameBody(record);
    AddRecord(admin, h, b, tag, body)
  }

  function Records(admin: (Bytes, Bytes) -> bool, h: Header, b: Build, seen: nat, region: Bytes): Option<(Build, nat)>
    decreases |region|
  {
    if region == [] then Some((b, seen))
    else if seen >= h.recordCount || |region| < 9 then None
    else
      var n := BodyLength(region) + 9;
      if n > |region| then None
      else
        var more :- ReadFrame(admin, h, b, region[..n]);
        Records(admin, h, more, seen + 1, region[n..])
  }

  function Decode(admin: (Bytes, Bytes) -> bool, bytes: Bytes, clusterId: Bytes, maxBytes: nat): Option<Snapshot> {
    if |bytes| > maxBytes || |bytes| < HEADER_LENGTH + FOOTER_LENGTH then None
    else
      var end := |bytes| - FOOTER_LENGTH;
      var h :- ParseHeader(bytes[..HEADER_LENGTH], clusterId);
      if !FooterAccepted(bytes[..end], bytes[end..]) then None
      else
        var (b, seen) :- Records(admin, h, BLANK, 0, bytes[HEADER_LENGTH..end]);
        Conclude(clusterId, h, b, seen)
  }

  /** The decoder that walks the complete file. */
  method DecodeWhole(admin: (Bytes, Bytes) -> bool, bytes: Bytes, clusterId: Bytes, maxBytes: nat)
    returns (snapshot: Option<Snapshot>)
    ensures snapshot == Decode(admin, bytes, clusterId, maxBytes)
  {
    hide ParseHeader, FooterAccepted, ReadFrame, BodyLength, Conclude;
    if |bytes| > maxBytes || |bytes| < HEADER_LENGTH + FOOTER_LENGTH {
      return None;
    }
    var end := |bytes| - FOOTER_LENGTH;
    var h := ParseHeader(bytes[..HEADER_LENGTH], clusterId);
    if h.None? || !FooterAccepted(bytes[..end], bytes[end..]) {
      return None;
    }
    var offset, seen, b := HEADER_LENGTH, 0, BLANK;
    while offset < end
      invariant HEADER_LENGTH <= offset <= end && seen >= 0
      invariant Records(admin, h.value, BLANK, 0, bytes[HEADER_LENGTH..end]) ==
                Records(admin, h.value, b, seen, bytes[offset..end])
    {
      var region := bytes[offset..end];
      if seen >= h.value.recordCount || |region| < 9 {
        return None;
      }
      var n := BodyLength(region) + 9;
      if n > |region| {
        return None;
      }
      var more := ReadFrame(admin, h.value, b, region[..n]);
      if more.None? {
        return None;
      }
      assert region[n..] == bytes[offset + n..end];
      b, seen, offset := more.value, seen + 1, offset + n;
    }
    assert bytes[offset..end] == [];
    return Conclude(clusterId, h.value, b, seen);
  }

  // ------------------------------------------------------------------
  // The file so far
  // ------------------------------------------------------------------

  /** Where an incremental reader stands after some prefix of a file. */
  datatype Progress =
    | Broken
    | Open(header: Option<Header>, build: Build, seen: nat, done: Bytes, pending: Bytes)
    | Closed(closedHeader: Header, closedBuild: Build, closedSeen: nat)

  function ScanRecords(admin: (Bytes, Bytes) -> bool, h: Header, b: Build, seen: nat, done: Bytes, rest: Bytes): Progress
    requires |done| >= HEADER_LENGTH
    decreases |rest|
  {
    if seen < h.recordCount then
      if |rest| < 9 then Open(Some(h), b, seen, done, rest)
      else
        var n := BodyLength(rest);
        if n > MAX_RECORD_BYTES then Broken
        else if |rest| < n + 9 then Open(Some(h), b, seen, done, rest)
        else
          var more := ReadFrame(admin, h, b, rest[..n + 9]);
          if more.None? then Broken
          else ScanRecords(admin, h, more.value, seen + 1, done + rest[..n + 9], rest[n + 9..])
    else if |rest| < FOOTER_LENGTH then Open(Some(h), b, seen, done, rest)
    else if |rest| > FOOTER_LENGTH || !FooterAccepted(done, rest) then Broken
    else Closed(h, b, seen)
  }

  function Scan(admin: (Bytes, Bytes) -> bool, clusterId: Bytes, bytes: Bytes): Progress {
    if |bytes| < HEADER_LENGTH then Open(None, BLANK, 0, [], bytes)
    else
      var h := ParseHeader(bytes[..HEADER_LENGTH], clusterId);
      if h.None? then Broken
      else ScanRecords(admin, h.value, BLANK, 0, bytes[..HEADER_LENGTH], bytes[HEADER_LENGTH..])
  }

  /** What the incremental reader finally answers. */
  function Outcome(clusterId: Bytes, p: Progress): Option<Snapshot> {
    if p.Closed? then Conclude(clusterId, p.closedHeader, p.closedBuild, p.closedSeen) else None
  }

  // ------------------------------------------------------------------
  // Reading on is reading from the start
  // ------------------------------------------------------------------

  /** Continue an open progress with more bytes. */
  function Continue(admin: (Bytes, Bytes) -> bool, clusterId: Bytes, p: Progress, more: Bytes): Progress
    requires p.Open? && (p.header.Some? ==> |p.done| >= HEADER_LENGTH)
  {
    if p.header.None? then Scan(admin, clusterId, p.pending + more)
    else ScanRecords(admin, p.header.value, p.build, p.seen, p.done, p.pending + more)
  }

  lemma SameLength(bs: Bytes, more: Bytes)
    requires |bs| >= 9
    ensures BodyLength(bs + more) == BodyLength(bs)
  {
    U32OfPrefix(bs, more);
  }

  lemma U32OfPrefix(bs: Bytes, more: Bytes)
    requires |bs| >= 4
    ensures GetU32(bs + more).value.0 == GetU32(bs).value.0
  {
    assert (bs + more)[..4] == bs[..4];
  }

  lemma {:induction false} RecordsResume(admin: (Bytes, Bytes) -> bool, h: Header, b: Build, seen: nat, done: Bytes, rest: Bytes, more: Bytes)
    requires |done| >= HEADER_LENGTH
    ensures var p := ScanRecords(admin, h, b, seen, done, rest);
            var q := ScanRecords(admin, h, b, seen, done, rest + more);
            (p.Broken? ==> q.Broken?) &&
            (p.Closed? && more != [] ==> q.Broken?) &&
            (p.Open? ==> p.header == Some(h) && |p.done| >= HEADER_LENGTH && p.done + p.pending == done + rest &&
                         q == ScanRecords(admin, h, p.build, p.seen, p.done, p.pending + more))
    decreases |rest|
  {
    hide ReadFrame, BodyLength, FooterAccepted;
    if more == [] {
      assert rest + more == rest;
    }
    if seen < h.recordCount && |rest| >= 9 {
      SameLength(rest, more);
      var n := BodyLength(rest);
      if n <= MAX_RECORD_BYTES && n + 9 <= |rest| {
        assert (rest + more)[..n + 9] == rest[..n + 9];
        var next := ReadFrame(admin, h, b, rest[..n + 9]);
        if next.Some? {
          assert (rest + more)[n + 9..] == rest[n + 9..] + more;
          RecordsResume(admin, h, next.value, seen + 1, done + rest[..n + 9], rest[n + 9..], more);
          assert done + rest[..n + 9] + rest[n + 9..] == done + rest;
        }
      }
    }
  }

  /** Feeding a file in two parts leaves the reader where feeding it whole does; a broken reader
      stays broken and a finished one takes nothing more. */
  lemma ScanResumes(admin: (Bytes, Bytes) -> bool, clusterId: Bytes, bytes: Bytes, more: Bytes)
    ensures var p := Scan(admin, clusterId, bytes);
            var q := Scan(admin, clusterId, bytes + more);
            (p.Broken? ==> q.Broken?) &&
            (p.Closed? && more != [] ==> q.Broken?) &&
            (p.Open? ==> (p.header.Some? ==> |p.done| >= HEADER_LENGTH) && (p.header.None? ==> p.done == []) &&
                         p.done + p.pending == bytes && q == Continue(admin, clusterId, p, more))
  {
    hide ParseHeader, ScanRecords;
    if |bytes| >= HEADER_LENGTH {
      assert (bytes + more)[..HEADER_LENGTH] == bytes[..HEADER_LENGTH];
      assert (bytes + more)[HEADER_LENGTH..] == bytes[HEADER_LENGTH..] + more;
      var h := ParseHeader(bytes[..HEADER_LENGTH], clusterId);
      if h.Some? {
        RecordsResume(admin, h.value, BLANK, 0, bytes[..HEADER_LENGTH], bytes[HEADER_LENGTH..], more);
      }
    }
  }

  // ------------------------------------------------------------------
  // The two decoders agree
  // ------------------------------------------------------------------

  lemma {:induction false} ShortNeverCloses(admin: (Bytes, Bytes) -> bool, h: Header, b: Build, seen: nat, done: Bytes, rest: Bytes)
    requires |done| >= HEADER_LENGTH && |rest| < FOOTER_LENGTH
    ensures !ScanRecords(admin, h, b, seen, done, rest).Closed?
    decreases |rest|
  {
    hide ReadFrame, BodyLength, FooterAccepted;
    if seen < h.recordCount && |rest| >= 9 {
      var n := BodyLength(rest);
      if n <= MAX_RECORD_BYTES && n + 9 <= |rest| {
        var next := ReadFrame(admin, h, b, rest[..n + 9]);
        if next.Some? {
          ShortNeverCloses(admin, h, next.value, seen + 1, done + rest[..n + 9], rest[n + 9..]);
        }
      }
    }
  }

  /** No record the rebuild accepts is longer than the incremental reader's buffer. */
  lemma FrameBounded(admin: (Bytes, Bytes) -> bool, h: Header, b: Build, record: Bytes)
    requires |record| >= 9 && ReadFrame(admin, h, b, record).Some?
    ensures |record| <= MAX_RECORD_BYTES + 9
  {
    hide AddRecord;
  }

  /** What the records between header and footer amount to. */
  function Accepted(admin: (Bytes, Bytes) -> bool, h: Header, b: Build, seen: nat, done: Bytes, rest: Bytes): Option<Build>
    requires |done| >= HEADER_LENGTH
  {
    if |rest| < FOOTER_LENGTH then None
    else
      var end := |rest| - FOOTER_LENGTH;
      var (build, count) :- Records(admin, h, b, seen, rest[..end]);
      if count == h.recordCount && FooterAccepted(done + rest[..end], rest[end..]) then Some(build) else None
  }

  lemma {:induction false} ScanIsRecords(admin: (Bytes, Bytes) -> bool, h: Header, b: Build, seen: nat, done: Bytes, rest: Bytes)
    requires |done| >= HEADER_LENGTH && seen <= h.recordCount
    ensures var p := ScanRecords(admin, h, b, seen, done, rest);
            var a := Accepted(admin, h, b, seen, done, rest);
            (p.Closed? <==> a.Some?) && (p.Closed? ==> p == Closed(h, a.value, h.recordCount))
    decreases |rest|
  {
    hide ReadFrame, BodyLength, FooterAccepted;
    if |rest| < FOOTER_LENGTH {
      ShortNeverCloses(admin, h, b, seen, done, rest);
    } else if seen == h.recordCount {
      if |rest| == FOOTER_LENGTH {
        assert rest[..0] == [] && rest[0..] == rest && done + [] == done;
      }
    } else if |rest| >= 9 {
      var end := |rest| - FOOTER_LENGTH;
      var n := BodyLength(rest) + 9;
      if n <= |rest| {
        var next := ReadFrame(admin, h, b, rest[..n]);
        if end < n && next.Some? {
          ShortNeverCloses(admin, h, next.value, seen + 1, done + rest[..n], rest[n..]);
        }
        if n <= end && next.Some? {
          FrameBounded(admin, h, b, rest[..n]);
          StepAgrees(admin, h, b, seen, done, rest, n);
          ScanIsRecords(admin, h, next.value, seen + 1, done + rest[..n], rest[n..]);
        }
      }
      RegionLength(rest, end);
    }
  }

  /** The region before the footer starts with the same record. */
  lemma RegionLength(rest: Bytes, end: nat)
    requires end <= |rest|
    ensures end >= 9 ==> BodyLength(rest[..end]) == BodyLength(rest)
    ensures forall n | 0 <= n <= end :: rest[..end][..n] == rest[..n]
  {
    if end >= 9 {
      assert rest == rest[..end] + rest[end..];
      SameLength(rest[..end], rest[end..]);
    }
  }

  lemma StepAgrees(admin: (Bytes, Bytes) -> bool, h: Header, b: Build, seen: nat, done: Bytes, rest: Bytes, n: nat)
    requires |done| >= HEADER_LENGTH && seen < h.recordCount && 9 <= n <= |rest| - FOOTER_LENGTH && n == BodyLength(rest) + 9
    requires ReadFrame(admin, h, b, rest[..n]).Some?
    ensures Accepted(admin, h, b, seen, done, rest) ==
            Accepted(admin, h, ReadFrame(admin, h, b, rest[..n]).value, seen + 1, done + rest[..n], rest[n..])
  {
    hide ReadFrame, BodyLength, FooterAccepted;
    var end := |rest| - FOOTER_LENGTH;
    RegionLength(rest, end);
    assert rest[..end][n..] == rest[n..][..end - n];
    assert rest[n..][end - n..] == rest[end..];
    assert done + rest[..n] + rest[n..][..end - n] == done + rest[..end];
  }

  /** The incremental reader accepts exactly the files the whole-file decoder accepts, and rebuilds
      the same snapshot. */
  lemma ScanIsDecode(admin: (Bytes, Bytes) -> bool, clusterId: Bytes, bytes: Bytes, maxBytes: nat)
    requires |bytes| <= maxBytes
    ensures Outcome(clusterId, Scan(admin, clusterId, bytes)) == Decode(admin, bytes, clusterId, maxBytes)
  {
    hide ParseHeader, ScanRecords, FooterAccepted, Records;
    if |bytes| >= HEADER_LENGTH {
      var h := ParseHeader(bytes[..HEADER_LENGTH], clusterId);
      if h.Some? {
        var head, rest := bytes[..HEADER_LENGTH], bytes[HEADER_LENGTH..];
        ScanIsRecords(admin, h.value, BLANK, 0, head, rest);
        if |bytes| >= HEADER_LENGTH + FOOTER_LENGTH {
          var end := |bytes| - FOOTER_LENGTH;
          assert rest[..|rest| - FOOTER_LENGTH] == bytes[HEADER_LENGTH..end];
          assert head + bytes[HEADER_LENGTH..end] == bytes[..end];
          assert rest[|rest| - FOOTER_LENGTH..] == bytes[end..];
        }
      }
    }
  }
}
