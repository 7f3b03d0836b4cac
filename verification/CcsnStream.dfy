/** The incremental CCSN decoder as an object: it keeps at most one record's bytes, the state being
    rebuilt and two running checksums, and is fed a file piece by piece. */
module CcsnStream {
  import opened Prelude
  import opened Codec
  import opened CcsnRecords
  import opened CcsnDecode
  import Crc

  /** Where a reader with these fields stands, once it has used up what it can. */
  ghost function From(admin: (Bytes, Bytes) -> bool, clusterId: Bytes, header: Option<Header>, b: Build, seen: nat,
                      done: Bytes, pending: Bytes): Progress
    requires header.Some? ==> |done| >= HEADER_LENGTH
  {
    if header.None? then Scan(admin, clusterId, pending)
    else ScanRecords(admin, header.value, b, seen, done, pending)
  }

  lemma CrcGrows(done: Bytes, piece: Bytes)
    requires |done| >= HEADER_LENGTH
    ensures Crc.Update(Crc.START, done + piece) == Crc.Update(Crc.Update(Crc.START, done), piece)
    ensures Crc.Update(Crc.START, (done + piece)[HEADER_LENGTH..]) ==
            Crc.Update(Crc.Update(Crc.START, done[HEADER_LENGTH..]), piece)
  {
    hide Crc.Update;
    Crc.UpdateConcat(Crc.START, done, piece);
    Crc.UpdateConcat(Crc.START, done[HEADER_LENGTH..], piece);
    assert (done + piece)[HEADER_LENGTH..] == done[HEADER_LENGTH..] + piece;
  }

  /** The file checksum fed in three parts. */
  lemma BlankedCrc(done: Bytes, footer: Bytes)
    requires |footer| == FOOTER_LENGTH
    ensures Crc.Update(Crc.START, Blanked(done, footer)) ==
            Crc.Update(Crc.Update(Crc.Update(Crc.Update(Crc.START, done), footer[..12]), ZERO4), footer[16..])
  {
    hide Crc.Update;
    Crc.UpdateConcat(Crc.START, done, footer[..12]);
    Crc.UpdateConcat(Crc.START, done + footer[..12], ZERO4);
    Crc.UpdateConcat(Crc.START, done + footer[..12] + ZERO4, footer[16..]);
  }

  class StreamDecoder {
    const admin: (Bytes, Bytes) -> bool
    const clusterId: Bytes
    const maxBytes: nat
    var received: nat
    var pending: Bytes
    var header: Option<Header>
    var seen: nat
    var complete: bool
    var recordsCrc: u32
    var fileCrc: u32
    var build: Build
    ghost var fed: Bytes
    ghost var done: Bytes

    /** The running checksums cover what has been used up. */
    ghost predicate Summed()
      reads this
    {
      fileCrc == Crc.Update(Crc.START, done) &&
      (header.None? ==> done == [] && recordsCrc == Crc.START && build == BLANK && seen == 0) &&
      (header.Some? ==>
         |done| >= HEADER_LENGTH && recordsCrc == Crc.Update(Crc.START, done[HEADER_LENGTH..]))
    }

    /** The fields are the reading of everything fed so far. */
    ghost predicate Valid()
      reads this
    {
      received == |fed| <= maxBytes &&
      if complete then
        pending == [] && header.Some? && Scan(admin, clusterId, fed) == Closed(header.value, build, seen)
      else Summed() && Scan(admin, clusterId, fed) == Open(header, build, seen, done, pending)
    }

    constructor (admin: (Bytes, Bytes) -> bool, clusterId: Bytes, maxBytes: nat)
      ensures Valid() && fed == [] && !complete
      ensures this.admin == admin && this.clusterId == clusterId && this.maxBytes == maxBytes
    {
      this.admin, this.clusterId, this.maxBytes := admin, clusterId, maxBytes;
      received, pending, header, seen, complete := 0, [], None, 0, false;
      recordsCrc, fileCrc, build := Crc.START, Crc.START, BLANK;
      fed, done := [], [];
    }

    /** Take the next piece of the file.  An error means no continuation of it is acceptable. */
    method Push(piece: Bytes) returns (ok: bool)
      requires Valid()
      modifies this
      ensures ok ==> Valid() && fed == old(fed) + piece
      ensures !ok ==>
                old(complete) || |old(fed) + piece| > maxBytes || Scan(admin, clusterId, old(fed) + piece).Broken?
    {
      hide Scan, ScanRecords, From, Crc.Update;
      if complete {
        return false;
      }
      if received + |piece| > maxBytes {
        return false;
      }
      FromHere(admin, clusterId, fed, Open(header, build, seen, done, pending), piece);
      received := received + |piece|;
      pending := pending + piece;
      fed := fed + piece;
      ok := Consume();
    }

    /** Use up whole parts of what is pending. */
    method Consume() returns (ok: bool)
      requires !complete && received == |fed| <= maxBytes && Summed() && |done| + |pending| == |fed|
      requires From(admin, clusterId, header, build, seen, done, pending) == Scan(admin, clusterId, fed)
      modifies this
      ensures fed == old(fed) && (ok <==> !Scan(admin, clusterId, fed).Broken?)
      ensures ok ==> Valid()
    {
      hide Scan, ScanRecords, Crc.Update, ParseHeader, ReadFrame, BodyLength, FooterAccepted;
      while true
        invariant fed == old(fed) && !complete && received == |fed| <= maxBytes && Summed() && |done| + |pending| == |fed|
        invariant From(admin, clusterId, header, build, seen, done, pending) == Scan(admin, clusterId, fed)
        decreases |pending|
      {
        if header.None? {
          HeaderStep(admin, clusterId, pending);
          if |pending| < HEADER_LENGTH {
            return true;
          }
          var good := TakeHeader();
          if !good {
            return false;
          }
        } else if seen < header.value.recordCount {
          RecordStep(admin, header.value, build, seen, done, pending);
          if |pending| < 9 {
            return true;
          }
          var n := BodyLength(pending);
          if n > MAX_RECORD_BYTES {
            return false;
          }
          if |pending| < n + 9 {
            return true;
          }
          var good := TakeRecord(n + 9);
          if !good {
            return false;
          }
        } else {
          FooterStep(admin, header.value, build, seen, done, pending);
          if |pending| < FOOTER_LENGTH {
            return true;
          }
          ok := TakeFooter();
          return ok;
        }
      }
    }

    method TakeHeader() returns (ok: bool)
      requires header.None? && Summed() && |pending| >= HEADER_LENGTH
      modifies `header, `pending, `done, `fileCrc
      ensures ok <==> ParseHeader(old(pending)[..HEADER_LENGTH], clusterId).Some?
      ensures ok ==>
                Summed() && header == ParseHeader(old(pending)[..HEADER_LENGTH], clusterId) &&
                done == old(pending)[..HEADER_LENGTH] && pending == old(pending)[HEADER_LENGTH..]
    {
      hide ParseHeader, Crc.Update;
      var bytes := pending[..HEADER_LENGTH];
      pending := pending[HEADER_LENGTH..];
      var h := ParseHeader(bytes, clusterId);
      if h.None? {
        return false;
      }
      fileCrc := Crc.Update(fileCrc, bytes);
      done := bytes;
      assert done[HEADER_LENGTH..] == [];
      assert recordsCrc == Crc.Update(Crc.START, []) by { EmptyCrc(); }
      assert fileCrc == Crc.Update(Crc.START, done) by { EmptyCrc(); }
      header := h;
      return true;
    }

    method TakeRecord(n: nat) returns (ok: bool)
      requires header.Some? && Summed() && 9 <= n <= |pending|
      modifies `build, `pending, `done, `seen, `recordsCrc, `fileCrc
      ensures ok <==> ReadFrame(admin, header.value, old(build), old(pending)[..n]).Some?
      ensures ok ==>
                Summed() && build == ReadFrame(admin, header.value, old(build), old(pending)[..n]).value &&
                seen == old(seen) + 1 && done == old(done) + old(pending)[..n] && pending == old(pending)[n..]
    {
      hide ReadFrame, Crc.Update;
      var record := pending[..n];
      pending := pending[n..];
      var more := ReadFrame(admin, header.value, build, record);
      if more.None? {
        return false;
      }
      CrcGrows(done, record);
      build := more.value;
      recordsCrc := Crc.Update(recordsCrc, record);
      fileCrc := Crc.Update(fileCrc, record);
      done := done + record;
      seen := seen + 1;
      return true;
    }

    method TakeFooter() returns (ok: bool)
      requires header.Some? && Summed() && |pending| >= FOOTER_LENGTH && received == |done| + |pending|
      modifies `pending, `fileCrc, `complete
      ensures ok <==> |old(pending)| == FOOTER_LENGTH && FooterAccepted(done, old(pending))
      ensures ok ==> complete && pending == []
    {
      hide ParseFooter, Crc.Update;
      var footer := pending[..FOOTER_LENGTH];
      pending := pending[FOOTER_LENGTH..];
      assert |old(pending)| == FOOTER_LENGTH ==> footer == old(pending);
      var f := ParseFooter(footer);
      if f.None? || f.value.totalLength != received || Crc.Finish(recordsCrc) != f.value.recordsCrc {
        return false;
      }
      BlankedCrc(done, footer);
      fileCrc := Crc.Update(fileCrc, footer[..12]);
      fileCrc := Crc.Update(fileCrc, ZERO4);
      fileCrc := Crc.Update(fileCrc, footer[16..]);
      if Crc.Finish(fileCrc) != f.value.fileCrc {
        return false;
      }
      complete := true;
      return pending == [];
    }

    /** The snapshot, once the whole file has been read. */
    method Finish() returns (snapshot: Option<Snapshot>)
      requires Valid()
      ensures snapshot == Decode(admin, fed, clusterId, maxBytes)
    {
      ScanIsDecode(admin, clusterId, fed, maxBytes);
      hide Scan, Decode;
      if !complete {
        return None;
      }
      return Conclude(clusterId, header.value, build, seen);
    }
  }

  /** Reading on from an open reader. */
  lemma FromHere(admin: (Bytes, Bytes) -> bool, clusterId: Bytes, fed: Bytes, p: Progress, piece: Bytes)
    requires p.Open? && Scan(admin, clusterId, fed) == p
    ensures |p.done| + |p.pending| == |fed|
    ensures (p.header.Some? ==> |p.done| >= HEADER_LENGTH) &&
            From(admin, clusterId, p.header, p.build, p.seen, p.done, p.pending + piece) == Scan(admin, clusterId, fed + piece)
  {
    hide Scan, ScanRecords;
    ScanResumes(admin, clusterId, fed, piece);
  }

  lemma EmptyCrc()
    ensures forall state :: Crc.Update(state, []) == state
  {
  }

  // One unfolding of the reading at each kind of part.

  lemma HeaderStep(admin: (Bytes, Bytes) -> bool, clusterId: Bytes, pending: Bytes)
    ensures var p := Scan(admin, clusterId, pending);
            if |pending| < HEADER_LENGTH then p == Open(None, BLANK, 0, [], pending)
            else
              var h := ParseHeader(pending[..HEADER_LENGTH], clusterId);
              p == if h.None? then Broken
                   else ScanRecords(admin, h.value, BLANK, 0, pending[..HEADER_LENGTH], pending[HEADER_LENGTH..])
  {
    hide ScanRecords, ParseHeader;
  }

  lemma RecordStep(admin: (Bytes, Bytes) -> bool, h: Header, b: Build, seen: nat, done: Bytes, pending: Bytes)
    requires |done| >= HEADER_LENGTH && seen < h.recordCount
    ensures var p := ScanRecords(admin, h, b, seen, done, pending);
            if |pending| < 9 then p == Open(Some(h), b, seen, done, pending)
            else
              var n := BodyLength(pending);
              if n > MAX_RECORD_BYTES then p == Broken
              else if |pending| < n + 9 then p == Open(Some(h), b, seen, done, pending)
              else
                var more := ReadFrame(admin, h, b, pending[..n + 9]);
                p == if more.None? then Broken
                     else ScanRecords(admin, h, more.value, seen + 1, done + pending[..n + 9], pending[n + 9..])
  {
    hide ReadFrame, BodyLength;
  }

  lemma FooterStep(admin: (Bytes, Bytes) -> bool, h: Header, b: Build, seen: nat, done: Bytes, pending: Bytes)
    requires |done| >= HEADER_LENGTH && seen >= h.recordCount
    ensures var p := ScanRecords(admin, h, b, seen, done, pending);
            p == if |pending| < FOOTER_LENGTH then Open(Some(h), b, seen, done, pending)
                 else if |pending| == FOOTER_LENGTH && FooterAccepted(done, pending) then Closed(h, b, seen)
                 else Broken
  {
    hide FooterAccepted;
  }

  // ------------------------------------------------------------------
  // Any split of a file
  // ------------------------------------------------------------------

  function Flatten(pieces: seq<Bytes>): Bytes {
    if pieces == [] then [] else Flatten(pieces[..|pieces| - 1]) + pieces[|pieces| - 1]
  }

  lemma {:induction false} FlattenPrefix(pieces: seq<Bytes>, n: nat) returns (rest: Bytes)
    requires n <= |pieces|
    ensures Flatten(pieces) == Flatten(pieces[..n]) + rest
    ensures n < |pieces| && (forall i | 0 <= i < |pieces| :: pieces[i] != []) ==> rest != []
    decreases |pieces|
  {
    if n == |pieces| {
      assert pieces[..n] == pieces;
      rest := [];
    } else {
      var last := |pieces| - 1;
      var more := FlattenPrefix(pieces[..last], n);
      assert pieces[..last][..n] == pieces[..n];
      rest := more + pieces[last];
      assert Flatten(pieces[..n]) + more + pieces[last] == Flatten(pieces[..n]) + rest;
    }
  }

  /** Whatever non-empty pieces a file arrives in, feeding them one by one gives exactly what the
      whole-file decoder gives for their concatenation. */
  method DecodePieces(admin: (Bytes, Bytes) -> bool, pieces: seq<Bytes>, clusterId: Bytes, maxBytes: nat)
    returns (snapshot: Option<Snapshot>)
    requires forall i | 0 <= i < |pieces| :: pieces[i] != []
    ensures snapshot == Decode(admin, Flatten(pieces), clusterId, maxBytes)
  {
    hide Scan, Decode;
    var decoder := new StreamDecoder(admin, clusterId, maxBytes);
    for i := 0 to |pieces|
      invariant fresh(decoder) && decoder.Valid() && decoder.fed == Flatten(pieces[..i])
      invariant decoder.admin == admin && decoder.clusterId == clusterId && decoder.maxBytes == maxBytes
    {
      assert pieces[..i + 1][..i] == pieces[..i];
      ghost var done := decoder.complete;
      var ok := decoder.Push(pieces[i]);
      if !ok {
        ghost var rest := FlattenPrefix(pieces, i + 1);
        ghost var tail := FlattenPrefix(pieces, i);
        Refuses(admin, clusterId, Flatten(pieces[..i]), tail, Flatten(pieces[..i + 1]), rest, maxBytes);
        return None;
      }
    }
    assert pieces[..|pieces|] == pieces;
    snapshot := decoder.Finish();
  }

  /** Once a piece is refused, the file is. */
  lemma Refuses(admin: (Bytes, Bytes) -> bool, clusterId: Bytes, before: Bytes, tail: Bytes, upTo: Bytes, rest: Bytes, maxBytes: nat)
    requires before + tail == upTo + rest && tail != []
    requires Scan(admin, clusterId, before).Closed? || |upTo| > maxBytes || Scan(admin, clusterId, upTo).Broken?
    ensures Decode(admin, before + tail, clusterId, maxBytes) == None
  {
    var bytes := before + tail;
    if |bytes| <= maxBytes {
      hide Scan, Decode;
      ScanResumes(admin, clusterId, before, tail);
      ScanResumes(admin, clusterId, upTo, rest);
      ScanIsDecode(admin, clusterId, bytes, maxBytes);
    }
  }
}
