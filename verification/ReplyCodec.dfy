/** The canonical wire form of replies, as cached by the retry table. */
module ReplyCodec {
  import opened Prelude
  import opened Codec
  import opened KvCodec

  function ErrorTag(e: KvError): byte {
    match e
    case StaleSequence => 1
    case SequenceConflict => 2
    case SessionExpired => 3
    case NotNumeric => 4
    case CasMismatch => 5
    case TooLarge => 6
    case InvalidInput => 7
    case StoreError => 8
    case DecodeError => 8
    case Busy => 9
  }

  function ErrorOf(tag: byte): Option<KvError> {
    match tag
    case 1 => Some(StaleSequence)
    case 2 => Some(SequenceConflict)
    case 3 => Some(SessionExpired)
    case 4 => Some(NotNumeric)
    case 5 => Some(CasMismatch)
    case 6 => Some(TooLarge)
    case 7 => Some(InvalidInput)
    case 9 => Some(Busy)
    case _ => None
  }

  predicate ShortItems(items: seq<(Bytes, Bytes)>) {
    forall i | 0 <= i < |items| :: Short(items[i].0) && Short(items[i].1)
  }

  function PutItems(items: seq<(Bytes, Bytes)>, rest: Bytes): (bs: Bytes)
    requires ShortItems(items)
    ensures |bs| >= |rest| + 8 * |items|
  {
    assert items != [] ==> Short(items[0].0) && Short(items[0].1);
    if items == [] then rest else PutBytes(items[0].0, PutBytes(items[0].1, PutItems(items[1..], rest)))
  }

  function GetItems(bs: Bytes, n: nat): Taken<seq<(Bytes, Bytes)>>
    decreases n
  {
    if n == 0 then Some(([], bs))
    else
      var (k, r0) :- GetBytes(bs);
      var (v, r1) :- GetBytes(r0);
      var (items, rest) :- GetItems(r1, n - 1);
      Some(([(k, v)] + items, rest))
  }

  /** Fields of a reply other than a batch reply fit their length prefixes. */
  predicate SingleFits(r: Reply) {
    match r
    case Value(v) => ShortOpt(v)
    case Scanned(items) => |items| <= U32_MAX && ShortItems(items)
    case Replies(_) => false
    case BatchError(_, _) => false
    case _ => true
  }

  /** What the encoder insists on. */
  predicate ReplyFits(r: Reply)
    decreases r, 0
  {
    match r
    case Replies(replies) =>
      |replies| <= U32_MAX &&
      forall i | 0 <= i < |replies| :: ReplyFits(replies[i]) && |EncodeReply(replies[i])| <= MAX_CODEC_BYTES
    case BatchError(_, _) => true
    case _ => SingleFits(r)
  }

  function PutSingle(r: Reply): (bs: Bytes)
    requires SingleFits(r)
    ensures bs != []
  {
    match r
    case Ok => PutU8(1, [])
    case Value(v) => PutU8(2, PutOptBytes(v, []))
    case Integer(n) => PutU8(3, PutU64(AsU64(n), []))
    case Swapped(b) => PutU8(4, PutU8(if b then 1 else 0, []))
    case Conditional(b) => PutU8(5, PutU8(if b then 1 else 0, []))
    case Scanned(items) => PutU8(6, PutU32(|items|, PutItems(items, [])))
    case Error(e) => PutU8(7, PutU8(ErrorTag(e), []))
  }

  function EncodeError(e: KvError): (bs: Bytes)
    ensures |bs| == 12
  {
    Seal(PutHeader(REPLY_MAGIC, SINGLE_VERSION, PutU8(7, PutU8(ErrorTag(e), []))))
  }

  function EncodeReply(r: Reply): (bs: Bytes)
    requires ReplyFits(r)
    decreases r, 1
  {
    match r
    case Replies(replies) =>
      Seal(PutHeader(REPLY_MAGIC, BATCH_VERSION, PutU8(7, PutU8(1, PutU32(|replies|, PutReplies(replies))))))
    case BatchError(index, e) =>
      Seal(PutHeader(REPLY_MAGIC, BATCH_VERSION, PutU8(7, PutU8(0, PutBatchError(index, e)))))
    case _ => Seal(PutHeader(REPLY_MAGIC, SINGLE_VERSION, PutSingle(r)))
  }

  function PutReplies(replies: seq<Reply>): (bs: Bytes)
    requires forall i | 0 <= i < |replies| :: ReplyFits(replies[i]) && |EncodeReply(replies[i])| <= MAX_CODEC_BYTES
    decreases replies, 0
  {
    if replies == [] then [] else PutBytes(EncodeReply(replies[0]), PutReplies(replies[1..]))
  }

  function GetFlag(bs: Bytes): Option<bool> {
    var (b, rest) :- GetU8(bs);
    if rest != [] || b > 1 then None else Some(b == 1)
  }

  function GetSingle(tag: byte, bs: Bytes): Option<Reply> {
    match tag
    case 1 => if bs == [] then Some(Ok) else None
    case 2 =>
      var (v, rest) :- GetOptBytes(bs);
      if rest == [] then Some(Value(v)) else None
    case 3 =>
      var (n, rest) :- GetU64(bs);
      if rest == [] then Some(Integer(AsI64(n))) else None
    case 4 => var b :- GetFlag(bs); Some(Swapped(b))
    case 5 => var b :- GetFlag(bs); Some(Conditional(b))
    case 6 =>
      var (n, r0) :- GetU32(bs);
      if n > MAX_SCAN || n > |r0| / 8 then None
      else
        var (items, rest) :- GetItems(r0, n);
        if rest == [] then Some(Scanned(items)) else None
    case 7 =>
      var (t, rest) :- GetU8(bs);
      var e :- ErrorOf(t);
      if rest == [] then Some(Error(e)) else None
    case _ => None
  }

  function DecodeReply(bs: Bytes): Option<Reply>
    decreases |bs|, 1
  {
    var body :- Unseal(bs);
    var (magic, r0) :- GetU32(body);
    var (version, r1) :- GetU16(r0);
    if magic != REPLY_MAGIC || (version != SINGLE_VERSION && version != BATCH_VERSION) then None
    else
      var (tag, r2) :- GetU8(r1);
      if version == SINGLE_VERSION then GetSingle(tag, r2)
      else if tag != 7 then None
      else
        var (kind, r3) :- GetU8(r2);
        if kind == 1 then
          var (count, r4) :- GetU32(r3);
          if count == 0 || count > MAX_BATCH_COMMANDS || count > |r4| / 4 then None
          else
            var replies :- GetReplies(r4, count);
            Some(Replies(replies))
        else if kind == 0 then GetBatchError(r3)
        else None
  }

  function GetBatchError(bs: Bytes): Option<Reply>
    decreases |bs|, 0
  {
    var (flag, r0) :- GetU8(bs);
    var (index, r1) :- GetU32(r0);
    if flag > 1 || (flag == 0 && index != 0) || (flag == 1 && index >= MAX_BATCH_COMMANDS) then None
    else
      var (child, rest) :- GetBytes(r1);
      var inner :- DecodeReply(child);
      if rest != [] || !inner.Error? then None
      else Some(BatchError(if flag == 1 then Some(index) else None, inner.error))
  }

  function GetReplies(bs: Bytes, count: nat): Option<seq<Reply>>
    decreases |bs|, 0, count
  {
    if count == 0 then (if bs == [] then Some([]) else None)
    else
      var (child, rest) :- GetBytes(bs);
      var r :- DecodeReply(child);
      if r.Replies? || r.BatchError? then None
      else
        var rs :- GetReplies(rest, count - 1);
        Some([r] + rs)
  }

  // ------------------------------------------------------------------
  // Round trip
  // ------------------------------------------------------------------

  predicate EncodableError(e: KvError) {
    !e.StoreError? && !e.DecodeError?
  }

  /** The replies a cached encoding gives back: no infrastructure error, and counts within bounds. */
  predicate Cacheable(r: Reply) {
    ReplyFits(r) &&
    match r
    case Replies(replies) =>
      0 < |replies| <= MAX_BATCH_COMMANDS &&
      forall i | 0 <= i < |replies| :: SingleCacheable(replies[i])
    case BatchError(index, e) => EncodableError(e) && (index.Some? ==> index.value < MAX_BATCH_COMMANDS)
    case _ => SingleCacheable(r)
  }

  predicate SingleCacheable(r: Reply) {
    !r.Replies? && !r.BatchError? && (r.Error? ==> EncodableError(r.error)) && (r.Scanned? ==> |r.items| <= MAX_SCAN)
  }

  lemma {:induction false} ItemsRoundTrip(items: seq<(Bytes, Bytes)>, rest: Bytes)
    requires ShortItems(items)
    ensures GetItems(PutItems(items, rest), |items|) == Some((items, rest))
    decreases |items|
  {
    hide PutBytes, GetBytes;
    if items != [] {
      ItemsRoundTrip(items[1..], rest);
      assert [items[0]] + items[1..] == items;
    }
  }

  lemma SignedRoundTrip(v: i64)
    ensures AsI64(AsU64(v)) == v
  {
  }

  lemma SingleReplyFields(r: Reply)
    requires SingleFits(r) && SingleCacheable(r)
    ensures var bs := PutSingle(r); GetSingle(bs[0], bs[1..]) == Some(r)
  {
    hide PutBytes, GetBytes, PutU32, GetU32, PutU64, GetU64, PutOptBytes, GetOptBytes, PutItems, GetItems, AsU64, AsI64;
    match r
    case Scanned(items) => ItemsRoundTrip(items, []);
    case Integer(n) => SignedRoundTrip(n);
    case _ =>
  }

  lemma SingleReplyRoundTrip(r: Reply)
    requires SingleFits(r) && SingleCacheable(r)
    ensures DecodeReply(EncodeReply(r)) == Some(r)
  {
    hide Seal, Unseal, PutU16, GetU16, PutU32, GetU32, PutSingle, GetSingle, SingleCacheable;
    SingleReplyFields(r);
    var fields := PutSingle(r);
    assert GetU8(fields) == Some((fields[0], fields[1..]));
    assert EncodeReply(r) == Seal(PutU32(REPLY_MAGIC, PutU16(SINGLE_VERSION, fields)));
  }

  lemma {:induction false} RepliesRoundTrip(replies: seq<Reply>)
    requires forall i | 0 <= i < |replies| :: ReplyFits(replies[i]) && |EncodeReply(replies[i])| <= MAX_CODEC_BYTES
    requires forall i | 0 <= i < |replies| :: SingleCacheable(replies[i])
    ensures |PutReplies(replies)| >= 4 * |replies|
    ensures GetReplies(PutReplies(replies), |replies|) == Some(replies)
    decreases |replies|
  {
    hide PutBytes, GetBytes, EncodeReply, DecodeReply, SingleFits;
    if replies != [] {
      SingleReplyRoundTrip(replies[0]);
      RepliesRoundTrip(replies[1..]);
      assert [replies[0]] + replies[1..] == replies;
    }
  }

  function PutBatchError(index: Option<u32>, e: KvError): Bytes {
    PutU8(if index.Some? then 1 else 0, PutU32(if index.Some? then index.value else 0, PutBytes(EncodeError(e), [])))
  }

  lemma ErrorRoundTrip(e: KvError)
    requires EncodableError(e)
    ensures DecodeReply(EncodeError(e)) == Some(Error(e))
  {
    hide Seal, PutHeader, DecodeReply;
    SingleReplyRoundTrip(Error(e));
  }

  lemma BatchErrorFields(index: Option<u32>, e: KvError)
    requires EncodableError(e) && (index.Some? ==> index.value < MAX_BATCH_COMMANDS)
    ensures GetBatchError(PutBatchError(index, e)) == Some(BatchError(index, e))
  {
    hide PutU32, GetU32, PutBytes, GetBytes, EncodeError, DecodeReply;
    ErrorRoundTrip(e);
  }

  lemma BatchErrorRoundTrip(index: Option<u32>, e: KvError)
    requires EncodableError(e) && (index.Some? ==> index.value < MAX_BATCH_COMMANDS)
    ensures DecodeReply(EncodeReply(BatchError(index, e))) == Some(BatchError(index, e))
  {
    hide Seal, Unseal, PutU16, GetU16, PutU32, GetU32, PutBatchError, GetBatchError, GetReplies, GetSingle;
    BatchErrorFields(index, e);
  }

  /** A cached reply reads back as the reply that was cached. */
  lemma ReplyRoundTrip(r: Reply)
    requires Cacheable(r)
    ensures DecodeReply(EncodeReply(r)) == Some(r)
  {
    hide Seal, Unseal, PutU16, GetU16, PutU32, GetU32, PutReplies, GetReplies, PutSingle, GetSingle, GetBatchError, SingleCacheable;
    match r
    case Replies(replies) => RepliesRoundTrip(replies);
    case BatchError(index, e) => BatchErrorRoundTrip(index, e);
    case _ => SingleReplyRoundTrip(r);
  }

  // ------------------------------------------------------------------
  // The reply codec is canonical
  // ------------------------------------------------------------------

  lemma {:induction false} ItemsCanonical(bs: Bytes, n: nat)
    requires GetItems(bs, n).Some?
    ensures var (items, rest) := GetItems(bs, n).value;
            |items| == n && ShortItems(items) && PutItems(items, rest) == bs
    decreases n
  {
    hide GetBytes, PutBytes;
    if n > 0 {
      BytesCanonical(bs);
      var r0 := GetBytes(bs).value.1;
      BytesCanonical(r0);
      var r1 := GetBytes(r0).value.1;
      ItemsCanonical(r1, n - 1);
      var items := GetItems(bs, n).value.0;
      assert items[1..] == GetItems(r1, n - 1).value.0;
    }
  }

  lemma SingleReplyCanonical(tag: byte, bs: Bytes)
    requires GetSingle(tag, bs).Some?
    ensures var r := GetSingle(tag, bs).value;
            SingleFits(r) && SingleCacheable(r) && PutSingle(r) == PutU8(tag, bs)
  {
    hide GetBytes, PutBytes, GetU32, PutU32, GetU64, PutU64, GetOptBytes, PutOptBytes, GetItems, PutItems, AsU64, AsI64, ShortItems;
    if tag == 2 {
      OptBytesCanonical(bs);
    } else if tag == 3 {
      U64Canonical(bs);
      SignedCanonical(GetU64(bs).value.0);
    } else if tag == 6 {
      U32Canonical(bs);
      ItemsCanonical(GetU32(bs).value.1, GetU32(bs).value.0);
    }
  }

  /** Accepted bytes are the encoding of what they decode to, and that is a cacheable reply. */
  lemma {:induction false} ReplyCanonical(bs: Bytes)
    requires DecodeReply(bs).Some?
    ensures Cacheable(DecodeReply(bs).value) && EncodeReply(DecodeReply(bs).value) == bs
    decreases |bs|, 1
  {
    hide Seal, Unseal, GetU16, PutU16, GetU32, PutU32, GetSingle, PutSingle, GetReplies, PutReplies, GetBatchError, PutBatchError,
         SingleFits, SingleCacheable;
    UnsealCanonical(bs);
    var body := Unseal(bs).value;
    var (_, r0) := GetU32(body).value;
    var (version, r1) := GetU16(r0).value;
    var (tag, r2) := GetU8(r1).value;
    U32Canonical(body);
    U16Canonical(r0);
    if version == SINGLE_VERSION {
      SingleReplyCanonical(tag, r2);
      SingleIsReply(GetSingle(tag, r2).value);
    } else {
      var (kind, r3) := GetU8(r2).value;
      if kind == 1 {
        var (count, r4) := GetU32(r3).value;
        U32Canonical(r3);
        RepliesCanonical(r4, count);
      } else {
        BatchErrorCanonical(r3);
      }
    }
  }

  lemma SingleIsReply(r: Reply)
    requires SingleFits(r) && SingleCacheable(r)
    ensures Cacheable(r) && EncodeReply(r) == Seal(PutHeader(REPLY_MAGIC, SINGLE_VERSION, PutSingle(r)))
  {
    hide Seal, PutHeader, PutSingle;
  }

  lemma {:induction false} RepliesCanonical(bs: Bytes, count: nat)
    requires GetReplies(bs, count).Some?
    ensures var rs := GetReplies(bs, count).value;
            |rs| == count &&
            (forall i | 0 <= i < |rs| :: ReplyFits(rs[i]) && SingleCacheable(rs[i]) && |EncodeReply(rs[i])| <= MAX_CODEC_BYTES) &&
            PutReplies(rs) == bs
    decreases |bs|, 0, count
  {
    hide GetBytes, PutBytes, DecodeReply, EncodeReply, SingleFits;
    if count > 0 {
      BytesCanonical(bs);
      var (child, rest) := GetBytes(bs).value;
      ReplyCanonical(child);
      RepliesCanonical(rest, count - 1);
      var rs := GetReplies(bs, count).value;
      assert rs[1..] == GetReplies(rest, count - 1).value;
    }
  }

  lemma {:induction false} BatchErrorCanonical(bs: Bytes)
    requires GetBatchError(bs).Some?
    ensures var r := GetBatchError(bs).value;
            r.BatchError? && Cacheable(r) && PutBatchError(r.failedIndex, r.error) == bs
    decreases |bs|, 0
  {
    hide GetBytes, PutBytes, GetU32, PutU32, DecodeReply, Seal;
    var (flag, r0) := GetU8(bs).value;
    var (index, r1) := GetU32(r0).value;
    U32Canonical(r0);
    BytesCanonical(r1);
    var child := GetBytes(r1).value.0;
    ReplyCanonical(child);
    assert child == EncodeError(DecodeReply(child).value.error);
  }

  /** The reply codec is a bijection between cacheable replies and accepted byte strings. */
  lemma ReplyCodecExact(bs: Bytes, r: Reply)
    ensures DecodeReply(bs) == Some(r) <==> Cacheable(r) && EncodeReply(r) == bs
  {
    hide DecodeReply, EncodeReply, ReplyFits;
    if Cacheable(r) && EncodeReply(r) == bs {
      ReplyRoundTrip(r);
    }
    if DecodeReply(bs) == Some(r) {
      ReplyCanonical(bs);
    }
  }

  /** Exactly when a reply the encoder takes can be read back: no store or decode error anywhere in it,
      and every count within the decoder's bounds. */
  lemma ReadsBackIff(r: Reply)
    requires ReplyFits(r)
    ensures DecodeReply(EncodeReply(r)) == Some(r) <==> Cacheable(r)
  {
    hide DecodeReply, EncodeReply, ReplyFits, Cacheable;
    ReplyCodecExact(EncodeReply(r), r);
  }

  /** An infrastructure error cannot be read back from the cache. */
  lemma InfrastructureErrorsAreLost(e: KvError)
    requires !EncodableError(e)
    ensures DecodeReply(EncodeReply(Error(e))) == None
  {
    hide Seal, Unseal, PutU16, GetU16, PutU32, GetU32;
    assert EncodeReply(Error(e)) == Seal(PutU32(REPLY_MAGIC, PutU16(SINGLE_VERSION, PutU8(7, PutU8(8, [])))));
  }
}
