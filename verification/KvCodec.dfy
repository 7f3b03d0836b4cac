/** Key/value commands and replies, and their canonical wire forms. */
module KvCodec {
  import opened Prelude
  import opened Codec

  datatype SetCondition = Nx | Xx

  datatype Command =
    | Batch(commands: seq<Command>)
    | Set(key: Bytes, value: Bytes, ttl: Option<u64>)
    | ConditionalSet(key: Bytes, value: Bytes, ttl: Option<u64>, condition: SetCondition)
    | Del(key: Bytes)
    | Cas(key: Bytes, expected: Option<Bytes>, replacement: Option<Bytes>)
    | Incr(key: Bytes, delta: i64)
    | Append(key: Bytes, value: Bytes)
    | GetSet(key: Bytes, value: Bytes)
    | GetDel(key: Bytes)
    | Expire(key: Bytes, lifetime: u64)
    | ExpireAt(key: Bytes, at: u64)
    | Ttl(key: Bytes)
    | Persist(key: Bytes)
    | PurgeExpired(upTo: u64)
    | ExpireSessions(upTo: u64)
    | Get(key: Bytes)
    | Scan(start: Option<Bytes>, end: Option<Bytes>, limit: nat)
    | Ping

  datatype KvError =
    | StoreError | DecodeError | StaleSequence | SequenceConflict | SessionExpired
    | NotNumeric | CasMismatch | Busy | TooLarge | InvalidInput

  datatype Reply =
    | Replies(replies: seq<Reply>)
    | BatchError(failedIndex: Option<u32>, error: KvError)
    | Ok
    | Value(found: Option<Bytes>)
    | Integer(n: i64)
    | Swapped(success: bool)
    | Conditional(success: bool)
    | Scanned(items: seq<(Bytes, Bytes)>)
    | Error(error: KvError)

  const KV_MAGIC: u32 := 0x564b_4343
  const REPLY_MAGIC: u32 := 0x524b_4343
  const SINGLE_VERSION: u16 := 1
  const BATCH_VERSION: u16 := 3
  const MAX_BATCH_COMMANDS: nat := 65_536
  const MAX_SCAN: nat := 4_096

  predicate Short(b: Bytes) {
    |b| <= MAX_CODEC_BYTES
  }

  predicate ShortOpt(b: Option<Bytes>) {
    b.Some? ==> Short(b.value)
  }

  // ------------------------------------------------------------------
  // Commands
  // ------------------------------------------------------------------

  /** Every byte string fits its length prefix, children included: what the encoder insists on. */
  predicate Fits(c: Command)
    decreases c, 0
  {
    match c
    case Batch(commands) =>
      |commands| <= U32_MAX && forall i | 0 <= i < |commands| :: Fits(commands[i]) && |EncodeCommand(commands[i])| <= MAX_CODEC_BYTES
    case _ => FieldsFit(c)
  }

  predicate FieldsFit(c: Command) {
    match c
    case Batch(_) => false
    case Set(k, v, _) => Short(k) && Short(v)
    case ConditionalSet(k, v, _, _) => Short(k) && Short(v)
    case Cas(k, e, v) => Short(k) && ShortOpt(e) && ShortOpt(v)
    case Append(k, v) => Short(k) && Short(v)
    case GetSet(k, v) => Short(k) && Short(v)
    case Scan(s, e, _) => ShortOpt(s) && ShortOpt(e)
    case PurgeExpired(_) => true
    case ExpireSessions(_) => true
    case Ping => true
    case _ => Short(c.key)
  }

  /** Tag and fields of one ordinary command. */
  function PutFields(c: Command): Bytes
    requires !c.Batch? && FieldsFit(c)
  {
    match c
    case Set(k, v, ttl) => PutU8(1, PutBytes(k, PutBytes(v, PutOptU64(ttl, []))))
    case ConditionalSet(k, v, ttl, cond) =>
      PutU8(17, PutBytes(k, PutBytes(v, PutOptU64(ttl, PutU8(if cond.Nx? then 1 else 2, [])))))
    case Del(k) => PutU8(2, PutBytes(k, []))
    case Cas(k, e, v) => PutU8(3, PutBytes(k, PutOptBytes(e, PutOptBytes(v, []))))
    case Incr(k, delta) => PutU8(4, PutBytes(k, PutU64(AsU64(delta), [])))
    case Append(k, v) => PutU8(12, PutBytes(k, PutBytes(v, [])))
    case GetSet(k, v) => PutU8(13, PutBytes(k, PutBytes(v, [])))
    case GetDel(k) => PutU8(14, PutBytes(k, []))
    case Expire(k, ttl) => PutU8(5, PutBytes(k, PutU64(ttl, [])))
    case ExpireAt(k, at) => PutU8(15, PutBytes(k, PutU64(at, [])))
    case Ttl(k) => PutU8(16, PutBytes(k, []))
    case Persist(k) => PutU8(6, PutBytes(k, []))
    case PurgeExpired(t) => PutU8(7, PutU64(t, []))
    case ExpireSessions(t) => PutU8(8, PutU64(t, []))
    case Get(k) => PutU8(9, PutBytes(k, []))
    case Scan(s, e, limit) =>
      PutU8(10, PutOptBytes(s, PutOptBytes(e, PutU32(if limit <= U32_MAX then limit else U32_MAX, []))))
    case Ping => PutU8(11, [])
  }

  function EncodeCommand(c: Command): (bs: Bytes)
    requires Fits(c)
    decreases c, 1
  {
    match c
    case Batch(commands) =>
      PutHeader(KV_MAGIC, BATCH_VERSION, PutU8(18, PutU32(|commands|, PutChildren(commands))))
    case _ => PutHeader(KV_MAGIC, SINGLE_VERSION, PutFields(c))
  }

  function PutChildren(commands: seq<Command>): (bs: Bytes)
    requires forall i | 0 <= i < |commands| :: Fits(commands[i]) && |EncodeCommand(commands[i])| <= MAX_CODEC_BYTES
    decreases commands, 0
  {
    if commands == [] then []
    else PutBytes(EncodeCommand(commands[0]), PutChildren(commands[1..]))
  }

  /** One key and nothing more. */
  function GetKeyOnly(bs: Bytes): Option<Bytes> {
    var (k, rest) :- GetBytes(bs);
    if rest == [] then Some(k) else None
  }

  /** One key and one 64-bit value. */
  function GetKeyU64(bs: Bytes): Option<(Bytes, u64)> {
    var (k, r0) :- GetBytes(bs);
    var (n, rest) :- GetU64(r0);
    if rest == [] then Some((k, n)) else None
  }

  /** One key and one value. */
  function GetKeyValue(bs: Bytes): Option<(Bytes, Bytes)> {
    var (k, r0) :- GetBytes(bs);
    var (v, rest) :- GetBytes(r0);
    if rest == [] then Some((k, v)) else None
  }

  function GetTime(bs: Bytes): Option<u64> {
    var (n, rest) :- GetU64(bs);
    if rest == [] then Some(n) else None
  }

  function GetSetFields(bs: Bytes): Taken<(Bytes, Bytes, Option<u64>)> {
    var (k, r0) :- GetBytes(bs);
    var (v, r1) :- GetBytes(r0);
    var (ttl, rest) :- GetOptU64(r1);
    Some(((k, v, ttl), rest))
  }

  function GetCasFields(bs: Bytes): Option<Command> {
    var (k, r0) :- GetBytes(bs);
    var (e, r1) :- GetOptBytes(r0);
    var (v, rest) :- GetOptBytes(r1);
    if rest == [] then Some(Cas(k, e, v)) else None
  }

  function GetScanFields(bs: Bytes): Option<Command> {
    var (s, r0) :- GetOptBytes(bs);
    var (e, r1) :- GetOptBytes(r0);
    var (limit, rest) :- GetU32(r1);
    if rest == [] then Some(Scan(s, e, limit)) else None
  }

  /** Fields of one ordinary command, given its tag. */
  function GetFields(tag: byte, bs: Bytes): Option<Command> {
    match tag
    case 1 =>
      var ((k, v, ttl), rest) :- GetSetFields(bs);
      if rest == [] then Some(Set(k, v, ttl)) else None
    case 17 =>
      var ((k, v, ttl), r0) :- GetSetFields(bs);
      var (flag, rest) :- GetU8(r0);
      if rest != [] || (flag != 1 && flag != 2) then None
      else Some(ConditionalSet(k, v, ttl, if flag == 1 then Nx else Xx))
    case 2 => var k :- GetKeyOnly(bs); Some(Del(k))
    case 3 => GetCasFields(bs)
    case 4 => var (k, n) :- GetKeyU64(bs); Some(Incr(k, AsI64(n)))
    case 5 => var (k, n) :- GetKeyU64(bs); Some(Expire(k, n))
    case 6 => var k :- GetKeyOnly(bs); Some(Persist(k))
    case 7 => var t :- GetTime(bs); Some(PurgeExpired(t))
    case 8 => var t :- GetTime(bs); Some(ExpireSessions(t))
    case 9 => var k :- GetKeyOnly(bs); Some(Get(k))
    case 10 => GetScanFields(bs)
    case 11 => if bs == [] then Some(Ping) else None
    case 12 => var (k, v) :- GetKeyValue(bs); Some(Append(k, v))
    case 13 => var (k, v) :- GetKeyValue(bs); Some(GetSet(k, v))
    case 14 => var k :- GetKeyOnly(bs); Some(GetDel(k))
    case 15 => var (k, n) :- GetKeyU64(bs); Some(ExpireAt(k, n))
    case 16 => var k :- GetKeyOnly(bs); Some(Ttl(k))
    case _ => None
  }

  /** The decoder: versions 1 and 3 only, a batch exactly under version 3, never nested. */
  function DecodeCommand(bs: Bytes): Option<Command>
    decreases |bs|, 1
  {
    var (magic, r0) :- GetU32(bs);
    var (version, r1) :- GetU16(r0);
    if magic != KV_MAGIC || (version != SINGLE_VERSION && version != BATCH_VERSION) then None
    else
      var (tag, r2) :- GetU8(r1);
      if version == SINGLE_VERSION then
        if tag == 18 then None else GetFields(tag, r2)
      else if tag != 18 then None
      else
        var (count, r3) :- GetU32(r2);
        if count == 0 || count > MAX_BATCH_COMMANDS || count > |r3| / 4 then None
        else
          var commands :- GetChildren(r3, count);
          Some(Batch(commands))
  }

  function GetChildren(bs: Bytes, count: nat): (r: Option<seq<Command>>)
    ensures r.Some? ==> |r.value| == count && forall i | 0 <= i < count :: !r.value[i].Batch?
    decreases |bs|, 0, count
  {
    if count == 0 then (if bs == [] then Some([]) else None)
    else
      var (child, rest) :- GetBytes(bs);
      var c :- DecodeCommand(child);
      if c.Batch? then None
      else
        var cs :- GetChildren(rest, count - 1);
        Some([c] + cs)
  }

  /** The commands the codec represents faithfully. */
  predicate WellFormed(c: Command) {
    Fits(c) &&
    (c.Scan? ==> c.limit <= U32_MAX) &&
    (c.Batch? ==>
       0 < |c.commands| <= MAX_BATCH_COMMANDS &&
       forall i | 0 <= i < |c.commands| :: !c.commands[i].Batch? && (c.commands[i].Scan? ==> c.commands[i].limit <= U32_MAX))
  }

  // ------------------------------------------------------------------
  // The command codec is canonical
  // ------------------------------------------------------------------

  lemma SingleRoundTrip(c: Command)
    requires !c.Batch? && FieldsFit(c) && (c.Scan? ==> c.limit <= U32_MAX)
    ensures PutFields(c) != []
    ensures var (tag, rest) := GetU8(PutFields(c)).value;
            tag != 18 && GetFields(tag, rest) == Some(c)
  {
    hide PutBytes, GetBytes, PutU32, GetU32, PutU64, GetU64, PutOptBytes, GetOptBytes, PutOptU64, GetOptU64;
  }

  lemma {:induction false} ChildrenRoundTrip(commands: seq<Command>)
    requires forall i | 0 <= i < |commands| :: Fits(commands[i]) && |EncodeCommand(commands[i])| <= MAX_CODEC_BYTES
    requires forall i | 0 <= i < |commands| :: !commands[i].Batch? && DecodeCommand(EncodeCommand(commands[i])) == Some(commands[i])
    ensures |PutChildren(commands)| >= 4 * |commands|
    ensures GetChildren(PutChildren(commands), |commands|) == Some(commands)
    decreases |commands|
  {
    hide PutBytes, GetBytes, Fits, EncodeCommand, DecodeCommand;
    if commands != [] {
      ChildrenRoundTrip(commands[1..]);
      assert [commands[0]] + commands[1..] == commands;
    }
  }

  /** A well-formed command survives encoding. */
  lemma CommandRoundTrip(c: Command)
    requires WellFormed(c)
    ensures DecodeCommand(EncodeCommand(c)) == Some(c)
    decreases c
  {
    hide PutBytes, GetBytes, PutU16, GetU16, PutU32, GetU32, PutFields, GetFields, PutChildren, GetChildren, FieldsFit;
    if c.Batch? {
      forall i | 0 <= i < |c.commands| ensures DecodeCommand(EncodeCommand(c.commands[i])) == Some(c.commands[i]) {
        CommandRoundTrip(c.commands[i]);
      }
      ChildrenRoundTrip(c.commands);
    } else {
      SingleRoundTrip(c);
      var (tag, rest) := GetU8(PutFields(c)).value;
      var bs := EncodeCommand(c);
      assert bs == PutU32(KV_MAGIC, PutU16(SINGLE_VERSION, PutFields(c)));
      assert DecodeCommand(bs) == GetFields(tag, rest);
    }
  }

  lemma KeyOnlyCanonical(bs: Bytes)
    requires GetKeyOnly(bs).Some?
    ensures Short(GetKeyOnly(bs).value) && PutBytes(GetKeyOnly(bs).value, []) == bs
  {
    hide GetBytes, PutBytes;
    BytesCanonical(bs);
  }

  lemma KeyU64Canonical(bs: Bytes)
    requires GetKeyU64(bs).Some?
    ensures var (k, n) := GetKeyU64(bs).value; Short(k) && PutBytes(k, PutU64(n, [])) == bs
  {
    hide GetBytes, PutBytes, GetU64, PutU64;
    BytesCanonical(bs);
    U64Canonical(GetBytes(bs).value.1);
  }

  lemma KeyValueCanonical(bs: Bytes)
    requires GetKeyValue(bs).Some?
    ensures var (k, v) := GetKeyValue(bs).value; Short(k) && Short(v) && PutBytes(k, PutBytes(v, [])) == bs
  {
    hide GetBytes, PutBytes;
    BytesCanonical(bs);
    BytesCanonical(GetBytes(bs).value.1);
  }

  lemma SetFieldsCanonical(bs: Bytes)
    requires GetSetFields(bs).Some?
    ensures var ((k, v, ttl), rest) := GetSetFields(bs).value;
            Short(k) && Short(v) && PutBytes(k, PutBytes(v, PutOptU64(ttl, rest))) == bs
  {
    hide GetBytes, PutBytes, GetOptU64, PutOptU64;
    BytesCanonical(bs);
    var r0 := GetBytes(bs).value.1;
    BytesCanonical(r0);
    OptU64Canonical(GetBytes(r0).value.1);
  }

  lemma CasCanonical(bs: Bytes)
    requires GetCasFields(bs).Some?
    ensures var c := GetCasFields(bs).value;
            c.Cas? && FieldsFit(c) && PutBytes(c.key, PutOptBytes(c.expected, PutOptBytes(c.replacement, []))) == bs
  {
    hide GetBytes, PutBytes, GetOptBytes, PutOptBytes;
    BytesCanonical(bs);
    var r0 := GetBytes(bs).value.1;
    OptBytesCanonical(r0);
    OptBytesCanonical(GetOptBytes(r0).value.1);
  }

  lemma ScanCanonical(bs: Bytes)
    requires GetScanFields(bs).Some?
    ensures var c := GetScanFields(bs).value;
            c.Scan? && FieldsFit(c) && c.limit <= U32_MAX && PutOptBytes(c.start, PutOptBytes(c.end, PutU32(c.limit, []))) == bs
  {
    hide GetOptBytes, PutOptBytes, GetU32, PutU32;
    OptBytesCanonical(bs);
    var r0 := GetOptBytes(bs).value.1;
    OptBytesCanonical(r0);
    U32Canonical(GetOptBytes(r0).value.1);
  }

  lemma SingleCanonical(tag: byte, bs: Bytes)
    requires GetFields(tag, bs).Some?
    ensures var c := GetFields(tag, bs).value;
            !c.Batch? && FieldsFit(c) && (c.Scan? ==> c.limit <= U32_MAX) && PutFields(c) == PutU8(tag, bs)
  {
    hide GetBytes, PutBytes, GetU64, PutU64, GetOptU64, PutOptU64, GetOptBytes, PutOptBytes, GetU32, PutU32, AsU64, AsI64,
         GetKeyOnly, GetKeyU64, GetKeyValue, GetTime, GetSetFields, GetCasFields, GetScanFields, Short, ShortOpt;
    if tag in {2, 6, 9, 14, 16} {
      KeyOnlyCanonical(bs);
    } else if tag in {4, 5, 15} {
      KeyU64Canonical(bs);
      SignedCanonical(GetKeyU64(bs).value.1);
    } else if tag in {12, 13} {
      KeyValueCanonical(bs);
    } else if tag in {7, 8} {
      TimeCanonical(bs);
    } else if tag in {1, 17} {
      SetFieldsCanonical(bs);
    } else if tag == 3 {
      CasCanonical(bs);
    } else if tag == 10 {
      ScanCanonical(bs);
    }
  }

  lemma TimeCanonical(bs: Bytes)
    requires GetTime(bs).Some?
    ensures PutU64(GetTime(bs).value, []) == bs
  {
    hide GetU64, PutU64;
    U64Canonical(bs);
  }

  /** Accepted bytes are the encoding of what they decode to. */
  lemma {:induction false} CommandCanonical(bs: Bytes)
    requires DecodeCommand(bs).Some?
    ensures WellFormed(DecodeCommand(bs).value) && EncodeCommand(DecodeCommand(bs).value) == bs
    decreases |bs|, 1
  {
    hide GetU16, PutU16, GetU32, PutU32, GetFields, PutFields, FieldsFit, GetChildren, PutChildren;
    var c := DecodeCommand(bs).value;
    var (_, r0) := GetU32(bs).value;
    var (version, r1) := GetU16(r0).value;
    var (tag, r2) := GetU8(r1).value;
    U32Canonical(bs);
    U16Canonical(r0);
    if version == SINGLE_VERSION {
      SingleCanonical(tag, r2);
    } else {
      var (count, r3) := GetU32(r2).value;
      U32Canonical(r2);
      ChildrenCanonical(r3, count);
    }
  }

  lemma {:induction false} ChildrenCanonical(bs: Bytes, count: nat)
    requires GetChildren(bs, count).Some?
    ensures var cs := GetChildren(bs, count).value;
            (forall i | 0 <= i < |cs| :: WellFormed(cs[i]) && |EncodeCommand(cs[i])| <= MAX_CODEC_BYTES) &&
            PutChildren(cs) == bs
    decreases |bs|, 0, count
  {
    hide GetBytes, PutBytes, DecodeCommand, EncodeCommand, WellFormed;
    if count > 0 {
      BytesCanonical(bs);
      var (child, rest) := GetBytes(bs).value;
      CommandCanonical(child);
      ChildrenCanonical(rest, count - 1);
      var cs := GetChildren(bs, count).value;
      assert cs[1..] == GetChildren(rest, count - 1).value;
    }
  }

  /** The command codec is a bijection between well-formed commands and accepted byte strings. */
  lemma CommandCodecExact(bs: Bytes, c: Command)
    ensures DecodeCommand(bs) == Some(c) <==> WellFormed(c) && EncodeCommand(c) == bs
  {
    hide DecodeCommand, EncodeCommand, Fits;
    if WellFormed(c) && EncodeCommand(c) == bs {
      CommandRoundTrip(c);
    }
    if DecodeCommand(bs) == Some(c) {
      CommandCanonical(bs);
    }
  }

  // ------------------------------------------------------------------
  // Admission of a batch
  // ------------------------------------------------------------------

  /** Ordinary commands only, each within the encoder's field limits. */
  predicate Flat(commands: seq<Command>) {
    forall i | 0 <= i < |commands| :: FieldsFit(commands[i])
  }

  /** The charge of the children: each pays its length prefix and its encoding. */
  function ChildCharge(commands: seq<Command>): nat
    requires Flat(commands)
  {
    if commands == [] then 0
    else ChildCharge(commands[..|commands| - 1]) + 4 + |EncodeCommand(commands[|commands| - 1])|
  }

  lemma {:induction false} ChargePrepend(c: Command, rest: seq<Command>)
    requires FieldsFit(c) && Flat(rest)
    ensures ChildCharge([c] + rest) == 4 + |EncodeCommand(c)| + ChildCharge(rest)
    decreases |rest|
  {
    hide EncodeCommand, FieldsFit;
    if rest != [] {
      var n := |rest| - 1;
      ChargePrepend(c, rest[..n]);
      assert ([c] + rest)[..n + 1] == [c] + rest[..n];
    } else {
      assert ([c] + rest)[..0] == [];
    }
  }

  predicate ChildrenFit(commands: seq<Command>)
    requires Flat(commands)
  {
    forall i | 0 <= i < |commands| :: |EncodeCommand(commands[i])| <= MAX_CODEC_BYTES
  }

  lemma {:induction false} ChargeIsLength(commands: seq<Command>)
    requires Flat(commands) && ChildrenFit(commands)
    ensures |PutChildren(commands)| == ChildCharge(commands)
    decreases |commands|
  {
    hide EncodeCommand, FieldsFit, PutBytes;
    if commands != [] {
      ChargeIsLength(commands[1..]);
      assert commands == [commands[0]] + commands[1..];
      ChargePrepend(commands[0], commands[1..]);
    }
  }

  /** The charge the admission loop adds up is the exact length of the batch's encoding. */
  lemma BatchLength(commands: seq<Command>)
    requires |commands| <= U32_MAX && Flat(commands) && ChildrenFit(commands)
    ensures Fits(Batch(commands)) && |EncodeCommand(Batch(commands))| == 11 + ChildCharge(commands)
  {
    hide PutChildren, ChildCharge, PutU16, PutU32, FieldsFit, Flat, ChildrenFit, Fits;
    ChargeIsLength(commands);
    FlatFits(commands);
  }

  lemma FlatFits(commands: seq<Command>)
    requires |commands| <= U32_MAX && Flat(commands) && ChildrenFit(commands)
    ensures Fits(Batch(commands))
  {
    hide EncodeCommand, FieldsFit;
    forall i | 0 <= i < |commands| ensures Fits(commands[i]) {
      FieldsFitFits(commands[i]);
    }
  }

  lemma FieldsFitFits(c: Command)
    requires FieldsFit(c)
    ensures Fits(c)
  {
  }

  /** What a batch must satisfy before any of it runs. */
  predicate Admissible(commands: seq<Command>, maxCommands: u32, maxBytes: u64) {
    commands != [] && |commands| <= maxCommands && Flat(commands) && 11 + ChildCharge(commands) <= maxBytes
  }

  /** A nested batch is met before the charge of its predecessors runs out. */
  predicate NestsWithin(commands: seq<Command>, maxBytes: u64) {
    exists i | 0 <= i < |commands| :: NestsAt(commands, maxBytes, i)
  }

  predicate NestsAt(commands: seq<Command>, maxBytes: u64, i: nat)
    requires i < |commands|
  {
    commands[i].Batch? && Flat(commands[..i]) && (i > 0 ==> 11 + ChildCharge(commands[..i]) <= maxBytes)
  }

  function AdmissionError(commands: seq<Command>, maxCommands: u32, maxBytes: u64): Option<KvError> {
    if Admissible(commands, maxCommands, maxBytes) then None
    else if commands == [] || (|commands| <= maxCommands && NestsWithin(commands, maxBytes)) then Some(InvalidInput)
    else Some(TooLarge)
  }

  /** A batch passes exactly when it is non-empty, short enough, flat and within its byte charge.
      Every ordinary child must be one the encoder accepts. */
  method ValidateBatch(commands: seq<Command>, maxCommands: u32, maxBytes: u64) returns (error: Option<KvError>)
    requires forall i | 0 <= i < |commands| :: commands[i].Batch? || FieldsFit(commands[i])
    ensures error == AdmissionError(commands, maxCommands, maxBytes)
  {
    hide EncodeCommand, FieldsFit, ChildCharge;
    if commands == [] {
      return Some(InvalidInput);
    }
    if |commands| > maxCommands {
      return Some(TooLarge);
    }
    var charge: nat := 11;
    NoCharge(commands[..0]);
    for i := 0 to |commands|
      invariant Flat(commands[..i])
      invariant charge == 11 + ChildCharge(commands[..i])
      invariant i > 0 ==> charge <= maxBytes
    {
      if commands[i].Batch? {
        BatchIsNotFlat(commands, i);
        assert NestsAt(commands, maxBytes, i);
        return Some(InvalidInput);
      }
      charge := charge + 4 + |EncodeCommand(commands[i])|;
      ChargeSteps(commands, i);
      if charge > maxBytes {
        ChargeExceeded(commands, maxBytes, i + 1);
        return Some(TooLarge);
      }
    }
    assert commands[..|commands|] == commands;
    return None;
  }

  lemma NoCharge(commands: seq<Command>)
    requires commands == []
    ensures Flat(commands) && ChildCharge(commands) == 0
  {
  }

  lemma BatchIsNotFlat(commands: seq<Command>, i: nat)
    requires i < |commands| && commands[i].Batch?
    ensures !Flat(commands)
  {
    assert !FieldsFit(commands[i]);
  }

  lemma ChargeSteps(commands: seq<Command>, i: nat)
    requires i < |commands| && Flat(commands[..i]) && FieldsFit(commands[i])
    ensures Flat(commands[..i + 1])
    ensures ChildCharge(commands[..i + 1]) == ChildCharge(commands[..i]) + 4 + |EncodeCommand(commands[i])|
  {
    hide EncodeCommand, FieldsFit;
    assert commands[..i + 1] == commands[..i] + [commands[i]];
    assert commands[..i + 1][..i] == commands[..i];
  }

  lemma {:induction false} ChargeGrows(commands: seq<Command>, n: nat)
    requires n <= |commands| && Flat(commands)
    ensures Flat(commands[..n]) && ChildCharge(commands[..n]) <= ChildCharge(commands)
    decreases |commands|
  {
    hide EncodeCommand, FieldsFit;
    if n == |commands| {
      assert commands[..n] == commands;
    } else {
      var k := |commands| - 1;
      ChargeGrows(commands[..k], n);
      assert commands[..k][..n] == commands[..n];
    }
  }

  /** Once a flat prefix is over the limit, the batch is refused, and not for nesting. */
  lemma ChargeExceeded(commands: seq<Command>, maxBytes: u64, n: nat)
    requires 0 < n <= |commands| && Flat(commands[..n]) && 11 + ChildCharge(commands[..n]) > maxBytes
    ensures Flat(commands) ==> 11 + ChildCharge(commands) > maxBytes
    ensures !NestsWithin(commands, maxBytes)
  {
    hide EncodeCommand, FieldsFit, ChildCharge;
    if Flat(commands) {
      ChargeGrows(commands, n);
    }
    forall i | 0 <= i < |commands| ensures !NestsAt(commands, maxBytes, i) {
      if NestsAt(commands, maxBytes, i) {
        if i < n {
          assert commands[..n][i] == commands[i];
          BatchIsNotFlat(commands[..n], i);
        } else {
          assert commands[..i][..n] == commands[..n];
          ChargeGrows(commands[..i], n);
        }
      }
    }
  }
}
