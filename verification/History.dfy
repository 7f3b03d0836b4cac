/** Operation histories and the sequential model they are checked against. */
module History {
  import opened Prelude
  import opened Ordering
  import Decimal

  datatype Consistency = Strong | StaleLocal | Diagnostic

  datatype Probe =
    | NoProbe
    | FinalProbe
    | ReplicaState(replica: u64, committedIndex: u64, stateHash: u64)

  datatype Kind =
    | Set(key: Bytes, value: Bytes)
    | Get(key: Bytes)
    | Del(key: Bytes)
    | Incr(key: Bytes)
    | Cas(key: Bytes, expected: Option<Bytes>, value: Bytes)
    | Scan(prefix: Option<Bytes>, limit: nat)
    | Batch(commands: seq<Kind>)

  datatype Outcome =
    | Ok
    | Value(found: Option<Bytes>)
    | Integer(n: i64)
    | Swapped(success: bool)
    | Scanned(items: seq<(Bytes, Bytes)>)
    | Replies(replies: seq<Outcome>)
    | Error
    | Timeout

  datatype Operation = Operation(
    id: u64,
    client: u64,
    sequence: u64,
    invoke: u64,
    complete: Option<u64>,
    kind: Kind,
    outcome: Outcome,
    deadline: Option<u64>,
    consistency: Consistency,
    diagnostic: Probe)

  function KeyOf(kind: Kind): Bytes {
    match kind
    case Scan(prefix, _) => if prefix.Some? then prefix.value else []
    case Batch(_) => []
    case Set(key, _) => key
    case Get(key) => key
    case Del(key) => key
    case Incr(key) => key
    case Cas(key, _, _) => key
  }

  /** Strict real-time precedence: operations that touch at one instant are concurrent. */
  predicate HappensBefore(a: Operation, b: Operation) {
    a.complete.Some? && a.complete.value < b.invoke
  }

  /** Stale local reads and diagnostic probes take no part in the checked history. */
  predicate IsStrong(op: Operation) {
    op.consistency == Strong && op.diagnostic == NoProbe
  }

  function StrongPart(h: seq<Operation>): (s: seq<Operation>)
    ensures forall op :: op in s <==> op in h && IsStrong(op)
  {
    if h == [] then []
    else if IsStrong(h[0]) then [h[0]] + StrongPart(h[1..])
    else StrongPart(h[1..])
  }

  ghost predicate DistinctIds(h: seq<Operation>) {
    forall i, j | 0 <= i < j < |h| :: h[i].id != h[j].id
  }

  // ------------------------------------------------------------------
  // The sequential model
  // ------------------------------------------------------------------

  datatype Cell = Cell(value: Bytes, deadline: Option<u64>)

  type Model = map<Bytes, Cell>

  /** The model a supplied state image starts from: nothing expires. */
  function InitialModel(image: map<Bytes, Bytes>): (m: Model)
    ensures m.Keys == image.Keys
    ensures forall k | k in m :: m[k] == Cell(image[k], None)
  {
    map k | k in image :: Cell(image[k], None)
  }

  function Lookup(m: Model, k: Bytes): Option<Cell> {
    if k in m then Some(m[k]) else None
  }

  function StoredValue(m: Model, k: Bytes): Option<Bytes> {
    if k in m then Some(m[k].value) else None
  }

  /** What an increment reads: an absent or non-numeric value counts as zero. */
  function Counter(m: Model, k: Bytes): i64 {
    if k !in m then 0
    else
      var parsed := Decimal.ParseI64(m[k].value);
      if parsed.Some? then parsed.value else 0
  }

  predicate HasPrefix(k: Bytes, prefix: Option<Bytes>) {
    prefix.None? || prefix.value <= k
  }

  function ByteRank(k: Bytes): seq<nat> {
    k
  }

  function ScanModel(m: Model, prefix: Option<Bytes>, limit: nat): seq<(Bytes, Bytes)> {
    var keys := SortedBy((set k | k in m && HasPrefix(k, prefix)), ByteRank);
    var page := if |keys| <= limit then keys else keys[..limit];
    seq(|page|, i requires 0 <= i < |page| => (page[i], if page[i] in m then m[page[i]].value else []))
  }

  /** One operation against the model; `None` when the model cannot perform it. */
  function Apply(m: Model, kind: Kind, deadline: Option<u64>): Option<(Model, Outcome)>
    decreases kind, 1
  {
    match kind
    case Set(k, v) => Some((m[k := Cell(v, deadline)], Ok))
    case Get(k) => Some((m, Value(StoredValue(m, k))))
    case Del(k) => Some((m - {k}, Ok))
    case Incr(k) =>
      var count := Counter(m, k);
      if count == 0x7fff_ffff_ffff_ffff then None
      else Some((m[k := Cell(Decimal.ToText(count + 1), None)], Integer(count + 1)))
    case Cas(k, expected, v) =>
      if StoredValue(m, k) == expected
      then Some((m[k := Cell(v, None)], Swapped(true)))
      else Some((m, Swapped(false)))
    case Scan(prefix, limit) => Some((m, Scanned(ScanModel(m, prefix, limit))))
    case Batch(commands) =>
      if commands == [] || exists c | c in commands :: c.Batch? then None
      else
        var r := ApplyAll(m, commands, deadline);
        if r.None? then None else Some((r.value.0, Replies(r.value.1)))
  }

  /** The commands of a batch in order, all or nothing. */
  function ApplyAll(m: Model, commands: seq<Kind>, deadline: Option<u64>): (r: Option<(Model, seq<Outcome>)>)
    ensures r.Some? ==> |r.value.1| == |commands|
    decreases commands, 0
  {
    if commands == [] then Some((m, []))
    else
      var first := Apply(m, commands[0], deadline);
      if first.None? then None
      else
        var rest := ApplyAll(first.value.0, commands[1..], deadline);
        if rest.None? then None
        else Some((rest.value.0, [first.value.1] + rest.value.1))
  }

  /** A read may see a value at any instant of its interval that lies before the
      deadline, and may miss it at any instant at or after the deadline. */
  predicate GetExplained(m: Model, k: Bytes, op: Operation) {
    var cell := Lookup(m, k);
    match op.outcome
    case Value(Some(observed)) =>
      cell.Some? && cell.value.value == observed &&
      (cell.value.deadline.None? || op.invoke < cell.value.deadline.value)
    case Value(None) =>
      cell.None? ||
      (cell.value.deadline.Some? && op.complete.Some? && op.complete.value >= cell.value.deadline.value)
    case _ => false
  }

  /** Apply an answered operation, insisting on the answer it got. */
  function ApplyObserved(m: Model, op: Operation): Option<Model> {
    if op.outcome.Error? then Some(m)
    else if op.kind.Get? then (if GetExplained(m, op.kind.key, op) then Some(m) else None)
    else
      var r := Apply(m, op.kind, op.deadline);
      if r.Some? && r.value.1 == op.outcome then Some(r.value.0) else None
  }

  /** Apply an unanswered operation. */
  function ApplyUnobserved(m: Model, op: Operation): Option<Model> {
    var r := Apply(m, op.kind, op.deadline);
    if r.Some? then Some(r.value.0) else None
  }

  // ------------------------------------------------------------------
  // Linearizability
  // ------------------------------------------------------------------

  /** One operation of a linearization; `applied` is false only for an unanswered
      operation that never took effect. */
  datatype Choice = Choice(op: Operation, applied: bool)

  function Step(m: Model, c: Choice): Option<Model> {
    if c.op.outcome.Timeout? then
      if c.applied then ApplyUnobserved(m, c.op) else Some(m)
    else if c.applied then ApplyObserved(m, c.op)
    else None
  }

  function Replay(m: Model, order: seq<Choice>): Option<Model>
    decreases |order|
  {
    if order == [] then Some(m)
    else
      var next := Step(m, order[0]);
      if next.None? then None else Replay(next.value, order[1..])
  }

  function OpsOf(order: seq<Choice>): (ops: seq<Operation>)
    ensures |ops| == |order|
    ensures forall i | 0 <= i < |order| :: ops[i] == order[i].op
  {
    seq(|order|, i requires 0 <= i < |order| => order[i].op)
  }

  /** No operation is placed before one that had completed before it was invoked. */
  ghost predicate RespectsRealTime(order: seq<Choice>) {
    forall i, j | 0 <= i < j < |order| :: !HappensBefore(order[j].op, order[i].op)
  }

  /** `order` arranges exactly the operations of `h` (every unanswered one applied or
      dropped), respects real time, and replays to every observed outcome. */
  ghost predicate Linearizes(h: seq<Operation>, m: Model, order: seq<Choice>) {
    multiset(OpsOf(order)) == multiset(h) && RespectsRealTime(order) && Replay(m, order).Some?
  }

  ghost predicate Linearizable(h: seq<Operation>, m: Model) {
    exists order :: Linearizes(h, m, order)
  }
}
