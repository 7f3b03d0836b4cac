/** What a committed entry does to the replicated state, the key/value machine and the retry table
    together, and what that guarantees over whole runs of a node: a client's request takes effect once. */
module Replication {
  import opened Prelude
  import opened KvCodec
  import opened ReplyCodec
  import opened ClusterConfig
  import opened Sessions
  import opened ExactlyOnce
  import Kv = KvModel
  import S = KvSnapshot
  import D = Durability

  datatype Composite = Composite(kv: S.Replica, table: Table)

  /** What a committed entry says: nothing, a client's command, or a change of configuration, whose last
      step carries the operator's request it answers. */
  datatype Meaning =
    | Nothing
    | Ask(session: Option<(Key, u64)>, command: Bytes, at: u64, batched: bool)
    | Configure(request: Option<(Key, u64, Bytes)>, at: u64)

  /** The parts of the node this leaves open: envelopes, consensus, client routes and the store record. */
  datatype Env<!W> = Env(
    policy: Policy,
    rules: AdminRules,
    meaning: D.Entry -> Option<Meaning>,
    batches: W -> bool,
    pinned: W -> Option<Key>,
    configure: (W, D.Entry) -> (W, Option<Bytes>, seq<D.Effect>),
    route: (W, D.Entry, Option<Reply>) -> (W, Option<Bytes>),
    frame: (Composite, Composite, D.Entry) -> Bytes,
    ready: W -> Option<u64>,
    waiting: W -> seq<Read>,
    keep: (W, seq<Read>) -> W,
    tell: (Read, Reply) -> Bytes)

  /** A read that waits until everything up to `index` is published. */
  datatype Read = Read(client: u64, sequence: u64, command: Command, at: u64, index: u64)

  // ------------------------------------------------------------------
  // One entry
  // ------------------------------------------------------------------

  function Later(r: S.Replica, at: u64): u64 {
    if at < r.lastLeaderTime then r.lastLeaderTime else at
  }

  /** Move the cursor over an entry that does not touch the store. */
  function Mark(r: S.Replica, e: D.Entry, at: u64): S.Replica {
    S.Replica(r.state, e.index, e.term, Later(r, at))
  }

  /** Run a command on the machine, at a time that never goes back; none when the machine gives up. */
  function RunOn(p: Policy, r: S.Replica, e: D.Entry, c: Command, at: u64): Option<(S.Replica, Reply)> {
    var (s, o) := Kv.ApplyCommand(r.state, c, Later(r, at), LimitsOf(p));
    if o.Panicked? then None
    else
      var reply := if o.Done? then o.reply else Error(o.error);
      if ReplyFits(reply) then Some((S.Replica(s, e.index, e.term, Later(r, at)), reply)) else None
  }

  /** The table lets the request run its mutation. */
  ghost predicate Runs(p: Policy, t: Table, key: Key, sequence: u64, command: Bytes, at: u64) {
    ApplyUser(p, t, key, sequence, command, at, Ok).ran
  }

  /** A command of this entry's kind, within policy, that the node takes. */
  predicate Sensible(p: Policy, m: Meaning, batches: bool)
    requires m.Ask?
  {
    |m.command| <= p.maxCommandBytes && DecodeCommand(m.command).Some? &&
    (m.session.Some? ==> m.session.value.0.namespace == 0 && m.session.value.1 != 0) &&
    var c := DecodeCommand(m.command).value;
    m.batched == c.Batch? &&
    (c.Batch? ==> batches && AdmissionError(c.commands, p.maxBatchCommands, p.maxBatchBytes).None?)
  }

  /** A client's command: through the retry table when it names a session, and then on the machine only
      if the table lets it run. */
  ghost function Asked(p: Policy, k: Composite, e: D.Entry, m: Meaning): Option<(Composite, Reply)>
    requires m.Ask? && DecodeCommand(m.command).Some?
  {
    var c := DecodeCommand(m.command).value;
    if m.session.None? then
      var (r, reply) :- RunOn(p, k.kv, e, c, m.at);
      Some((k.(kv := r), reply))
    else
      var (key, sequence) := m.session.value;
      if !Runs(p, k.table, key, sequence, m.command, m.at) then
        var step := ApplyUser(p, k.table, key, sequence, m.command, m.at, Ok);
        Some((Composite(Mark(k.kv, e, m.at), step.table), step.reply))
      else
        var (r, reply) :- RunOn(p, k.kv, e, c, m.at);
        var step := ApplyUser(p, k.table, key, sequence, m.command, m.at, reply);
        Some((Composite(r, step.table), step.reply))
  }

  /** A command to expire sessions also sweeps the retry table. */
  ghost function Swept(p: Policy, k: Composite, m: Meaning, pinned: Option<Key>): Composite
    requires m.Ask? && DecodeCommand(m.command).Some?
  {
    var c := DecodeCommand(m.command).value;
    if c.ExpireSessions? then k.(table := ExpireDue(p, k.table, c.upTo, p.maxKeysPerExpirySweep, pinned)) else k
  }

  ghost function Configured<W>(env: Env<W>, k: Composite, w: W, e: D.Entry, m: Meaning): Option<(Composite, W, seq<D.Effect>)>
    requires m.Configure?
  {
    var moved := k.(kv := Mark(k.kv, e, m.at));
    var (next, result, effects) := env.configure(w, e);
    if m.request.None? then (if result.Some? then Some((moved, next, effects)) else None)
    else
      var (key, sequence, command) := m.request.value;
      var (t, outcome, ran) := ApplyAdmin(env.policy, env.rules, k.table, key, sequence, command, m.at, result);
      if outcome.AdminBusy? || outcome.InvalidReply? || outcome.MutationFailed? then None
      else Some((moved.(table := t), if ran then next else w, if ran then effects else []))
  }

  /** Apply one committed entry tentatively. */
  ghost function Prepare<W>(env: Env<W>, k: Composite, w: W, e: D.Entry): Option<D.Prepared<Composite, W>> {
    var m :- env.meaning(e);
    match m
    case Nothing => Some(Finish(env, k, k.(kv := Mark(k.kv, e, 0)), w, e, None, []))
    case Configure(_, _) =>
      var (next, v, effects) :- Configured(env, k, w, e, m);
      Some(Finish(env, k, next, v, e, None, effects))
    case Ask(_, _, _, _) =>
      if !Sensible(env.policy, m, env.batches(w)) then None
      else
        var (next, reply) :- Asked(env.policy, k, e, m);
        Some(Finish(env, k, Swept(env.policy, next, m, env.pinned(w)), w, e, Some(reply), []))
  }

  function Finish<W>(env: Env<W>, before: Composite, after: Composite, w: W, e: D.Entry, reply: Option<Reply>, post: seq<D.Effect>)
    : D.Prepared<Composite, W>
  {
    var (v, routed) := env.route(w, e, reply);
    D.Prepared(e, after, v, env.frame(before, after, e), routed, post)
  }

  // ------------------------------------------------------------------
  // Reads
  // ------------------------------------------------------------------

  /** What the machine answers a read. */
  function ReadOn(r: S.Replica, c: Command, at: u64): Reply {
    match c
    case Get(k) => Value(Kv.VisibleGet(r.state, k, at))
    case Ttl(k) => Integer(Kv.TtlSeconds(r.state, k, at))
    case Scan(start, end, limit) => Scanned(Kv.VisibleScan(r.state, start, end, at, limit))
    case Ping => Ok
    case _ => Error(InvalidInput)
  }

  /** Consensus has confirmed the read's index and the machine has published it. */
  predicate Due<W>(env: Env<W>, w: W, k: Composite, q: Read) {
    env.ready(w).Some? && q.index <= env.ready(w).value && q.index <= k.kv.appliedIndex
  }

  function Told<W>(env: Env<W>, w: W, k: Composite, qs: seq<Read>): seq<Bytes> {
    if qs == [] then []
    else (if Due(env, w, k, qs[0]) then [env.tell(qs[0], ReadOn(k.kv, qs[0].command, qs[0].at))] else []) + Told(env, w, k, qs[1..])
  }

  function Kept<W>(env: Env<W>, w: W, k: Composite, qs: seq<Read>): seq<Read> {
    if qs == [] then [] else (if Due(env, w, k, qs[0]) then [] else [qs[0]]) + Kept(env, w, k, qs[1..])
  }

  /** Answer the reads that are due, and keep the others. */
  function Drain<W>(env: Env<W>, w: W, k: Composite): (W, seq<Bytes>) {
    if env.ready(w).None? then (w, [])
    else (env.keep(w, Kept(env, w, k, env.waiting(w))), Told(env, w, k, env.waiting(w)))
  }

  // ------------------------------------------------------------------
  // The table decides without the answer
  // ------------------------------------------------------------------

  lemma AnswerDoesNotDecide(p: Policy, t: Table, key: Key, sequence: u64, command: Bytes, at: u64, answer: Reply)
    requires ReplyFits(answer)
    ensures ApplyUser(p, t, key, sequence, command, at, answer).ran == Runs(p, t, key, sequence, command, at)
    ensures !Runs(p, t, key, sequence, command, at) ==>
              ApplyUser(p, t, key, sequence, command, at, answer) == ApplyUser(p, t, key, sequence, command, at, Ok)
  {
    hide EncodeReply, ReplyFits, DecodeReply, Sum;
    assert ReplyFits(Ok) by { OkFits(); }
  }

  lemma OkFits()
    ensures ReplyFits(Ok)
  {
    hide EncodeReply;
  }

  // ------------------------------------------------------------------
  // An entry as requests to the table
  // ------------------------------------------------------------------

  /** The key's record has seen `sequence`, and has been active since `start`. */
  ghost predicate Since(t: Table, key: Key, sequence: u64, start: u64) {
    Guarded(t, key, sequence) && t.records[key].lastActive >= start
  }

  /** A time before a session active since `start` can have gone idle. */
  predicate Timely(p: Policy, start: u64, at: u64) {
    start <= at < SatAdd(start, p.sessionIdle)
  }

  /** Every time the entry carries lies in the window. */
  predicate InTime(p: Policy, start: u64, m: Meaning) {
    (m.Ask? ==>
       Timely(p, start, m.at) &&
       (DecodeCommand(m.command).Some? && DecodeCommand(m.command).value.ExpireSessions? ==>
          Timely(p, start, DecodeCommand(m.command).value.upTo))) &&
    (m.Configure? ==> Timely(p, start, m.at))
  }

  /** The entry asks for a sequence of this key beyond `sequence`. */
  predicate Supersedes(m: Meaning, key: Key, sequence: u64) {
    (m.Ask? && m.session.Some? && m.session.value.0 == key && m.session.value.1 > sequence) ||
    (m.Configure? && m.request.Some? && m.request.value.0 == key && m.request.value.1 > sequence)
  }

  lemma RequestKeeps(p: Policy, rules: AdminRules, t: Table, q: Request, key: Key, sequence: u64, start: u64)
    requires Encodes(q) && Since(t, key, sequence, start) && Timely(p, start, q.at)
    ensures Since(Next(p, rules, t, q), key, sequence, start)
    ensures q.User? && ExactlyOnce.Repeats(q, key, sequence) ==> !Ran(p, t, q)
    ensures !Newer(q, key, t.records[key].maxSequence) ==>
              var r, s := t.records[key], Next(p, rules, t, q).records[key];
              s.maxSequence == r.maxSequence && s.command == r.command && s.reply == r.reply
  {
    hide Next, Encodes, Ran;
    NextPreserves(p, rules, t, q, key);
  }

  /** The table keeps, word for word, what it has recorded under the key. */
  ghost predicate SameWords(t: Table, u: Table, key: Key)
    requires key in t.records && key in u.records
  {
    var r, s := t.records[key], u.records[key];
    s.maxSequence == r.maxSequence && s.command == r.command && s.reply == r.reply
  }

  lemma SweptKeeps(p: Policy, rules: AdminRules, k: Composite, m: Meaning, pinned: Option<Key>, key: Key, sequence: u64, start: u64)
    requires m.Ask? && DecodeCommand(m.command).Some? && InTime(p, start, m) && Since(k.table, key, sequence, start)
    ensures var after := Swept(p, k, m, pinned);
            after.kv == k.kv && Since(after.table, key, sequence, start) && SameWords(k.table, after.table, key)
  {
    hide DecodeCommand, ExpireDue, Guarded;
    var c := DecodeCommand(m.command).value;
    if c.ExpireSessions? {
      RequestKeeps(p, rules, k.table, Request.Expire(c.upTo, p.maxKeysPerExpirySweep, pinned), key, sequence, start);
    }
  }

  /** One command, through the table: the key's record stays, and a sequence it has seen does not run. */
  lemma AskedKeeps(p: Policy, rules: AdminRules, k: Composite, e: D.Entry, m: Meaning, key: Key, sequence: u64, start: u64)
    requires m.Ask? && DecodeCommand(m.command).Some? && Asked(p, k, e, m).Some? && InTime(p, start, m)
    requires Since(k.table, key, sequence, start)
    ensures Since(Asked(p, k, e, m).value.0.table, key, sequence, start)
    ensures !Supersedes(m, key, k.table.records[key].maxSequence) ==> SameWords(k.table, Asked(p, k, e, m).value.0.table, key)
    ensures m.session.Some? && m.session.value.0 == key && 0 < m.session.value.1 <= sequence ==>
              !Runs(p, k.table, key, m.session.value.1, m.command, m.at) && Asked(p, k, e, m).value.0.kv == Mark(k.kv, e, m.at)
  {
    hide DecodeCommand, ApplyUser, RunOn, Guarded, ReplyFits;
    if m.session.Some? {
      var (user, number) := m.session.value;
      OkFits();
      var answer := Ok;
      if Runs(p, k.table, user, number, m.command, m.at) {
        Fitting(p, k.kv, e, DecodeCommand(m.command).value, m.at);
        answer := RunOn(p, k.kv, e, DecodeCommand(m.command).value, m.at).value.1;
      }
      AnswerDoesNotDecide(p, k.table, user, number, m.command, m.at, answer);
      RequestKeeps(p, rules, k.table, User(user, number, m.command, m.at, answer), key, sequence, start);
    }
  }

  lemma Fitting(p: Policy, r: S.Replica, e: D.Entry, c: Command, at: u64)
    requires RunOn(p, r, e, c, at).Some?
    ensures ReplyFits(RunOn(p, r, e, c, at).value.1)
  {
    hide ReplyFits;
  }

  lemma ConfiguredKeeps<W>(env: Env<W>, k: Composite, w: W, e: D.Entry, m: Meaning, key: Key, sequence: u64, start: u64)
    requires m.Configure? && Configured(env, k, w, e, m).Some? && InTime(env.policy, start, m) && Since(k.table, key, sequence, start)
    ensures var after := Configured(env, k, w, e, m).value.0;
            Since(after.table, key, sequence, start) &&
            (!Supersedes(m, key, k.table.records[key].maxSequence) ==> SameWords(k.table, after.table, key))
  {
    hide ApplyAdmin, Guarded;
    if m.request.Some? {
      var (operator, number, command) := m.request.value;
      RequestKeeps(env.policy, env.rules, k.table, Admin(operator, number, command, m.at, env.configure(w, e).1), key, sequence, start);
    }
  }

  /** One committed entry before a session can have gone idle keeps the session's record; and if it asks
      for a sequence the record has seen, it does not touch the store. */
  lemma EntryKeeps<W>(env: Env<W>, k: Composite, w: W, e: D.Entry, key: Key, sequence: u64, start: u64)
    requires Prepare(env, k, w, e).Some? && InTime(env.policy, start, env.meaning(e).value) && Since(k.table, key, sequence, start)
    ensures var after, m := Prepare(env, k, w, e).value.k, env.meaning(e).value;
            Since(after.table, key, sequence, start) &&
            (!Supersedes(m, key, k.table.records[key].maxSequence) ==> SameWords(k.table, after.table, key)) &&
            (AsksAgain(m, key, sequence) ==> after.kv.state == k.kv.state)
  {
    hide Asked, Swept, Configured, InTime, Since, DecodeCommand, AdmissionError;
    var m := env.meaning(e).value;
    match m
    case Nothing =>
    case Configure(_, _) => ConfiguredKeeps(env, k, w, e, m, key, sequence, start);
    case Ask(_, _, _, _) =>
      AskedKeeps(env.policy, env.rules, k, e, m, key, sequence, start);
      SweptKeeps(env.policy, env.rules, Asked(env.policy, k, e, m).value.0, m, env.pinned(w), key, sequence, start);
  }

  /** A client asks for a sequence of the key up to `sequence`. */
  predicate AsksAgain(m: Meaning, key: Key, sequence: u64) {
    m.Ask? && m.session.Some? && m.session.value.0 == key && 0 < m.session.value.1 <= sequence
  }

  // ------------------------------------------------------------------
  // Whole runs of a node
  // ------------------------------------------------------------------

  /** The node applies entries and answers reads as above. */
  ghost predicate Obeys<W(!new)>(core: D.Core<Composite, W>, env: Env<W>) {
    (forall k, w, e :: core.prepare(k, w, e) == Prepare(env, k, w, e)) && forall k, w :: core.drain(w, k) == Drain(env, w, k)
  }

  /** The state an acknowledged entry was applied to. */
  function Before<W>(k: Composite, ps: seq<D.Prepared<Composite, W>>, i: nat): Composite
    requires i <= |ps|
  {
    if i == 0 then k else ps[i - 1].k
  }

  lemma {:induction false} ChainAt<W(!new)>(core: D.Core<Composite, W>, k: Composite, ps: seq<D.Prepared<Composite, W>>, i: nat)
    requires D.Chain(core, k, ps) && i < |ps|
    ensures D.Derives(core, Before(k, ps, i), ps[i])
    decreases i
  {
    hide D.Derives;
    if i > 0 {
      ChainAt(core, ps[0].k, ps[1..], i - 1);
    }
  }

  /** What an acknowledged entry says. */
  function Says<W>(env: Env<W>, p: D.Prepared<Composite, W>): Meaning {
    var m := env.meaning(p.entry);
    if m.Some? then m.value else Nothing
  }

  /** It was applied by the rules above. */
  lemma Applied<W(!new)>(core: D.Core<Composite, W>, env: Env<W>, k: Composite, p: D.Prepared<Composite, W>) returns (w: W)
    requires Obeys(core, env) && D.Derives(core, k, p)
    ensures Prepare(env, k, w, p.entry) == Some(p) && env.meaning(p.entry) == Some(Says(env, p))
  {
    hide Asked, Configured, Swept, Sensible;
    w :| core.prepare(k, w, p.entry) == Some(p);
  }

  /** Every time carried by the entries from the `i`th up to the `j`th lies in the window. */
  ghost predicate AllInTime<W(!new)>(env: Env<W>, ps: seq<D.Prepared<Composite, W>>, i: nat, j: nat, start: u64)
    requires j <= |ps|
  {
    forall n | i <= n < j :: InTime(env.policy, start, Says(env, ps[n]))
  }

  ghost predicate NoneSupersedes<W(!new)>(env: Env<W>, ps: seq<D.Prepared<Composite, W>>, i: nat, j: nat, key: Key, sequence: u64)
    requires j <= |ps|
  {
    forall n | i <= n < j :: !Supersedes(Says(env, ps[n]), key, sequence)
  }

  /** A session's record lasts through any entries before it can have gone idle, unchanged but for its
      activity while none supersedes it. */
  lemma {:induction false} StretchKeeps<W(!new)>(core: D.Core<Composite, W>, env: Env<W>, k: Composite, ps: seq<D.Prepared<Composite, W>>,
                                                 i: nat, j: nat, key: Key, sequence: u64, start: u64)
    requires Obeys(core, env) && D.Chain(core, k, ps) && i <= j <= |ps|
    requires AllInTime(env, ps, i, j, start) && Since(Before(k, ps, i).table, key, sequence, start)
    ensures Since(Before(k, ps, j).table, key, sequence, start)
    ensures NoneSupersedes(env, ps, i, j, key, Before(k, ps, i).table.records[key].maxSequence) ==>
              SameWords(Before(k, ps, i).table, Before(k, ps, j).table, key)
    decreases j
  {
    hide Prepare, InTime, Supersedes, Obeys, D.Chain;
    if i < j {
      StretchKeeps(core, env, k, ps, i, j - 1, key, sequence, start);
      ChainAt(core, k, ps, j - 1);
      var w := Applied(core, env, Before(k, ps, j - 1), ps[j - 1]);
      EntryKeeps(env, Before(k, ps, j - 1), w, ps[j - 1].entry, key, sequence, start);
    }
  }

  /** This entry is a client's request that runs, with a reply within the policy's limit. */
  ghost predicate Effective(p: Policy, k: Composite, e: D.Entry, m: Meaning) {
    m.Ask? && DecodeCommand(m.command).Some? && m.session.Some? && m.session.value.1 != 0 &&
    Runs(p, k.table, m.session.value.0, m.session.value.1, m.command, m.at) &&
    var ran := RunOn(p, k.kv, e, DecodeCommand(m.command).value, m.at);
    ran.Some? && ReplyFits(ran.value.1) && |EncodeReply(ran.value.1)| <= p.maxReplyBytes
  }

  /** An effective request is answered as the machine answered, and recorded. */
  lemma EffectiveIsRecorded(p: Policy, rules: AdminRules, k: Composite, e: D.Entry, m: Meaning)
    requires Effective(p, k, e, m) && ValidPolicy(p)
    ensures var (key, sequence) := m.session.value;
            var reply := RunOn(p, k.kv, e, DecodeCommand(m.command).value, m.at).value.1;
            Asked(p, k, e, m).Some? && Asked(p, k, e, m).value.1 == reply &&
            var t := Asked(p, k, e, m).value.0.table;
            Remembers(t, key, sequence, m.command, EncodeReply(reply)) && Since(t, key, sequence, m.at)
  {
    hide DecodeCommand, RunOn, EncodeReply, ReplyFits, Sum, DecodeReply;
    var (key, sequence) := m.session.value;
    var reply := RunOn(p, k.kv, e, DecodeCommand(m.command).value, m.at).value.1;
    AnswerDoesNotDecide(p, k.table, key, sequence, m.command, m.at, reply);
    RanIsRemembered(p, rules, k.table, User(key, sequence, m.command, m.at, reply));
  }

  /** The same for the entry as a whole, sweep included. */
  lemma EntryIsRecorded<W>(env: Env<W>, k: Composite, w: W, e: D.Entry)
    requires Prepare(env, k, w, e).Some? && Effective(env.policy, k, e, env.meaning(e).value) && ValidPolicy(env.policy)
    requires InTime(env.policy, env.meaning(e).value.at, env.meaning(e).value)
    ensures var m := env.meaning(e).value;
            var (key, sequence) := m.session.value;
            var reply := RunOn(env.policy, k.kv, e, DecodeCommand(m.command).value, m.at).value.1;
            Asked(env.policy, k, e, m).value.1 == reply &&
            var t := Prepare(env, k, w, e).value.k.table;
            Remembers(t, key, sequence, m.command, EncodeReply(reply)) && Since(t, key, sequence, m.at)
  {
    hide Asked, Swept, InTime, RunOn, EncodeReply, DecodeCommand, Runs, Sensible, ReplyFits;
    var m := env.meaning(e).value;
    EffectiveIsRecorded(env.policy, env.rules, k, e, m);
    SweptKeeps(env.policy, env.rules, Asked(env.policy, k, e, m).value.0, m, env.pinned(w), m.session.value.0, m.session.value.1, m.at);
  }

  /** A request the table remembers is answered from what it remembers. */
  lemma AgainAnswers(p: Policy, k: Composite, e: D.Entry, m: Meaning, key: Key, sequence: u64, start: u64, reply: Reply)
    requires m.Ask? && DecodeCommand(m.command).Some? && m.session == Some((key, sequence)) && sequence != 0 && InTime(p, start, m)
    requires ReplyFits(reply) && Remembers(k.table, key, sequence, m.command, EncodeReply(reply)) && Since(k.table, key, sequence, start)
    ensures Asked(p, k, e, m).Some? && (Asked(p, k, e, m).value.1 == reply <==> Cacheable(reply))
  {
    hide DecodeCommand, RunOn, EncodeReply, ReplyFits, Cacheable, ApplyUser;
    OkFits();
    var q := User(key, sequence, m.command, m.at, Ok);
    RetryAnswers(p, k.table, q, User(key, sequence, m.command, m.at, reply));
    NoRules(p, k.table, q, key, sequence, start);
  }

  lemma NoRules(p: Policy, t: Table, q: Request, key: Key, sequence: u64, start: u64)
    requires Encodes(q) && Since(t, key, sequence, start) && Timely(p, start, q.at) && q.User? && ExactlyOnce.Repeats(q, key, sequence)
    ensures !Ran(p, t, q)
  {
    hide Encodes, Ran;
    RequestKeeps(p, AdminRules((x, y) => x == y, x => true), t, q, key, sequence, start);
  }

  /** The reply to an entry that asks again is the remembered one exactly when that reads back. */
  ghost predicate AnswersAs<W(!new)>(env: Env<W>, k: Composite, p: D.Prepared<Composite, W>, reply: Reply) {
    var m := Says(env, p);
    m.Ask? && DecodeCommand(m.command).Some? &&
    var again := Asked(env.policy, k, p.entry, m);
    again.Some? && (again.value.1 == reply <==> Cacheable(reply))
  }

  /** Entries applied to a state whose table has seen a sequence: asking for it again leaves the store
      alone, and the request the table remembers is answered from memory. */
  lemma RememberedInChain<W(!new)>(core: D.Core<Composite, W>, env: Env<W>, k: Composite, ps: seq<D.Prepared<Composite, W>>, i: nat, j: nat,
                                   key: Key, sequence: u64, start: u64, command: Bytes, reply: Reply)
    requires Obeys(core, env) && D.Chain(core, k, ps) && i <= j < |ps| && AllInTime(env, ps, i, j + 1, start)
    requires Since(Before(k, ps, i).table, key, sequence, start) && AsksAgain(Says(env, ps[j]), key, sequence)
    requires ReplyFits(reply) && Remembers(Before(k, ps, i).table, key, sequence, command, EncodeReply(reply))
    ensures ps[j].k.kv.state == Before(k, ps, j).kv.state
    ensures Says(env, ps[j]).session == Some((key, sequence)) && Says(env, ps[j]).command == command &&
            NoneSupersedes(env, ps, i, j, key, sequence) ==>
              AnswersAs(env, Before(k, ps, j), ps[j], reply)
  {
    hide Prepare, InTime, Supersedes, Obeys, D.Chain, Asked, EncodeReply, ReplyFits, Cacheable, DecodeCommand, D.Derives;
    StretchKeeps(core, env, k, ps, i, j, key, sequence, start);
    ChainAt(core, k, ps, j);
    var w := Applied(core, env, Before(k, ps, j), ps[j]);
    EntryKeeps(env, Before(k, ps, j), w, ps[j].entry, key, sequence, start);
    var again := Says(env, ps[j]);
    if again.session == Some((key, sequence)) && again.command == command && NoneSupersedes(env, ps, i, j, key, sequence) {
      StillRemembers(Before(k, ps, i).table, Before(k, ps, j).table, key, sequence, command, EncodeReply(reply), start);
      AskedIsSome(env, Before(k, ps, j), w, ps[j].entry);
      AgainAnswers(env.policy, Before(k, ps, j), ps[j].entry, again, key, sequence, start, reply);
    }
  }

  /** What the machine answered an effective request. */
  ghost function Given<W(!new)>(env: Env<W>, k: Composite, p: D.Prepared<Composite, W>): Reply
    requires Effective(env.policy, k, p.entry, Says(env, p))
  {
    RunOn(env.policy, k.kv, p.entry, DecodeCommand(Says(env, p).command).value, Says(env, p).at).value.1
  }

  /** An effective request in a chain is recorded with what the machine answered. */
  lemma EffectiveInChain<W(!new)>(core: D.Core<Composite, W>, env: Env<W>, k: Composite, ps: seq<D.Prepared<Composite, W>>, i: nat)
    requires Obeys(core, env) && ValidPolicy(env.policy) && D.Chain(core, k, ps) && i < |ps|
    requires Effective(env.policy, Before(k, ps, i), ps[i].entry, Says(env, ps[i])) && AllInTime(env, ps, i, i + 1, Says(env, ps[i]).at)
    ensures var m, reply := Says(env, ps[i]), Given(env, Before(k, ps, i), ps[i]);
            ReplyFits(reply) && Remembers(ps[i].k.table, m.session.value.0, m.session.value.1, m.command, EncodeReply(reply)) &&
            Since(ps[i].k.table, m.session.value.0, m.session.value.1, m.at) && Asked(env.policy, Before(k, ps, i), ps[i].entry, m).Some? &&
            Asked(env.policy, Before(k, ps, i), ps[i].entry, m).value.1 == reply
  {
    hide Prepare, InTime, Obeys, D.Chain, Asked, RunOn, Runs, EncodeReply, ReplyFits, DecodeCommand, ValidPolicy, Since, Remembers, D.Derives;
    ChainAt(core, k, ps, i);
    var w := Applied(core, env, Before(k, ps, i), ps[i]);
    EntryIsRecorded(env, Before(k, ps, i), w, ps[i].entry);
    AskedIsSome(env, Before(k, ps, i), w, ps[i].entry);
  }

  /** The `i`th entry takes effect, and the `j`th asks for it, or for an earlier one, again, in time. */
  ghost predicate AskedLater<W(!new)>(env: Env<W>, k: Composite, ps: seq<D.Prepared<Composite, W>>, i: nat, j: nat) {
    i < j < |ps| && Effective(env.policy, Before(k, ps, i), ps[i].entry, Says(env, ps[i])) &&
    AllInTime(env, ps, i, j + 1, Says(env, ps[i]).at) &&
    AsksAgain(Says(env, ps[j]), Says(env, ps[i]).session.value.0, Says(env, ps[i]).session.value.1)
  }

  /** The first was answered as the machine answered; the later one left the store alone and, if it is the
      same request and still the latest, was answered with that reply exactly when it reads back. */
  ghost predicate TookEffectOnce<W(!new)>(env: Env<W>, k: Composite, ps: seq<D.Prepared<Composite, W>>, i: nat, j: nat)
    requires AskedLater(env, k, ps, i, j)
  {
    var m, again := Says(env, ps[i]), Says(env, ps[j]);
    var first := Asked(env.policy, Before(k, ps, i), ps[i].entry, m);
    var reply := Given(env, Before(k, ps, i), ps[i]);
    first.Some? && first.value.1 == reply && ps[j].k.kv.state == Before(k, ps, j).kv.state &&
    (again.session == m.session && again.command == m.command &&
     NoneSupersedes(env, ps, i + 1, j, m.session.value.0, m.session.value.1) ==>
       AnswersAs(env, Before(k, ps, j), ps[j], reply))
  }

  /** Exactly once, over any run of a node, whatever its barriers, failures and errors.  Once a client's
      request has taken effect in an acknowledged entry, no later acknowledged entry with that sequence of
      the client, or an earlier one, touches the store before the session can have gone idle; and
      the same request, if it is still the latest, is answered with the original reply exactly when the
      reply codec reads that back. */
  lemma NodeExactlyOnce<W(!new)>(core: D.Core<Composite, W>, env: Env<W>, k: Composite, es: seq<D.Event<Composite, W>>, i: nat, j: nat)
    requires Obeys(core, env) && ValidPolicy(env.policy) && D.Run(core, D.Status(k, [], false), es).Some?
    requires AskedLater(env, k, D.Acked(core, D.Status(k, [], false), es), i, j)
    ensures TookEffectOnce(env, k, D.Acked(core, D.Status(k, [], false), es), i, j)
  {
    hide *;
    D.PublishedIsFold(core, k, es);
    OnceInChain(core, env, k, D.Acked(core, D.Status(k, [], false), es), i, j);
  }

  lemma OnceInChain<W(!new)>(core: D.Core<Composite, W>, env: Env<W>, k: Composite, ps: seq<D.Prepared<Composite, W>>, i: nat, j: nat)
    requires Obeys(core, env) && ValidPolicy(env.policy) && D.Chain(core, k, ps) && AskedLater(env, k, ps, i, j)
    ensures TookEffectOnce(env, k, ps, i, j)
  {
    hide InTime, Supersedes, Obeys, D.Chain, Asked, RunOn, Runs, EncodeReply, ReplyFits, Cacheable, DecodeCommand, ValidPolicy, Since, Remembers,
         AnswersAs, Given;
    var m := Says(env, ps[i]);
    EffectiveInChain(core, env, k, ps, i);
    RememberedInChain(core, env, k, ps, i + 1, j, m.session.value.0, m.session.value.1, m.at, m.command, Given(env, Before(k, ps, i), ps[i]));
  }

  /** The same for two requests one after the other. */
  lemma AskedAtOnce(p: Policy, rules: AdminRules, k: Composite, e: D.Entry, f: D.Entry, m: Meaning)
    requires Effective(p, k, e, m) && ValidPolicy(p) && InTime(p, m.at, m)
    ensures Asked(p, k, e, m).Some?
    ensures var (once, reply) := Asked(p, k, e, m).value;
            var again := Asked(p, once, f, m);
            again.Some? && again.value.0.kv == Mark(once.kv, f, m.at) && (again.value.1 == reply <==> Cacheable(reply))
  {
    hide DecodeCommand, RunOn, EncodeReply, ReplyFits, Cacheable, Asked, Runs, InTime, ValidPolicy;
    var (key, sequence) := m.session.value;
    EffectiveIsRecorded(p, rules, k, e, m);
    var (once, reply) := Asked(p, k, e, m).value;
    AgainAnswers(p, once, f, m, key, sequence, m.at, reply);
    AskedKeeps(p, rules, once, f, m, key, sequence, m.at);
  }

  lemma AskedIsSome<W>(env: Env<W>, k: Composite, w: W, e: D.Entry)
    requires Prepare(env, k, w, e).Some? && env.meaning(e).value.Ask?
    ensures DecodeCommand(env.meaning(e).value.command).Some? && Asked(env.policy, k, e, env.meaning(e).value).Some?
  {
    hide Asked, Swept, DecodeCommand, AdmissionError;
  }

  lemma StillRemembers(t: Table, u: Table, key: Key, sequence: u64, command: Bytes, reply: Bytes, start: u64)
    requires Remembers(t, key, sequence, command, reply) && Since(u, key, sequence, start) && SameWords(t, u, key)
    ensures Remembers(u, key, sequence, command, reply)
  {
  }

  // ------------------------------------------------------------------
  // What readers are told
  // ------------------------------------------------------------------

  /** The cursor is at the last entry applied. */
  lemma CursorMoves<W>(env: Env<W>, k: Composite, w: W, e: D.Entry)
    requires Prepare(env, k, w, e).Some?
    ensures Prepare(env, k, w, e).value.k.kv.appliedIndex == e.index
  {
    hide ApplyUser, ApplyAdmin, ExpireDue, DecodeCommand, AdmissionError, Kv.ApplyCommand, ReplyFits;
  }

  lemma CursorOf<W(!new)>(core: D.Core<Composite, W>, env: Env<W>, k: Composite, ps: seq<D.Prepared<Composite, W>>)
    requires Obeys(core, env) && D.Chain(core, k, ps)
    ensures D.Final(k, ps).kv.appliedIndex == if ps == [] then k.kv.appliedIndex else ps[|ps| - 1].entry.index
  {
    hide Prepare, Obeys, D.Chain, D.Derives;
    if ps != [] {
      var n := |ps| - 1;
      ChainAt(core, k, ps, n);
      var w := Applied(core, env, Before(k, ps, n), ps[n]);
      CursorMoves(env, Before(k, ps, n), w, ps[n].entry);
    }
  }

  /** An answer to a read that was waiting, given from the state `k`, which is not behind the read. */
  ghost predicate AnswerFrom<W(!new)>(env: Env<W>, w: W, k: Composite, out: Bytes) {
    exists q | q in env.waiting(w) :: q.index <= k.kv.appliedIndex && out == env.tell(q, ReadOn(k.kv, q.command, q.at))
  }

  lemma {:induction false} ToldAreAnswers<W(!new)>(env: Env<W>, w: W, k: Composite, qs: seq<Read>)
    requires forall q | q in qs :: q in env.waiting(w)
    ensures forall out | out in Told(env, w, k, qs) :: AnswerFrom(env, w, k, out)
    decreases |qs|
  {
    hide ReadOn;
    if qs != [] {
      ToldAreAnswers(env, w, k, qs[1..]);
      assert qs[0] in env.waiting(w);
    }
  }

  /** Over any run of a node, every read is answered as the machine answers it on the sequential application
      of exactly the entries acknowledged before it, and only once the last of those has reached the
      read's index: a Get shows the value visible there and then. */
  lemma NodeReads<W(!new)>(core: D.Core<Composite, W>, env: Env<W>, k: Composite, es: seq<D.Event<Composite, W>>, i: nat) returns (w: W)
    requires Obeys(core, env) && D.Run(core, D.Status(k, [], false), es).Some? && i < |es| && es[i].Reads?
    ensures D.Run(core, D.Status(k, [], false), es[..i]).Some?
    ensures var ps := D.Acked(core, D.Status(k, [], false), es[..i]);
            var state := D.Final(k, ps);
            es[i].outs == Drain(env, w, state).1 && (forall out | out in es[i].outs :: AnswerFrom(env, w, state, out)) &&
            state.kv.appliedIndex == (if ps == [] then k.kv.appliedIndex else ps[|ps| - 1].entry.index)
  {
    hide Prepare, D.Chain, D.Run, D.Acked, Told, AnswerFrom;
    D.ReadsSeeAcknowledged(core, k, es, i);
    var ps := D.Acked(core, D.Status(k, [], false), es[..i]);
    CursorOf(core, env, k, ps);
    var state := D.Final(k, ps);
    w :| core.drain(w, state).1 == es[i].outs;
    ToldAreAnswers(env, w, state, env.waiting(w));
  }

  // ------------------------------------------------------------------
  // What every run keeps
  // ------------------------------------------------------------------

  /** The machine's invariant, and a retry table within policy. */
  ghost predicate Valid(p: Policy, k: Composite) {
    Kv.Invariant(k.kv.state) && Within(p, k.table)
  }

  lemma RunOnKeeps(p: Policy, r: S.Replica, e: D.Entry, c: Command, at: u64)
    requires Kv.Invariant(r.state) && RunOn(p, r, e, c, at).Some?
    ensures Kv.Invariant(RunOn(p, r, e, c, at).value.0.state) && ReplyFits(RunOn(p, r, e, c, at).value.1)
  {
    hide Kv.ApplyCommand, Kv.Invariant, ReplyFits;
    Kv.CommandKeepsInvariant(r.state, c, Later(r, at), LimitsOf(p));
  }

  lemma AskedKeepsValid(p: Policy, k: Composite, e: D.Entry, m: Meaning, pinned: Option<Key>)
    requires ValidPolicy(p) && Valid(p, k) && m.Ask? && DecodeCommand(m.command).Some? && Asked(p, k, e, m).Some?
    ensures Valid(p, Swept(p, Asked(p, k, e, m).value.0, m, pinned))
  {
    hide DecodeCommand, RunOn, ApplyUser, Within, ReplyFits, Kv.Invariant, RetireAll, Chosen;
    var c := DecodeCommand(m.command).value;
    OkFits();
    if RunOn(p, k.kv, e, c, m.at).Some? {
      RunOnKeeps(p, k.kv, e, c, m.at);
    }
    if m.session.Some? {
      var (key, sequence) := m.session.value;
      var answer := if Runs(p, k.table, key, sequence, m.command, m.at) then RunOn(p, k.kv, e, c, m.at).value.1 else Ok;
      UserKeeps(p, k.table, key, sequence, m.command, m.at, answer);
    }
    if c.ExpireSessions? {
      var t := Asked(p, k, e, m).value.0.table;
      RetireKeeps(p, t, Chosen(p, t, c.upTo, p.maxKeysPerExpirySweep, pinned), c.upTo);
    }
  }

  lemma ConfiguredKeepsValid<W>(env: Env<W>, k: Composite, w: W, e: D.Entry, m: Meaning)
    requires ValidPolicy(env.policy) && Valid(env.policy, k) && m.Configure? && Configured(env, k, w, e, m).Some?
    ensures Valid(env.policy, Configured(env, k, w, e, m).value.0)
  {
    hide ApplyAdmin, Within, Kv.Invariant;
    if m.request.Some? {
      var (key, sequence, command) := m.request.value;
      AdminKeeps(env.policy, env.rules, k.table, key, sequence, command, m.at, env.configure(w, e).1);
    }
  }

  lemma EntryKeepsValid<W>(env: Env<W>, k: Composite, w: W, e: D.Entry)
    requires ValidPolicy(env.policy) && Valid(env.policy, k) && Prepare(env, k, w, e).Some?
    ensures Valid(env.policy, Prepare(env, k, w, e).value.k)
  {
    hide Asked, Swept, Configured, Within, Kv.Invariant, DecodeCommand, AdmissionError, ValidPolicy;
    var m := env.meaning(e).value;
    match m
    case Nothing =>
    case Configure(_, _) => ConfiguredKeepsValid(env, k, w, e, m);
    case Ask(_, _, _, _) => AskedKeepsValid(env.policy, k, e, m, env.pinned(w));
  }

  lemma {:induction false} ChainKeepsValid<W(!new)>(core: D.Core<Composite, W>, env: Env<W>, k: Composite, ps: seq<D.Prepared<Composite, W>>, n: nat)
    requires Obeys(core, env) && ValidPolicy(env.policy) && Valid(env.policy, k) && D.Chain(core, k, ps) && n <= |ps|
    ensures Valid(env.policy, Before(k, ps, n))
    decreases n
  {
    hide Prepare, Valid, Obeys, D.Chain, ValidPolicy;
    if n > 0 {
      ChainKeepsValid(core, env, k, ps, n - 1);
      ChainAt(core, k, ps, n - 1);
      var w := Applied(core, env, Before(k, ps, n - 1), ps[n - 1]);
      EntryKeepsValid(env, Before(k, ps, n - 1), w, ps[n - 1].entry);
    }
  }

  /** Whatever a node goes through, what it publishes satisfies the machine's invariant and keeps the
      retry table within policy. */
  lemma PublishedIsValid<W(!new)>(core: D.Core<Composite, W>, env: Env<W>, k: Composite, es: seq<D.Event<Composite, W>>)
    requires Obeys(core, env) && ValidPolicy(env.policy) && Valid(env.policy, k) && D.Run(core, D.Status(k, [], false), es).Some?
    ensures Valid(env.policy, D.Run(core, D.Status(k, [], false), es).value.k)
  {
    hide Prepare, Valid, Obeys, D.Chain, ValidPolicy, D.Run, D.Acked, D.Shaped;
    D.PublishedIsFold(core, k, es);
    var ps := D.Acked(core, D.Status(k, [], false), es);
    ChainKeepsValid(core, env, k, ps, |ps|);
  }
}
