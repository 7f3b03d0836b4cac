/** A node's published state taken apart: the key/value machine has run exactly the commands the retry
    table let through, in order and at times that never go back, and the table has seen exactly the
    requests of the acknowledged entries. */
module Ledger {
  import opened Prelude
  import opened KvCodec
  import opened ReplyCodec
  import opened ClusterConfig
  import opened Sessions
  import opened ExactlyOnce
  import opened Replication
  import opened SessionMemory
  import Kv = KvModel
  import D = Durability

  // ------------------------------------------------------------------
  // What one entry asks of the table and of the machine
  // ------------------------------------------------------------------

  /** A command of the machine, at the time it runs. */
  datatype Timed = Timed(command: Command, at: u64)

  /** The table lets the entry's command run; one without a session always does. */
  ghost predicate LetThrough(p: Policy, t: Table, m: Meaning) {
    m.Ask? && DecodeCommand(m.command).Some? &&
    (m.session.Some? ==> Replication.Runs(p, t, m.session.value.0, m.session.value.1, m.command, m.at))
  }

  /** What the machine would answer. */
  ghost function MachineReply(p: Policy, k: Composite, m: Meaning): Reply
    requires m.Ask? && DecodeCommand(m.command).Some?
  {
    var o := Kv.ApplyCommand(k.kv.state, DecodeCommand(m.command).value, Clock(k.kv.lastLeaderTime, m.at), LimitsOf(p)).1;
    if o.Done? then o.reply else if o.Failed? then Error(o.error) else Ok
  }

  function Clock(last: u64, at: u64): u64 {
    if last < at then at else last
  }

  /** The commands an entry runs on the machine: its own, if the table lets it. */
  ghost function CommandsOf(p: Policy, k: Composite, m: Meaning): seq<Timed> {
    if LetThrough(p, k.table, m) then [Timed(DecodeCommand(m.command).value, Clock(k.kv.lastLeaderTime, m.at))] else []
  }

  /** The requests an entry makes of the table: a client's or an operator's, and a sweep when its command is
      to expire sessions. */
  ghost function RequestsOf<W>(env: Env<W>, k: Composite, w: W, e: D.Entry, m: Meaning): seq<Request>
    requires m.Ask? ==> DecodeCommand(m.command).Some?
  {
    match m
    case Nothing => []
    case Configure(request, at) =>
      if request.None? then []
      else [Admin(request.value.0, request.value.1, request.value.2, at, env.configure(w, e).1)]
    case Ask(session, command, at, _) =>
      var c := DecodeCommand(command).value;
      (if session.None? then [] else [User(session.value.0, session.value.1, command, at, AnswerFor(env.policy, k, m))]) +
      (if c.ExpireSessions? then [Request.Expire(c.upTo, env.policy.maxKeysPerExpirySweep, env.pinned(w))] else [])
  }

  ghost function AnswerFor(p: Policy, k: Composite, m: Meaning): Reply
    requires m.Ask? && DecodeCommand(m.command).Some?
  {
    if LetThrough(p, k.table, m) then MachineReply(p, k, m) else Ok
  }

  ghost function TimeOf(m: Meaning): u64 {
    if m.Nothing? then 0 else m.at
  }

  // ------------------------------------------------------------------
  // Running lists of them
  // ------------------------------------------------------------------

  function Execute(s: Kv.State, cs: seq<Timed>, limits: Kv.Limits): Kv.State {
    if cs == [] then s
    else Kv.ApplyCommand(Execute(s, cs[..|cs| - 1], limits), cs[|cs| - 1].command, cs[|cs| - 1].at, limits).0
  }

  lemma ExecuteOne(s: Kv.State, c: Timed, limits: Kv.Limits)
    ensures Execute(s, [c], limits) == Kv.ApplyCommand(s, c.command, c.at, limits).0
  {
    hide Kv.ApplyCommand;
    assert [c][..0] == [];
    assert Execute(s, [], limits) == s;
  }

  lemma AfterOne(p: Policy, rules: AdminRules, t: Table, q: Request)
    requires Encodes(q)
    ensures AllEncode([q]) && After(p, rules, t, [q]) == Next(p, rules, t, q)
  {
    hide Next, Encodes;
    assert [q][..0] == [];
    assert After(p, rules, t, []) == t;
  }

  lemma AfterTwo(p: Policy, rules: AdminRules, t: Table, q: Request, r: Request)
    requires Encodes(q) && Encodes(r)
    ensures AllEncode([q, r]) && After(p, rules, t, [q, r]) == Next(p, rules, Next(p, rules, t, q), r)
  {
    hide Next, Encodes;
    assert [q, r][..1] == [q];
    AfterOne(p, rules, t, q);
  }

  lemma AfterNone(p: Policy, rules: AdminRules, t: Table)
    ensures AllEncode([]) && After(p, rules, t, []) == t
  {
  }

  // ------------------------------------------------------------------
  // One entry
  // ------------------------------------------------------------------

  /** The entry's effect is its commands on the machine and its requests on the table. */
  ghost predicate TakenApart<W>(env: Env<W>, k: Composite, w: W, e: D.Entry, after: Composite) {
    env.meaning(e).Some? &&
    var m := env.meaning(e).value;
    (m.Ask? ==> DecodeCommand(m.command).Some?) &&
    var qs := RequestsOf(env, k, w, e, m);
    AllEncode(qs) && after.table == After(env.policy, env.rules, k.table, qs) &&
    after.kv.state == Execute(k.kv.state, CommandsOf(env.policy, k, m), LimitsOf(env.policy)) &&
    after.kv.lastLeaderTime == Clock(k.kv.lastLeaderTime, TimeOf(m)) && after.kv.appliedIndex == e.index && after.kv.appliedTerm == e.term
  }

  lemma RunOnIs(p: Policy, k: Composite, e: D.Entry, m: Meaning)
    requires m.Ask? && DecodeCommand(m.command).Some? && RunOn(p, k.kv, e, DecodeCommand(m.command).value, m.at).Some?
    ensures var (r, reply) := RunOn(p, k.kv, e, DecodeCommand(m.command).value, m.at).value;
            reply == MachineReply(p, k, m) && ReplyFits(reply) &&
            r.state == Execute(k.kv.state, [Timed(DecodeCommand(m.command).value, Clock(k.kv.lastLeaderTime, m.at))], LimitsOf(p)) &&
            r.lastLeaderTime == Clock(k.kv.lastLeaderTime, m.at) && r.appliedIndex == e.index && r.appliedTerm == e.term
  {
    hide DecodeCommand, ReplyFits, Execute, Kv.ApplyCommand;
    ExecuteOne(k.kv.state, Timed(DecodeCommand(m.command).value, Clock(k.kv.lastLeaderTime, m.at)), LimitsOf(p));
  }

  /** The cursor, the clock and the machine after a client's command. */
  ghost predicate MachineSide(p: Policy, k: Composite, e: D.Entry, m: Meaning, after: Composite) {
    after.kv.state == Execute(k.kv.state, CommandsOf(p, k, m), LimitsOf(p)) &&
    after.kv.lastLeaderTime == Clock(k.kv.lastLeaderTime, TimeOf(m)) && after.kv.appliedIndex == e.index && after.kv.appliedTerm == e.term
  }

  lemma AskedApart(p: Policy, rules: AdminRules, k: Composite, e: D.Entry, m: Meaning)
    requires m.Ask? && DecodeCommand(m.command).Some? && Asked(p, k, e, m).Some?
    ensures MachineSide(p, k, e, m, Asked(p, k, e, m).value.0)
    ensures m.session.None? ==> Asked(p, k, e, m).value.0.table == k.table
    ensures m.session.Some? ==>
              var q := User(m.session.value.0, m.session.value.1, m.command, m.at, AnswerFor(p, k, m));
              Encodes(q) && Asked(p, k, e, m).value.0.table == Next(p, rules, k.table, q) &&
              Asked(p, k, e, m).value.1 == ReplyTo(p, k.table, q)
    ensures m.session.None? ==> Asked(p, k, e, m).value.1 == MachineReply(p, k, m)
  {
    hide DecodeCommand, ReplyFits, RunOn, ApplyUser, MachineReply, Execute;
    OkFits();
    assert Execute(k.kv.state, [], LimitsOf(p)) == k.kv.state by { ExecuteNone(k.kv.state, LimitsOf(p)); }
    if LetThrough(p, k.table, m) {
      RunOnIs(p, k, e, m);
    }
  }

  lemma ExecuteNone(s: Kv.State, limits: Kv.Limits)
    ensures Execute(s, [], limits) == s
  {
  }

  /** Every entry that is applied is taken apart so. */
  lemma EntryTakenApart<W>(env: Env<W>, k: Composite, w: W, e: D.Entry)
    requires Prepare(env, k, w, e).Some?
    ensures TakenApart(env, k, w, e, Prepare(env, k, w, e).value.k)
  {
    hide Asked, Configured, DecodeCommand, AdmissionError, CommandsOf, Execute, ApplyUser, ApplyAdmin, ExpireDue, RequestsOf;
    var m := env.meaning(e).value;
    match m
    case Nothing => NothingApart(env, k, w, e);
    case Configure(_, _) => ConfiguredApart(env, k, w, e);
    case Ask(_, _, _, _) => AskApart(env, k, w, e);
  }

  lemma NothingApart<W>(env: Env<W>, k: Composite, w: W, e: D.Entry)
    requires Prepare(env, k, w, e).Some? && env.meaning(e) == Some(Nothing)
    ensures TakenApart(env, k, w, e, Prepare(env, k, w, e).value.k)
  {
    hide DecodeCommand, Execute, Asked, Configured;
    ExecuteNone(k.kv.state, LimitsOf(env.policy));
    AfterNone(env.policy, env.rules, k.table);
  }

  lemma ConfiguredApart<W>(env: Env<W>, k: Composite, w: W, e: D.Entry)
    requires Prepare(env, k, w, e).Some? && env.meaning(e).value.Configure?
    ensures TakenApart(env, k, w, e, Prepare(env, k, w, e).value.k)
  {
    hide DecodeCommand, Execute, Asked, ApplyAdmin, After, AllEncode;
    var m := env.meaning(e).value;
    ExecuteNone(k.kv.state, LimitsOf(env.policy));
    AfterNone(env.policy, env.rules, k.table);
    if m.request.Some? {
      AfterOne(env.policy, env.rules, k.table, Admin(m.request.value.0, m.request.value.1, m.request.value.2, m.at, env.configure(w, e).1));
    }
  }

  lemma AskApart<W>(env: Env<W>, k: Composite, w: W, e: D.Entry)
    requires Prepare(env, k, w, e).Some? && env.meaning(e).value.Ask?
    ensures TakenApart(env, k, w, e, Prepare(env, k, w, e).value.k)
  {
    hide DecodeCommand, Execute, Asked, ApplyUser, ExpireDue, After, AllEncode, AdmissionError, CommandsOf, AnswerFor, ReplyTo, MachineReply;
    var p, rules, m := env.policy, env.rules, env.meaning(e).value;
    AskedIsSome(env, k, w, e);
    AskedApart(p, rules, k, e, m);
    AfterNone(p, rules, k.table);
    var c := DecodeCommand(m.command).value;
    var sweep := Request.Expire(if c.ExpireSessions? then c.upTo else 0, p.maxKeysPerExpirySweep, env.pinned(w));
    if m.session.Some? {
      var q := User(m.session.value.0, m.session.value.1, m.command, m.at, AnswerFor(p, k, m));
      AfterOne(p, rules, k.table, q);
      if c.ExpireSessions? {
        AfterTwo(p, rules, k.table, q, sweep);
        assert [q] + [sweep] == [q, sweep];
      } else {
        assert [q] + [] == [q];
      }
    } else if c.ExpireSessions? {
      AfterOne(p, rules, k.table, sweep);
      assert RequestsOf(env, k, w, e, m) == [sweep];
    } else {
      assert RequestsOf(env, k, w, e, m) == [];
    }
  }

  // ------------------------------------------------------------------
  // Whole runs
  // ------------------------------------------------------------------

  /** A list of lists, one after the other. */
  function Flatten<T>(xs: seq<seq<T>>): seq<T> {
    if xs == [] then [] else Flatten(xs[..|xs| - 1]) + xs[|xs| - 1]
  }

  lemma {:induction false} ExecuteMore(s: Kv.State, a: seq<Timed>, b: seq<Timed>, limits: Kv.Limits)
    ensures Execute(s, a + b, limits) == Execute(Execute(s, a, limits), b, limits)
    decreases |b|
  {
    hide Kv.ApplyCommand;
    if b == [] {
      assert a + b == a;
    } else {
      assert (a + b)[..|a + b| - 1] == a + b[..|b| - 1];
      ExecuteMore(s, a, b[..|b| - 1], limits);
    }
  }

  lemma {:induction false} AfterMore(p: Policy, rules: AdminRules, t: Table, a: seq<Request>, b: seq<Request>)
    requires AllEncode(a) && AllEncode(b)
    ensures AllEncode(a + b) && After(p, rules, t, a + b) == After(p, rules, After(p, rules, t, a), b)
    decreases |b|
  {
    hide Next, Encodes;
    if b == [] {
      assert a + b == a;
    } else {
      assert (a + b)[..|a + b| - 1] == a + b[..|b| - 1];
      AfterMore(p, rules, t, a, b[..|b| - 1]);
    }
  }

  /** How the state `k` became `after`: these commands and requests, one list for each entry. */
  ghost predicate Accounts<W(!new)>(env: Env<W>, k: Composite, ps: seq<D.Prepared<Composite, W>>, ws: seq<W>,
                                    commands: seq<seq<Timed>>, requests: seq<seq<Request>>)
  {
    |ws| == |ps| && |commands| == |ps| && |requests| == |ps| &&
    forall i | 0 <= i < |ps| :: AccountsFor(env, Before(k, ps, i), ws[i], ps[i], commands[i], requests[i])
  }

  ghost predicate AccountsFor<W(!new)>(env: Env<W>, k: Composite, w: W, p: D.Prepared<Composite, W>, commands: seq<Timed>, requests: seq<Request>) {
    var m := Says(env, p);
    Prepare(env, k, w, p.entry) == Some(p) && env.meaning(p.entry) == Some(m) && (m.Ask? ==> DecodeCommand(m.command).Some?) &&
    commands == CommandsOf(env.policy, k, m) && requests == RequestsOf(env, k, w, p.entry, m) &&
    p.k.kv.lastLeaderTime == Clock(k.kv.lastLeaderTime, TimeOf(m))
  }

  /** The published state is the machine and the table after exactly those. */
  ghost predicate Balanced<W(!new)>(env: Env<W>, k: Composite, after: Composite, commands: seq<seq<Timed>>, requests: seq<seq<Request>>) {
    AllEncode(Flatten(requests)) && after.table == After(env.policy, env.rules, k.table, Flatten(requests)) &&
    after.kv.state == Execute(k.kv.state, Flatten(commands), LimitsOf(env.policy))
  }

  lemma AccountsSnoc<W(!new)>(env: Env<W>, k: Composite, ps: seq<D.Prepared<Composite, W>>, ws: seq<W>,
                              commands: seq<seq<Timed>>, requests: seq<seq<Request>>, p: D.Prepared<Composite, W>, w: W, cs: seq<Timed>, qs: seq<Request>)
    requires Accounts(env, k, ps, ws, commands, requests) && AccountsFor(env, Before(k, ps, |ps|), w, p, cs, qs)
    ensures Accounts(env, k, ps + [p], ws + [w], commands + [cs], requests + [qs])
  {
    hide AccountsFor;
    assert forall i | 0 <= i <= |ps| :: Before(k, ps + [p], i) == Before(k, ps, i);
  }

  lemma AccountsFront<W(!new)>(env: Env<W>, k: Composite, ps: seq<D.Prepared<Composite, W>>, ws: seq<W>,
                               commands: seq<seq<Timed>>, requests: seq<seq<Request>>)
    requires Accounts(env, k, ps, ws, commands, requests) && ps != []
    ensures var n := |ps| - 1;
            Accounts(env, k, ps[..n], ws[..n], commands[..n], requests[..n]) &&
            AccountsFor(env, D.Final(k, ps[..n]), ws[n], ps[n], commands[n], requests[n])
  {
    hide AccountsFor;
    var n := |ps| - 1;
    assert forall i | 0 <= i <= n :: Before(k, ps[..n], i) == Before(k, ps, i);
    assert Before(k, ps, n) == D.Final(k, ps[..n]);
  }

  lemma {:induction false} ChainBalances<W(!new)>(core: D.Core<Composite, W>, env: Env<W>, k: Composite, ps: seq<D.Prepared<Composite, W>>)
    returns (ws: seq<W>, commands: seq<seq<Timed>>, requests: seq<seq<Request>>)
    requires Obeys(core, env) && D.Chain(core, k, ps)
    ensures Accounts(env, k, ps, ws, commands, requests) && Balanced(env, k, D.Final(k, ps), commands, requests)
    decreases |ps|
  {
    if ps == [] {
      ws, commands, requests := [], [], [];
      hide After, Execute, AccountsFor, Obeys, D.Chain;
      AfterNone(env.policy, env.rules, k.table);
      ExecuteNone(k.kv.state, LimitsOf(env.policy));
    } else {
      hide *;
      var n := |ps| - 1;
      ChainFront(core, k, ps);
      ws, commands, requests := ChainBalances(core, env, k, ps[..n]);
      var w, cs, qs := LastBalances(core, env, k, ps, commands, requests);
      LastIsFinal(k, ps);
      AccountsSnoc(env, k, ps[..n], ws, commands, requests, ps[n], w, cs, qs);
      assert ps == ps[..n] + [ps[n]];
      ws, commands, requests := ws + [w], commands + [cs], requests + [qs];
    }
  }

  lemma LastIsFinal<W>(k: Composite, ps: seq<D.Prepared<Composite, W>>)
    requires ps != []
    ensures D.Final(k, ps) == ps[|ps| - 1].k
    ensures Before(k, ps[..|ps| - 1], |ps| - 1) == D.Final(k, ps[..|ps| - 1]) == Before(k, ps, |ps| - 1)
  {
  }

  lemma LastBalances<W(!new)>(core: D.Core<Composite, W>, env: Env<W>, k: Composite, ps: seq<D.Prepared<Composite, W>>,
                              commands: seq<seq<Timed>>, requests: seq<seq<Request>>) returns (w: W, cs: seq<Timed>, qs: seq<Request>)
    requires Obeys(core, env) && D.Chain(core, k, ps) && ps != [] && Balanced(env, k, D.Final(k, ps[..|ps| - 1]), commands, requests)
    ensures AccountsFor(env, D.Final(k, ps[..|ps| - 1]), w, ps[|ps| - 1], cs, qs)
    ensures Balanced(env, k, ps[|ps| - 1].k, commands + [cs], requests + [qs])
  {
    hide Prepare, Obeys, D.Chain, D.Derives, AccountsFor, TakenApart, Balanced;
    var n := |ps| - 1;
    LastIsFinal(k, ps);
    ChainAt(core, k, ps, n);
    w := Replication.Applied(core, env, Before(k, ps, n), ps[n]);
    EntryTakenApart(env, Before(k, ps, n), w, ps[n].entry);
    cs, qs := OneMore(env, k, Before(k, ps, n), w, ps[n], commands, requests);
  }

  lemma OneMore<W(!new)>(env: Env<W>, k: Composite, before: Composite, w: W, p: D.Prepared<Composite, W>,
                         commands: seq<seq<Timed>>, requests: seq<seq<Request>>) returns (cs: seq<Timed>, qs: seq<Request>)
    requires Balanced(env, k, before, commands, requests) && Prepare(env, before, w, p.entry) == Some(p)
    requires TakenApart(env, before, w, p.entry, p.k)
    ensures AccountsFor(env, before, w, p, cs, qs) && Balanced(env, k, p.k, commands + [cs], requests + [qs])
  {
    hide After, Execute, CommandsOf, RequestsOf, AllEncode, Prepare;
    var m := Says(env, p);
    cs, qs := CommandsOf(env.policy, before, m), RequestsOf(env, before, w, p.entry, m);
    assert (commands + [cs])[..|commands|] == commands && (requests + [qs])[..|requests|] == requests;
    ExecuteMore(k.kv.state, Flatten(commands), cs, LimitsOf(env.policy));
    AfterMore(env.policy, env.rules, k.table, Flatten(requests), qs);
  }

  lemma {:induction false} ChainFront<W(!new)>(core: D.Core<Composite, W>, k: Composite, ps: seq<D.Prepared<Composite, W>>)
    requires D.Chain(core, k, ps) && ps != []
    ensures D.Chain(core, k, ps[..|ps| - 1])
    decreases |ps|
  {
    hide D.Derives;
    if |ps| > 1 {
      ChainFront(core, ps[0].k, ps[1..]);
      assert ps[..|ps| - 1][1..] == ps[1..][..|ps| - 2];
    }
  }

  /** Commands run at times that never go back. */
  ghost predicate Onward(last: u64, cs: seq<Timed>) {
    (forall i | 0 <= i < |cs| :: last <= cs[i].at) && forall i, j | 0 <= i <= j < |cs| :: cs[i].at <= cs[j].at
  }

  /** All commands run by the time `now`. */
  ghost predicate DoneBy(now: u64, cs: seq<Timed>) {
    forall i | 0 <= i < |cs| :: cs[i].at <= now
  }

  lemma OnwardMore(last: u64, cs: seq<Timed>, more: seq<Timed>, now: u64, later: u64)
    requires Onward(last, cs) && DoneBy(now, cs) && last <= now <= later && |more| <= 1 && (more != [] ==> more[0].at == later)
    ensures Onward(last, cs + more) && DoneBy(later, cs + more)
  {
  }

  lemma CommandsAreTimed<W(!new)>(env: Env<W>, k: Composite, w: W, p: D.Prepared<Composite, W>, cs: seq<Timed>, qs: seq<Request>)
    requires AccountsFor(env, k, w, p, cs, qs)
    ensures k.kv.lastLeaderTime <= p.k.kv.lastLeaderTime && |cs| <= 1 && (cs != [] ==> cs[0].at == p.k.kv.lastLeaderTime)
  {
    hide RequestsOf, DecodeCommand, Replication.Runs, Prepare;
  }

  lemma {:induction false} TimesNeverGoBack<W(!new)>(env: Env<W>, k: Composite, ps: seq<D.Prepared<Composite, W>>, ws: seq<W>,
                                                     commands: seq<seq<Timed>>, requests: seq<seq<Request>>)
    requires Accounts(env, k, ps, ws, commands, requests)
    ensures Onward(k.kv.lastLeaderTime, Flatten(commands)) && DoneBy(D.Final(k, ps).kv.lastLeaderTime, Flatten(commands))
    ensures k.kv.lastLeaderTime <= D.Final(k, ps).kv.lastLeaderTime
    decreases |ps|
  {
    hide AccountsFor, Onward, DoneBy;
    if ps == [] {
      NothingYet(k.kv.lastLeaderTime);
    } else {
      var n := |ps| - 1;
      AccountsFront(env, k, ps, ws, commands, requests);
      TimesNeverGoBack(env, k, ps[..n], ws[..n], commands[..n], requests[..n]);
      var before := D.Final(k, ps[..n]);
      CommandsAreTimed(env, before, ws[n], ps[n], commands[n], requests[n]);
      OnwardMore(k.kv.lastLeaderTime, Flatten(commands[..n]), commands[n], before.kv.lastLeaderTime, ps[n].k.kv.lastLeaderTime);
    }
  }

  lemma NothingYet(last: u64)
    ensures Onward(last, []) && DoneBy(last, [])
  {
  }

  /** Over any run of a node, whatever its barriers, failures and errors: the published machine has run
      exactly the commands that the table let through, entry by entry and at times that never go back, and
      the published table has seen exactly the requests of the acknowledged entries. */
  lemma PublishedIsAccounted<W(!new)>(core: D.Core<Composite, W>, env: Env<W>, k: Composite, es: seq<D.Event<Composite, W>>)
    returns (ws: seq<W>, commands: seq<seq<Timed>>, requests: seq<seq<Request>>)
    requires Obeys(core, env) && D.Run(core, D.Status(k, [], false), es).Some?
    ensures var acked := D.Acked(core, D.Status(k, [], false), es);
            var now := D.Run(core, D.Status(k, [], false), es).value.k;
            Accounts(env, k, acked, ws, commands, requests) && Balanced(env, k, now, commands, requests) &&
            Onward(k.kv.lastLeaderTime, Flatten(commands))
  {
    hide *;
    D.PublishedIsFold(core, k, es);
    var acked := D.Acked(core, D.Status(k, [], false), es);
    ws, commands, requests := ChainBalances(core, env, k, acked);
    TimesNeverGoBack(env, k, acked, ws, commands, requests);
  }

  // ------------------------------------------------------------------
  // Exactly once, for as long as the table remembers
  // ------------------------------------------------------------------

  /** The table an entry met is the table after the requests of the entries before it. */
  lemma {:induction false} TableMet<W(!new)>(env: Env<W>, k: Composite, ps: seq<D.Prepared<Composite, W>>, ws: seq<W>,
                                             commands: seq<seq<Timed>>, requests: seq<seq<Request>>, n: nat)
    requires Accounts(env, k, ps, ws, commands, requests) && n <= |ps|
    ensures AllEncode(Flatten(requests[..n]))
    ensures Before(k, ps, n).table == After(env.policy, env.rules, k.table, Flatten(requests[..n]))
    decreases n
  {
    if n == 0 {
      hide After;
      AfterNone(env.policy, env.rules, k.table);
    } else {
      hide AccountsFor, After, AllEncode;
      TableMet(env, k, ps, ws, commands, requests, n - 1);
      assert AccountsFor(env, Before(k, ps, n - 1), ws[n - 1], ps[n - 1], commands[n - 1], requests[n - 1]);
      EntryOnTable(env, Before(k, ps, n - 1), ws[n - 1], ps[n - 1], commands[n - 1], requests[n - 1]);
      assert requests[..n][..n - 1] == requests[..n - 1];
      AfterMore(env.policy, env.rules, k.table, Flatten(requests[..n - 1]), requests[n - 1]);
    }
  }

  lemma EntryOnTable<W(!new)>(env: Env<W>, k: Composite, w: W, p: D.Prepared<Composite, W>, cs: seq<Timed>, qs: seq<Request>)
    requires AccountsFor(env, k, w, p, cs, qs)
    ensures AllEncode(qs) && p.k.table == After(env.policy, env.rules, k.table, qs)
  {
    hide Prepare, CommandsOf, RequestsOf, After, AllEncode, Execute;
    EntryTakenApart(env, k, w, p.entry);
  }

  lemma {:induction false} FlattenAt<T>(xs: seq<seq<T>>, n: nat, i: nat)
    requires n < |xs| && i < |xs[n]|
    ensures |Flatten(xs[..n])| + i < |Flatten(xs)| && Flatten(xs)[|Flatten(xs[..n])| + i] == xs[n][i]
    ensures Flatten(xs)[..|Flatten(xs[..n])|] == Flatten(xs[..n])
    decreases |xs|
  {
    var last := |xs| - 1;
    if n == last {
      assert Flatten(xs)[..|Flatten(xs[..n])|] == Flatten(xs[..n]);
    } else {
      FlattenAt(xs[..last], n, i);
      assert xs[..last][..n] == xs[..n];
    }
  }

  /** What the entry's client request runs as, on the table it met. */
  lemma RunsAsRequest<W(!new)>(env: Env<W>, k: Composite, w: W, p: D.Prepared<Composite, W>, cs: seq<Timed>, qs: seq<Request>)
    requires AccountsFor(env, k, w, p, cs, qs) && cs != [] && Says(env, p).session.Some?
    ensures qs != [] && Encodes(qs[0]) && !qs[0].Expire? && SessionMemory.Runs(env.policy, env.rules, k.table, qs[0])
    ensures qs[0].User? && (qs[0].key, qs[0].sequence) == Says(env, p).session.value
  {
    hide Prepare, DecodeCommand, ApplyUser, MachineReply, ReplyFits;
    EntryOnTable(env, k, w, p, cs, qs);
    var m := Says(env, p);
    AnswerDoesNotDecide(env.policy, k.table, m.session.value.0, m.session.value.1, m.command, m.at, qs[0].answer);
  }

  /** Over any run of a node: when an acknowledged entry asks for a sequence the table had seen at the
      start, its command runs on the machine only if some request up to then made the table forget the key. */
  lemma NodeRunsOnlyIfForgotten<W(!new)>(env: Env<W>, k: Composite, ps: seq<D.Prepared<Composite, W>>, ws: seq<W>,
                                         commands: seq<seq<Timed>>, requests: seq<seq<Request>>, j: nat, key: Key, sequence: u64)
    requires Accounts(env, k, ps, ws, commands, requests) && Apart(k.table) && Seen(k.table, key, sequence)
    requires j < |ps| && commands[j] != [] && Replication.AsksAgain(Says(env, ps[j]), key, sequence)
    ensures AllEncode(Flatten(requests))
    ensures exists i: nat :: i <= |Flatten(requests[..j])| && ForgetsAt(env.policy, env.rules, k.table, Flatten(requests), i, key)
  {
    hide AccountsFor, After, AllEncode, ForgetsAt, SessionMemory.Runs, Encodes, Seen, Apart;
    var qs, at := Flatten(requests), |Flatten(requests[..j])|;
    TableMet(env, k, ps, ws, commands, requests, j);
    TableMet(env, k, ps, ws, commands, requests, |ps|);
    assert requests[..|ps|] == requests;
    assert AccountsFor(env, Before(k, ps, j), ws[j], ps[j], commands[j], requests[j]);
    RunsAsRequest(env, Before(k, ps, j), ws[j], ps[j], commands[j], requests[j]);
    FlattenAt(requests, j, 0);
    RunsOnlyIfForgotten(env.policy, env.rules, k.table, qs, at, key, sequence);
  }
}
