/** The three-node model the explorer runs: timers, proposals, deliveries, duplications and losses
    over a soup of messages, and the safety checks made of every state.

    The consensus node itself is a parameter: any functions from a node to a node and its effects. */
module RaftModel {
  import opened Prelude
  import opened Explorer

  datatype Entry = Entry(index: nat, term: nat, payload: Bytes)

  /** A node, as far as the model looks into it; `rest` is everything else. */
  datatype Node<R> = Node(leader: bool, term: nat, log: seq<Entry>, commitIndex: nat, rest: R)

  type Id = n: nat | 1 <= n <= 3 witness 1

  datatype Trio<T> = Trio(one: T, two: T, three: T) {
    function At(id: Id): T {
      if id == 1 then one else if id == 2 then two else three
    }

    function With(id: Id, t: T): Trio<T> {
      if id == 1 then this.(one := t) else if id == 2 then this.(two := t) else this.(three := t)
    }
  }

  datatype Effect<M> = Send(message: M) | Other

  datatype State<R, M> = State(
    nodes: Trio<Node<R>>, soup: seq<M>, leadersSeen: map<nat, Id>, committed: map<nat, Entry>)

  /** The production node's transition surface. */
  datatype Raft<!R, !M> = Raft(
    election: Node<R> -> (Node<R>, seq<Effect<M>>),
    heartbeat: Node<R> -> (Node<R>, seq<Effect<M>>),
    propose: Node<R> -> Option<(Node<R>, seq<Effect<M>>)>,
    receive: (Node<R>, M) -> (Node<R>, seq<Effect<M>>),
    recipient: M -> Id,
    healthy: Node<R> -> bool)

  datatype Config = Config(maxLog: nat, maxTerm: nat, maxMessages: nat)

  // ------------------------------------------------------------------
  // Successors
  // ------------------------------------------------------------------

  /** New messages join the soup while there is room and they are not already in it. */
  function Routed<M(==)>(soup: seq<M>, effects: seq<Effect<M>>, maxMessages: nat): seq<M>
    decreases |effects|
  {
    if effects == [] then soup
    else
      var e := effects[0];
      var grown := if e.Send? && |soup| < maxMessages && e.message !in soup then soup + [e.message] else soup;
      Routed(grown, effects[1..], maxMessages)
  }

  predicate NodeInBounds<R>(n: Node<R>, config: Config) {
    |n.log| <= config.maxLog && n.term <= config.maxTerm
  }

  predicate InBounds<R, M>(s: State<R, M>, config: Config) {
    |s.soup| <= config.maxMessages &&
    NodeInBounds(s.nodes.one, config) && NodeInBounds(s.nodes.two, config) && NodeInBounds(s.nodes.three, config)
  }

  function Kept<R, M>(s: State<R, M>, config: Config): seq<State<R, M>> {
    if InBounds(s, config) then [s] else []
  }

  /** One node has moved, and what it sent is routed. */
  function Moved<R, M(==)>(s: State<R, M>, id: Id, moved: (Node<R>, seq<Effect<M>>), config: Config): seq<State<R, M>> {
    Kept(s.(nodes := s.nodes.With(id, moved.0), soup := Routed(s.soup, moved.1, config.maxMessages)), config)
  }

  function NodeSteps<R, M(==)>(raft: Raft<R, M>, s: State<R, M>, id: Id, config: Config): seq<State<R, M>> {
    var node := s.nodes.At(id);
    (if node.term <= config.maxTerm then Moved(s, id, raft.election(node), config) else []) +
    (if node.leader then Moved(s, id, raft.heartbeat(node), config) else []) +
    (if node.leader && |node.log| < config.maxLog && raft.propose(node).Some?
     then Moved(s, id, raft.propose(node).value, config) else [])
  }

  function Without<M>(soup: seq<M>, i: nat): seq<M>
    requires i < |soup|
  {
    soup[..i] + soup[i + 1..]
  }

  function MessageSteps<R, M(==)>(raft: Raft<R, M>, s: State<R, M>, i: nat, config: Config): seq<State<R, M>>
    requires i < |s.soup|
  {
    var m := s.soup[i];
    var lost := s.(soup := Without(s.soup, i));
    var moved := raft.receive(s.nodes.At(raft.recipient(m)), m);
    [lost] +
    Moved(lost, raft.recipient(m), moved, config) +
    (if |s.soup| < config.maxMessages then Moved(s, raft.recipient(m), moved, config) else [])
  }

  function MessageStepsFrom<R, M(==)>(raft: Raft<R, M>, s: State<R, M>, i: nat, config: Config): seq<State<R, M>>
    requires i <= |s.soup|
    decreases |s.soup| - i
  {
    if i == |s.soup| then [] else MessageSteps(raft, s, i, config) + MessageStepsFrom(raft, s, i + 1, config)
  }

  function Successors<R, M(==)>(raft: Raft<R, M>, s: State<R, M>, config: Config): seq<State<R, M>> {
    NodeSteps(raft, s, 1, config) + NodeSteps(raft, s, 2, config) + NodeSteps(raft, s, 3, config) +
    MessageStepsFrom(raft, s, 0, config)
  }

  // ------------------------------------------------------------------
  // Safety checks
  // ------------------------------------------------------------------

  function NoteLeader<R>(seen: map<nat, Id>, id: Id, node: Node<R>): Option<map<nat, Id>> {
    if !node.leader then Some(seen)
    else if node.term in seen && seen[node.term] != id then None
    else Some(seen[node.term := id])
  }

  function NoteCommitted(committed: map<nat, Entry>, log: seq<Entry>, commitIndex: nat): Option<map<nat, Entry>>
    decreases |log|
  {
    if log == [] then Some(committed)
    else if log[0].index > commitIndex then NoteCommitted(committed, log[1..], commitIndex)
    else if log[0].index in committed && committed[log[0].index] != log[0] then None
    else NoteCommitted(committed[log[0].index := log[0]], log[1..], commitIndex)
  }

  function CheckNode<R, M>(raft: Raft<R, M>, s: State<R, M>, id: Id): Option<State<R, M>> {
    var node := s.nodes.At(id);
    if !raft.healthy(node) then None
    else
      var leaders :- NoteLeader(s.leadersSeen, id, node);
      var committed :- NoteCommitted(s.committed, node.log, node.commitIndex);
      Some(s.(leadersSeen := leaders, committed := committed))
  }

  function Find(log: seq<Entry>, index: nat, term: nat): Option<Entry> {
    if log == [] then None
    else if log[0].index == index && log[0].term == term then Some(log[0])
    else Find(log[1..], index, term)
  }

  /** Two logs that share an index and term are equal up to it. */
  predicate LogsMatch(left: seq<Entry>, right: seq<Entry>) {
    forall i | 0 <= i < |left| ::
      var other := Find(right, left[i].index, left[i].term);
      other.Some? ==>
        left[i].index <= |left| && left[i].index <= |right| &&
        left[..left[i].index] == right[..left[i].index] && other.value == left[i]
  }

  /** A leader holds every entry committed in an earlier term. */
  predicate Complete<R>(node: Node<R>, committed: map<nat, Entry>) {
    node.leader ==>
      forall k | k in committed && committed[k].term < node.term ::
        SatSub(committed[k].index, 1) < |node.log| && node.log[SatSub(committed[k].index, 1)] == committed[k]
  }

  function CheckInvariants<R, M>(raft: Raft<R, M>, s: State<R, M>): Option<State<R, M>> {
    var s1 :- CheckNode(raft, s, 1);
    var s2 :- CheckNode(raft, s1, 2);
    var s3 :- CheckNode(raft, s2, 3);
    if !LogsMatch(s.nodes.one.log, s.nodes.two.log) || !LogsMatch(s.nodes.one.log, s.nodes.three.log) ||
       !LogsMatch(s.nodes.two.log, s.nodes.three.log)
    then None
    else if !Complete(s.nodes.one, s3.committed) || !Complete(s.nodes.two, s3.committed) || !Complete(s.nodes.three, s3.committed)
    then None
    else Some(s3)
  }

  /** A state is known by its nodes, its history and its messages in any order. */
  datatype Fingerprint<R, M> = Fingerprint(
    nodes: Trio<Node<R>>, soup: multiset<M>, leadersSeen: map<nat, Id>, committed: map<nat, Entry>)

  function FingerprintOf<R, M(==)>(s: State<R, M>): Fingerprint<R, M> {
    Fingerprint(s.nodes, multiset(s.soup), s.leadersSeen, s.committed)
  }

  ghost predicate SameUpToOrder<R(!new), M(!new)>(a: State<R, M>, b: State<R, M>) {
    a.nodes == b.nodes && multiset(a.soup) == multiset(b.soup) && a.leadersSeen == b.leadersSeen && a.committed == b.committed
  }

  // ------------------------------------------------------------------
  // Message order does not matter
  // ------------------------------------------------------------------

  lemma SameMessages<M>(a: seq<M>, b: seq<M>)
    requires multiset(a) == multiset(b)
    ensures |a| == |b| && forall m :: m in a <==> m in b
  {
    assert |multiset(a)| == |a| && |multiset(b)| == |b|;
    assert forall m :: m in a <==> m in multiset(a);
    assert forall m :: m in b <==> m in multiset(b);
  }

  lemma {:induction false} RoutedAlike<M>(a: seq<M>, b: seq<M>, effects: seq<Effect<M>>, max: nat)
    requires multiset(a) == multiset(b)
    ensures multiset(Routed(a, effects, max)) == multiset(Routed(b, effects, max))
    decreases |effects|
  {
    if effects != [] {
      SameMessages(a, b);
      var e := effects[0];
      if e.Send? && |a| < max && e.message !in a {
        RoutedAlike(a + [e.message], b + [e.message], effects[1..], max);
      } else {
        RoutedAlike(a, b, effects[1..], max);
      }
    }
  }

  /** Two lists of states agree one by one up to message order. */
  ghost predicate Matched<R(!new), M(!new)>(xs: seq<State<R, M>>, ys: seq<State<R, M>>) {
    |xs| == |ys| && forall i | 0 <= i < |xs| :: SameUpToOrder(xs[i], ys[i])
  }

  lemma MatchedConcat<R(!new), M(!new)>(xs: seq<State<R, M>>, ys: seq<State<R, M>>, us: seq<State<R, M>>, vs: seq<State<R, M>>)
    requires Matched(xs, ys) && Matched(us, vs)
    ensures Matched(xs + us, ys + vs)
  {
    hide SameUpToOrder;
  }

  lemma MovedAlike<R(!new), M(!new)>(a: State<R, M>, b: State<R, M>, id: Id, moved: (Node<R>, seq<Effect<M>>), config: Config)
    requires SameUpToOrder(a, b)
    ensures Matched(Moved(a, id, moved, config), Moved(b, id, moved, config))
  {
    RoutedAlike(a.soup, b.soup, moved.1, config.maxMessages);
    SameMessages(Routed(a.soup, moved.1, config.maxMessages), Routed(b.soup, moved.1, config.maxMessages));
    hide Routed;
  }

  lemma NodeStepsAlike<R(!new), M(!new)>(raft: Raft<R, M>, a: State<R, M>, b: State<R, M>, id: Id, config: Config)
    requires SameUpToOrder(a, b)
    ensures Matched(NodeSteps(raft, a, id, config), NodeSteps(raft, b, id, config))
  {
    hide Moved;
    var node := a.nodes.At(id);
    var none: seq<State<R, M>> := [];
    assert Matched(none, none);
    MovedAlike(a, b, id, raft.election(node), config);
    MovedAlike(a, b, id, raft.heartbeat(node), config);
    if raft.propose(node).Some? {
      MovedAlike(a, b, id, raft.propose(node).value, config);
    }
    var ea, eb := if node.term <= config.maxTerm then Moved(a, id, raft.election(node), config) else none,
                  if node.term <= config.maxTerm then Moved(b, id, raft.election(node), config) else none;
    var ha, hb := if node.leader then Moved(a, id, raft.heartbeat(node), config) else none,
                  if node.leader then Moved(b, id, raft.heartbeat(node), config) else none;
    MatchedConcat(ea, eb, ha, hb);
    if node.leader && |node.log| < config.maxLog && raft.propose(node).Some? {
      MatchedConcat(ea + ha, eb + hb, Moved(a, id, raft.propose(node).value, config), Moved(b, id, raft.propose(node).value, config));
    } else {
      MatchedConcat(ea + ha, eb + hb, none, none);
    }
  }

  lemma WithoutAlike<M>(a: seq<M>, b: seq<M>, i: nat, j: nat)
    requires multiset(a) == multiset(b) && i < |a| && j < |b| && a[i] == b[j]
    ensures multiset(Without(a, i)) == multiset(Without(b, j))
  {
    assert a == a[..i] + [a[i]] + a[i + 1..];
    assert b == b[..j] + [b[j]] + b[j + 1..];
    assert multiset(Without(a, i)) == multiset(a) - multiset{a[i]};
    assert multiset(Without(b, j)) == multiset(b) - multiset{b[j]};
  }

  lemma MessageStepsAlike<R(!new), M(!new)>(raft: Raft<R, M>, a: State<R, M>, b: State<R, M>, i: nat, j: nat, config: Config)
    requires SameUpToOrder(a, b) && i < |a.soup| && j < |b.soup| && a.soup[i] == b.soup[j]
    ensures Matched(MessageSteps(raft, a, i, config), MessageSteps(raft, b, j, config))
  {
    WithoutAlike(a.soup, b.soup, i, j);
    SameMessages(a.soup, b.soup);
    hide Moved, Without;
    var m := a.soup[i];
    var la, lb := a.(soup := Without(a.soup, i)), b.(soup := Without(b.soup, j));
    var moved := raft.receive(a.nodes.At(raft.recipient(m)), m);
    MovedAlike(la, lb, raft.recipient(m), moved, config);
    MovedAlike(a, b, raft.recipient(m), moved, config);
    assert Matched([la], [lb]);
    MatchedConcat([la], [lb], Moved(la, raft.recipient(m), moved, config), Moved(lb, raft.recipient(m), moved, config));
    var none: seq<State<R, M>> := [];
    if |a.soup| < config.maxMessages {
      MatchedConcat([la] + Moved(la, raft.recipient(m), moved, config), [lb] + Moved(lb, raft.recipient(m), moved, config),
                    Moved(a, raft.recipient(m), moved, config), Moved(b, raft.recipient(m), moved, config));
    } else {
      MatchedConcat([la] + Moved(la, raft.recipient(m), moved, config), [lb] + Moved(lb, raft.recipient(m), moved, config), none, none);
    }
  }

  lemma {:induction false} FromMessage<R(!new), M(!new)>(raft: Raft<R, M>, s: State<R, M>, i: nat, config: Config, c: State<R, M>) returns (k: nat)
    requires i <= |s.soup| && c in MessageStepsFrom(raft, s, i, config)
    ensures i <= k < |s.soup| && c in MessageSteps(raft, s, k, config)
    decreases |s.soup| - i
  {
    hide MessageSteps;
    if c in MessageSteps(raft, s, i, config) {
      k := i;
    } else {
      k := FromMessage(raft, s, i + 1, config, c);
    }
  }

  lemma {:induction false} ToMessage<R(!new), M(!new)>(raft: Raft<R, M>, s: State<R, M>, i: nat, config: Config, c: State<R, M>, k: nat)
    requires i <= k < |s.soup| && c in MessageSteps(raft, s, k, config)
    ensures c in MessageStepsFrom(raft, s, i, config)
    decreases |s.soup| - i
  {
    hide MessageSteps;
    if i < k {
      ToMessage(raft, s, i + 1, config, c, k);
    }
  }

  lemma MatchOf<R(!new), M(!new)>(xs: seq<State<R, M>>, ys: seq<State<R, M>>, c: State<R, M>) returns (d: State<R, M>)
    requires Matched(xs, ys) && c in xs
    ensures d in ys && SameUpToOrder(c, d)
  {
    hide SameUpToOrder;
    var i :| 0 <= i < |xs| && xs[i] == c;
    d := ys[i];
  }

  /** Every successor of a state is, up to message order, one of any reordering of it. */
  lemma SuccessorsAlike<R(!new), M(!new)>(raft: Raft<R, M>, a: State<R, M>, b: State<R, M>, config: Config, c: State<R, M>)
    returns (d: State<R, M>)
    requires SameUpToOrder(a, b) && c in Successors(raft, a, config)
    ensures d in Successors(raft, b, config) && SameUpToOrder(c, d)
  {
    hide NodeSteps, MessageSteps;
    if c in MessageStepsFrom(raft, a, 0, config) {
      var i := FromMessage(raft, a, 0, config, c);
      SameMessages(a.soup, b.soup);
      assert a.soup[i] in b.soup;
      var j :| 0 <= j < |b.soup| && b.soup[j] == a.soup[i];
      MessageStepsAlike(raft, a, b, i, j, config);
      d := MatchOf(MessageSteps(raft, a, i, config), MessageSteps(raft, b, j, config), c);
      ToMessage(raft, b, 0, config, d, j);
    } else {
      var id: Id := if c in NodeSteps(raft, a, 1, config) then 1 else if c in NodeSteps(raft, a, 2, config) then 2 else 3;
      NodeStepsAlike(raft, a, b, id, config);
      d := MatchOf(NodeSteps(raft, a, id, config), NodeSteps(raft, b, id, config), c);
    }
  }

  /** The safety check ignores messages. */
  lemma CheckAlike<R(!new), M(!new)>(raft: Raft<R, M>, a: State<R, M>, b: State<R, M>)
    requires SameUpToOrder(a, b)
    ensures CheckInvariants(raft, a).Some? <==> CheckInvariants(raft, b).Some?
    ensures CheckInvariants(raft, a).Some? ==>
              SameUpToOrder(CheckInvariants(raft, a).value, CheckInvariants(raft, b).value)
  {
    hide LogsMatch, Complete, NoteCommitted;
  }

  function SystemOf<R(!new), M(!new, ==)>(raft: Raft<R, M>, config: Config): System<State<R, M>, Fingerprint<R, M>> {
    System(s => CheckInvariants(raft, s), s => Successors(raft, s, config), s => FingerprintOf(s))
  }

  lemma ModelCongruent<R(!new), M(!new)>(raft: Raft<R, M>, config: Config)
    ensures Congruent(SystemOf(raft, config))
  {
    var sys := SystemOf(raft, config);
    hide CheckInvariants, Successors;
    forall a, b | sys.fingerprint(a) == sys.fingerprint(b) ensures Alike(sys, a, b) {
      CheckAlike(raft, a, b);
      forall c | Steps(sys, a, c) ensures exists d :: Steps(sys, b, d) && sys.fingerprint(d) == sys.fingerprint(c) {
        var d := SuccessorsAlike(raft, CheckInvariants(raft, a).value, CheckInvariants(raft, b).value, config, c);
        assert Steps(sys, b, d);
      }
    }
  }

  // ------------------------------------------------------------------
  // Whole runs are safe
  // ------------------------------------------------------------------

  predicate Committed<R>(n: Node<R>, e: Entry) {
    e in n.log && e.index <= n.commitIndex
  }

  ghost predicate Extends<K, V>(more: map<K, V>, less: map<K, V>) {
    forall k | k in less :: k in more && more[k] == less[k]
  }

  lemma {:induction false} CommittedNoted(committed: map<nat, Entry>, log: seq<Entry>, commitIndex: nat)
    requires NoteCommitted(committed, log, commitIndex).Some?
    ensures Extends(NoteCommitted(committed, log, commitIndex).value, committed)
    ensures forall e | e in log && e.index <= commitIndex :: Recorded(NoteCommitted(committed, log, commitIndex).value, e)
    decreases |log|
  {
    if log != [] {
      if log[0].index > commitIndex {
        CommittedNoted(committed, log[1..], commitIndex);
      } else {
        CommittedNoted(committed[log[0].index := log[0]], log[1..], commitIndex);
      }
      assert log == [log[0]] + log[1..];
    }
  }

  predicate Recorded(committed: map<nat, Entry>, e: Entry) {
    e.index in committed && committed[e.index] == e
  }

  /** What one node's check records, on top of what was recorded. */
  lemma NodeChecked<R(!new), M(!new)>(raft: Raft<R, M>, s: State<R, M>, id: Id)
    requires CheckNode(raft, s, id).Some?
    ensures var t := CheckNode(raft, s, id).value;
            t.nodes == s.nodes && t.soup == s.soup && raft.healthy(s.nodes.At(id)) &&
            Extends(t.leadersSeen, s.leadersSeen) && Extends(t.committed, s.committed) &&
            (s.nodes.At(id).leader ==> s.nodes.At(id).term in t.leadersSeen && t.leadersSeen[s.nodes.At(id).term] == id) &&
            forall e | Committed(s.nodes.At(id), e) :: Recorded(t.committed, e)
  {
    hide NoteCommitted;
    CommittedNoted(s.committed, s.nodes.At(id).log, s.nodes.At(id).commitIndex);
  }

  /** Everything an admitted state satisfies, against the history it records. */
  ghost predicate Safe<R(!new), M(!new)>(raft: Raft<R, M>, s: State<R, M>, t: State<R, M>) {
    t.nodes == s.nodes && t.soup == s.soup &&
    Extends(t.leadersSeen, s.leadersSeen) && Extends(t.committed, s.committed) &&
    (forall id: Id :: raft.healthy(s.nodes.At(id)) && Complete(s.nodes.At(id), t.committed)) &&
    (forall id: Id | s.nodes.At(id).leader ::
       s.nodes.At(id).term in t.leadersSeen && t.leadersSeen[s.nodes.At(id).term] == id) &&
    (forall id: Id, e | Committed(s.nodes.At(id), e) :: Recorded(t.committed, e)) &&
    (forall i: Id, j: Id | i < j :: LogsMatch(s.nodes.At(i).log, s.nodes.At(j).log))
  }

  lemma AdmittedIsSafe<R(!new), M(!new)>(raft: Raft<R, M>, s: State<R, M>)
    requires CheckInvariants(raft, s).Some?
    ensures Safe(raft, s, CheckInvariants(raft, s).value)
  {
    hide CheckNode, LogsMatch, Complete, Committed;
    NodeChecked(raft, s, 1);
    var s1 := CheckNode(raft, s, 1).value;
    NodeChecked(raft, s1, 2);
    var s2 := CheckNode(raft, s1, 2).value;
    NodeChecked(raft, s2, 3);
  }

  lemma MovedKeepsHistory<R(!new), M(!new)>(s: State<R, M>, id: Id, moved: (Node<R>, seq<Effect<M>>), config: Config, c: State<R, M>)
    requires c in Moved(s, id, moved, config)
    ensures c.leadersSeen == s.leadersSeen && c.committed == s.committed
  {
  }

  /** A step changes nodes and messages, never the recorded history. */
  lemma SuccessorKeepsHistory<R(!new), M(!new)>(raft: Raft<R, M>, s: State<R, M>, config: Config, c: State<R, M>)
    requires c in Successors(raft, s, config)
    ensures c.leadersSeen == s.leadersSeen && c.committed == s.committed
  {
    hide Moved, MessageStepsFrom;
    forall base: State<R, M>, id, moved, d | d in Moved(base, id, moved, config)
      ensures d.leadersSeen == base.leadersSeen && d.committed == base.committed
    {
      MovedKeepsHistory(base, id, moved, config, d);
    }
    if c in MessageStepsFrom(raft, s, 0, config) {
      var k := FromMessage(raft, s, 0, config, c);
      assert c in MessageSteps(raft, s, k, config);
    }
  }

  /** What a state on a run recorded, every later state of the run still knows. */
  lemma {:induction false} HistoryPersists<R(!new), M(!new)>(raft: Raft<R, M>, config: Config, path: seq<State<R, M>>, i: nat, j: nat)
    requires IsPath(SystemOf(raft, config), path) && i < j < |path|
    ensures CheckInvariants(raft, path[i]).Some?
    ensures var t := CheckInvariants(raft, path[i]).value;
            Extends(path[j].leadersSeen, t.leadersSeen) && Extends(path[j].committed, t.committed)
    decreases j
  {
    var sys := SystemOf(raft, config);
    hide CheckInvariants, Successors;
    assert Steps(sys, path[i], path[i + 1]);
    assert Steps(sys, path[j - 1], path[j]);
    SuccessorKeepsHistory(raft, CheckInvariants(raft, path[j - 1]).value, config, path[j]);
    if i + 1 < j {
      HistoryPersists(raft, config, path, i, j - 1);
      AdmittedIsSafe(raft, path[j - 1]);
    }
  }

  /** Along a run no term has two leaders and no index two committed entries, even at different times. */
  ghost predicate RunIsSafe<R(!new), M(!new)>(path: seq<State<R, M>>) {
    forall i, j | 0 <= i <= j < |path| :: AgreeOverTime(path[i], path[j])
  }

  ghost predicate AgreeOverTime<R(!new), M(!new)>(earlier: State<R, M>, later: State<R, M>) {
    (forall a: Id, b: Id | earlier.nodes.At(a).leader && later.nodes.At(b).leader &&
                           earlier.nodes.At(a).term == later.nodes.At(b).term :: a == b) &&
    (forall a: Id, b: Id, e, f | Committed(earlier.nodes.At(a), e) && Committed(later.nodes.At(b), f) && e.index == f.index ::
       e == f)
  }

  lemma SafeAgree<R(!new), M(!new)>(raft: Raft<R, M>, s: State<R, M>, s': State<R, M>, t: State<R, M>, t': State<R, M>)
    requires Safe(raft, s, s') && Safe(raft, t, t')
    requires Extends(t'.leadersSeen, s'.leadersSeen) && Extends(t'.committed, s'.committed)
    ensures AgreeOverTime(s, t)
  {
    hide LogsMatch, Complete, Committed;
    forall a: Id, b: Id, e, f | Committed(s.nodes.At(a), e) && Committed(t.nodes.At(b), f) && e.index == f.index
      ensures e == f
    {
      assert Recorded(s'.committed, e) && Recorded(t'.committed, f);
    }
  }

  /** Every state of the run passed every check against the history it records: healthy nodes, one leader
      a term, matching logs, complete leaders. */
  ghost predicate StatesAreSafe<R(!new), M(!new)>(raft: Raft<R, M>, path: seq<State<R, M>>) {
    forall i | 0 <= i < |path| :: CheckInvariants(raft, path[i]).Some? && Safe(raft, path[i], CheckInvariants(raft, path[i]).value)
  }

  /** If every state of a run was admitted, the whole run is safe. */
  lemma AdmittedRunIsSafe<R(!new), M(!new)>(raft: Raft<R, M>, config: Config, path: seq<State<R, M>>)
    requires IsPath(SystemOf(raft, config), path) && CheckInvariants(raft, path[|path| - 1]).Some?
    ensures RunIsSafe(path) && StatesAreSafe(raft, path)
  {
    hide CheckInvariants, Successors, Safe;
    var sys := SystemOf(raft, config);
    forall i | 0 <= i < |path| ensures CheckInvariants(raft, path[i]).Some? && Safe(raft, path[i], CheckInvariants(raft, path[i]).value) {
      if i + 1 < |path| { assert Steps(sys, path[i], path[i + 1]); }
      AdmittedIsSafe(raft, path[i]);
    }
    forall i, j | 0 <= i <= j < |path| ensures AgreeOverTime(path[i], path[j]) {
      if j + 1 < |path| { assert Steps(sys, path[j], path[j + 1]); }
      if i + 1 < |path| { assert Steps(sys, path[i], path[i + 1]); }
      AdmittedIsSafe(raft, path[i]);
      AdmittedIsSafe(raft, path[j]);
      var s', t' := CheckInvariants(raft, path[i]).value, CheckInvariants(raft, path[j]).value;
      if i < j {
        HistoryPersists(raft, config, path, i, j);
        ExtendsFurther(raft, path[j], t', s');
      } else {
        assert s' == t';
      }
      SafeAgree(raft, path[i], s', path[j], t');
    }
  }

  lemma ExtendsFurther<R(!new), M(!new)>(raft: Raft<R, M>, t: State<R, M>, t': State<R, M>, s': State<R, M>)
    requires Safe(raft, t, t') && Extends(t.leadersSeen, s'.leadersSeen) && Extends(t.committed, s'.committed)
    ensures Extends(t'.leadersSeen, s'.leadersSeen) && Extends(t'.committed, s'.committed)
  {
    hide LogsMatch, Complete, Committed;
  }

  ghost predicate RunFrom<R(!new), M(!new)>(raft: Raft<R, M>, nodes: Trio<Node<R>>, config: Config, bounds: Bounds, path: seq<State<R, M>>) {
    IsPath(SystemOf(raft, config), path) && path[0] == State(nodes, [], map[], map[]) && |path| <= bounds.maxDepth + 1
  }
}
