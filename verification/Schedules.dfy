/** Schedules: what may happen to three nodes and the messages between them, said without the
    explorer's successor function, and what it means for a schedule to be safe. */
module Schedules {
  import opened Prelude
  import opened Explorer
  import opened RaftModel

  datatype World<R, M> = World(nodes: Trio<Node<R>>, soup: seq<M>)

  datatype Move =
    | ElectionTimeout(id: Id) | HeartbeatTimeout(id: Id) | Proposal(id: Id)
    | Delivery(at: nat) | Duplication(at: nat) | Loss(at: nat)

  // ------------------------------------------------------------------
  // What may happen
  // ------------------------------------------------------------------

  /** Timers of every node within the term bound may run out, leaders send heartbeats and accept
      proposals, and any message may be delivered, delivered twice, or lost. */
  predicate Enabled<R, M>(raft: Raft<R, M>, config: Config, w: World<R, M>, move: Move) {
    match move
    case ElectionTimeout(id) => w.nodes.At(id).term <= config.maxTerm
    case HeartbeatTimeout(id) => w.nodes.At(id).leader
    case Proposal(id) => w.nodes.At(id).leader && |w.nodes.At(id).log| < config.maxLog && raft.propose(w.nodes.At(id)).Some?
    case Delivery(at) => at < |w.soup|
    case Duplication(at) => at < |w.soup| && |w.soup| < config.maxMessages
    case Loss(at) => at < |w.soup|
  }

  /** The messages sent that are not yet in the soup, each once, in the order first sent. */
  function NewSends<M(==)>(soup: seq<M>, effects: seq<Effect<M>>): seq<M> {
    if effects == [] then []
    else
      var n := |effects| - 1;
      var before := NewSends(soup, effects[..n]);
      if effects[n].Send? && effects[n].message !in soup && effects[n].message !in before
      then before + [effects[n].message] else before
  }

  function Take<T>(s: seq<T>, n: nat): seq<T> {
    if n < |s| then s[..n] else s
  }

  /** As many of them as there is room for. */
  function Posted<M(==)>(soup: seq<M>, effects: seq<Effect<M>>, room: nat): seq<M> {
    soup + Take(NewSends(soup, effects), room)
  }

  /** One node changes, the other two do not, and what it sends is posted. */
  ghost predicate NodeActs<R(!new), M(!new)>(w: World<R, M>, id: Id, moved: (Node<R>, seq<Effect<M>>), soup: seq<M>, config: Config, v: World<R, M>) {
    v.nodes.At(id) == moved.0 && (forall other: Id | other != id :: v.nodes.At(other) == w.nodes.At(other)) &&
    v.soup == Posted(soup, moved.1, if |soup| < config.maxMessages then config.maxMessages - |soup| else 0)
  }

  /** The soup with one message taken out: the others are as they were. */
  ghost predicate TakenOut<M(!new)>(soup: seq<M>, at: nat, left: seq<M>)
    requires at < |soup|
  {
    |left| == |soup| - 1 && (forall i | 0 <= i < at :: left[i] == soup[i]) && (forall i | at <= i < |left| :: left[i] == soup[i + 1])
  }

  ghost predicate Leads<R(!new), M(!new)>(raft: Raft<R, M>, config: Config, w: World<R, M>, move: Move, v: World<R, M>)
    requires Enabled(raft, config, w, move)
  {
    match move
    case ElectionTimeout(id) => NodeActs(w, id, raft.election(w.nodes.At(id)), w.soup, config, v)
    case HeartbeatTimeout(id) => NodeActs(w, id, raft.heartbeat(w.nodes.At(id)), w.soup, config, v)
    case Proposal(id) => NodeActs(w, id, raft.propose(w.nodes.At(id)).value, w.soup, config, v)
    case Delivery(at) =>
      var m := w.soup[at];
      var to := raft.recipient(m);
      exists left :: TakenOut(w.soup, at, left) && NodeActs(w, to, raft.receive(w.nodes.At(to), m), left, config, v)
    case Duplication(at) =>
      var m := w.soup[at];
      var to := raft.recipient(m);
      NodeActs(w, to, raft.receive(w.nodes.At(to), m), w.soup, config, v)
    case Loss(at) => v.nodes == w.nodes && TakenOut(w.soup, at, v.soup)
  }

  ghost predicate Fits<R(!new), M(!new)>(w: World<R, M>, config: Config) {
    |w.soup| <= config.maxMessages && forall id: Id :: |w.nodes.At(id).log| <= config.maxLog && w.nodes.At(id).term <= config.maxTerm
  }

  /** The move is possible, leads there, and stays within bounds; a loss always does. */
  ghost predicate Legal<R(!new), M(!new)>(raft: Raft<R, M>, config: Config, w: World<R, M>, move: Move, v: World<R, M>) {
    Enabled(raft, config, w, move) && Leads(raft, config, w, move, v) && (move.Loss? || Fits(v, config))
  }

  ghost predicate Scheduled<R(!new), M(!new)>(raft: Raft<R, M>, config: Config, nodes: Trio<Node<R>>, ws: seq<World<R, M>>) {
    ws != [] && ws[0] == World(nodes, []) && forall i | 0 <= i < |ws| - 1 :: CanFollow(raft, config, ws[i], ws[i + 1])
  }

  ghost predicate CanFollow<R(!new), M(!new)>(raft: Raft<R, M>, config: Config, w: World<R, M>, v: World<R, M>) {
    exists move :: Legal(raft, config, w, move, v)
  }

  // ------------------------------------------------------------------
  // The explorer's successors are exactly the legal moves
  // ------------------------------------------------------------------

  function WorldOf<R, M>(s: State<R, M>): World<R, M> {
    World(s.nodes, s.soup)
  }

  lemma {:induction false} NewSendsFront<M>(soup: seq<M>, e: Effect<M>, rest: seq<Effect<M>>)
    ensures NewSends(soup, [e] + rest) ==
            if e.Send? && e.message !in soup then [e.message] + NewSends(soup + [e.message], rest) else NewSends(soup, rest)
    decreases |rest|
  {
    var all := [e] + rest;
    if rest == [] {
      assert all[..0] == [];
      assert NewSends(soup, all[..0]) == [];
    } else {
      var n := |rest| - 1;
      assert all[..n + 1] == [e] + rest[..n];
      NewSendsFront(soup, e, rest[..n]);
      var last := rest[n];
      if e.Send? && e.message !in soup {
        var before := NewSends(soup + [e.message], rest[..n]);
        if last.Send? {
          assert last.message in [e.message] + before <==> last.message == e.message || last.message in before;
          assert [e.message] + (before + [last.message]) == ([e.message] + before) + [last.message];
        }
      }
    }
  }

  /** Routing message by message posts what there is room for. */
  lemma {:induction false} RoutedIsPosted<M>(soup: seq<M>, effects: seq<Effect<M>>, max: nat)
    ensures Routed(soup, effects, max) == Posted(soup, effects, if |soup| < max then max - |soup| else 0)
    decreases |effects|
  {
    if effects == [] {
      assert soup + [] == soup;
    } else {
      var e, rest := effects[0], effects[1..];
      assert effects == [e] + rest;
      NewSendsFront(soup, e, rest);
      if e.Send? && |soup| < max && e.message !in soup {
        var grown := soup + [e.message];
        RoutedIsPosted(grown, rest, max);
        TakeNext(e.message, NewSends(grown, rest), max - |soup|);
        assert soup + ([e.message] + Take(NewSends(grown, rest), max - |grown|)) == grown + Take(NewSends(grown, rest), max - |grown|);
      } else {
        RoutedIsPosted(soup, rest, max);
      }
    }
  }

  lemma TakeNext<T>(x: T, s: seq<T>, n: nat)
    requires n > 0
    ensures Take([x] + s, n) == [x] + Take(s, n - 1)
  {
  }

  lemma BoundsAgree<R(!new), M(!new)>(s: State<R, M>, config: Config)
    ensures InBounds(s, config) <==> Fits(WorldOf(s), config)
  {
    assert InBounds(s, config) ==> forall id: Id :: NodeInBounds(s.nodes.At(id), config);
    assert Fits(WorldOf(s), config) ==> NodeInBounds(s.nodes.At(1), config) && NodeInBounds(s.nodes.At(2), config) && NodeInBounds(s.nodes.At(3), config);
  }

  lemma WithIsActing<R(!new), M(!new)>(w: World<R, M>, id: Id, moved: (Node<R>, seq<Effect<M>>), soup: seq<M>, config: Config, v: World<R, M>)
    ensures NodeActs(w, id, moved, soup, config, v) <==>
            v == World(w.nodes.With(id, moved.0), Routed(soup, moved.1, config.maxMessages))
  {
    RoutedIsPosted(soup, moved.1, config.maxMessages);
    hide Posted, Routed;
    var changed := w.nodes.With(id, moved.0);
    assert forall j: Id :: changed.At(j) == if j == id then moved.0 else w.nodes.At(j);
    if v.nodes.At(id) == moved.0 && forall other: Id | other != id :: v.nodes.At(other) == w.nodes.At(other) {
      assert v.nodes.At(1) == changed.At(1) && v.nodes.At(2) == changed.At(2) && v.nodes.At(3) == changed.At(3);
    }
  }

  /** Same recorded history. */
  ghost predicate SameHistory<R(!new), M(!new)>(a: State<R, M>, b: State<R, M>) {
    a.leadersSeen == b.leadersSeen && a.committed == b.committed
  }

  lemma MovedExact<R(!new), M(!new)>(s: State<R, M>, base: State<R, M>, id: Id, moved: (Node<R>, seq<Effect<M>>), config: Config, c: State<R, M>)
    requires base.nodes == s.nodes && SameHistory(base, s)
    ensures c in Moved(base, id, moved, config) <==>
            SameHistory(c, s) && Fits(WorldOf(c), config) && NodeActs(WorldOf(s), id, moved, base.soup, config, WorldOf(c))
  {
    hide Routed, NodeActs, Fits, InBounds;
    WithIsActing(WorldOf(s), id, moved, base.soup, config, WorldOf(c));
    BoundsAgree(c, config);
  }

  lemma OutIsWithout<M(!new)>(soup: seq<M>, at: nat, left: seq<M>)
    requires at < |soup|
    ensures TakenOut(soup, at, left) <==> left == Without(soup, at)
  {
  }

  ghost predicate NodeMove(move: Move, id: Id) {
    move == ElectionTimeout(id) || move == HeartbeatTimeout(id) || move == Proposal(id)
  }

  ghost predicate MessageMove(move: Move, at: nat) {
    move == Delivery(at) || move == Duplication(at) || move == Loss(at)
  }

  lemma NodeStepsExact<R(!new), M(!new)>(raft: Raft<R, M>, s: State<R, M>, id: Id, config: Config, c: State<R, M>)
    ensures c in NodeSteps(raft, s, id, config) <==>
            SameHistory(c, s) && exists move :: NodeMove(move, id) && Legal(raft, config, WorldOf(s), move, WorldOf(c))
  {
    hide Moved, NodeActs, Fits;
    var node := s.nodes.At(id);
    MovedExact(s, s, id, raft.election(node), config, c);
    MovedExact(s, s, id, raft.heartbeat(node), config, c);
    if raft.propose(node).Some? {
      MovedExact(s, s, id, raft.propose(node).value, config, c);
    }
    assert NodeMove(ElectionTimeout(id), id) && NodeMove(HeartbeatTimeout(id), id) && NodeMove(Proposal(id), id);
  }

  lemma MessageStepsExact<R(!new), M(!new)>(raft: Raft<R, M>, s: State<R, M>, at: nat, config: Config, c: State<R, M>)
    requires at < |s.soup|
    ensures c in MessageSteps(raft, s, at, config) <==>
            SameHistory(c, s) && exists move :: MessageMove(move, at) && Legal(raft, config, WorldOf(s), move, WorldOf(c))
  {
    hide Moved, NodeActs, Fits, TakenOut, Without;
    var m := s.soup[at];
    var to := raft.recipient(m);
    var moved := raft.receive(s.nodes.At(to), m);
    var out := Without(s.soup, at);
    forall left ensures TakenOut(s.soup, at, left) <==> left == out {
      OutIsWithout(s.soup, at, left);
    }
    MovedExact(s, s.(soup := out), to, moved, config, c);
    MovedExact(s, s, to, moved, config, c);
    assert MessageMove(Delivery(at), at) && MessageMove(Duplication(at), at) && MessageMove(Loss(at), at);
    assert Legal(raft, config, WorldOf(s), Loss(at), WorldOf(c)) <==> c.nodes == s.nodes && c.soup == out;
  }

  /** The explorer's successors of a state are exactly what the legal moves lead to. */
  lemma SuccessorsExact<R(!new), M(!new)>(raft: Raft<R, M>, s: State<R, M>, config: Config, c: State<R, M>)
    ensures c in Successors(raft, s, config) <==> SameHistory(c, s) && CanFollow(raft, config, WorldOf(s), WorldOf(c))
  {
    hide NodeSteps, MessageSteps, Legal, SameHistory;
    NodeStepsExact(raft, s, 1, config, c);
    NodeStepsExact(raft, s, 2, config, c);
    NodeStepsExact(raft, s, 3, config, c);
    if c in MessageStepsFrom(raft, s, 0, config) {
      var k := FromMessage(raft, s, 0, config, c);
      MessageStepsExact(raft, s, k, config, c);
    }
    if SameHistory(c, s) && CanFollow(raft, config, WorldOf(s), WorldOf(c)) {
      var move :| Legal(raft, config, WorldOf(s), move, WorldOf(c));
      MoveListed(raft, s, config, c, move);
    }
  }

  lemma MoveListed<R(!new), M(!new)>(raft: Raft<R, M>, s: State<R, M>, config: Config, c: State<R, M>, move: Move)
    requires SameHistory(c, s) && Legal(raft, config, WorldOf(s), move, WorldOf(c))
    ensures c in Successors(raft, s, config)
  {
    hide NodeSteps, MessageSteps, SameHistory, Leads, Fits;
    if move.ElectionTimeout? || move.HeartbeatTimeout? || move.Proposal? {
      assert NodeMove(move, move.id);
      NodeStepsExact(raft, s, move.id, config, c);
    } else {
      assert MessageMove(move, move.at);
      MessageStepsExact(raft, s, move.at, config, c);
      ToMessage(raft, s, 0, config, c, move.at);
    }
  }

  // ------------------------------------------------------------------
  // What is safe
  // ------------------------------------------------------------------

  predicate LeadsTerm<R>(nodes: Trio<Node<R>>, term: nat, id: Id) {
    nodes.At(id).leader && nodes.At(id).term == term
  }

  ghost predicate Commits<R(!new)>(nodes: Trio<Node<R>>, e: Entry) {
    exists id: Id :: Committed(nodes.At(id), e)
  }

  /** The entry stands in the log where its index says. */
  predicate HasEntry(log: seq<Entry>, e: Entry) {
    var at := if e.index == 0 then 0 else e.index - 1;
    at < |log| && log[at] == e
  }

  /** `right` first has an entry of this index and term at `j`. */
  predicate FirstAt(right: seq<Entry>, j: nat, e: Entry) {
    j < |right| && right[j].index == e.index && right[j].term == e.term &&
    forall k | 0 <= k < j :: right[k].index != e.index || right[k].term != e.term
  }

  /** Logs that share an index and a term are the same up to there. */
  ghost predicate Matching(left: seq<Entry>, right: seq<Entry>) {
    forall e, j: nat | e in left && FirstAt(right, j, e) ::
      right[j] == e && e.index <= |left| && e.index <= |right| && left[..e.index] == right[..e.index]
  }

  /** The `j`th world is safe, looking back on all before it: its nodes are healthy, a leader leads a term
      no other node ever led, a committed entry is the only one ever committed at its index, logs match,
      and a leader has every entry ever committed in an earlier term. */
  ghost predicate SafeAt<R(!new), M(!new)>(raft: Raft<R, M>, ws: seq<World<R, M>>, j: nat)
    requires j < |ws|
  {
    (forall id: Id :: raft.healthy(ws[j].nodes.At(id))) &&
    (forall i, term, a, b | 0 <= i <= j && LeadsTerm(ws[i].nodes, term, a) && LeadsTerm(ws[j].nodes, term, b) :: a == b) &&
    (forall i, e, f | 0 <= i <= j && Commits(ws[i].nodes, e) && Commits(ws[j].nodes, f) && e.index == f.index :: e == f) &&
    (forall a: Id, b: Id | a < b :: Matching(ws[j].nodes.At(a).log, ws[j].nodes.At(b).log)) &&
    (forall i, e, b: Id | 0 <= i <= j && Commits(ws[i].nodes, e) && ws[j].nodes.At(b).leader && e.term < ws[j].nodes.At(b).term ::
       HasEntry(ws[j].nodes.At(b).log, e))
  }

  ghost predicate SafeSchedule<R(!new), M(!new)>(raft: Raft<R, M>, ws: seq<World<R, M>>) {
    forall j | 0 <= j < |ws| :: SafeAt(raft, ws, j)
  }

  // ------------------------------------------------------------------
  // The checks are exactly that
  // ------------------------------------------------------------------

  lemma {:induction false} FindExact(log: seq<Entry>, e: Entry)
    ensures Find(log, e.index, e.term).None? ==> forall j :: !FirstAt(log, j, e)
    ensures Find(log, e.index, e.term).Some? ==>
              exists j: nat :: FirstAt(log, j, e) && log[j] == Find(log, e.index, e.term).value
    decreases |log|
  {
    if log != [] && !(log[0].index == e.index && log[0].term == e.term) {
      FindExact(log[1..], e);
      if Find(log[1..], e.index, e.term).Some? {
        var j: nat :| FirstAt(log[1..], j, e) && log[1..][j] == Find(log, e.index, e.term).value;
        assert FirstAt(log, j + 1, e);
      } else {
        forall j: nat ensures !FirstAt(log, j, e) {
          if FirstAt(log, j, e) {
            assert j > 0 && FirstAt(log[1..], j - 1, e);
          }
        }
      }
    } else if log != [] {
      assert FirstAt(log, 0, e);
    }
  }

  lemma FirstIsUnique(log: seq<Entry>, e: Entry, i: nat, j: nat)
    requires FirstAt(log, i, e) && FirstAt(log, j, e)
    ensures i == j
  {
  }

  lemma MatchingExact(left: seq<Entry>, right: seq<Entry>)
    ensures LogsMatch(left, right) <==> Matching(left, right)
  {
    hide Find;
    forall e: Entry ensures Find(right, e.index, e.term).None? ==> forall j :: !FirstAt(right, j, e) {
      FindExact(right, e);
    }
    if LogsMatch(left, right) {
      forall e, j: nat | e in left && FirstAt(right, j, e)
        ensures right[j] == e && e.index <= |left| && e.index <= |right| && left[..e.index] == right[..e.index]
      {
        var i :| 0 <= i < |left| && left[i] == e;
        FindExact(right, e);
        var k: nat :| FirstAt(right, k, e) && right[k] == Find(right, e.index, e.term).value;
        FirstIsUnique(right, e, j, k);
      }
    }
    if Matching(left, right) {
      forall i | 0 <= i < |left| && Find(right, left[i].index, left[i].term).Some?
        ensures var e := left[i];
                e.index <= |left| && e.index <= |right| && left[..e.index] == right[..e.index] &&
                Find(right, e.index, e.term).value == e
      {
        FindExact(right, left[i]);
        var k: nat :| FirstAt(right, k, left[i]) && right[k] == Find(right, left[i].index, left[i].term).value;
        assert left[i] in left;
      }
    }
  }

  ghost predicate WellKeyed(committed: map<nat, Entry>) {
    forall k | k in committed :: committed[k].index == k
  }

  predicate Led(seen: map<nat, Id>, term: nat, id: Id) {
    term in seen && seen[term] == id
  }

  predicate Counted(log: seq<Entry>, commitIndex: nat, e: Entry) {
    e in log && e.index <= commitIndex
  }

  ghost predicate NoClash(committed: map<nat, Entry>, log: seq<Entry>, commitIndex: nat) {
    forall e, f | Counted(log, commitIndex, e) && (Counted(log, commitIndex, f) || Recorded(committed, f)) && e.index == f.index ::
      e == f
  }

  ghost predicate Noted(committed: map<nat, Entry>, log: seq<Entry>, commitIndex: nat, after: map<nat, Entry>) {
    WellKeyed(after) && forall e :: Recorded(after, e) <==> Recorded(committed, e) || Counted(log, commitIndex, e)
  }

  /** Noting a log's committed entries succeeds exactly when none of them clashes, and adds exactly them. */
  lemma {:induction false} NoteExact(committed: map<nat, Entry>, log: seq<Entry>, commitIndex: nat)
    requires WellKeyed(committed)
    ensures NoteCommitted(committed, log, commitIndex).Some? <==> NoClash(committed, log, commitIndex)
    ensures NoteCommitted(committed, log, commitIndex).Some? ==>
              Noted(committed, log, commitIndex, NoteCommitted(committed, log, commitIndex).value)
    decreases |log|
  {
    if log != [] {
      var first, rest := log[0], log[1..];
      CountedSplits(log, commitIndex);
      if first.index > commitIndex {
        NoteExact(committed, rest, commitIndex);
      } else if first.index in committed && committed[first.index] != first {
        assert Counted(log, commitIndex, first) && Recorded(committed, committed[first.index]);
      } else {
        var more := committed[first.index := first];
        hide NoClash, Noted;
        NoteOne(committed, log, commitIndex);
        NoteExact(more, rest, commitIndex);
        if NoteCommitted(more, rest, commitIndex).Some? {
          NotedOne(committed, log, commitIndex, NoteCommitted(more, rest, commitIndex).value);
        }
      }
    }
  }

  lemma CountedSplits(log: seq<Entry>, commitIndex: nat)
    requires log != []
    ensures forall e :: Counted(log, commitIndex, e) <==> Counted(log[1..], commitIndex, e) || (e == log[0] && log[0].index <= commitIndex)
  {
    assert log == [log[0]] + log[1..];
  }

  lemma RecordedOne(committed: map<nat, Entry>, e: Entry)
    requires WellKeyed(committed) && (e.index in committed ==> committed[e.index] == e)
    ensures WellKeyed(committed[e.index := e])
    ensures forall f :: Recorded(committed[e.index := e], f) <==> Recorded(committed, f) || f == e
  {
  }

  lemma NoteOne(committed: map<nat, Entry>, log: seq<Entry>, commitIndex: nat)
    requires log != [] && log[0].index <= commitIndex && WellKeyed(committed)
    requires log[0].index in committed ==> committed[log[0].index] == log[0]
    ensures WellKeyed(committed[log[0].index := log[0]])
    ensures NoClash(committed, log, commitIndex) <==> NoClash(committed[log[0].index := log[0]], log[1..], commitIndex)
  {
    CountedSplits(log, commitIndex);
    RecordedOne(committed, log[0]);
    OwnIndex(committed, log[0]);
    hide Counted, WellKeyed, Recorded;
  }

  lemma OwnIndex(committed: map<nat, Entry>, e: Entry)
    requires e.index in committed ==> committed[e.index] == e
    ensures forall f | Recorded(committed, f) && f.index == e.index :: f == e
  {
  }

  lemma NotedOne(committed: map<nat, Entry>, log: seq<Entry>, commitIndex: nat, after: map<nat, Entry>)
    requires log != [] && log[0].index <= commitIndex && WellKeyed(committed)
    requires log[0].index in committed ==> committed[log[0].index] == log[0]
    requires Noted(committed[log[0].index := log[0]], log[1..], commitIndex, after)
    ensures Noted(committed, log, commitIndex, after)
  {
    CountedSplits(log, commitIndex);
    RecordedOne(committed, log[0]);
    hide Counted, WellKeyed, Recorded;
  }

  /** What one node's check needs and records. */
  ghost predicate NodeAdmits<R(!new), M(!new)>(raft: Raft<R, M>, s: State<R, M>, id: Id) {
    var node := s.nodes.At(id);
    raft.healthy(node) && (node.leader ==> forall x :: Led(s.leadersSeen, node.term, x) ==> x == id) &&
    forall e, f | Committed(node, e) && (Committed(node, f) || Recorded(s.committed, f)) && e.index == f.index :: e == f
  }

  ghost predicate Adds<R(!new), M(!new)>(s: State<R, M>, t: State<R, M>, id: Id) {
    t.nodes == s.nodes && t.soup == s.soup && WellKeyed(t.committed) &&
    (forall term, x :: Led(t.leadersSeen, term, x) <==> Led(s.leadersSeen, term, x) || (x == id && LeadsTerm(s.nodes, term, id))) &&
    (forall e :: Recorded(t.committed, e) <==> Recorded(s.committed, e) || Committed(s.nodes.At(id), e))
  }

  lemma CheckNodeExact<R(!new), M(!new)>(raft: Raft<R, M>, s: State<R, M>, id: Id)
    requires WellKeyed(s.committed)
    ensures CheckNode(raft, s, id).Some? <==> NodeAdmits(raft, s, id)
    ensures CheckNode(raft, s, id).Some? ==> Adds(s, CheckNode(raft, s, id).value, id)
  {
    hide NoteCommitted, Recorded, WellKeyed;
    var node := s.nodes.At(id);
    NoteExact(s.committed, node.log, node.commitIndex);
    assert forall e :: Counted(node.log, node.commitIndex, e) <==> Committed(node, e);
    if node.leader && node.term in s.leadersSeen {
      assert Led(s.leadersSeen, node.term, s.leadersSeen[node.term]);
    }
  }

  /** What a state needs, given the history it comes with. */
  ghost predicate Admissible<R(!new), M(!new)>(raft: Raft<R, M>, s: State<R, M>) {
    (forall id: Id :: raft.healthy(s.nodes.At(id))) &&
    (forall term, a, b | (LeadsTerm(s.nodes, term, a) || Led(s.leadersSeen, term, a)) && LeadsTerm(s.nodes, term, b) :: a == b) &&
    (forall e, f | (Commits(s.nodes, e) || Recorded(s.committed, e)) && Commits(s.nodes, f) && e.index == f.index :: e == f) &&
    (forall a: Id, b: Id | a < b :: Matching(s.nodes.At(a).log, s.nodes.At(b).log)) &&
    (forall e, b: Id | (Commits(s.nodes, e) || Recorded(s.committed, e)) && s.nodes.At(b).leader && e.term < s.nodes.At(b).term ::
       HasEntry(s.nodes.At(b).log, e))
  }

  /** What an admitted state's history becomes. */
  ghost predicate Remembers<R(!new), M(!new)>(s: State<R, M>, t: State<R, M>) {
    t.nodes == s.nodes && t.soup == s.soup && WellKeyed(t.committed) &&
    (forall term, x :: Led(t.leadersSeen, term, x) <==> Led(s.leadersSeen, term, x) || LeadsTerm(s.nodes, term, x)) &&
    (forall e :: Recorded(t.committed, e) <==> Recorded(s.committed, e) || Commits(s.nodes, e))
  }

  ghost predicate LeadersAgree<R(!new), M(!new)>(s: State<R, M>) {
    forall term, a, b | (LeadsTerm(s.nodes, term, a) || Led(s.leadersSeen, term, a)) && LeadsTerm(s.nodes, term, b) :: a == b
  }

  ghost predicate CommitsAgree<R(!new), M(!new)>(s: State<R, M>) {
    forall e, f | (Commits(s.nodes, e) || Recorded(s.committed, e)) && Commits(s.nodes, f) && e.index == f.index :: e == f
  }

  ghost predicate AllHealthy<R(!new), M(!new)>(raft: Raft<R, M>, s: State<R, M>) {
    forall id: Id :: raft.healthy(s.nodes.At(id))
  }

  lemma CommitsThree<R(!new)>(nodes: Trio<Node<R>>)
    ensures forall e :: Commits(nodes, e) <==> Committed(nodes.At(1), e) || Committed(nodes.At(2), e) || Committed(nodes.At(3), e)
  {
    forall e | Commits(nodes, e) ensures Committed(nodes.At(1), e) || Committed(nodes.At(2), e) || Committed(nodes.At(3), e) {
      var id: Id :| Committed(nodes.At(id), e);
    }
  }

  lemma ThreeRemember<R(!new), M(!new)>(s: State<R, M>, s1: State<R, M>, s2: State<R, M>, s3: State<R, M>)
    requires Adds(s, s1, 1) && Adds(s1, s2, 2) && Adds(s2, s3, 3)
    ensures Remembers(s, s3)
  {
    CommitsThree(s.nodes);
    hide Commits, Committed, Recorded, WellKeyed, Led;
    assert forall term, x: Id :: LeadsTerm(s.nodes, term, x) ==> x == 1 || x == 2 || x == 3;
  }

  /** Three nodes pass one after another exactly when all are healthy and none clashes with another or
      with the history. */
  lemma ThreePass<R(!new), M(!new)>(raft: Raft<R, M>, s: State<R, M>, s1: State<R, M>, s2: State<R, M>)
    requires Adds(s, s1, 1) && Adds(s1, s2, 2) && NodeAdmits(raft, s, 1) && NodeAdmits(raft, s1, 2) && NodeAdmits(raft, s2, 3)
    ensures AllHealthy(raft, s) && LeadersAgree(s) && CommitsAgree(s)
  {
    hide Committed, Recorded, WellKeyed, Led, Commits;
    CommitsThree(s.nodes);
    forall term, a, b | (LeadsTerm(s.nodes, term, a) || Led(s.leadersSeen, term, a)) && LeadsTerm(s.nodes, term, b) ensures a == b {
      assert LeadsTerm(s.nodes, term, 1) ==> Led(s1.leadersSeen, term, 1);
      assert LeadsTerm(s.nodes, term, 1) || LeadsTerm(s.nodes, term, 2) ==>
               Led(s2.leadersSeen, term, 1) || Led(s2.leadersSeen, term, 2);
      assert Led(s.leadersSeen, term, a) ==> Led(s1.leadersSeen, term, a) && Led(s2.leadersSeen, term, a);
    }
  }

  lemma FirstPasses<R(!new), M(!new)>(raft: Raft<R, M>, s: State<R, M>)
    requires AllHealthy(raft, s) && LeadersAgree(s) && CommitsAgree(s)
    ensures NodeAdmits(raft, s, 1)
  {
    CommitsThree(s.nodes);
    hide Committed, Recorded, Led, Commits;
    assert forall x :: Led(s.leadersSeen, s.nodes.At(1).term, x) && s.nodes.At(1).leader ==> LeadsTerm(s.nodes, s.nodes.At(1).term, 1);
  }

  lemma SecondPasses<R(!new), M(!new)>(raft: Raft<R, M>, s: State<R, M>, s1: State<R, M>)
    requires AllHealthy(raft, s) && LeadersAgree(s) && CommitsAgree(s) && Adds(s, s1, 1)
    ensures NodeAdmits(raft, s1, 2)
  {
    CommitsThree(s.nodes);
    hide Committed, Recorded, Led, Commits, WellKeyed;
    assert forall x :: Led(s1.leadersSeen, s.nodes.At(2).term, x) && s.nodes.At(2).leader ==> LeadsTerm(s.nodes, s.nodes.At(2).term, 2);
  }

  lemma ThirdPasses<R(!new), M(!new)>(raft: Raft<R, M>, s: State<R, M>, s1: State<R, M>, s2: State<R, M>)
    requires AllHealthy(raft, s) && LeadersAgree(s) && CommitsAgree(s) && Adds(s, s1, 1) && Adds(s1, s2, 2)
    ensures NodeAdmits(raft, s2, 3)
  {
    CommitsThree(s.nodes);
    hide Committed, Recorded, Led, Commits, WellKeyed;
    assert forall x :: Led(s2.leadersSeen, s.nodes.At(3).term, x) && s.nodes.At(3).leader ==> LeadsTerm(s.nodes, s.nodes.At(3).term, 3);
  }

  lemma CompleteExact<R(!new)>(node: Node<R>, committed: map<nat, Entry>)
    requires WellKeyed(committed)
    ensures Complete(node, committed) <==>
            (node.leader ==> forall e | Recorded(committed, e) && e.term < node.term :: HasEntry(node.log, e))
  {
    forall k | k in committed ensures Recorded(committed, committed[k]) {
    }
  }

  ghost predicate LogsAgree<R(!new), M(!new)>(s: State<R, M>) {
    forall a: Id, b: Id | a < b :: Matching(s.nodes.At(a).log, s.nodes.At(b).log)
  }

  ghost predicate LeadersComplete<R(!new), M(!new)>(s: State<R, M>) {
    forall e, b: Id | (Commits(s.nodes, e) || Recorded(s.committed, e)) && s.nodes.At(b).leader && e.term < s.nodes.At(b).term ::
      HasEntry(s.nodes.At(b).log, e)
  }

  lemma LogsAgreeThree<R(!new), M(!new)>(s: State<R, M>)
    ensures LogsAgree(s) <==>
            LogsMatch(s.nodes.one.log, s.nodes.two.log) && LogsMatch(s.nodes.one.log, s.nodes.three.log) &&
            LogsMatch(s.nodes.two.log, s.nodes.three.log)
  {
    hide LogsMatch, Matching;
    MatchingExact(s.nodes.one.log, s.nodes.two.log);
    MatchingExact(s.nodes.one.log, s.nodes.three.log);
    MatchingExact(s.nodes.two.log, s.nodes.three.log);
    assert s.nodes.At(1) == s.nodes.one && s.nodes.At(2) == s.nodes.two && s.nodes.At(3) == s.nodes.three;
  }

  lemma LeadersCompleteThree<R(!new), M(!new)>(s: State<R, M>, t: State<R, M>)
    requires Remembers(s, t)
    ensures LeadersComplete(s) <==>
            Complete(s.nodes.one, t.committed) && Complete(s.nodes.two, t.committed) && Complete(s.nodes.three, t.committed)
  {
    hide Complete, HasEntry, Recorded, Commits, WellKeyed;
    CompleteExact(s.nodes.one, t.committed);
    CompleteExact(s.nodes.two, t.committed);
    CompleteExact(s.nodes.three, t.committed);
    assert s.nodes.At(1) == s.nodes.one && s.nodes.At(2) == s.nodes.two && s.nodes.At(3) == s.nodes.three;
  }

  /** The explorer's checks of a state are exactly the five demands, and record exactly what it shows. */
  lemma CheckExact<R(!new), M(!new)>(raft: Raft<R, M>, s: State<R, M>)
    requires WellKeyed(s.committed)
    ensures CheckInvariants(raft, s).Some? <==> Admissible(raft, s)
    ensures CheckInvariants(raft, s).Some? ==> Remembers(s, CheckInvariants(raft, s).value)
  {
    AdmissibleParts(raft, s);
    LogsAgreeThree(s);
    hide Admissible, AllHealthy, LeadersAgree, CommitsAgree, LogsAgree, LeadersComplete, CheckNode, NodeAdmits, Adds, Remembers, LogsMatch, Complete;
    CheckNodeExact(raft, s, 1);
    if AllHealthy(raft, s) && LeadersAgree(s) && CommitsAgree(s) {
      FirstPasses(raft, s);
      var s1 := CheckNode(raft, s, 1).value;
      AddsKeyed(s, s1, 1);
      CheckNodeExact(raft, s1, 2);
      SecondPasses(raft, s, s1);
      var s2 := CheckNode(raft, s1, 2).value;
      AddsKeyed(s1, s2, 2);
      CheckNodeExact(raft, s2, 3);
      ThirdPasses(raft, s, s1, s2);
      ThreeRemember(s, s1, s2, CheckNode(raft, s2, 3).value);
      LeadersCompleteThree(s, CheckNode(raft, s2, 3).value);
    } else if CheckNode(raft, s, 1).Some? {
      PassedAnyway(raft, s);
    }
  }

  lemma AddsKeyed<R(!new), M(!new)>(s: State<R, M>, t: State<R, M>, id: Id)
    requires Adds(s, t, id)
    ensures WellKeyed(t.committed)
  {
  }

  lemma AdmissibleParts<R(!new), M(!new)>(raft: Raft<R, M>, s: State<R, M>)
    ensures Admissible(raft, s) <==> AllHealthy(raft, s) && LeadersAgree(s) && CommitsAgree(s) && LogsAgree(s) && LeadersComplete(s)
  {
    hide HasEntry, Recorded, Commits, Led, LeadsTerm, Matching;
  }

  /** A state that is unhealthy or clashes does not pass all three nodes. */
  lemma PassedAnyway<R(!new), M(!new)>(raft: Raft<R, M>, s: State<R, M>)
    requires WellKeyed(s.committed) && !(AllHealthy(raft, s) && LeadersAgree(s) && CommitsAgree(s))
    ensures CheckInvariants(raft, s).None?
  {
    hide AllHealthy, LeadersAgree, CommitsAgree, CheckNode, NodeAdmits, Adds, LogsMatch, Complete;
    CheckNodeExact(raft, s, 1);
    if CheckNode(raft, s, 1).Some? {
      var s1 := CheckNode(raft, s, 1).value;
      AddsKeyed(s, s1, 1);
      CheckNodeExact(raft, s1, 2);
      if CheckNode(raft, s1, 2).Some? {
        var s2 := CheckNode(raft, s1, 2).value;
        AddsKeyed(s1, s2, 2);
        CheckNodeExact(raft, s2, 3);
        if CheckNode(raft, s2, 3).Some? {
          ThreePass(raft, s, s1, s2);
        }
      }
    }
  }

  // ------------------------------------------------------------------
  // Runs of the explorer and schedules
  // ------------------------------------------------------------------

  function WorldsOf<R, M>(path: seq<State<R, M>>): (ws: seq<World<R, M>>)
    ensures |ws| == |path| && forall i | 0 <= i < |path| :: ws[i] == WorldOf(path[i])
  {
    seq(|path|, i requires 0 <= i < |path| => WorldOf(path[i]))
  }

  function Fresh<R, M>(nodes: Trio<Node<R>>): State<R, M> {
    State(nodes, [], map[], map[])
  }

  ghost predicate RanFrom<R(!new), M(!new)>(raft: Raft<R, M>, config: Config, nodes: Trio<Node<R>>, path: seq<State<R, M>>) {
    IsPath(SystemOf(raft, config), path) && path[0] == Fresh(nodes)
  }

  ghost predicate CommittedBefore<R(!new), M(!new)>(path: seq<State<R, M>>, n: nat, e: Entry)
    requires n <= |path|
  {
    exists i :: 0 <= i < n && Commits(path[i].nodes, e)
  }

  ghost predicate LedBefore<R(!new), M(!new)>(path: seq<State<R, M>>, n: nat, term: nat, id: Id)
    requires n <= |path|
  {
    exists i :: 0 <= i < n && LeadsTerm(path[i].nodes, term, id)
  }

  /** A state's history is what the states before it on the run showed. */
  ghost predicate HistoryIs<R(!new), M(!new)>(path: seq<State<R, M>>, n: nat)
    requires n < |path|
  {
    WellKeyed(path[n].committed) &&
    (forall e :: Recorded(path[n].committed, e) <==> CommittedBefore(path, n, e)) &&
    (forall term, x :: Led(path[n].leadersSeen, term, x) <==> LedBefore(path, n, term, x))
  }

  lemma StepOf<R(!new), M(!new)>(raft: Raft<R, M>, config: Config, path: seq<State<R, M>>, n: nat)
    requires IsPath(SystemOf(raft, config), path) && n + 1 < |path|
    ensures CheckInvariants(raft, path[n]).Some?
    ensures path[n + 1] in Successors(raft, CheckInvariants(raft, path[n]).value, config)
  {
    hide CheckInvariants, Successors;
    assert Steps(SystemOf(raft, config), path[n], path[n + 1]);
  }

  lemma HistoryGrows<R(!new), M(!new)>(path: seq<State<R, M>>, n: nat, t: State<R, M>)
    requires n + 1 < |path| && HistoryIs(path, n) && Remembers(path[n], t) && SameHistory(path[n + 1], t)
    ensures HistoryIs(path, n + 1)
  {
    hide Recorded, Led, Commits, LeadsTerm, WellKeyed;
    forall e ensures CommittedBefore(path, n + 1, e) <==> CommittedBefore(path, n, e) || Commits(path[n].nodes, e) {
    }
    forall term, x ensures LedBefore(path, n + 1, term, x) <==> LedBefore(path, n, term, x) || LeadsTerm(path[n].nodes, term, x) {
    }
  }

  lemma {:induction false} HistoryExact<R(!new), M(!new)>(raft: Raft<R, M>, config: Config, nodes: Trio<Node<R>>, path: seq<State<R, M>>, n: nat)
    requires RanFrom(raft, config, nodes, path) && n < |path|
    ensures HistoryIs(path, n)
  {
    if n > 0 {
      hide HistoryIs, Successors, CheckInvariants, Remembers, Admissible;
      HistoryExact(raft, config, nodes, path, n - 1);
      StepOf(raft, config, path, n - 1);
      HistoryKeyed(path, n - 1);
      CheckExact(raft, path[n - 1]);
      var t := CheckInvariants(raft, path[n - 1]).value;
      SuccessorsExact(raft, t, config, path[n]);
      HistoryGrows(path, n - 1, t);
    }
  }

  lemma HistoryKeyed<R(!new), M(!new)>(path: seq<State<R, M>>, n: nat)
    requires n < |path| && HistoryIs(path, n)
    ensures WellKeyed(path[n].committed)
  {
  }

  lemma AdmissibleIsSafe<R(!new), M(!new)>(raft: Raft<R, M>, path: seq<State<R, M>>, n: nat)
    requires n < |path| && HistoryIs(path, n)
    ensures Admissible(raft, path[n]) <==> SafeAt(raft, WorldsOf(path), n)
  {
    hide Admissible, SafeAt, HistoryIs;
    if Admissible(raft, path[n]) {
      SafeIfAdmissible(raft, path, n);
    }
    if SafeAt(raft, WorldsOf(path), n) {
      AdmissibleIfSafe(raft, path, n);
    }
  }

  lemma SafeIfAdmissible<R(!new), M(!new)>(raft: Raft<R, M>, path: seq<State<R, M>>, n: nat)
    requires n < |path| && HistoryIs(path, n) && Admissible(raft, path[n])
    ensures SafeAt(raft, WorldsOf(path), n)
  {
    hide Recorded, Led, Commits, LeadsTerm, WellKeyed, Matching, HasEntry, HistoryIs;
    var s, ws := path[n], WorldsOf(path);
    forall i, term, a, b | 0 <= i <= n && LeadsTerm(ws[i].nodes, term, a) && LeadsTerm(ws[n].nodes, term, b) ensures a == b {
      EverLed(path, n, term, a);
    }
    forall i, e, f | 0 <= i <= n && Commits(ws[i].nodes, e) && Commits(ws[n].nodes, f) && e.index == f.index ensures e == f {
      EverCommitted(path, n, e);
    }
    forall i, e, b: Id | 0 <= i <= n && Commits(ws[i].nodes, e) && ws[n].nodes.At(b).leader && e.term < ws[n].nodes.At(b).term
      ensures HasEntry(ws[n].nodes.At(b).log, e)
    {
      EverCommitted(path, n, e);
    }
  }

  lemma AdmissibleIfSafe<R(!new), M(!new)>(raft: Raft<R, M>, path: seq<State<R, M>>, n: nat)
    requires n < |path| && HistoryIs(path, n) && SafeAt(raft, WorldsOf(path), n)
    ensures Admissible(raft, path[n])
  {
    hide Recorded, Led, Commits, LeadsTerm, WellKeyed, Matching, HasEntry, HistoryIs;
    var s, ws := path[n], WorldsOf(path);
    forall term, a, b | (LeadsTerm(s.nodes, term, a) || Led(s.leadersSeen, term, a)) && LeadsTerm(s.nodes, term, b) ensures a == b {
      EverLed(path, n, term, a);
    }
    forall e, f | (Commits(s.nodes, e) || Recorded(s.committed, e)) && Commits(s.nodes, f) && e.index == f.index ensures e == f {
      EverCommitted(path, n, e);
    }
    forall e, b: Id | (Commits(s.nodes, e) || Recorded(s.committed, e)) && s.nodes.At(b).leader && e.term < s.nodes.At(b).term
      ensures HasEntry(s.nodes.At(b).log, e)
    {
      EverCommitted(path, n, e);
    }
  }

  lemma EverCommitted<R(!new), M(!new)>(path: seq<State<R, M>>, n: nat, e: Entry)
    requires n < |path| && HistoryIs(path, n)
    ensures Commits(path[n].nodes, e) || Recorded(path[n].committed, e) <==> exists i :: 0 <= i <= n && Commits(WorldsOf(path)[i].nodes, e)
  {
    hide Recorded, Led, Commits, LeadsTerm, WellKeyed;
    var ws := WorldsOf(path);
    assert forall i | 0 <= i <= n :: ws[i].nodes == path[i].nodes;
    if CommittedBefore(path, n, e) {
      var i :| 0 <= i < n && Commits(path[i].nodes, e);
      assert Commits(ws[i].nodes, e);
    }
    if Commits(path[n].nodes, e) {
      assert Commits(ws[n].nodes, e);
    }
  }

  lemma EverLed<R(!new), M(!new)>(path: seq<State<R, M>>, n: nat, term: nat, x: Id)
    requires n < |path| && HistoryIs(path, n)
    ensures LeadsTerm(path[n].nodes, term, x) || Led(path[n].leadersSeen, term, x) <==>
            exists i :: 0 <= i <= n && LeadsTerm(WorldsOf(path)[i].nodes, term, x)
  {
    hide Recorded, Led, Commits, LeadsTerm, WellKeyed;
    var ws := WorldsOf(path);
    assert forall i | 0 <= i <= n :: ws[i].nodes == path[i].nodes;
    if LedBefore(path, n, term, x) {
      var i :| 0 <= i < n && LeadsTerm(path[i].nodes, term, x);
      assert LeadsTerm(ws[i].nodes, term, x);
    }
    if LeadsTerm(path[n].nodes, term, x) {
      assert LeadsTerm(ws[n].nodes, term, x);
    }
  }

  /** On a run, a state passes the explorer's checks exactly when its world is safe, looking back. */
  lemma PassesExactly<R(!new), M(!new)>(raft: Raft<R, M>, config: Config, nodes: Trio<Node<R>>, path: seq<State<R, M>>, n: nat)
    requires RanFrom(raft, config, nodes, path) && n < |path|
    ensures CheckInvariants(raft, path[n]).Some? <==> SafeAt(raft, WorldsOf(path), n)
  {
    hide HistoryIs, CheckInvariants, Admissible, SafeAt, Remembers, RanFrom;
    HistoryExact(raft, config, nodes, path, n);
    HistoryKeyed(path, n);
    CheckExact(raft, path[n]);
    AdmissibleIsSafe(raft, path, n);
  }

  /** Every run of the explorer follows a schedule. */
  lemma RunIsScheduled<R(!new), M(!new)>(raft: Raft<R, M>, config: Config, nodes: Trio<Node<R>>, path: seq<State<R, M>>)
    requires RanFrom(raft, config, nodes, path)
    ensures Scheduled(raft, config, nodes, WorldsOf(path))
  {
    hide CheckInvariants, Successors, CanFollow, Admissible, Remembers;
    var ws := WorldsOf(path);
    forall i: nat | i < |ws| - 1 ensures CanFollow(raft, config, ws[i], ws[i + 1]) {
      StepOf(raft, config, path, i);
      HistoryExact(raft, config, nodes, path, i);
      CheckExact(raft, path[i]);
      var t := CheckInvariants(raft, path[i]).value;
      SuccessorsExact(raft, t, config, path[i + 1]);
      SameWorld(path[i], t);
    }
  }

  lemma SameWorld<R(!new), M(!new)>(s: State<R, M>, t: State<R, M>)
    requires Remembers(s, t)
    ensures WorldOf(s) == WorldOf(t)
  {
  }

  lemma {:induction false} SafePrefix<R(!new), M(!new)>(raft: Raft<R, M>, ws: seq<World<R, M>>, n: nat, j: nat)
    requires j < n <= |ws|
    ensures SafeAt(raft, ws[..n], j) <==> SafeAt(raft, ws, j)
  {
    hide Commits, LeadsTerm, Matching, HasEntry;
    assert forall i | 0 <= i < n :: ws[..n][i] == ws[i];
  }

  /** Every schedule, safe up to its last world, is followed by a run of the explorer. */
  lemma {:induction false} ScheduleIsRun<R(!new), M(!new)>(raft: Raft<R, M>, config: Config, nodes: Trio<Node<R>>, ws: seq<World<R, M>>)
    returns (path: seq<State<R, M>>)
    requires Scheduled(raft, config, nodes, ws) && forall j | 0 <= j < |ws| - 1 :: SafeAt(raft, ws, j)
    ensures RanFrom(raft, config, nodes, path) && WorldsOf(path) == ws
    decreases |ws|
  {
    hide CheckInvariants, Successors, CanFollow, SafeAt, Remembers, Admissible;
    if |ws| == 1 {
      path := [Fresh(nodes)];
      assert WorldsOf(path) == ws;
    } else {
      var n := |ws| - 1;
      var front := ws[..n];
      assert forall i | 0 <= i < n :: front[i] == ws[i];
      forall j: nat | j < |front| ensures SafeAt(raft, front, j) {
        SafePrefix(raft, ws, n, j);
      }
      var before := ScheduleIsRun(raft, config, nodes, front);
      PassesExactly(raft, config, nodes, before, n - 1);
      path := before + [NextState(raft, before[n - 1], ws[n])];
      Follows(raft, config, nodes, before, ws[n]);
      assert WorldsOf(path) == ws;
    }
  }

  function NextState<R, M>(raft: Raft<R, M>, s: State<R, M>, w: World<R, M>): State<R, M>
    requires CheckInvariants(raft, s).Some?
  {
    var t := CheckInvariants(raft, s).value;
    State(w.nodes, w.soup, t.leadersSeen, t.committed)
  }

  lemma Follows<R(!new), M(!new)>(raft: Raft<R, M>, config: Config, nodes: Trio<Node<R>>, path: seq<State<R, M>>, w: World<R, M>)
    requires RanFrom(raft, config, nodes, path) && CheckInvariants(raft, path[|path| - 1]).Some?
    requires CanFollow(raft, config, WorldOf(path[|path| - 1]), w)
    ensures RanFrom(raft, config, nodes, path + [NextState(raft, path[|path| - 1], w)])
  {
    hide CheckInvariants, Successors, CanFollow, Remembers, Admissible, HistoryIs;
    var n := |path| - 1;
    var s, sys := path[n], SystemOf(raft, config);
    var c := NextState(raft, s, w);
    HistoryExact(raft, config, nodes, path, n);
    HistoryKeyed(path, n);
    CheckExact(raft, s);
    var t := CheckInvariants(raft, s).value;
    SameWorld(s, t);
    SuccessorsExact(raft, t, config, c);
    assert Steps(sys, s, c);
    var longer := path + [c];
    forall i | 0 <= i < |longer| - 1 ensures Steps(sys, longer[i], longer[i + 1]) {
      if i < n {
        assert longer[i] == path[i] && longer[i + 1] == path[i + 1];
      }
    }
  }

  // ------------------------------------------------------------------
  // The bounded check
  // ------------------------------------------------------------------

  /** When every run's last state passes, every schedule is safe. */
  lemma {:induction false} PassingIsSafe<R(!new), M(!new)>(raft: Raft<R, M>, config: Config, nodes: Trio<Node<R>>, depth: nat, ws: seq<World<R, M>>)
    requires forall path: seq<State<R, M>> | RanFrom(raft, config, nodes, path) && |path| <= depth + 1 ::
               CheckInvariants(raft, path[|path| - 1]).Some?
    requires Scheduled(raft, config, nodes, ws) && |ws| <= depth + 1
    ensures SafeSchedule(raft, ws)
    decreases |ws|
  {
    hide CheckInvariants, CanFollow, SafeAt, IsPath;
    var n := |ws| - 1;
    if n > 0 {
      var front := ws[..n];
      assert forall i | 0 <= i < n :: front[i] == ws[i];
      PassingIsSafe(raft, config, nodes, depth, front);
      forall j: nat | j < n ensures SafeAt(raft, ws, j) {
        assert SafeAt(raft, front, j);
        SafePrefix(raft, ws, n, j);
      }
    }
    var path := ScheduleIsRun(raft, config, nodes, ws);
    PassesExactly(raft, config, nodes, path, n);
  }

  ghost predicate EverySchedule<R(!new), M(!new)>(raft: Raft<R, M>, config: Config, nodes: Trio<Node<R>>, depth: nat) {
    forall ws: seq<World<R, M>> | Scheduled(raft, config, nodes, ws) && |ws| <= depth + 1 :: SafeSchedule(raft, ws)
  }

  /** The bounded check.  A report means that every schedule of at most `maxDepth` timeouts, proposals,
      deliveries, duplications and losses is safe throughout.  A violation means that some such schedule is
      not, and a state limit that there are more states. */
  method Check<R(!new, ==), M(!new, ==)>(raft: Raft<R, M>, nodes: Trio<Node<R>>, config: Config, bounds: Bounds)
    returns (verdict: Option<Verdict>)
    ensures verdict.None? <==>
              config.maxLog == 0 || config.maxTerm == 0 || config.maxMessages == 0 || bounds.maxDepth == 0 || bounds.maxStates == 0
    ensures verdict.Some? && verdict.value.Report? ==>
              verdict.value.explored <= bounds.maxStates &&
              Counts(SystemOf(raft, config), State(nodes, [], map[], map[]), bounds.maxDepth, verdict.value.explored) &&
              forall path: seq<State<R, M>> | RunFrom(raft, nodes, config, bounds, path) :: RunIsSafe(path) && StatesAreSafe(raft, path)
    ensures verdict.Some? && verdict.value.Report? ==> EverySchedule(raft, config, nodes, bounds.maxDepth)
    ensures verdict.Some? && verdict.value.Violation? ==> !EverySchedule(raft, config, nodes, bounds.maxDepth)
    ensures verdict.Some? && verdict.value.Violation? ==>
              exists path: seq<State<R, M>> ::
                RunFrom(raft, nodes, config, bounds, path) && CheckInvariants(raft, path[|path| - 1]).None?
    ensures verdict.Some? && verdict.value.StateLimit? ==>
              Exceeds(SystemOf(raft, config), State(nodes, [], map[], map[]), bounds.maxDepth, bounds.maxStates)
  {
    hide CheckInvariants, Successors, RunIsSafe, StatesAreSafe, Congruent, Counts, Exceeds, EverySchedule;
    if config.maxLog == 0 || config.maxTerm == 0 || config.maxMessages == 0 || bounds.maxDepth == 0 || bounds.maxStates == 0 {
      return None;
    }
    ModelCongruent(raft, config);
    var start: State<R, M> := State(nodes, [], map[], map[]);
    var sys := SystemOf(raft, config);
    var v := Explore(sys, start, bounds);
    if v.Report? {
      forall path: seq<State<R, M>> | RunFrom(raft, nodes, config, bounds, path)
        ensures RunIsSafe(path) && StatesAreSafe(raft, path)
      {
        assert Reaches(sys, start, path[|path| - 1], |path| - 1);
        AdmittedRunIsSafe(raft, config, path);
      }
      AllPass(raft, config, nodes, bounds);
    }
    if v.Violation? {
      ghost var path: seq<State<R, M>> :| RunFrom(raft, nodes, config, bounds, path) && CheckInvariants(raft, path[|path| - 1]).None?;
      OneFails(raft, config, nodes, bounds, path);
    }
    return Some(v);
  }

  lemma AllPass<R(!new), M(!new)>(raft: Raft<R, M>, config: Config, nodes: Trio<Node<R>>, bounds: Bounds)
    requires forall path: seq<State<R, M>> | RunFrom(raft, nodes, config, bounds, path) :: StatesAreSafe(raft, path)
    ensures EverySchedule(raft, config, nodes, bounds.maxDepth)
  {
    hide CheckInvariants, Steps, SafeSchedule, Scheduled, Safe;
    forall path: seq<State<R, M>> | RanFrom(raft, config, nodes, path) && |path| <= bounds.maxDepth + 1
      ensures CheckInvariants(raft, path[|path| - 1]).Some?
    {
      assert RunFrom(raft, nodes, config, bounds, path);
      assert StatesAreSafe(raft, path);
    }
    forall ws: seq<World<R, M>> | Scheduled(raft, config, nodes, ws) && |ws| <= bounds.maxDepth + 1 ensures SafeSchedule(raft, ws) {
      PassingIsSafe(raft, config, nodes, bounds.maxDepth, ws);
    }
  }

  lemma OneFails<R(!new), M(!new)>(raft: Raft<R, M>, config: Config, nodes: Trio<Node<R>>, bounds: Bounds, path: seq<State<R, M>>)
    requires RunFrom(raft, nodes, config, bounds, path) && CheckInvariants(raft, path[|path| - 1]).None?
    ensures !EverySchedule(raft, config, nodes, bounds.maxDepth)
  {
    hide CheckInvariants, Steps, SafeAt, Scheduled;
    assert RanFrom(raft, config, nodes, path);
    RunIsScheduled(raft, config, nodes, path);
    PassesExactly(raft, config, nodes, path, |path| - 1);
    assert !SafeSchedule(raft, WorldsOf(path));
  }
}
