/** The durable Raft log: replaying semantic records, and why compaction is invisible. */
module RaftLog {
  import opened Prelude
  import opened ClusterConfig

  datatype Origin = Bootstrap | Join | Restore

  type ClusterId = b: Bytes | |b| == 16 witness [0, 0, 0, 0, 0, 0, 0, 0, 0, 0, 0, 0, 0, 0, 0, 0]

  datatype Genesis = Genesis(origin: Origin, clusterId: ClusterId, policy: Policy, membership: Membership)

  datatype EntryKind = App | Noop | Config | AppV3 | ConfigV3

  datatype Entry = Entry(term: u64, index: u64, kind: EntryKind, payload: Bytes)

  datatype HardState = HardState(term: u64, votedFor: Option<u64>)

  datatype Mark = Mark(index: u64, term: u64, generation: u64, crc: u32)

  datatype Record =
    | GenesisRecord(genesis: Genesis)
    | Hard(hard: HardState)
    | Append(entry: Entry)
    | Truncate(from: u64)
    | SnapshotMark(mark: Mark)
    | InstalledSnapshotMark(mark: Mark)

  /** The state of a log as a value. */
  datatype LogView = LogView(
    genesis: Genesis,
    hard: HardState,
    baseIndex: u64,
    baseTerm: u64,
    entries: seq<Entry>,
    snapshot: Option<Mark>)

  predicate ValidGenesis(g: Genesis) {
    (exists i | 0 <= i < 16 :: g.clusterId[i] != 0) && ValidPolicy(g.policy) && ValidMembership(g.membership)
  }

  function Fresh(g: Genesis): LogView {
    LogView(g, HardState(0, None), 0, 0, [], None)
  }

  function LastIndex(v: LogView): u64 {
    if v.entries == [] then v.baseIndex else v.entries[|v.entries| - 1].index
  }

  function FindTerm(es: seq<Entry>, index: u64): Option<u64> {
    if es == [] then None
    else if es[0].index == index then Some(es[0].term)
    else FindTerm(es[1..], index)
  }

  function TermAt(v: LogView, index: u64): Option<u64> {
    if index == v.baseIndex then Some(v.baseTerm) else FindTerm(v.entries, index)
  }

  function Below(es: seq<Entry>, from: u64): seq<Entry> {
    if es == [] then []
    else if es[0].index < from then [es[0]] + Below(es[1..], from)
    else Below(es[1..], from)
  }

  function Above(es: seq<Entry>, index: u64): seq<Entry> {
    if es == [] then []
    else if es[0].index > index then [es[0]] + Above(es[1..], index)
    else Above(es[1..], index)
  }

  predicate HardAccepted(current: HardState, hard: HardState) {
    hard.term >= current.term &&
    !(hard.term == current.term && current.votedFor.Some? && hard.votedFor.Some? && current.votedFor != hard.votedFor)
  }

  predicate MarkAccepted(v: LogView, mark: Mark, installed: bool) {
    mark.index != 0 && mark.index >= v.baseIndex &&
    (v.snapshot.Some? ==> mark.index > v.snapshot.value.index) &&
    (if installed then TermAt(v, mark.index).Some? ==> TermAt(v, mark.index).value == mark.term
     else TermAt(v, mark.index) == Some(mark.term))
  }

  /** One record; `None` when the history is refused. */
  function Apply(v: LogView, r: Record): Option<LogView> {
    match r
    case GenesisRecord(_) => None
    case Hard(hard) => if HardAccepted(v.hard, hard) then Some(v.(hard := hard)) else None
    case Append(entry) =>
      if entry.index == 0 || entry.index != SatAdd(LastIndex(v), 1) then None
      else Some(v.(entries := v.entries + [entry]))
    case Truncate(from) =>
      if from <= v.baseIndex then None else Some(v.(entries := Below(v.entries, from)))
    case SnapshotMark(mark) => if MarkAccepted(v, mark, false) then Some(Rebase(v, mark)) else None
    case InstalledSnapshotMark(mark) => if MarkAccepted(v, mark, true) then Some(Rebase(v, mark)) else None
  }

  function Rebase(v: LogView, mark: Mark): LogView {
    v.(entries := Above(v.entries, mark.index), baseIndex := mark.index, baseTerm := mark.term, snapshot := Some(mark))
  }

  /** A whole history of records. */
  function Run(v: LogView, rs: seq<Record>): Option<LogView>
    decreases |rs|
  {
    if rs == [] then Some(v)
    else
      var next := Apply(v, rs[0]);
      if next.None? then None else Run(next.value, rs[1..])
  }

  // ------------------------------------------------------------------
  // Terms and votes over whole histories
  // ------------------------------------------------------------------

  /** The hard states of a history, in order. */
  function Hards(rs: seq<Record>): seq<HardState> {
    if rs == [] then [] else (if rs[0].Hard? then [rs[0].hard] else []) + Hards(rs[1..])
  }

  ghost predicate VoteCleared(hs: seq<HardState>, i: nat, j: nat)
    requires j <= |hs|
  {
    exists k :: i < k < j && hs[k].votedFor.None?
  }

  /** Terms never go back, and two votes in one term are for the same node unless a record between them
      took the vote back. */
  ghost predicate Lawful(hs: seq<HardState>) {
    (forall i, j | 0 <= i <= j < |hs| :: hs[i].term <= hs[j].term) &&
    (forall i: nat, j: nat | i < j < |hs| && hs[i].term == hs[j].term && hs[i].votedFor.Some? && hs[j].votedFor.Some? &&
                             hs[i].votedFor != hs[j].votedFor :: VoteCleared(hs, i, j))
  }

  ghost predicate Stepwise(hs: seq<HardState>) {
    forall i | 0 <= i < |hs| - 1 :: HardFollows(hs, i)
  }

  ghost predicate HardFollows(hs: seq<HardState>, i: nat)
    requires i < |hs| - 1
  {
    HardAccepted(hs[i], hs[i + 1])
  }

  lemma {:induction false} TermsForward(hs: seq<HardState>, i: nat, j: nat)
    requires Stepwise(hs) && i <= j < |hs|
    ensures hs[i].term <= hs[j].term
    decreases j
  {
    if i < j {
      TermsForward(hs, i, j - 1);
      assert HardFollows(hs, j - 1);
    }
  }

  lemma {:induction false} VotesStand(hs: seq<HardState>, i: nat, j: nat)
    requires Stepwise(hs) && i <= j < |hs| && hs[i].term == hs[j].term
    requires hs[i].votedFor.Some? && hs[j].votedFor.Some? && !VoteCleared(hs, i, j)
    ensures hs[i].votedFor == hs[j].votedFor
    decreases j
  {
    if i < j {
      TermsForward(hs, i, j - 1);
      TermsForward(hs, j - 1, j);
      assert HardFollows(hs, j - 1);
      if i < j - 1 {
        assert hs[j - 1].votedFor.Some?;
        assert !VoteCleared(hs, i, j - 1);
        VotesStand(hs, i, j - 1);
      }
    }
  }

  /** Accepting each hard state after the one before is accepting the history. */
  lemma StepwiseIsLawful(hs: seq<HardState>)
    ensures Stepwise(hs) <==> Lawful(hs)
  {
    if Stepwise(hs) {
      forall i, j | 0 <= i <= j < |hs| ensures hs[i].term <= hs[j].term {
        TermsForward(hs, i, j);
      }
      forall i: nat, j: nat | i < j < |hs| && hs[i].term == hs[j].term && hs[i].votedFor.Some? && hs[j].votedFor.Some? &&
                              hs[i].votedFor != hs[j].votedFor ensures VoteCleared(hs, i, j) {
        if !VoteCleared(hs, i, j) {
          VotesStand(hs, i, j);
        }
      }
    }
    if Lawful(hs) {
      forall i: nat | i < |hs| - 1 ensures HardFollows(hs, i) {
        assert !VoteCleared(hs, i, i + 1);
      }
    }
  }

  lemma StepwisePrepend(h: HardState, hs: seq<HardState>)
    requires hs != []
    ensures Stepwise([h] + hs) <==> HardAccepted(h, hs[0]) && Stepwise(hs)
  {
    var all := [h] + hs;
    assert all[1] == hs[0];
    if Stepwise(all) {
      assert HardFollows(all, 0);
      forall i: nat | i < |hs| - 1 ensures HardFollows(hs, i) {
        assert HardFollows(all, i + 1);
      }
    }
    if HardAccepted(h, hs[0]) && Stepwise(hs) {
      forall i: nat | i < |all| - 1 ensures HardFollows(all, i) {
        assert i > 0 ==> HardFollows(hs, i - 1);
      }
    }
  }

  /** In every accepted history terms never go back, and no vote is changed within a term without having
      been taken back; and for a history of hard states alone, that is all that is asked. */
  lemma {:induction false} TermsAndVotes(v: LogView, rs: seq<Record>)
    ensures Run(v, rs).Some? ==> Lawful([v.hard] + Hards(rs))
    ensures (forall r | r in rs :: r.Hard?) ==> (Run(v, rs).Some? <==> Lawful([v.hard] + Hards(rs)))
    decreases |rs|
  {
    hide HardAccepted, MarkAccepted, Lawful, Stepwise;
    StepwiseIsLawful([v.hard] + Hards(rs));
    if rs == [] {
      Alone(v.hard);
      assert [v.hard] + [] == [v.hard];
    } else {
      var next := Apply(v, rs[0]);
      assert forall r | r in rs[1..] :: r in rs;
      assert rs[0] in rs;
      if rs[0].Hard? {
        var more := [rs[0].hard] + Hards(rs[1..]);
        assert Hards(rs) == more;
        StepwisePrepend(v.hard, more);
        if next.Some? {
          TermsAndVotes(next.value, rs[1..]);
        }
        StepwiseIsLawful(more);
      } else if next.Some? {
        assert [] + Hards(rs[1..]) == Hards(rs[1..]);
        TermsAndVotes(next.value, rs[1..]);
      }
    }
  }

  lemma Alone(h: HardState)
    ensures Stepwise([h])
  {
  }

  /** A vote taken back within a term can be given again, to another node. */
  lemma VoteTakenBack(v: LogView, term: u64)
    requires term > v.hard.term
    ensures Run(v, [Hard(HardState(term, Some(1))), Hard(HardState(term, None)), Hard(HardState(term, Some(2)))]) ==
            Some(v.(hard := HardState(term, Some(2))))
  {
    var a, b, c := Hard(HardState(term, Some(1))), Hard(HardState(term, None)), Hard(HardState(term, Some(2)));
    assert [a, b, c][1..] == [b, c] && [b, c][1..] == [c] && [c][1..] == [];
    assert Run(v.(hard := b.hard), [c]) == Some(v.(hard := c.hard));
    assert Run(v.(hard := a.hard), [b, c]) == Some(v.(hard := c.hard));
  }

  // ------------------------------------------------------------------
  // The log as the source keeps it: updated in place
  // ------------------------------------------------------------------

  class LogState {
    const genesis: Genesis
    var hardState: HardState
    var baseIndex: u64
    var baseTerm: u64
    var entries: seq<Entry>
    var snapshot: Option<Mark>

    constructor (g: Genesis)
      ensures View() == Fresh(g)
    {
      genesis := g;
      hardState, baseIndex, baseTerm, entries, snapshot := HardState(0, None), 0, 0, [], None;
    }

    function View(): LogView
      reads this
    {
      LogView(genesis, hardState, baseIndex, baseTerm, entries, snapshot)
    }

    /** Accepted records move the log exactly as specified; refused ones leave it alone. */
    method ApplyRecord(r: Record) returns (ok: bool)
      modifies this
      ensures ok <==> Apply(old(View()), r).Some?
      ensures View() == if ok then Apply(old(View()), r).value else old(View())
    {
      match r
      case GenesisRecord(_) => ok := false;
      case Hard(hard) =>
        ok := HardAccepted(hardState, hard);
        if ok {
          hardState := hard;
        }
      case Append(entry) =>
        ok := entry.index != 0 && entry.index == SatAdd(LastIndex(View()), 1);
        if ok {
          entries := entries + [entry];
        }
      case Truncate(from) =>
        ok := from > baseIndex;
        if ok {
          entries := Below(entries, from);
        }
      case SnapshotMark(mark) =>
        ok := MarkAccepted(View(), mark, false);
        if ok {
          Retire(mark);
        }
      case InstalledSnapshotMark(mark) =>
        ok := MarkAccepted(View(), mark, true);
        if ok {
          Retire(mark);
        }
    }

    method Retire(mark: Mark)
      modifies this
      ensures View() == Rebase(old(View()), mark)
    {
      entries := Above(entries, mark.index);
      baseIndex, baseTerm, snapshot := mark.index, mark.term, Some(mark);
    }
  }

  // ------------------------------------------------------------------
  // Compaction is invisible
  // ------------------------------------------------------------------

  /** The same history without the locally created checkpoints. */
  function EraseMarks(rs: seq<Record>): seq<Record> {
    if rs == [] then []
    else if rs[0].SnapshotMark? then EraseMarks(rs[1..])
    else [rs[0]] + EraseMarks(rs[1..])
  }

  ghost predicate Ordered(es: seq<Entry>) {
    forall i, j | 0 <= i < j < |es| :: es[i].index <= es[j].index
  }

  /** What every reachable log satisfies: ordered entries past the base (the index counter saturates
      at its maximum, where entries may share the base's index), and a base put there by a mark. */
  ghost predicate Coherent(v: LogView) {
    Ordered(v.entries) &&
    (forall i | 0 <= i < |v.entries| :: v.entries[i].index > v.baseIndex || v.baseIndex == U64_MAX) &&
    (if v.snapshot.Some? then v.snapshot.value.index == v.baseIndex else v.baseIndex == 0)
  }

  lemma {:induction false} BelowSplit(a: seq<Entry>, b: seq<Entry>, from: u64)
    requires forall i | 0 <= i < |a| :: a[i].index < from
    ensures Below(a + b, from) == a + Below(b, from)
  {
    if a == [] {
      assert a + b == b;
    } else {
      BelowSplit(a[1..], b, from);
      assert (a + b)[1..] == a[1..] + b;
    }
  }

  lemma {:induction false} AboveSplit(a: seq<Entry>, b: seq<Entry>, index: u64)
    requires forall i | 0 <= i < |a| :: a[i].index <= index
    requires forall i | 0 <= i < |b| :: b[i].index > index
    ensures Above(a + b, index) == b
  {
    if a == [] {
      assert a + b == b;
      AboveAll(b, index);
    } else {
      AboveSplit(a[1..], b, index);
      assert (a + b)[1..] == a[1..] + b;
    }
  }

  lemma {:induction false} AboveAll(b: seq<Entry>, index: u64)
    requires forall i | 0 <= i < |b| :: b[i].index > index
    ensures Above(b, index) == b
  {
    if b != [] {
      AboveAll(b[1..], index);
    }
  }

  /** Ordered entries keep a prefix below any index. */
  lemma {:induction false} BelowIsPrefix(es: seq<Entry>, from: u64) returns (n: nat)
    requires Ordered(es)
    ensures n <= |es| && Below(es, from) == es[..n]
    ensures forall i | 0 <= i < n :: es[i].index < from
  {
    if es == [] {
      n := 0;
    } else if es[0].index < from {
      n := BelowIsPrefix(es[1..], from);
      assert es[..n + 1] == [es[0]] + es[1..][..n];
      n := n + 1;
    } else {
      NoneBelow(es, from);
      n := 0;
    }
  }

  lemma {:induction false} NoneBelow(es: seq<Entry>, from: u64)
    requires forall i | 0 <= i < |es| :: es[i].index >= from
    ensures Below(es, from) == []
  {
    if es != [] {
      NoneBelow(es[1..], from);
    }
  }

  /** Ordered entries split where the index is passed. */
  lemma {:induction false} SplitAt(es: seq<Entry>, index: u64) returns (n: nat)
    requires Ordered(es)
    ensures n <= |es|
    ensures forall i | 0 <= i < n :: es[i].index <= index
    ensures forall i | n <= i < |es| :: es[i].index > index
    ensures Above(es, index) == es[n..]
  {
    n := 0;
    while n < |es| && es[n].index <= index
      invariant n <= |es| && forall i | 0 <= i < n :: es[i].index <= index
    {
      n := n + 1;
    }
    assert es == es[..n] + es[n..];
    AboveSplit(es[..n], es[n..], index);
  }

  lemma {:induction false} FindTermSkips(a: seq<Entry>, b: seq<Entry>, index: u64)
    requires forall i | 0 <= i < |a| :: a[i].index != index
    ensures FindTerm(a + b, index) == FindTerm(b, index)
  {
    if a == [] {
      assert a + b == b;
    } else {
      FindTermSkips(a[1..], b, index);
      assert (a + b)[1..] == a[1..] + b;
    }
  }

  lemma {:induction false} FindTermStays(a: seq<Entry>, b: seq<Entry>, index: u64)
    requires FindTerm(a, index).Some?
    ensures FindTerm(a + b, index) == FindTerm(a, index)
  {
    if a[0].index != index {
      FindTermStays(a[1..], b, index);
      assert (a + b)[1..] == a[1..] + b;
    }
  }

  lemma {:induction false} FindTermWitness(es: seq<Entry>, index: u64) returns (i: nat)
    requires FindTerm(es, index).Some?
    ensures i < |es| && es[i].index == index
  {
    if es[0].index == index {
      i := 0;
    } else {
      i := FindTermWitness(es[1..], index);
      i := i + 1;
    }
  }

  lemma CoherentMark(v: LogView, mark: Mark)
    requires Coherent(v)
    ensures Coherent(Rebase(v, mark))
  {
    var n := SplitAt(v.entries, mark.index);
    hide Above;
  }

  lemma CoherentTruncate(v: LogView, from: u64)
    requires Coherent(v)
    ensures Coherent(v.(entries := Below(v.entries, from)))
  {
    var n := BelowIsPrefix(v.entries, from);
    hide Below;
  }

  lemma CoherentAppend(v: LogView, entry: Entry)
    requires Coherent(v) && entry.index == SatAdd(LastIndex(v), 1)
    ensures Coherent(v.(entries := v.entries + [entry]))
  {
    var es := v.entries + [entry];
    forall i, j | 0 <= i < j < |es| ensures es[i].index <= es[j].index {
      if j == |v.entries| {
        assert es[i].index <= LastIndex(v);
      }
    }
  }

  lemma CoherentStep(v: LogView, r: Record)
    requires Coherent(v) && Apply(v, r).Some?
    ensures Coherent(Apply(v, r).value)
  {
    match r
    case Append(entry) => CoherentAppend(v, entry);
    case Truncate(from) => CoherentTruncate(v, from);
    case SnapshotMark(mark) => CoherentMark(v, mark);
    case InstalledSnapshotMark(mark) => CoherentMark(v, mark);
    case Hard(_) =>
  }

  /** A position in a log: index and term. */
  datatype Position = Position(index: u64, term: u64)

  /** `ce` is what `fe` holds past position `at`, and `at` is where `fe` says it is, counting from `base`. */
  ghost predicate Covers(fe: seq<Entry>, base: Position, ce: seq<Entry>, at: Position) {
    |ce| <= |fe| && base.index <= at.index &&
    var d := |fe| - |ce|;
    ce == fe[d..] &&
    (forall i | 0 <= i < d :: fe[i].index <= at.index) &&
    (if d == 0 then base == at
     else fe[d - 1].index == at.index && base.index < at.index && FindTerm(fe[..d], at.index) == Some(at.term))
  }

  lemma CoversTruncate(fe: seq<Entry>, base: Position, ce: seq<Entry>, at: Position, from: u64)
    requires Covers(fe, base, ce, at) && from > at.index
    ensures Covers(Below(fe, from), base, Below(ce, from), at)
  {
    var d := |fe| - |ce|;
    assert fe == fe[..d] + ce;
    BelowSplit(fe[..d], ce, from);
    var f := Below(fe, from);
    assert f == fe[..d] + Below(ce, from);
    assert f[..d] == fe[..d] && f[d..] == Below(ce, from);
  }

  lemma CoversAppend(fe: seq<Entry>, base: Position, ce: seq<Entry>, at: Position, entry: Entry)
    requires Covers(fe, base, ce, at)
    ensures Covers(fe + [entry], base, ce + [entry], at)
  {
    var d := |fe| - |ce|;
    var f := fe + [entry];
    assert f[..d] == fe[..d] && f[d..] == ce + [entry];
  }

  /** Where a checkpoint cuts ordered entries: after the last one at its index. */
  lemma MarkPlace(es: seq<Entry>, index: u64) returns (n: nat)
    requires Ordered(es) && FindTerm(es, index).Some?
    ensures 0 < n <= |es| && es[n - 1].index == index && Above(es, index) == es[n..]
    ensures forall i | 0 <= i < n :: es[i].index <= index
    ensures FindTerm(es[..n], index) == FindTerm(es, index)
  {
    n := SplitAt(es, index);
    var k := FindTermWitness(es, index);
    assert k < n;
    assert es[k].index <= es[n - 1].index;
    PrefixFinds(es, n, index, k);
  }

  lemma CoversFrom(a: seq<Entry>, base: Position, ce: seq<Entry>, at: Position)
    requires forall i | 0 <= i < |a| :: a[i].index <= at.index
    requires a != [] && a[|a| - 1].index == at.index && base.index < at.index
    requires FindTerm(a, at.index) == Some(at.term)
    ensures Covers(a + ce, base, ce, at)
  {
    hide FindTerm;
    assert (a + ce)[..|a|] == a && (a + ce)[|a|..] == ce;
  }

  lemma CoversMark(fe: seq<Entry>, base: Position, ce: seq<Entry>, at: Position, mark: Position)
    requires Covers(fe, base, ce, at) && Ordered(ce) && at.index < mark.index
    requires FindTerm(ce, mark.index) == Some(mark.term)
    ensures Covers(fe, base, Above(ce, mark.index), mark)
  {
    hide Covers, FindTerm, Above, Ordered;
    var dropped := CoversDrops(fe, base, ce, at);
    var n := MarkPlace(ce, mark.index);
    var a := dropped + ce[..n];
    assert fe == a + ce[n..] by { assert ce == ce[..n] + ce[n..]; }
    FindTermSkips(dropped, ce[..n], mark.index);
    forall i | 0 <= i < |a| ensures a[i].index <= mark.index {
      if i >= |dropped| { assert a[i] == ce[i - |dropped|]; }
    }
    assert a[|a| - 1] == ce[n - 1];
    CoversFrom(a, base, ce[n..], mark);
  }

  /** What a compacted log has dropped lies at or below where it starts. */
  lemma CoversDrops(fe: seq<Entry>, base: Position, ce: seq<Entry>, at: Position) returns (dropped: seq<Entry>)
    requires Covers(fe, base, ce, at)
    ensures fe == dropped + ce && base.index <= at.index
    ensures forall i | 0 <= i < |dropped| :: dropped[i].index <= at.index
  {
    hide FindTerm;
    dropped := fe[..|fe| - |ce|];
  }

  lemma {:induction false} PrefixFinds(es: seq<Entry>, n: nat, index: u64, k: nat)
    requires k < n <= |es| && es[k].index == index
    ensures FindTerm(es[..n], index) == FindTerm(es, index)
  {
    if es[0].index != index {
      PrefixFinds(es[1..], n - 1, index, k - 1);
      assert es[..n][1..] == es[1..][..n - 1];
    }
  }

  lemma CoversInstalled(fe: seq<Entry>, base: Position, ce: seq<Entry>, at: Position, mark: Position)
    requires Covers(fe, base, ce, at) && Ordered(ce) && at.index <= mark.index
    ensures Covers(Above(fe, mark.index), mark, Above(ce, mark.index), mark)
  {
    var d := |fe| - |ce|;
    var n := SplitAt(ce, mark.index);
    assert fe == (fe[..d] + ce[..n]) + ce[n..];
    AboveSplit(fe[..d] + ce[..n], ce[n..], mark.index);
  }

  function BaseOf(v: LogView): Position {
    Position(v.baseIndex, v.baseTerm)
  }

  /** The compacted log is a view of the full one. */
  ghost predicate Compacts(full: LogView, compact: LogView) {
    Coherent(full) && Coherent(compact) &&
    full.genesis == compact.genesis && full.hard == compact.hard &&
    Covers(full.entries, BaseOf(full), compact.entries, BaseOf(compact))
  }

  lemma CompactsTermAt(full: LogView, compact: LogView, index: u64)
    requires Compacts(full, compact) && index >= compact.baseIndex
    ensures TermAt(full, index) == TermAt(compact, index)
  {
    var d := |full.entries| - |compact.entries|;
    assert full.entries == full.entries[..d] + compact.entries;
    if index == compact.baseIndex {
      if d > 0 {
        FindTermStays(full.entries[..d], compact.entries, index);
      }
    } else {
      FindTermSkips(full.entries[..d], compact.entries, index);
    }
  }

  lemma CompactsLast(full: LogView, compact: LogView)
    requires Compacts(full, compact)
    ensures LastIndex(full) == LastIndex(compact)
  {
  }

  lemma CompactsTruncate(full: LogView, compact: LogView, from: u64)
    requires Compacts(full, compact) && Apply(compact, Truncate(from)).Some?
    ensures Apply(full, Truncate(from)).Some?
    ensures Compacts(Apply(full, Truncate(from)).value, Apply(compact, Truncate(from)).value)
  {
    assert from > full.baseIndex;
    CoversTruncate(full.entries, BaseOf(full), compact.entries, BaseOf(compact), from);
    hide Coherent, Covers, Below;
    CoherentStep(compact, Truncate(from));
    CoherentStep(full, Truncate(from));
  }

  lemma CompactsAppend(full: LogView, compact: LogView, entry: Entry)
    requires Compacts(full, compact) && Apply(compact, Append(entry)).Some?
    ensures Apply(full, Append(entry)).Some?
    ensures Compacts(Apply(full, Append(entry)).value, Apply(compact, Append(entry)).value)
  {
    hide Coherent, Covers, LastIndex;
    CompactsLast(full, compact);
    CoversAppend(full.entries, BaseOf(full), compact.entries, BaseOf(compact), entry);
    CoherentStep(compact, Append(entry));
    CoherentStep(full, Append(entry));
  }

  lemma CompactsLocalMark(full: LogView, compact: LogView, mark: Mark)
    requires Compacts(full, compact) && MarkAccepted(compact, mark, false)
    ensures Compacts(full, Rebase(compact, mark))
  {
    assert mark.index > compact.baseIndex && Ordered(compact.entries);
    hide Coherent, Covers, Ordered;
    CoversMark(full.entries, BaseOf(full), compact.entries, BaseOf(compact), Position(mark.index, mark.term));
    CoherentStep(compact, SnapshotMark(mark));
  }

  lemma CompactsInstalledMark(full: LogView, compact: LogView, mark: Mark)
    requires Compacts(full, compact) && MarkAccepted(compact, mark, true)
    ensures MarkAccepted(full, mark, true)
    ensures Compacts(Rebase(full, mark), Rebase(compact, mark))
  {
    CompactsTermAt(full, compact, mark.index);
    assert MarkAccepted(full, mark, true);
    assert Ordered(compact.entries);
    hide Coherent, Covers, Ordered;
    CoversInstalled(full.entries, BaseOf(full), compact.entries, BaseOf(compact), Position(mark.index, mark.term));
    CoherentStep(compact, InstalledSnapshotMark(mark));
    CoherentStep(full, InstalledSnapshotMark(mark));
  }

  lemma CompactsStep(full: LogView, compact: LogView, r: Record)
    requires Compacts(full, compact) && Apply(compact, r).Some?
    ensures r.SnapshotMark? ==> Compacts(full, Apply(compact, r).value)
    ensures !r.SnapshotMark? ==> Apply(full, r).Some? && Compacts(Apply(full, r).value, Apply(compact, r).value)
  {
    match r
    case Append(entry) => CompactsAppend(full, compact, entry);
    case Truncate(from) => CompactsTruncate(full, compact, from);
    case SnapshotMark(mark) => CompactsLocalMark(full, compact, mark);
    case InstalledSnapshotMark(mark) => CompactsInstalledMark(full, compact, mark);
    case Hard(_) =>
  }

  lemma {:induction false} CompactsRun(full: LogView, compact: LogView, rs: seq<Record>)
    requires Compacts(full, compact) && Run(compact, rs).Some?
    ensures Run(full, EraseMarks(rs)).Some?
    ensures Compacts(Run(full, EraseMarks(rs)).value, Run(compact, rs).value)
    decreases |rs|
  {
    hide Compacts, Apply;
    if rs != [] {
      CompactsStep(full, compact, rs[0]);
      if rs[0].SnapshotMark? {
        CompactsRun(full, Apply(compact, rs[0]).value, rs[1..]);
      } else {
        CompactsRun(Apply(full, rs[0]).value, Apply(compact, rs[0]).value, rs[1..]);
        assert EraseMarks(rs)[1..] == EraseMarks(rs[1..]);
      }
    }
  }

  /** Log compaction is invisible: dropping the local checkpoints from an accepted history gives an
      accepted history with the same vote, the same last position and the same term at every index
      from the base on, of which the compacted log retains exactly the entries past the base. */
  lemma CompactionInvisible(g: Genesis, rs: seq<Record>)
    requires Run(Fresh(g), rs).Some?
    ensures Run(Fresh(g), EraseMarks(rs)).Some?
    ensures var compact, full := Run(Fresh(g), rs).value, Run(Fresh(g), EraseMarks(rs)).value;
            full.hard == compact.hard && LastIndex(full) == LastIndex(compact) &&
            (forall i: u64 | i >= compact.baseIndex :: TermAt(full, i) == TermAt(compact, i)) &&
            |compact.entries| <= |full.entries| &&
            (var d := |full.entries| - |compact.entries|;
             compact.entries == full.entries[d..] &&
             (forall i | 0 <= i < d :: full.entries[i].index <= compact.baseIndex) &&
             forall i | d <= i < |full.entries| ::
               full.entries[i].index > compact.baseIndex || compact.baseIndex == U64_MAX)
  {
    CompactsRun(Fresh(g), Fresh(g), rs);
    var compact, full := Run(Fresh(g), rs).value, Run(Fresh(g), EraseMarks(rs)).value;
    forall i: u64 | i >= compact.baseIndex ensures TermAt(full, i) == TermAt(compact, i) {
      CompactsTermAt(full, compact, i);
    }
    CompactsLast(full, compact);
  }
}
