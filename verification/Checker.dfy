/** The checker's entry points: the search as the code runs it, the per-key partition,
    and what each verdict means for the history. */
module Checker {
  import opened Prelude
  import opened Ordering
  import opened History
  import opened Search
  import opened Locality

  datatype Verdict =
    | Accepted(visited: nat)
    | Rejected(ids: seq<u64>, visited: nat)
    | Unknown(visited: nat)

  function Ids(h: seq<Operation>): (ids: seq<u64>)
    ensures |ids| == |h| && forall i | 0 <= i < |h| :: ids[i] == h[i].id
  {
    seq(|h|, i requires 0 <= i < |h| => h[i].id)
  }

  function All(n: nat): (rem: seq<nat>)
    ensures |rem| == n && forall i | 0 <= i < n :: rem[i] == i
  {
    seq(n, i => i)
  }

  /** One unpartitioned search over the whole history. */
  function SingleVerdict(h: seq<Operation>, m: Model, max: nat): Verdict {
    if h == [] then Accepted(0)
    else
      var a := Explore(h, All(|h|), m, max, Progress(0, {}));
      match a.result
      case Found => Accepted(a.progress.visited)
      case Undecided => Unknown(a.progress.visited)
      case NotFound => Rejected(Ids(h), a.progress.visited)
  }

  /** The keys in turn, stopping at the first one rejected. */
  function KeywiseVerdict(h: seq<Operation>, m: Model, keys: seq<Bytes>, max: nat, visited: nat, undecided: bool): Verdict
    decreases |keys|
  {
    if keys == [] then (if undecided then Unknown(visited) else Accepted(visited))
    else
      match SingleVerdict(KeyOps(h, keys[0]), Cut(m, keys[0]), max)
      case Accepted(n) => KeywiseVerdict(h, m, keys[1..], max, visited + n, undecided)
      case Unknown(n) => KeywiseVerdict(h, m, keys[1..], max, visited + n, true)
      case Rejected(ids, n) => Rejected(ids, visited + n)
  }

  /** The raw verdict: strong operations only, split by key when no operation spans keys. */
  function RawVerdict(h: seq<Operation>, m: Model, max: nat): Verdict {
    var s := StrongPart(h);
    if !OnlySingleKey(s) || |Keys(s)| <= 1 then SingleVerdict(s, m, max)
    else KeywiseVerdict(s, m, SortedBy(Keys(s), ByteRank), max, 0, false)
  }

  // ------------------------------------------------------------------
  // The search as an imperative procedure
  // ------------------------------------------------------------------

  /** The recursive search: `visited`, `memo` and `path` are threaded through every call.
      A successful search leaves the ids of a linearization appended to the path. */
  method SearchNode(h: seq<Operation>, remaining: seq<nat>, m: Model, max: nat,
                    visited: nat, memo: set<MemoKey>, path: seq<u64>)
      returns (result: Result, visited': nat, memo': set<MemoKey>, path': seq<u64>)
    requires Within(h, remaining)
    ensures Reports(Explore(h, remaining, m, max, Progress(visited, memo)), path, result, visited', memo', path')
    decreases |remaining|, 1
  {
    hide Eligible, ApplyObserved, ApplyUnobserved, ExploreChoice, TryAt;
    visited', memo', path' := visited, memo, path;
    if remaining == [] {
      return Found, visited', memo', path' + [];
    }
    visited' := visited' + 1;
    if visited' > max {
      return Undecided, visited', memo', path';
    }
    var memoKey := MemoKey(remaining, m);
    if memoKey in memo' {
      return NotFound, visited', memo', path';
    }
    memo' := memo' + {memoKey};
    var sawUndecided := false;
    ghost var goal := Explore(h, remaining, m, max, Progress(visited, memo));
    for position := 0 to |remaining|
      invariant path' == path
      invariant TryFrom(h, remaining, position, m, max, Progress(visited', memo'), sawUndecided) == goal
    {
      result, visited', memo', path' := TryCandidate(h, remaining, position, m, max, visited', memo', path');
      if result.Found? {
        return;
      }
      sawUndecided := sawUndecided || result.Undecided?;
    }
    result := if sawUndecided then Undecided else NotFound;
  }

  /** The loop body of one node: a single candidate position. */
  method TryCandidate(h: seq<Operation>, remaining: seq<nat>, position: nat, m: Model, max: nat,
                      visited: nat, memo: set<MemoKey>, path: seq<u64>)
      returns (result: Result, visited': nat, memo': set<MemoKey>, path': seq<u64>)
    requires Within(h, remaining) && position < |remaining|
    ensures Reports(TryAt(h, remaining, position, m, max, Progress(visited, memo)), path, result, visited', memo', path')
    decreases |remaining|, 0
  {
    hide Eligible, ApplyObserved, ApplyUnobserved;
    result, visited', memo', path' := NotFound, visited, memo, path;
    var operation := h[remaining[position]];
    if !Eligible(h, remaining, remaining[position]) {
      return;
    }
    var next := Without(remaining, position);
    path' := path' + [operation.id];
    var sawUndecided := false;
    if operation.outcome.Timeout? {
      result, visited', memo', path' := SearchNode(h, next, m, max, visited', memo', path');
      if result.Found? {
        AppendIds(path, Choice(operation, false), Explore(h, next, m, max, Progress(visited, memo)).order);
        return;
      }
      sawUndecided := result.Undecided?;
      result := NotFound;
    }
    var nextModel := if operation.outcome.Timeout? then ApplyUnobserved(m, operation) else ApplyObserved(m, operation);
    if nextModel.Some? {
      ghost var before := Progress(visited', memo');
      result, visited', memo', path' := SearchNode(h, next, nextModel.value, max, visited', memo', path');
      if result.Found? {
        AppendIds(path, Choice(operation, true), Explore(h, next, nextModel.value, max, before).order);
        return;
      }
    }
    path' := path'[..|path'| - 1];
    assert path' == path;
    result := if sawUndecided then Undecided else result;
  }

  /** A procedure reported exactly what the search answers. */
  ghost predicate Reports(a: Answer, path: seq<u64>, result: Result, visited: nat, memo: set<MemoKey>, path': seq<u64>) {
    result == a.result && visited == a.progress.visited && memo == a.progress.memo &&
    path' == if a.result.Found? then path + Ids(OpsOf(a.order)) else path
  }

  lemma AppendIds(path: seq<u64>, c: Choice, rest: seq<Choice>)
    ensures path + [c.op.id] + Ids(OpsOf(rest)) == path + Ids(OpsOf([c] + rest))
  {
    assert Ids(OpsOf([c] + rest)) == [c.op.id] + Ids(OpsOf(rest));
  }

  method CheckSingle(h: seq<Operation>, m: Model, max: nat) returns (v: Verdict)
    ensures v == SingleVerdict(h, m, max)
  {
    if h == [] {
      return Accepted(0);
    }
    var result, visited, memo, path := SearchNode(h, All(|h|), m, max, 0, {}, []);
    match result
    case Found => v := Accepted(visited);
    case Undecided => v := Unknown(visited);
    case NotFound => v := Rejected(Ids(h), visited);
  }

  method CheckKeys(h: seq<Operation>, m: Model, keys: seq<Bytes>, max: nat) returns (v: Verdict)
    ensures v == KeywiseVerdict(h, m, keys, max, 0, false)
  {
    hide SingleVerdict, KeyOps, Cut;
    var visited, undecided := 0, false;
    for i := 0 to |keys|
      invariant KeywiseVerdict(h, m, keys, max, 0, false) == KeywiseVerdict(h, m, keys[i..], max, visited, undecided)
    {
      var one := CheckSingle(KeyOps(h, keys[i]), Cut(m, keys[i]), max);
      assert keys[i..][0] == keys[i] && keys[i..][1..] == keys[i + 1..];
      match one
      case Accepted(n) => visited := visited + n;
      case Unknown(n) => visited, undecided := visited + n, true;
      case Rejected(ids, n) => return Rejected(ids, visited + n);
    }
    v := if undecided then Unknown(visited) else Accepted(visited);
  }

  method CheckRaw(h: seq<Operation>, m: Model, max: nat) returns (v: Verdict)
    ensures v == RawVerdict(h, m, max)
  {
    var s := StrongPart(h);
    if !OnlySingleKey(s) || |Keys(s)| <= 1 {
      v := CheckSingle(s, m, max);
    } else {
      v := CheckKeys(s, m, SortedBy(Keys(s), ByteRank), max);
    }
  }

  // ------------------------------------------------------------------
  // What the verdicts mean
  // ------------------------------------------------------------------

  /** Exactness of the unpartitioned search. */
  lemma SingleVerdictExact(h: seq<Operation>, m: Model, max: nat)
    ensures var v := SingleVerdict(h, m, max);
            (v.Accepted? ==> Linearizable(h, m)) &&
            (v.Rejected? ==> !Linearizable(h, m)) &&
            (v.Unknown? ==> v.visited > max)
  {
    var rem := All(|h|);
    assert OpsAt(h, rem) == h;
    if h == [] {
      assert OpsOf([]) == [];
      assert Linearizes(h, m, []);
    } else {
      ExploreSound(h, rem, m, max, Progress(0, {}));
      ExploreComplete(h, rem, m, max, Progress(0, {}));
    }
  }

  lemma {:induction false} KeywiseVerdictExact(h: seq<Operation>, m: Model, keys: seq<Bytes>, max: nat, visited: nat, undecided: bool)
    requires undecided ==> visited > max
    ensures var v := KeywiseVerdict(h, m, keys, max, visited, undecided);
            (v.Accepted? ==> forall k | k in keys :: KeyLinearizable(h, m, k)) &&
            (v.Rejected? ==> exists k :: k in keys && !KeyLinearizable(h, m, k)) &&
            (v.Unknown? ==> v.visited > max) &&
            (undecided ==> !v.Accepted?)
    decreases |keys|
  {
    hide SingleVerdict, Linearizable, KeyOps, Cut;
    if keys != [] {
      var k := keys[0];
      SingleVerdictExact(KeyOps(h, k), Cut(m, k), max);
      var one := SingleVerdict(KeyOps(h, k), Cut(m, k), max);
      if one.Rejected? {
        assert k in keys && !KeyLinearizable(h, m, k);
      } else {
        KeywiseVerdictExact(h, m, keys[1..], max, visited + one.visited, undecided || one.Unknown?);
        assert keys == [k] + keys[1..];
        assert one.Accepted? ==> KeyLinearizable(h, m, k);
      }
    }
  }

  /** Exactness of the whole check, partitioned or not.  A rejection is always right; an
      acceptance is right because the strong operations end no earlier than they begin. */
  lemma RawVerdictExact(h: seq<Operation>, m: Model, max: nat)
    ensures var v, s := RawVerdict(h, m, max), StrongPart(h);
            (v.Rejected? ==> !Linearizable(s, m)) &&
            (v.Accepted? && WellTimed(s) ==> Linearizable(s, m)) &&
            (v.Unknown? ==> v.visited > max)
  {
    var s := StrongPart(h);
    if !OnlySingleKey(s) || |Keys(s)| <= 1 {
      SingleVerdictExact(s, m, max);
    } else {
      var keys := SortedBy(Keys(s), ByteRank);
      KeywiseVerdictExact(s, m, keys, max, 0, false);
      var v := KeywiseVerdict(s, m, keys, max, 0, false);
      if v.Rejected? {
        var k :| k in keys && !KeyLinearizable(s, m, k);
        if Linearizable(s, m) {
          WholeImpliesKey(s, m, k);
        }
      }
      if v.Accepted? && WellTimed(s) {
        WholeIffEachKey(s, m);
      }
    }
  }

  /** Two reads that each claim to have completed before the other began, on different keys. */
  function InvertedPair(): seq<Operation> {
    var a := Operation(1, 0, 1, 10, Some(0), Get([1]), Value(None), None, Strong, NoProbe);
    [a, a.(id := 2, kind := Get([2]))]
  }

  /** Without that premise the partition can accept what no order explains. */
  lemma PartitionNeedsWellTimed()
    ensures RawVerdict(InvertedPair(), map[], 10).Accepted?
    ensures !Linearizable(StrongPart(InvertedPair()), map[])
  {
    hide SingleVerdict, KeyOps, Cut, Linearizable, KeywiseVerdict, SortedBy;
    var h := InvertedPair();
    InvertedPairIsStrong();
    InvertedPairHasNoOrder();
    InvertedPairKeys();
    var keys := SortedBy(Keys(h), ByteRank);
    forall k | k in keys ensures SingleVerdict(KeyOps(h, k), Cut(map[], k), 10) == Accepted(1) {
      InvertedPairKey(k);
    }
    AllAccepted(h, map[], keys, 0);
  }

  lemma InvertedPairIsStrong()
    ensures StrongPart(InvertedPair()) == InvertedPair() && OnlySingleKey(InvertedPair())
  {
    var h := InvertedPair();
    assert h[1..] == [h[1]] && h[1..][1..] == [];
  }

  lemma InvertedPairKeys()
    ensures Keys(InvertedPair()) == {[1], [2]} && |Keys(InvertedPair())| == 2
  {
    var h := InvertedPair();
    assert OpKey(h[0]) == [1] && OpKey(h[1]) == [2];
    assert |{[1], [2]}| == 2 by { assert [1] != [2]; }
  }

  lemma InvertedPairKey(k: Bytes)
    requires k in {[1], [2]}
    ensures SingleVerdict(KeyOps(InvertedPair(), k), Cut(map[], k), 10) == Accepted(1)
  {
    hide SingleVerdict;
    var h := InvertedPair();
    var x := if k == [1] then h[0] else h[1];
    assert KeyOps(h, k) == [x] by {
      assert h[1..] == [h[1]] && h[1..][1..] == [];
      assert OpKey(h[0]) == [1] && OpKey(h[1]) == [2];
    }
    LoneRead(x);
  }

  lemma InvertedPairHasNoOrder()
    ensures !Linearizable(InvertedPair(), map[])
  {
    var h := InvertedPair();
    forall order: seq<Choice> ensures !Linearizes(h, map[], order) {
      if multiset(OpsOf(order)) == multiset(h) {
        assert |OpsOf(order)| == 2 by { assert |multiset(OpsOf(order))| == 2; }
        assert OpsOf(order)[0] in multiset(h) && OpsOf(order)[1] in multiset(h);
        assert HappensBefore(order[1].op, order[0].op);
      }
    }
  }

  lemma LoneRead(x: Operation)
    requires x.kind.Get? && x.outcome == Value(None)
    ensures SingleVerdict([x], map[], 10) == Accepted(1)
  {
    var h := [x];
    var s := Progress(1, {MemoKey(All(1), map[])});
    assert Explore(h, All(1), map[], 10, Progress(0, {})) == TryFrom(h, All(1), 0, map[], 10, s, false);
    assert Without(All(1), 0) == [];
    assert TryAt(h, All(1), 0, map[], 10, s).result.Found?;
  }

  lemma {:induction false} AllAccepted(h: seq<Operation>, m: Model, keys: seq<Bytes>, visited: nat)
    requires forall k | k in keys :: SingleVerdict(KeyOps(h, k), Cut(m, k), 10) == Accepted(1)
    ensures KeywiseVerdict(h, m, keys, 10, visited, false).Accepted?
    decreases |keys|
  {
    if keys != [] {
      AllAccepted(h, m, keys[1..], visited + 1);
    }
  }
}
