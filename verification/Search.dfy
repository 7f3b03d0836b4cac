/** The memoised, budgeted search for a linearization, and why it is exact. */
module Search {
  import opened Prelude
  import opened History

  datatype Result = Found | NotFound | Undecided

  /** The memo remembers a search node by what is left to place and the model reached. */
  datatype MemoKey = MemoKey(remaining: seq<nat>, state: Model)

  datatype Progress = Progress(visited: nat, memo: set<MemoKey>)

  /** `order` is the linearization found, empty otherwise. */
  datatype Answer = Answer(result: Result, progress: Progress, order: seq<Choice>)

  predicate Within(h: seq<Operation>, rem: seq<nat>) {
    forall p | 0 <= p < |rem| :: rem[p] < |h|
  }

  predicate Distinct(rem: seq<nat>) {
    forall p, q | 0 <= p < q < |rem| :: rem[p] != rem[q]
  }

  function OpsAt(h: seq<Operation>, rem: seq<nat>): (ops: seq<Operation>)
    requires Within(h, rem)
    ensures |ops| == |rem|
    ensures forall p | 0 <= p < |rem| :: ops[p] == h[rem[p]]
  {
    seq(|rem|, p requires 0 <= p < |rem| => h[rem[p]])
  }

  /** An operation may come next when nothing still to be placed completed before it began. */
  predicate Eligible(h: seq<Operation>, rem: seq<nat>, index: nat)
    requires index < |h|
  {
    forall other | 0 <= other < |h| && other != index ::
      HappensBefore(h[other], h[index]) ==> other !in rem
  }

  function Without<T>(s: seq<T>, p: nat): (r: seq<T>)
    requires p < |s|
    ensures |r| == |s| - 1
  {
    s[..p] + s[p + 1..]
  }

  /** One search node. */
  function Explore(h: seq<Operation>, rem: seq<nat>, m: Model, max: nat, s: Progress): Answer
    requires Within(h, rem)
    decreases |rem|, |rem| + 3
  {
    if rem == [] then Answer(Found, s, [])
    else
      var s1 := s.(visited := s.visited + 1);
      if s1.visited > max then Answer(Undecided, s1, [])
      else if MemoKey(rem, m) in s1.memo then Answer(NotFound, s1, [])
      else TryFrom(h, rem, 0, m, max, s1.(memo := s1.memo + {MemoKey(rem, m)}), false)
  }

  /** The candidates of one node from position `p` on. */
  function TryFrom(h: seq<Operation>, rem: seq<nat>, p: nat, m: Model, max: nat, s: Progress, undecided: bool): Answer
    requires Within(h, rem) && p <= |rem|
    decreases |rem|, |rem| - p + 2
  {
    if p == |rem| then Answer(if undecided then Undecided else NotFound, s, [])
    else
      var a := TryAt(h, rem, p, m, max, s);
      if a.result.Found? then a
      else TryFrom(h, rem, p + 1, m, max, a.progress, undecided || a.result.Undecided?)
  }

  /** One candidate: an unanswered operation is tried dropped, then applied; an answered
      one is tried with the answer it got. */
  function TryAt(h: seq<Operation>, rem: seq<nat>, p: nat, m: Model, max: nat, s: Progress): Answer
    requires Within(h, rem) && p < |rem|
    decreases |rem|, 1
  {
    var op := h[rem[p]];
    if !Eligible(h, rem, rem[p]) then Answer(NotFound, s, [])
    else if !op.outcome.Timeout? then
      ExploreChoice(h, rem, p, ApplyObserved(m, op), Choice(op, true), max, s)
    else
      var a := ExploreChoice(h, rem, p, Some(m), Choice(op, false), max, s);
      if a.result.Found? then a
      else
        var b := ExploreChoice(h, rem, p, ApplyUnobserved(m, op), Choice(op, true), max, a.progress);
        if a.result.Undecided? && b.result.NotFound? then b.(result := Undecided) else b
  }

  /** Descend through one choice when the model allows it. */
  function ExploreChoice(h: seq<Operation>, rem: seq<nat>, p: nat, next: Option<Model>, c: Choice, max: nat, s: Progress): Answer
    requires Within(h, rem) && p < |rem|
    decreases |rem|, 0
  {
    if next.None? then Answer(NotFound, s, [])
    else
      var a := Explore(h, Without(rem, p), next.value, max, s);
      if a.result.Found? then a.(order := [c] + a.order) else a
  }

  // ------------------------------------------------------------------
  // Soundness: a found order is a linearization
  // ------------------------------------------------------------------

  lemma WithoutMultiset<T>(s: seq<T>, p: nat)
    requires p < |s|
    ensures multiset(s) == multiset(Without(s, p)) + multiset{s[p]}
  {
    assert s == s[..p] + [s[p]] + s[p + 1..];
  }

  lemma OpsAtWithout(h: seq<Operation>, rem: seq<nat>, p: nat)
    requires Within(h, rem) && p < |rem|
    ensures OpsAt(h, Without(rem, p)) == Without(OpsAt(h, rem), p)
  {
  }

  lemma SplitFirst(order: seq<Choice>)
    requires order != []
    ensures OpsOf(order) == [order[0].op] + OpsOf(order[1..])
    ensures multiset(OpsOf(order)) == multiset{order[0].op} + multiset(OpsOf(order[1..]))
  {
  }

  lemma OpsWithout(h: seq<Operation>, rem: seq<nat>, p: nat)
    requires Within(h, rem) && p < |rem|
    ensures multiset(OpsAt(h, rem)) == multiset{h[rem[p]]} + multiset(OpsAt(h, Without(rem, p)))
  {
    OpsAtWithout(h, rem, p);
    WithoutMultiset(OpsAt(h, rem), p);
  }

  lemma EligibleComesFirst(h: seq<Operation>, rem: seq<nat>, p: nat, c: Choice, rest: seq<Choice>)
    requires Within(h, rem) && Distinct(rem) && p < |rem|
    requires Eligible(h, rem, rem[p]) && c.op == h[rem[p]]
    requires multiset(OpsOf(rest)) == multiset(OpsAt(h, Without(rem, p))) && RespectsRealTime(rest)
    ensures RespectsRealTime([c] + rest)
  {
    forall j | 0 <= j < |rest| ensures !HappensBefore(rest[j].op, c.op) {
      assert OpsOf(rest)[j] in multiset(OpsAt(h, Without(rem, p)));
      var q :| 0 <= q < |rem| - 1 && OpsAt(h, Without(rem, p))[q] == rest[j].op;
      var other := Without(rem, p)[q];
      assert other in rem && other != rem[p];
    }
  }

  /** Putting an eligible choice in front of a linearization of the rest. */
  lemma PrependEligible(h: seq<Operation>, rem: seq<nat>, p: nat, m: Model, c: Choice, rest: seq<Choice>)
    requires Within(h, rem) && Distinct(rem) && p < |rem|
    requires Eligible(h, rem, rem[p]) && c.op == h[rem[p]]
    requires Step(m, c).Some?
    requires Linearizes(OpsAt(h, Without(rem, p)), Step(m, c).value, rest)
    ensures Linearizes(OpsAt(h, rem), m, [c] + rest)
  {
    OpsWithout(h, rem, p);
    SplitFirst([c] + rest);
    assert ([c] + rest)[1..] == rest;
    EligibleComesFirst(h, rem, p, c, rest);
  }

  lemma {:induction false} ExploreSound(h: seq<Operation>, rem: seq<nat>, m: Model, max: nat, s: Progress)
    requires Within(h, rem) && Distinct(rem)
    ensures var a := Explore(h, rem, m, max, s);
            a.result.Found? ==> Linearizes(OpsAt(h, rem), m, a.order)
    decreases |rem|, |rem| + 3
  {
    if rem == [] {
      assert OpsOf([]) == [];
    } else {
      var s1 := s.(visited := s.visited + 1);
      if s1.visited <= max && MemoKey(rem, m) !in s1.memo {
        TryFromSound(h, rem, 0, m, max, s1.(memo := s1.memo + {MemoKey(rem, m)}), false);
      }
    }
  }

  lemma {:induction false} TryFromSound(h: seq<Operation>, rem: seq<nat>, p: nat, m: Model, max: nat, s: Progress, undecided: bool)
    requires Within(h, rem) && Distinct(rem) && p <= |rem|
    ensures var a := TryFrom(h, rem, p, m, max, s, undecided);
            a.result.Found? ==> Linearizes(OpsAt(h, rem), m, a.order)
    decreases |rem|, |rem| - p + 2
  {
    if p < |rem| {
      TryAtSound(h, rem, p, m, max, s);
      var a := TryAt(h, rem, p, m, max, s);
      TryFromSound(h, rem, p + 1, m, max, a.progress, undecided || a.result.Undecided?);
    }
  }

  lemma {:induction false} TryAtSound(h: seq<Operation>, rem: seq<nat>, p: nat, m: Model, max: nat, s: Progress)
    requires Within(h, rem) && Distinct(rem) && p < |rem|
    ensures var a := TryAt(h, rem, p, m, max, s);
            a.result.Found? ==> Linearizes(OpsAt(h, rem), m, a.order)
    decreases |rem|, 1
  {
    var op := h[rem[p]];
    if Eligible(h, rem, rem[p]) {
      if op.outcome.Timeout? {
        var a := ExploreChoice(h, rem, p, Some(m), Choice(op, false), max, s);
        ChoiceSound(h, rem, p, m, Choice(op, false), max, s);
        ChoiceSound(h, rem, p, m, Choice(op, true), max, a.progress);
      } else {
        ChoiceSound(h, rem, p, m, Choice(op, true), max, s);
      }
    }
  }

  lemma {:induction false} ChoiceSound(h: seq<Operation>, rem: seq<nat>, p: nat, m: Model, c: Choice, max: nat, s: Progress)
    requires Within(h, rem) && Distinct(rem) && p < |rem|
    requires Eligible(h, rem, rem[p]) && c.op == h[rem[p]]
    ensures var a := ExploreChoice(h, rem, p, Step(m, c), c, max, s);
            a.result.Found? ==> Linearizes(OpsAt(h, rem), m, a.order)
    decreases |rem|, 0
  {
    if Step(m, c).Some? {
      ExploreSound(h, Without(rem, p), Step(m, c).value, max, s);
      var a := Explore(h, Without(rem, p), Step(m, c).value, max, s);
      if a.result.Found? {
        PrependEligible(h, rem, p, m, c, a.order);
      }
    }
  }

  // ------------------------------------------------------------------
  // Completeness: a refusal means there is no linearization
  // ------------------------------------------------------------------

  /** No linearization of what remains exists from this model. */
  ghost predicate Refuted(h: seq<Operation>, rem: seq<nat>, m: Model)
    requires Within(h, rem)
  {
    !Linearizable(OpsAt(h, rem), m)
  }

  /** Every memo entry no longer than `n` is a refuted node.  Longer entries are the
      nodes on the stack, which no descendant can meet again. */
  ghost predicate MemoSound(h: seq<Operation>, memo: set<MemoKey>, n: nat) {
    forall k | k in memo && |k.remaining| <= n :: Within(h, k.remaining) && Refuted(h, k.remaining, k.state)
  }

  /** What a node leaves behind, whatever it answered. */
  ghost predicate Leaves(h: seq<Operation>, n: nat, max: nat, s: Progress, a: Answer) {
    s.visited <= a.progress.visited && s.memo <= a.progress.memo &&
    (forall k | k in a.progress.memo - s.memo :: |k.remaining| <= n) &&
    (a.result.Undecided? ==> a.progress.visited > max) &&
    (a.result.NotFound? ==> a.progress.visited <= max && MemoSound(h, a.progress.memo, n))
  }

  /** No linearization starts with the operation at position `p`. */
  ghost predicate CannotStart(h: seq<Operation>, rem: seq<nat>, p: nat, m: Model)
    requires Within(h, rem) && p < |rem|
  {
    forall order: seq<Choice> | Linearizes(OpsAt(h, rem), m, order) && order != [] :: order[0].op != h[rem[p]]
  }

  lemma TailLinearizes(h: seq<Operation>, rem: seq<nat>, p: nat, m: Model, order: seq<Choice>)
    requires Within(h, rem) && p < |rem|
    requires Linearizes(OpsAt(h, rem), m, order) && order != [] && order[0].op == h[rem[p]]
    ensures Step(m, order[0]).Some?
    ensures Linearizes(OpsAt(h, Without(rem, p)), Step(m, order[0]).value, order[1..])
  {
    OpsWithout(h, rem, p);
    SplitFirst(order);
    var rest := multiset(OpsOf(order[1..]));
    assert rest == (multiset{order[0].op} + rest) - multiset{order[0].op};
  }

  lemma FirstIsEligible(h: seq<Operation>, rem: seq<nat>, p: nat, m: Model, order: seq<Choice>)
    requires Within(h, rem) && p < |rem|
    requires Linearizes(OpsAt(h, rem), m, order) && order != [] && order[0].op == h[rem[p]]
    ensures Eligible(h, rem, rem[p])
  {
    TailLinearizes(h, rem, p, m, order);
    forall other | 0 <= other < |h| && other != rem[p] && other in rem
      ensures !HappensBefore(h[other], h[rem[p]])
    {
      var q :| 0 <= q < |rem| && rem[q] == other;
      assert OpsAt(h, Without(rem, p))[if q < p then q else q - 1] == h[other];
      assert h[other] in multiset(OpsOf(order[1..]));
      var j :| 0 <= j < |order| - 1 && OpsOf(order[1..])[j] == h[other];
      assert order[j + 1].op == h[other];
    }
  }

  lemma IneligibleCannotStart(h: seq<Operation>, rem: seq<nat>, p: nat, m: Model)
    requires Within(h, rem) && p < |rem| && !Eligible(h, rem, rem[p])
    ensures CannotStart(h, rem, p, m)
  {
    forall order: seq<Choice> | Linearizes(OpsAt(h, rem), m, order) && order != []
      ensures order[0].op != h[rem[p]]
    {
      if order[0].op == h[rem[p]] {
        FirstIsEligible(h, rem, p, m, order);
      }
    }
  }

  /** Both readings of an unanswered operation, or the one reading of an answered one, refuted. */
  lemma ChoicesCannotStart(h: seq<Operation>, rem: seq<nat>, p: nat, m: Model)
    requires Within(h, rem) && p < |rem|
    requires forall applied | Step(m, Choice(h[rem[p]], applied)).Some? ::
               Refuted(h, Without(rem, p), Step(m, Choice(h[rem[p]], applied)).value)
    ensures CannotStart(h, rem, p, m)
  {
    forall order: seq<Choice> | Linearizes(OpsAt(h, rem), m, order) && order != []
      ensures order[0].op != h[rem[p]]
    {
      if order[0] == Choice(h[rem[p]], order[0].applied) {
        TailLinearizes(h, rem, p, m, order);
      }
    }
  }

  lemma NothingStarts(h: seq<Operation>, rem: seq<nat>, m: Model)
    requires Within(h, rem) && rem != []
    requires forall p | 0 <= p < |rem| :: CannotStart(h, rem, p, m)
    ensures Refuted(h, rem, m)
  {
    forall order: seq<Choice> ensures !Linearizes(OpsAt(h, rem), m, order) {
      if multiset(OpsOf(order)) == multiset(OpsAt(h, rem)) {
        assert |multiset(OpsOf(order))| == |OpsAt(h, rem)|;
        assert OpsOf(order)[0] in multiset(OpsAt(h, rem));
        var p :| 0 <= p < |rem| && OpsAt(h, rem)[p] == order[0].op;
        assert CannotStart(h, rem, p, m);
      }
    }
  }

  lemma {:induction false} ExploreComplete(h: seq<Operation>, rem: seq<nat>, m: Model, max: nat, s: Progress)
    requires Within(h, rem) && Distinct(rem)
    requires s.visited <= max ==> MemoSound(h, s.memo, |rem|)
    ensures var a := Explore(h, rem, m, max, s);
            Leaves(h, |rem|, max, s, a) && (a.result.NotFound? ==> Refuted(h, rem, m))
    decreases |rem|, |rem| + 3
  {
    if rem != [] {
      var s1 := s.(visited := s.visited + 1);
      if s1.visited <= max && MemoKey(rem, m) !in s1.memo {
        TryFromComplete(h, rem, 0, m, max, s1.(memo := s1.memo + {MemoKey(rem, m)}), false);
      }
    }
  }

  lemma {:induction false} TryFromComplete(h: seq<Operation>, rem: seq<nat>, p: nat, m: Model, max: nat, s: Progress, undecided: bool)
    requires Within(h, rem) && Distinct(rem) && p <= |rem| && rem != []
    requires MemoKey(rem, m) in s.memo
    requires if undecided then s.visited > max else
               s.visited <= max && MemoSound(h, s.memo - {MemoKey(rem, m)}, |rem|) &&
               forall q | 0 <= q < p :: CannotStart(h, rem, q, m)
    ensures var a := TryFrom(h, rem, p, m, max, s, undecided);
            Leaves(h, |rem|, max, s, a) && (a.result.NotFound? ==> Refuted(h, rem, m))
    decreases |rem|, |rem| - p + 2
  {
    if p == |rem| {
      if !undecided {
        NothingStarts(h, rem, m);
      }
    } else {
      TryAtComplete(h, rem, p, m, max, s);
      var a := TryAt(h, rem, p, m, max, s);
      if !a.result.Found? {
        TryFromComplete(h, rem, p + 1, m, max, a.progress, undecided || a.result.Undecided?);
      }
    }
  }

  /** What trying one candidate leaves behind: as `Leaves`, but the node's own memo
      entry is still open, and a budget already spent stays spent. */
  ghost predicate LeavesOpen(h: seq<Operation>, rem: seq<nat>, m: Model, max: nat, s: Progress, a: Answer) {
    s.visited <= a.progress.visited && s.memo <= a.progress.memo &&
    (forall k | k in a.progress.memo - s.memo :: |k.remaining| < |rem|) &&
    (a.result.Undecided? ==> a.progress.visited > max) &&
    (a.result.NotFound? && s.visited <= max ==>
       a.progress.visited <= max && MemoSound(h, a.progress.memo - {MemoKey(rem, m)}, |rem|))
  }

  lemma {:induction false} TryAtComplete(h: seq<Operation>, rem: seq<nat>, p: nat, m: Model, max: nat, s: Progress)
    requires Within(h, rem) && Distinct(rem) && p < |rem|
    requires s.visited <= max ==> MemoSound(h, s.memo - {MemoKey(rem, m)}, |rem|)
    ensures var a := TryAt(h, rem, p, m, max, s);
            LeavesOpen(h, rem, m, max, s, a) &&
            (a.result.NotFound? && s.visited <= max ==> CannotStart(h, rem, p, m))
    decreases |rem|, 1
  {
    var op := h[rem[p]];
    if !Eligible(h, rem, rem[p]) {
      IneligibleCannotStart(h, rem, p, m);
    } else {
      var a := TryAt(h, rem, p, m, max, s);
      if op.outcome.Timeout? {
        ChoiceComplete(h, rem, p, m, Choice(op, false), max, s);
        var first := ExploreChoice(h, rem, p, Some(m), Choice(op, false), max, s);
        if !first.result.Found? {
          ChoiceComplete(h, rem, p, m, Choice(op, true), max, first.progress);
        }
      } else {
        ChoiceComplete(h, rem, p, m, Choice(op, true), max, s);
      }
      if a.result.NotFound? && s.visited <= max {
        ChoicesCannotStart(h, rem, p, m);
      }
    }
  }

  lemma {:induction false} ChoiceComplete(h: seq<Operation>, rem: seq<nat>, p: nat, m: Model, c: Choice, max: nat, s: Progress)
    requires Within(h, rem) && Distinct(rem) && p < |rem|
    requires s.visited <= max ==> MemoSound(h, s.memo - {MemoKey(rem, m)}, |rem|)
    ensures var a := ExploreChoice(h, rem, p, Step(m, c), c, max, s);
            LeavesOpen(h, rem, m, max, s, a) &&
            (a.result.NotFound? && s.visited <= max && Step(m, c).Some? ==>
               Refuted(h, Without(rem, p), Step(m, c).value))
    decreases |rem|, 0
  {
    if Step(m, c).Some? {
      ExploreComplete(h, Without(rem, p), Step(m, c).value, max, s);
    }
  }
}
