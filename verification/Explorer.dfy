/** Bounded breadth-first exploration of a transition system whose states are told apart only by
    a fingerprint. */
module Explorer {
  import opened Prelude

  /** `check` admits a state, possibly annotating it; `next` lists the successors of an admitted one. */
  datatype System<!S, !F> = System(check: S -> Option<S>, next: S -> seq<S>, fingerprint: S -> F)

  datatype Bounds = Bounds(maxDepth: nat, maxStates: nat)

  datatype Verdict =
    | Report(explored: nat, transitions: nat, maxFrontier: nat, depth: nat)
    | StateLimit(discovered: nat, explored: nat)
    | Violation(state: nat)

  /** Some admitted step leads from `a` to `b`. */
  ghost predicate Steps<S(!new), F(!new)>(sys: System<S, F>, a: S, b: S) {
    sys.check(a).Some? && b in sys.next(sys.check(a).value)
  }

  ghost predicate IsPath<S(!new), F(!new)>(sys: System<S, F>, path: seq<S>) {
    path != [] && forall i | 0 <= i < |path| - 1 :: Steps(sys, path[i], path[i + 1])
  }

  /** `s` is reached from `start` in exactly `n` steps. */
  ghost predicate Reaches<S(!new), F(!new)>(sys: System<S, F>, start: S, s: S, n: nat) {
    exists path: seq<S> :: IsPath(sys, path) && |path| == n + 1 && path[0] == start && path[n] == s
  }

  /** States with one fingerprint are admitted alike and have the same successors up to fingerprint. */
  ghost predicate Congruent<S(!new), F(!new)>(sys: System<S, F>) {
    forall a, b | sys.fingerprint(a) == sys.fingerprint(b) :: Alike(sys, a, b)
  }

  ghost predicate Alike<S(!new), F(!new)>(sys: System<S, F>, a: S, b: S) {
    (sys.check(a).Some? ==> sys.check(b).Some?) &&
    (forall c | Steps(sys, a, c) :: exists d :: Steps(sys, b, d) && sys.fingerprint(d) == sys.fingerprint(c))
  }

  // ------------------------------------------------------------------
  // What the search has established
  // ------------------------------------------------------------------

  /** A discovered state and the depth it was discovered at. */
  datatype Found<S> = Found(state: S, depth: nat)

  /** Some discovered state has this fingerprint, at this depth or less. */
  ghost predicate Covers<S(!new), F(!new)>(sys: System<S, F>, found: seq<Found<S>>, s: S, depth: nat) {
    exists i | 0 <= i < |found| :: found[i].depth <= depth && sys.fingerprint(found[i].state) == sys.fingerprint(s)
  }

  /** Discovery order: depths never go back. */
  ghost predicate Layered<S>(found: seq<Found<S>>) {
    forall i, j | 0 <= i <= j < |found| :: found[i].depth <= found[j].depth
  }

  ghost predicate Near<S>(found: seq<Found<S>>, depth: nat) {
    forall i | 0 <= i < |found| :: found[i].depth <= depth
  }

  lemma LayersGrow<S>(found: seq<Found<S>>, more: Found<S>)
    requires Layered(found) && Near(found, more.depth)
    ensures Layered(found + [more]) && Near(found + [more], more.depth)
  {
  }

  ghost predicate AllReached<S(!new), F(!new)>(sys: System<S, F>, start: S, found: seq<Found<S>>, maxDepth: nat) {
    forall i | 0 <= i < |found| :: found[i].depth <= maxDepth && Reaches(sys, start, found[i].state, found[i].depth)
  }

  ghost predicate Expanded<S(!new), F(!new)>(sys: System<S, F>, found: seq<Found<S>>, f: Found<S>, maxDepth: nat) {
    sys.check(f.state).Some? &&
    (f.depth < maxDepth ==> forall c | Steps(sys, f.state, c) :: Covers(sys, found, c, f.depth + 1))
  }

  ghost predicate SeenIs<S(!new), F(!new)>(sys: System<S, F>, found: seq<Found<S>>, seen: set<F>) {
    |seen| == |found| && (forall i | 0 <= i < |found| :: sys.fingerprint(found[i].state) in seen) &&
    (forall f | f in seen :: exists i | 0 <= i < |found| :: sys.fingerprint(found[i].state) == f)
  }

  lemma ReachesStart<S(!new), F(!new)>(sys: System<S, F>, start: S)
    ensures Reaches(sys, start, start, 0)
  {
    assert IsPath(sys, [start]);
  }

  lemma ReachesNext<S(!new), F(!new)>(sys: System<S, F>, start: S, s: S, n: nat, c: S)
    requires Reaches(sys, start, s, n) && Steps(sys, s, c)
    ensures Reaches(sys, start, c, n + 1)
  {
    var path: seq<S> :| IsPath(sys, path) && |path| == n + 1 && path[0] == start && path[n] == s;
    var longer := path + [c];
    assert forall i | 0 <= i < |longer| - 1 :: Steps(sys, longer[i], longer[i + 1]);
    assert IsPath(sys, longer);
  }

  /** When every discovered state has been expanded, everything within the depth is covered. */
  lemma {:induction false} PathCovered<S(!new), F(!new)>(sys: System<S, F>, start: S, found: seq<Found<S>>, maxDepth: nat, path: seq<S>)
    requires Congruent(sys) && Covers(sys, found, start, 0)
    requires forall i | 0 <= i < |found| :: Expanded(sys, found, found[i], maxDepth)
    requires IsPath(sys, path) && path[0] == start && |path| <= maxDepth + 1
    ensures Covers(sys, found, path[|path| - 1], |path| - 1)
    decreases |path|
  {
    if |path| > 1 {
      var n := |path| - 2;
      var front := path[..n + 1];
      assert forall i | 0 <= i < |front| - 1 :: Steps(sys, path[i], path[i + 1]) ==> Steps(sys, front[i], front[i + 1]);
      PathCovered(sys, start, found, maxDepth, front);
      var i :| 0 <= i < |found| && found[i].depth <= n && sys.fingerprint(found[i].state) == sys.fingerprint(path[n]);
      assert Alike(sys, path[n], found[i].state);
      assert Steps(sys, path[n], path[n + 1]);
      var d :| Steps(sys, found[i].state, d) && sys.fingerprint(d) == sys.fingerprint(path[n + 1]);
      assert Expanded(sys, found, found[i], maxDepth);
      assert Covers(sys, found, d, found[i].depth + 1);
    }
  }

  /** Nothing within the depth is left unchecked. */
  lemma Exhaustive<S(!new), F(!new)>(sys: System<S, F>, start: S, found: seq<Found<S>>, maxDepth: nat, s: S, n: nat)
    requires Congruent(sys) && Covers(sys, found, start, 0)
    requires forall i | 0 <= i < |found| :: Expanded(sys, found, found[i], maxDepth)
    requires Reaches(sys, start, s, n) && n <= maxDepth
    ensures sys.check(s).Some?
  {
    ReachedIsCovered(sys, start, found, maxDepth, s, n);
    var i :| 0 <= i < |found| && sys.fingerprint(found[i].state) == sys.fingerprint(s);
    assert Expanded(sys, found, found[i], maxDepth);
    assert Alike(sys, found[i].state, s);
  }

  /** Adding a discovery keeps what was covered. */
  lemma CoversGrows<S(!new), F(!new)>(sys: System<S, F>, found: seq<Found<S>>, more: Found<S>, s: S, depth: nat)
    requires Covers(sys, found, s, depth)
    ensures Covers(sys, found + [more], s, depth)
  {
    var i :| 0 <= i < |found| && found[i].depth <= depth && sys.fingerprint(found[i].state) == sys.fingerprint(s);
    assert (found + [more])[i] == found[i];
  }

  lemma ExpandedGrows<S(!new), F(!new)>(sys: System<S, F>, found: seq<Found<S>>, more: Found<S>, f: Found<S>, maxDepth: nat)
    requires Expanded(sys, found, f, maxDepth)
    ensures Expanded(sys, found + [more], f, maxDepth)
  {
    if f.depth < maxDepth {
      forall c | Steps(sys, f.state, c) ensures Covers(sys, found + [more], c, f.depth + 1) {
        CoversGrows(sys, found, more, c, f.depth + 1);
      }
    }
  }

  lemma SeenGrows<S(!new), F(!new)>(sys: System<S, F>, found: seq<Found<S>>, seen: set<F>, more: Found<S>)
    requires SeenIs(sys, found, seen) && sys.fingerprint(more.state) !in seen
    ensures SeenIs(sys, found + [more], seen + {sys.fingerprint(more.state)})
  {
    var longer := found + [more];
    forall f | f in seen + {sys.fingerprint(more.state)}
      ensures exists i | 0 <= i < |longer| :: sys.fingerprint(longer[i].state) == f
    {
      if f in seen {
        var i :| 0 <= i < |found| && sys.fingerprint(found[i].state) == f;
        assert longer[i] == found[i];
      } else {
        assert longer[|found|] == more;
      }
    }
  }

  // ------------------------------------------------------------------
  // The search
  // ------------------------------------------------------------------

  /** Everything the search maintains between states. */
  ghost predicate Progress<S(!new), F(!new)>(sys: System<S, F>, start: S, bounds: Bounds, found: seq<Found<S>>, seen: set<F>, done: nat) {
    done <= |found| <= bounds.maxStates &&
    Layered(found) && AllReached(sys, start, found, bounds.maxDepth) && SeenIs(sys, found, seen) &&
    Covers(sys, found, start, 0) &&
    (forall i | 0 <= i < done :: Expanded(sys, found, found[i], bounds.maxDepth)) &&
    (done < |found| ==> Near(found, found[done].depth + 1))
  }

  /** Some state within the depth has this fingerprint. */
  ghost predicate Present<S(!new), F(!new)>(sys: System<S, F>, start: S, maxDepth: nat, f: F) {
    exists s: S, n: nat :: n <= maxDepth && Reaches(sys, start, s, n) && sys.fingerprint(s) == f
  }

  /** There are exactly `count` distinct fingerprints within the depth. */
  ghost predicate Counts<S(!new), F(!new)>(sys: System<S, F>, start: S, maxDepth: nat, count: nat) {
    exists seen: set<F> :: |seen| == count && forall f :: f in seen <==> Present(sys, start, maxDepth, f)
  }

  /** More than `count` distinct fingerprints exist within the depth. */
  ghost predicate Exceeds<S(!new), F(!new)>(sys: System<S, F>, start: S, maxDepth: nat, count: nat) {
    exists seen: set<F> :: |seen| > count && forall f | f in seen :: Present(sys, start, maxDepth, f)
  }

  /** Everything seen is there. */
  lemma SeenIsPresent<S(!new), F(!new)>(sys: System<S, F>, start: S, bounds: Bounds, found: seq<Found<S>>, seen: set<F>)
    requires SeenIs(sys, found, seen) && AllReached(sys, start, found, bounds.maxDepth)
    ensures forall f | f in seen :: Present(sys, start, bounds.maxDepth, f)
  {
    hide Reaches;
    forall f | f in seen ensures Present(sys, start, bounds.maxDepth, f) {
      var i :| 0 <= i < |found| && sys.fingerprint(found[i].state) == f;
      assert Reaches(sys, start, found[i].state, found[i].depth);
    }
  }

  /** Once everything discovered has been expanded, what was seen is what there is. */
  lemma SeenAll<S(!new), F(!new)>(sys: System<S, F>, start: S, bounds: Bounds, found: seq<Found<S>>, seen: set<F>)
    requires Congruent(sys) && Progress(sys, start, bounds, found, seen, |found|)
    ensures Counts(sys, start, bounds.maxDepth, |found|)
  {
    hide Reaches, Expanded, Congruent;
    SeenIsPresent(sys, start, bounds, found, seen);
    forall f ensures f in seen <==> Present(sys, start, bounds.maxDepth, f) {
      if Present(sys, start, bounds.maxDepth, f) {
        var s: S, n: nat :| n <= bounds.maxDepth && Reaches(sys, start, s, n) && sys.fingerprint(s) == f;
        ReachedIsCovered(sys, start, found, bounds.maxDepth, s, n);
      }
    }
  }

  lemma ReachedIsCovered<S(!new), F(!new)>(sys: System<S, F>, start: S, found: seq<Found<S>>, maxDepth: nat, s: S, n: nat)
    requires Congruent(sys) && Covers(sys, found, start, 0)
    requires forall i | 0 <= i < |found| :: Expanded(sys, found, found[i], maxDepth)
    requires Reaches(sys, start, s, n) && n <= maxDepth
    ensures Covers(sys, found, s, n)
  {
    hide Expanded, Covers, Congruent;
    var path: seq<S> :| IsPath(sys, path) && |path| == n + 1 && path[0] == start && path[n] == s;
    PathCovered(sys, start, found, maxDepth, path);
  }

  /** Search breadth first from `start`.  A report means every state within the depth was admitted, and
      counts their distinct fingerprints; a violation means one was not; and the search always stops,
      because what is explored and what waits are together the distinct states seen. */
  method Explore<S(!new), F(!new, ==)>(sys: System<S, F>, start: S, bounds: Bounds) returns (verdict: Verdict)
    requires bounds.maxStates > 0 && Congruent(sys)
    ensures verdict.Report? ==>
              verdict.explored <= bounds.maxStates && verdict.depth <= bounds.maxDepth &&
              Counts(sys, start, bounds.maxDepth, verdict.explored) &&
              forall s: S, n: nat | n <= bounds.maxDepth && Reaches(sys, start, s, n) :: sys.check(s).Some?
    ensures verdict.Violation? ==>
              exists s: S, n: nat :: n <= bounds.maxDepth && Reaches(sys, start, s, n) && sys.check(s).None?
    ensures verdict.StateLimit? ==>
              verdict.discovered > bounds.maxStates && verdict.explored <= bounds.maxStates &&
              Exceeds(sys, start, bounds.maxDepth, bounds.maxStates)
  {
    var seen := {sys.fingerprint(start)};
    var queue := [Found(start, 0)];
    var explored: nat, transitions: nat, maxFrontier: nat, depth: nat := 0, 0, 1, 0;
    ghost var found := [Found(start, 0)];
    hide Covers, SeenIs, Reaches, Expanded, Steps, Congruent, Layered, Near, Counts, Exceeds, Grows;
    ProgressStart(sys, start, bounds);
    while queue != []
      invariant Progress(sys, start, bounds, found, seen, explored)
      invariant queue == found[explored..]
      invariant depth <= bounds.maxDepth
      decreases bounds.maxStates - explored
    {
      var current := queue[0];
      queue := queue[1..];
      assert current == found[explored];
      explored := explored + 1;
      depth := if current.depth > depth then current.depth else depth;
      var admitted := sys.check(current.state);
      if admitted.None? {
        assert Reaches(sys, start, current.state, current.depth);
        return Violation(explored);
      }
      if current.depth == bounds.maxDepth {
        ExpandedAtDepth(sys, found, current, bounds.maxDepth);
        AdvanceKeeps(sys, start, bounds, found, seen, explored - 1);
      } else {
        var limit;
        ghost var grown;
        seen, queue, limit, grown := Expand(sys, start, bounds, found, seen, queue, explored, current);
        transitions := transitions + |sys.next(admitted.value)|;
        if limit {
          return StateLimit(|seen|, explored);
        }
        found := grown;
      }
      maxFrontier := if |queue| > maxFrontier then |queue| else maxFrontier;
    }
    SeenAll(sys, start, bounds, found, seen);
    forall s: S, n: nat | n <= bounds.maxDepth && Reaches(sys, start, s, n) ensures sys.check(s).Some? {
      Exhaustive(sys, start, found, bounds.maxDepth, s, n);
    }
    return Report(explored, transitions, maxFrontier, depth);
  }

  lemma ProgressStart<S(!new), F(!new)>(sys: System<S, F>, start: S, bounds: Bounds)
    requires bounds.maxStates > 0
    ensures Progress(sys, start, bounds, [Found(start, 0)], {sys.fingerprint(start)}, 0)
  {
    hide Reaches;
    ReachesStart(sys, start);
    var found := [Found(start, 0)];
    assert sys.fingerprint(found[0].state) == sys.fingerprint(start);
  }

  lemma ExpandedAtDepth<S(!new), F(!new)>(sys: System<S, F>, found: seq<Found<S>>, f: Found<S>, maxDepth: nat)
    requires sys.check(f.state).Some? && f.depth >= maxDepth
    ensures Expanded(sys, found, f, maxDepth)
  {
  }

  lemma AdvanceKeeps<S(!new), F(!new)>(sys: System<S, F>, start: S, bounds: Bounds, found: seq<Found<S>>, seen: set<F>, done: nat)
    requires Progress(sys, start, bounds, found, seen, done) && done < |found|
    requires Expanded(sys, found, found[done], bounds.maxDepth)
    ensures Progress(sys, start, bounds, found, seen, done + 1)
  {
    hide Covers, SeenIs, Reaches, Expanded;
  }

  /** The discoveries made so far are kept, and the new ones are successors one step deeper whose
      fingerprints had not been seen. */
  ghost predicate Grows<S(!new), F(!new)>(sys: System<S, F>, found: seq<Found<S>>, found': seq<Found<S>>, seen: set<F>, nexts: seq<S>, depth: nat) {
    found <= found' &&
    forall i | |found| <= i < |found'| ::
      found'[i].depth == depth && found'[i].state in nexts && sys.fingerprint(found'[i].state) !in seen
  }

  lemma GrowsBy<S(!new), F(!new)>(sys: System<S, F>, found: seq<Found<S>>, found': seq<Found<S>>, seen: set<F>, nexts: seq<S>, more: Found<S>)
    requires Grows(sys, found, found', seen, nexts, more.depth) && more.state in nexts && sys.fingerprint(more.state) !in seen
    ensures Grows(sys, found, found' + [more], seen, nexts, more.depth)
  {
  }

  /** Add the unseen successors of one admitted state to the queue, or stop at the state limit.  Every
      successor has then been seen, and every discovery added is a successor that had not been. */
  method Expand<S(!new), F(!new, ==)>(sys: System<S, F>, ghost start: S, bounds: Bounds, ghost found: seq<Found<S>>,
                                      seen: set<F>, queue: seq<Found<S>>, ghost done: nat, current: Found<S>)
    returns (seen': set<F>, queue': seq<Found<S>>, limit: bool, ghost found': seq<Found<S>>)
    requires done > 0 && Progress(sys, start, bounds, found, seen, done - 1) && done - 1 < |found|
    requires current == found[done - 1] && queue == found[done..]
    requires current.depth < bounds.maxDepth && sys.check(current.state).Some?
    ensures Grows(sys, found, found', seen, sys.next(sys.check(current.state).value), current.depth + 1)
    ensures seen <= seen'
    ensures limit ==> |seen'| > bounds.maxStates && Exceeds(sys, start, bounds.maxDepth, bounds.maxStates)
    ensures !limit ==>
              Progress(sys, start, bounds, found', seen', done) && queue' == found'[done..] &&
              forall c | c in sys.next(sys.check(current.state).value) :: sys.fingerprint(c) in seen'
  {
    hide Covers, SeenIs, Reaches, Expanded, Steps, Exceeds, Grows, Layered, Near, AllReached;
    var nexts := sys.next(sys.check(current.state).value);
    seen', queue', limit, found' := seen, queue, false, found;
    GrowsNone(sys, found, seen, nexts, current.depth + 1);
    for i := 0 to |nexts|
      invariant Progress(sys, start, bounds, found', seen', done - 1) && done - 1 < |found'|
      invariant found'[done - 1] == current && queue' == found'[done..]
      invariant forall j | 0 <= j < i :: Covers(sys, found', nexts[j], current.depth + 1) && sys.fingerprint(nexts[j]) in seen'
      invariant seen <= seen' && Grows(sys, found, found', seen, nexts, current.depth + 1)
    {
      var f := sys.fingerprint(nexts[i]);
      if f !in seen' {
        ghost var more := Found(nexts[i], current.depth + 1);
        DiscoverKeeps(sys, start, bounds, found', seen', done - 1, nexts, i);
        seen' := seen' + {f};
        if |seen'| > bounds.maxStates {
          LimitExceeded(sys, start, bounds, found', seen' - {f}, done - 1, nexts[i]);
          assert seen' - {f} + {f} == seen';
          return seen', queue', true, found';
        }
        GrowsBy(sys, found, found', seen, nexts, more);
        queue' := queue' + [Found(nexts[i], current.depth + 1)];
        found' := found' + [more];
      } else {
        AlreadyCovered(sys, start, bounds, found', seen', done - 1, nexts[i]);
      }
    }
    ExpandedNow(sys, found', current, bounds.maxDepth, nexts);
    AdvanceKeeps(sys, start, bounds, found', seen', done - 1);
  }

  lemma GrowsNone<S(!new), F(!new)>(sys: System<S, F>, found: seq<Found<S>>, seen: set<F>, nexts: seq<S>, depth: nat)
    ensures Grows(sys, found, found, seen, nexts, depth)
  {
  }

  /** One discovery more than the limit: all that was seen is there, and so is the one that broke it. */
  lemma LimitExceeded<S(!new), F(!new)>(sys: System<S, F>, start: S, bounds: Bounds, found: seq<Found<S>>, seen: set<F>, at: nat, c: S)
    requires Progress(sys, start, bounds, found, seen, at) && at < |found| && found[at].depth < bounds.maxDepth
    requires sys.check(found[at].state).Some? && c in sys.next(sys.check(found[at].state).value)
    requires |seen + {sys.fingerprint(c)}| > bounds.maxStates
    ensures Exceeds(sys, start, bounds.maxDepth, bounds.maxStates)
  {
    hide Reaches, Covers, Expanded, SeenIs, Layered, Near;
    SeenIsPresent(sys, start, bounds, found, seen);
    assert Steps(sys, found[at].state, c);
    ReachesNext(sys, start, found[at].state, found[at].depth, c);
    assert Present(sys, start, bounds.maxDepth, sys.fingerprint(c));
    assert forall f | f in seen + {sys.fingerprint(c)} :: Present(sys, start, bounds.maxDepth, f);
  }

  lemma ExpandedNow<S(!new), F(!new)>(sys: System<S, F>, found: seq<Found<S>>, f: Found<S>, maxDepth: nat, nexts: seq<S>)
    requires sys.check(f.state).Some? && nexts == sys.next(sys.check(f.state).value)
    requires forall j | 0 <= j < |nexts| :: Covers(sys, found, nexts[j], f.depth + 1)
    ensures Expanded(sys, found, f, maxDepth)
  {
    hide Covers;
    forall c | Steps(sys, f.state, c) ensures Covers(sys, found, c, f.depth + 1) {
      var j :| 0 <= j < |nexts| && nexts[j] == c;
    }
  }

  /** A fingerprint already seen was discovered no deeper than one below the state being expanded. */
  lemma AlreadyCovered<S(!new), F(!new)>(sys: System<S, F>, start: S, bounds: Bounds, found: seq<Found<S>>, seen: set<F>, at: nat, c: S)
    requires Progress(sys, start, bounds, found, seen, at) && at < |found| && sys.fingerprint(c) in seen
    ensures Covers(sys, found, c, found[at].depth + 1)
  {
    hide Expanded, Reaches;
  }

  lemma DiscoverKeeps<S(!new), F(!new)>(sys: System<S, F>, start: S, bounds: Bounds, found: seq<Found<S>>, seen: set<F>, at: nat,
                                        nexts: seq<S>, i: nat)
    requires Progress(sys, start, bounds, found, seen, at) && at < |found| && found[at].depth < bounds.maxDepth
    requires sys.check(found[at].state).Some? && nexts == sys.next(sys.check(found[at].state).value) && i < |nexts|
    requires sys.fingerprint(nexts[i]) !in seen
    requires forall j | 0 <= j < i :: Covers(sys, found, nexts[j], found[at].depth + 1)
    ensures var more := Found(nexts[i], found[at].depth + 1);
            var longer := found + [more];
            |seen + {sys.fingerprint(nexts[i])}| == |longer| &&
            (|longer| <= bounds.maxStates ==>
               Progress(sys, start, bounds, longer, seen + {sys.fingerprint(nexts[i])}, at)) &&
            forall j | 0 <= j <= i :: Covers(sys, longer, nexts[j], found[at].depth + 1)
  {
    hide Covers, Reaches, Expanded, Layered, Near, SeenIs, Steps;
    var more := Found(nexts[i], found[at].depth + 1);
    var longer := found + [more];
    Discovery(sys, start, found, seen, at, nexts[i]);
    forall j | 0 <= j < i ensures Covers(sys, longer, nexts[j], found[at].depth + 1) {
      CoversGrows(sys, found, more, nexts[j], found[at].depth + 1);
    }
    forall j | 0 <= j < at ensures Expanded(sys, longer, longer[j], bounds.maxDepth) {
      ExpandedGrows(sys, found, more, found[j], bounds.maxDepth);
    }
    assert AllReached(sys, start, longer, bounds.maxDepth);
    assert |longer| == |seen + {sys.fingerprint(nexts[i])}| by { SeenSize(sys, longer, seen + {sys.fingerprint(nexts[i])}); }
  }

  lemma SeenSize<S(!new), F(!new)>(sys: System<S, F>, found: seq<Found<S>>, seen: set<F>)
    requires SeenIs(sys, found, seen)
    ensures |seen| == |found|
  {
  }

  /** What one more discovery, a successor of the state at `at`, adds. */
  lemma Discovery<S(!new), F(!new)>(sys: System<S, F>, start: S, found: seq<Found<S>>, seen: set<F>, at: nat, c: S)
    requires at < |found| && SeenIs(sys, found, seen) && Layered(found) && Near(found, found[at].depth + 1)
    requires Reaches(sys, start, found[at].state, found[at].depth) && Covers(sys, found, start, 0)
    requires sys.check(found[at].state).Some? && c in sys.next(sys.check(found[at].state).value)
    requires sys.fingerprint(c) !in seen
    ensures var more := Found(c, found[at].depth + 1);
            var longer := found + [more];
            SeenIs(sys, longer, seen + {sys.fingerprint(c)}) && Layered(longer) && Near(longer, more.depth) &&
            Reaches(sys, start, c, more.depth) && Covers(sys, longer, start, 0) && Covers(sys, longer, c, more.depth)
  {
    hide SeenIs, Reaches, Layered, Near;
    var more := Found(c, found[at].depth + 1);
    var longer := found + [more];
    SeenGrows(sys, found, seen, more);
    CoversGrows(sys, found, more, start, 0);
    LayersGrow(found, more);
    assert Steps(sys, found[at].state, c);
    ReachesNext(sys, start, found[at].state, found[at].depth, c);
    assert longer[|found|] == more;
  }
}
