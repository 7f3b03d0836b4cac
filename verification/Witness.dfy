/** Bounded minimisation of a rejected history. */
module Witness {
  import opened Prelude
  import opened History
  import opened Search
  import opened Checker

  datatype Witness = Witness(ids: seq<u64>, oracleCalls: nat, budgetExhausted: bool, oneMinimal: bool)

  // ------------------------------------------------------------------
  // Order-preserving parts of a history
  // ------------------------------------------------------------------

  ghost predicate Embeds(f: seq<nat>, a: seq<Operation>, h: seq<Operation>) {
    |f| == |a| && Climbs(f) &&
    forall i | 0 <= i < |f| :: f[i] < |h| && a[i] == h[f[i]]
  }

  /** `a` keeps some operations of `h`, in the same order. */
  ghost predicate Subsequence(a: seq<Operation>, h: seq<Operation>) {
    exists f :: Embeds(f, a, h)
  }

  lemma WholeIsSubsequence(h: seq<Operation>)
    ensures Subsequence(h, h)
  {
    assert Embeds(All(|h|), h, h);
  }

  function RemoveRange<T>(s: seq<T>, start: nat, end: nat): (r: seq<T>)
    requires start <= end <= |s|
    ensures |r| == |s| - (end - start)
  {
    s[..start] + s[end..]
  }

  lemma RemoveKeepsOrder(a: seq<Operation>, h: seq<Operation>, start: nat, end: nat)
    requires start <= end <= |a| && Subsequence(a, h)
    ensures Subsequence(RemoveRange(a, start, end), h)
  {
    var f :| Embeds(f, a, h);
    assert Embeds(RemoveRange(f, start, end), RemoveRange(a, start, end), h);
  }

  ghost predicate Climbs(f: seq<nat>) {
    forall i, j | 0 <= i < j < |f| :: f[i] < f[j]
  }

  lemma LastIsShared(f: seq<nat>, g: seq<nat>)
    requires Climbs(f) && Climbs(g) && f != [] && g != []
    requires f[|f| - 1] in g && g[|g| - 1] in f
    ensures f[|f| - 1] == g[|g| - 1]
  {
    var j :| 0 <= j < |g| && g[j] == f[|f| - 1];
    var i :| 0 <= i < |f| && f[i] == g[|g| - 1];
  }

  lemma DropLast(f: seq<nat>, g: seq<nat>)
    requires Climbs(f) && g != [] && f != [] && f[|f| - 1] == g[|g| - 1]
    requires forall i | 0 <= i < |f| :: f[i] in g
    ensures var f', g' := f[..|f| - 1], g[..|g| - 1];
            Climbs(f') && forall i | 0 <= i < |f'| :: f'[i] in g'
  {
    var f', g' := f[..|f| - 1], g[..|g| - 1];
    forall i | 0 <= i < |f'| ensures f'[i] in g' {
      var j :| 0 <= j < |g| && g[j] == f[i];
      assert g'[j] == f[i];
    }
  }

  lemma {:induction false} SameElementsSameSequence(f: seq<nat>, g: seq<nat>)
    requires Climbs(f) && Climbs(g)
    requires forall i | 0 <= i < |f| :: f[i] in g
    requires forall i | 0 <= i < |g| :: g[i] in f
    ensures f == g
    decreases |f|
  {
    hide Climbs;
    if f != [] {
      assert f[0] in g;
      var f', g' := f[..|f| - 1], g[..|g| - 1];
      LastIsShared(f, g);
      DropLast(f, g);
      DropLast(g, f);
      SameElementsSameSequence(f', g');
      assert f == f' + [f[|f| - 1]];
      assert g == g' + [g[|g| - 1]];
    }
  }

  lemma EmbeddingFollowsIds(f: seq<nat>, a: seq<Operation>, g: seq<nat>, b: seq<Operation>, h: seq<Operation>)
    requires DistinctIds(h) && Embeds(f, a, h) && Embeds(g, b, h)
    requires multiset(Ids(a)) == multiset(Ids(b))
    ensures forall x | x in f :: x in g
  {
    forall x | x in f ensures x in g {
      var i :| 0 <= i < |f| && f[i] == x;
      assert Ids(a)[i] in multiset(Ids(b));
      var j :| 0 <= j < |b| && Ids(b)[j] == Ids(a)[i];
      assert h[g[j]].id == h[f[i]].id;
      assert g[j] == f[i];
    }
  }

  /** With distinct ids, a part of the history is known by the ids it keeps. */
  lemma IdsDetermineSubsequence(a: seq<Operation>, b: seq<Operation>, h: seq<Operation>)
    requires DistinctIds(h) && Subsequence(a, h) && Subsequence(b, h)
    requires multiset(Ids(a)) == multiset(Ids(b))
    ensures a == b
  {
    var f :| Embeds(f, a, h);
    var g :| Embeds(g, b, h);
    EmbeddingFollowsIds(f, a, g, b, h);
    EmbeddingFollowsIds(g, b, f, a, h);
    SameElementsSameSequence(f, g);
  }

  // ------------------------------------------------------------------
  // The cached oracle
  // ------------------------------------------------------------------

  predicate Sorted(s: seq<u64>) {
    forall i, j | 0 <= i < j < |s| :: s[i] <= s[j]
  }

  function Insert(x: u64, s: seq<u64>): (r: seq<u64>)
    requires Sorted(s)
    ensures Sorted(r) && multiset(r) == multiset{x} + multiset(s)
    ensures forall i | 0 <= i < |r| :: r[i] == x || r[i] in s
  {
    if s == [] || x <= s[0] then [x] + s
    else
      assert s == [s[0]] + s[1..];
      var rest := Insert(x, s[1..]);
      assert forall i | 0 <= i < |rest| :: s[0] <= rest[i];
      [s[0]] + rest
  }

  function SortIds(s: seq<u64>): (r: seq<u64>)
    ensures Sorted(r) && multiset(r) == multiset(s)
  {
    if s == [] then []
    else
      assert s == [s[0]] + s[1..];
      Insert(s[0], SortIds(s[1..]))
  }

  /** The oracle's question: is this part of the history still rejected? */
  predicate Refutes(a: seq<Operation>, m: Model, max: nat) {
    RawVerdict(a, m, max).Rejected?
  }

  type Cache = map<seq<u64>, bool>

  ghost predicate CacheSound(cache: Cache, h: seq<Operation>, m: Model, max: nat) {
    forall a | Subsequence(a, h) && SortIds(Ids(a)) in cache ::
      cache[SortIds(Ids(a))] == Refutes(a, m, max)
  }

  lemma EmptyCacheSound(h: seq<Operation>, m: Model, max: nat)
    ensures CacheSound(map[], h, m, max)
  {
  }

  method Oracle(a: seq<Operation>, ghost h: seq<Operation>, m: Model, max: nat, budget: nat, calls: nat, cache: Cache)
      returns (answer: Option<bool>, calls': nat, cache': Cache)
    requires DistinctIds(h) && Subsequence(a, h) && CacheSound(cache, h, m, max)
    ensures CacheSound(cache', h, m, max)
    ensures calls <= calls' && (calls <= budget ==> calls' <= budget)
    ensures answer.None? <==> SortIds(Ids(a)) !in cache && calls >= budget
    ensures answer.Some? && SortIds(Ids(a)) !in cache ==> calls' == calls + 1
    ensures answer.Some? ==> answer.value == Refutes(a, m, max)
  {
    var ids := SortIds(Ids(a));
    if ids in cache {
      return Some(cache[ids]), calls, cache;
    }
    if calls >= budget {
      return None, calls, cache;
    }
    var verdict := CheckRaw(a, m, max);
    cache' := cache[ids := verdict.Rejected?];
    forall b | Subsequence(b, h) && SortIds(Ids(b)) in cache'
      ensures cache'[SortIds(Ids(b))] == Refutes(b, m, max)
    {
      if SortIds(Ids(b)) == ids {
        IdsDetermineSubsequence(a, b, h);
      }
    }
    return Some(verdict.Rejected?), calls + 1, cache';
  }

  // ------------------------------------------------------------------
  // The two reduction phases
  // ------------------------------------------------------------------

  /** A non-empty, order-preserving, still rejected part of the history. */
  ghost predicate StillRefuted(a: seq<Operation>, h: seq<Operation>, m: Model, max: nat) {
    a != [] && Subsequence(a, h) && Refutes(a, m, max)
  }

  lemma EmptyIsAccepted(m: Model, max: nat)
    ensures !Refutes([], m, max)
  {
    assert Locality.Keys([]) == {};
  }

  function ChunkSize(length: nat, granularity: nat): (chunk: nat)
    requires 0 < granularity <= length
    ensures 0 < chunk <= length
  {
    CeilingBounds(length, granularity);
    (length + granularity - 1) / granularity
  }

  lemma CeilingBounds(n: nat, g: nat)
    requires 0 < g <= n
    ensures 0 < (n + g - 1) / g <= n
  {
    var q, r := (n + g - 1) / g, (n + g - 1) % g;
    assert n + g - 1 == q * g + r;
    assert (n + 1) * g == n * g + g;
    Scaled(1, g, n);
    if q > n {
      Scaled(n + 1, q, g);
    }
  }

  lemma Scaled(a: nat, b: nat, c: nat)
    requires a <= b
    ensures a * c <= b * c
  {
    assert b * c - a * c == (b - a) * c;
  }

  /** Remove ever smaller chunks while the rest is still rejected. */
  method ReduceByChunks(h: seq<Operation>, m: Model, max: nat, budget: nat, calls: nat, cache: Cache)
      returns (candidate: seq<Operation>, calls': nat, cache': Cache)
    requires DistinctIds(h) && CacheSound(cache, h, m, max) && calls <= budget
    requires StillRefuted(h, h, m, max)
    ensures CacheSound(cache', h, m, max) && calls <= calls' <= budget
    ensures StillRefuted(candidate, h, m, max)
  {
    hide Refutes, Subsequence, CacheSound, ChunkSize;
    candidate, calls', cache' := h, calls, cache;
    var granularity := 2;
    while |candidate| >= 2 && calls' < budget
      invariant CacheSound(cache', h, m, max) && calls <= calls' <= budget
      invariant StillRefuted(candidate, h, m, max)
      invariant 2 <= granularity && (|candidate| >= 2 ==> granularity <= |candidate|)
      decreases |candidate|, |candidate| - granularity
    {
      var chunk := ChunkSize(|candidate|, granularity);
      var removed := false;
      var start := 0;
      ghost var length, fineness := |candidate|, granularity;
      while start < |candidate| && !removed && calls' < budget
        invariant CacheSound(cache', h, m, max) && calls <= calls' <= budget
        invariant StillRefuted(candidate, h, m, max)
        invariant if removed then |candidate| < length && granularity == 2
                  else |candidate| == length && granularity == fineness
        decreases |candidate|, |candidate| - start
      {
        var end := if start + chunk <= |candidate| then start + chunk else |candidate|;
        var reduced := RemoveRange(candidate, start, end);
        start := start + chunk;
        if reduced != [] {
          RemoveKeepsOrder(candidate, h, start - chunk, end);
          var answer;
          answer, calls', cache' := Oracle(reduced, h, m, max, budget, calls', cache');
          if answer == Some(true) {
            candidate, granularity, removed := reduced, 2, true;
          }
        }
      }
      if !removed {
        if granularity >= |candidate| {
          break;
        }
        granularity := if granularity * 2 <= |candidate| then granularity * 2 else |candidate|;
      }
    }
  }

  /** Delete single operations, last first, until none can go or the budget is spent. */
  method ReduceByOne(first: seq<Operation>, h: seq<Operation>, m: Model, max: nat, budget: nat, calls: nat, cache: Cache)
      returns (candidate: seq<Operation>, calls': nat, cache': Cache, oneMinimal: bool)
    requires DistinctIds(h) && CacheSound(cache, h, m, max) && calls <= budget
    requires StillRefuted(first, h, m, max)
    ensures calls <= calls' <= budget && StillRefuted(candidate, h, m, max)
    ensures oneMinimal ==> forall i | 0 <= i < |candidate| :: !Refutes(Without(candidate, i), m, max)
    ensures !oneMinimal ==> calls' >= budget
  {
    hide Refutes, Subsequence, CacheSound;
    candidate, calls', cache', oneMinimal := first, calls, cache, false;
    while true
      invariant CacheSound(cache', h, m, max) && calls <= calls' <= budget
      invariant StillRefuted(candidate, h, m, max)
      decreases |candidate|
    {
      var index := |candidate|;
      var deleted := false;
      ghost var length := |candidate|;
      while index > 0 && !deleted
        invariant CacheSound(cache', h, m, max) && calls <= calls' <= budget
        invariant StillRefuted(candidate, h, m, max)
        invariant 0 <= index <= length
        invariant if deleted then |candidate| < length else
                  |candidate| == length && forall i | index <= i < length :: !Refutes(Without(candidate, i), m, max)
        decreases index
      {
        index := index - 1;
        if calls' >= budget {
          return;
        }
        var reduced := Without(candidate, index);
        assert reduced == RemoveRange(candidate, index, index + 1);
        RemoveKeepsOrder(candidate, h, index, index + 1);
        EmptyIsAccepted(m, max);
        var answer;
        answer, calls', cache' := Oracle(reduced, h, m, max, budget, calls', cache');
        if answer == Some(true) {
          candidate, deleted := reduced, true;
        }
      }
      if !deleted {
        oneMinimal := true;
        return;
      }
    }
  }

  /** Minimise a rejected history.  `kept` names the operations behind the reported ids. */
  method Minimize(h: seq<Operation>, m: Model, max: nat, budget: nat) returns (w: Option<Witness>, ghost kept: seq<Operation>)
    requires DistinctIds(h)
    ensures w.Some? <==> budget > 0 && Refutes(h, m, max)
    ensures w.Some? ==>
              w.value.ids == Ids(kept) && StillRefuted(kept, h, m, max) &&
              0 < w.value.oracleCalls <= budget &&
              (w.value.budgetExhausted <==> w.value.oracleCalls == budget) &&
              (w.value.oneMinimal ==> forall i | 0 <= i < |kept| :: !Refutes(Without(kept, i), m, max)) &&
              (!w.value.oneMinimal ==> w.value.budgetExhausted)
  {
    hide Refutes, Subsequence, CacheSound;
    kept := [];
    WholeIsSubsequence(h);
    EmptyCacheSound(h, m, max);
    var answer, calls, cache := Oracle(h, h, m, max, budget, 0, map[]);
    if answer != Some(true) {
      return None, [];
    }
    EmptyIsAccepted(m, max);
    var candidate, oneMinimal;
    candidate, calls, cache := ReduceByChunks(h, m, max, budget, calls, cache);
    candidate, calls, cache, oneMinimal := ReduceByOne(candidate, h, m, max, budget, calls, cache);
    kept := candidate;
    w := Some(Witness(Ids(candidate), calls, calls >= budget, oneMinimal));
  }
}
