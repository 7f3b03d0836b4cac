/** Lexicographic order, and the iteration order of an ordered map or set.

    The source keeps its tables in `BTreeMap` and `BTreeSet`.  Here those are
    plain maps and sets; wherever the source observes the iteration order, the
    elements are enumerated by `SortedBy`, which lists a finite set in increasing
    lexicographic order of a rank. */
module Ordering {
  predicate LexLe(a: seq<nat>, b: seq<nat>) {
    a == [] ||
    (b != [] && (a[0] < b[0] || (a[0] == b[0] && LexLe(a[1..], b[1..]))))
  }

  predicate LexLt(a: seq<nat>, b: seq<nat>) {
    LexLe(a, b) && a != b
  }

  lemma {:induction false} LexTotal(a: seq<nat>, b: seq<nat>)
    ensures LexLe(a, b) || LexLe(b, a)
  {
    if a != [] && b != [] {
      LexTotal(a[1..], b[1..]);
    }
  }

  lemma {:induction false} LexAntisymmetric(a: seq<nat>, b: seq<nat>)
    requires LexLe(a, b) && LexLe(b, a)
    ensures a == b
  {
    if a != [] {
      LexAntisymmetric(a[1..], b[1..]);
      assert a == [a[0]] + a[1..];
      assert b == [b[0]] + b[1..];
    }
  }

  lemma {:induction false} LexTransitive(a: seq<nat>, b: seq<nat>, c: seq<nat>)
    requires LexLe(a, b) && LexLe(b, c)
    ensures LexLe(a, c)
  {
    if a != [] && a[0] == b[0] && b[0] == c[0] {
      LexTransitive(a[1..], b[1..], c[1..]);
    }
  }

  /** Elements of `s` carry pairwise different ranks. */
  ghost predicate Ranked<K(!new)>(s: set<K>, rank: K -> seq<nat>) {
    forall x, y | x in s && y in s && rank(x) == rank(y) :: x == y
  }

  predicate IsLeast<K>(s: set<K>, rank: K -> seq<nat>, k: K) {
    k in s && forall x | x in s :: LexLe(rank(k), rank(x))
  }

  lemma {:induction false} LeastExists<K(!new)>(s: set<K>, rank: K -> seq<nat>)
    requires s != {}
    ensures exists k :: IsLeast(s, rank, k)
  {
    var x :| x in s;
    var rest := s - {x};
    if rest == {} {
      assert s == {x};
      LexTotal(rank(x), rank(x));
      assert IsLeast(s, rank, x);
    } else {
      LeastExists(rest, rank);
      var y :| IsLeast(rest, rank, y);
      LexTotal(rank(x), rank(y));
      LexTotal(rank(x), rank(x));
      var k := if LexLe(rank(x), rank(y)) then x else y;
      forall z | z in s ensures LexLe(rank(k), rank(z)) {
        if z != x && k == x {
          LexTransitive(rank(x), rank(y), rank(z));
        }
      }
      assert IsLeast(s, rank, k);
    }
  }

  lemma LeastUnique<K(!new)>(s: set<K>, rank: K -> seq<nat>, a: K, b: K)
    requires Ranked(s, rank)
    requires IsLeast(s, rank, a) && IsLeast(s, rank, b)
    ensures a == b
  {
    LexAntisymmetric(rank(a), rank(b));
  }

  /** The first element in iteration order. */
  function Least<K(!new)>(s: set<K>, rank: K -> seq<nat>): (k: K)
    requires s != {} && Ranked(s, rank)
    ensures IsLeast(s, rank, k)
  {
    assert exists k :: IsLeast(s, rank, k) by { LeastExists(s, rank); }
    assert forall a, b | IsLeast(s, rank, a) && IsLeast(s, rank, b) :: a == b by {
      forall a, b | IsLeast(s, rank, a) && IsLeast(s, rank, b) ensures a == b {
        LeastUnique(s, rank, a, b);
      }
    }
    var k :| k in s && IsLeast(s, rank, k);
    k
  }

  ghost predicate Increasing<K>(ks: seq<K>, rank: K -> seq<nat>) {
    forall i, j | 0 <= i < j < |ks| :: LexLt(rank(ks[i]), rank(ks[j]))
  }

  /** All elements of `s`, each once, in increasing rank: what iterating the
      source's ordered collection yields. */
  function SortedBy<K(!new)>(s: set<K>, rank: K -> seq<nat>): (ks: seq<K>)
    requires Ranked(s, rank)
    ensures |ks| == |s|
    ensures forall k :: k in ks <==> k in s
    ensures Increasing(ks, rank)
  {
    if s == {} then []
    else
      var k := Least(s, rank);
      var rest := SortedBy(s - {k}, rank);
      assert forall j | 0 <= j < |rest| :: rest[j] in s - {k};
      [k] + rest
  }

  /** There is only one increasing enumeration of a set. */
  lemma {:induction false} SortedUnique<K(!new)>(a: seq<K>, b: seq<K>, rank: K -> seq<nat>)
    requires Increasing(a, rank) && Increasing(b, rank)
    requires forall k :: k in a <==> k in b
    ensures a == b
    decreases |a|
  {
    if a == [] {
      assert forall i | 0 <= i < |b| :: b[i] in a;
    } else {
      assert a[0] in a;
      var j :| 0 <= j < |b| && b[j] == a[0];
      assert b[0] in b;
      var i :| 0 <= i < |a| && a[i] == b[0];
      assert a[0] == b[0] by {
        if i > 0 && j > 0 {
          LexAntisymmetric(rank(a[0]), rank(b[0]));
        }
      }
      TailsAgree(a, b, rank);
      SortedUnique(a[1..], b[1..], rank);
    }
  }

  lemma TailsAgree<K(!new)>(a: seq<K>, b: seq<K>, rank: K -> seq<nat>)
    requires Increasing(a, rank) && Increasing(b, rank) && a != [] && b != [] && a[0] == b[0]
    requires forall k :: k in a <==> k in b
    ensures forall k :: k in a[1..] <==> k in b[1..]
    ensures Increasing(a[1..], rank) && Increasing(b[1..], rank)
  {
    forall k ensures k in a[1..] <==> k in b[1..] {
      TailOf(a, rank, k);
      TailOf(b, rank, k);
    }
  }

  lemma TailOf<K>(a: seq<K>, rank: K -> seq<nat>, k: K)
    requires Increasing(a, rank) && a != []
    ensures k in a[1..] <==> k in a && k != a[0]
  {
    assert a == [a[0]] + a[1..];
    if k in a[1..] {
      var i :| 0 <= i < |a| - 1 && a[1..][i] == k;
      assert LexLt(rank(a[0]), rank(a[i + 1]));
    }
  }
}
