/** The two anomaly labels that certify a history cannot be linearized. */
module Anomalies {
  import opened Prelude
  import opened History
  import opened Effects

  datatype Label = Resurrection | StaleRead

  datatype Anomaly = Anomaly(found: Label, ids: seq<u64>)

  function WrittenValue(op: Operation): Option<Bytes> {
    match (op.kind, op.outcome)
    case (Set(_, v), Ok) => Some(v)
    case (Cas(_, _, v), Swapped(true)) => Some(v)
    case _ => None
  }

  /** The read is one the classifier looks at: a completed strong read that got an answer. */
  predicate ClassifiedRead(r: Operation) {
    r.kind.Get? && r.outcome.Value? && r.complete.Some? && IsStrong(r)
  }

  /** An acknowledged delete precedes a read that still found the key. */
  predicate Resurrects(h: seq<Operation>, d: Operation, r: Operation)
    requires ClassifiedRead(r)
  {
    d.kind == Del(r.kind.key) && d.outcome.Ok? && HappensBefore(d, r) &&
    !Intervening(h, r.kind.key, d.invoke, r.complete.value, d.id) &&
    r.outcome.found.Some?
  }

  predicate KnownBefore(h: seq<Operation>, image: map<Bytes, Bytes>, k: Bytes, v: Bytes, r: Operation) {
    (k in image && image[k] == v) ||
    exists i | 0 <= i < |h| :: WrittenValue(h[i]) == Some(v) && KeyOf(h[i].kind) == k && HappensBefore(h[i], r)
  }

  /** An acknowledged write precedes a read that returned a different, older value. */
  predicate ReadsStale(h: seq<Operation>, image: map<Bytes, Bytes>, w: Operation, r: Operation)
    requires ClassifiedRead(r)
  {
    r.outcome.found.Some? && WrittenValue(w).Some? && KeyOf(w.kind) == r.kind.key &&
    HappensBefore(w, r) && WrittenValue(w) != r.outcome.found &&
    KnownBefore(h, image, r.kind.key, r.outcome.found.value, r) &&
    (w.deadline.None? || r.complete.value < w.deadline.value) &&
    !Intervening(h, r.kind.key, w.invoke, r.complete.value, w.id)
  }

  predicate LabelAt(h: seq<Operation>, image: map<Bytes, Bytes>, i: nat, j: nat, a: Anomaly) {
    i < |h| && j < |h| && ClassifiedRead(h[j]) && a.ids == [h[i].id, h[j].id] &&
    match a.found
    case Resurrection => Resurrects(h, h[i], h[j])
    case StaleRead => ReadsStale(h, image, h[i], h[j])
  }

  /** Every pair of a mutation and a later read, in the order the classifier visits them. */
  method Classify(h: seq<Operation>, image: map<Bytes, Bytes>) returns (labels: seq<Anomaly>)
    ensures forall a :: a in labels <==> exists i, j :: LabelAt(h, image, i, j, a)
  {
    hide Resurrects, ReadsStale;
    labels := [];
    for j := 0 to |h|
      invariant forall a :: a in labels <==> exists i: nat, j': nat :: j' < j && LabelAt(h, image, i, j', a)
    {
      if ClassifiedRead(h[j]) {
        var more := ClassifyRead(h, image, j);
        labels := labels + more;
      }
    }
  }

  method ClassifyRead(h: seq<Operation>, image: map<Bytes, Bytes>, j: nat) returns (labels: seq<Anomaly>)
    requires j < |h| && ClassifiedRead(h[j])
    ensures forall a :: a in labels <==> exists i :: LabelAt(h, image, i, j, a)
  {
    hide Resurrects, ReadsStale;
    labels := [];
    for n := 0 to |h|
      invariant forall a :: a in labels <==> a.found.Resurrection? && exists i: nat :: i < n && LabelAt(h, image, i, j, a)
    {
      if Resurrects(h, h[n], h[j]) {
        assert LabelAt(h, image, n, j, Anomaly(Resurrection, [h[n].id, h[j].id]));
        labels := labels + [Anomaly(Resurrection, [h[n].id, h[j].id])];
      }
    }
    for n := 0 to |h|
      invariant forall a :: a in labels <==>
        if a.found.Resurrection? then exists i :: LabelAt(h, image, i, j, a)
        else exists i: nat :: i < n && LabelAt(h, image, i, j, a)
    {
      if ReadsStale(h, image, h[n], h[j]) {
        assert LabelAt(h, image, n, j, Anomaly(StaleRead, [h[n].id, h[j].id]));
        labels := labels + [Anomaly(StaleRead, [h[n].id, h[j].id])];
      }
    }
  }

  /** Soundness: a label naming a strong mutation refutes the strong part of the history from
      every initial state, deadlines included. */
  lemma LabelsRefute(h: seq<Operation>, image: map<Bytes, Bytes>, i: nat, j: nat, a: Anomaly, m: Model)
    requires DistinctIds(h) && LabelAt(h, image, i, j, a) && IsStrong(h[i])
    ensures !Linearizable(StrongPart(h), m)
  {
    hide Intervening, Linearizable;
    if Linearizable(StrongPart(h), m) {
      LinearizableReadObserves(h, m, h[i], h[j]);
    }
  }

  // ------------------------------------------------------------------
  // Nothing is passed over
  // ------------------------------------------------------------------

  /** The key was deleted, nothing may have changed it since, and the read found it. */
  ghost predicate FoundAfterDelete(h: seq<Operation>, d: Operation, r: Operation) {
    ClassifiedRead(r) && d.kind == Del(r.kind.key) && d.outcome.Ok? && HappensBefore(d, r) &&
    Undisturbed(h, r.kind.key, d, r) && r.outcome.found.Some?
  }

  /** The key was written, nothing may have changed it since, the write had not expired, and the read
      found another value, one the key is known to have held before. */
  ghost predicate FoundOlder(h: seq<Operation>, image: map<Bytes, Bytes>, w: Operation, r: Operation) {
    ClassifiedRead(r) && r.outcome.found.Some? && Wrote(w, r.kind.key) && HappensBefore(w, r) &&
    Undisturbed(h, r.kind.key, w, r) && (w.deadline.None? || r.complete.value < w.deadline.value) &&
    w.kind.value != r.outcome.found.value &&
    ((r.kind.key in image && image[r.kind.key] == r.outcome.found.value) ||
     exists x :: x in h && Wrote(x, r.kind.key) && x.kind.value == r.outcome.found.value && HappensBefore(x, r))
  }

  predicate Wrote(w: Operation, k: Bytes) {
    (w.kind.Set? && w.kind.key == k && w.outcome.Ok?) || (w.kind.Cas? && w.kind.key == k && w.outcome == Swapped(true))
  }

  ghost predicate Labelled(h: seq<Operation>, image: map<Bytes, Bytes>, a: Anomaly) {
    exists i, j :: LabelAt(h, image, i, j, a)
  }

  /** The labels on a pair of operations are exactly the two facts about it. */
  lemma LabelsExact(h: seq<Operation>, image: map<Bytes, Bytes>, w: Operation, r: Operation)
    requires DistinctIds(h) && w in h && r in h
    ensures Labelled(h, image, Anomaly(Resurrection, [w.id, r.id])) <==> FoundAfterDelete(h, w, r)
    ensures Labelled(h, image, Anomaly(StaleRead, [w.id, r.id])) <==> FoundOlder(h, image, w, r)
  {
    hide Intervening, Undisturbed, Resurrects, ReadsStale, FoundAfterDelete, FoundOlder;
    var p :| 0 <= p < |h| && h[p] == w;
    var q :| 0 <= q < |h| && h[q] == r;
    if ClassifiedRead(r) {
      PairExact(h, image, w, r);
      assert Resurrects(h, w, r) ==> LabelAt(h, image, p, q, Anomaly(Resurrection, [w.id, r.id]));
      assert ReadsStale(h, image, w, r) ==> LabelAt(h, image, p, q, Anomaly(StaleRead, [w.id, r.id]));
    } else {
      NotClassified(h, image, w, r);
    }
    forall i, j, a | LabelAt(h, image, i, j, a) && a.ids == [w.id, r.id] ensures i == p && j == q {
    }
  }

  lemma NotClassified(h: seq<Operation>, image: map<Bytes, Bytes>, w: Operation, r: Operation)
    requires !ClassifiedRead(r)
    ensures !FoundAfterDelete(h, w, r) && !FoundOlder(h, image, w, r)
  {
  }

  lemma PairExact(h: seq<Operation>, image: map<Bytes, Bytes>, w: Operation, r: Operation)
    requires ClassifiedRead(r)
    ensures Resurrects(h, w, r) <==> FoundAfterDelete(h, w, r)
    ensures ReadsStale(h, image, w, r) <==> FoundOlder(h, image, w, r)
  {
    hide Intervening, Undisturbed;
    NothingBetween(h, r.kind.key, w, r);
    if r.outcome.found.Some? {
      KnownExact(h, image, r.kind.key, r.outcome.found.value, r);
    }
  }

  lemma KnownExact(h: seq<Operation>, image: map<Bytes, Bytes>, k: Bytes, v: Bytes, r: Operation)
    ensures KnownBefore(h, image, k, v, r) <==>
            (k in image && image[k] == v) || exists x :: x in h && Wrote(x, k) && x.kind.value == v && HappensBefore(x, r)
  {
    forall i | 0 <= i < |h| ensures WrittenValue(h[i]) == Some(v) && KeyOf(h[i].kind) == k <==> Wrote(h[i], k) && h[i].kind.value == v {
    }
    if exists x :: x in h && Wrote(x, k) && x.kind.value == v && HappensBefore(x, r) {
      var x :| x in h && Wrote(x, k) && x.kind.value == v && HappensBefore(x, r);
      var i :| 0 <= i < |h| && h[i] == x;
      assert WrittenValue(h[i]) == Some(v);
    }
    if exists i | 0 <= i < |h| :: WrittenValue(h[i]) == Some(v) && KeyOf(h[i].kind) == k && HappensBefore(h[i], r) {
      var i :| 0 <= i < |h| && WrittenValue(h[i]) == Some(v) && KeyOf(h[i].kind) == k && HappensBefore(h[i], r);
      assert h[i] in h;
    }
  }
}
