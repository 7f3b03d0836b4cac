/** Portable snapshots of the key/value state: what they capture, when they can be restored, and
    what a reader can tell afterwards. */
module KvSnapshot {
  import opened Prelude
  import opened Ordering
  import opened KvModel

  datatype LogicalEntry = LogicalEntry(key: Bytes, sequence: nat, value: Bytes, deadline: Option<u64>)

  datatype Logical = Logical(
    entries: seq<LogicalEntry>, storeSequence: nat,
    appliedIndex: u64, appliedTerm: u64, lastLeaderTime: u64)

  datatype Replica = Replica(state: State, appliedIndex: u64, appliedTerm: u64, lastLeaderTime: u64)

  // ------------------------------------------------------------------
  // Capture
  // ------------------------------------------------------------------

  function LiveKeys(s: State, at: u64): set<Bytes> {
    set k | k in s.entries && !Expired(s, k, at)
  }

  function EntryOf(s: State, k: Bytes): LogicalEntry
    requires k in s.entries
  {
    LogicalEntry(k, s.entries[k].sequence, s.entries[k].value, if k in s.ttl then Some(s.ttl[k]) else None)
  }

  /** The live keys in store order. */
  function LiveOrder(s: State, at: u64): (keys: seq<Bytes>)
    ensures forall i | 0 <= i < |keys| :: keys[i] in LiveKeys(s, at)
    ensures forall k :: k in keys <==> k in LiveKeys(s, at)
    ensures Increasing(keys, KeyRank)
  {
    var keys := SortedBy(LiveKeys(s, at), KeyRank);
    assert forall i | 0 <= i < |keys| :: keys[i] in keys;
    keys
  }

  function Capture(r: Replica, at: u64): (snapshot: Logical) {
    var keys := LiveOrder(r.state, at);
    Logical(
      seq(|keys|, i requires 0 <= i < |keys| => EntryOf(r.state, keys[i])),
      r.state.sequence, r.appliedIndex, r.appliedTerm,
      if r.lastLeaderTime >= at then r.lastLeaderTime else at)
  }

  // ------------------------------------------------------------------
  // Restore
  // ------------------------------------------------------------------

  predicate EntryAccepted(e: LogicalEntry, snapshot: Logical, maxKey: nat, maxValue: nat) {
    e.key != [] && |e.key| <= maxKey && |e.value| <= maxValue &&
    0 < e.sequence <= snapshot.storeSequence &&
    (e.deadline.Some? ==> e.deadline.value > snapshot.lastLeaderTime)
  }

  predicate KeysAscend(es: seq<LogicalEntry>) {
    forall i | 0 < i < |es| :: LexLt(es[i - 1].key, es[i].key)
  }

  /** What a snapshot must satisfy to be restored. */
  predicate Acceptable(snapshot: Logical, maxKey: nat, maxValue: nat) {
    (forall i | 0 <= i < |snapshot.entries| :: EntryAccepted(snapshot.entries[i], snapshot, maxKey, maxValue)) &&
    KeysAscend(snapshot.entries) &&
    (snapshot.appliedIndex != 0 ==> snapshot.appliedTerm != 0)
  }

  function ValuesOf(es: seq<LogicalEntry>): map<Bytes, Stored> {
    if es == [] then map[]
    else
      var last := es[|es| - 1];
      ValuesOf(es[..|es| - 1])[last.key := Stored(last.value, last.sequence)]
  }

  function DeadlinesOf(es: seq<LogicalEntry>): map<Bytes, u64> {
    if es == [] then map[]
    else
      var last := es[|es| - 1];
      var rest := DeadlinesOf(es[..|es| - 1]);
      if last.deadline.Some? then rest[last.key := last.deadline.value] else rest
  }

  function Restored(snapshot: Logical, maxKey: nat, maxValue: nat): Replica {
    Replica(
      State(maxKey, maxValue, ValuesOf(snapshot.entries), snapshot.storeSequence, DeadlinesOf(snapshot.entries), map[]),
      snapshot.appliedIndex, snapshot.appliedTerm, snapshot.lastLeaderTime)
  }

  // ------------------------------------------------------------------
  // Entry lists and maps
  // ------------------------------------------------------------------

  ghost predicate Sorted(es: seq<LogicalEntry>) {
    forall i, j | 0 <= i < j < |es| :: LexLt(es[i].key, es[j].key)
  }

  lemma {:induction false} AscendIsSorted(es: seq<LogicalEntry>)
    ensures KeysAscend(es) <==> Sorted(es)
  {
    if KeysAscend(es) {
      forall i, j | 0 <= i < j < |es| ensures LexLt(es[i].key, es[j].key) {
        AscendChain(es, i, j);
      }
    }
  }

  lemma {:induction false} AscendChain(es: seq<LogicalEntry>, i: nat, j: nat)
    requires KeysAscend(es) && i < j < |es|
    ensures LexLt(es[i].key, es[j].key)
    decreases j
  {
    hide LexLe;
    if i + 1 < j {
      AscendChain(es, i, j - 1);
      LexTransitive(es[i].key, es[j - 1].key, es[j].key);
      assert es[i].key != es[j].key by {
        if es[i].key == es[j].key { LexAntisymmetric(es[i].key, es[j - 1].key); }
      }
    }
  }

  predicate Distinct(es: seq<LogicalEntry>) {
    forall i, j | 0 <= i < j < |es| :: es[i].key != es[j].key
  }

  /** The maps have no keys of their own. */
  lemma {:induction false} KeysListed(es: seq<LogicalEntry>)
    ensures forall k | k in ValuesOf(es) :: exists i | 0 <= i < |es| :: es[i].key == k
    ensures forall k | k in DeadlinesOf(es) :: exists i | 0 <= i < |es| :: es[i].key == k && es[i].deadline.Some?
    decreases |es|
  {
    if es != [] {
      var n := |es| - 1;
      var front := es[..n];
      KeysListed(front);
      forall k | k in ValuesOf(es) ensures exists i | 0 <= i < |es| :: es[i].key == k {
        if k == es[n].key {
          assert es[n].key == k;
        } else {
          assert k in ValuesOf(front);
          var i :| 0 <= i < |front| && front[i].key == k;
          assert es[i].key == k;
        }
      }
      forall k | k in DeadlinesOf(es) ensures exists i | 0 <= i < |es| :: es[i].key == k && es[i].deadline.Some? {
        if k == es[n].key && es[n].deadline.Some? {
          assert es[n].key == k;
        } else {
          assert k in DeadlinesOf(front);
          var i :| 0 <= i < |front| && front[i].key == k && front[i].deadline.Some?;
          assert es[i].key == k && es[i].deadline.Some?;
        }
      }
    }
  }

  /** The maps hold exactly what the list says, key by key. */
  lemma {:induction false} MapsAre(es: seq<LogicalEntry>)
    requires Distinct(es)
    ensures forall i | 0 <= i < |es| :: Holds(es, es[i])
    decreases |es|
  {
    if es != [] {
      var n := |es| - 1;
      var front := es[..n];
      MapsAre(front);
      KeysListed(front);
      forall i | 0 <= i < |es| ensures Holds(es, es[i]) {
        if i < n {
          assert Holds(front, front[i]);
        } else {
          assert es[n].key !in DeadlinesOf(front) by {
            assert forall j | 0 <= j < n :: front[j] == es[j];
          }
        }
      }
    }
  }

  ghost predicate Holds(es: seq<LogicalEntry>, e: LogicalEntry) {
    e.key in ValuesOf(es) && ValuesOf(es)[e.key] == Stored(e.value, e.sequence) &&
    (e.deadline.Some? <==> e.key in DeadlinesOf(es)) &&
    (e.deadline.Some? ==> DeadlinesOf(es)[e.key] == e.deadline.value)
  }

  lemma SortedIsDistinct(es: seq<LogicalEntry>)
    requires Sorted(es)
    ensures Distinct(es)
  {
    forall i, j | 0 <= i < j < |es| ensures es[i].key != es[j].key {
      assert LexLt(es[i].key, es[j].key);
    }
  }

  // ------------------------------------------------------------------
  // Restored states are sound, and restoring undoes capturing
  // ------------------------------------------------------------------

  /** A restored state satisfies what every command keeps. */
  lemma RestoredKeepsInvariant(snapshot: Logical, maxKey: nat, maxValue: nat)
    requires Acceptable(snapshot, maxKey, maxValue)
    ensures Invariant(Restored(snapshot, maxKey, maxValue).state)
  {
    hide LexLe, LexLt;
    var es := snapshot.entries;
    AscendIsSorted(es);
    SortedIsDistinct(es);
    MapsAre(es);
    KeysListed(es);
    var s := Restored(snapshot, maxKey, maxValue).state;
    forall k | k in s.entries ensures Admits(s, k, s.entries[k].value) && 0 < s.entries[k].sequence <= s.sequence {
      var i :| 0 <= i < |es| && es[i].key == k;
      assert Holds(es, es[i]) && EntryAccepted(es[i], snapshot, maxKey, maxValue);
    }
    forall k | k in s.ttl ensures k in s.entries {
      var i :| 0 <= i < |es| && es[i].key == k && es[i].deadline.Some?;
      assert Holds(es, es[i]);
    }
  }

  /** No deadline falls between the capture and the last time the replica has seen. */
  ghost predicate NoneLapsing(r: Replica, at: u64) {
    forall k | k in r.state.ttl :: r.state.ttl[k] <= at || r.state.ttl[k] > r.lastLeaderTime
  }

  lemma KeyOfEntry(s: State, k: Bytes)
    requires k in s.entries
    ensures EntryOf(s, k).key == k
  {
  }

  lemma CaptureSorted(r: Replica, at: u64)
    ensures var es := Capture(r, at).entries;
            Sorted(es) &&
            (forall i | 0 <= i < |es| :: es[i].key in LiveKeys(r.state, at) && es[i] == EntryOf(r.state, es[i].key)) &&
            (forall k | k in LiveKeys(r.state, at) :: exists i | 0 <= i < |es| :: es[i].key == k)
  {
    hide LexLe, LexLt, LiveOrder, Expired, EntryOf;
    var keys := LiveOrder(r.state, at);
    var es := Capture(r, at).entries;
    forall i | 0 <= i < |es| ensures es[i] == EntryOf(r.state, keys[i]) && es[i].key == keys[i] {
      KeyOfEntry(r.state, keys[i]);
    }
    forall i, j | 0 <= i < j < |es| ensures LexLt(es[i].key, es[j].key) {
      assert LexLt(KeyRank(keys[i]), KeyRank(keys[j]));
    }
    forall k | k in LiveKeys(r.state, at) ensures exists i | 0 <= i < |es| :: es[i].key == k {
      var i :| 0 <= i < |keys| && keys[i] == k;
      assert es[i].key == k;
    }
  }

  /** A capture can be restored exactly when no live deadline has lapsed since the capture time; in
      particular always at the last time the replica has seen. */
  lemma CaptureRestorable(r: Replica, at: u64)
    requires Invariant(r.state) && (r.appliedIndex != 0 ==> r.appliedTerm != 0)
    ensures Acceptable(Capture(r, at), r.state.maxKey, r.state.maxValue) <==> NoneLapsing(r, at)
    ensures NoneLapsing(r, r.lastLeaderTime)
  {
    hide LexLe, LexLt, LiveOrder, Sorted, KeysAscend;
    var snapshot := Capture(r, at);
    var es := snapshot.entries;
    CaptureSorted(r, at);
    AscendIsSorted(es);
    if NoneLapsing(r, at) {
      forall i | 0 <= i < |es| ensures EntryAccepted(es[i], snapshot, r.state.maxKey, r.state.maxValue) {
        assert es[i] == EntryOf(r.state, es[i].key);
      }
    } else {
      var k :| k in r.state.ttl && at < r.state.ttl[k] <= r.lastLeaderTime;
      assert k in LiveKeys(r.state, at);
      var i :| 0 <= i < |es| && es[i].key == k;
      assert es[i] == EntryOf(r.state, k);
      assert !EntryAccepted(es[i], snapshot, r.state.maxKey, r.state.maxValue);
    }
  }

  /** Restoring a capture gives back every live key with its value, sequence and deadline, and
      nothing else. */
  lemma RestoreOfCapture(r: Replica, at: u64)
    requires Invariant(r.state)
    ensures var s := Restored(Capture(r, at), r.state.maxKey, r.state.maxValue).state;
            s.entries == (map k | k in LiveKeys(r.state, at) :: r.state.entries[k]) &&
            s.ttl == (map k | k in LiveKeys(r.state, at) && k in r.state.ttl :: r.state.ttl[k])
  {
    hide Capture, Sorted, Distinct, Holds, EntryOf, ValuesOf, DeadlinesOf;
    var es := Capture(r, at).entries;
    CaptureSorted(r, at);
    SortedIsDistinct(es);
    MapsAre(es);
    KeysListed(es);
    forall k | k in LiveKeys(r.state, at) ensures Holds(es, EntryOf(r.state, k)) {
      var i :| 0 <= i < |es| && es[i].key == k;
    }
    MapsMatch(r.state, at, es);
  }

  lemma MapsMatch(s: State, at: u64, es: seq<LogicalEntry>)
    requires forall k | k in LiveKeys(s, at) :: Holds(es, EntryOf(s, k))
    requires ValuesOf(es).Keys <= LiveKeys(s, at) && DeadlinesOf(es).Keys <= LiveKeys(s, at)
    ensures ValuesOf(es) == (map k | k in LiveKeys(s, at) :: s.entries[k])
    ensures DeadlinesOf(es) == (map k | k in LiveKeys(s, at) && k in s.ttl :: s.ttl[k])
  {
    hide ValuesOf, DeadlinesOf;
    forall k | k in LiveKeys(s, at)
      ensures k in ValuesOf(es) && ValuesOf(es)[k] == s.entries[k]
      ensures (k in DeadlinesOf(es) <==> k in s.ttl) && (k in s.ttl ==> DeadlinesOf(es)[k] == s.ttl[k])
    {
      assert Holds(es, EntryOf(s, k));
    }
  }

  /** Snapshot and restore at the last leader time change no Get or Ttl answer from then on. */
  lemma RestoreInvisible(r: Replica, k: Bytes, at: u64)
    requires Invariant(r.state) && r.lastLeaderTime <= at
    ensures var s := Restored(Capture(r, r.lastLeaderTime), r.state.maxKey, r.state.maxValue).state;
            VisibleGet(s, k, at) == VisibleGet(r.state, k, at) &&
            TtlSeconds(s, k, at) == TtlSeconds(r.state, k, at)
  {
    hide Restored, Capture;
    RestoreOfCapture(r, r.lastLeaderTime);
  }

  /** Capturing a restored state gives back the snapshot it came from. */
  lemma CaptureOfRestored(snapshot: Logical, maxKey: nat, maxValue: nat)
    requires Acceptable(snapshot, maxKey, maxValue)
    ensures Capture(Restored(snapshot, maxKey, maxValue), snapshot.lastLeaderTime) == snapshot
  {
    hide LexLe, LexLt, LiveOrder, LiveKeys, EntryOf, ValuesOf, DeadlinesOf, KeyRank;
    var r, at, es := Restored(snapshot, maxKey, maxValue), snapshot.lastLeaderTime, snapshot.entries;
    LiveAfterRestore(snapshot, maxKey, maxValue);
    var keys := LiveOrder(r.state, at);
    var mine := seq(|es|, i requires 0 <= i < |es| => es[i].key);
    forall k ensures k in mine <==> k in keys {
      if k in LiveKeys(r.state, at) {
        var i :| 0 <= i < |es| && es[i].key == k;
        assert mine[i] == k;
      }
    }
    assert Increasing(mine, KeyRank);
    SortedUnique(mine, keys, KeyRank);
    assert Capture(r, at).entries == es;
  }

  lemma LiveAfterRestore(snapshot: Logical, maxKey: nat, maxValue: nat)
    requires Acceptable(snapshot, maxKey, maxValue)
    ensures var r, es := Restored(snapshot, maxKey, maxValue), snapshot.entries;
            var live := LiveKeys(r.state, snapshot.lastLeaderTime);
            (forall i | 0 <= i < |es| :: es[i].key in live && EntryOf(r.state, es[i].key) == es[i]) &&
            (forall k | k in live :: exists i | 0 <= i < |es| :: es[i].key == k) &&
            Increasing(seq(|es|, i requires 0 <= i < |es| => es[i].key), KeyRank)
  {
    hide LexLe, LexLt, ValuesOf, DeadlinesOf;
    var es := snapshot.entries;
    AscendIsSorted(es);
    SortedIsDistinct(es);
    MapsAre(es);
    KeysListed(es);
    forall i | 0 <= i < |es| ensures Holds(es, es[i]) && EntryAccepted(es[i], snapshot, maxKey, maxValue) {
    }
  }
}
