/** From a replica through a checkpoint file and back: what readers can tell, and what clients were
    promised. */
module Checkpoint {
  import opened Prelude
  import opened KvModel
  import opened KvSnapshot
  import opened CcsnRecords
  import opened CcsnDecode
  import opened CcsnEncode
  import opened CcsnRoundTrip
  import opened Replication
  import ClusterConfig
  import D = Durability
  import E = ExactlyOnce
  import R = ReplyCodec
  import Sessions

  /** A replica written to a checkpoint file, read back and restored is accepted, and answers every
      Get and Ttl from the checkpoint time on as the original does. */
  lemma CheckpointPreservesReads(admin: (Bytes, Bytes) -> bool, r: Replica, about: Snapshot, maxBytes: nat, k: Bytes, at: u64)
    requires Invariant(r.state) && r.lastLeaderTime <= at
    requires about.kv == Capture(r, r.lastLeaderTime) && Portable(admin, about) && |Encoding(about)| <= maxBytes
    ensures var file := Decode(admin, Encoding(about), about.clusterId, maxBytes);
            file.Some? && Acceptable(file.value.kv, r.state.maxKey, r.state.maxValue) &&
            var after := Restored(file.value.kv, r.state.maxKey, r.state.maxValue).state;
            VisibleGet(after, k, at) == VisibleGet(r.state, k, at) && TtlSeconds(after, k, at) == TtlSeconds(r.state, k, at)
  {
    hide Decode, Encoding, Restored, Acceptable, Invariant, VisibleGet, TtlSeconds, NoneLapsing;
    SnapshotRoundTrip(admin, about, maxBytes);
    AppliedTerm(admin, r, about);
    CaptureRestorable(r, r.lastLeaderTime);
    RestoreInvisible(r, k, at);
  }

  lemma AppliedTerm(admin: (Bytes, Bytes) -> bool, r: Replica, about: Snapshot)
    requires about.kv == Capture(r, r.lastLeaderTime) && Portable(admin, about)
    ensures r.appliedTerm != 0
  {
    hide FileFits, LiveOrder, EntryOf;
  }

  /** A checkpoint of what a node has published. */
  ghost predicate Describes(about: Snapshot, k: Composite) {
    about.kv == Capture(k.kv, k.kv.lastLeaderTime) && about.sessions == k.table
  }

  /** The node reopened from a checkpoint file, with the same store limits. */
  function Reopened(k: Composite, file: Snapshot): Composite {
    Composite(Restored(file.kv, k.kv.state.maxKey, k.kv.state.maxValue), file.sessions)
  }

  /** The checkpoint has a file within the limit. */
  ghost predicate Filed(admin: (Bytes, Bytes) -> bool, about: Snapshot, maxBytes: nat) {
    Portable(admin, about) && |Encoding(about)| <= maxBytes
  }

  ghost predicate ReadsBack(admin: (Bytes, Bytes) -> bool, about: Snapshot, maxBytes: nat) {
    FileFits(about) && Decode(admin, Encoding(about), about.clusterId, maxBytes) == Some(about)
  }

  /** The retry table comes back as it was. */
  lemma TableSurvives(admin: (Bytes, Bytes) -> bool, k: Composite, about: Snapshot, maxBytes: nat)
    requires Describes(about, k) && Filed(admin, about, maxBytes)
    ensures ReadsBack(admin, about, maxBytes) && Reopened(k, about).table == k.table
  {
    hide Decode, Encoding, Restored, Capture, Exportable, FileFits, Recognized;
    SnapshotRoundTrip(admin, about, maxBytes);
  }

  /** Everything up to the checkpoint, and everything after it up to the retry, lies in the window. */
  ghost predicate InWindow<W(!new)>(env: Env<W>, ps: seq<D.Prepared<Composite, W>>, i: nat, qs: seq<D.Prepared<Composite, W>>, j: nat, start: u64)
    requires i <= |ps| && j <= |qs|
  {
    AllInTime(env, ps, i, |ps|, start) && AllInTime(env, qs, 0, j, start)
  }

  ghost predicate Happens<W(!new)>(core: D.Core<Composite, W>, k: Composite, es: seq<D.Event<Composite, W>>) {
    D.Run(core, D.Status(k, [], false), es).Some?
  }

  ghost function Published<W(!new)>(core: D.Core<Composite, W>, k: Composite, es: seq<D.Event<Composite, W>>): Composite
    requires Happens(core, k, es)
  {
    D.Run(core, D.Status(k, [], false), es).value.k
  }

  ghost function Entries<W(!new)>(core: D.Core<Composite, W>, k: Composite, es: seq<D.Event<Composite, W>>): seq<D.Prepared<Composite, W>>
    requires Happens(core, k, es)
  {
    D.Acked(core, D.Status(k, [], false), es)
  }

  lemma EntriesLead<W(!new)>(core: D.Core<Composite, W>, k: Composite, es: seq<D.Event<Composite, W>>)
    requires Happens(core, k, es)
    ensures D.Chain(core, k, Entries(core, k, es)) && Published(core, k, es) == D.Final(k, Entries(core, k, es))
  {
    hide D.Chain, D.Run, D.Acked, D.Shaped;
    D.PublishedIsFold(core, k, es);
  }

  /** The `i`th entry takes effect, and the `j`th entry after the checkpoint asks for it again, in time. */
  ghost predicate AskedTwice<W(!new)>(env: Env<W>, k: Composite, ps: seq<D.Prepared<Composite, W>>, i: nat, qs: seq<D.Prepared<Composite, W>>, j: nat) {
    i < |ps| && j < |qs| && Effective(env.policy, Before(k, ps, i), ps[i].entry, Says(env, ps[i])) &&
    InWindow(env, ps, i, qs, j + 1, Says(env, ps[i]).at) &&
    AsksAgain(Says(env, qs[j]), Says(env, ps[i]).session.value.0, Says(env, ps[i]).session.value.1)
  }

  /** Nothing newer came between, before or after the checkpoint, and it is the same request. */
  ghost predicate StillLatest<W(!new)>(env: Env<W>, ps: seq<D.Prepared<Composite, W>>, i: nat, qs: seq<D.Prepared<Composite, W>>, j: nat)
    requires i < |ps| && j < |qs|
  {
    var m, again := Says(env, ps[i]), Says(env, qs[j]);
    m.Ask? && again.Ask? && m.session.Some? && again.session == m.session && again.command == m.command &&
    NoneSupersedes(env, ps, i + 1, |ps|, m.session.value.0, m.session.value.1) &&
    NoneSupersedes(env, qs, 0, j, m.session.value.0, m.session.value.1)
  }

  /** Asking again leaves the store alone, and the same request gets the reply it got exactly when that
      reads back. */
  ghost predicate RetriedOnce<W(!new)>(env: Env<W>, k: Composite, ps: seq<D.Prepared<Composite, W>>, i: nat,
                                       r: Composite, qs: seq<D.Prepared<Composite, W>>, j: nat)
    requires AskedTwice(env, k, ps, i, qs, j)
  {
    qs[j].k.kv.state == Before(r, qs, j).kv.state &&
    (StillLatest(env, ps, i, qs, j) ==> AnswersAs(env, Before(r, qs, j), qs[j], Given(env, Before(k, ps, i), ps[i])))
  }

  /** Exactly once across a checkpoint.  A request that has taken effect on one node, whose published state
      is then written to a checkpoint file, read back and run on, by any node under the same rules, is not
      run again there before its session can have gone idle: an entry that asks for its sequence or an
      earlier one leaves the store alone, and the same request, if still the latest, is answered with the
      original reply exactly when the reply codec reads that back. */
  lemma ExactlyOnceAcrossCheckpoint<W(!new)>(admin: (Bytes, Bytes) -> bool, core: D.Core<Composite, W>, core': D.Core<Composite, W>, env: Env<W>,
                                             k: Composite, es: seq<D.Event<Composite, W>>, i: nat, about: Snapshot, maxBytes: nat,
                                             es': seq<D.Event<Composite, W>>, j: nat)
    requires Obeys(core, env) && Obeys(core', env) && ClusterConfig.ValidPolicy(env.policy) && Happens(core, k, es)
    requires Describes(about, Published(core, k, es)) && Filed(admin, about, maxBytes)
    requires Happens(core', Reopened(Published(core, k, es), about), es')
    requires AskedTwice(env, k, Entries(core, k, es), i, Entries(core', Reopened(Published(core, k, es), about), es'), j)
    ensures ReadsBack(admin, about, maxBytes)
    ensures var r := Reopened(Published(core, k, es), about);
            RetriedOnce(env, k, Entries(core, k, es), i, r, Entries(core', r, es'), j)
  {
    hide *;
    var published := Published(core, k, es);
    var reopened := Reopened(published, about);
    TableSurvives(admin, published, about, maxBytes);
    EntriesLead(core, k, es);
    EntriesLead(core', reopened, es');
    ReopenedChain(core, core', env, k, Entries(core, k, es), i, published, reopened, Entries(core', reopened, es'), j);
  }

  lemma ReopenedChain<W(!new)>(core: D.Core<Composite, W>, core': D.Core<Composite, W>, env: Env<W>,
                               k: Composite, ps: seq<D.Prepared<Composite, W>>, i: nat, published: Composite,
                               r: Composite, qs: seq<D.Prepared<Composite, W>>, j: nat)
    requires Obeys(core, env) && Obeys(core', env) && ClusterConfig.ValidPolicy(env.policy) && D.Chain(core, k, ps) && D.Chain(core', r, qs)
    requires published == D.Final(k, ps) && r.table == published.table && AskedTwice(env, k, ps, i, qs, j)
    ensures RetriedOnce(env, k, ps, i, r, qs, j)
  {
    hide Obeys, D.Chain, InTime, Supersedes, Asked, AnswersAs, Given, ClusterConfig.ValidPolicy, R.EncodeReply, R.ReplyFits, Runs, RunOn,
         E.Guarded;
    var m, n := Says(env, ps[i]), |ps|;
    var (key, sequence) := m.session.value;
    EffectiveInChain(core, env, k, ps, i);
    var reply := Given(env, Before(k, ps, i), ps[i]);
    StretchKeeps(core, env, k, ps, i + 1, n, key, sequence, m.at);
    assert Before(k, ps, n) == published && Before(r, qs, 0) == r;
    if NoneSupersedes(env, ps, i + 1, n, key, sequence) {
      StillRemembers(ps[i].k.table, published.table, key, sequence, m.command, R.EncodeReply(reply), m.at);
      RememberedInChain(core', env, r, qs, 0, j, key, sequence, m.at, m.command, reply);
    } else {
      SeenInChain(core', env, r, qs, j, key, sequence, m.at);
    }
  }

  /** Without the words, the store is still left alone. */
  lemma SeenInChain<W(!new)>(core: D.Core<Composite, W>, env: Env<W>, k: Composite, ps: seq<D.Prepared<Composite, W>>, j: nat,
                             key: Sessions.Key, sequence: u64, start: u64)
    requires Obeys(core, env) && D.Chain(core, k, ps) && j < |ps| && AllInTime(env, ps, 0, j + 1, start)
    requires Since(k.table, key, sequence, start) && AsksAgain(Says(env, ps[j]), key, sequence)
    ensures ps[j].k.kv.state == Before(k, ps, j).kv.state
  {
    hide Prepare, InTime, Supersedes, Obeys, D.Chain, D.Derives, Since;
    StretchKeeps(core, env, k, ps, 0, j, key, sequence, start);
    ChainAt(core, k, ps, j);
    var w := Applied(core, env, Before(k, ps, j), ps[j]);
    EntryKeeps(env, Before(k, ps, j), w, ps[j].entry, key, sequence, start);
  }
}
