/** Exactly-once retries: while a session is not idle, a request that has run is never run again,
    and repeating the latest one returns what it returned. */
module ExactlyOnce {
  import opened Prelude
  import opened Ordering
  import opened Codec
  import opened KvCodec
  import opened ReplyCodec
  import opened ClusterConfig
  import opened Sessions
  import KvModel

  /** The key has a live record that has seen `sequence`. */
  ghost predicate Guarded(t: Table, key: Key, sequence: u64) {
    key in t.records && key !in t.tombstones && sequence <= t.records[key].maxSequence
  }

  ghost predicate Remembers(t: Table, key: Key, sequence: u64, command: Bytes, reply: Bytes) {
    Guarded(t, key, sequence) &&
    var r := t.records[key]; r.maxSequence == sequence && r.command == command && r.reply == reply
  }

  /** A request after the key's activity has not lapsed. */
  ghost predicate Prompt(p: Policy, t: Table, key: Key, at: u64) {
    key in t.records ==> at < IdleDeadline(p, t.records[key])
  }

  /** Asks for a sequence of this key beyond `sequence`. */
  predicate Newer(q: Request, key: Key, sequence: u64) {
    !q.Expire? && q.key == key && q.sequence > sequence
  }

  predicate Repeats(q: Request, key: Key, sequence: u64) {
    q.User? && q.key == key && 0 < q.sequence <= sequence
  }

  ghost predicate Ran(p: Policy, t: Table, q: Request)
    requires q.User? && Encodes(q)
  {
    ApplyUser(p, t, q.key, q.sequence, q.command, q.at, q.answer).ran
  }

  // ------------------------------------------------------------------
  // One request
  // ------------------------------------------------------------------

  /** What a request may do to another key's record, or to this key's: keep it, refresh its
      activity, or replace it by a newer one. */
  ghost predicate Preserves(before: Table, after: Table, key: Key, q: Request)
    requires key in before.records
  {
    key in after.records && key !in after.tombstones &&
    var r, s := before.records[key], after.records[key];
    (s.lastActive == r.lastActive || s.lastActive == q.at) &&
    (s == r.(lastActive := s.lastActive) || (Newer(q, key, r.maxSequence) && s.maxSequence == q.sequence))
  }

  lemma UserPreserves(p: Policy, rules: AdminRules, t: Table, q: Request, key: Key)
    requires Encodes(q) && q.User? && Guarded(t, key, 0) && Prompt(p, t, key, q.at)
    ensures Preserves(t, Next(p, rules, t, q), key, q)
    ensures Repeats(q, key, t.records[key].maxSequence) ==> !Ran(p, t, q)
  {
    hide EncodeReply, ReplyFits, Sum, DecodeReply;
  }

  lemma AdminPreserves(p: Policy, rules: AdminRules, t: Table, q: Request, key: Key)
    requires q.Admin? && Guarded(t, key, 0) && Prompt(p, t, key, q.at)
    ensures Preserves(t, Next(p, rules, t, q), key, q)
  {
    hide Sum;
  }

  lemma {:induction false} RetireOthers(p: Policy, t: Table, ds: seq<Deadline>, upTo: u64, key: Key)
    requires forall i | 0 <= i < |ds| :: ds[i].key != key
    ensures var after := RetireAll(p, t, ds, upTo);
            (key in after.records <==> key in t.records) && (key in after.tombstones <==> key in t.tombstones) &&
            (key in t.records ==> after.records[key] == t.records[key]) &&
            (key in t.tombstones ==> after.tombstones[key] == t.tombstones[key])
    decreases |ds|
  {
    if ds != [] {
      RetireOthers(p, t, ds[..|ds| - 1], upTo, key);
    }
  }

  lemma ChosenAreDue(p: Policy, t: Table, upTo: u64, maxItems: nat, pinned: Option<Key>)
    ensures forall d | d in Chosen(p, t, upTo, maxItems, pinned) :: d in Due(p, t, upTo, pinned)
  {
    hide Due;
    DeadlinesRanked(Due(p, t, upTo, pinned));
    var due := SortedBy(Due(p, t, upTo, pinned), DeadlineRank);
    forall d | d in Chosen(p, t, upTo, maxItems, pinned) ensures d in due {
    }
  }

  lemma ExpirePreserves(p: Policy, rules: AdminRules, t: Table, q: Request, key: Key)
    requires q.Expire? && Guarded(t, key, 0) && Prompt(p, t, key, q.at)
    ensures Preserves(t, Next(p, rules, t, q), key, q)
  {
    hide Chosen;
    ChosenAreDue(p, t, q.at, q.maxItems, q.pinned);
    var ds := Chosen(p, t, q.at, q.maxItems, q.pinned);
    forall i | 0 <= i < |ds| ensures ds[i].key != key {
      assert ds[i] in Due(p, t, q.at, q.pinned);
    }
    RetireOthers(p, t, ds, q.at, key);
  }

  lemma NextPreserves(p: Policy, rules: AdminRules, t: Table, q: Request, key: Key)
    requires Encodes(q) && Guarded(t, key, 0) && Prompt(p, t, key, q.at)
    ensures Preserves(t, Next(p, rules, t, q), key, q)
    ensures q.User? && Repeats(q, key, t.records[key].maxSequence) ==> !Ran(p, t, q)
  {
    hide Preserves, Next, Encodes, Ran;
    match q
    case User(_, _, _, _, _) => UserPreserves(p, rules, t, q, key);
    case Admin(_, _, _, _, _) => AdminPreserves(p, rules, t, q, key);
    case Expire(_, _, _) => ExpirePreserves(p, rules, t, q, key);
  }

  // ------------------------------------------------------------------
  // Runs
  // ------------------------------------------------------------------

  ghost predicate AllEncode(qs: seq<Request>) {
    forall i | 0 <= i < |qs| :: Encodes(qs[i])
  }

  ghost predicate PromptAt(p: Policy, rules: AdminRules, t: Table, key: Key, qs: seq<Request>, i: nat)
    requires i < |qs| && AllEncode(qs)
  {
    Prompt(p, After(p, rules, t, qs[..i]), key, qs[i].at)
  }

  /** Every request of the run comes before the key's idle deadline as it then stands. */
  ghost predicate AlwaysPrompt(p: Policy, rules: AdminRules, t: Table, key: Key, qs: seq<Request>)
    requires AllEncode(qs)
  {
    forall i | 0 <= i < |qs| :: PromptAt(p, rules, t, key, qs, i)
  }

  /** The record of a guarded key survives any prompt run, and its sequence never goes back. */
  lemma {:induction false} GuardSurvives(p: Policy, rules: AdminRules, t: Table, key: Key, sequence: u64, qs: seq<Request>)
    requires AllEncode(qs) && Guarded(t, key, sequence) && AlwaysPrompt(p, rules, t, key, qs)
    ensures Guarded(After(p, rules, t, qs), key, sequence)
    decreases |qs|
  {
    hide Next, Encodes;
    if qs != [] {
      var n := |qs| - 1;
      var front := qs[..n];
      assert forall i | 0 <= i < n :: front[..i] == qs[..i];
      assert forall i | 0 <= i < n :: PromptAt(p, rules, t, key, qs, i) ==> PromptAt(p, rules, t, key, front, i);
      GuardSurvives(p, rules, t, key, sequence, front);
      assert PromptAt(p, rules, t, key, qs, n);
      NextPreserves(p, rules, After(p, rules, t, front), qs[n], key);
    }
  }

  /** No request of a prompt run whose sequence the key has already seen runs its mutation. */
  lemma NeverRunsAgain(p: Policy, rules: AdminRules, t: Table, key: Key, sequence: u64, qs: seq<Request>, i: nat)
    requires AllEncode(qs) && Guarded(t, key, sequence) && AlwaysPrompt(p, rules, t, key, qs)
    requires i < |qs| && Repeats(qs[i], key, sequence)
    ensures Encodes(qs[i]) && !Ran(p, After(p, rules, t, qs[..i]), qs[i])
  {
    hide Next, Encodes, Ran;
    var front := qs[..i];
    assert forall k | 0 <= k < i :: front[..k] == qs[..k];
    assert forall k | 0 <= k < i :: PromptAt(p, rules, t, key, qs, k) ==> PromptAt(p, rules, t, key, front, k);
    GuardSurvives(p, rules, t, key, sequence, front);
    assert PromptAt(p, rules, t, key, qs, i);
    NextPreserves(p, rules, After(p, rules, t, front), qs[i], key);
  }

  /** The latest request stays remembered, word for word, until a newer one arrives. */
  lemma {:induction false} MemorySurvives(p: Policy, rules: AdminRules, t: Table, key: Key, sequence: u64,
                                          command: Bytes, reply: Bytes, qs: seq<Request>)
    requires AllEncode(qs) && Remembers(t, key, sequence, command, reply) && AlwaysPrompt(p, rules, t, key, qs)
    requires forall i | 0 <= i < |qs| :: !Newer(qs[i], key, sequence)
    ensures Remembers(After(p, rules, t, qs), key, sequence, command, reply)
    decreases |qs|
  {
    hide Next, Encodes;
    if qs != [] {
      var n := |qs| - 1;
      var front := qs[..n];
      assert forall i | 0 <= i < n :: front[..i] == qs[..i];
      assert forall i | 0 <= i < n :: PromptAt(p, rules, t, key, qs, i) ==> PromptAt(p, rules, t, key, front, i);
      MemorySurvives(p, rules, t, key, sequence, command, reply, front);
      assert PromptAt(p, rules, t, key, qs, n);
      NextPreserves(p, rules, After(p, rules, t, front), qs[n], key);
    }
  }

  // ------------------------------------------------------------------
  // From running to remembering
  // ------------------------------------------------------------------

  /** A mutation that ran is recorded exactly when command and encoded reply fit beside the other
      sessions; a reply within the policy's reply limit always does. */
  lemma RanIsRemembered(p: Policy, rules: AdminRules, t: Table, q: Request)
    requires Encodes(q) && q.User? && q.sequence != 0 && Ran(p, t, q) && p.maxSessionBytes < U64_MAX
    ensures Remembers(Next(p, rules, t, q), q.key, q.sequence, q.command, EncodeReply(q.answer)) <==>
            Recordable(p, t, q)
    ensures |EncodeReply(q.answer)| <= p.maxReplyBytes ==>
            Remembers(Next(p, rules, t, q), q.key, q.sequence, q.command, EncodeReply(q.answer)) &&
            Next(p, rules, t, q).records[q.key].lastActive == q.at
  {
    hide EncodeReply, ReplyFits, Sum, DecodeReply;
  }

  ghost predicate Recordable(p: Policy, t: Table, q: Request)
    requires Encodes(q) && q.User?
  {
    SatSub(Encoded(t.records), Existing(t.records, q.key)) + |q.command| + |EncodeReply(q.answer)| <= p.maxSessionBytes
  }

  /** Asking again at once, whatever the mutation would then answer, runs it a second time exactly when
      the first run could not be recorded. */
  lemma RunsTwiceIff(p: Policy, rules: AdminRules, t: Table, q: Request, answer: Reply)
    requires Encodes(q) && q.User? && q.sequence != 0 && Ran(p, t, q) && p.maxSessionBytes < U64_MAX && ReplyFits(answer)
    ensures Ran(p, Next(p, rules, t, q), q.(answer := answer)) <==> !Recordable(p, t, q)
  {
    hide EncodeReply, ReplyFits, Sum, DecodeReply;
    var swept := Sweep(t.tombstones, q.at);
    assert Sweep(swept, q.at) == swept;
  }

  /** What a request is answered. */
  ghost function ReplyTo(p: Policy, t: Table, q: Request): Reply
    requires Encodes(q) && q.User?
  {
    ApplyUser(p, t, q.key, q.sequence, q.command, q.at, q.answer).reply
  }

  function LimitsOf(p: Policy): KvModel.Limits {
    KvModel.Limits(p.maxBatchCommands, p.maxBatchBytes, p.maxBatchReplyBytes, p.maxKeysPerExpirySweep)
  }

  function NarrowPolicy(): Policy {
    Policy(1, 1, 30, 40, 30, 20, 1, 1, 1, 40, 1, 1, 1, 1, 1, 1, 1, 1)
  }

  function LongValue(): Bytes {
    seq(30, _ => 0)
  }

  function Holding(): KvModel.State {
    KvModel.State(1, 30, map[[1] := KvModel.Stored(LongValue(), 1)], 1, map[], map[])
  }

  lemma CollectLengths()
    ensures Fits(GetDel([1])) && |EncodeCommand(GetDel([1]))| == 12
    ensures ReplyFits(Value(Some(LongValue()))) && |EncodeReply(Value(Some(LongValue())))| == 46
  {
    hide PutBytes, PutU16, PutU32, Seal;
  }

  /** The machine, asked twice: it hands the value out once and has nothing the second time. */
  lemma CollectedOnce(limits: KvModel.Limits)
    ensures KvModel.Invariant(Holding()) && [1] in Holding().entries
    ensures var (emptied, o) := KvModel.ApplyCommand(Holding(), GetDel([1]), 0, limits);
            o == KvModel.Done(Value(Some(LongValue()))) && [1] !in emptied.entries &&
            KvModel.ApplyCommand(emptied, GetDel([1]), 0, limits).1 == KvModel.Done(Value(None))
  {
    hide KvModel.ApplyBatch;
  }

  /** The table, asked twice: the first reply does not fit, so the second request runs again. */
  lemma AskedTwice(rules: AdminRules, q: Request)
    requires q.User? && q.sequence != 0 && |q.command| == 12 && Encodes(q) && |EncodeReply(q.answer)| == 46
    requires ReplyFits(Value(None)) && |EncodeReply(Value(None))| == 12
    ensures Ran(NarrowPolicy(), EMPTY, q) && ReplyTo(NarrowPolicy(), EMPTY, q) == Error(Busy)
    ensures var t, again := Next(NarrowPolicy(), rules, EMPTY, q), q.(answer := Value(None));
            Encodes(again) && Ran(NarrowPolicy(), t, again) && ReplyTo(NarrowPolicy(), t, again) == Value(None)
  {
    hide EncodeReply, ReplyFits, DecodeReply;
    assert Sum(map[]) == 0;
    assert Sweep(map[], q.at) == map[];
    assert Next(NarrowPolicy(), rules, EMPTY, q) == EMPTY;
  }

  /** Such a request exists under a valid policy whose replies may be shorter than its values.  A
      get-and-delete of a long value deletes it and is answered busy; asking again runs it again, on a
      store that no longer has the value, and answers that there was none. */
  lemma OversizedReplyRunsTwice(rules: AdminRules) returns (p: Policy, s: KvModel.State, q: Request)
    ensures ValidPolicy(p) && p.maxReplyBytes < p.maxValueBytes && KvModel.Invariant(s)
    ensures s.maxKey == p.maxKeyBytes && s.maxValue == p.maxValueBytes
    ensures Encodes(q) && q.User? && q.sequence != 0 && |q.command| <= p.maxCommandBytes
    ensures DecodeCommand(q.command) == Some(GetDel([1]))
    ensures KvModel.ApplyCommand(s, GetDel([1]), q.at, LimitsOf(p)).1 == KvModel.Done(q.answer) && q.answer.Value? && q.answer.found.Some?
    ensures |EncodeReply(q.answer)| > p.maxReplyBytes && Ran(p, EMPTY, q) && ReplyTo(p, EMPTY, q) == Error(Busy)
    ensures var emptied := KvModel.ApplyCommand(s, GetDel([1]), q.at, LimitsOf(p)).0;
            var again := q.(answer := Value(None));
            [1] in s.entries && [1] !in emptied.entries &&
            KvModel.ApplyCommand(emptied, GetDel([1]), q.at, LimitsOf(p)).1 == KvModel.Done(again.answer) &&
            Encodes(again) && Ran(p, Next(p, rules, EMPTY, q), again) && ReplyTo(p, Next(p, rules, EMPTY, q), again) == Value(None)
  {
    hide EncodeReply, ReplyFits, DecodeReply, EncodeCommand, DecodeCommand, Fits, LongValue, Next, Ran, ReplyTo, KvModel.ApplyCommand,
         KvModel.Invariant;
    p, s := NarrowPolicy(), Holding();
    CollectLengths();
    CommandRoundTrip(GetDel([1]));
    ShortReply();
    q := User(Key(0, 1), 1, EncodeCommand(GetDel([1])), 0, Value(Some(LongValue())));
    CollectedOnce(LimitsOf(p));
    AskedTwice(rules, q);
  }

  lemma ShortReply()
    ensures ReplyFits(Value(None)) && |EncodeReply(Value(None))| == 12
  {
    hide PutU16, PutU32, Seal;
  }

  /** Times never go back, and none reaches the idle deadline set at `start`. */
  ghost predicate InWindow(p: Policy, start: u64, qs: seq<Request>) {
    (forall i | 0 <= i < |qs| :: start <= qs[i].at < SatAdd(start, p.sessionIdle)) &&
    (forall i, j | 0 <= i <= j < |qs| :: qs[i].at <= qs[j].at)
  }

  /** Within the window every request is prompt, because activity only moves forward. */
  lemma {:induction false} WindowIsPrompt(p: Policy, rules: AdminRules, t: Table, key: Key, start: u64, qs: seq<Request>)
    requires AllEncode(qs) && InWindow(p, start, qs)
    requires Guarded(t, key, 0) && t.records[key].lastActive >= start
    ensures AlwaysPrompt(p, rules, t, key, qs)
    ensures var after := After(p, rules, t, qs); Guarded(after, key, 0) && after.records[key].lastActive >= start
    decreases |qs|
  {
    hide Next, Encodes;
    if qs != [] {
      var n := |qs| - 1;
      var front := qs[..n];
      WindowIsPrompt(p, rules, t, key, start, front);
      assert forall i | 0 <= i < n :: front[..i] == qs[..i];
      assert forall i | 0 <= i < n :: PromptAt(p, rules, t, key, front, i) ==> PromptAt(p, rules, t, key, qs, i);
      assert PromptAt(p, rules, t, key, qs, n);
      NextPreserves(p, rules, After(p, rules, t, front), qs[n], key);
    }
  }

  /** Exactly once.  A user request that ran with a reply within the limit is never run again, nor
      is any earlier sequence of its key, by any request before the session has been idle for the
      policy's time; and an identical retry of the latest sequence gets the original reply exactly when
      that is one the reply codec reads back. */
  lemma ExactlyOnceTheorem(p: Policy, rules: AdminRules, t: Table, first: Request, qs: seq<Request>, i: nat)
    requires Encodes(first) && first.User? && first.sequence != 0 && Ran(p, t, first)
    requires |EncodeReply(first.answer)| <= p.maxReplyBytes && p.maxSessionBytes < U64_MAX
    requires AllEncode(qs) && InWindow(p, first.at, qs)
    requires i < |qs| && Repeats(qs[i], first.key, first.sequence)
    ensures Encodes(qs[i])
    ensures var now := After(p, rules, Next(p, rules, t, first), qs[..i]);
            !Ran(p, now, qs[i]) &&
            (qs[i].sequence == first.sequence && qs[i].command == first.command &&
             (forall k | 0 <= k < i :: !Newer(qs[k], first.key, first.sequence)) ==>
               (ReplyTo(p, now, qs[i]) == first.answer <==> Cacheable(first.answer)))
  {
    hide Next, Ran, After, ReplyTo, EncodeReply, Cacheable, DecodeReply, ReplyFits;
    RanIsRemembered(p, rules, t, first);
    var next := Next(p, rules, t, first);
    WindowIsPrompt(p, rules, next, first.key, first.at, qs);
    NeverRunsAgain(p, rules, next, first.key, first.sequence, qs, i);
    var front := qs[..i];
    assert forall k | 0 <= k < i :: front[..k] == qs[..k];
    assert forall k | 0 <= k < i :: PromptAt(p, rules, next, first.key, qs, k) ==> PromptAt(p, rules, next, first.key, front, k);
    if qs[i].sequence == first.sequence && qs[i].command == first.command &&
       (forall k | 0 <= k < i :: !Newer(qs[k], first.key, first.sequence)) {
      MemorySurvives(p, rules, next, first.key, first.sequence, first.command, EncodeReply(first.answer), front);
      assert PromptAt(p, rules, next, first.key, qs, i);
      RetryAnswers(p, After(p, rules, next, front), qs[i], first);
    }
  }

  /** A remembered request is answered from its recorded bytes, which give the original reply back
      exactly when that reply is one the codec reads back. */
  lemma RetryAnswers(p: Policy, t: Table, q: Request, first: Request)
    requires Encodes(q) && q.User? && first.User? && Encodes(first)
    requires q.key == first.key && q.sequence == first.sequence && q.command == first.command && q.sequence != 0
    requires Remembers(t, q.key, q.sequence, q.command, EncodeReply(first.answer)) && Prompt(p, t, q.key, q.at)
    ensures ReplyTo(p, t, q) == first.answer <==> Cacheable(first.answer)
  {
    hide EncodeReply, DecodeReply, ReplyFits, Sum, Cacheable, Admit, CachedReply;
    CachedIff(first.answer);
  }

  lemma CachedIff(answer: Reply)
    requires ReplyFits(answer)
    ensures CachedReply(EncodeReply(answer)) == answer <==> Cacheable(answer)
  {
    hide EncodeReply, DecodeReply, ReplyFits, Cacheable;
    ReadsBackIff(answer);
    RefusalIsCacheable();
  }

  lemma RefusalIsCacheable()
    ensures Cacheable(Error(InvalidInput))
  {
    hide EncodeReply;
  }
}
