# Verified model of the crash-course replicated store

A Dafny model of the parts of the system that decide whether a run was correct and whether state survives:
the linearizability checker and the reports around it, the durable Raft log, the key/value state machine, the
replicated retry table, the node's persistence barriers, the CCSN checkpoint format, and the bounded model
explorer. `dafny verify dfyconfig.toml` checks the whole project.

How it is organised:

- `Prelude`, `Ordering`, `Crc`, `Codec`, `Decimal`, `ClusterConfig`: shared vocabulary. Encoders put a field in
  front of what follows and promise the round trip through their decoder; ordered maps and sets are plain maps and
  sets enumerated by `Ordering.SortedBy`.
- `History`, `Search`, `Locality`, `Checker`: histories, what a linearization is, and the memoised budgeted search
  with its per-key partition. `Witness` is the minimiser; `Effects`, `Guarantees` and `Anomalies` are the session and
  anomaly reports and their agreement with linearizability; `SessionReports` says in real time which findings there are.
- `RaftLog`, `LogHistory`, `LogStream`: semantic log records and compaction, what a log holds in terms of its history,
  and recovery of a torn byte stream.
- `KvCodec`, `ReplyCodec`, `KvModel`, `Kv`, `KvSnapshot`: command and reply codecs, the state machine as functions on
  values, the object with a deadline index that refines it, and portable snapshots. `KvMeaning` gives every command by
  the answers `Get` gives afterwards.
- `Expiry`: which commands bring a lapsed value back. `Conformance`, `HonestRuns`: the checker's sequential model against
  the machine's own behaviour, request by request and over whole runs.
- `Sessions`, `ExactlyOnce`, `RetryTable`: the retry table as functions, its run-level guarantees, and the object.
  `SessionMemory` follows a session past the idle time: how long it is remembered, and what ends it.
- `Durability`, `Node`: the barrier protocol over events with its theorems, and the node object that follows it.
  `Replication` says what a committed entry does to machine and table together, and lifts exactly-once and reads to
  node runs; `CountedOnce` is such a run. `Ledger` takes published state apart into a run of the machine and a run of
  the table.
- `CcsnRecords`, `CcsnDecode`, `CcsnStream`, `CcsnEncode`, `CcsnRoundTrip`, `CcsnNormal`, `MembershipForm`,
  `CcsnCanonical`, `CcsnWriter`: checkpoint records, the two decoders, the encoder's file, what any accepted file stands
  for, which accepted files are the encoder's, and the two writers. `Checkpoint` follows a node through the file and back.
- `Explorer`, `RaftModel`, `Schedules`: breadth-first exploration up to fingerprint, the three-node model it runs, and
  the schedules and safety demands it thereby decides, defined without it.

Objects that the program updates in place are classes whose methods are proved against functions on values; the
theorems are about those functions. Clocks, the disk, the network and the consensus node are parameters.

Where the code does less than its documentation promises or than a reader would expect, the model follows the code, says
exactly when, and gives an input:

- A retried request whose mutation ran but whose reply was too large to cache runs again
  (`ExactlyOnce.RunsTwiceIff`, `OversizedReplyRunsTwice`).
- A session is forgotten before its grace is over when a sweep finds the tombstones full, and its requests then run
  again (`SessionMemory.OnceThroughGrace`, `ForgottenRunsAgain`).
- The session cross-check also reports sequence regressions that linearizability says nothing about
  (`Guarantees.CrossCheckExact`, `AcceptedYetReported`).
- The checker's model takes a set's deadline as recorded, gives up a deadline on an increment, which the machine keeps,
  and ignores deadlines in comparisons, batches and scans (`Conformance.ServedExact`; `HonestRuns.SlowSetIsRejected`,
  `IncrementedCounterIsRejected`, `LapsedCompareIsRejected`).
- Persisting a key, or get-and-deleting it, brings a lapsed value back (`Expiry.ReturnsIff`, `LapsedValueReturns`).
- A checkpoint file need not be the one the encoder writes (`CcsnCanonical.CanonicalIff`, `MembershipMayBeOlder`,
  `TransferMayFollowKey`).
- The log takes a second vote in one term once the first has been taken back (`RaftLog.TermsAndVotes`,
  `VoteTakenBack`).
- The log encoder takes appends that recovery then refuses as corruption (`LogStream.GivenBackIff`,
  `LargestAppendIsRefused`).

## Model

| member | source | states |
|---|---|---|
| Search.ExploreSound | crates/cc-checker/src/lib.rs:1082-1192 | whatever the memo and the budget already hold, a found order is a linearization of the remaining operations: a permutation that respects real time, keeps or drops each timed-out operation, and replays to every observed outcome |
| Search.ExploreComplete | crates/cc-checker/src/lib.rs:1082-1192 | with a memo that holds only failed states, "not found" means that no linearization exists, "undecided" arises only past the budget, and the memo stays sound |
| Checker.SearchNode | crates/cc-checker/src/lib.rs:1082-1168 | the recursive search with threaded counter, memo and path gives the answer of the functional search and leaves the witness ids on the path |
| Checker.TryCandidate | crates/cc-checker/src/lib.rs:1109-1161 | one candidate: a timed-out operation is first dropped, then applied; the path is restored unless a linearization was found |
| Checker.CheckSingle | crates/cc-checker/src/lib.rs:1046-1080 | the verdict on a history searched as a whole |
| Checker.CheckKeys | crates/cc-checker/src/lib.rs:1012-1041 | the verdict key by key, stopping at the first rejected key and remembering an undecided one |
| Checker.CheckRaw | crates/cc-checker/src/lib.rs:982-1044 | the verdict on the strong operations, split by key unless an operation spans keys |
| Checker.SingleVerdictExact | crates/cc-checker/src/lib.rs:1046-1192 | accepted implies linearizable, rejected implies not linearizable, unknown implies the budget was passed |
| Checker.KeywiseVerdictExact | crates/cc-checker/src/lib.rs:1012-1041 | accepted implies every key linearizable, rejected implies some key is not, unknown implies the budget was passed |
| Checker.RawVerdictExact | crates/cc-checker/src/lib.rs:982-1192 | the raw verdict is exact for the whole strong history; acceptance through the partition needs every operation to be invoked no later than it completes |
| Checker.PartitionNeedsWellTimed | crates/cc-checker/src/lib.rs:996-1044 | a concrete two-key history with inverted times that the partition accepts and that has no linearization |
| Locality.WholeImpliesKey | crates/cc-checker/src/lib.rs:1005-1020 | a linearizable single-key-operation history is linearizable on each key |
| Locality.Merge | crates/cc-checker/src/lib.rs:1005-1041 | two real-time orders over disjoint keys interleave into one real-time order, by the operation with the least completion |
| Locality.WholeIffEachKey | crates/cc-checker/src/lib.rs:982-1044 | for well-timed histories without scans and batches, the whole is linearizable exactly when every key is |
| Witness.IdsDetermineSubsequence | crates/cc-checker/src/lib.rs:863-878 | with distinct ids, equal id lists name the same sub-history, so the cache keyed by ids is sound |
| Witness.Oracle | crates/cc-checker/src/lib.rs:863-895 | answers exactly whether the part is rejected, from the cache or by one counted call; no answer exactly when the budget is spent and the part is not cached |
| Witness.ReduceByChunks | crates/cc-checker/src/lib.rs:800-834 | chunk removal terminates within the budget and leaves a non-empty, order-preserving, still rejected part |
| Witness.ReduceByOne | crates/cc-checker/src/lib.rs:835-854 | single deletion terminates; "one-minimal" means that no single deletion is still rejected, and otherwise the budget is spent |
| Witness.Minimize | crates/cc-checker/src/lib.rs:782-861 | the witness is an order-preserving non-empty rejected part, calls stay within the budget, and its flags mean what they say |
| Effects.NothingBetween | crates/cc-checker/src/lib.rs:1817-1838 | the overlap test finds nothing between two operations exactly when every other operation that may have changed the key had completed before the first began, or began after the second completed |
| Effects.MayMutateExact | crates/cc-checker/src/lib.rs:1840-1925 | a command that is not a batch may have changed a key exactly when some state explains it, with its answer, by a step that changes the key |
| Effects.BatchMayMutate | crates/cc-checker/src/lib.rs:1850-1895 | a batch may have changed a key exactly when one of its commands, with its own answer, may have |
| Effects.QuietInterval | crates/cc-checker/src/lib.rs:1817-1868 | in any linearization, if no operation may have mutated a key between two operations, the key's state does not change between their places |
| Effects.LinearizableReadObserves | crates/cc-checker/src/lib.rs:1686-1708 | in a linearizable history a read after a quiescent acknowledged mutation observes what the mutation left |
| Guarantees.Regressions | crates/cc-checker/src/lib.rs:1990-2008 | reports exactly the adjacent operations whose request sequence goes back, with the right guarantee name |
| Guarantees.MissedWrites | crates/cc-checker/src/lib.rs:2009-2039 | reports exactly the pairs that fail the missed-write test, which `SessionReports.LostWritesReported` shows to be exactly the lost writes |
| Guarantees.ChangedReads | crates/cc-checker/src/lib.rs:2040-2066 | reports exactly the adjacent reads of one key that differ with no mutation and no accounted expiry between, in real time as `SessionReports.ChangedReadsReported` says |
| Guarantees.CheckClient | crates/cc-checker/src/lib.rs:1969-2067 | eligibility, operation ids and exactly the violations of one client |
| Guarantees.CheckClients | crates/cc-checker/src/lib.rs:1969-2067 | the reports of a list of clients, in order, and exactly their violations |
| Guarantees.CheckSessionGuarantees | crates/cc-checker/src/lib.rs:1958-2069 | one report per nonzero client in id order, and exactly the violations of all of them |
| Guarantees.NoMissedWrites | crates/cc-checker/src/lib.rs:2009-2039 | a linearizable history never yields a read-your-writes violation for an eligible client, across timeouts, batches, compare-and-set, increments and expiry |
| Guarantees.ChangedReadsNeedBatch | crates/cc-checker/src/lib.rs:2040-2079 | in a linearizable history changed reads are reported only when a batch carries a deadline between them |
| Guarantees.NoChangedReads | crates/cc-checker/src/lib.rs:2040-2079 | with no deadline on a batch, a linearizable history never yields a monotonic-reads violation |
| Guarantees.OnlyRegressions | crates/cc-checker/src/lib.rs:2084-2109 | what the session checker reports of a linearizable history is a sequence regression |
| Guarantees.CrossCheckExact | crates/cc-checker/src/lib.rs:2084-2109 | on an accepted history the cross-check reports something exactly when some eligible client's sequence went back |
| Guarantees.AcceptedYetReported | crates/cc-checker/src/lib.rs:2084-2109 | a concrete accepted history of one eligible client, without batches, whose second request number is older, and the violation reported for it |
| Guarantees.BatchDeadlineDisagreement | crates/cc-checker/src/lib.rs:2071-2079 | a concrete linearizable history with a batch deadline that is reported as a monotonic-reads violation |
| SessionReports.EligibleExact | crates/cc-checker/src/lib.rs:1969-1989 | in a well-timed history a client is judged exactly when all its operations are strong and answered and it issued them one at a time |
| SessionReports.ShowsWhatWasLeft | crates/cc-checker/src/lib.rs:1686-1723 | whatever was stored before an acknowledged mutation, a read right after it is shown the mutation, and for all but increments nothing else counts as showing it |
| SessionReports.LostWritesReported | crates/cc-checker/src/lib.rs:2009-2039 | a read-your-writes violation is reported for two operations of an eligible client exactly when an acknowledged mutation precedes a read of its key, has not expired by the end of the read, every other possible mutation of the key lies wholly before the one or wholly after the other, and the read does not show it |
| SessionReports.ChangedReadsReported | crates/cc-checker/src/lib.rs:2040-2079 | a monotonic-reads violation is reported exactly for a read and the client's next read, of the same key, with different answers, no deadline recorded for the key in their span, and every other possible mutation wholly before or after them |
| SessionReports.RegressionsReported | crates/cc-checker/src/lib.rs:1990-2008 | a sequence violation is reported exactly for an operation and the client's next one with an older request number, and is named writes-follow-reads exactly when an acknowledged mutation follows a read |
| Anomalies.ClassifyRead | crates/cc-checker/src/lib.rs:1437-1490 | exactly the resurrection and stale-read labels that one read gives |
| Anomalies.Classify | crates/cc-checker/src/lib.rs:1435-1490 | exactly the resurrection and stale-read labels of a history |
| Anomalies.LabelsRefute | crates/cc-checker/src/lib.rs:1435-1490 | with distinct ids, a label whose mutation is strong means the strong history has no linearization from any initial state |
| Anomalies.LabelsExact | crates/cc-checker/src/lib.rs:1435-1490 | a pair of operations is labelled a resurrection exactly when a read finds a key after an acknowledged delete with every other possible mutation wholly before or after, and a stale read exactly when it then finds, instead of an unexpired acknowledged write, another value the key is known to have held |
| Decimal.ParseToText | crates/cc-kv/src/lib.rs:660-667 | a stored counter reads back as the integer that was stored |
| Crc.UpdateConcat | crates/cc-core/src/lib.rs:1803-1823 | feeding two pieces to the running CRC-32C is feeding their concatenation |
| Codec.PutBytes | crates/cc-core/src/lib.rs:1647-1654 | a length-prefixed string reads back with what follows, and costs four bytes more than its contents |
| Codec.GetBytes | crates/cc-core/src/lib.rs:1723-1733 | an accepted string is within the codec limit and is its one encoding |
| Codec.Seal | crates/cc-core/src/lib.rs:1835-1851 | a sealed record opens to its body |
| Codec.Unseal | crates/cc-core/src/lib.rs:1835-1851 | a record that opens is its body followed by the body's checksum |
| ClusterConfig.PolicyRoundTrip | crates/cc-core/src/lib.rs:720-845 | a valid policy decodes from its encoding |
| ClusterConfig.MembershipRoundTrip | crates/cc-core/src/lib.rs:961-1117 | a valid membership encodes, and decodes to itself |
| RaftLog.LogState.ApplyRecord | crates/cc-log/src/lib.rs:419-471 | accepts exactly what the record rules accept and moves the log state as they say; a refused record changes nothing |
| RaftLog.LogState.Retire | crates/cc-log/src/lib.rs:464-467 | keeps the entries above a mark and moves the base to it |
| RaftLog.CompactionInvisible | crates/cc-log/src/lib.rs:419-471 | erasing the snapshot marks of any accepted history leaves an accepted history with the same hard state, last index and term at every index from the base on, of which the retained entries are the contiguous suffix |
| RaftLog.TermsAndVotes | crates/cc-log/src/lib.rs:429-442 | in every accepted history terms never go back and two votes in one term are for one node unless a record between them took the vote back; of hard states alone nothing more is asked |
| RaftLog.VoteTakenBack | crates/cc-log/src/lib.rs:429-442 | a vote, its withdrawal and a vote for another node in one term are accepted |
| LogHistory.HoldsTheStanding | crates/cc-log/src/lib.rs:419-471 | after any accepted history the log holds exactly the entries appended and not since truncated or covered by a mark, starts at the last mark and numbers its entries on from there |
| LogHistory.NextExact | crates/cc-log/src/lib.rs:419-471 | after any accepted history short of the largest index, the next record is accepted exactly when it is an append at the next index, a truncation behind the last mark, a mark beyond it that agrees with the standing entry of its index, or a hard state that may follow |
| LogStream.RecordRoundTrip | crates/cc-log/src/lib.rs:473-681 | a storable record decodes from its encoding |
| LogStream.RecoverStream | crates/cc-log/src/lib.rs:165-221 | the cursor loop computes the recovery of the byte stream |
| LogStream.RecoveryResumes | crates/cc-log/src/lib.rs:165-221 | recovering the consumed prefix and then more bytes is continuing from the recovered state |
| LogStream.RecoveryIdempotent | crates/cc-log/src/lib.rs:165-221 | recovering the consumed prefix again gives the same state and an untorn tail |
| LogStream.TornTailRecovery | crates/cc-log/src/lib.rs:165-221 | cutting the framed encoding of an accepted history at any byte recovers exactly the fold of the complete frames, with exact bytes consumed and torn flag; a cut inside the first frame recovers nothing |
| LogStream.RecoveryExtends | crates/cc-log/src/lib.rs:165-221 | appending frames to the recovered prefix recovers the continued history |
| LogStream.FrameLength | crates/cc-log/src/lib.rs:473-681 | an encoded record is within recovery's limit exactly when it is no append or its payload leaves 32 bytes, or 42 in the newer form, below that limit |
| LogStream.GivenBackIff | crates/cc-log/src/lib.rs:152-221 | a record the encoder takes is given back by its frame exactly when it is that short and does not vote for node zero |
| LogStream.OverlongIsCorruption | crates/cc-log/src/lib.rs:165-221 | a longer one makes the stream corrupt, whatever was recovered before it and whatever follows |
| LogStream.LargestAppendIsRefused | crates/cc-log/src/lib.rs:614-623 | a concrete append the encoder takes that recovery refuses |
| KvCodec.CommandRoundTrip | crates/cc-kv/src/lib.rs:992-1218 | a well-formed command decodes from its encoding |
| KvCodec.CommandCanonical | crates/cc-kv/src/lib.rs:1105-1218 | accepted bytes are well-formed and re-encode to themselves |
| KvCodec.CommandCodecExact | crates/cc-kv/src/lib.rs:992-1218 | bytes decode to a command exactly when the command is well-formed and the bytes are its encoding |
| KvCodec.BatchLength | crates/cc-kv/src/lib.rs:1431-1446 | the admission charge is the exact length of the batch's encoding |
| KvCodec.ValidateBatch | crates/cc-kv/src/lib.rs:1420-1447 | a batch passes exactly when it is non-empty, short enough, flat and within its byte charge, and is refused with the right error |
| ReplyCodec.ReplyRoundTrip | crates/cc-kv/src/lib.rs:1224-1397 | a cacheable reply, batches and batch errors included, decodes from its encoding |
| ReplyCodec.ReplyCanonical | crates/cc-kv/src/lib.rs:1299-1397 | accepted bytes decode to a cacheable reply and re-encode to themselves |
| ReplyCodec.ReplyCodecExact | crates/cc-kv/src/lib.rs:1224-1397 | bytes decode to a reply exactly when the reply is cacheable and the bytes are its encoding |
| ReplyCodec.ReadsBackIff | crates/cc-kv/src/lib.rs:1224-1397 | a reply the encoder takes reads back exactly when no store or decode error is anywhere in it and its counts are within the decoder's bounds |
| ReplyCodec.InfrastructureErrorsAreLost | crates/cc-kv/src/lib.rs:1460-1486 | in particular a store or decode error is refused by the decoder |
| KvModel.SingleKeepsInvariant | crates/cc-kv/src/lib.rs:594-746 | every ordinary command keeps deadlines on stored keys, stored keys admissible and sequences issued |
| KvModel.CommandKeepsInvariant | crates/cc-kv/src/lib.rs:594-793 | so does every command, batches included |
| KvModel.RunIsTrace | crates/cc-kv/src/lib.rs:763-783 | running a batch is applying its commands one by one until the first that does not answer |
| KvModel.BatchAtomicity | crates/cc-kv/src/lib.rs:748-793 | a batch that answers has the effect and the replies of its commands in order at one timestamp; otherwise nothing changes and it names the first failing index, or none when only the reply was too large |
| KvModel.FailedBatchChangesNothing | crates/cc-kv/src/lib.rs:748-793 | store, deadlines and sessions change only through a batch that succeeds |
| KvModel.PurgeExact | crates/cc-kv/src/lib.rs:712-727 | a purge removes exactly the earliest due keys up to its bound, value and deadline together, each before every due key it leaves |
| KvModel.PurgeInvisible | crates/cc-kv/src/lib.rs:712-727 | purging up to a time changes no Get or Ttl answer from that time on |
| KvMeaning.EveryCommand | crates/cc-kv/src/lib.rs:594-746 | for every command, state and time: what `Get` answers afterwards at every time for the key, and that other keys are as they were; a conditional set is the set exactly when `Get` answers none or some, as its condition says; compare-and-set, get-and-set and get-and-delete are the set, the delete or the persist they stand for, with the seen value as answer; increment and append build on the seen value under the deadline the key has; a deadline shows the value strictly before it and nothing from it on; the remaining lifetime is counted to when the value stops showing |
| KvMeaning.ScanningMeans | crates/cc-kv/src/lib.rs:842-854 | a scan lists in key order exactly the visible ones among the first stored keys of the range, up to its limit and the scan cap |
| KvMeaning.RemainingMeans | crates/cc-kv/src/lib.rs:829-840 | minus two when nothing shows, minus one when the value shows for good, otherwise the whole seconds until it stops showing |
| Kv.DuePrefix | crates/cc-kv/src/lib.rs:713-719 | walking the deadline index until a deadline is in the future lists the due deadlines in order |
| Kv.Machine.StorePut | crates/cc-kv/src/lib.rs:612-616 | a put is refused without change exactly when key or value is out of bounds |
| Kv.Machine.StoreDelete | crates/cc-kv/src/lib.rs:635-639 | a delete is refused without change exactly when the key is out of bounds |
| Kv.Machine.ReplaceDeadline | crates/cc-kv/src/lib.rs:795-803 | TTL map and deadline index move together and stay inverse |
| Kv.Machine.FrontOfIndex | crates/cc-kv/src/lib.rs:713-719 | the front of the index is the earliest due deadlines |
| Kv.Machine.Purge | crates/cc-kv/src/lib.rs:712-727 | removes the earliest due keys and counts them |
| Kv.Machine.ApplySingle | crates/cc-kv/src/lib.rs:594-746 | every ordinary command, on the object with the index, follows the state machine on values, whose commands `KvMeaning.EveryCommand` pins down, and keeps the index the exact inverse of the TTL map |
| Kv.Machine.ApplyBatch | crates/cc-kv/src/lib.rs:748-793 | a batch on a tentative copy follows the state machine on values and swaps the copy in only on success |
| Kv.Machine.ApplyCommandOnly | crates/cc-kv/src/lib.rs:453-479 | applies a committed command at a time that never runs backwards and moves the cursor |
| Kv.RestoreDeadlines | crates/cc-kv/src/lib.rs:914-931 | rebuilds the TTL map, refusing a lapsed deadline or a repeated key |
| Kv.RestoreValues | crates/cc-store/src/lib.rs:1243-1270 | rebuilds the store, accepting exactly ascending in-bounds entries with issued sequences |
| Kv.RestoreLogical | crates/cc-kv/src/lib.rs:910-958 | restores exactly the acceptable snapshots, to a machine with a correct index |
| KvSnapshot.RestoredKeepsInvariant | crates/cc-kv/src/lib.rs:910-958 | a restored state satisfies what every command keeps |
| KvSnapshot.CaptureRestorable | crates/cc-kv/src/lib.rs:886-958 | a capture can be restored exactly when no deadline lies between the capture and the last leader time |
| KvSnapshot.RestoreOfCapture | crates/cc-kv/src/lib.rs:886-958 | restoring a capture gives back exactly the live keys with their values, sequences and deadlines |
| KvSnapshot.RestoreInvisible | crates/cc-kv/src/lib.rs:886-958 | snapshot and restore at the last leader time change no Get or Ttl answer from then on |
| KvSnapshot.CaptureOfRestored | crates/cc-kv/src/lib.rs:886-958 | capturing a restored state gives back the snapshot it came from |
| Expiry.LapsedStep | crates/cc-kv/src/lib.rs:594-746 | of all commands, only persisting the key and get-and-deleting it make a lapsed version of it visible again |
| Expiry.NoVersionReturns | crates/cc-kv/src/lib.rs:594-746 | a version held after a command, and not newer than the machine, was held before it: overwritten and deleted versions never come back |
| Expiry.ReturnsIff | crates/cc-kv/src/lib.rs:594-746 | over any run of commands at times that do not go back, a lapsed version shows again exactly when some command persists or get-and-deletes the key while the version is lapsed |
| Expiry.RunWalks | crates/cc-kv/src/lib.rs:748-793 | every run with batches is a run of ordinary commands taken from it in order, leading to the same state |
| Expiry.LapsedForGood | crates/cc-kv/src/lib.rs:594-793 | a run of commands and batches that nowhere persists or get-and-deletes a key never shows a lapsed version of it again |
| Expiry.LapsedValueReturns | crates/cc-kv/src/lib.rs:682-711 | from an empty machine, a value set for five is gone at ten and shows again there once its key is persisted, or get-and-deleted |
| Conformance.MirrorsIff | crates/cc-checker/src/lib.rs:1234-1300 | one answered command is performed by the checker's model, with the recorded answer and the same state after, exactly when its key is not in the way: no lapsed value read or compared with, no deadline or lapsed number under an increment |
| Conformance.SetExact | crates/cc-checker/src/lib.rs:1241-1250 | a served set is a step of the model that tracks the machine exactly when it is recorded with the deadline the machine set, or fails, or is unanswered and writes what the model already holds |
| Conformance.CasExact | crates/cc-checker/src/lib.rs:1274-1291 | a served compare-and-set, answered or not, is a step of the model that tracks the machine exactly when its key has no lapsed value in the model or the outcome is the same anyway |
| Conformance.IncrExact | crates/cc-checker/src/lib.rs:1258-1273 | a served increment is such a step exactly when its key has no deadline and no lapsed number other than zero, or it fails, or it is unanswered and rewrote a lapsed one |
| Conformance.ServedExact | crates/cc-checker/src/lib.rs:1194-1300 | a served request on one key is a step of the model that gives the recorded answer and tracks the machine exactly when it is compatible; deletes and reads always are |
| Conformance.BatchExplained | crates/cc-checker/src/lib.rs:1301-1319 | a served batch whose commands are each calm where the ones before have led is a step of the model with all its recorded answers |
| Conformance.ServedTracks | crates/cc-checker/src/lib.rs:1194-1319 | every compatible request, batches included, is a step of the model with the recorded outcome |
| Conformance.SweepTracks | crates/cc-kv/src/lib.rs:712-727 | a purge removes only what the checker's model already counts as lapsed |
| HonestRuns.RunReplays | crates/cc-checker/src/lib.rs:1194-1319 | a run of compatible requests, losses and purges replays in the model in the order served, inside every interval, and the model tracks the machine at its end |
| HonestRuns.HonestRunsAreLinearizable | crates/cc-checker/src/lib.rs:982-1319 | however requests overlap and whether or not they are answered, a service that applies each at one instant of its interval, each compatible when it is applied, produces a linearizable history, which the checker never rejects |
| HonestRuns.SequentialExact | crates/cc-checker/src/lib.rs:1082-1192 | a history of answered operations one after the other is linearizable exactly when it replays as it stands |
| HonestRuns.ComparisonDecides | crates/cc-checker/src/lib.rs:1274-1291 | after a compatible beginning, requests one after the other, a compare-and-set leaves the history linearizable exactly when it is compatible |
| HonestRuns.IncrementForgetsDeadline | crates/cc-checker/src/lib.rs:1258-1273 | after a compatible beginning, an increment of a key with a deadline followed by a read past the deadline makes the honest history not linearizable |
| HonestRuns.LapsedCompareIsRejected | crates/cc-checker/src/lib.rs:1274-1291 | a concrete honest run, a compare-and-set that finds its key expired, that no order of the checker's model explains |
| HonestRuns.IncrementedCounterIsRejected | crates/cc-checker/src/lib.rs:1258-1273 | a concrete honest run, a counter with a lifetime that is incremented and later read as gone, that no order explains |
| HonestRuns.SlowSetIsRejected | crates/cc-swarm/src/lib.rs:1887-1890 | a concrete honest run, a set applied later than its recorded deadline was counted from and read between the two deadlines, that no order explains |
| Checkpoint.CheckpointPreservesReads | crates/cc-cluster/src/lib.rs:211-235 | a replica written to a checkpoint file, decoded and restored is accepted and answers every Get and Ttl from then on as before |
| Checkpoint.ExactlyOnceAcrossCheckpoint | crates/cc-cluster/src/lib.rs:211-235 | a request that took effect before a checkpoint is not run again by a node reopened from its file within the idle window, and an identical retry of the latest is answered with the original reply exactly when it reads back |
| Sessions.UserKeeps | crates/cc-cluster/src/lib.rs:1885-1982 | a user request keeps the table within policy |
| Sessions.AdminKeeps | crates/cc-cluster/src/lib.rs:2034-2126 | an administrative request keeps the table within policy |
| Sessions.RetireKeeps | crates/cc-cluster/src/lib.rs:1786-1809 | expiry keeps the table within policy |
| Sessions.CapacityAlways | crates/cc-cluster/src/lib.rs:1672-2126 | from empty, after any requests and sweeps, records and tombstones are disjoint, both counts are within policy and the cached bytes sum to at most the policy's limit |
| ExactlyOnce.NextPreserves | crates/cc-cluster/src/lib.rs:1753-2126 | one request or sweep before a key's idle deadline keeps its record, refreshes it or replaces it by a newer one, and never runs a seen sequence |
| ExactlyOnce.NeverRunsAgain | crates/cc-cluster/src/lib.rs:1753-1982 | in any run whose requests come before the key's idle deadline as it then stands, no request with a seen sequence runs its mutation |
| ExactlyOnce.RanIsRemembered | crates/cc-cluster/src/lib.rs:1940-1981 | a mutation that ran is recorded exactly when command and encoded reply fit; a reply within the policy's limit always does |
| ExactlyOnce.RunsTwiceIff | crates/cc-cluster/src/lib.rs:1952-1982 | asking again, whatever the mutation would then answer, runs it a second time exactly when the first run could not be recorded |
| ExactlyOnce.OversizedReplyRunsTwice | crates/cc-cluster/src/lib.rs:1952-1982 | under a valid policy with replies shorter than values, a get-and-delete of a long value deletes it and is answered busy, and the retry runs again and answers that there was none |
| ExactlyOnce.ExactlyOnceTheorem | crates/cc-cluster/src/lib.rs:1753-1982 | once a request has run with a reply within the limit, no request of its key with that sequence or an earlier one runs a mutation within the idle window, and an identical retry of the latest sequence returns the original reply exactly when the reply codec reads it back |
| SessionMemory.SeenDoesNotRun | crates/cc-cluster/src/lib.rs:1885-2126 | a request for a sequence that a record or tombstone of its key has seen runs only if the tombstone is past its grace |
| SessionMemory.ExpireRemembers | crates/cc-cluster/src/lib.rs:1753-1810 | a sweep forgets a key exactly when it retires its tombstone, or its record with the grace over or with no room for a tombstone at that moment |
| SessionMemory.Remembering | crates/cc-cluster/src/lib.rs:1753-2126 | through any request or sweep a key stays remembered unless its tombstone is past its grace or the sweep forgets it |
| SessionMemory.RunsOnlyIfForgotten | crates/cc-cluster/src/lib.rs:1753-2126 | in any run, at whatever times, a sequence the table has seen runs again only if some request up to then made the table forget the key |
| SessionMemory.OnceThroughGrace | crates/cc-cluster/src/lib.rs:1753-1982 | a request that ran with a reply within the limit is not run again, nor an earlier one of its key, until the idle time and then the retry grace have passed, unless a sweep retires the record when the tombstones are full |
| SessionMemory.ForgottenRunsAgain | crates/cc-cluster/src/lib.rs:1753-1982 | a sweep that forgets a key leaves nothing of it, and then any numbered request of it runs exactly when there is a place for it |
| SessionMemory.RunsExactly | crates/cc-cluster/src/lib.rs:1885-1962 | a numbered user request runs exactly when its key is not entombed, not idle and has not seen the number, and there is a place for its record and the longest reply |
| SessionMemory.IdleIsTold | crates/cc-cluster/src/lib.rs:1903-1921 | the request of an idle session never runs; it is told the session expired and leaves a tombstone, or is told it is too large, and changes no record, exactly when the standing tombstones are full |
| SessionMemory.RefusalIsTold | crates/cc-cluster/src/lib.rs:1896-1962 | what every other request that does not run is told: expired, busy, stale, the cached reply or a conflict |
| SessionMemory.AdminRunsExactly | crates/cc-cluster/src/lib.rs:2034-2126 | when an administrative request runs |
| SessionMemory.AdminRefusalIsTold | crates/cc-cluster/src/lib.rs:2034-2126 | what one that does not run is told |
| SessionMemory.AdminRunIsTold | crates/cc-cluster/src/lib.rs:2034-2126 | one that runs fails with its mutation, or is recorded and told the reply exactly when command and reply fit |
| SessionMemory.SweepClears | crates/cc-cluster/src/lib.rs:1753-1810 | a sweep whose bound is not reached retires exactly the records gone idle and the tombstones past their grace, apart from the pinned key, and leaves the others as they were |
| RetryTable.ExpiryExact | crates/cc-cluster/src/lib.rs:1753-1810 | a sweep retires the earliest due records and tombstones, at most the bound and never the pinned key; every other record and tombstone is untouched, and a new tombstone is a retired record's within its grace |
| RetryTable.SessionTable.EncodedBytes | crates/cc-cluster/src/lib.rs:1672-1684 | the saturating sum of every record's cached bytes |
| RetryTable.SessionTable.ApplyUser | crates/cc-cluster/src/lib.rs:1885-1982 | one user request follows the table's rules, including which error and whether the mutation ran; `SessionMemory.RunsExactly`, `IdleIsTold` and `RefusalIsTold` say what those rules decide |
| RetryTable.SessionTable.ApplyAdmin | crates/cc-cluster/src/lib.rs:2034-2126 | one administrative request follows the table's rules, which `SessionMemory.AdminRunsExactly`, `AdminRefusalIsTold` and `AdminRunIsTold` pin down |
| RetryTable.SessionTable.ExpireDue | crates/cc-cluster/src/lib.rs:1753-1810 | the sweep loop retires the chosen deadlines and counts them |
| Durability.OneOutstanding | crates/cc-cluster/src/lib.rs:2942-3011 | barriers sent and completions received differ by one while a barrier waits and otherwise not at all |
| Durability.NothingPassesABarrier | crates/cc-cluster/src/lib.rs:2942-2946 | between a barrier and its completion only upkeep of volatile state and reads happen, each read answered from the state published before the barrier |
| Durability.PublishedIsFold | crates/cc-cluster/src/lib.rs:2956-3006 | published state is the sequential application of exactly the entries whose store record was acknowledged |
| Durability.ReadsSeeAcknowledged | crates/cc-cluster/src/lib.rs:3923-3956 | every read is answered from the sequential application of exactly the entries acknowledged before it |
| Durability.CanonicalOrder | crates/cc-cluster/src/lib.rs:2942-3011 | from the moment a list is supplied, what has been completed followed by what is left is the list's canonical order: groups entry by entry, then what they cause, then the rest |
| Durability.FailureStops | crates/cc-cluster/src/lib.rs:2947-2952 | from a failed completion to the next supplied list there are only reads, upkeep and errors, published state is what it was before the failure, and no entry counts as acknowledged |
| Durability.RefusedExactly | crates/cc-cluster/src/lib.rs:3557-3921 | a committed group is refused exactly when one of its entries cannot be applied to the state and context the ones before it led to |
| Durability.SuppliedAsAsked | crates/cc-cluster/src/lib.rs:2942-3150 | every list taken up in a run is exactly what consensus handed over for its cause, a message, a tick or a sweep, in the volatile and published state of that moment |
| Node.Node.PrepareCommitted | crates/cc-cluster/src/lib.rs:3557-3921 | a committed group is applied tentatively, each entry to the state and context the previous one led to; there is no result exactly when one cannot be applied |
| Node.Node.LetOut | crates/cc-cluster/src/lib.rs:3468-3551 | one effect goes out by the protocol; a barrier leaves the rest as a continuation |
| Node.Node.MapEffects | crates/cc-cluster/src/lib.rs:3457-3555 | routes are shed, effects go out in order up to the first barrier and due reads are answered; an error lets nothing out |
| Node.Node.Resume | crates/cc-cluster/src/lib.rs:2954-3010 | an acknowledged barrier publishes its entry, answers its client and takes up the work behind it |
| Node.Node.OnMessage | crates/cc-cluster/src/lib.rs:3065-3129 | an accepted message first supplies exactly the list consensus returned for it, then takes it up and closes the call; one consensus does not take is refused and changes nothing |
| Node.Node.OnTick | crates/cc-cluster/src/lib.rs:3012-3064 | a tick first supplies exactly the list consensus returned for it, then rescans, and then sweeps or finds no sweep due unless a barrier waits |
| Node.Node.OnInput | crates/cc-cluster/src/lib.rs:2942-3150 | every input extends the node's events by the protocol and its volatile state by the node's own parts; while a barrier waits only its completion is accepted, and a failed completion drops the rest and publishes nothing; a successful call has the shape its input calls for, from the supplied list or the completion to the closing upkeep; a refused call means that consensus did not take the message, that the sweep failed, or that an effect or an entry could not be carried out |
| Replication.EntryKeeps | crates/cc-cluster/src/lib.rs:3577-3892 | a committed entry before a session can have gone idle keeps the session's record, word for word unless it supersedes it, and does not touch the store if it asks for a sequence the record has seen |
| Replication.NodeExactlyOnce | crates/cc-cluster/src/lib.rs:3557-3921 | over any run of a node, once a request has taken effect in an acknowledged entry, no later acknowledged entry with that sequence or an earlier one touches the store within the idle window, and an identical retry of the latest is answered with the original reply exactly when it reads back |
| Replication.NodeReads | crates/cc-cluster/src/lib.rs:3923-3956 | over any run of a node, every read is answered as the machine answers it on the sequential application of exactly the entries acknowledged before it, and only once the last of them has reached the read's index |
| Replication.PublishedIsValid | crates/cc-cluster/src/lib.rs:3557-3921 | whatever a node goes through, published state satisfies the machine's invariant and its retry table is within policy |
| Ledger.EntryTakenApart | crates/cc-cluster/src/lib.rs:3557-3892 | an applied entry runs its command on the machine, at the latest time so far, exactly when the table lets it, and makes exactly its client's or operator's request, and its sweep, of the table |
| Ledger.PublishedIsAccounted | crates/cc-cluster/src/lib.rs:3557-3921 | over any run of a node the published machine has run exactly the commands the table let through, in order and at times that never go back, and the published table has seen exactly the requests of the acknowledged entries |
| Ledger.NodeRunsOnlyIfForgotten | crates/cc-cluster/src/lib.rs:3557-3921 | over any run of a node, an acknowledged entry with a sequence the table had seen runs its command only if some request up to then made the table forget the key |
| CountedOnce.AskedTwiceCountsOnce | crates/cc-cluster/src/lib.rs:3557-3676 | a run that meets the premises of exactly-once: one increment asked twice, after which the counter stands at one and both replies say one |
| CcsnRecords.KeyRoundTrip | crates/cc-cluster/src/lib.rs:1292-1323 | a key record decodes from its body |
| CcsnRecords.SessionRoundTrip | crates/cc-cluster/src/lib.rs:1325-1365 | a session record decodes from its body |
| CcsnRecords.TombstoneRoundTrip | crates/cc-cluster/src/lib.rs:1367-1390 | a tombstone record decodes from its body |
| CcsnRecords.TransferRoundTrip | crates/cc-cluster/src/lib.rs:1392-1473 | a transfer record decodes from its body |
| CcsnRecords.AddRecord | crates/cc-cluster/src/lib.rs:507-599 | no record that is accepted exceeds the incremental decoder's record buffer |
| CcsnDecode.DecodeWhole | crates/cc-cluster/src/lib.rs:1091-1278 | the loop over a complete file computes its decoding |
| CcsnDecode.ScanResumes | crates/cc-cluster/src/lib.rs:360-473 | feeding a file in two parts leaves the reader where feeding it whole does; a broken reader stays broken and a finished one takes nothing more |
| CcsnDecode.ScanIsDecode | crates/cc-cluster/src/lib.rs:331-619 | the incremental reader accepts exactly the files the whole-file decoder accepts and rebuilds the same snapshot |
| CcsnStream.StreamDecoder.Push | crates/cc-cluster/src/lib.rs:360-373 | after a piece the decoder's fields are the reading of everything fed; an error means no continuation is acceptable |
| CcsnStream.StreamDecoder.Consume | crates/cc-cluster/src/lib.rs:432-473 | uses up whole parts, and fails exactly when the bytes so far are broken |
| CcsnStream.StreamDecoder.TakeRecord | crates/cc-cluster/src/lib.rs:507-599 | one record moves the rebuilt state and both running checksums |
| CcsnStream.StreamDecoder.TakeFooter | crates/cc-cluster/src/lib.rs:601-618 | the footer is accepted exactly when length, end and both checksums hold and nothing follows |
| CcsnStream.StreamDecoder.Finish | crates/cc-cluster/src/lib.rs:377-430 | finishing gives what the whole-file decoder gives for the bytes fed |
| CcsnStream.DecodePieces | crates/cc-cluster/src/lib.rs:331-619 | for every byte string and every split into non-empty pieces the incremental decoder gives exactly what the whole-file decoder gives |
| CcsnEncode.HeaderRoundTrip | crates/cc-cluster/src/lib.rs:763-779 | the header parses back |
| CcsnEncode.FooterRoundTrip | crates/cc-cluster/src/lib.rs:1071-1085 | the footer satisfies its own checks |
| CcsnEncode.FramesParse | crates/cc-cluster/src/lib.rs:1280-1290 | framed records parse back one by one |
| CcsnRoundTrip.SnapshotRoundTrip | crates/cc-cluster/src/lib.rs:943-1278 | decoding the encoding of a snapshot returns it, when the policy is valid, client ids are nonzero, session counts are within policy and fields and file fit the codec limits |
| CcsnNormal.DecodedIsExportable | crates/cc-cluster/src/lib.rs:1091-1278 | any accepted file of a named cluster, however its records are arranged, stands for a snapshot the encoder accepts and the decoder recognizes |
| CcsnNormal.ReencodingDecodes | crates/cc-cluster/src/lib.rs:943-1278 | writing a decoded snapshot again gives a file that decodes to it |
| CcsnNormal.ReadsBackIff | crates/cc-cluster/src/lib.rs:943-1278 | of the snapshots the encoder accepts, exactly those with a valid policy, nonzero client ids and session counts within policy are read back from their file |
| CcsnNormal.SampleIsPortable | crates/cc-cluster/src/lib.rs:943-1086 | the conditions of the round trip can be met: a one-node cluster with a transfer, a key, a session and a tombstone has such a checkpoint |
| MembershipForm.EncoderFormIff | crates/cc-core/src/lib.rs:1006-1117 | an accepted membership image is the one the encoder writes exactly when it is in format 2 and its ids and addresses ascend |
| MembershipForm.OlderImageDecodes | crates/cc-core/src/lib.rs:1041-1117 | every membership without features has a second image, in format 1 |
| CcsnCanonical.RecordsAreFrames | crates/cc-cluster/src/lib.rs:1149-1165 | a region of records that is read is exactly the frames of its records |
| CcsnCanonical.FeedInForm | crates/cc-cluster/src/lib.rs:1166-1242 | records that are accepted, with the membership image in form and no transfer behind the third place, are exactly what the encoder writes for what they rebuild |
| CcsnCanonical.CanonicalIff | crates/cc-cluster/src/lib.rs:943-1278 | an accepted file is the encoder's file of what it decodes to exactly when its membership image is in format 2 with ids and addresses ascending and its transfer record, if any, is the third |
| CcsnCanonical.InFormUnique | crates/cc-cluster/src/lib.rs:943-1278 | two accepted files in that form that decode alike are equal |
| CcsnCanonical.TransferMayFollowKey | crates/cc-cluster/src/lib.rs:1183-1192 | a checkpoint with a transfer and a key has a second file, as long as the first, with the transfer behind the key |
| CcsnCanonical.MembershipMayBeOlder | crates/cc-core/src/lib.rs:1041-1117 | a checkpoint of a cluster without features has a second file, eight bytes shorter, with the membership image in format 1 |
| CcsnWriter.Validate | crates/cc-cluster/src/lib.rs:781-860 | the preflight accepts exactly the exportable snapshots |
| CcsnWriter.EncodeWhole | crates/cc-cluster/src/lib.rs:943-1086 | writes the encoder's file of exactly the exportable snapshots |
| CcsnWriter.RecordByOrdinal | crates/cc-cluster/src/lib.rs:862-938 | the record found from the section counts is the one at that place in the file |
| CcsnWriter.Preflight | crates/cc-cluster/src/lib.rs:640-704 | header, footer, length and file checksum, found record by record, are those of the file |
| CcsnWriter.StreamEncoder.NextChunk | crates/cc-cluster/src/lib.rs:718-760 | refuses a request for nothing, hands out exactly as much of the rest as asked for unless the file ends first, and nothing once it has ended |
| CcsnWriter.EncodeChunks | crates/cc-cluster/src/lib.rs:639-761 | for any positive chunk sizes the chunks concatenate to exactly the encoding, and then the writer ends |
| Explorer.Expand | crates/cc-raft/src/model.rs:148-160 | keeps what was discovered and adds only successors not seen before, one step deeper, after which every successor has been seen; or stops because more states exist than the limit |
| Explorer.Exhaustive | crates/cc-raft/src/model.rs:138-162 | when every discovered state has been expanded, every state within the depth has been admitted |
| Explorer.Explore | crates/cc-raft/src/model.rs:132-169 | the search ends; a report means every state reachable within the depth was admitted and counts their distinct fingerprints exactly, a violation means one was not admitted, and a state limit means there are more distinct fingerprints than the limit |
| RaftModel.SuccessorsAlike | crates/cc-raft/src/model.rs:171-263 | every successor of a state is, up to message order, a successor of any reordering of it |
| RaftModel.CheckAlike | crates/cc-raft/src/model.rs:272-342 | the safety check does not depend on messages |
| RaftModel.ModelCongruent | crates/cc-raft/src/model.rs:171-389 | states with one fingerprint are admitted alike and have the same successors up to fingerprint |
| RaftModel.AdmittedIsSafe | crates/cc-raft/src/model.rs:272-342 | an admitted state has healthy nodes, one leader per recorded term, agreeing committed entries, matching logs and complete leaders |
| RaftModel.AdmittedRunIsSafe | crates/cc-raft/src/model.rs:272-342 | along an admitted run every state passes every check, and no term has two leaders and no index two committed entries, even at different times |
| Schedules.RoutedIsPosted | crates/cc-raft/src/model.rs:254-263 | routing appends the messages sent that are not yet in the soup, each once and in order, as many as there is room for |
| Schedules.SuccessorsExact | crates/cc-raft/src/model.rs:171-270 | the successors of a state are exactly what some enabled election timeout, heartbeat, proposal, delivery, duplication or loss leads to within the bounds, where a loss needs no bound |
| Schedules.CheckExact | crates/cc-raft/src/model.rs:272-342 | a state passes exactly when its nodes are healthy, leaders and committed entries agree with each other and with its history, logs match and leaders are complete, and then its history gains exactly what it shows |
| Schedules.PassesExactly | crates/cc-raft/src/model.rs:272-342 | on a run a state passes exactly when its world is safe, looking back on all worlds before it |
| Schedules.RunIsScheduled | crates/cc-raft/src/model.rs:138-270 | every run of the explorer follows a schedule |
| Schedules.ScheduleIsRun | crates/cc-raft/src/model.rs:138-270 | every schedule that is safe up to its last world is followed by a run of the explorer |
| Schedules.Check | crates/cc-raft/src/model.rs:101-169 | a report means that every schedule of at most the given number of moves is safe throughout: healthy nodes, one leader a term and one committed entry an index over all time, matching logs, and leaders that hold everything committed in earlier terms; a violation means that some such schedule is not; the count of states is exact |

## Left out

- Raft election and replication, the store's tables and write-ahead log: the consensus node is a parameter that supplies effects, and the store is a map whose put may refuse.
- Node: an error return hands the host nothing, so effects taken up before an `Abort` event in the same call do not reach it; consensus, request admission, routes, reservations, feature checks and pending reads are functions of an opaque volatile state, so admission limits and read freshness are not stated; routes of a prepared entry leave that state when the entry is published, not when it is prepared; administrative calls that bypass `on_input` are not modelled.
- Node.Node.PrepareCommitted: does not decode entries; applying one is a parameter from published state, volatile state and entry to the next state, its store record, reply and effects. `Replication` gives that parameter its meaning for the key/value machine and the retry table.
- RetryTable.SessionTable.ApplyUser: the mutation is the reply it would give, and the method says whether it ran; replies must be ones the reply encoder accepts.
- RetryTable.SessionTable.ApplyAdmin: comparing administrative operations and decoding cached replies are parameters, so no exactly-once claim is made for administrative replies.
- CcsnRecords.SessionRoundTrip: canonical administrative payloads are a parameter; user payloads use the command and reply codecs.
- Kv.Machine.ApplyBatch: children must be ones the command encoder accepts, as its assertion demands; a reply too large to encode and a deadline beyond 64 bits end the process and appear as the outcome `Panicked`.
- CcsnWriter.EncodeWhole: field sizes the byte encoder asserts, and a file length within 64 bits, are required of the caller.
- KvModel.SingleKeepsInvariant: store failures other than refused sizes are not modelled.
- HonestRuns.HonestRunsAreLinearizable: no scans, which no recorder in the repository produces and which the checker's model answers without looking at deadlines; a batch carries no lifetimes, since the recorder gives it no deadline.
- Conformance.BatchExplained: one way only, because a later command of the batch may overwrite what differed; for one-key requests `Conformance.ServedExact` goes both ways.
- Durability.ReadsSeeAcknowledged: how a read's answer is computed from the state is a parameter there; `Replication.NodeReads` gives it its meaning.
- Replication.NodeExactlyOnce: what an envelope says, configuration changes, client routes and the store record are parameters; a machine that gives up on an internal assertion counts as an entry that is not applied.
- Checker.CheckRaw: counters do not wrap, and checking stale and diagnostic reads is left out.
- LogStream.RecordRoundTrip: which decode error a bad record gives is not modelled, here or in the other codecs; a refusal is just `None`.
- Anomalies.Classify: only resurrection and stale reads; the other labels ignore timed-out or batch writes and prove nothing about linearizability.
- Explorer.Explore: fingerprints are states up to message order, not the printed text; the counters do not saturate, and of those reported only the number of states is specified, not transitions, frontier and depth.
- Schedules.Check: node ids are one to three and every message is addressed to one of them; a log-prefix comparison past the end of a log counts as a violation.
- The legacy session cache of the key/value machine is carried and expired but its own retry path is not modelled.
- The history document codec, TSV import, Porcupine export, liveness and trace reports: text and bookkeeping.
- The log planner over the write-ahead log, segment images and host journals: the same prefix argument as the framed stream.
- Backup envelopes, simulator, host, RESP adapter, benchmarks and user interface.
