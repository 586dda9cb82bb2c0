# ai-memory: a Dafny model of its hard parts

This project models the parts of ai-memory where correctness rests on more than
one function, and proves what they keep.

- **Sync** (`SyncStore`, `SyncProtocol`, `SyncTheorems`, `SyncConvergence`, `SyncDaemon`).
  Nodes hold a table of rows keyed by title and namespace; a link carries pages of
  rows from a source to a destination under a watermark. A pull is a link from the
  peer, a push a link to it. `SyncProtocol` is a state machine over any number of
  nodes and links: writes, pages opened, rows merged one by one, watermarks
  committed, transfers that fail half-way and rows that arrive late or twice. Both
  marks for a peer sit in one `sync_state` row, which the first record creates.
  `SyncDaemon` is the cycle and the loop as statements on two nodes.
- **Audit log** (`AuditChain`, `AuditSink`). The hash-chained log, its verifier
  loop, emission by interleaved threads, and restarts. The hash is an arbitrary
  function, so results about tampering end in "or here is a collision". JSON is any
  printer and parser that round-trip (`Faithful`).
- **Vector index** (`Vectors`, `HitLists`, `VectorIndex`, `VectorIndexObject`). A
  built snapshot, an overflow list and the list of all entries; search against a
  linear scan. The built graph is an oracle that answers from the snapshot, nearest
  first. Numbers are exact reals.
- **Autonomy** (`MemoryStore`, `Clusters`, `Rollback`, `Autonomy`, `RollbackOutcome`,
  `RollbackStop`, `AutonomyRun`). Clustering, consolidation, forgetting, priority
  feedback and the rollback log that undoes them, over the statements of `src/db.rs`
  they use. The candidates are copies of rows, and may be older than the rows.
- **Configuration** (`Config`). Longest-prefix lookups that must not depend on the
  order in which a hash map is walked.
- **Codecs and arithmetic** (`EmbeddingBlob`, `UrlEncoding`, `Bench`).

`Basics` holds what they share. `dafny verify dfyconfig.toml` checks all of it.

## Where the code and its promises differ

The code is modelled as it is; each item names the lemmas that show the difference
and, where there is one, the exact condition under which it does not show.

- A log that spans a restart is rejected by `audit verify`: the new process starts
  numbering at 1, and the verifier wants rising numbers. `RestartVerdict` judges the seam,
  `RestartsAcceptedIff` says exactly when a log over any number of runs is accepted, and
  `SecondRunIsFlagged` is the ordinary case.
- The audit module says concurrent processes may append to one file. Each process
  keeps its own chain head, so the second writer breaks the chain
  (`SecondWriterBreaksChain`; `SharedFileAcceptedIff` for any interleaving).
- `read_chain_tail` is described as starting afresh after a malformed last line; the
  code continues from the last line that parses (`MalformedTailIsPassedOver`).
- Recording the first push to a peer creates its `sync_state` row with the current time
  as the pull watermark. A row that the peer wrote after an empty pull, dated no later,
  is never asked for again (`FirstPushLosesRow`). `WatermarkSafety` has the exact
  condition on a run, `SilentSourceIsCovered` the ordinary case in which it is met: the
  peer does not write between the pull and the record.
- The watermark law needs more. A row relayed by a third node breaks it
  (`RelayBreaksSafety`, `ArrivalSafeIff`), so do clocks that lag behind a peer
  (`ClockSkewBreaksSafety`, `WriteSafeIffAboveMark`), equal write times at a page
  boundary (`TiesBreakSafety`, `TiesSafeIff`), rows that the receiver does not accept
  (`AdvanceSafeIff`), and among them rows renamed at the source, which keep their id
  (`RenamedRowIsLost`, `DroppedIff`).
- The id tie-break of `insert_if_newer` is said to give a total order that every peer
  agrees on; the winner's id is not kept, so the order of arrival shows
  (`TieBreakOrderIff`; `TieOrderIrrelevantIff` for any number of rows).
- A sync batch size over 1000 can stop a daemon for good: the peer refuses larger
  pushes, and the page never gets smaller (`OversizeBatchStalls`, `PushMovesIff`).
- A rollback brings back the candidates' copies, not the rows. The curator writes tags and
  contradictions into the rows after it has read the copies, so a row that was removed
  comes back without them (`StaleCopyReplacesRow`). And a long-tier row with an expiry
  that was consolidated away, its title left unused, and then also forgotten loses the
  expiry (`LongRowLosesExpiry`). `RunOutcome` says in full what comes back,
  `RunRestoresIff` exactly when that is the row.
- Undoing a forget can be refused, when a result row has taken the title of a row that
  was consolidated before it was forgotten (`UndoForget`), and `--rollback-last` stops
  there (`RollbackLastCompletesIff`), with rows missing (`RollbackLastRestoresIdsIff`).
- The collision check of a rollback is there to refuse rather than overwrite. It sees the
  fifty rows of a listing; another row on the title is overwritten
  (`UnseenRowIsOverwritten`).
- A removed and re-inserted id is found with its old vector's distance until the next
  rebuild (`StaleDistance`). `SearchIsLinearScanIff` has the exact condition for a search
  for all entries; under it every search is right (`SearchIsLinearScan`), while a search
  for fewer can happen to be right without it.
- A non-positive lifetime is documented to fall through to the next layer; it goes to
  the compiled default (`FallThroughIff`, `NonPositiveHidesLowerLayers`).

## Model

| member | source | states |
|---|---|---|
| SyncStore.MergePageGrows | src/db.rs:4193-4247 | merging any page ends up holding every row of it and loses no version already held |
| SyncStore.MergeHeldPageIsIdle | src/db.rs:4193-4247 | merging rows that are already held changes no time and no content |
| SyncStore.AdvanceIsLatest | src/db.rs:4883-4904 | the mark becomes the latest time observed and never goes back |
| SyncStore.TieBreakOrderIff | src/db.rs:4181-4203 | for three rows of one instant the order of the two incoming ones does not show exactly when one of them loses to the stored id or their contents are equal |
| SyncStore.TieWinner | src/db.rs:4193-4203 | among any rows of one instant the last one whose id beats the stored id wins |
| SyncStore.TieOrderIrrelevantIff | src/db.rs:4181-4203 | for any number of rows of one instant every order ends in one content exactly when all rows that beat the stored id have one content |
| SyncStore.AdvanceSafeIff | src/daemon_runtime.rs:2026-2033 | the watermark moves even if rows of the page were not accepted; the law survives exactly when every row of the page, and every row of its last time that the limit cut off, is held all the same |
| SyncStore.TiesSafeIff | src/db.rs:4964-4983 | without any assumption on times, merging a whole page and moving the mark keeps the law exactly when the rows of its last time that it cut off were held before |
| SyncStore.PageCarriesSafety | src/daemon_runtime.rs:2020-2034 | with distinct write times, merging a page and moving the mark to its last time keeps the watermark law |
| SyncStore.PageCovers | src/db.rs:4961-4983 | a page leaves out no row between the mark and its own last time |
| SyncStore.TiesBreakSafety | src/db.rs:4964-4983 | any two rows of one time at a page boundary: one is lost for good |
| SyncStore.DroppedIff | src/db.rs:4193-4203 | a row is held after the insert exactly when its title was known or its id is new |
| SyncStore.RenamedRowIsLost | src/daemon_runtime.rs:2026-2033 | a row renamed at the source is dropped by the receiver's primary key, the mark moves on and the law is broken |
| SyncTheorems.WatermarkSafety | src/daemon_runtime.rs:1984-2075 | in every run over any topology, on a link whose source is fed only by its destination: in all states every source row at or below the watermark is held by the destination at that version or newer, exactly when no recorded push created the mark at a time up to which something is not held |
| SyncTheorems.StampedSafeIff | src/db.rs:4940-4958 | the record that creates the row leaves the law of the pull mark true exactly when everything dated up to the recording time is held |
| SyncTheorems.SilentSourceIsCovered | src/daemon_runtime.rs:1994-2071 | from a state in which the daemon holds all of its peer's rows until the peer's own next write, recording a push at any time is harmless |
| SyncTheorems.FirstPushLosesRow | src/db.rs:4940-4958 | two nodes, no failure, clocks in order: a row the peer writes between an empty pull and the first recorded push is lost |
| SyncTheorems.TwoNodeSafety | src/daemon_runtime.rs:1984-2075 | with two nodes the same equivalence for every pull and every push watermark, whoever runs the daemon, with failed, repeated and late transfers |
| SyncTheorems.StepKeepsLink | src/daemon_runtime.rs:1984-2075 | each single step (write, open, merge a row, commit, fail, late arrival) keeps the law and what a transfer under way needs, if a step that creates the mark is covered |
| SyncTheorems.TransferRun | src/daemon_runtime.rs:2007-2034 | a half of the daemon's cycle, merging a whole page and recording its mark, is a run of the protocol |
| SyncTheorems.RelayBreaksSafety | src/daemon_runtime.rs:2007-2034 | for any two rows, a third node relaying the older one yields a run that violates the law |
| SyncTheorems.ArrivalSafeIff | src/daemon_runtime.rs:2026-2031 | a foreign row arriving at the source keeps the law exactly when it is above the mark, or the destination holds it, or the source had it already |
| SyncTheorems.WriteSafeIffAboveMark | src/daemon_runtime.rs:2036-2047 | a write keeps the law exactly when its time is above the watermark or the destination holds such a version |
| SyncProtocol.WriteRowLaws | src/db.rs:993-1034 | a local write: the title keeps its row id, the row gets the new content and time, every other row stays |
| SyncTheorems.ClockSkewBreaksSafety | src/daemon_runtime.rs:2020-2034 | two agreeing nodes and a writer with a clock behind the mark: the law fails |
| SyncConvergence.RunGivesPairInv | src/daemon_runtime.rs:1984-2075 | every state of every two-node run whose records were covered gives both watermark laws of a daemon and its peer |
| SyncConvergence.CycleIsRun | src/daemon_runtime.rs:1984-2075 | from a world of daemon and peer every cycle of every fate is a run of the protocol to a world with the cycle's stores and marks |
| SyncConvergence.ChainIsRun | src/daemon_runtime.rs:2125-2165 | and so is every chain of cycles |
| SyncConvergence.TransferKeeps | src/daemon_runtime.rs:2020-2071 | one half of a cycle keeps both watermark laws whether or not its mark is recorded; a recorded non-empty page strictly raises its mark |
| SyncConvergence.FirstRecordIsSafe | src/db.rs:4940-4958 | in a cycle without a write in its midst the pull mark that a first record makes up is safe, at whatever time |
| SyncConvergence.CycleKeepsInv | src/daemon_runtime.rs:1984-2075 | a whole cycle without a write in its midst keeps both laws, however it fails and whenever it records |
| SyncConvergence.CycleShrinksBacklog | src/daemon_runtime.rs:2020-2071 | no cycle lengthens the backlog of version times above the two marks; a completed one shortens it by at least the rows it moved |
| SyncConvergence.Converges | src/daemon_runtime.rs:2125-2165 | once writes stop, as many completed cycles as there were times above the marks make both stores equal, with any failed cycles in between, for every batch size as long as no push is refused for its size |
| SyncConvergence.ExhaustiveCycleAgrees | src/daemon_runtime.rs:1984-2075 | one completed cycle makes the stores equal when all that waits fits one pull page and one push request |
| SyncConvergence.AgreeStays | src/daemon_runtime.rs:1984-2075 | equal stores stay equal, whatever a cycle sends |
| SyncConvergence.ConvergesInPages | src/daemon_runtime.rs:2125-2165 | the stores are equal after one completed cycle more than full pull pages and full push requests go into the backlogs, with any failed cycles in between |
| SyncConvergence.PushMovesIff | src/handlers.rs:3753-3761 | a cycle the network completes moves the push mark exactly when rows wait and they, or the batch size, fit one request |
| SyncConvergence.RepeatedPushIsIdle | src/daemon_runtime.rs:2049-2071 | a push that was applied but not recorded is sent again, and applying it again changes nothing |
| SyncConvergence.OversizeBatchStalls | src/handlers.rs:3753-3761 | with a batch size over the push limit and more rows waiting than it, no later cycle ever changes the peer or the push mark |
| SyncDaemon.MemoriesUpdatedSince | src/db.rs:4964-4983 | the result is a page: rows above the mark, oldest first, at most the limit, none skipped |
| SyncDaemon.SyncNode.Observe | src/db.rs:4883-4904 | observing creates the row or raises its pull mark, and touches no push mark and no other peer |
| SyncDaemon.SyncNode.RecordPush | src/db.rs:4940-4958 | recording raises the push mark; if there was no row the pull mark becomes the current time |
| SyncDaemon.PullOnce | src/daemon_runtime.rs:1994-2034 | the pull half merges a page of the peer and raises the pull mark of this peer only |
| SyncDaemon.PushOnce | src/daemon_runtime.rs:2036-2071 | the push half: who changes, which of the two marks moves and what is reported, for each way the network can fail |
| SyncDaemon.SyncCycleOnce | src/daemon_runtime.rs:1984-2075 | the cycle is the specified cycle on the pair of stores and marks, and reports success exactly when both halves did |
| SyncDaemon.RunSyncDaemon | src/daemon_runtime.rs:2115-2172 | the loop with its batch clamp: every cycle that reaches the peer carries all that waits or full pages of max(1, batch size) rows, capped at 10000 for a pull; both watermark laws are kept; and the stores converge within the pages, and within the rows, of the backlog unless a push is refused for its size |
| AuditChain.VerifyChainFromReader | src/audit.rs:644-723 | no failure exactly when every line is clean; otherwise the first faulty line with its kind, told from the line and the events before it (does not parse; else does not link; else its number has not passed a non-zero one; else its hash is not its own), and the count of non-blank lines up to it |
| AuditChain.FaultMeans | src/audit.rs:655-715 | what each verdict on a line says of the line, and the order of the checks |
| AuditChain.BlankMeans | src/audit.rs:655-660 | only lines of spaces, tabs and line ends are passed over |
| AuditChain.CountedLines | src/audit.rs:655-662 | the count is that of the positions of non-blank lines |
| AuditChain.EditedEventIsFound | src/audit.rs:699-715 | an event of an accepted log edited with its hashes kept is reported at its line as SelfHash, or the two texts are a collision |
| AuditChain.ForeignLineIsFound | src/audit.rs:663-675 | a line that does not parse, put anywhere into an accepted log, is reported there as Parse |
| AuditChain.RemovedEventIsFound | src/audit.rs:676-685 | an event taken out is reported at the next one as ChainBreak, unless its hash is its predecessor's |
| AuditChain.CleanIffIntact | src/audit.rs:644-723 | the line-by-line verdict holds exactly when all non-blank lines parse, each event names its predecessor's hash and carries its own, and numbers rise |
| AuditChain.CleanPrefix | src/audit.rs:644-723 | acceptance is prefix-closed |
| AuditChain.TailHashCommits | src/audit.rs:366-381 | two linked logs with one final hash are equal, or exhibit a collision, or an event hashing to the zero head |
| AuditChain.AcceptedLogsCommit | src/audit.rs:644-723 | the same for any two files the verifier accepts |
| AuditSink.SanitizeLaws | src/audit.rs:520-534 | a sanitized field is within its length and free of control characters but the tab; clean fields are untouched and sanitizing twice is sanitizing once |
| AuditSink.SurvivorsInOrder | src/audit.rs:520-534 | every printable character survives in its place among the others, and the rest go |
| AuditSink.FieldIsFront | src/audit.rs:520-534 | a field is the first characters that survive, as many as its length allows |
| AuditSink.TargetLaws | src/audit.rs:470-500 | a recorded target has ids and namespaces of at most 128 characters and a title of at most 200; clean ones are untouched |
| AuditSink.Sink.constructor | src/audit.rs:237-284 | opening a file seeds the head from the last line that parses and starts the counter at zero |
| AuditSink.Sink.TryEmit | src/audit.rs:470-518 | an emission is the specified one: a failed write spends a number and changes nothing else |
| AuditSink.ReadChainTail | src/audit.rs:328-350 | the hash of the last line that parses, none if no line does |
| AuditSink.MalformedTailIsPassedOver | src/audit.rs:328-350 | lines that do not parse at the end of a file change nothing about where the chain continues |
| AuditSink.EmitKeepsInStep | src/audit.rs:470-518 | an emission keeps the head in memory equal to the head on disk and every link intact |
| AuditSink.SecondWriterBreaksChain | src/audit.rs:32-36 | two sinks that read one head: however many lines the first has written, the first line of the second is a chain break unless the last of those hashes to the head itself |
| AuditSink.SharedFileAcceptedIff | src/audit.rs:32-36 | any number of processes on one fresh file, in any interleaving: the log is accepted if one of them wrote every line, and only then, or it holds an event hashing to the zero head |
| AuditSink.UninterruptedIsEmit | src/audit.rs:482-518 | a thread that takes the lock, its number and its write without interruption does exactly one emission |
| AuditSink.InterleavingAccepted | src/audit.rs:470-518 | every interleaving of threads, with any writes failing, leaves a log the verifier accepts, one line per success, in order, numbers strictly rising |
| AuditSink.RestartsKeepLinks | src/audit.rs:247-252 | across any number of restarts, over any unparsable lines, no hash link breaks |
| AuditSink.RestartVerdict | src/audit.rs:686-698 | the first line of a new run is flagged Sequence exactly when one more than its failed writes has not passed the old log's last number |
| AuditSink.RestartAcceptedIff | src/audit.rs:686-698 | one run on an accepted log: the whole file is accepted exactly when the run writes nothing or its first number has passed the log's last |
| AuditSink.RestartsAcceptedIff | src/audit.rs:237-284 | a log over any number of restarts is accepted exactly when this holds at every seam, told from the failed and successful writes alone |
| AuditSink.SecondRunIsFlagged | src/audit.rs:279 | with no failed write, a log of two non-empty runs is rejected, and flagged at the second run's first line |
| Vectors.CauchySchwarz | src/embeddings.rs:213-224 | in every dimension the squared dot product is at most the product of the squared norms |
| Vectors.DotAdds | src/hnsw.rs:90-97 | the dot product adds up the products over the dimensions |
| Vectors.CosineBounded | src/embeddings.rs:213-224 | cosine similarity lies in [-1, 1], also for different dimensions and near-zero norms |
| Vectors.CosineTimesNorms | src/embeddings.rs:213-224 | off the two degenerate branches the similarity times the norms is the dot product; on them it is zero |
| Vectors.UnitDistance | src/hnsw.rs:90-97 | between unit vectors the index distance lies in [0, 2], is symmetric and is one minus the cosine |
| Vectors.DistanceRanksLikeCosine | src/hnsw.rs:90-97 | nearest first by distance is most similar first by cosine |
| HitLists.DedupKeepsIds | src/hnsw.rs:300-302 | de-duplication keeps each id once and loses none |
| HitLists.SortStable | src/hnsw.rs:296-305 | sorting keeps the order of hits at one distance |
| HitLists.SortedCutIsNearest | src/hnsw.rs:304-306 | sorting and cutting yields k nearest; every hit cut away is beaten or tied by k others |
| HitLists.NearestIsUnique | src/hnsw.rs:304-306 | any two lists of k nearest show the same distances |
| VectorIndex.OpsConsistent | src/hnsw.rs:122-245 | after any operations all entries are the snapshot without the removed ids followed by the overflow, the overflow is under 200, an insert leaves at most 100000, and added equals live plus removed plus evicted |
| VectorIndex.InsertLaws | src/hnsw.rs:157-233 | an insert leaves the newest entries with the new one last, drops and counts the oldest only over 100000, and builds the graph anew exactly at the 200th waiting entry or when something is dropped |
| VectorIndex.RecentEntriesStay | src/hnsw.rs:157-245 | an entry not removed and followed by fewer inserts than the index holds is in the index |
| VectorIndex.SearchSound | src/hnsw.rs:251-308 | whatever the graph returns, hits are live, of distinct ids, ascending and at most k |
| VectorIndex.OverflowNeverLost | src/hnsw.rs:284-306 | if no re-inserted id has changed its distance, an overflow entry left out is beaten or tied by k returned hits, whatever the graph returned |
| VectorIndex.SearchIsLinearScan | src/hnsw.rs:251-308 | with an exact graph, and if no re-inserted id has changed its distance, the result is k nearest of the live entries with the distances of a linear scan, in spite of the 2k cut, the filter, the merge and the de-duplication |
| VectorIndex.SearchIsLinearScanIff | src/hnsw.rs:251-308 | the condition is exact: with an exact graph the search for all entries agrees with the scan if and only if every overflow entry is as far from the query as the snapshot entry of its id |
| VectorIndex.FreshIsCurrent | src/hnsw.rs:298-302 | unique live ids, none of the overflow's in the snapshot, meet the condition for every query |
| VectorIndex.ReinsertedState | src/hnsw.rs:236-245 | building, removing and re-inserting an id leaves its old vector in the snapshot |
| VectorIndex.StaleDistance | src/hnsw.rs:300-302 | in that state search differs from the scan for every query to which the two vectors are not equally far |
| VectorIndexObject.VectorIndex.constructor | src/hnsw.rs:122-131 | building yields the specified state and a consistent index |
| VectorIndexObject.VectorIndex.Insert | src/hnsw.rs:157-233 | inserting is the specified change (`InsertLaws`), keeps the index consistent and within the cap, with the new entry last |
| VectorIndexObject.VectorIndex.EvictOldest | src/hnsw.rs:171-232 | over 100000 entries exactly the oldest excess goes and is counted, and the graph is rebuilt |
| VectorIndexObject.VectorIndex.Remove | src/hnsw.rs:236-245 | removing is the specified change and keeps the index consistent |
| VectorIndexObject.VectorIndex.Rebuild | src/hnsw.rs:321-328 | rebuilding is the specified change and keeps the index consistent |
| VectorIndexObject.VectorIndex.Search | src/hnsw.rs:251-308 | the search loop computes the specified search |
| VectorIndexObject.ScanBuilt | src/hnsw.rs:267-282 | the loop with its early exit keeps exactly the first valid answers: 2k of them or all there are (one for k = 0) |
| Clusters.JaccardLaws | src/autonomy.rs:258-280 | similarity is symmetric, in [0, 1], 1 exactly for equal non-empty token sets, 0 exactly for disjoint ones |
| Clusters.SimilarIffShared | src/autonomy.rs:240-251 | two memories are similar exactly when at least 55 of every 100 tokens are shared |
| Clusters.GrowCluster | src/autonomy.rs:231-251 | one seed's cluster: unused members only, ascending, similar to the seed, at most eight; a similar unused position it left out comes after the last of eight |
| Clusters.ClusterGroup | src/autonomy.rs:228-255 | the clusters of one namespace are disjoint and well-formed, their seeds rise, each took all it could, and what is left is pairwise below the threshold |
| Clusters.FindConsolidationClusters | src/autonomy.rs:217-256 | for any order of namespaces: disjoint clusters of two to eight, one unreserved namespace each, all similar to the seed; a later candidate of the namespace similar to the seed is in the cluster, or in an earlier one, or after the last of eight; leftovers of a namespace are pairwise below the threshold |
| Rollback.UndoConsolidation | src/autonomy.rs:564-579 | undoing a consolidation never aborts, puts every snapshot, however old, back on its place and touches no other original |
| Rollback.ReverseConsolidationLaws | src/autonomy.rs:564-579 | on any table: refused and unchanged if any original has another listed row on its place, else the result row goes, the originals are inserted, and the answer is whether the result row was there |
| Rollback.UndoForget | src/autonomy.rs:580-584 | undoing a forget puts the snapshot back if the row was there or its title is free, touches no other original, and is refused exactly when the row was already gone and a visible result row has its title |
| Rollback.UnseenRowIsOverwritten | src/autonomy.rs:609-639 | another row that has the title is refused if the listing shows it, and otherwise overwritten |
| Rollback.UndoPriority | src/autonomy.rs:585-605 | undoing a priority change restores it, also when the row is gone |
| Rollback.RollbackRowByRow | src/autonomy.rs:562-639 | undoing a run's entries last in first out brings back the same ids, and every row is what the entries about that row alone make of it, whatever the collision checks can see |
| Rollback.RollbackLastCompletesIff | src/cli/curator.rs:188-231 | the loop that stops at the first error runs to the end, and then leaves the same table, exactly when no forgotten row was already gone with its title seen taken |
| Rollback.UndoNewest | src/cli/curator.rs:188-231 | undoing only the newest entries leads back to the table before them: its rows on their places, and besides at most originals removed earlier |
| RollbackStop.RollbackLastRestoresIdsIff | src/cli/curator.rs:188-231 | after a whole run the loop that stops at an error brings all ids back exactly when no entry is refused |
| Autonomy.IsSuperseded | src/autonomy.rs:360-393 | the walk over the contradiction list answers whether a listed candidate is newer and at least as confident |
| Autonomy.FindLaws | src/autonomy.rs:375-378 | a lookup by id finds the candidate added last under it |
| Autonomy.SuccessionEnds | src/autonomy.rs:177-193 | from every candidate a chain, strictly newer and at least as confident at each step, ends in one that is not superseded |
| Autonomy.ForgetPassRemoves | src/autonomy.rs:177-193 | the forget pass removes exactly the superseded candidates |
| Autonomy.ChainEndSurvives | src/autonomy.rs:354-414 | a candidate that is not superseded is still in the table after the pass |
| Autonomy.ForgottenHasSurvivor | src/autonomy.rs:177-193 | from every id the pass took out of the table a chain, strictly newer and at least as confident at each step, ends in a candidate the pass leaves |
| Autonomy.FeedbackLaws | src/autonomy.rs:416-450 | feedback moves a priority by at most one and keeps it in 1..10; up exactly for ten reads, the last within seven days, down exactly for no read in thirty days, short of the bounds |
| Autonomy.MaxPriority | src/db.rs:2374-2387 | the merged row's priority is at least 5 and every source's, and one of these |
| Autonomy.MaxTier | src/autonomy.rs:323-352 | the merged row's tier is one of the cluster's and no lower than any |
| Autonomy.TotalAccessAdds | src/db.rs:2374-2387 | access counts of sources add up |
| Autonomy.TotalAccessInAnyOrder | src/db.rs:2374-2387 | and do so in any order |
| Autonomy.MergedRowLaws | src/autonomy.rs:312-340 | the merged row column by column: the summary, the seed's namespace and prefixed title, confidence 1, no expiry, both times now, the sum of accesses |
| Autonomy.ConsolidateLaws | src/db.rs:2357-2475 | after a successful consolidation the merged row is there under the fresh id, the sources are gone and every other row is as it was |
| Autonomy.RunLeavesTrail | src/autonomy.rs:147-215 | every run over copies of rows, however old, with any failing summaries and refused merges, leaves a log whose entries record its steps |
| RollbackOutcome.RunOutcome | src/autonomy.rs:147-215 | a whole run and its rollback: for every candidate the row that comes back, in full: itself with the priority its copy knew, or its copy, or its copy without the expiry |
| RollbackOutcome.RunSparesOthers | src/autonomy.rs:147-215 | the same ids come back, and rows that are no candidates as they were |
| RollbackOutcome.RunRestoresIff | src/autonomy.rs:147-215 | exactly when a row comes back unchanged up to its update time, for copies of any age |
| RollbackOutcome.CurrentCopiesRestoredIff | src/autonomy.rs:147-215 | with a copy as good as its row: exactly unless it is long-tier with an expiry, superseded, and consolidated away leaving its title unused |
| RollbackOutcome.StaleCopyReplacesRow | src/curator.rs:188-195 | any row whose copy is out of date and superseded is replaced by the copy |
| RollbackOutcome.LongRowLosesExpiry | src/autonomy.rs:574-584 | every such row, merged in any one cluster and superseded as well, comes back without its expiry |
| RollbackOutcome.ThreeRowsSuffice | src/autonomy.rs:147-215 | three rows are enough for that |
| AutonomyRun.MemoryDb.Insert | src/db.rs:993-1034 | the upsert statement is the specified one, whose columns `InsertOnTakenPlace` and `InsertOnFreePlace` pin |
| MemoryStore.InsertOnTakenPlace | src/db.rs:1000-1025 | on a taken title, whatever the id: the incoming text, source, time and metadata; the stored id, place, creation and access columns; the larger priority and confidence; a tier that never falls, an expiry only off the long tier, an author that never changes; no other row touched |
| MemoryStore.InsertOnFreePlace | src/db.rs:993-1034 | on a free title the row goes in as it is exactly when its id is free |
| MemoryStore.ConsolidateMeans | src/db.rs:2357-2475 | the transaction succeeds exactly when all sources are there and the new row's id and title are free, and what it leaves |
| AutonomyRun.MemoryDb.Consolidate | src/db.rs:2357-2475 | the consolidation transaction: all or nothing |
| AutonomyRun.ConsolidateCluster | src/autonomy.rs:282-344 | one consolidation is the specified step, whose row and table `MergedRowLaws` and `ConsolidateLaws` pin; a dry run or a refusal changes nothing |
| AutonomyRun.ForgetIfSuperseded | src/autonomy.rs:354-414 | one forget is the specified step, logged even when the row is already gone |
| AutonomyRun.ApplyPriorityFeedback | src/autonomy.rs:416-473 | one priority change is the specified step |
| AutonomyRun.RunAutonomyPasses | src/autonomy.rs:147-215 | all passes in order compute the specified table and log over lawful clusters; a dry run changes nothing |
| AutonomyRun.PassesRunOver | src/autonomy.rs:147-215 | the clusters the passes form make a run that the theorems on run and rollback cover |
| AutonomyRun.CheckNoCollision | src/autonomy.rs:609-639 | refuses exactly when another listed row has the title and namespace |
| AutonomyRun.ReverseRollbackEntry | src/autonomy.rs:562-607 | undoing one entry is the specified change, with its errors |
| AutonomyRun.RollbackLast | src/cli/curator.rs:188-231 | the command line's loop is the specified one: it stops at the first error |
| Config.LookupUnique | src/config.rs:1206-1238 | a lookup has one answer, so the order of the table cannot show |
| Config.RankInjective | src/config.rs:1215-1228 | no two keys match a namespace equally well |
| Config.MatchLaws | src/config.rs:1206-1238 | which keys match a namespace (itself, the star, a prefix before a slash and a star for the prefix and all below it) and how they rank |
| Config.AgentMatchLaws | src/config.rs:2180-2205 | which keys match an agent and how they rank |
| Config.PickNamespace | src/config.rs:1206-1238 | for every order of the table the walk returns the value of the most specific key that sets the field |
| Config.Resolve | src/config.rs:1200-1264 | both lifetimes come from the most specific pattern setting them, and lie in 1..315360000 |
| Config.LifetimeLaws | src/config.rs:1240-1257 | a positive pick stands up to the ten-year cap, a non-positive one is the default, without one the global value counts the same way |
| Config.ExactEntryDecides | src/config.rs:1206-1213 | an exact entry decides every field it sets, each for itself |
| Config.AutoExtractFor | src/config.rs:1281-1317 | on exactly when the most specific pattern that sets the flag sets it to true |
| Config.FallThroughIff | src/config.rs:1195-1198 | code and documentation agree exactly when the picked value is positive or absent, or the next layers lead to the default anyway |
| Config.NonPositiveHidesLowerLayers | src/config.rs:1240-1252 | a concrete table where they differ |
| Config.AllowlistDecision | src/config.rs:2171-2208 | disabled exactly without a table; otherwise the most specific key decides, in whatever order the table is walked |
| EmbeddingBlob.EncodeEmbeddingBlob | src/embeddings.rs:353-360 | the header byte 0x01 and then every word, four bytes each, its lowest byte first |
| EmbeddingBlob.DecodeUndoesEncode | src/embeddings.rs:353-405 | headed and legacy blobs of a vector both decode to it, their lengths never overlap, and `decoded_dim` is its length |
| EmbeddingBlob.DecodeSucceedsIff | src/embeddings.rs:377-421 | exactly which blobs decode, and that the result is as long as `decoded_dim` says |
| EmbeddingBlob.DecodeErrors | src/embeddings.rs:377-421 | what a blob that does not decode is refused for, and its dimension all the same |
| EmbeddingBlob.EncodeUndoesDecode | src/embeddings.rs:377-405 | re-encoding a decoded blob gives it back, with the header added to a legacy one |
| UrlEncoding.UrlencodingMinimal | src/daemon_runtime.rs:2244-2259 | the loop computes the encoding |
| UrlEncoding.ByteLaws | src/daemon_runtime.rs:2249-2255 | letters, digits and four marks come out as themselves, every other byte as a percent sign and two upper-case digits of its value |
| UrlEncoding.DecodeUndoesEncode | src/daemon_runtime.rs:2244-2259 | a decoder after RFC 3986 undoes it on every byte string |
| UrlEncoding.EncodeInjective | src/daemon_runtime.rs:2244-2259 | different inputs never encode alike |
| UrlEncoding.OutputAlphabet | src/daemon_runtime.rs:2249-2255 | only unreserved characters and the percent sign come out |
| Bench.PercentileMonotone | src/bench.rs:489-504 | for sorted samples the percentile never falls as the quantile rises |
| Bench.PercentileBounded | src/bench.rs:489-504 | it runs from the smallest to the largest sample and stays between them |
| Bench.PercentileInterpolates | src/bench.rs:489-504 | between two neighbouring ranks the percentile runs straight from one sample to the next |
| Bench.PercentileSummary | src/bench.rs:451-478 | p50, p95 and p99 are those of the sorted samples, ordered and in range, and the status compares p95 with the tolerance |

## Left out

- Columns of a synced row other than its time, id and content: `insert_if_newer` merges priority, confidence, access count, tier, expiry and metadata by rules of their own (maxima, never downgrading), which can differ between nodes for good.
- Deletions, archives, links and the other parts of a push request; a daemon with several peers runs one such cycle per peer.
- `src/validate.rs`: `SyncDaemon.PullOnce` and `SyncDaemon.PushOnce` merge every row of a page, that is, rows pass validation and no id is in use under another title; `AdvanceSafeIff` and `DroppedIff` say what happens otherwise.
- Sync-state rows the server side records for a puller: they are kept under the puller's own agent id and are not read by the daemon.
- Writes in the middle of a cycle: `SyncDaemon` and `SyncConvergence` have none; `SyncTheorems` covers them.
- HTTP, TLS, signals, task spawning and timers; failures appear as the fate of a cycle.
- SHA-256, JSON syntax, file flags and read errors. A failed audit write leaves no output here; a write torn in the middle of a line is not modelled, nor is the wrap-around of the 64-bit counter.
- Audit event fields beyond those in `AuditChain.Event`; they are carried along unread. Blank lines are lines of ASCII white space.
- The construction of the HNSW graph, and NaN distances, on which the source panics.
- Floating-point rounding: distances, similarities and percentiles are exact reals, and norms are handed to `CosineSimilarity` instead of a square root being taken.
- The words a memory's content is split into: any tokenizer is allowed, so Unicode classes and case folding are not modelled.
- The `embedding` column and the links of a memory: both go when a row is deleted (links by cascade), and a rollback brings neither back. "Restored" here is about the columns of `MemoryStore.Memory`.
- A candidate whose row was deleted, or given another title, between the reading of the candidates and the run.
- The order in which `db::list` hands out the rollback entries and their `_reversed` tag: `AutonomyRun.RollbackLast` undoes the given log from its end.
- Storage of rollback entries as memories: the log is kept whole and in order. In the source two entries of one action and one timestamp would share a title.
- Tags and metadata of a consolidated row, which `db::consolidate` merges, are inputs, as are the summary, the fresh id and the clock; access counts are added without saturation.
- Counters and error texts of the autonomy report, and the self-report memory.
- Capability reports, environment overrides, scoring half-lives and the writing of default files in `src/config.rs`.
- `src/curator.rs`, `src/llm.rs`, the embedding models, the command line, and the remaining modules.
