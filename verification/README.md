# Model of a live text synchronisation server

The server keeps text files that several clients edit at once. A client sends its edits as
chunks (insertions and removals at positions) together with the version they were made
against; the server carries them past the operations committed since (operational
transformation), stores the result as the next version, and broadcasts it. Contents are
cached and written back late; snapshots of older versions are kept as full texts and deltas.

The project models that server and proves what its parts and every run of it guarantee.
Nothing of the original program was executed.

| file | what it holds |
|---|---|
| Chunks | chunks, applying and transforming them, validation, bounds |
| Convergence | both orders of concurrent edits: the diamond with its exact condition, the ladder along a log, whole messages |
| Intent | what a stale edit does to the individual runes its author saw |
| EditScripts | from a diff script to chunks, and back by applying them |
| MachineInts, MachineRuns | exactly when 64-bit arithmetic does what the integers used elsewhere do, for chunks, logs and runs |
| Files | one file: rows, object, cache entry, and one function per routine of the server |
| Runs, Snapshots | the invariant of every step, histories, stale messages, the snapshot table |
| Guarantees | what holds after any run |
| Effects, Delivery | what each step achieves, for files and for subscribers: what is stored, written, removed, told and received |
| ServerModel, Refinement | all files together; the cache cannot be observed |
| Copies | several copies of one file in memory at once |
| Replicas | subscriber queues, replicas, catching up |
| Witnesses | runs that show what the guarantees leave out |
| Tables, Server | tables and objects as they are laid out, and the classes that update them in place, proved to perform the steps of the other modules |

A text is a `seq<char>`, one element per rune. A `History` holds the text of every version
and the committed operations; it is no part of the server and exists only to state what the
server guarantees. Time is a clock that never goes back. Failures of database and disk are
the `fault` parameters (unless stated otherwise integers are unbounded); the answer of the diff library is a parameter of the configuration,
known only to partition the old and the new text; the path of a new object is a parameter
that must be unused. Which file the cache drops, and when, is up to the
run, and so is whether a file has been idle long enough when the background routine visits it.

The methods of `Syncinator` state their whole effect as an equation between the view before
and after (`View()` resolves every path and lists every file; `Subs()` lists the queues), so
each is one step of the state machine the lemmas are about.

## Where the code differs from its description

- The project's own README says that committed operations go to all other clients. For
  chunk messages the code also queues them for the sender (`pkg/ws.go:281-288`); `Publish`
  follows the code.
- It also promises that all clients converge. The code drops a message when a queue is full
  (`pkg/ws.go:284-288`): `ReplicasConverge` says that a client follows a file exactly as long as
  no message about it was lost, `UnreadMessagesAreLost` that the ninth unread message is.
- The comment on `Transform` promises that an edit keeps its intent. For removals and
  insertions carried through a log `RemovalIntent` and `InsertionIntent` say what that
  means; `DiamondExact` and `DiamondBeyond`, which together cover every pair of valid edits
  and every text, say exactly when the two orders also agree.
- `fetchFileHandler` reads the file's row before taking its lock (`pkg/api.go:265-288`), so a
  commit in between shows in the text but not in the version: `FetchedPairWrong` is such a run,
  `FetchAcrossCommits` gives the condition.
- Old operations are purged by age, and an empty answer of the query passes a stale message
  on as it is (`pkg/ws.go:188-202`). `StaleExact` gives the exact condition and
  `PurgedLogIgnoresStaleness` an input.
- `ValidateChunks` puts no bound on a position or a removal's length, so the end of a range can
  overflow. A removal beyond the text is then harmless where it is applied but not where it is
  stored: it shortens the next removal carried past it, down to an invalid chunk that panics
  (`StoredRemovalPanics`, `MessageWithoutRoomPanics`). `TransformExact`, `ThroughExact`,
  `ThroughAgrees` and `DiamondExactOnMachine` give the exact conditions; a check on receipt
  that makes every run safe is the one of `MachineRunAgrees`.
- `TransformMultiple` carries each chunk of a message past the same edit, though the chunks are
  applied one after the other (`pkg/diff/diff.go:170-178`); `InStepExact` and the lemmas after
  it say how far that is right.

## Model

| member | source | states |
|---|---|---|
| Chunks.ValidateChunks | pkg/diff/diff.go:24-40 | accepts a list exactly when every chunk is valid; otherwise names the first invalid chunk, everything before it being valid, and a test that it fails |
| Chunks.ApplyMultiple | pkg/diff/diff.go:75-82 | the rebinding loop computes the left fold of single edits, for lists with negative positions too |
| Chunks.TransformMultiple | pkg/diff/diff.go:167-181 | the two nested loops carry each chunk on its own through the whole list |
| Chunks.ApplyShape | pkg/diff/diff.go:84-113 | a valid edit pastes its text at, or cuts its range out of, the clamped position, for every length of text |
| Chunks.LogFolding | pkg/diff/diff.go:167-181 | transforming against `a ++ b` is transforming against `a` and then against `b` |
| Chunks.ValidityClosed | pkg/diff/diff.go:24-40 | transforming a valid list through a valid list gives a valid list of the same length, types, texts and insertion lengths |
| Chunks.BoundsKept | pkg/diff/diff.go:129-181 | an edit in bounds at the base is in bounds of the text at every stage of an arbitrary valid log, clamped entries included, and finally changes the length by exactly its own |
| Convergence.RemovalsConverge | pkg/diff/diff.go:148-161 | over unbounded integers two removals converge on every text, in bounds or not; on 64 bits see `RemovalsConvergeExactly` |
| Convergence.InsertionsConverge | pkg/diff/diff.go:130-134 | two insertions at different positions converge when the left one fits the text |
| Convergence.InsertionRemovalConverge | pkg/diff/diff.go:135-147 | an insertion and a removal, one of which fits the text, converge unless the insertion is strictly inside the removed range |
| Convergence.TieShape | pkg/diff/diff.go:132-134 | two insertions at one position: the one carried past the other lands behind it, so the two orders swap the two texts |
| Convergence.SplitShape | pkg/diff/diff.go:138-147 | an insertion strictly inside a removal: one order loses the inserted text, the other keeps it at the start of the removed range; the results differ by exactly that text |
| Convergence.Diamond | pkg/diff/diff.go:84-165 | if one of two valid edits fits the text, or both are removals, both orders reach the same text unless they tie or one splits the other |
| Convergence.DiamondExact | pkg/diff/diff.go:84-165 | the exact condition, both directions: the two orders agree if and only if a tie has commuting texts and a splitting insertion is empty |
| Convergence.DiamondBeyond | pkg/diff/diff.go:84-165 | the exact condition for all remaining pairs, of which neither edit fits the text and one inserts: when clamping lets the two orders agree |
| Convergence.BothOutOfBoundsDiverge | pkg/diff/diff.go:93-95 | a pair of insertions beyond the end of the text, at different positions, that diverges |
| Convergence.Strip | pkg/diff/diff.go:129-181 | a log and then an edit carried through it, or the edit and then the log with each entry carried past the edit: the same text, whatever the length of the log, when no rung is an exceptional pair |
| Convergence.InStepExact | pkg/diff/diff.go:167-181 | a message each chunk of which is moved past the original edit as it would be past the edit as it stands by then, and clashes with it nowhere, is exact: same result as running the message first and the edit, carried through it, afterwards |
| Convergence.MessageExact | pkg/diff/diff.go:167-181 | ties allowed: a message all of whose chunks lie at or to the right of what a concurrent edit touches is exact, with the edit unchanged |
| Convergence.LastChunkInStep | pkg/diff/diff.go:167-181 | after a part in step, one more chunk in step leaves the message exact if and only if it meets the exact condition of the diamond |
| Convergence.OutOfStepExact | pkg/diff/diff.go:170-178 | after a part in step, one more chunk that clashes with nothing leaves the message exact, where all runes differ, if and only if it hits the spot it would hit in step |
| Convergence.OutOfStepRepaired | pkg/diff/diff.go:170-178 | no converse for longer messages: a message out of step that a later chunk makes exact again |
| Convergence.MessageNotExactInGeneral | pkg/diff/diff.go:170-178 | without that condition it is not: a message of two insertions for which the two orders differ |
| Intent.TrackErases | pkg/diff/diff.go:84-116 | following a log on runes tagged with their provenance gives, tags forgotten, the text the server computes |
| Intent.RemovalIntent | pkg/diff/diff.go:84-181 | a removal carried through any valid log deletes, rune by rune, every surviving base rune of its range, no other base rune, and of the inserted runes exactly those put strictly inside the range as it stood |
| Intent.SurvivorsMembership | pkg/diff/diff.go:104-112 | which tagged runes survive: those of the text that are not doomed, no others |
| Intent.InsertionIntent | pkg/diff/diff.go:84-181 | an insertion carried through any valid log lands in one piece, after every surviving base rune left of its position and before every other one |
| EditScripts.Compute | pkg/diff/diff.go:42-73 | the loop with its running index computes the chunk list that `RoundTrip` speaks of |
| EditScripts.ScriptRewrites | pkg/diff/diff.go:47-72 | with any finished prefix, the chunks of the remaining script turn the rest of the old text into the rest of the new one, each in bounds where it is applied and each removal naming the text it removes |
| EditScripts.RoundTrip | pkg/diff/diff.go:42-116 | for every script that partitions the old and the new text: applying the computed chunks to the old text gives the new one, they pass validation, and none clamps |
| MachineInts.ApplyExact | pkg/diff/diff.go:84-116 | in 64-bit arithmetic a valid chunk is applied as specified, except that a removal inside the text whose end overflows panics |
| MachineInts.TransformExact | pkg/diff/diff.go:129-165 | for any two accepted chunks, the exact condition under which the 64-bit result is the specified one |
| MachineInts.ValidityExact | pkg/diff/diff.go:129-165 | for any two accepted chunks, the exact condition under which the 64-bit result is still valid |
| MachineInts.StoredRemovalExact | pkg/diff/diff.go:104-113 | a removal beyond the text changes nothing and is stored; a later removal is carried past it, and takes effect, as specified if and only if its end is representable or there is nothing to remove, and is otherwise shortened by its length |
| MachineInts.StoredRemovalPanics | pkg/diff/diff.go:148-161 | two accepted chunks: the first is applied as nothing, the second is then carried past it to an invalid chunk that panics |
| MachineInts.OverflowingRemovalsDiverge | pkg/diff/diff.go:148-161 | two accepted removals whose two orders give different texts |
| MachineInts.OverflowingRemovalPanics | pkg/diff/diff.go:104-112 | an accepted removal that panics where it is applied |
| MachineInts.ThroughExact | pkg/diff/diff.go:167-181 | for any accepted chunk and log, 64-bit arithmetic is right at every stage if and only if every step agrees |
| MachineInts.ThroughAgrees | pkg/diff/diff.go:167-181 | an edit that fits its base is carried right through every stage of any log, and then applied right: insertions always, removals if and only if no removal of the log has an overflowing end |
| MachineInts.RemovalsConvergeExactly | pkg/diff/diff.go:148-161 | two removals converge in 64-bit arithmetic if and only if no end overflows, the text is empty, or the overflowing one is beyond the text and too short to be noticed |
| MachineInts.InsertionsConvergeExactly | pkg/diff/diff.go:130-134 | two insertions at different positions, the left one fitting, converge in 64-bit arithmetic if and only if the right one's new position is representable or its text commutes with the rest |
| MachineInts.InsertionRemovalConvergeExactly | pkg/diff/diff.go:135-147 | an insertion that fits and a removal it does not split converge in 64-bit arithmetic if and only if the moved removal still has a representable range or nothing to remove |
| MachineInts.DiamondExactOnMachine | pkg/diff/diff.go:84-165 | for the pairs of `DiamondExact`, on texts of representable length: the exact condition under which neither order panics in 64-bit arithmetic and both give the same text |
| MachineInts.RoomSuffices | pkg/diff/diff.go:84-165 | with room for both lengths nothing overflows, whether or not the edits fit the text, so `DiamondBeyond` holds in 64-bit arithmetic too |
| MachineRuns.ApplyAllExact | pkg/diff/diff.go:75-82 | a list is applied as specified, or panics exactly if some removal inside the text of its stage has an overflowing end |
| MachineRuns.RemovalIntentOnMachine | pkg/diff/diff.go:84-181 | over any log the server could apply, a stale removal is carried right at every stage if and only if no removal of the log has an overflowing end, and then has the effect of `RemovalIntent` |
| MachineRuns.OnChunksFits | pkg/ws.go:115-164 | a message whose ends stay representable with all that was inserted since is handled in 64-bit arithmetic exactly as specified |
| MachineRuns.MachineRunAgrees | pkg/ws.go:115-164 | as long as every message has that room, the 64-bit server neither panics nor departs from the specified run |
| MachineRuns.MessageWithoutRoomPanics | pkg/ws.go:115-164 | two accepted messages after which the 64-bit server is gone |
| Files.TransformStaleValid | pkg/ws.go:166-203 | what the stale transformation returns is valid and as long as the message |
| Runs.WalkUnbroken | pkg/ws.go:186-200 | the loop over queried rows without a gap is one transform against the concatenated log |
| Runs.SurvivorsAreSuffix | internal/repository/operations.sql.go:29-32 | deleting rows by age from a table in order of creation leaves a suffix of it: every row before it has expired, none in it has |
| Runs.NewerIsSuffix | internal/repository/operations.sql.go:39-45 | the query for rows above a version returns, of a gapless table, exactly its suffix from there on |
| Runs.StaleExact | pkg/ws.go:166-203 | in every reachable state: a message of version `v` is transformed against every operation after `v` once and in order, or refused with the number of the first missing one; it goes through untransformed if and only if it is current or no row survives |
| Runs.CreatedInv | pkg/api.go:340-426 | a newly created file satisfies the invariant of runs |
| Runs.OnChunksInv | pkg/ws.go:115-164 | an incoming message, valid or not, with any fault, keeps the invariant; a commit extends the history by one version |
| Runs.FlushInv | pkg/ws.go:402-420 | write-back keeps the invariant when it succeeds, when the write fails and when the hash update fails after the write |
| Runs.EvictedFile | pkg/server.go:177-185 | eviction leaves the newest text on disk and no cache entry, unless the write itself fails |
| Runs.PurgeInv | pkg/ws.go:368-383 | purging keeps the invariant: the surviving rows stay a gapless suffix of the versions |
| Runs.ProcessInv | pkg/ws.go:321-347 | a visit of the background routine keeps the invariant, whatever fails in it |
| Runs.StepInv | pkg/ws.go:115-420 | every step of a file keeps the invariant that ties rows, disk, cache and snapshots to the history of texts and operations |
| Runs.RunKeepsSnapshots | pkg/ws.go:467-526 | no run removes or replaces a stored snapshot |
| Snapshots.VersionsDescend | internal/repository/snapshots.sql.go:100-106 | ordered by creation time and version, snapshot rows are also in strictly descending version order |
| Snapshots.ReconstructSelected | pkg/ws.go:547-628 | reconstruction at `w` gives the text of the greatest stored version not above `w`, applying no more deltas than allowed, and fails if there is none |
| Snapshots.StoredVersionsExact | pkg/ws.go:547-628 | every stored version reconstructs to exactly the text it had |
| Snapshots.ChainsShort | pkg/ws.go:434-465 | runs of deltas are no longer than the limit, checkpoints and the oldest snapshot are full |
| Snapshots.SnapshotKeepsTable | pkg/ws.go:422-545 | taking a snapshot of the current version, full or as a delta against the newest one, keeps the table well formed |
| Guarantees.SnapshotsExactInEveryRun | pkg/ws.go:422-628 | after any run from a new file: every stored version reconstructs to its text, any other version to that of the greatest stored one below it, within the limit of deltas |
| Guarantees.SnapshotsNeverRewritten | pkg/ws.go:547-628 | whatever happens after a snapshot was stored, its version keeps reconstructing to the same text |
| Guarantees.DeltaChainsShortInEveryRun | pkg/ws.go:434-465 | after any run from a new file the bounds of `ChainsShort` hold |
| Guarantees.WriteBackLag | pkg/ws.go:154-157 | after any run: the cached copy is the newest text; the disk holds some version no more than the pending changes behind, and the newest when none is pending or nothing is cached |
| Guarantees.ReloadExact | pkg/server.go:177-185 | for every fault: evicting and reloading gives the cached content back if and only if the write did not fail, was not needed, or would have changed nothing |
| Guarantees.Replay | pkg/ws.go:186-200 | the text of any version plus all later operations is the newest text |
| Guarantees.StaleRemovalOnServer | pkg/ws.go:115-203 | in every reachable state whose log reaches back far enough, a stale removal is committed and has the effect of `RemovalIntent` on the newest text |
| Guarantees.StaleInsertionOnServer | pkg/ws.go:115-203 | the same for a stale insertion and `InsertionIntent` |
| Witnesses.PurgedLogIgnoresStaleness | pkg/ws.go:188-202 | a run from a new file in which an operation is purged and a stale removal then goes through untransformed, removing a rune its author never saw |
| Guarantees.CommitOrderDecidesTies | pkg/ws.go:139-155 | any number of insertions made at one position of one version, received one after the other, end up there in the order they were committed |
| Guarantees.FetchAcrossCommits | pkg/api.go:265-288 | between reading the row and flushing: without a message the pair answered is exact; after exactly one commit, of one chunk, if and only if that chunk is an empty insertion, or a removal of nothing or beyond the end |
| Witnesses.FetchedPairWrong | pkg/api.go:265-288 | a run in which version 0 is answered with the text of version 1 |
| Effects.MessageAnswered | pkg/ws.go:115-164 | for every message and fault, from any reached state: which answer it gets, if and only if; a message not committed changes nothing but that the file may be in memory; a committed one adds exactly one row, one version and one pending change to the newest text |
| Effects.FlushWritesBack | pkg/ws.go:385-420 | for every fault: the newest text is on disk unless the write failed, and nothing is pending only if nothing failed |
| Effects.FetchAnswers | pkg/api.go:257-294 | fetching answers with the newest version and its text, or fails exactly when the write-back of a dirty file does |
| Effects.EvictAchieves | pkg/server.go:177-185 | evicting takes the file out of memory, leaves its newest text on disk and changes nothing else |
| Effects.FullDueExactly | pkg/ws.go:434-465 | a full snapshot is due if and only if there is none yet, the version is at a checkpoint, or as many of the newest snapshots as the limit allows are deltas |
| Effects.TakesSnapshot | pkg/ws.go:422-545 | for every fault: exactly one row is added, with the current version and time and in front, full if and only if due, otherwise a delta from the newest row's text to the newest text; none if the version has one or something failed that was needed |
| Effects.VisitAchieves | pkg/ws.go:321-347 | for every fault: a visit does nothing where changes are too few and too recent, and otherwise both stores the snapshot and writes back, independently of each other |
| Effects.VisitStoresNewest | pkg/ws.go:333-345 | after a due visit without faults the newest version has a row and reconstructs to its text; every older row is still there and no other has come |
| Effects.PurgedExactly | internal/repository/operations.sql.go:29-32 | a row survives if and only if it is not older than the cutoff |
| Effects.PurgeAchieves | pkg/ws.go:368-383 | a purge step of a run removes exactly the expired rows, which are the oldest, and changes nothing else |
| Effects.MessageAfterPurge | pkg/ws.go:173-202 | a stale message after a purge is transformed if the row after its version is kept, goes through as it is if none is, and is refused otherwise |
| Refinement.StepRefines | pkg/ws.go:126-163 | each step of a file with a cache either fails through a fault without visible effect, or does and answers what a file without cache does and answers |
| Refinement.ServerStepRefines | pkg/ws.go:126-163 | the same for the whole server, with purging and time concerning every file |
| Refinement.Indistinguishable | pkg/ws.go:385-420 | over any run, with any policy of loading, flushing and evicting, the answers are those of a server that keeps every file uncached and written through |
| Copies.CommitExact | pkg/ws.go:205-246 | a commit from one of several copies succeeds, faults aside, if and only if the copy is at the row's version; a failed one changes neither rows nor any copy |
| Copies.HistoryStaysLinear | internal/migration/migrations/20250102173015_add_operations_table.sql:8 | over any run with any number of copies: the row's version counts the commits, the stored versions are exactly 1 to it, and no stored operation is ever replaced |
| Copies.LoadTruthful | pkg/ws.go:660-690 | a copy loaded now holds the text of its version if and only if the object on disk is current |
| Copies.CommitFromCopy | pkg/ws.go:139-157 | a commit applies to what its copy holds: from a current copy it leaves a current one; from one of an older text everything since is lost from the copy, and from the disk once it is flushed, while the rows keep it |
| Copies.StaleLoadLoses | pkg/ws.go:660-690 | an instance: a copy loaded before a flush commits and loses the operation not flushed |
| Replicas.LostExactly | pkg/ws.go:283-288 | about each file: a message was lost if and only if some announced version never comes, and the stream is gapless exactly if none was |
| Replicas.EnqueueInv | pkg/ws.go:281-288 | announcing an operation extends the stream of a subscriber with room, and opens a gap for that file alone in the stream of one without |
| Replicas.WorldStepInv | pkg/ws.go:136-311 | committing, announcing under the file's lock, creating, subscribing, delivering, failing to deliver, disconnecting and unsubscribing keep files, histories and all streams consistent |
| Replicas.EmptyWorldInv | pkg/server.go:126-174 | a server without files and subscribers is consistent |
| Replicas.ReplicasConverge | pkg/subscriber.go:159-172 | after any run, for each subscriber and file: what it received is a strictly increasing subsequence of the log; a message about the file was lost if and only if an announced version is neither received nor queued; if none was, a replica that applied the stream up to version `w` holds the text of version `w` |
| Witnesses.UnreadMessagesAreLost | pkg/subscriber.go:58-70 | from an empty server: a subscriber that does not read misses a version, and its connection is being closed, if and only if more than 8 messages are committed |
| Replicas.CatchupExact | pkg/api.go:213-255 | reading the operations after `v` brings a replica at `v` up to the newest text, unless the log no longer reaches back, which the first row's version or the absence of rows shows |
| Delivery.CommitIsOwed | pkg/ws.go:145-163 | a commit is owed to the subscribers until it is announced; until then nobody is told |
| Delivery.LockedFileWaits | pkg/ws.go:136-137 | while an operation is owed, whatever needs the file's lock has no effect |
| Delivery.AnnouncementReaches | pkg/ws.go:267-311 | an announcement gives every connected subscriber with fewer than 8 messages queued the newest operation, lets the others miss it and sets off their closing, drops the disconnected, and unlocks the file |
| Delivery.ClosingExactly | pkg/ws.go:283-288 | one more message sets off the closing of a connection if and only if 8 are queued |
| Delivery.DeliveriesReach | pkg/subscriber.go:160-172 | `n` successful writes take exactly the first `n` messages of the queue to the client, in order |
| Delivery.DrainedReplicaIsCurrent | pkg/subscriber.go:160-172 | once the queue is written out it is empty, and a replica of a file of which nothing was lost holds the newest announced text |
| Delivery.FailedWriteLoses | pkg/subscriber.go:163-172 | a failed write loses the head of the queue and nothing else, and disconnects if and only if it is fatal |
| Delivery.DisconnectAchieves | pkg/subscriber.go:92-97 | disconnecting changes nothing but the flag |
| Delivery.NextAnnouncementDrops | pkg/ws.go:273-276 | after a fatal write or a disconnect the next announcement drops the subscriber |
| Delivery.UnsubscribedIsGone | pkg/ws.go:645-658 | unsubscribing removes that subscriber, leaves every other one as it was, and touches no file |
| Delivery.GoneUntilItSubscribes | pkg/ws.go:645-658 | over any run, whoever is gone stays gone, and is told nothing, until it subscribes again |
| Delivery.SubscribedStartsAnew | pkg/ws.go:630-642 | a new subscriber is connected, has nothing queued, and starts from what was announced of each file |
| Delivery.CreationReaches | pkg/api.go:340-426 | a new file starts at version 0 with its text, and every subscriber follows it from there |
| Delivery.ForEveryFile | pkg/ws.go:368-383 | a purge of the server removes exactly the expired rows of every file |
| ServerModel.ServerStepInv | pkg/ws.go:115-420 | a step for one file, a purge or a tick keeps the invariant of every file |
| Tables.StoreObject | pkg/ws.go:407-409 | writing a file's object, or a new object, leaves every snapshot of every file as it was |
| Tables.CommitView | pkg/ws.go:145-157 | storing an operation and updating row and cache is a commit in the view of that file and shows in no other |
| Tables.FlushView | pkg/ws.go:402-420 | writing back shows in the view of the written file alone |
| Tables.NewSnapshotView | pkg/ws.go:467-526 | a new object with its row adds one snapshot to one file; the object alone, left behind by a failure, shows in no view |
| Tables.HasRowResolves | internal/migration/migrations/20250209144741_add_snapshots_table.sql:11 | the primary key of the snapshot table refuses exactly the versions that already have a snapshot |
| Server.Options.Default | pkg/server.go:40-80 | the three snapshot and write-back parameters after defaulting; a threshold of 0 stands |
| Server.New | pkg/server.go:126-174 | the server runs with the threshold, checkpoint and chain limit of the options, 5, 5 and 10 where they are unset, and starts in a consistent world |
| Server.Subscriber.Offer | pkg/ws.go:283-288 | a send without blocking: queued if there is room among 8; otherwise lost, and the closing of the connection is set off |
| Server.Subscriber.Drain | pkg/subscriber.go:159-172 | the head of the queue is taken and written; a failed write loses it, and a fatal one also disconnects |
| Server.Subscriber.Close | pkg/subscriber.go:92-97 | marks the subscriber disconnected and touches nothing else of it |
| Server.Syncinator.CreateFile | pkg/api.go:340-426 | adds the file at version 0 with its text, changes no other file, and every subscriber follows it from there; a failure changes no file, also when the object was already written |
| Server.Syncinator.FlushFileToStorage | pkg/ws.go:402-420 | what is written to which object and when an error is returned |
| Server.Syncinator.WriteFileToStorage | pkg/ws.go:385-400 | is the flush step in the view of the file, and nothing in any other |
| Server.Syncinator.FetchFileHandler | pkg/api.go:257-294 | uninterrupted it is the fetch step: flushes what is pending, then answers with row version and object |
| Server.Syncinator.AnswerFetch | pkg/api.go:277-294 | its second part, whatever happened since the row was read: answers with the version of that row and the object after flushing |
| Server.Syncinator.EvictFile | pkg/server.go:177-185 | is the eviction step, also when the write fails |
| Server.Syncinator.FetchAndCacheFile | pkg/ws.go:660-700 | fails exactly for an unknown file or a failing load; otherwise a fresh entry is the load step |
| Server.Syncinator.ShouldCreateFullSnapshot | pkg/ws.go:434-465 | the counting loop decides exactly whether a full snapshot is due, unless a query fails |
| Server.Syncinator.ReconstructSnapshot | pkg/ws.go:547-628 | the walk from the newest row to the base and the loop back over the deltas compute the reconstruction of the specification; a failing query or read, or no base, gives an error |
| Server.Syncinator.ResolveSnapshotBaseContent | pkg/ws.go:528-545 | gives the text of the newest snapshot, or an error if a read fails |
| Server.Syncinator.CreateFullSnapshot | pkg/ws.go:467-490 | one full snapshot more, or none if something fails or the version has one |
| Server.Syncinator.CreateDiffSnapshot | pkg/ws.go:492-526 | one delta more against the newest snapshot, or none |
| Server.Syncinator.CreateFileSnapshot | pkg/ws.go:422-432 | is the snapshot step in the view of the file, and nothing in any other |
| Server.Syncinator.TransformStaleChunks | pkg/ws.go:166-203 | the loop over the queried rows computes the stale transformation of the specification, or reports the failing query |
| Server.Syncinator.PersistChunkOperation | pkg/ws.go:205-246 | both tables change or none; refused exactly when the version is taken or the database fails |
| Server.Syncinator.CommitChunks | pkg/ws.go:136-157 | is the message step of the file; a failure leaves the copy in memory as it was |
| Server.Syncinator.OnChunkMessage | pkg/ws.go:115-164 | is the message step of the whole world followed, if it committed, by the announcement: validation, loading, transformation, commit, broadcast |
| Server.Syncinator.BroadcastMessage | pkg/ws.go:267-311 | visiting the subscribers in any order drops exactly the disconnected and offers the message once to each other one |
| Server.Syncinator.AddSubscriber | pkg/ws.go:630-642 | is the subscribe step |
| Server.Syncinator.DeleteSubscriber | pkg/ws.go:645-658 | is the unsubscribe step |
| Server.Syncinator.ProcessFile | pkg/ws.go:321-347 | is the background step: snapshot first, write-back even if the snapshot failed, nothing when the changes are too few and too recent |
| Server.Syncinator.PurgeCache | pkg/ws.go:368-383 | removes the old rows of every file and nothing else, or nothing if the statement fails |

## Left out

- ValidityClosed: over unbounded integers; `ValidityExact` says exactly when the 64-bit result is valid.
- BoundsKept: over unbounded integers; `ThroughAgrees` says when the code does the same.
- RemovalsConverge: over unbounded integers; the exact condition of the code is `RemovalsConvergeExactly`.
- InsertionsConverge: over unbounded integers; the exact condition of the code is `InsertionsConvergeExactly`.
- InsertionRemovalConverge: over unbounded integers; the exact condition of the code, for insertions that fit, is `InsertionRemovalConvergeExactly`.
- Diamond: over unbounded integers; the exact condition of the code is `DiamondExactOnMachine`.
- DiamondExact: over unbounded integers; the exact condition of the code is `DiamondExactOnMachine`.
- DiamondBeyond: over unbounded integers; `RoomSuffices` says when the code does the same.
- Strip: over unbounded integers, with `ThroughExact` for the edit carried through the log. It states that the ladder closes when no rung is an exceptional pair, not the converse; differences made on one rung can be undone by a later removal.
- RemovalIntent: over unbounded integers; `RemovalIntentOnMachine` says exactly when the code does the same.
- StaleRemovalOnServer: over unbounded integers; `MachineRunAgrees` says when the code does the same.
- TransformStaleValid: over unbounded integers; `OnChunksFits` says when the code does the same.
- OnChunksInv: over unbounded integers; `OnChunksFits` says when the code does the same.
- StepInv: over unbounded integers; `MachineRunAgrees` says when the code does the same.
- MachineRunAgrees: a sufficient check on receipt, not an exact one: an overflow may go unnoticed or be undone by a later removal.
- InStepExact: a sufficient condition; the converse is proved for the last chunk only (`LastChunkInStep`, `OutOfStepExact`), and `OutOfStepRepaired` shows that it fails beyond.
- FetchAcrossCommits: says nothing about several commits in between, or one of several chunks, which may cancel out.
- Server.Subscriber.Offer: when the closing it sets off takes effect is a later disconnect, at any time.
- CommitOrderDecidesTies: insertions of one chunk each, received with the log retained and without faults.
- Runs exclude a failing write on eviction, after which the newest text is lost; `ReloadExact` covers that step for every fault.
- In Runs and Server the lookup of a cached file and its lock, loading and eviction are each one step, except that committing and announcing are two; the effects of several copies in memory are in Copies only, and interleavings inside a routine nowhere.
- The sharing of one load between concurrent callers, the ticker loops and the rate limiters; a visit of the background routine to a file and a purge are steps that may happen at any time.
- The least-recently-used order of the cache: any cached file may be evicted at any time.
- Workspaces: one workspace, and every sender belongs to it. The check that a file holds text is assumed to succeed.
- Deleting and renaming files, with their events, and cursor messages.
- The final pass at shutdown, which still applies the threshold, and restarting from disk.
- Hashes: the hash column is not part of the state, only the failure of its update is.
- HTTP, JSON, UTF-8 decoding, authentication, exporting: values are taken as already decoded.
- Aliasing of rune slices between the argument and the result of `Apply`: texts are values.
- Directories and atomic replacement in the object store: a write replaces an object or fails.
