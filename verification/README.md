# oxylite sync protocol: a verified model

oxylite keeps browser replicas and a Postgres server in step with
last-write-wins rows, tombstones and a pulled log of ops. This project models
that protocol in Dafny and proves what it keeps, loses and promises:

- the merge rules of the generated SQL, against the reference model pinned in
  `crates/oxylite/tests/delete_semantics.rs`, and convergence of replicas;
- the server as a class (live tables, tombstones, log, quarantine, stored
  snapshots) with the whole op history as ghost state;
- the session's snapshot-or-replay decision, windowed pulls, pruning, and the
  client that installs snapshots and collapses windows into batched statements;
- durable delivery, optimistic local writes and the saved cursor over whole
  runs;
- the live stream: bus, wake adapter and per-connection driver;
- the bind-parameter numbering of the statements and the canonical timestamp
  text whose order the client relies on.

`dafny verify dfyconfig.toml` checks everything. A push is one atomic step and
pushes commit in seq order with arrival times that never go back; instants are
whole milliseconds, ages whole seconds.

## Modules

| module | models |
|---|---|
| `Protocol` | messages, ops, the tombstone guard |
| `Timestamps`, `Spellings` | canonical text, calendar and order; what the parser reads |
| `Register`, `Bootstrap` | the theory of one key: SQL step, reference step, snapshot bootstrap |
| `Store` | the statements on whole tables, replay of ops |
| `Windows` | the client's collapse of a window, on values |
| `Snapshots` | installing a snapshot |
| `SyncLog` | the log, pulls and chained pulls |
| `Server`, `Session` | the backend, one connection's decisions |
| `Placeholders`, `Batches` | the client's statements: parameter numbering, chunks, what the first few leave |
| `Replica`, `LocalWrites` | the client: message handling, own writes |
| `Convergence` | claims about whole databases |
| `WholeRun`, `Follow` | a whole catch-up on a quiet server; a client pulling while everybody pushes |
| `Delivery`, `Cursors` | every run of durable delivery; every interleaving of stream and pulls |
| `Bus`, `Wake`, `Stream` | the live stream |

Larger invariants are predicates with small lemmas saying which step keeps them;
methods and long proofs `hide` what they only hand on.

## Where the code and its documentation part

Each is proved as an exact condition, with the failing input where one is
named. The model follows the code.

1. **Blind deletes.** A delete newer than everything its key records that finds
   no live row leaves no tombstone (`crates/oxylite/src/contract/sync_row.rs:423-433`),
   while the reference model records one. So ops do not commute
   (`Convergence.BlindDeleteDiverges`), and redelivery, which README.md:22 calls
   harmless by construction, can remove a row. `Convergence.ConvergeExactly` and
   `Convergence.ResendExactly` say exactly when they do and it is;
   `Delivery.ExactlyOnceEffect` the same for the whole log.
2. **Snapshots keep rows the server deleted.** Installing a snapshot writes its
   tombstones but never removes a live row
   (`crates/oxylite/src/client/query/apply.rs:162-201`), so a replica that still
   shows the row keeps it unless the replay after the snapshot has the delete.
   `Convergence.TornWindowedBootstrap`, `Convergence.TornSnapshotBootstrap` and
   `Convergence.QuietSnapshotBootstrap` are exact;
   `Bootstrap.SnapshotKeepsDeletedRow` is the input. They ask for no blind delete
   after the served position only: what was blind before it left no trace. A
   snapshot whose tombstones fail to apply still has its rows applied, which the
   comment at `crates/oxylite/src/client/engine/sync.rs:318-333` means to avoid
   (`Replica.Client.OnSnapshot`, `WholeRun.HalfInstallKeepsHeld`).
3. **Collapsing a window can lose a tombstone.** A key created and deleted within
   one window collapses to a delete that finds no row, hence no tombstone; a
   stale edit in a later window then brings the row back on that client only
   (`Windows.StaleEditResurrectsAcrossWindows`). `Windows.WindowIsReplayExactly`
   and `Windows.WindowsTrackReplayExactly` are exact; `Windows.WindowFromShort`
   and `Windows.WindowsStayShortExactly` say what happens to a replica that lost
   tombstones earlier.
4. **A pruned-behind client can be skipped silently**, against README.md:41-42:
   when the whole log was pruned there is no floor to compare with, and when the
   connection's one snapshot is spent it is not offered again
   (`Session.PruneGateExact`, `Session.ReplayAcrossPruneSkips`). The comment on
   `prune_sync_log` says `pull_since` clamps to the floor; it does not.
5. **A local upsert leaves an older tombstone beside the row**, since its
   statement is the guarded upsert without the clear
   (`crates/oxylite/src/contract/sync_row.rs:213-223`). Harmless, and gone with
   the echo, even among windows: `LocalWrites.LocalWriteIsItsOpExactly`,
   `LocalWrites.EchoedTurnsSettle`.
6. **The saved cursor can pass rows never seen.** Events streamed from the head a
   connection found move and save the client's cursor
   (`crates/oxylite/src/client/engine/sync.rs:289-303`) even while the answer to
   its own pull is outstanding. If the connection ends in between, the rows
   before the stream are skipped for good, which the comment there means to rule
   out. `Cursors.CrashSafeExactly`: safe in every interleaving if and only if the
   client had everything before the stream began, or nothing is streamed;
   `Cursors.StreamOvertakes` is the run.
7. **A failed frame can be overtaken too.** When a streamed frame fails to apply
   the cursor stays so that a later pull asks again
   (`crates/oxylite/src/client/engine/sync.rs:276-286`), but nothing asks at once,
   and the next streamed frame that applies moves the cursor past the failed rows.
   `Cursors.FailureSafeExactly`: with frames that may fail the cursor stays honest
   only if nothing is streamed, or all but the last row was seen before;
   `Cursors.FailureIsOvertaken` is the run. Where the window is asked for again,
   the retry heals (`WholeRun.PullThroughFailures`).
8. **A wake does not always catch a stream up**: past one window of backlog the
   rest waits for the next trigger (`Stream.OneWakeCatchesUpExactly`).

## Model

| member | source | states |
|---|---|---|
| Register.SqlAgreesWithReference | crates/oxylite/src/contract/sync_row.rs:315-449 | on a key with at most one of row and tombstone, one op through the SQL and through the reference model end alike if and only if the op is not a blind delete; both keep "at most one" |
| Register.RunsAgreeExactly | crates/oxylite/tests/delete_semantics.rs:113-152 | SQL and reference model agree after every prefix of a run exactly when no write of the run is a blind delete |
| Register.ReferenceIsNewestWrite | crates/oxylite/tests/delete_semantics.rs:113-152 | the reference model is a last-write-wins register: in any order the newest write decides |
| Register.NewestWriteDecides | crates/oxylite/src/contract/sync_row.rs:308-449 | without blind deletes the SQL is that register too |
| Register.NewestWriteDecidesExactly | crates/oxylite/src/contract/sync_row.rs:308-449 | the SQL leaves the newest write's outcome if and only if that write was covered from the start, is an upsert, or is a delete that meets an older live row at one of its deliveries |
| Register.UncoveredWriteDecidesExactly | crates/oxylite/src/contract/sync_row.rs:308-449 | the same for a key that may hold a row and a tombstone at once: a newest write newer than both decides if and only if it is an upsert or a delete that meets an older live row |
| Register.BlindDeletesLeaveNoTrace | crates/oxylite/src/contract/sync_row.rs:424-433 | a run ends as the run of its other writes, none of which is then a blind delete |
| Register.EffectiveTimesIncrease | crates/oxylite/src/contract/sync_row.rs:371-376 | writes that take effect on a key have strictly increasing timestamps |
| Register.ResurrectionIsTheTombstoneGuard | crates/oxylite/src/protocol/delete.rs:41-61 | a deleted key is live after a write exactly if it is an upsert the tombstone guard allows, and then the tombstone is gone |
| Register.ClockNeverFallsBackAlong | crates/oxylite/src/contract/sync_row.rs:396-433 | what a key's row or tombstone once covered stays covered over any run of writes |
| Register.RunCoversItsWrites | crates/oxylite/src/contract/sync_row.rs:308-449 | after a run without blind deletes the key covers every write of it |
| Register.RunCoversItsUpserts | crates/oxylite/src/contract/sync_row.rs:359-376 | every upsert of a run stays covered, blind deletes or not |
| Register.OverlapReplayIsHarmless | crates/oxylite/src/contract/sync_row.rs:359-376 | on a key, replaying a stretch without blind deletes again and then going on equals going on |
| Register.BlindDeleteBreaksConvergence | crates/oxylite/src/contract/sync_row.rs:424-433 | one delete and one older upsert in two orders end differently, and the delete's redelivery removes the row, while the reference model's orders agree |
| Store.UpsertAndClearPerKey | crates/oxylite/src/contract/sync_row.rs:315-394 | the multi-row guarded upsert plus tombstone clear is, on every key, the register step of the row listed for it, and nothing on other keys |
| Store.DeleteRowsPerKey | crates/oxylite/src/contract/sync_row.rs:396-449 | the multi-row delete is, on every key, the register step of the pair listed for it, and nothing on other keys |
| Store.BatchedUpsertIsOneAtATime | crates/oxylite/src/contract/sync_row.rs:308-394 | for rows of distinct keys, one n-row upsert and clear equals n single-row couples in any order |
| Store.BatchedDeleteIsOneAtATime | crates/oxylite/src/contract/sync_row.rs:396-449 | for pairs of distinct keys, one n-row delete equals n single-row deletes in any order |
| Store.AppliedPerKey | crates/oxylite/src/server/ops.rs:188-210 | applying one op moves exactly the key it decodes to, by the register step |
| Store.ReplayPerKey | crates/oxylite/src/server/ops.rs:117-151 | replaying a list of ops is, on every key, the run of that key's writes |
| Store.ReplayDisjoint | crates/oxylite/src/contract/sync_row.rs:396-403 | no replay ever leaves a key with both a live row and a tombstone |
| Convergence.EveryStateIsARegister | crates/oxylite/src/contract/sync_row.rs:315-449 | in every reachable state a key has not both row and tombstone, and its clock never falls back between two states |
| Convergence.EffectiveOpsIncrease | crates/oxylite/src/contract/sync_row.rs:371-376 | along any op history, ops that change a key have strictly increasing timestamps |
| Convergence.DeletedRowComesBackExactly | crates/oxylite/src/protocol/delete.rs:41-61 | in any reachable state a deleted row is live after the next op exactly if that op is an upsert of it the tombstone guard allows |
| Convergence.ShowsNewestExactly | crates/oxylite/src/contract/sync_row.rs:308-449 | a replica shows every key's newest op exactly when every newest op lands |
| Convergence.ConvergeExactly | crates/oxylite/src/contract/sync_row.rs:308-449 | two replicas applying the same ops in any orders and multiplicities, one of them with every newest op landed, agree if and only if they land on the other too |
| Convergence.Converge | crates/oxylite/src/contract/sync_row.rs:308-449 | without blind deletes they end in the same rows and tombstones, per key the newest op's outcome |
| Convergence.BlindDeleteDiverges | crates/oxylite/src/contract/sync_row.rs:424-433 | two replicas with the same two ops in different orders: one has the row, the other not |
| Convergence.OverlapReplay | crates/oxylite/src/server/ops.rs:188-210 | replaying history from i onto the state at j >= i equals continuing from j, if no delete in between was blind |
| Convergence.ResendChangesNothing | crates/oxylite/src/protocol/mod.rs:121-131 | an op redelivered after any later commits changes nothing, if the history has no blind delete |
| Convergence.ResendExactly | crates/oxylite/src/protocol/mod.rs:121-131 | for any history, a redelivered op changes something exactly if it is a delete that finds an older live row |
| Convergence.TornWindowedBootstrap | crates/oxylite/src/client/engine/sync.rs:305-387 | the bootstrap with the replay collapsed in any windows: the replica equals the server if and only if, for every key the server deleted, a live row under the final tombstone meets a newer delete among those executed, or the delete is still to come and lands |
| Convergence.TornSnapshotBootstrap | crates/oxylite/src/server/snapshot.rs:94-169 | rows each read at some position from s to t, tombstones at t, installed by any replica holding only what the server once held, then every op after s, none a blind delete: the replica equals the server if and only if each local live row the server deleted meets a newer delete in the replay |
| Convergence.QuietSnapshotBootstrap | crates/oxylite/src/client/engine/sync.rs:305-387 | on a quiet server with the replay in windows: if and only if each local live row the server deleted meets a newer delete the client executes |
| Convergence.ColdBootstrap | crates/oxylite/src/client/engine/sync.rs:305-387 | a replica with nothing live yet always bootstraps to exactly the server's rows and tombstones |
| Convergence.TornRowsAgree | crates/oxylite/src/client/engine/sync.rs:305-387 | on a busy server, in windows, the rows agree if every key the server deleted arrives, or is not live after the snapshot and sees only deletes |
| Convergence.WindowTrailsExactly | crates/oxylite/src/client/query/apply.rs:37-160 | from the server's rows and some of its tombstones as of a cursor, one window leads there again exactly when it resurrects no key, and to the server's exact state exactly when it levels every key |
| Convergence.WindowsTrail | crates/oxylite/src/client/query/apply.rs:37-160 | and so does any run of windows none of which resurrects a key |
| Convergence.ConnectionsChain | crates/oxylite/src/client/engine/sync.rs:170-180 | such a replica is still one after any pushes, so the next connection can start from it |
| Bootstrap.BootstrapExact | crates/oxylite/src/server/snapshot.rs:94-169 | the bootstrap on one key, for any replay standing for the writes after s and any writes before s: exact |
| Bootstrap.BootstrapExactLocally | crates/oxylite/src/client/query/apply.rs:37-160 | with the last tombstones, or a replay of every write, it depends only on the replica's own live row |
| Bootstrap.SnapshotKeepsDeletedRow | crates/oxylite/src/client/query/apply.rs:162-201 | the input where a snapshot leaves a row the server deleted |
| Windows.CollapseIsReplayExactly | crates/oxylite/src/client/query/apply.rs:37-160 | collapsing a window's ops on a key to the newest one equals replaying them exactly unless that newest one is then a blind delete; the row is right even so |
| Windows.WindowIsReplayExactly | crates/oxylite/src/client/query/apply.rs:37-160 | for a whole database and window: same rows always, same state exactly when no key loses its tombstone |
| Windows.WindowsTrackReplayExactly | crates/oxylite/src/client/query/apply.rs:37-160 | a client agrees with the server at every window boundary exactly when no window loses a tombstone |
| Windows.WindowFromShort | crates/oxylite/src/client/query/apply.rs:37-160 | from the server's rows and some of its tombstones, a window gives such a state again exactly when no stale edit passes a lost tombstone, and the server's state exactly when every lost tombstone is outdated and none is lost now |
| Windows.WindowsStayShortExactly | crates/oxylite/src/client/query/apply.rs:37-160 | the rows stay right at every window boundary exactly when no window resurrects a key |
| Windows.StaleEditResurrectsAcrossWindows | crates/oxylite/src/client/query/apply.rs:37-160 | the input where it does not: two windows without a blind delete on the server, the row back on the client |
| Snapshots.InstallPerKey | crates/oxylite/src/client/engine/sync.rs:333-370 | installing a snapshot is, on every key, the snapshot's tombstone kept if newer and then its row as a guarded upsert |
| Snapshots.TombsNeverRegress | crates/oxylite/src/client/query/apply.rs:162-201 | installing tombstones keeps the newer one of each key and leaves every row |
| SyncLog.PullIsExact | crates/oxylite/src/server/ops.rs:41-88 | a pull returns exactly the rows between the old cursor and the new one, in order, at most 1000 and fewer only at the head, whichever older head it read first |
| SyncLog.PullAtHead | crates/oxylite/src/server/ops.rs:50-52 | at or past the head a pull is empty and returns the head |
| SyncLog.ChainIsExact | crates/oxylite/src/client/engine/sync.rs:298-303 | chained pulls return each op after the cursor exactly once, in seq order |
| SyncLog.ChainIsShort | crates/oxylite/src/client/engine/sync.rs:298-303 | in as many non-empty windows as the backlog divided by 1000, rounded up |
| SyncLog.ChainEndsAtHead | crates/oxylite/src/client/engine/sync.rs:298-303 | and leave the cursor at the head |
| Server.PushConservesOps | crates/oxylite/src/server/ops.rs:124-159 | a batch is an order-preserving interleaving of its logged and its quarantined part |
| Server.PushSortsByDecoding | crates/oxylite/src/server/ops.rs:124-147 | the logged part is exactly what decodes, the quarantined part exactly what does not |
| Server.RejectedHaveNoEffect | crates/oxylite/src/server/ops.rs:125-147 | quarantined ops leave the live state as if they were not there |
| Server.Transact | crates/oxylite/src/server/ops.rs:117-171 | the transaction's loop computes the replay of the batch, the rows logged and the ops quarantined, or fails as a whole at an SQL error |
| Server.Backend.Push | crates/oxylite/src/server/ops.rs:117-171 | all or nothing: log, quarantine and live state grow by the batch's parts, the acked cursor is the log head, the invariant holds |
| Server.PushKeepsHistory | crates/oxylite/src/server/ops.rs:112-171 | across a push the live state stays the replay of every op ever logged, and the log what pruning left of it |
| Server.PushKeepsSnapshots | crates/oxylite/src/server/snapshot.rs:55-92 | a push leaves the stored generation a state of the history that everything since postdates |
| Server.PruneCutsPrefix | crates/oxylite/src/server/ops.rs:225-238 | deleting rows by arrival time cuts a prefix of the log |
| Server.PruneKeepsLog | crates/oxylite/src/server/ops.rs:225-238 | a prune keeps the live state the replay of the whole history, the log its tail, and careful pruning careful |
| Server.Backend.Prune | crates/oxylite/src/server/ops.rs:233-238 | removes exactly the rows that arrived before the cutoff and says how many |
| Server.Backend.RebuildSnapshots | crates/oxylite/src/server/snapshot.rs:55-92 | stores one generation of every table at the log head |
| Server.Backend.ExtractTables | crates/oxylite/src/server/snapshot.rs:71-88 | every table's stored rows are exactly its live rows |
| Server.Backend.LoadOrBuildSnapshot | crates/oxylite/src/server/snapshot.rs:94-169 | serves the stored generation if young and close enough, else today's; the served rows are that generation's on every key, the tombstones today's |
| Server.Backend.StoredIsFresh | crates/oxylite/src/server/snapshot.rs:108-117 | fresh exactly when a generation is stored, at most 5000 behind the head and less than 3600 s old |
| Server.Backend.ReadTombstones | crates/oxylite/src/server/snapshot.rs:144-166 | lists every tombstone once |
| Session.Connection.OnText | crates/oxylite/src/server/session.rs:47-92 | a Hello is answered Ready exactly on equal major and minor; a push is acked with the head after it commits, or nothing changes; a pull is answered by the connection's one snapshot exactly if the head is more than 50 seqs past it or the first surviving seq more than one past it, else by its window |
| Session.SnapshotWantedExactly | crates/oxylite/src/server/session.rs:80-84 | the decision in terms of the log's rows: some row is more than 50 seqs ahead, or all of them leave a gap; a client at most 50 behind whose next seq survives is sent its window |
| Session.PruneGateExact | crates/oxylite/src/server/session.rs:69-90 | a client whose cursor misses pruned rows gets a snapshot exactly when the log has a row left and the connection's snapshot is unspent; on an emptied log it is told it is current |
| Session.ReplayAcrossPruneSkips | crates/oxylite/src/server/ops.rs:225-238 | otherwise its chained replay starts past rows it never saw |
| Session.ReplayMissesNothing | crates/oxylite/src/server/session.rs:69-90 | a pull answered by replay finds in the log every history row past its cursor |
| Session.ServedSnapshotHasNoGap | crates/oxylite/src/server/snapshot.rs:106-129 | if every prune cutoff was 3600 s old, no row past the state a served snapshot shows is pruned, and the log after its seq is the history after that state |
| Placeholders.GuardedUpsertValues | crates/oxylite/src/contract/sync_row.rs:330-357 | row r, column c of the VALUES list is parameter r*columns+c+1, the key cast uuid, the last-write-wins column timestamptz, another its first declared type or text |
| Placeholders.UpsertValues | crates/oxylite/src/contract/sync_row.rs:274-290 | the same numbering without casts |
| Placeholders.NumberingIsABijection | crates/oxylite/src/contract/sync_row.rs:274-290 | slots and numbers 1..rows*columns match one to one |
| Placeholders.StatementSeesItsRows | crates/oxylite/src/client/query/apply.rs:134-139 | bound row-major, the statement sees exactly the caller's rows, with as many parameters as slots |
| Placeholders.PairStatementSeesItsPairs | crates/oxylite/src/contract/sync_row.rs:384-421 | the (2r+1, 2r+2) slots of the pair statements find row r's pair |
| Placeholders.ChunkFitsExactly | crates/oxylite/src/client/query/apply.rs:121-136 | a chunk stays within 4000 parameters exactly when one row does, and one row more would not |
| Batches.ListsFor | crates/oxylite/src/client/query/apply.rs:41-119 | on each key the delete and upsert lists hold exactly the window's newest write of it, each key once |
| Batches.CoveredIs | crates/oxylite/src/client/query/apply.rs:121-136 | the first f statements of a list cover f times the chunk size, or all rows |
| Batches.ChunksExactly | crates/oxylite/src/client/query/apply.rs:121-136 | a list takes as few statements as cover its rows |
| Batches.StatementsLeaveMidway | crates/oxylite/src/client/query/apply.rs:121-149 | wherever the statements of a table stop, each key is as before, or has its newest write, or has its upsert without the tombstone clear; other tables are untouched |
| Batches.RetryHeals | crates/oxylite/src/client/engine/sync.rs:276-286 | applying the same window from such a state ends as if nothing had failed |
| Batches.RetryWithMoreExactly | crates/oxylite/src/client/engine/sync.rs:276-286 | applying a longer window from it ends with the same rows, and the same tombstones exactly if it loses the same ones |
| Replica.Collapse | crates/oxylite/src/client/query/apply.rs:41-109 | the collapse loop keeps, for each key, exactly the first newest of its writes, and lists each key once |
| Replica.CollapseOne | crates/oxylite/src/client/query/apply.rs:46-107 | one op's turn replaces the surviving write only if newer |
| Replica.Split | crates/oxylite/src/client/query/apply.rs:111-119 | the surviving writes become the delete list and the upsert list, in first-touched order |
| Replica.Client.constructor | crates/oxylite/src/client/engine/sync.rs:640-654 | a new replica is empty with cursor -1 |
| Replica.Client.ApplyOps | crates/oxylite/src/client/query/apply.rs:37-160 | collapse, split and chunked statements together are the window's collapse on every key; if a statement fails, exactly the ones before it have run |
| Replica.Client.RunDeletes | crates/oxylite/src/client/query/apply.rs:121-132 | chunked deletes equal one at a time; a failing chunk leaves the rows before it done |
| Replica.Client.RunUpserts | crates/oxylite/src/client/query/apply.rs:134-149 | chunked upsert and clear couples equal one row at a time; a failing statement leaves the couples before it done, and its own upsert if it was the clear |
| Replica.Client.ApplyTombstones | crates/oxylite/src/client/query/apply.rs:162-201 | keeps the newer tombstone per key, chunk by chunk up to a failing one |
| Replica.Client.OnEvents | crates/oxylite/src/client/engine/sync.rs:241-304 | applies the window table by table, each as far as its statements and its sink go; the cursor moves and the next pull is sent exactly if all applied, and then the window is applied in full; a cursor is persisted only if it is past the one in memory |
| Replica.SinkAllPerKey | crates/oxylite/src/client/engine/sync.rs:251-286 | a key of a table that applied takes its window step even if another table failed; of a failed table it is halfway; of one without a sink it stays |
| Replica.EventsLeaveMidway | crates/oxylite/src/client/engine/sync.rs:276-286 | whatever failed, the replica is halfway through the window |
| Replica.Client.OnSnapshot | crates/oxylite/src/client/engine/sync.rs:305-387 | tombstones, then every table's rows even past a failure, each as far as its statements go; the cursor moves exactly if all applied, and then the snapshot is installed in full; its seq is persisted only if past the cursor in memory |
| Replica.SnapshotLeavesHalf | crates/oxylite/src/client/engine/sync.rs:318-375 | wherever an installation stops, every row and tombstone is the replica's own or the snapshot's |
| LocalWrites.OpsBuffer.UpsertWithOps | crates/oxylite/src/contract/sync_row.rs:213-223 | pushes the row's op, stamped with the row's own time, and returns the statement that does that op's local effect |
| LocalWrites.OpsBuffer.DeleteWithOps | crates/oxylite/src/contract/sync_row.rs:225-244 | pushes the null op stamped with the caller's clock and returns its statement |
| LocalWrites.LocalWriteIsItsOpExactly | crates/oxylite/src/client/engine/mod.rs:400-424 | a local write's statement equals its op's effect exactly when the row is not written over an older tombstone; the rows are equal always |
| LocalWrites.EchoSettles | crates/oxylite/src/client/engine/mod.rs:360-398 | writing locally at cursor i and then replaying everything after i, own ops included, ends as if the own ops had been applied first |
| LocalWrites.EchoedTurnsSettle | crates/oxylite/src/client/engine/mod.rs:360-398 | own writes between collapsed windows, each echoed later: every key ends as the run of the writes made to it, with no leftover tombstone |
| LocalWrites.OptimisticReplicaConverges | crates/oxylite/src/client/engine/mod.rs:360-398 | a replica that was the server, writes at any time between the windows of the stream and gets each write back in a later window ends as the server if and only if each key's newest write also decides among what the replica made of the key |
| LocalWrites.UpsertsDecide | crates/oxylite/src/contract/sync_row.rs:359-376 | which a key whose newest write is an upsert always satisfies |
| LocalWrites.EarlyWritesConverge | crates/oxylite/src/client/engine/mod.rs:360-398 | with the stream op by op: if and only if every key's newest op lands with the own ops applied early |
| WholeRun.ReplayUntilEmpty | crates/oxylite/src/client/engine/sync.rs:298-303 | pulling until a window is empty ends at the head with the chained windows applied, in order |
| WholeRun.ReplayEndsAtServer | crates/oxylite/src/server/session.rs:69-90 | a replayed catch-up of a replica with the server's rows and some of its tombstones as of its cursor ends so again exactly when the backlog, without a blind delete, resurrects nothing, and at the server exactly when it levels every key |
| WholeRun.ExactReplayEnds | crates/oxylite/src/server/session.rs:69-90 | from the server's exact state: with its rows always, with its tombstones exactly when no key was created and deleted within the backlog |
| WholeRun.SnapshotEndsAtServer | crates/oxylite/src/server/session.rs:69-90 | a snapshot catch-up of a replica holding only what the server once held, with no blind delete after the served seq, is the server exactly when every local live row the server deleted meets a newer executed delete |
| WholeRun.TakeSnapshot | crates/oxylite/src/client/engine/sync.rs:305-387 | one snapshot round installs a state of the history with no gap behind it |
| WholeRun.PullThroughFailures | crates/oxylite/src/client/engine/sync.rs:241-304 | a window asked for again after any number of failed tries, each at any statements, ends as if it had never failed |
| WholeRun.HalfInstallKeepsHeld | crates/oxylite/src/client/engine/sync.rs:318-375 | a replica left by a failed snapshot holds only what the server once held, so the next bootstrap theorem applies to it |
| WholeRun.CatchUp | crates/oxylite/src/server/session.rs:47-92 | on a quiet server with a row left in its log and careful prunes, any replica at any cursor goes through at most one snapshot and then windows, terminates at the head, and ends with the two exact outcomes above; with the server's state if nothing was live before a snapshot |
| Follow.FollowAmidPushes | crates/oxylite/src/client/engine/sync.rs:241-387 | with any pushes between its pulls, its snapshot spent or not, the client went through windows that are exactly the history from its cursor, from the pruned floor if its snapshot was spent behind it, or from the one snapshot it takes; it still trails the server if no window resurrected a key, is the server if it was and no window lost a tombstone, and after a snapshot is the server exactly when every deleted key arrives |
| Follow.FollowingTracksExactly | crates/oxylite/src/client/query/apply.rs:37-160 | following in windows from any position, with no blind delete since: trailing is kept, and the server is tracked at every window boundary exactly when no window loses a tombstone |
| Follow.ShotTracksExactly | crates/oxylite/src/client/engine/sync.rs:305-387 | following after a snapshot taken on the way: at the server exactly when every deleted key arrives |
| Follow.HeldAtShot | crates/oxylite/src/client/engine/sync.rs:305-387 | what such a client held is what the server once held, if no window before resurrected a key |
| Follow.PullContinues | crates/oxylite/src/server/ops.rs:41-88 | a pull of an unpruned stretch continues the history where the cursor left it, or is empty with the cursor at the head |
| Cursors.ReceiveEvents | crates/oxylite/src/client/engine/sync.rs:241-304 | what the client does to its cursors with a streamed event or an answer, and whether it pulls again, is the frame's step of the run if every table applies, else a failed frame's |
| Cursors.ReceiveSnapshot | crates/oxylite/src/client/engine/sync.rs:305-387 | so it is with a snapshot that applies; one that fails leaves both cursors |
| Cursors.CrashSafeExactly | crates/oxylite/src/client/engine/sync.rs:241-304 | while every frame applies, over every interleaving of streamed events, answers to own pulls, snapshots and acks, cut anywhere, the saved cursor covers only rows seen, if and only if the client had seen everything before the stream began or nothing is streamed |
| Cursors.StreamOvertakes | crates/oxylite/src/ws.rs:125-133 | the failing run: one streamed event arrives before the first answer |
| Cursors.AckAsksAgain | crates/oxylite/src/client/engine/sync.rs:218-240 | wherever a run has got, an ack makes the client ask again from its cursor, so the rows after it may come next |
| Cursors.SavesOnlyAdvances | crates/oxylite/src/client/engine/sync.rs:293-297 | over any run, a frame at or behind the cursor leaves the saved cursor alone, and one that advances it saves where it got |
| Cursors.SavedWasReached | crates/oxylite/src/client/engine/sync.rs:293-297 | so the saved cursor is the first one or one the run moved the cursor to |
| Cursors.FailureSafeExactly | crates/oxylite/src/client/engine/sync.rs:276-286 | with frames that may fail to apply, if and only if nothing is streamed or the client had seen everything but perhaps the last row |
| Cursors.FailureIsOvertaken | crates/oxylite/src/client/engine/sync.rs:276-286 | the failing run: a streamed frame fails and the next one applies |
| Cursors.SkippedRowsStaySkipped | crates/oxylite/src/client/engine/sync.rs:170-180 | and no later pull from such a cursor returns the rows it passed |
| Delivery.Outbox.PushLocal | crates/oxylite/src/client/engine/sync.rs:391-451 | persist first, send second: what is not persisted is not sent |
| Delivery.Outbox.FlushPending | crates/oxylite/src/client/engine/sync.rs:460-525 | resends every readable row in order, one frame each, skips the unreadable ones and retires none |
| Delivery.Outbox.OnAck | crates/oxylite/src/client/engine/sync.rs:218-230 | retires exactly the acked batch, or nothing if the delete fails; unreadable rows stay |
| Delivery.World.Perform | crates/oxylite/src/protocol/mod.rs:121-131 | every write, connect, arrival, ack, foreign push, prune or wait changes op log, frames, acks, live state, history and quarantine exactly as stated for it, a push that fails changing none of them, and keeps the delivery invariant |
| Delivery.World.Run | crates/oxylite/src/protocol/mod.rs:121-131 | over any run with lost, late and repeated frames and acks, failed pushes and crashes: every persisted op still pends or is committed, the server has nothing else, its live state is its log replayed, and the unreadable rows of the op log are all kept |
| Delivery.RetireKeepsDelivery | crates/oxylite/src/client/engine/sync.rs:218-230 | retiring an acked batch loses nothing |
| Delivery.CommitKeepsDelivery | crates/oxylite/src/server/session.rs:65-68 | an ack is only ever sent for a committed batch |
| Delivery.World.Drain | crates/oxylite/src/client/engine/sync.rs:460-525 | one lasting connection commits the whole op log in order and leaves only its unreadable rows |
| Delivery.ExactlyOnceEffect | crates/oxylite/src/protocol/mod.rs:121-131 | at every point of the log the live state is as if each op had been delivered once, exactly when no redelivered delete finds an older live row |
| Delivery.NoBlindDeletesMiss | crates/oxylite/src/protocol/mod.rs:121-131 | which is so in particular without blind deletes |
| Bus.NothingElseIsLost | crates/oxylite/src/pubsub.rs:78-92 | what a subscription received and still has queued is what was published since it subscribed, in order, less exactly the lost messages |
| Bus.LostExactlyWhenFull | crates/oxylite/src/pubsub.rs:78-92 | a publish is lost exactly when it finds the queue at 64 |
| Bus.Bus.Subscribe | crates/oxylite/src/pubsub.rs:56-76 | registers a subscription under an id no live one has |
| Bus.Bus.Publish | crates/oxylite/src/pubsub.rs:78-92 | offers the message to every subscription of the topic and no other; the defensive purge removes none |
| Bus.Bus.Drop | crates/oxylite/src/pubsub.rs:141-153 | deregisters exactly that subscription and forgets an emptied topic |
| Bus.Bus.TryRecv | crates/oxylite/src/pubsub.rs:131-139 | takes the oldest queued message, if any |
| Bus.Bus.SubscriberCount | crates/oxylite/src/pubsub.rs:94-102 | counts the undropped subscriptions of the topic |
| Bus.EveryRunOfTheBus | crates/oxylite/src/pubsub.rs:46-153 | after any run: registered ids are exactly the undropped subscriptions, none twice, no topic empty, every queue at most 64 and an in-order continuation of what was received |
| Wake.Channel.CoalesceBurst | crates/oxylite/src/pubsub.rs:155-167 | waits for a first message only, takes everything queued until it finds the queue empty, never waiting for more, and returns the maximum; ends only when the source is gone |
| Wake.Channel.Arrive | crates/oxylite/src/server/wake.rs:71-83 | the forwarder passes on the parsed seqs in order and skips the rest |
| Wake.RunOnce | crates/oxylite/src/server/wake.rs:46-94 | subscribers are offered the sentinel 0 and then one maximum per burst, the bursts cutting the notified seqs in order and only where the queue was empty; payloads that do not parse are skipped |
| Wake.EveryNotifyIsCovered | crates/oxylite/src/server/wake.rs:79-88 | every notified seq is covered by a published wake, and every wake is a notified seq |
| Stream.Driver.constructor | crates/oxylite/src/ws.rs:125-133 | the stream starts at the log head, or at 0 when reading it timed out |
| Stream.Driver.Turn | crates/oxylite/src/ws.rs:147-203 | one turn: a wake for a seq at or before the cursor changes nothing, the tick, the sentinel 0 and a later seq pull; a failed pull says Dead and stops, a non-empty window moves the cursor and is sent |
| Stream.Driver.GoodTurn | crates/oxylite/src/ws.rs:154-190 | with the server ahead and at rest each of these three sends the next rows, a full window of 1000 or as many as there are, and moves the cursor to the last |
| Stream.NextStretch | crates/oxylite/src/server/ops.rs:41-88 | what a pull finds is the next stretch of the history, ending at the row its cursor names |
| Stream.PushKeepsStream | crates/oxylite/src/ws.rs:147-203 | pushes leave the sent stream exact |
| Stream.Driver.Run | crates/oxylite/src/ws.rs:131-204 | over any session without a prune of unsent rows, what was sent is exactly the history between the connection and the cursor, in order, none missing or repeated, and nothing follows a failure |
| Stream.Driver.TickUntilCaughtUp | crates/oxylite/src/ws.rs:147-190 | with no new pushes, backlog/1000 rounded up successful ticks bring the cursor to the head with everything streamed |
| Stream.OneWakeCatchesUpExactly | crates/oxylite/src/ws.rs:157-190 | one wake brings the cursor to the head exactly when the backlog is at most one window |
| Stream.IgnoredWakeIsOldNews | crates/oxylite/src/ws.rs:157-169 | every row of the burst an ignored wake stands for was streamed or lies before the connection |
| Timestamps.EarlierExactly | crates/oxylite/src/protocol/timestamp.rs:35-36 | calendar fields compare as their instants |
| Timestamps.FieldsOf | crates/oxylite/src/protocol/timestamp.rs:50-56 | every instant of the years 0000 to 9999 has valid fields that give it back |
| Timestamps.TextOrderIsTimeOrder | crates/oxylite/src/protocol/timestamp.rs:70-75 | byte order of canonical texts is instant order |
| Timestamps.EpochText | crates/oxylite/src/protocol/timestamp.rs:70-75 | instant 0 is written 1970-01-01T00:00:00.000Z |
| Timestamps.LeapDayText | crates/oxylite/src/protocol/timestamp.rs:70-75 | and 1709251087123 is 2024-02-29T23:58:07.123Z |
| Spellings.ParseReadsSpellings | crates/oxylite/src/protocol/timestamp.rs:38-48 | a text parses to an instant if and only if it spells it; the next five rows say what the parts of a text mean |
| Spellings.PlainTextsParseExactly | crates/oxylite/src/protocol/timestamp.rs:38-48 | YYYY-MM-DDThh:mm:ssZ parses exactly if its numbers are a date and a time of day, and then to their instant |
| Spellings.OffsetsShiftExactly | crates/oxylite/src/protocol/timestamp.rs:38-48 | with +hh:mm for Z a text is hh:mm earlier, with -hh:mm that much later, for hours to 23 and minutes to 59; other offsets do not parse |
| Spellings.FractionsAddExactly | crates/oxylite/src/protocol/timestamp.rs:38-48 | digits after a point add their worth in nanoseconds, nine of them at most; a text has one point |
| Spellings.SeparatorsAreAlike | crates/oxylite/src/protocol/timestamp.rs:38-48 | T, t and a space between date and time read alike, and nothing else does |
| Spellings.ZuluEitherCase | crates/oxylite/src/protocol/timestamp.rs:38-48 | so do Z and z |
| Spellings.ParsingInvertsPrinting | crates/oxylite/src/protocol/timestamp.rs:38-75 | a text is a millisecond instant's canonical text if and only if it parses to that instant and is in canonical form |

## Left out

- Tables without a last-write-wins column: `apply_one` binds two values where
  their delete statement has one placeholder.
- Postgres isolation anomalies and commits out of seq order; concurrent
  sessions are interleavings of whole pushes. `Server.Backend.RebuildSnapshots`
  reads all tables at one point, as its comment promises;
  `Convergence.TornSnapshotBootstrap` covers tables read at different points.
- SQL and JSON as text, sockets, timeouts as durations, and calls into sqlx,
  tokio, PGlite and the browser; a timeout or failure is a choice of the run.
- Multi-tab relay and leader election, live-query invalidation, migrations,
  schema-version parsing, snapshot extraction by table name.
- Rows of unknown tables skipped by `pull_since` and the snapshot: pushes are
  typed, so no such row is logged.
- Server.Transact: an SQL error anywhere fails the whole push; the repository
  would try to quarantine it, in a transaction Postgres has already aborted.
- Replica.Client.ApplyTombstones: chunks of 2000 in list order; the repository
  groups the list by table first, in no particular order.
- Store.BatchedUpsertIsOneAtATime: rows of distinct keys only; Postgres refuses
  a statement that would touch a key twice, and the collapse never builds one.
- LocalWrites.OptimisticReplicaConverges: from a replica that is the server as
  of its cursor, and windows only.
- Session.Connection.OnText: head, floor and rows are read of one log state;
  `SyncLog.PullIsExact` and the stream allow a push between the two reads.
- Cursors.CrashSafeExactly: nothing is pruned meanwhile, and every save of the
  cursor succeeds.
- WholeRun.CatchUp: no push or prune during the dialogue, and no failure;
  `WholeRun.PullThroughFailures` treats failing pulls.
- Follow.FollowAmidPushes: pulls only, and no prunes; `Cursors` and `Stream` treat
  streamed events.
- Convergence.TornRowsAgree: sufficient for the rows; the state is exact in
  `Convergence.TornWindowedBootstrap`.
- Delivery.Outbox.FlushPending: unreadable rows are there from the start; the pull
  after an ack is in `Cursors`.
- Bus.Bus.Publish: channels are known by subscription id instead of being
  shared sender and receiver objects.
- Wake.RunOnce: the reconnect loop.
- Stream.Driver.Run: the socket loop and its bounded outbound channel; a send
  that fails is a choice of the run.
- Spellings.ParsingInvertsPrinting: leap seconds, which the parser accepts, and
  the canonical text of instants outside the years 0000 to 9999.
