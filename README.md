# Write-ahead log and crash recovery, with the store's linked list

This project models two parts of a small transactional database written in Go.

**The recovery manager** (`pkg/recovery/recovery.go`) has four parts:

- **Write path.** `Table`, `Edit`, `Start`, `Commit` and `Checkpoint` each append one record to an append-only log file. `Edit`, `Start`, `Commit` and `Checkpoint` also update `txStack`, an in-memory map from a transaction id to the records written for that transaction; `Table` does not.
- **Single-record replay.** `Redo` and `Undo` apply one record to the database.
- **Crash recovery.** `Recover` first begins the transactions named by the last checkpoint. It then redoes the log forward from the checkpoint position, and finally undoes the "loser" transactions backward from the end of the log.
- **Live abort.** `Rollback` undoes one transaction from its stack.

**The doubly-linked list** (`pkg/list/list.go`) has a `List` with `head` and `tail` pointers and `Link` nodes with `list`, `prev`, `next` and `value` fields. Its operations are `PushHead`, `PushTail`, `Find`, `Map` and `PopSelf`, plus getters.

Layout, one module per concern:

- `common.dfy` (`Common`): error values, `Option`, `Result`, and `Outcome`. An `Outcome` is the state a multi-step pass reached, together with the error that stopped it, if any.
- `records.dfy` (`Records`): the five log record kinds. Their fields are in the order the source builds them.
- `storage.dfy` (`Storage`, `TxManager`): the database and the transaction manager, as abstract values. The database is a set of table names plus a map from `(table, key)` to value. The transaction manager is a set of running ids. Every handler call can fail, and a failing call changes nothing.
- `stacks.dfy` (`Stacks`): what a transaction's stack may hold, and the subsequence relation between a stack and the log.
- `replay.dfy` (`Replay`): `Redo` and `Undo` as state-transformer functions on the database, with their laws. It also gives the backward undo of a stack used by rollback.
- `recovery_spec.dfy` (`RecoverySpec`): crash recovery as functions. These are the analysis step (`BeginAll`), the forward pass (`RedoFrom`) and the backward pass (`UndoDown`), with lemmas about each and three crash scenarios.
- `manager.dfy` (`Recovery`): the class `RecoveryManager`. Its fields are `store`, `running` and `txStack`, and a ghost `log` that only grows. Its methods are imperative, and each one is proved against the functions above.
- `list.dfy` (`LinkedList`): the classes `List` and `Link`. A ghost sequence `nodes` lists the links from head to tail, and `Valid()` ties `head`, `tail`, `prev`, `next` and `list` to it.

In these places the code behaves differently from what one might expect; the model follows the code:

- Redo of a delete whose key is already absent fails, because the handler's error is returned (`pkg/recovery/recovery.go:149-154`). So, unlike insert and update, delete redo is not idempotent, as `Replay.RedoDeleteTwiceFails` shows.
- Redo of a table creation returns the handler's error (`pkg/recovery/recovery.go:119-124`). In the model, creating a table that already exists fails, so a log that re-creates an existing table cannot be replayed.
- `Recover` reads `logs[checkpointPos]` without a bounds check (`pkg/recovery/recovery.go:201`). The model therefore requires `checkpointPos < |logs|`.
- `Rollback` writes the commit record and drops the stack before asking the transaction manager to commit (`pkg/recovery/recovery.go:296-297`). If that commit fails, the log and stack changes remain.
- `PopSelf` clears the removed link's own `list`, `prev` and `next` fields only when the link had neighbours on both sides (`pkg/list/list.go:127-135`).

## Model

| member | source | states |
|---|---|---|
| `Replay.Redo` | pkg/recovery/recovery.go:117-160 | Only table and edit records can be redone; a table redo leaves every row as it was, and an edit redo changes no table and no cell but its own |
| `Replay.Undo` | pkg/recovery/recovery.go:163-190 | Only edit records can be undone, and a successful undo changes no table and no cell but its own |
| `Replay.UndoBackward` | pkg/recovery/recovery.go:286-294 | Undoing a stack last-first never changes the set of tables, and can fail only if the stack holds an edit record |
| `RecoverySpec.RedoFrom` | pkg/recovery/recovery.go:212-245 | The forward pass only adds tables, and it succeeds only if no checkpoint record follows, other than the one at the checkpoint position; on success every unfinished transaction is still running in the transaction manager, if that held before |
| `RecoverySpec.RecoverRun` | pkg/recovery/recovery.go:193-271 | Recovery as a whole only adds tables, and it succeeds only if no checkpoint record lies after the checkpoint position |
| `Replay.RedoTable` | pkg/recovery/recovery.go:119-124 | Redo of a table record succeeds exactly when the table does not exist yet; it then adds the table, and otherwise returns TableExists |
| `Replay.RedoUpsert` | pkg/recovery/recovery.go:125-148 | Redo of an insert or update succeeds exactly when the table exists, and then sets the cell to the new value whether or not the key was present (both fallbacks) |
| `Replay.RedoDelete` | pkg/recovery/recovery.go:149-154 | Redo of a delete succeeds exactly when the key is present and removes it; a missing key is an error |
| `Replay.RedoRejectsOthers` | pkg/recovery/recovery.go:156-157 | Start, commit and checkpoint records are refused by Redo ("can only redo edit logs") |
| `Replay.UndoRejectsNonEdit` | pkg/recovery/recovery.go:186-187 | Every record that is not an edit, table records included, is refused by Undo ("can only undo edit logs") |
| `Replay.RedoIdempotent` | pkg/recovery/recovery.go:125-148 | Redoing an insert or update record twice gives the same result as redoing it once |
| `Replay.RedoDeleteTwiceFails` | pkg/recovery/recovery.go:149-154 | A second redo of the same delete fails with NoSuchKey, so delete redo is not idempotent |
| `Replay.UndoEffect` | pkg/recovery/recovery.go:163-190 | Undo of an insert removes the key, undo of an update restores the old value, undo of a delete re-inserts the old value, each with its exact success condition |
| `Replay.RedoThenUndoUpdate` | pkg/recovery/recovery.go:138-175 | For an update whose old value is in place, Redo then Undo gives back exactly the original database |
| `Replay.UndoThenRedo` | pkg/recovery/recovery.go:125-185 | Once an insert or update is in place, Undo then Redo gives back exactly the same database |
| `Replay.UndoPerformed` | pkg/recovery/recovery.go:163-190 | Undo of an edit that was carried out as logged restores the database from before it |
| `Replay.UndoBackwardRestores` | pkg/recovery/recovery.go:286-294 | Undoing a transaction's records last-first restores exactly the database from before those edits were carried out in order |
| `Replay.UndoFrame` | pkg/recovery/recovery.go:163-190 | A successful undo changes no table and no cell other than its own |
| `Replay.UndoBackwardFrame` | pkg/recovery/recovery.go:286-294 | Undoing one transaction changes no table and no cell that none of its edits names, even when an undo fails part-way |
| `RecoverySpec.BeginAll` | pkg/recovery/recovery.go:203-209 | Analysis keeps the database unchanged; on success both the working set and the running set gain exactly the checkpoint's ids |
| `RecoverySpec.Analyze` | pkg/recovery/recovery.go:201-202 | Analysis never changes the database; on success an id is unfinished exactly when it was before or the record at the checkpoint position is a checkpoint that lists it, and every unfinished id is running if that held before |
| `RecoverySpec.RedoPhase` | pkg/recovery/recovery.go:199-245 | Analysis followed by the forward pass only adds tables; on success every unfinished transaction is running, and no checkpoint record follows the checkpoint position |
| `RecoverySpec.RedoFromPerformed` | pkg/recovery/recovery.go:212-245 | When the log from the starting position on holds no table record and its edits can all be carried out in order, a successful forward pass leaves exactly the database that carrying them out in order gives |
| `Replay.RedoPerformed` | pkg/recovery/recovery.go:125-154 | Redo of an edit that can be carried out as logged gives exactly the database carrying it out gives |
| `RecoverySpec.LoserBeforeCheckpointIsUndone` | pkg/recovery/recovery.go:193-271 | A transaction inserts key 5 = 100 before a checkpoint that lists it and never commits: recovery from the checkpoint removes key 5 and closes the transaction |
| `RecoverySpec.UndoDown` | pkg/recovery/recovery.go:247-269 | The undo pass never adds to the working set of unfinished transactions and never changes the set of tables; what it does to the rows is given by `RecoverySpec.UndoDownUndoesOpenEdits` |
| `RecoverySpec.UndoDownUndoesOpenEdits` | pkg/recovery/recovery.go:247-269 | A successful undo pass leaves exactly the database that undoing, last first, the open edits gives: the edits of presumed-unfinished transactions with no start record of the same transaction after them |
| `RecoverySpec.LosersFullyUndone` | pkg/recovery/recovery.go:247-269 | If the losers' open edits were carried out in order from some database, a successful undo pass gives back exactly that database |
| `RecoverySpec.OpenEditsStep` | pkg/recovery/recovery.go:252-266 | Stepping back over one record: a start record closes its transaction for all earlier edits, and an edit of a presumed-unfinished transaction is open |
| `RecoverySpec.RedoFromTxs` | pkg/recovery/recovery.go:212-245 | After a successful forward pass, an id is unfinished exactly when it has a start record with no later commit, or was unfinished before and is never committed |
| `RecoverySpec.RedoRejectsLaterCheckpoint` | pkg/recovery/recovery.go:237-241 | A checkpoint record anywhere after the checkpoint position makes the forward pass fail |
| `RecoverySpec.RedoPhaseTxs` | pkg/recovery/recovery.go:199-245 | After analysis and redo, the unfinished set is the checkpoint's ids plus the started ids, minus the committed ones, in file order, and no checkpoint follows the checkpoint position |
| `RecoverySpec.UndoDownCommits` | pkg/recovery/recovery.go:252-260 | The undo pass commits in the transaction manager exactly the ids it drops from the working set, each one at a start record |
| `RecoverySpec.UndoDownClosesStarted` | pkg/recovery/recovery.go:248-269 | A successful undo pass leaves unfinished only ids whose start record it never reached |
| `RecoverySpec.UndoDownFrame` | pkg/recovery/recovery.go:261-267 | The undo pass leaves every cell that no loser edit names as it was, so the edits of committed transactions are never undone |
| `RecoverySpec.UncommittedInsertIsUndone` | pkg/recovery/recovery.go:193-271 | Insert of key 5 = 100 with no commit before the crash: recovery leaves key 5 absent and closes the transaction |
| `RecoverySpec.CommittedInsertIsKept` | pkg/recovery/recovery.go:193-271 | The same insert with its commit record: recovery keeps key 5 = 100 |
| `RecoverySpec.CheckpointedUpdateIsUndone` | pkg/recovery/recovery.go:193-271 | A transaction active at the checkpoint updates 100 to 200 and crashes: recovery from the checkpoint restores 100 |
| `Recovery.RecoveryManager.constructor` | pkg/recovery/recovery.go:36-41 | A new manager has an empty stack map over the existing log |
| `Recovery.RecoveryManager.AppendToLog` | pkg/recovery/recovery.go:45-52 | Appending grows the log by exactly that record and keeps every stack a subsequence of the log |
| `Recovery.RecoveryManager.Table` | pkg/recovery/recovery.go:55-63 | Appends exactly one table record; no stack changes |
| `Recovery.RecoveryManager.Edit` | pkg/recovery/recovery.go:66-74 | Appends one edit record to the log and to the end of that id's stack, creating the stack if absent; other stacks are unchanged |
| `Recovery.RecoveryManager.Start` | pkg/recovery/recovery.go:77-84 | Appends one start record and sets that id's stack to exactly that record; other stacks are unchanged |
| `Recovery.RecoveryManager.Commit` | pkg/recovery/recovery.go:87-93 | Removes that id's stack and appends exactly one commit record |
| `Recovery.RecoveryManager.ActiveIds` | pkg/recovery/recovery.go:104-107 | Returns every id that has a stack, each exactly once |
| `Recovery.RecoveryManager.PushToAll` | pkg/recovery/recovery.go:109-111 | Every stack grows by exactly the given record at its end; the map's domain is unchanged |
| `Recovery.RecoveryManager.Checkpoint` | pkg/recovery/recovery.go:96-114 | Appends exactly one checkpoint record whose ids are the stacks' ids, each once, and pushes that record onto every stack, keeping the domain |
| `Recovery.RecoveryManager.Redo` | pkg/recovery/recovery.go:117-160 | The database becomes the result of `Replay.Redo`, or is unchanged and the error is returned |
| `Recovery.RecoveryManager.Undo` | pkg/recovery/recovery.go:163-190 | The database becomes the result of `Replay.Undo`, or is unchanged and the error is returned |
| `Recovery.RecoveryManager.Recover` | pkg/recovery/recovery.go:193-271 | The database, the running set and the error are exactly those of analysis, the forward pass from the checkpoint and the backward undo pass (`RecoverySpec.RecoverRun`) |
| `Recovery.RecoveryManager.Rollback` | pkg/recovery/recovery.go:274-302 | An empty stack gives NoLogs and a stack not opened by a start or table record gives AlreadyCommitted, both with no side effect. Otherwise the stack's edits are undone last-first; on success the stack is removed, one commit record is appended and the transaction manager commits the id |
| `LinkedList.List.constructor` | pkg/list/list.go:18-21 | A new list is valid, empty, with head and tail null |
| `LinkedList.List.PeekHead` | pkg/list/list.go:24-26 | Returns the first link, or null for an empty list |
| `LinkedList.List.PeekTail` | pkg/list/list.go:29-31 | Returns the last link, or null for an empty list |
| `LinkedList.List.PushHead` | pkg/list/list.go:34-44 | The values become `[v] + old`; the new link is the head; the tail is unchanged unless the list was empty, when it is the new link |
| `LinkedList.List.PushTail` | pkg/list/list.go:47-57 | The values become `old + [v]`; the new link is the tail; the head is unchanged unless the list was empty, when it is the new link |
| `LinkedList.List.Find` | pkg/list/list.go:60-69 | Returns the first link from head to tail whose value satisfies `f`, or null when none does; the list is not changed |
| `LinkedList.List.Map` | pkg/list/list.go:72-79 | Applies `f` once to every link's value, in place; links, their order, head and tail are unchanged |
| `LinkedList.Link.GetList` | pkg/list/list.go:90-92 | Returns the list the link points to |
| `LinkedList.Link.GetKey` | pkg/list/list.go:95-97 | Returns the link's value |
| `LinkedList.Link.SetKey` | pkg/list/list.go:100-102 | Sets the value; in a valid list only this link's value changes and the list stays valid |
| `LinkedList.Link.GetPrev` | pkg/list/list.go:105-107 | In a valid list, returns the previous link, or null at the head |
| `LinkedList.Link.GetNext` | pkg/list/list.go:110-112 | In a valid list, returns the next link, or null at the tail |
| `LinkedList.Link.PopSelf` | pkg/list/list.go:116-136 | Removes exactly this link, keeping the order of the rest and the list valid. Head and tail move only when this link was the head or the tail; removing the only link leaves both null |
| `LinkedList.Link.UnlinkOnly` | pkg/list/list.go:118-120 | Removing the only link leaves the list empty and valid |
| `LinkedList.Link.UnlinkHead` | pkg/list/list.go:121-123 | Removing the head of a longer list makes its successor the head; the list stays valid |
| `LinkedList.Link.UnlinkTail` | pkg/list/list.go:124-126 | Removing the tail of a longer list makes its predecessor the tail; the list stays valid |
| `LinkedList.Link.UnlinkMiddle` | pkg/list/list.go:127-135 | Removing an inner link joins its neighbours and clears its own fields; the list stays valid |

## Left out

- Log file I/O is not modelled. This covers opening the file in `NewRecoveryManager` and the write and sync in `writeToBuffer`. An append is a ghost sequence append that cannot fail. The source discards its error anyway (`pkg/recovery/recovery.go:62`, `:73`).
- Log record serialisation (`toString`) and `readLogs` are not modelled; `Recover` takes the already-parsed records and the checkpoint position as inputs, so no parse/print round trip is stated.
- The `LockAllUpdates`, `FlushAllPages` and `UnlockAllUpdates` calls in `Checkpoint` are storage-engine calls with no effect on the modelled state. The `sync.Mutex` exists for concurrency. Both are left out.
- `Delta` and `Prime` are left out. They copy and remove directories through the file system and a foreign copy library.
- The storage engine (`db.HandleCreateTable`, `db.HandleInsert`, `db.HandleUpdate`, `db.HandleDelete`) and the transaction manager (`tm.Begin`, `tm.Commit`) are not part of this model. In their place are abstract operations on a map and a set that can fail. Their exact failure conditions are this model's assumptions, and the `fmt.Sprintf` payloads are not modelled.
- The recovery package's own `HandleInsert`, `HandleUpdate` and `HandleDelete`, which `Undo` calls, are modelled as the plain storage operations. Whether they log the compensating edit again is not modelled.
- Transaction ids are integers. The source uses UUIDs, and only equality between them matters.
- `Recovery.RecoveryManager.Checkpoint`: the order of the ids in the checkpoint record is left arbitrary, because the source takes it from Go map iteration.
- `LinkedList.List.Find`: the source's predicate receives the link, but the model's predicate sees only the link's value.
- `LinkedList.List.Map`: the source's callback may change anything reachable from the link. The model's callback only maps the link's value to a new value.
- `ListRepl` is REPL wiring and printing, and is left out.
- `RecoverySpec.RecoverRun`: no theorem says that recovery of an arbitrary log keeps exactly the committed transactions' effects. The forward pass redoes every edit and table record from the checkpoint position on without looking at the database first, and passes on any error a storage handler returns (`pkg/recovery/recovery.go:119-124`, `:149-154`). Whether a handler fails is decided by the storage engine, which is not part of this model. Under this model's assumed handlers, a delete of a missing key and a second creation of a table fail, so a log whose effects already reached the database can abort recovery, and the theorem cannot hold for every log. The parts that do hold are stated by `RecoverySpec.RedoFromPerformed` (the forward pass carries out the log's edits in order), `RecoverySpec.RedoPhaseTxs`, `RecoverySpec.UndoDownUndoesOpenEdits` and `RecoverySpec.LosersFullyUndone` (the undo pass undoes exactly the losers' open edits), `RecoverySpec.UndoDownFrame` and the four scenario lemmas.
