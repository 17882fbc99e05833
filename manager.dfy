/** The recovery manager: the write path that appends records to the log and
    keeps the per-transaction stacks, single-record redo and undo against the
    store, crash recovery, and rollback of one live transaction. */
module Recovery {
  import opened Common
  import opened Records
  import opened Storage
  import TxManager
  import Replay
  import opened RecoverySpec
  import opened Stacks

  class RecoveryManager {
    /** The database the manager replays into. */
    var store: Store
    /** The ids the transaction manager currently runs. */
    var running: set<TxId>
    /** The records written for each transaction since it started. */
    var txStack: map<TxId, seq<Record>>
    /** Every record ever appended to the log file, oldest first. */
    ghost var log: seq<Record>

    /** Each stack holds its own transaction's records, in log order. */
    ghost predicate Valid()
      reads this`txStack, this`log
    {
      forall id :: id in txStack ==> OwnStack(id, txStack[id]) && Subseq(txStack[id], log)
    }

    /** A manager over a log file that already holds `existing`. */
    constructor (store: Store, running: set<TxId>, ghost existing: seq<Record>)
      ensures Valid()
      ensures this.store == store && this.running == running
      ensures txStack == map[] && log == existing
    {
      this.store := store;
      this.running := running;
      txStack := map[];
      log := existing;
    }

    /** Appending one record to the log keeps every stack a subsequence. */
    method AppendToLog(r: Record)
      requires Valid()
      modifies this`log
      ensures Valid()
      ensures log == old(log) + [r]
    {
      forall id | id in txStack ensures Subseq(txStack[id], log + [r]) {
        SubseqAppendRight(txStack[id], log, r);
      }
      log := log + [r];
    }

    /** Logs the creation of a table; no transaction's stack changes. */
    method Table(tblType: string, tblName: string)
      requires Valid()
      modifies this`log
      ensures Valid()
      ensures log == old(log) + [TableLog(tblType, tblName)]
    {
      var tl := TableLog(tblType, tblName);
      AppendToLog(tl);
    }

    /** Logs an edit and pushes it onto its transaction's stack, creating the
        stack when there is none. */
    method Edit(clientId: TxId, table: string, action: Action, key: int, oldval: int, newval: int)
      requires Valid()
      modifies this`txStack, this`log
      ensures Valid()
      ensures log == old(log) + [EditLog(clientId, table, action, key, oldval, newval)]
      ensures txStack == old(txStack)[clientId := StackOf(old(txStack), clientId) + [EditLog(clientId, table, action, key, oldval, newval)]]
    {
      var el := EditLog(clientId, table, action, key, oldval, newval);
      var logs := StackOf(txStack, clientId);
      SubseqAppendBoth(logs, log, el);
      AppendToLog(el);
      txStack := txStack[clientId := logs + [el]];
    }

    /** Logs the start of a transaction and resets its stack to that record. */
    method Start(clientId: TxId)
      requires Valid()
      modifies this`txStack, this`log
      ensures Valid()
      ensures log == old(log) + [StartLog(clientId)]
      ensures txStack == old(txStack)[clientId := [StartLog(clientId)]]
    {
      var sl := StartLog(clientId);
      SubseqSingleton(log, sl);
      AppendToLog(sl);
      txStack := txStack[clientId := [sl]];
    }

    /** Drops a transaction's stack and logs its commit. */
    method Commit(clientId: TxId)
      requires Valid()
      modifies this`txStack, this`log
      ensures Valid()
      ensures log == old(log) + [CommitLog(clientId)]
      ensures txStack == old(txStack) - {clientId}
    {
      txStack := txStack - {clientId};
      var cl := CommitLog(clientId);
      AppendToLog(cl);
    }

    /** The ids that have a stack, each once, in an arbitrary order (the
        source iterates over a map). */
    method ActiveIds() returns (ids: seq<TxId>)
      ensures forall id :: id in ids <==> id in txStack
      ensures Distinct(ids)
    {
      ids := [];
      var rest := txStack.Keys;
      while rest != {}
        invariant forall id :: id in rest <==> id in txStack && id !in ids
        invariant forall id :: id in ids ==> id in txStack
        invariant Distinct(ids)
        decreases |rest|
      {
        SomeId(rest);
        var id :| id in rest;
        ids := ids + [id];
        rest := rest - {id};
      }
    }

    /** Appends `r` to every stack. */
    method PushToAll(r: Record)
      modifies this`txStack
      ensures txStack.Keys == old(txStack).Keys
      ensures forall id :: id in txStack ==> txStack[id] == old(txStack[id]) + [r]
    {
      var pending := txStack.Keys;
      while pending != {}
        invariant pending <= old(txStack).Keys
        invariant txStack.Keys == old(txStack).Keys
        invariant forall id :: id in txStack ==>
          txStack[id] == if id in pending then old(txStack[id]) else old(txStack[id]) + [r]
        decreases |pending|
      {
        SomeId(pending);
        var id :| id in pending;
        txStack := txStack[id := txStack[id] + [r]];
        pending := pending - {id};
      }
    }

    /** Logs a checkpoint naming every transaction that has a stack, and
        pushes that record onto each of their stacks. */
    method Checkpoint()
      requires Valid()
      modifies this`txStack, this`log
      ensures Valid()
      ensures |log| == |old(log)| + 1 && log[..|old(log)|] == old(log)
      ensures log[|log| - 1].CheckpointLog?
      ensures forall id :: id in log[|log| - 1].ids <==> id in old(txStack)
      ensures Distinct(log[|log| - 1].ids)
      ensures txStack.Keys == old(txStack).Keys
      ensures forall id :: id in txStack ==> txStack[id] == old(txStack[id]) + [log[|log| - 1]]
    {
      var ids := ActiveIds();
      var cl := CheckpointLog(ids);
      PushToAll(cl);
      forall id | id in txStack
        ensures OwnStack(id, txStack[id]) && Subseq(txStack[id], log + [cl])
      {
        SubseqAppendBoth(old(txStack)[id], log, cl);
      }
      log := log + [cl];
      assert log[..|old(log)|] == old(log);
    }

    /** Redo of one record against the store. */
    method Redo(r: Record) returns (err: Option<Error>)
      modifies this`store
      ensures var res := Replay.Redo(old(store), r);
        if res.Ok? then store == res.value && err == None else store == old(store) && err == Some(res.error)
    {
      var res := Replay.Redo(store, r);
      if res.Err? {
        return Some(res.error);
      }
      store := res.value;
      return None;
    }

    /** Undo of one record against the store. */
    method Undo(r: Record) returns (err: Option<Error>)
      modifies this`store
      ensures var res := Replay.Undo(old(store), r);
        if res.Ok? then store == res.value && err == None else store == old(store) && err == Some(res.error)
    {
      var res := Replay.Undo(store, r);
      if res.Err? {
        return Some(res.error);
      }
      store := res.value;
      return None;
    }

    /** Crash recovery over the parsed log `logs`, starting from the
        position `checkpointPos` that the log reader reports. */
    method Recover(logs: seq<Record>, checkpointPos: nat) returns (err: Option<Error>)
      requires checkpointPos < |logs|
      modifies this`store, this`running
      ensures var r := RecoverRun(logs, checkpointPos, old(store), old(running));
        store == r.st.store && running == r.st.running && err == ErrorOf(r)
    {
      var txs: set<TxId> := {};
      ghost var start := Phase(store, running, txs);
      if logs[checkpointPos].CheckpointLog? {
        var ids := logs[checkpointPos].ids;
        var j := 0;
        while j < |ids|
          invariant 0 <= j <= |ids|
          invariant BeginAll(Phase(store, running, txs), ids[j..]) == BeginAll(start, ids)
        {
          assert ids[j..][1..] == ids[j + 1..];
          txs := txs + {ids[j]};
          var b := TxManager.Begin(running, ids[j]);
          if b.Err? {
            return Some(b.error);
          }
          running := b.value;
          j := j + 1;
        }
      }
      assert Analyze(logs, checkpointPos, start) == Done(Phase(store, running, txs));

      // redo forward from the checkpoint
      var i := checkpointPos;
      while i < |logs|
        invariant checkpointPos <= i <= |logs|
        invariant RedoFrom(logs, checkpointPos, i, Phase(store, running, txs))
               == RedoPhase(logs, checkpointPos, old(store), old(running))
      {
        match logs[i] {
          case StartLog(id) =>
            var b := TxManager.Begin(running, id);
            if b.Err? {
              return Some(b.error);
            }
            running := b.value;
            txs := txs + {id};
          case TableLog(_, _) =>
            var e := Redo(logs[i]);
            if e.Some? {
              return e;
            }
          case EditLog(_, _, _, _, _, _) =>
            var e := Redo(logs[i]);
            if e.Some? {
              return e;
            }
          case CommitLog(id) =>
            var c := TxManager.Commit(running, id);
            if c.Err? {
              return Some(c.error);
            }
            running := c.value;
            txs := txs - {id};
          case CheckpointLog(_) =>
            if i != checkpointPos {
              return Some(UnexpectedCheckpoint);
            }
        }
        i := i + 1;
      }

      // undo the unfinished transactions backward from the end
      i := |logs|;
      while i > 0
        invariant 0 <= i <= |logs|
        invariant UndoDown(logs, i, Phase(store, running, txs))
               == RecoverRun(logs, checkpointPos, old(store), old(running))
      {
        if txs == {} {
          break;
        }
        match logs[i - 1] {
          case StartLog(id) =>
            if id in txs {
              var c := TxManager.Commit(running, id);
              if c.Err? {
                return Some(c.error);
              }
              running := c.value;
              txs := txs - {id};
            }
          case EditLog(id, _, _, _, _, _) =>
            if id in txs {
              var e := Undo(logs[i - 1]);
              if e.Some? {
                return e;
              }
            }
          case _ =>
        }
        i := i - 1;
      }
      return None;
    }

    /** Rolls back one live transaction: undoes the edits on its stack, last
        first, then commits it in the log and in the transaction manager. */
    method Rollback(clientId: TxId) returns (err: Option<Error>)
      requires Valid()
      modifies this`store, this`running, this`txStack, this`log
      ensures Valid()
      ensures var stack := StackOf(old(txStack), clientId);
        if stack == [] || !(stack[0].StartLog? || stack[0].TableLog?) then
          err == Some(if stack == [] then NoLogs else AlreadyCommitted) &&
          store == old(store) && running == old(running) && txStack == old(txStack) && log == old(log)
        else
          var u := Replay.UndoBackward(old(store), stack);
          store == u.st &&
          (u.Failed? ==>
             err == Some(u.err) && running == old(running) && txStack == old(txStack) && log == old(log)) &&
          (u.Done? ==>
             txStack == old(txStack) - {clientId} && log == old(log) + [CommitLog(clientId)] &&
             var c := TxManager.Commit(old(running), clientId);
             if c.Ok? then running == c.value && err == None else running == old(running) && err == Some(c.error))
    {
      var logs := StackOf(txStack, clientId);
      if |logs| == 0 {
        return Some(NoLogs);
      }
      if !(logs[0].TableLog? || logs[0].StartLog?) {
        return Some(AlreadyCommitted);
      }
      var i := |logs|;
      assert logs[..i] == logs;
      while i > 0
        invariant 0 <= i <= |logs|
        invariant Replay.UndoBackward(store, logs[..i]) == Replay.UndoBackward(old(store), logs)
        invariant running == old(running) && txStack == old(txStack) && log == old(log)
      {
        assert logs[..i][..i - 1] == logs[..i - 1];
        if logs[i - 1].EditLog? {
          var e := Undo(logs[i - 1]);
          if e.Some? {
            return e;
          }
        }
        i := i - 1;
      }
      assert logs[..0] == [];
      Commit(clientId);
      var c := TxManager.Commit(running, clientId);
      if c.Err? {
        return Some(c.error);
      }
      running := c.value;
      return None;
    }
  }
}
