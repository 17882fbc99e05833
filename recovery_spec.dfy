/** Crash recovery as functions on values: begin the checkpoint's
    transactions, redo forward from the checkpoint position, then undo the
    loser transactions backward from the end of the log. Each pass stops at
    the first failing step and reports the state it reached. */
module RecoverySpec {
  import opened Common
  import opened Records
  import opened Storage
  import TxManager
  import opened Replay

  /** What recovery works on: the store, the transaction manager's running
      ids, and the working set `txs` of transactions presumed unfinished. */
  datatype Phase = Phase(store: Store, running: set<TxId>, txs: set<TxId>)

  /** Analysis: every id of the checkpoint is marked unfinished and begun in
      the transaction manager, in the checkpoint's order. */
  function BeginAll(p: Phase, ids: seq<TxId>): (r: Outcome<Phase>)
    ensures r.st.store == p.store
    ensures p.txs <= r.st.txs
    ensures r.Done? ==> forall id :: id in r.st.txs <==> id in p.txs || id in ids
    ensures r.Done? ==> forall id :: id in r.st.running <==> id in p.running || id in ids
    decreases |ids|
  {
    if ids == [] then Done(p)
    else
      var p1 := p.(txs := p.txs + {ids[0]});
      var b := TxManager.Begin(p1.running, ids[0]);
      if b.Err? then Failed(p1, b.error)
      else BeginAll(p1.(running := b.value), ids[1..])
  }

  /** The state after analysis: only a checkpoint record at the checkpoint
      position marks transactions unfinished. */
  function Analyze(logs: seq<Record>, cp: nat, p: Phase): (r: Outcome<Phase>)
    requires cp < |logs|
    ensures r.st.store == p.store
    ensures r.Done? ==> forall id :: id in r.st.txs <==>
      id in p.txs || (logs[cp].CheckpointLog? && id in logs[cp].ids)
    ensures r.Done? && p.txs <= p.running ==> r.st.txs <= r.st.running
  {
    if logs[cp].CheckpointLog? then BeginAll(p, logs[cp].ids) else Done(p)
  }

  /** The redo pass over logs[i..], where `cp` is the checkpoint position. */
  function RedoFrom(logs: seq<Record>, cp: nat, i: nat, p: Phase): (r: Outcome<Phase>)
    requires i <= |logs|
    ensures p.store.tables <= r.st.store.tables
    ensures r.Done? ==> forall j :: i <= j < |logs| && j != cp ==> !logs[j].CheckpointLog?
    ensures r.Done? && p.txs <= p.running ==> r.st.txs <= r.st.running
    decreases |logs| - i
  {
    if i == |logs| then Done(p)
    else match logs[i]
      case StartLog(id) =>
        var b := TxManager.Begin(p.running, id);
        if b.Err? then Failed(p, b.error)
        else RedoFrom(logs, cp, i + 1, p.(running := b.value, txs := p.txs + {id}))
      case CommitLog(id) =>
        var c := TxManager.Commit(p.running, id);
        if c.Err? then Failed(p, c.error)
        else RedoFrom(logs, cp, i + 1, p.(running := c.value, txs := p.txs - {id}))
      case CheckpointLog(_) =>
        if i == cp then RedoFrom(logs, cp, i + 1, p) else Failed(p, UnexpectedCheckpoint)
      case _ =>
        var s := Redo(p.store, logs[i]);
        if s.Err? then Failed(p, s.error) else RedoFrom(logs, cp, i + 1, p.(store := s.value))
  }

  /** The undo pass over logs[..i], last record first, while some
      transaction is still presumed unfinished. */
  function UndoDown(logs: seq<Record>, i: nat, p: Phase): (r: Outcome<Phase>)
    requires i <= |logs|
    ensures r.st.txs <= p.txs
    ensures r.st.store.tables == p.store.tables
    decreases i
  {
    if i == 0 || p.txs == {} then Done(p)
    else match logs[i - 1]
      case StartLog(id) =>
        if id !in p.txs then UndoDown(logs, i - 1, p)
        else
          var c := TxManager.Commit(p.running, id);
          if c.Err? then Failed(p, c.error)
          else UndoDown(logs, i - 1, p.(running := c.value, txs := p.txs - {id}))
      case EditLog(id, _, _, _, _, _) =>
        if id !in p.txs then UndoDown(logs, i - 1, p)
        else
          var u := Undo(p.store, logs[i - 1]);
          if u.Err? then Failed(p, u.error) else UndoDown(logs, i - 1, p.(store := u.value))
      case _ => UndoDown(logs, i - 1, p)
  }

  /** Analysis followed by the redo pass. After it, every transaction
      presumed unfinished is running in the transaction manager, so the undo
      pass can commit it. */
  function RedoPhase(logs: seq<Record>, cp: nat, store: Store, running: set<TxId>): (r: Outcome<Phase>)
    requires cp < |logs|
    ensures store.tables <= r.st.store.tables
    ensures r.Done? ==> r.st.txs <= r.st.running
    ensures r.Done? ==> forall j :: cp < j < |logs| ==> !logs[j].CheckpointLog?
  {
    var a := Analyze(logs, cp, Phase(store, running, {}));
    if a.Failed? then a else RedoFrom(logs, cp, cp, a.st)
  }

  /** The whole of crash recovery. */
  function RecoverRun(logs: seq<Record>, cp: nat, store: Store, running: set<TxId>): (r: Outcome<Phase>)
    requires cp < |logs|
    ensures store.tables <= r.st.store.tables
    ensures r.Done? ==> forall j :: cp < j < |logs| ==> !logs[j].CheckpointLog?
  {
    var r := RedoPhase(logs, cp, store, running);
    if r.Failed? then r else UndoDown(logs, |logs|, r.st)
  }

  // ---------------------------------------------------------------------
  // The redo pass

  /** Id `id` has no commit record in logs[from..]. */
  ghost predicate NoCommitFrom(logs: seq<Record>, from: nat, id: TxId)
  {
    forall k :: from <= k < |logs| ==> logs[k] != CommitLog(id)
  }

  /** logs[j] starts `id`, and no later record commits it. */
  ghost predicate OpenStart(logs: seq<Record>, j: nat, id: TxId)
  {
    j < |logs| && logs[j] == StartLog(id) && NoCommitFrom(logs, j + 1, id)
  }

  /** The redo pass's working set, in terms of file order: an id is presumed
      unfinished at the end exactly when it was started in logs[i..] or
      already presumed unfinished, and not committed afterwards. */
  lemma {:induction false} RedoFromTxs(logs: seq<Record>, cp: nat, i: nat, p: Phase, id: TxId)
    requires i <= |logs| && RedoFrom(logs, cp, i, p).Done?
    ensures id in RedoFrom(logs, cp, i, p).st.txs <==>
      (exists j :: i <= j < |logs| && OpenStart(logs, j, id)) || (id in p.txs && NoCommitFrom(logs, i, id))
    decreases |logs| - i
  {
    if i < |logs| {
      var q := RedoFrom(logs, cp, i, p).st;
      var next: Phase;
      match logs[i] {
        case StartLog(x) => next := p.(running := TxManager.Begin(p.running, x).value, txs := p.txs + {x});
        case CommitLog(x) => next := p.(running := TxManager.Commit(p.running, x).value, txs := p.txs - {x});
        case CheckpointLog(_) => next := p;
        case TableLog(_, _) => next := p.(store := Redo(p.store, logs[i]).value);
        case EditLog(_, _, _, _, _, _) => next := p.(store := Redo(p.store, logs[i]).value);
      }
      assert RedoFrom(logs, cp, i, p) == RedoFrom(logs, cp, i + 1, next);
      RedoFromTxs(logs, cp, i + 1, next, id);
      var later := exists j :: i + 1 <= j < |logs| && OpenStart(logs, j, id);
      var here := exists j :: i <= j < |logs| && OpenStart(logs, j, id);
      if later {
        var j :| i + 1 <= j < |logs| && OpenStart(logs, j, id);
        assert here;
      }
      if here && !later {
        var j :| i <= j < |logs| && OpenStart(logs, j, id);
        assert j == i;
      }
      assert here <==> later || OpenStart(logs, i, id);
      assert NoCommitFrom(logs, i, id) <==> logs[i] != CommitLog(id) && NoCommitFrom(logs, i + 1, id);
    }
  }

  /** A checkpoint record anywhere after the checkpoint position makes the
      redo pass fail. */
  lemma RedoRejectsLaterCheckpoint(logs: seq<Record>, cp: nat, i: nat, p: Phase, j: nat)
    requires i <= j < |logs| && cp < j && logs[j].CheckpointLog?
    ensures RedoFrom(logs, cp, i, p).Failed?
    decreases j - i
  {
  }

  /** The store the forward pass produces: when logs[i..] holds no table
      record and its edits can be carried out in file order, the pass ends
      with exactly the store that carrying them out gives. */
  lemma {:induction false} RedoFromPerformed(logs: seq<Record>, cp: nat, i: nat, p: Phase)
    requires i <= |logs| && RedoFrom(logs, cp, i, p).Done?
    requires forall j :: i <= j < |logs| ==> !logs[j].TableLog?
    requires PerformedAll(p.store, logs[i..]).Some?
    ensures RedoFrom(logs, cp, i, p).st.store == PerformedAll(p.store, logs[i..]).value
    decreases |logs| - i
  {
    if i == |logs| {
      assert logs[i..] == [];
    } else {
      var rec := logs[i];
      PerformedAllCons(p.store, logs[i..]);
      assert logs[i..][0] == rec && logs[i..][1..] == logs[i + 1..];
      match rec {
        case StartLog(x) =>
          RedoFromPerformed(logs, cp, i + 1, p.(running := p.running + {x}, txs := p.txs + {x}));
        case CommitLog(x) =>
          RedoFromPerformed(logs, cp, i + 1, p.(running := p.running - {x}, txs := p.txs - {x}));
        case CheckpointLog(_) =>
          RedoFromPerformed(logs, cp, i + 1, p);
        case EditLog(_, _, _, _, _, _) =>
          RedoPerformed(p.store, rec);
          RedoFromPerformed(logs, cp, i + 1, p.(store := Performed(p.store, rec).value));
      }
    }
  }

  /** After a successful analysis and redo, the unfinished transactions are
      the checkpoint's ids and the started ids, minus the committed ones, in
      file order; and no checkpoint follows the checkpoint position. */
  lemma RedoPhaseTxs(logs: seq<Record>, cp: nat, store: Store, running: set<TxId>, id: TxId)
    requires cp < |logs| && RedoPhase(logs, cp, store, running).Done?
    ensures id in RedoPhase(logs, cp, store, running).st.txs <==>
      (exists j :: cp <= j < |logs| && OpenStart(logs, j, id)) ||
      (logs[cp].CheckpointLog? && id in logs[cp].ids && NoCommitFrom(logs, cp, id))
    ensures forall j :: cp < j < |logs| ==> !logs[j].CheckpointLog?
  {
    var a := Analyze(logs, cp, Phase(store, running, {}));
    RedoFromTxs(logs, cp, cp, a.st, id);
  }

  // ---------------------------------------------------------------------
  // The undo pass

  /** Some edit record in logs[..i] belongs to a transaction of `txs` and is
      about cell `c`. */
  ghost predicate LoserTouches(logs: seq<Record>, i: nat, txs: set<TxId>, c: (string, int))
    requires i <= |logs|
  {
    exists j :: 0 <= j < i && logs[j].EditLog? && logs[j].id in txs && Cell(logs[j]) == c
  }

  /** Every id the undo pass drops from `txs` is committed in the transaction
      manager at one of its start records, and nothing else is committed. */
  lemma {:induction false} UndoDownCommits(logs: seq<Record>, i: nat, p: Phase)
    requires i <= |logs|
    ensures UndoDown(logs, i, p).st.running == p.running - (p.txs - UndoDown(logs, i, p).st.txs)
    ensures p.txs - UndoDown(logs, i, p).st.txs <= p.running
    ensures forall id :: id in p.txs - UndoDown(logs, i, p).st.txs ==>
      exists j :: 0 <= j < i && logs[j] == StartLog(id)
    decreases i
  {
    if i > 0 && p.txs != {} {
      var rec := logs[i - 1];
      var q := UndoDown(logs, i, p).st;
      if rec.StartLog? && rec.id in p.txs && TxManager.Commit(p.running, rec.id).Ok? {
        var next := p.(running := p.running - {rec.id}, txs := p.txs - {rec.id});
        UndoDownCommits(logs, i - 1, next);
        forall id | id in p.txs - q.txs ensures exists j :: 0 <= j < i && logs[j] == StartLog(id) {
          if id != rec.id {
            var j :| 0 <= j < i - 1 && logs[j] == StartLog(id);
          } else {
            assert logs[i - 1] == StartLog(id);
          }
        }
      } else if rec.EditLog? && rec.id in p.txs && Undo(p.store, rec).Ok? {
        UndoDownCommits(logs, i - 1, p.(store := Undo(p.store, rec).value));
      } else if !(rec.StartLog? && rec.id in p.txs) && !(rec.EditLog? && rec.id in p.txs) {
        UndoDownCommits(logs, i - 1, p);
      }
    }
  }

  /** A successful undo pass leaves unfinished only ids whose start record
      lies outside logs[..i]. */
  lemma {:induction false} UndoDownClosesStarted(logs: seq<Record>, i: nat, p: Phase, id: TxId)
    requires i <= |logs| && UndoDown(logs, i, p).Done?
    requires id in UndoDown(logs, i, p).st.txs
    ensures forall j :: 0 <= j < i ==> logs[j] != StartLog(id)
    decreases i
  {
    if i > 0 && p.txs != {} {
      var rec := logs[i - 1];
      var next: Phase;
      if rec.StartLog? && rec.id in p.txs {
        next := p.(running := p.running - {rec.id}, txs := p.txs - {rec.id});
      } else if rec.EditLog? && rec.id in p.txs {
        next := p.(store := Undo(p.store, rec).value);
      } else {
        next := p;
      }
      assert UndoDown(logs, i, p) == UndoDown(logs, i - 1, next);
      UndoDownClosesStarted(logs, i - 1, next, id);
      assert id in next.txs;
    }
  }

  /** The undo pass changes no table, and leaves every cell that no edit of
      a presumed-unfinished transaction is about as it was: the edits of
      committed transactions are never undone. */
  lemma {:induction false} UndoDownFrame(logs: seq<Record>, i: nat, p: Phase, c: (string, int))
    requires i <= |logs| && !LoserTouches(logs, i, p.txs, c)
    ensures UndoDown(logs, i, p).st.store.tables == p.store.tables
    ensures SameAt(UndoDown(logs, i, p).st.store, p.store, c)
    decreases i
  {
    if i > 0 && p.txs != {} {
      var rec := logs[i - 1];
      if rec.StartLog? && rec.id in p.txs {
        if TxManager.Commit(p.running, rec.id).Ok? {
          var next := p.(running := p.running - {rec.id}, txs := p.txs - {rec.id});
          UndoDownFrame(logs, i - 1, next, c);
        }
      } else if rec.EditLog? && rec.id in p.txs {
        var u := Undo(p.store, rec);
        if u.Ok? {
          UndoFrame(p.store, rec, c);
          UndoDownFrame(logs, i - 1, p.(store := u.value), c);
        }
      } else {
        UndoDownFrame(logs, i - 1, p, c);
      }
    }
  }

  /** recs[j] is an edit of a transaction in `txs` with no start record of
      that transaction after it in `recs`. */
  ghost predicate OpenEdit(recs: seq<Record>, j: nat, txs: set<TxId>)
  {
    && j < |recs| && recs[j].EditLog? && recs[j].id in txs
    && forall k :: j < k < |recs| ==> !(recs[k].StartLog? && recs[k].id == recs[j].id)
  }

  /** The open edits among recs[..n], in file order. */
  ghost function OpenEdits(recs: seq<Record>, n: nat, txs: set<TxId>): seq<Record>
    requires n <= |recs|
  {
    if n == 0 then []
    else OpenEdits(recs, n - 1, txs) + (if OpenEdit(recs, n - 1, txs) then [recs[n - 1]] else [])
  }

  /** Two logs that agree on their first n records and on which of them
      are open have the same open edits among those records. */
  lemma {:induction false} OpenEditsAgree(a: seq<Record>, b: seq<Record>, n: nat, ta: set<TxId>, tb: set<TxId>)
    requires n <= |a| && n <= |b|
    requires forall j :: 0 <= j < n ==> a[j] == b[j] && (OpenEdit(a, j, ta) <==> OpenEdit(b, j, tb))
    ensures OpenEdits(a, n, ta) == OpenEdits(b, n, tb)
    decreases n
  {
    if n > 0 {
      OpenEditsAgree(a, b, n - 1, ta, tb);
    }
  }

  /** No edit is open when no transaction is presumed unfinished. */
  lemma {:induction false} NoOpenEdits(recs: seq<Record>, n: nat)
    requires n <= |recs|
    ensures OpenEdits(recs, n, {}) == []
    decreases n
  {
    if n > 0 {
      NoOpenEdits(recs, n - 1);
    }
  }

  /** Dropping the last record of logs[..i]: a start record closes its
      transaction for every earlier edit, and an edit of a presumed
      unfinished transaction is itself open. */
  lemma OpenEditsStep(logs: seq<Record>, i: nat, txs: set<TxId>, txs': set<TxId>)
    requires 0 < i <= |logs|
    requires txs' == if logs[i - 1].StartLog? then txs - {logs[i - 1].id} else txs
    ensures OpenEdits(logs[..i], i, txs) ==
      OpenEdits(logs[..i - 1], i - 1, txs') +
      (if logs[i - 1].EditLog? && logs[i - 1].id in txs then [logs[i - 1]] else [])
  {
    var r, r' := logs[..i], logs[..i - 1];
    forall j | 0 <= j < i - 1
      ensures r[j] == r'[j] && (OpenEdit(r, j, txs) <==> OpenEdit(r', j, txs'))
    {
      if OpenEdit(r', j, txs') && r[j].EditLog? {
        assert !(r[i - 1].StartLog? && r[i - 1].id == r[j].id);
      }
    }
    OpenEditsAgree(r, r', i - 1, txs, txs');
  }

  /** What the undo pass does to the database: it undoes, last first, exactly
      the edits of presumed-unfinished transactions that no start record of
      the same transaction follows. */
  lemma {:induction false} UndoDownUndoesOpenEdits(logs: seq<Record>, i: nat, p: Phase)
    requires i <= |logs| && UndoDown(logs, i, p).Done?
    ensures UndoBackward(p.store, OpenEdits(logs[..i], i, p.txs)) == Done(UndoDown(logs, i, p).st.store)
    decreases i
  {
    if i == 0 {
    } else if p.txs == {} {
      NoOpenEdits(logs[..i], i);
    } else {
      var rec := logs[i - 1];
      var txs' := if rec.StartLog? then p.txs - {rec.id} else p.txs;
      OpenEditsStep(logs, i, p.txs, txs');
      var rest := OpenEdits(logs[..i - 1], i - 1, txs');
      if rec.StartLog? && rec.id in p.txs {
        var next := p.(running := p.running - {rec.id}, txs := txs');
        assert UndoDown(logs, i, p) == UndoDown(logs, i - 1, next);
        assert OpenEdits(logs[..i], i, p.txs) == rest + [];
        assert rest + [] == rest;
        UndoDownUndoesOpenEdits(logs, i - 1, next);
      } else if rec.EditLog? && rec.id in p.txs {
        var u := Undo(p.store, rec);
        UndoDownUndoesOpenEdits(logs, i - 1, p.(store := u.value));
        assert (rest + [rec])[..|rest|] == rest;
      } else {
        assert txs' == p.txs;
        assert UndoDown(logs, i, p) == UndoDown(logs, i - 1, p);
        assert OpenEdits(logs[..i], i, p.txs) == rest + [];
        assert rest + [] == rest;
        UndoDownUndoesOpenEdits(logs, i - 1, p);
      }
    }
  }

  /** When the open edits were carried out in file order starting from s0,
      a successful undo pass gives back exactly s0. */
  lemma LosersFullyUndone(logs: seq<Record>, i: nat, p: Phase, s0: Store)
    requires i <= |logs| && UndoDown(logs, i, p).Done?
    requires PerformedAll(s0, OpenEdits(logs[..i], i, p.txs)) == Some(p.store)
    ensures UndoDown(logs, i, p).st.store == s0
  {
    UndoDownUndoesOpenEdits(logs, i, p);
    UndoBackwardRestores(s0, OpenEdits(logs[..i], i, p.txs));
  }


  // ---------------------------------------------------------------------
  // Scenarios of a crash

  /** Transaction 1 inserts key 5 with value 100 into table "tbl" and the
      process crashes before its commit: recovery leaves key 5 absent and
      closes transaction 1. */
  lemma UncommittedInsertIsUndone()
    ensures RecoverRun([TableLog("btree", "tbl"), StartLog(1), EditLog(1, "tbl", Insert, 5, 0, 100)], 0, Empty, {})
         == Done(Phase(Store({"tbl"}, map[]), {}, {}))
  {
    var logs := [TableLog("btree", "tbl"), StartLog(1), EditLog(1, "tbl", Insert, 5, 0, 100)];
    var s1 := Store({"tbl"}, map[]);
    var s2 := Store({"tbl"}, map[("tbl", 5) := 100]);
    assert RedoFrom(logs, 0, 3, Phase(s2, {1}, {1})) == Done(Phase(s2, {1}, {1}));
    assert TxManager.Begin({}, 1).value == {} + {1} == {1};
    assert RedoFrom(logs, 0, 2, Phase(s1, {1}, {1})) == Done(Phase(s2, {1}, {1}));
    assert RedoFrom(logs, 0, 1, Phase(s1, {}, {})) == Done(Phase(s2, {1}, {1}));
    assert Empty.tables + {"tbl"} == {"tbl"};
    assert HandleCreateTable(Empty, "btree", "tbl").value == s1;
    assert RedoFrom(logs, 0, 0, Phase(Empty, {}, {})) == Done(Phase(s2, {1}, {1}));
    assert RedoPhase(logs, 0, Empty, {}) == Done(Phase(s2, {1}, {1}));
    assert s2.rows - {("tbl", 5)} == map[];
    assert UndoDown(logs, 2, Phase(s1, {1}, {1})) == Done(Phase(s1, {}, {}));
  }

  /** The same transaction with its commit record: recovery keeps the
      inserted value. */
  lemma CommittedInsertIsKept()
    ensures RecoverRun([TableLog("btree", "tbl"), StartLog(1), EditLog(1, "tbl", Insert, 5, 0, 100), CommitLog(1)], 0, Empty, {})
         == Done(Phase(Store({"tbl"}, map[("tbl", 5) := 100]), {}, {}))
  {
    var logs := [TableLog("btree", "tbl"), StartLog(1), EditLog(1, "tbl", Insert, 5, 0, 100), CommitLog(1)];
    var s1 := Store({"tbl"}, map[]);
    var s2 := Store({"tbl"}, map[("tbl", 5) := 100]);
    assert RedoFrom(logs, 0, 4, Phase(s2, {}, {})) == Done(Phase(s2, {}, {}));
    assert TxManager.Commit({1}, 1).value == {1} - {1} == {};
    assert TxManager.Begin({}, 1).value == {} + {1} == {1};
    assert RedoFrom(logs, 0, 3, Phase(s2, {1}, {1})) == Done(Phase(s2, {}, {}));
    assert RedoFrom(logs, 0, 2, Phase(s1, {1}, {1})) == Done(Phase(s2, {}, {}));
    assert RedoFrom(logs, 0, 1, Phase(s1, {}, {})) == Done(Phase(s2, {}, {}));
    assert Empty.tables + {"tbl"} == {"tbl"};
    assert HandleCreateTable(Empty, "btree", "tbl").value == s1;
    assert RedoFrom(logs, 0, 0, Phase(Empty, {}, {})) == Done(Phase(s2, {}, {}));
    assert RedoPhase(logs, 0, Empty, {}) == Done(Phase(s2, {}, {}));
  }

  /** Transaction 2 inserted key 5 with value 100 and committed; transaction
      1, active at the checkpoint, then updated it to 200 and the process
      crashed. Starting from the flushed store, recovery restores 100. */
  lemma CheckpointedUpdateIsUndone()
    ensures RecoverRun([TableLog("btree", "tbl"), StartLog(2), EditLog(2, "tbl", Insert, 5, 0, 100), CommitLog(2),
                        StartLog(1), CheckpointLog([1]), EditLog(1, "tbl", Update, 5, 100, 200)],
                       5, Store({"tbl"}, map[("tbl", 5) := 100]), {})
         == Done(Phase(Store({"tbl"}, map[("tbl", 5) := 100]), {}, {}))
  {
    var logs := [TableLog("btree", "tbl"), StartLog(2), EditLog(2, "tbl", Insert, 5, 0, 100), CommitLog(2),
                 StartLog(1), CheckpointLog([1]), EditLog(1, "tbl", Update, 5, 100, 200)];
    var s1 := Store({"tbl"}, map[("tbl", 5) := 100]);
    var s2 := Store({"tbl"}, map[("tbl", 5) := 200]);
    assert TxManager.Begin({}, 1).value == {} + {1} == {1};
    assert BeginAll(Phase(s1, {1}, {1}), []) == Done(Phase(s1, {1}, {1}));
    assert BeginAll(Phase(s1, {}, {}), [1]) == Done(Phase(s1, {1}, {1}));
    assert Analyze(logs, 5, Phase(s1, {}, {})) == Done(Phase(s1, {1}, {1}));
    assert RedoFrom(logs, 5, 7, Phase(s2, {1}, {1})) == Done(Phase(s2, {1}, {1}));
    assert s1.rows[("tbl", 5) := 200] == s2.rows;
    assert RedoFrom(logs, 5, 6, Phase(s1, {1}, {1})) == Done(Phase(s2, {1}, {1}));
    assert RedoFrom(logs, 5, 5, Phase(s1, {1}, {1})) == Done(Phase(s2, {1}, {1}));
    assert RedoPhase(logs, 5, s1, {}) == Done(Phase(s2, {1}, {1}));
    assert s2.rows[("tbl", 5) := 100] == s1.rows;
    assert UndoDown(logs, 6, Phase(s1, {1}, {1})) == Done(Phase(s1, {}, {}));
  }

  /** Transaction 1 inserted key 5 with value 100 and was still active at the
      checkpoint, which flushed the insert; the process then crashed. The
      loser's edit lies before the checkpoint position, and the undo pass,
      which scans down to the first record, still removes it. */
  lemma LoserBeforeCheckpointIsUndone()
    ensures RecoverRun([TableLog("btree", "tbl"), StartLog(1), EditLog(1, "tbl", Insert, 5, 0, 100), CheckpointLog([1])],
                       3, Store({"tbl"}, map[("tbl", 5) := 100]), {})
         == Done(Phase(Store({"tbl"}, map[]), {}, {}))
  {
    var logs := [TableLog("btree", "tbl"), StartLog(1), EditLog(1, "tbl", Insert, 5, 0, 100), CheckpointLog([1])];
    var s1 := Store({"tbl"}, map[("tbl", 5) := 100]);
    var s0 := Store({"tbl"}, map[]);
    assert TxManager.Begin({}, 1).value == {} + {1} == {1};
    assert BeginAll(Phase(s1, {1}, {1}), []) == Done(Phase(s1, {1}, {1}));
    assert BeginAll(Phase(s1, {}, {}), [1]) == Done(Phase(s1, {1}, {1}));
    assert Analyze(logs, 3, Phase(s1, {}, {})) == Done(Phase(s1, {1}, {1}));
    assert RedoFrom(logs, 3, 4, Phase(s1, {1}, {1})) == Done(Phase(s1, {1}, {1}));
    assert RedoFrom(logs, 3, 3, Phase(s1, {1}, {1})) == Done(Phase(s1, {1}, {1}));
    assert RedoPhase(logs, 3, s1, {}) == Done(Phase(s1, {1}, {1}));
    assert s1.rows - {("tbl", 5)} == s0.rows;
    assert TxManager.Commit({1}, 1).value == {1} - {1} == {};
    assert UndoDown(logs, 1, Phase(s0, {}, {})) == Done(Phase(s0, {}, {}));
    assert UndoDown(logs, 2, Phase(s0, {1}, {1})) == Done(Phase(s0, {}, {}));
    assert UndoDown(logs, 3, Phase(s1, {1}, {1})) == Done(Phase(s0, {}, {}));
  }
}
