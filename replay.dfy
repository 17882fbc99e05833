/** Replaying one log record against the store (the recovery manager's Redo
    and Undo), and undoing a whole transaction's records backwards. */
module Replay {
  import opened Common
  import opened Records
  import opened Storage

  /** Redo of one record: a table record re-creates its table, an edit record
      re-applies its action with the insert/update fallbacks, anything else is
      refused. The error returned is the one of the last handler called. */
  function Redo(s: Store, r: Record): (res: Result<Store>)
    ensures res.Ok? ==> r.TableLog? || r.EditLog?
    ensures res.Ok? && r.TableLog? ==> res.value.rows == s.rows
    ensures res.Ok? && r.EditLog? ==>
      res.value.tables == s.tables && res.value.rows - {Cell(r)} == s.rows - {Cell(r)}
  {
    match r
    case TableLog(kind, name) => HandleCreateTable(s, kind, name)
    case EditLog(_, t, a, k, _, n) =>
      (match a
       case Insert =>
         var ins := HandleInsert(s, t, k, n);
         if ins.Ok? then ins else HandleUpdate(s, t, k, n)
       case Update =>
         var upd := HandleUpdate(s, t, k, n);
         if upd.Ok? then upd else HandleInsert(s, t, k, n)
       case Delete => HandleDelete(s, t, k))
    case _ => Err(CannotRedo)
  }

  /** Undo of one record: the compensating action of an edit, anything else
      is refused. */
  function Undo(s: Store, r: Record): (res: Result<Store>)
    ensures res.Ok? ==> r.EditLog?
    ensures res.Ok? ==> res.value.tables == s.tables && res.value.rows - {Cell(r)} == s.rows - {Cell(r)}
  {
    match r
    case EditLog(_, t, a, k, o, _) =>
      (match a
       case Insert => HandleDelete(s, t, k)
       case Update => HandleUpdate(s, t, k, o)
       case Delete => HandleInsert(s, t, k, o))
    case _ => Err(CannotUndo)
  }

  /** Redo of an insert or update is an upsert: it succeeds exactly when the
      table exists, and then the cell holds the new value whether or not the
      key was present before. */
  lemma RedoUpsert(s: Store, r: Record)
    requires r.EditLog? && r.action != Delete
    ensures Redo(s, r).Ok? <==> r.tableName in s.tables
    ensures Redo(s, r).Ok? ==> Redo(s, r).value == s.(rows := s.rows[Cell(r) := r.newVal])
    ensures Redo(s, r).Err? ==> Redo(s, r).error == NoSuchTable
  {
  }

  /** Redo of a delete removes the cell, and fails when the key is absent
      (the source propagates the handler's error). */
  lemma RedoDelete(s: Store, r: Record)
    requires r.EditLog? && r.action == Delete
    ensures Redo(s, r).Ok? <==> r.tableName in s.tables && Cell(r) in s.rows
    ensures Redo(s, r).Ok? ==> Redo(s, r).value == s.(rows := s.rows - {Cell(r)})
  {
  }

  /** Redo of a table record fails when the table already exists. */
  lemma RedoTable(s: Store, r: Record)
    requires r.TableLog?
    ensures Redo(s, r).Ok? <==> r.tblName !in s.tables
    ensures Redo(s, r).Ok? ==> Redo(s, r).value == s.(tables := s.tables + {r.tblName})
    ensures Redo(s, r).Err? ==> Redo(s, r).error == TableExists
  {
  }

  /** Start, commit and checkpoint records cannot be redone. */
  lemma RedoRejectsOthers(s: Store, r: Record)
    requires r.StartLog? || r.CommitLog? || r.CheckpointLog?
    ensures Redo(s, r) == Err(CannotRedo)
  {
  }

  /** Every record that is not an edit, a table record included, cannot be
      undone. */
  lemma UndoRejectsNonEdit(s: Store, r: Record)
    requires !r.EditLog?
    ensures Undo(s, r) == Err(CannotUndo)
  {
  }

  /** Redoing an insert or update twice is the same as redoing it once. */
  lemma RedoIdempotent(s: Store, r: Record)
    requires r.EditLog? && r.action != Delete
    requires Redo(s, r).Ok?
    ensures Redo(Redo(s, r).value, r) == Redo(s, r)
  {
    var s1 := Redo(s, r).value;
    assert s1.tables == s.tables;
    assert s1.rows[Cell(r) := r.newVal] == s1.rows;
  }

  /** Redo of a delete is not idempotent: the second redo fails. */
  lemma RedoDeleteTwiceFails(s: Store, r: Record)
    requires r.EditLog? && r.action == Delete
    requires Redo(s, r).Ok?
    ensures Redo(Redo(s, r).value, r) == Err(NoSuchKey)
  {
  }

  /** Undo of each action: an insert's key is removed, an update's cell gets
      its old value back, a deleted key is re-inserted with its old value. */
  lemma UndoEffect(s: Store, r: Record)
    requires r.EditLog?
    ensures r.action == Insert ==>
      (Undo(s, r).Ok? <==> r.tableName in s.tables && Cell(r) in s.rows) &&
      (Undo(s, r).Ok? ==> Undo(s, r).value == s.(rows := s.rows - {Cell(r)}))
    ensures r.action == Update ==>
      (Undo(s, r).Ok? <==> r.tableName in s.tables && Cell(r) in s.rows) &&
      (Undo(s, r).Ok? ==> Undo(s, r).value == s.(rows := s.rows[Cell(r) := r.oldVal]))
    ensures r.action == Delete ==>
      (Undo(s, r).Ok? <==> r.tableName in s.tables && Cell(r) !in s.rows) &&
      (Undo(s, r).Ok? ==> Undo(s, r).value == s.(rows := s.rows[Cell(r) := r.oldVal]))
  {
  }

  /** An update whose old value is in place is undone by Undo after Redo. */
  lemma RedoThenUndoUpdate(s: Store, r: Record)
    requires r.EditLog? && r.action == Update
    requires r.tableName in s.tables && Cell(r) in s.rows && s.rows[Cell(r)] == r.oldVal
    ensures Redo(s, r).Ok? && Undo(Redo(s, r).value, r) == Ok(s)
  {
    assert s.rows[Cell(r) := r.newVal][Cell(r) := r.oldVal] == s.rows;
  }

  /** Once an insert or update is in place, undoing and redoing it restores
      the new value and every other cell. */
  lemma UndoThenRedo(s: Store, r: Record)
    requires r.EditLog? && r.action != Delete
    requires r.tableName in s.tables && Cell(r) in s.rows && s.rows[Cell(r)] == r.newVal
    ensures Undo(s, r).Ok? && Redo(Undo(s, r).value, r) == Ok(s)
  {
    if r.action == Insert {
      assert (s.rows - {Cell(r)})[Cell(r) := r.newVal] == s.rows;
    } else {
      assert s.rows[Cell(r) := r.oldVal][Cell(r) := r.newVal] == s.rows;
    }
  }

  // ---------------------------------------------------------------------
  // Normal execution, and undoing a transaction backwards

  /** The store after the execution layer carried out the action that edit
      record `r` describes, with the old value it recorded really in place;
      None when `r` could not have been logged in state `s`. This is the
      meaning of an edit record, independent of Redo's fallbacks. */
  ghost function Performed(s: Store, r: Record): Option<Store>
    requires r.EditLog?
  {
    var c := Cell(r);
    if r.tableName !in s.tables then None
    else match r.action
      case Insert => if c in s.rows then None else Some(s.(rows := s.rows[c := r.newVal]))
      case Update =>
        if c in s.rows && s.rows[c] == r.oldVal then Some(s.(rows := s.rows[c := r.newVal])) else None
      case Delete =>
        if c in s.rows && s.rows[c] == r.oldVal then Some(s.(rows := s.rows - {c})) else None
  }

  /** Carrying out, in order, every edit record of `recs` (other records have
      no effect on the store). */
  ghost function PerformedAll(s: Store, recs: seq<Record>): Option<Store>
    decreases |recs|
  {
    if recs == [] then Some(s)
    else
      var before := PerformedAll(s, recs[..|recs| - 1]);
      var last := recs[|recs| - 1];
      if before.None? then None
      else if last.EditLog? then Performed(before.value, last)
      else before
  }

  /** Undo of one performed edit gives back the state before it. */
  lemma UndoPerformed(s: Store, r: Record)
    requires r.EditLog? && Performed(s, r).Some?
    ensures Undo(Performed(s, r).value, r) == Ok(s)
  {
    var c := Cell(r);
    match r.action
    case Insert => assert s.rows[c := r.newVal] - {c} == s.rows;
    case Update => assert s.rows[c := r.newVal][c := r.oldVal] == s.rows;
    case Delete => assert (s.rows - {c})[c := r.oldVal] == s.rows;
  }

  /** Redo of an edit that can be carried out as logged has exactly that
      effect: none of Redo's fallbacks is needed. */
  lemma RedoPerformed(s: Store, r: Record)
    requires r.EditLog? && Performed(s, r).Some?
    ensures Redo(s, r) == Ok(Performed(s, r).value)
  {
  }

  /** PerformedAll unfolded from the front: carry out the first record, then
      the rest. */
  lemma {:induction false} PerformedAllCons(s: Store, recs: seq<Record>)
    requires recs != []
    ensures PerformedAll(s, recs) ==
      var s1 := if recs[0].EditLog? then Performed(s, recs[0]) else Some(s);
      if s1.None? then None else PerformedAll(s1.value, recs[1..])
    decreases |recs|
  {
    var n := |recs|;
    if n > 1 {
      var init := recs[..n - 1];
      PerformedAllCons(s, init);
      assert init[0] == recs[0];
      assert init[1..] == recs[1..][..n - 2];
      assert recs[1..][n - 2] == recs[n - 1];
    } else {
      assert recs[..0] == [];
      assert recs[1..] == [];
    }
  }

  /** Undo of every edit record of `recs`, last record first, stopping at the
      first undo that fails (Rollback's loop). */
  function UndoBackward(s: Store, recs: seq<Record>): (o: Outcome<Store>)
    ensures o.st.tables == s.tables
    ensures o.Failed? ==> exists j :: 0 <= j < |recs| && recs[j].EditLog?
    decreases |recs|
  {
    if recs == [] then Done(s)
    else
      var last := recs[|recs| - 1];
      if last.EditLog? then
        var u := Undo(s, last);
        if u.Err? then Failed(s, u.error) else UndoBackward(u.value, recs[..|recs| - 1])
      else UndoBackward(s, recs[..|recs| - 1])
  }

  /** Undoing backwards a sequence of edits that were carried out forwards
      from `s` brings the store back to exactly `s`. */
  lemma {:induction false} UndoBackwardRestores(s: Store, recs: seq<Record>)
    requires PerformedAll(s, recs).Some?
    ensures UndoBackward(PerformedAll(s, recs).value, recs) == Done(s)
    decreases |recs|
  {
    if recs != [] {
      var init := recs[..|recs| - 1];
      var last := recs[|recs| - 1];
      var mid := PerformedAll(s, init).value;
      if last.EditLog? {
        UndoPerformed(mid, last);
      }
      UndoBackwardRestores(s, init);
    }
  }

  /** Some edit record of `recs` is about cell `c`. */
  ghost predicate Touches(recs: seq<Record>, c: (string, int))
  {
    exists j :: 0 <= j < |recs| && recs[j].EditLog? && Cell(recs[j]) == c
  }

  /** The two stores agree on cell `c`: both lack it or both hold the same value. */
  ghost predicate SameAt(a: Store, b: Store, c: (string, int))
  {
    (c in a.rows <==> c in b.rows) && (c in a.rows ==> a.rows[c] == b.rows[c])
  }

  /** Undo of one edit changes no table and no cell but its own. */
  lemma UndoFrame(s: Store, r: Record, c: (string, int))
    requires Undo(s, r).Ok? && (r.EditLog? ==> Cell(r) != c)
    ensures Undo(s, r).value.tables == s.tables
    ensures SameAt(Undo(s, r).value, s, c)
  {
  }

  /** Undoing a transaction backwards changes no table, and leaves every cell
      that none of its edits is about as it was, even when an undo fails. */
  lemma {:induction false} UndoBackwardFrame(s: Store, recs: seq<Record>, c: (string, int))
    requires !Touches(recs, c)
    ensures UndoBackward(s, recs).st.tables == s.tables
    ensures SameAt(UndoBackward(s, recs).st, s, c)
    decreases |recs|
  {
    if recs != [] {
      var init := recs[..|recs| - 1];
      var last := recs[|recs| - 1];
      assert !Touches(init, c) by {
        forall j | 0 <= j < |init| ensures !(init[j].EditLog? && Cell(init[j]) == c) {
          assert init[j] == recs[j];
        }
      }
      if last.EditLog? {
        assert Cell(last) != c;
        var u := Undo(s, last);
        if u.Ok? {
          UndoFrame(s, last, c);
          UndoBackwardFrame(u.value, init, c);
        }
      } else {
        UndoBackwardFrame(s, init, c);
      }
    }
  }
}
