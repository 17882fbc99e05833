/** The five kinds of log record the recovery manager writes. */
module Records {

  /** A transaction (client) id; the source uses UUIDs, only equality matters. */
  type TxId = int

  datatype Action = Insert | Update | Delete

  datatype Record =
    | StartLog(id: TxId)
    | TableLog(tblType: string, tblName: string)
    | EditLog(id: TxId, tableName: string, action: Action, key: int, oldVal: int, newVal: int)
    | CommitLog(id: TxId)
    | CheckpointLog(ids: seq<TxId>)

  /** The (table, key) cell an edit record is about. */
  function Cell(r: Record): (c: (string, int))
    requires r.EditLog?
  {
    (r.tableName, r.key)
  }

  /** No id occurs twice. */
  predicate Distinct(ids: seq<TxId>)
  {
    forall a, b :: 0 <= a < b < |ids| ==> ids[a] != ids[b]
  }

  /** A non-empty set of ids has an element (used to pick one). */
  lemma SomeId(ids: set<TxId>)
    requires ids != {}
    ensures exists id :: id in ids
  {
    if forall id :: id !in ids {
      assert false;
    }
  }
}
