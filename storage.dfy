/** The external collaborators of the recovery manager, as abstract values:
    the storage engine (tables of integer keys mapped to integer values) and
    the transaction manager (the set of running transaction ids). A failing
    call leaves its state unchanged. The code of these collaborators is not
    part of this model: the bodies and contracts below are this model's
    assumptions about them, not properties proved of their code. */
module Storage {
  import opened Common

  datatype Store = Store(tables: set<string>, rows: map<(string, int), int>)

  /** The store that holds no table. */
  const Empty := Store({}, map[])

  /** Table creation; the table kind only selects an index structure. */
  function HandleCreateTable(s: Store, tblType: string, tblName: string): (r: Result<Store>)
    ensures r.Ok? <==> tblName !in s.tables
    ensures r.Ok? ==> r.value == s.(tables := s.tables + {tblName})
    ensures r.Err? ==> r.error == TableExists
  {
    if tblName in s.tables then Err(TableExists)
    else Ok(s.(tables := s.tables + {tblName}))
  }

  function HandleInsert(s: Store, table: string, key: int, value: int): (r: Result<Store>)
    ensures r.Ok? <==> table in s.tables && (table, key) !in s.rows
    ensures r.Ok? ==> r.value == s.(rows := s.rows[(table, key) := value])
  {
    if table !in s.tables then Err(NoSuchTable)
    else if (table, key) in s.rows then Err(DuplicateKey)
    else Ok(s.(rows := s.rows[(table, key) := value]))
  }

  function HandleUpdate(s: Store, table: string, key: int, value: int): (r: Result<Store>)
    ensures r.Ok? <==> table in s.tables && (table, key) in s.rows
    ensures r.Ok? ==> r.value == s.(rows := s.rows[(table, key) := value])
  {
    if table !in s.tables then Err(NoSuchTable)
    else if (table, key) !in s.rows then Err(NoSuchKey)
    else Ok(s.(rows := s.rows[(table, key) := value]))
  }

  function HandleDelete(s: Store, table: string, key: int): (r: Result<Store>)
    ensures r.Ok? <==> table in s.tables && (table, key) in s.rows
    ensures r.Ok? ==> r.value == s.(rows := s.rows - {(table, key)})
  {
    if table !in s.tables then Err(NoSuchTable)
    else if (table, key) !in s.rows then Err(NoSuchKey)
    else Ok(s.(rows := s.rows - {(table, key)}))
  }
}

/** The transaction manager's begin and commit, as seen by recovery. Like the
    storage handlers above, these are this model's assumptions about code
    outside the model. */
module TxManager {
  import opened Common
  import opened Records

  function Begin(running: set<TxId>, id: TxId): (r: Result<set<TxId>>)
    ensures r.Ok? <==> id !in running
    ensures r.Ok? ==> r.value == running + {id}
  {
    if id in running then Err(AlreadyBegun) else Ok(running + {id})
  }

  function Commit(running: set<TxId>, id: TxId): (r: Result<set<TxId>>)
    ensures r.Ok? <==> id in running
    ensures r.Ok? ==> r.value == running - {id}
  {
    if id !in running then Err(NotRunning) else Ok(running - {id})
  }
}
