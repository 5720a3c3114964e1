/**
 * `create_tables`: four `CREATE TABLE IF NOT EXISTS` statements on one
 * connection, for users, cyber_incidents, datasets_metadata and it_tickets.
 */
module Schema {
  import opened Records
  import opened Sqlite
  import opened Db

  /** The tables the platform declares. */
  const AllTables: set<TableName> := {Users, CyberIncidents, DatasetsMetadata, ItTickets}

  /** One `CREATE TABLE IF NOT EXISTS`: the table exists afterwards, with
      its rows and counter kept when it was there already. */
  method CreateIfNotExists(db: DatabaseManager, t: TableName)
    requires db.Valid() && db.open
    modifies db, db.file
    ensures db.Valid() && db.open && db.inTxn == old(db.inTxn)
    ensures db.Image() == old(db.Image()).(tables := old(db.tables) + {t})
    ensures db.file.committed == if old(db.inTxn) then old(db.file.committed) else db.Image()
  {
    CreateTableEffect(db.Image(), t);
    var created := db.Execute(CreateTable(t));
  }

  /** Afterwards all four tables exist; a table that existed keeps its rows and
      its AUTOINCREMENT counter, and a new one starts empty. Calling it again
      changes nothing. No commit is issued: outside a transaction each
      statement is written to the file as it runs, inside one the tables wait
      for the transaction's commit. */
  method CreateTables(db: DatabaseManager)
    requires db.Valid() && db.open
    modifies db, db.file
    ensures db.Valid() && db.open && db.inTxn == old(db.inTxn)
    ensures db.file.committed == if old(db.inTxn) then old(db.file.committed) else db.Image()
    ensures db.tables == AllTables
    ensures forall t: TableName :: t in db.tables
    ensures db.Image() == old(db.Image()).(tables := AllTables)
    ensures old(db.tables) == AllTables ==> db.Image() == old(db.Image())
  {
    forall t: TableName ensures t in AllTables {
      match t
      case Users =>
      case CyberIncidents =>
      case DatasetsMetadata =>
      case ItTickets =>
    }
    ghost var start := db.Image();
    CreateIfNotExists(db, Users);
    CreateIfNotExists(db, CyberIncidents);
    CreateIfNotExists(db, DatasetsMetadata);
    CreateIfNotExists(db, ItTickets);
    assert db.tables == start.tables + AllTables;
  }
}
