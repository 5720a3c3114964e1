/**
 * `DatabaseManager`: one sqlite3 connection to the database file, used as a
 * context manager. Statements run on the connection's own view of the
 * tables. The connection keeps sqlite3's default transaction handling: an
 * INSERT, UPDATE or DELETE opens a transaction when none is open, and the
 * writes made inside it reach the file only at `commit`; closing without a
 * commit discards them. A CREATE TABLE run while no transaction is open is
 * written to the file at once.
 */
module Db {
  import opened Wrappers
  import opened Records
  import opened Sqlite

  /** The database file, as far as its committed contents go. */
  class DbFile {
    var committed: DbImage

    ghost predicate Valid()
      reads this
    {
      WellFormed(committed)
    }

    /** A database file that does not exist yet: connecting creates it empty. */
    constructor ()
      ensures Valid() && committed == EmptyImage
    {
      committed := EmptyImage;
    }
  }

  /** sqlite3 opens a transaction before an INSERT, UPDATE or DELETE, once
      the statement has been prepared against an existing table. */
  predicate BeginsTransaction(img: DbImage, st: Statement) {
    !st.CreateTable? && Target(st) in img.tables
  }

  class DatabaseManager {
    /** The file at `db_path` that the connection was opened on. */
    const file: DbFile
    /** False once `close()` has run. */
    var open: bool
    /** `conn.in_transaction`: writes are waiting for a commit. */
    var inTxn: bool

    // The connection's view of the database, including its uncommitted writes.
    var tables: set<TableName>
    var users: seq<UserRow>
    var usersSeq: nat
    var incidents: seq<IncidentRow>
    var incidentsSeq: nat
    var datasets: seq<DatasetRow>
    var datasetsSeq: nat
    var tickets: seq<TicketRow>
    var ticketsSeq: nat

    /** The connection's view as one value. */
    function Image(): DbImage
      reads this
    {
      DbImage(tables, users, usersSeq, incidents, incidentsSeq, datasets, datasetsSeq, tickets, ticketsSeq)
    }

    /** The view is well formed, and outside a transaction it is exactly
        what the file holds. */
    ghost predicate Valid()
      reads this, file
    {
      WellFormed(Image()) && file.Valid() && (!inTxn ==> Image() == file.committed)
    }

    /** `DatabaseManager(db_path)`: `sqlite3.connect` opens a connection that
        sees what is committed to the file, with no transaction open. */
    constructor (file: DbFile)
      requires file.Valid()
      ensures this.file == file && open && !inTxn
      ensures Valid() && Image() == file.committed
    {
      this.file := file;
      open := true;
      inTxn := false;
      var img := file.committed;
      tables := img.tables;
      users, usersSeq := img.users, img.usersSeq;
      incidents, incidentsSeq := img.incidents, img.incidentsSeq;
      datasets, datasetsSeq := img.datasets, img.datasetsSeq;
      tickets, ticketsSeq := img.tickets, img.ticketsSeq;
    }

    /** `cursor().execute(...)`: runs one statement on this connection. A
        statement that raises leaves the view as it was; one that succeeds is
        visible to every later statement on the connection, committed or not.
        An INSERT, UPDATE or DELETE on an existing table opens a transaction
        if none is open (on a missing table it fails before that), even when
        the statement itself then fails a constraint; it never writes the
        file. A CREATE TABLE outside a transaction is committed at once. */
    method Execute(st: Statement) returns (r: Outcome<DbError>)
      requires Valid() && open
      modifies this, file
      ensures Valid() && open
      ensures Image() == After(old(Image()), st)
      ensures r == match Exec(old(Image()), st)
                   case Success(_) => Pass
                   case Failure(e) => Fail(e)
      ensures inTxn == (old(inTxn) || BeginsTransaction(old(Image()), st))
      ensures file.committed == if st.CreateTable? && !old(inTxn) then Image() else old(file.committed)
    {
      var before := Image();
      var res := Exec(before, st);
      ExecKeepsWellFormed(before, st);
      if BeginsTransaction(before, st) {
        inTxn := true;
      } else if !st.CreateTable? {
        assert res == Failure(NoSuchTable(Target(st)));
      }
      if res.Success? {
        SetImage(res.value);
        r := Pass;
      } else {
        r := Fail(res.error);
      }
      if st.CreateTable? && !inTxn {
        file.committed := Image();
      }
    }

    /** Replaces the connection's view by `img`. */
    method SetImage(img: DbImage)
      modifies this
      ensures Image() == img && open == old(open) && inTxn == old(inTxn)
    {
      tables := img.tables;
      users, usersSeq := img.users, img.usersSeq;
      incidents, incidentsSeq := img.incidents, img.incidentsSeq;
      datasets, datasetsSeq := img.datasets, img.datasetsSeq;
      tickets, ticketsSeq := img.tickets, img.ticketsSeq;
    }

    /** `commit()`: the connection's view becomes the file's contents and
        the transaction, if any, ends. */
    method Commit()
      requires Valid() && open
      modifies this, file
      ensures Valid() && open && !inTxn
      ensures Image() == old(Image()) && file.committed == Image()
    {
      file.committed := Image();
      inTxn := false;
    }

    /** `close()`: the connection can no longer be used; writes it has not
        committed are lost with it, and the file is left as it is. */
    method Close()
      modifies this
      ensures !open && !inTxn && Image() == old(Image())
    {
      open := false;
      inTxn := false;
    }

    /** `__enter__`: the `with` block works on this very manager. */
    method Enter() returns (db: DatabaseManager)
      ensures db == this
    {
      db := this;
    }

    /** `__exit__`: commit if the block finished without an exception, then
        close in every case. */
    method Exit(raised: bool)
      requires Valid() && open && file.Valid()
      modifies this, file
      ensures !open && file.Valid()
      ensures file.committed == if raised then old(file.committed) else old(Image())
    {
      if !raised {
        Commit();
      }
      Close();
    }
  }
}
