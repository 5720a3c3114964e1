/**
 * The domain services. Each command opens a fresh `DatabaseManager` on the
 * database file in a `with` block, makes exactly one record-store call and
 * leaves the block: the call's effect is committed iff it returned
 * normally, and an exception propagates to the caller with the file as it
 * was. `db_manager_cls` is modelled by the file its managers connect to.
 */
module Services {
  import opened Wrappers
  import opened Records
  import Sqlite
  import opened Db
  import Crud

  /** The default role `register_user` gives. */
  const DefaultRole := "general"

  // -------------------------------------------------------------------
  // Row-to-dict conversion of `find_user`
  // -------------------------------------------------------------------

  /** A fetched row: a mapping-like `sqlite3.Row` (column name, value pairs in
      column order) or a plain tuple. */
  datatype FetchedRow = MappingRow(fields: seq<(string, Value)>) | TupleRow(values: seq<Value>)

  /** A Python dict from column names to driver values. */
  type Dict = map<string, Value>

  /** `dict(row)` for a mapping-like row: one entry per column name, the
      first column of a name giving its value, as `row[name]` does. */
  function MappingToDict(fields: seq<(string, Value)>): Dict {
    if fields == [] then map[] else MappingToDict(fields[1..])[fields[0].0 := fields[0].1]
  }

  /** A mapping-like row becomes a dict with the same keys and values: every
      column name is a key, and each key holds the value of the first column
      bearing that name. */
  lemma {:induction false} MappingToDictKeepsColumns(fields: seq<(string, Value)>)
    ensures forall i :: 0 <= i < |fields| ==> fields[i].0 in MappingToDict(fields)
    ensures forall k :: k in MappingToDict(fields) ==>
      exists i :: 0 <= i < |fields| && fields[i].0 == k && MappingToDict(fields)[k] == fields[i].1
                  && forall j :: 0 <= j < i ==> fields[j].0 != k
  {
    if fields != [] {
      var rest := fields[1..];
      MappingToDictKeepsColumns(rest);
      var d := MappingToDict(fields);
      forall i | 0 <= i < |fields| ensures fields[i].0 in d {
        if i > 0 { assert fields[i] == rest[i - 1]; }
      }
      forall k | k in d
        ensures exists i :: 0 <= i < |fields| && fields[i].0 == k && d[k] == fields[i].1
                            && forall j :: 0 <= j < i ==> fields[j].0 != k
      {
        if k == fields[0].0 {
          assert fields[0].0 == k && d[k] == fields[0].1;
        } else {
          var i :| 0 <= i < |rest| && rest[i].0 == k && MappingToDict(rest)[k] == rest[i].1
                   && forall j :: 0 <= j < i ==> rest[j].0 != k;
          assert fields[i + 1] == rest[i];
          forall j | 0 <= j < i + 1 ensures fields[j].0 != k {
            if j > 0 { assert fields[j] == rest[j - 1]; }
          }
        }
      }
    }
  }

  /** The row-to-dict step of `find_user`: a mapping-like row becomes the dict
      of its columns; a tuple is read as (id, username, password_hash, role),
      and one shorter than four raises IndexError (`None` here). */
  function RowToDict(row: FetchedRow): (d: Option<Dict>)
    ensures row.MappingRow? ==> d.Some? && d.value == MappingToDict(row.fields)
    ensures row.TupleRow? ==> (d.Some? <==> |row.values| >= 4)
    ensures row.TupleRow? && d.Some? ==>
      && d.value.Keys == {"id", "username", "password_hash", "role"}
      && d.value["id"] == row.values[0] && d.value["username"] == row.values[1]
      && d.value["password_hash"] == row.values[2] && d.value["role"] == row.values[3]
  {
    match row
    case MappingRow(fields) => Some(MappingToDict(fields))
    case TupleRow(values) =>
      if |values| < 4 then None
      else Some(map["id" := values[0], "username" := values[1],
                    "password_hash" := values[2], "role" := values[3]])
  }

  /** A users row as the driver returns it, with `row_factory = sqlite3.Row`. */
  function UserFields(u: UserRow): seq<(string, Value)> {
    [("id", Integer(u.id)), ("username", TextValue(u.username)),
     ("password_hash", TextValue(u.passwordHash)), ("role", TextValue(u.role))]
  }

  /** The dict `find_user` returns for a users row. */
  function UserDict(u: UserRow): Dict {
    map["id" := Integer(u.id), "username" := TextValue(u.username),
        "password_hash" := TextValue(u.passwordHash), "role" := TextValue(u.role)]
  }

  /** Both row shapes give the same dict for a users row. */
  lemma RowShapesAgree(u: UserRow)
    ensures RowToDict(MappingRow(UserFields(u))) == Some(UserDict(u))
    ensures RowToDict(TupleRow([Integer(u.id), TextValue(u.username),
                                TextValue(u.passwordHash), TextValue(u.role)])) == Some(UserDict(u))
  {
    var f := UserFields(u);
    assert f[4..] == [];
    assert MappingToDict(f[3..]) == map["role" := TextValue(u.role)] by {
      assert f[3..][1..] == f[4..];
    }
    assert MappingToDict(f[2..]) == map["role" := TextValue(u.role), "password_hash" := TextValue(u.passwordHash)] by {
      assert f[2..][1..] == f[3..];
    }
    assert MappingToDict(f[1..]) == map["role" := TextValue(u.role), "password_hash" := TextValue(u.passwordHash),
                                        "username" := TextValue(u.username)] by {
      assert f[1..][1..] == f[2..];
    }
    assert MappingToDict(f) == UserDict(u);
  }

  // -------------------------------------------------------------------
  // Services
  // -------------------------------------------------------------------

  class UserService {
    const file: DbFile

    constructor (file: DbFile)
      ensures this.file == file
    {
      this.file := file;
    }

    /** `find_user`: the user's row as a dict, or `None` when no row has that
        username. Reading commits nothing new. */
    method FindUser(username: string) returns (r: Result<Option<Dict>, Sqlite.DbError>)
      requires file.Valid()
      modifies file
      ensures file.Valid() && file.committed == old(file.committed)
      ensures match Sqlite.SelectUserByUsername(old(file.committed), username)
              case Failure(e) => r == Failure(e)
              case Success(None) => r == Success(None)
              case Success(Some(u)) => r == Success(Some(UserDict(u)))
    {
      var manager := new DatabaseManager(file);
      var db := manager.Enter();
      var row := Crud.GetUserByUsername(db, username);
      db.Exit(row.Failure?);
      match row
      case Failure(e) =>
        r := Failure(e);
      case Success(None) =>
        r := Success(None);
      case Success(Some(u)) =>
        RowShapesAgree(u);
        var d := RowToDict(MappingRow(UserFields(u)));
        r := Success(Some(d.value));
    }

    /** `register_user`: inserts the user with the given role ("general" when
        omitted); the UNIQUE constraint makes it raise, committing nothing, for
        a username already taken. */
    method RegisterUser(username: string, passwordHash: string, role: string := DefaultRole)
      returns (r: Outcome<Sqlite.DbError>)
      requires file.Valid()
      modifies file
      ensures file.Valid()
      ensures file.committed == Sqlite.After(old(file.committed),
                                             Sqlite.InsertUser(Some(username), Some(passwordHash), Some(role)))
      ensures r.Pass? <==> Sqlite.Exec(old(file.committed),
                                       Sqlite.InsertUser(Some(username), Some(passwordHash), Some(role))).Success?
    {
      var manager := new DatabaseManager(file);
      var db := manager.Enter();
      r := Crud.InsertUser(db, Some(username), Some(passwordHash), Some(role));
      db.Exit(r.Fail?);
    }
  }

  class IncidentService {
    const file: DbFile

    constructor (file: DbFile)
      ensures this.file == file
    {
      this.file := file;
    }

    /** `list_incidents`: every incident row as stored. */
    method ListIncidents() returns (r: Result<seq<IncidentRow>, Sqlite.DbError>)
      requires file.Valid()
      modifies file
      ensures file.Valid() && file.committed == old(file.committed)
      ensures r == Sqlite.SelectAllIncidents(old(file.committed))
    {
      var manager := new DatabaseManager(file);
      var db := manager.Enter();
      r := Crud.GetAllIncidents(db);
      db.Exit(r.Failure?);
    }

    /** `create_incident`: adds one incident row, committed iff it was added. */
    method CreateIncident(incidentId: string, incidentType: string, severity: string, status: string,
                          reportedAt: string, resolvedAt: Option<string>, assignedTo: string,
                          description: string)
      returns (r: Outcome<Sqlite.DbError>)
      requires file.Valid()
      modifies file
      ensures file.Valid()
      ensures file.committed == Sqlite.After(old(file.committed), Sqlite.InsertIncident(
        Some(incidentId), Some(incidentType), Some(severity), Some(status), Some(reportedAt),
        resolvedAt, Some(assignedTo), Some(description)))
      ensures r.Pass? <==> CyberIncidents in old(file.committed).tables
    {
      var manager := new DatabaseManager(file);
      var db := manager.Enter();
      r := Crud.CreateIncident(db, Some(incidentId), Some(incidentType), Some(severity), Some(status),
                               Some(reportedAt), resolvedAt, Some(assignedTo), Some(description));
      db.Exit(r.Fail?);
    }

    /** `change_status`: the record store's update by incident_id, committed. */
    method ChangeStatus(incidentId: string, newStatus: string) returns (r: Outcome<Sqlite.DbError>)
      requires file.Valid()
      modifies file
      ensures file.Valid()
      ensures file.committed == Sqlite.After(old(file.committed),
                                             Sqlite.UpdateIncidentStatus(Some(incidentId), Some(newStatus)))
      ensures r.Pass? <==> CyberIncidents in old(file.committed).tables
    {
      var manager := new DatabaseManager(file);
      var db := manager.Enter();
      r := Crud.UpdateIncidentStatus(db, Some(incidentId), Some(newStatus));
      db.Exit(r.Fail?);
    }

    /** `remove_incident`: the record store's delete by incident_id, committed. */
    method RemoveIncident(incidentId: string) returns (r: Outcome<Sqlite.DbError>)
      requires file.Valid()
      modifies file
      ensures file.Valid()
      ensures file.committed == Sqlite.After(old(file.committed), Sqlite.DeleteIncident(Some(incidentId)))
      ensures r.Pass? <==> CyberIncidents in old(file.committed).tables
    {
      var manager := new DatabaseManager(file);
      var db := manager.Enter();
      r := Crud.DeleteIncident(db, Some(incidentId));
      db.Exit(r.Fail?);
    }
  }

  class DatasetService {
    const file: DbFile

    constructor (file: DbFile)
      ensures this.file == file
    {
      this.file := file;
    }

    /** `list_datasets`: every dataset row as stored. */
    method ListDatasets() returns (r: Result<seq<DatasetRow>, Sqlite.DbError>)
      requires file.Valid()
      modifies file
      ensures file.Valid() && file.committed == old(file.committed)
      ensures r == Sqlite.SelectAllDatasets(old(file.committed))
    {
      var manager := new DatabaseManager(file);
      var db := manager.Enter();
      r := Crud.GetAllDatasets(db);
      db.Exit(r.Failure?);
    }

    /** `register_dataset`: adds one dataset row; no check that the name is
      new. A row count beyond 64 bits raises and commits nothing. */
    method RegisterDataset(datasetName: string, owner: string, sourceSystem: string,
                           sizeMb: Float, rowCount: int, createdAt: string)
      returns (r: Outcome<Sqlite.DbError>)
      requires file.Valid()
      modifies file
      ensures file.Valid()
      ensures file.committed == Sqlite.After(old(file.committed), Sqlite.InsertDataset(
        Some(datasetName), Some(owner), Some(sourceSystem), Some(sizeMb), Some(rowCount), Some(createdAt)))
      ensures r.Pass? <==> DatasetsMetadata in old(file.committed).tables && Sqlite.FitsInteger(Some(rowCount))
    {
      var manager := new DatabaseManager(file);
      var db := manager.Enter();
      r := Crud.CreateDataset(db, Some(datasetName), Some(owner), Some(sourceSystem), Some(sizeMb),
                              Some(rowCount), Some(createdAt));
      db.Exit(r.Fail?);
    }

    /** `change_owner`: the record store's owner update by dataset_name, committed. */
    method ChangeOwner(datasetName: string, newOwner: string) returns (r: Outcome<Sqlite.DbError>)
      requires file.Valid()
      modifies file
      ensures file.Valid()
      ensures file.committed == Sqlite.After(old(file.committed),
                                             Sqlite.UpdateDatasetOwner(Some(datasetName), Some(newOwner)))
      ensures r.Pass? <==> DatasetsMetadata in old(file.committed).tables
    {
      var manager := new DatabaseManager(file);
      var db := manager.Enter();
      r := Crud.UpdateDatasetOwner(db, Some(datasetName), Some(newOwner));
      db.Exit(r.Fail?);
    }

    /** `remove_dataset`: the record store's delete by dataset_name, committed. */
    method RemoveDataset(datasetName: string) returns (r: Outcome<Sqlite.DbError>)
      requires file.Valid()
      modifies file
      ensures file.Valid()
      ensures file.committed == Sqlite.After(old(file.committed), Sqlite.DeleteDataset(Some(datasetName)))
      ensures r.Pass? <==> DatasetsMetadata in old(file.committed).tables
    {
      var manager := new DatabaseManager(file);
      var db := manager.Enter();
      r := Crud.DeleteDataset(db, Some(datasetName));
      db.Exit(r.Fail?);
    }
  }

  class TicketService {
    const file: DbFile

    constructor (file: DbFile)
      ensures this.file == file
    {
      this.file := file;
    }

    /** `list_tickets`: every ticket row as stored. */
    method ListTickets() returns (r: Result<seq<TicketRow>, Sqlite.DbError>)
      requires file.Valid()
      modifies file
      ensures file.Valid() && file.committed == old(file.committed)
      ensures r == Sqlite.SelectAllTickets(old(file.committed))
    {
      var manager := new DatabaseManager(file);
      var db := manager.Enter();
      r := Crud.GetAllTickets(db);
      db.Exit(r.Failure?);
    }

    /** `create_ticket`: adds one ticket row; `closed_at` may be `None`. */
    method CreateTicket(ticketId: string, category: string, priority: string, status: string,
                        openedAt: string, closedAt: Option<string>, assignedTo: string)
      returns (r: Outcome<Sqlite.DbError>)
      requires file.Valid()
      modifies file
      ensures file.Valid()
      ensures file.committed == Sqlite.After(old(file.committed), Sqlite.InsertTicket(
        Some(ticketId), Some(category), Some(priority), Some(status), Some(openedAt), closedAt, Some(assignedTo)))
      ensures r.Pass? <==> ItTickets in old(file.committed).tables
    {
      var manager := new DatabaseManager(file);
      var db := manager.Enter();
      r := Crud.CreateTicket(db, Some(ticketId), Some(category), Some(priority), Some(status),
                             Some(openedAt), closedAt, Some(assignedTo));
      db.Exit(r.Fail?);
    }

    /** `change_status`: the record store's status update by ticket_id, committed. */
    method ChangeStatus(ticketId: string, newStatus: string) returns (r: Outcome<Sqlite.DbError>)
      requires file.Valid()
      modifies file
      ensures file.Valid()
      ensures file.committed == Sqlite.After(old(file.committed),
                                             Sqlite.UpdateTicketStatus(Some(ticketId), Some(newStatus)))
      ensures r.Pass? <==> ItTickets in old(file.committed).tables
    {
      var manager := new DatabaseManager(file);
      var db := manager.Enter();
      r := Crud.UpdateTicketStatus(db, Some(ticketId), Some(newStatus));
      db.Exit(r.Fail?);
    }

    /** `remove_ticket`: the record store's delete by ticket_id, committed. */
    method RemoveTicket(ticketId: string) returns (r: Outcome<Sqlite.DbError>)
      requires file.Valid()
      modifies file
      ensures file.Valid()
      ensures file.committed == Sqlite.After(old(file.committed), Sqlite.DeleteTicket(Some(ticketId)))
      ensures r.Pass? <==> ItTickets in old(file.committed).tables
    {
      var manager := new DatabaseManager(file);
      var db := manager.Enter();
      r := Crud.DeleteTicket(db, Some(ticketId));
      db.Exit(r.Fail?);
    }
  }
}
