/**
 * The record store: one function per statement, each taking the manager
 * whose connection runs it. Mutators raise on the driver's errors (the
 * missing table, the NOT NULL and UNIQUE constraints of `users`) and leave
 * the connection as it was; queries change nothing.
 */
module Crud {
  import opened Wrappers
  import opened Records
  import Sqlite
  import opened Db

  // -------------------------------------------------------------------
  // Users
  // -------------------------------------------------------------------

  /** `insert_user`: appends one user row, or raises because a value is NULL
      or the username is already taken. */
  method InsertUser(db: DatabaseManager, username: Text, passwordHash: Text, role: Text)
    returns (r: Outcome<Sqlite.DbError>)
    requires db.Valid() && db.open
    modifies db, db.file
    ensures db.Valid() && db.open
    ensures db.file.committed == old(db.file.committed)
    ensures db.inTxn == (old(db.inTxn) || Users in old(db.tables))
    ensures db.Image() == Sqlite.After(old(db.Image()), Sqlite.InsertUser(username, passwordHash, role))
    ensures r.Pass? <==> Sqlite.Exec(old(db.Image()), Sqlite.InsertUser(username, passwordHash, role)).Success?
  {
    r := db.Execute(Sqlite.InsertUser(username, passwordHash, role));
  }

  /** `get_user_by_username`: the row with that username, or `None`. */
  method GetUserByUsername(db: DatabaseManager, username: string)
    returns (r: Result<Option<UserRow>, Sqlite.DbError>)
    requires db.Valid() && db.open
    ensures r.Failure? <==> Users !in db.tables
    ensures r.Failure? ==> r.error == Sqlite.NoSuchTable(Users)
    ensures r.Success? && r.value.Some? ==>
      && r.value.value in db.users
      && r.value.value.username == username
      && forall i :: 0 <= i < |db.users| && db.users[i].username == username ==> db.users[i] == r.value.value
    ensures r.Success? && r.value.None? ==> forall i :: 0 <= i < |db.users| ==> db.users[i].username != username
    ensures r == Sqlite.SelectUserByUsername(db.Image(), username)
  {
    r := Sqlite.SelectUserByUsername(db.Image(), username);
    if Users in db.tables {
      Sqlite.SelectUserFindsUniqueRow(db.Image(), username);
    }
  }

  // -------------------------------------------------------------------
  // Cyber incidents
  // -------------------------------------------------------------------

  /** `create_incident`: appends one row with the eight given values. */
  method CreateIncident(db: DatabaseManager, incidentId: Text, incidentType: Text, severity: Text,
                        status: Text, reportedAt: Text, resolvedAt: Text, assignedTo: Text,
                        description: Text)
    returns (r: Outcome<Sqlite.DbError>)
    requires db.Valid() && db.open
    modifies db, db.file
    ensures db.Valid() && db.open
    ensures db.file.committed == old(db.file.committed)
    ensures db.inTxn == (old(db.inTxn) || CyberIncidents in old(db.tables))
    ensures db.Image() == Sqlite.After(old(db.Image()), Sqlite.InsertIncident(
      incidentId, incidentType, severity, status, reportedAt, resolvedAt, assignedTo, description))
    ensures r.Pass? <==> CyberIncidents in old(db.tables)
  {
    r := db.Execute(Sqlite.InsertIncident(
      incidentId, incidentType, severity, status, reportedAt, resolvedAt, assignedTo, description));
  }

  /** `get_all_incidents`: every incident row, in storage order. */
  method GetAllIncidents(db: DatabaseManager) returns (r: Result<seq<IncidentRow>, Sqlite.DbError>)
    requires db.Valid() && db.open
    ensures CyberIncidents in db.tables ==> r == Success(db.incidents)
    ensures CyberIncidents !in db.tables ==> r == Failure(Sqlite.NoSuchTable(CyberIncidents))
  {
    r := Sqlite.SelectAllIncidents(db.Image());
  }

  /** `update_incident_status`: sets the status of every row with that incident_id. */
  method UpdateIncidentStatus(db: DatabaseManager, incidentId: Text, newStatus: Text)
    returns (r: Outcome<Sqlite.DbError>)
    requires db.Valid() && db.open
    modifies db, db.file
    ensures db.Valid() && db.open
    ensures db.file.committed == old(db.file.committed)
    ensures db.inTxn == (old(db.inTxn) || CyberIncidents in old(db.tables))
    ensures db.Image() == Sqlite.After(old(db.Image()), Sqlite.UpdateIncidentStatus(incidentId, newStatus))
    ensures r.Pass? <==> CyberIncidents in old(db.tables)
  {
    r := db.Execute(Sqlite.UpdateIncidentStatus(incidentId, newStatus));
  }

  /** `delete_incident`: removes every row with that incident_id. */
  method DeleteIncident(db: DatabaseManager, incidentId: Text) returns (r: Outcome<Sqlite.DbError>)
    requires db.Valid() && db.open
    modifies db, db.file
    ensures db.Valid() && db.open
    ensures db.file.committed == old(db.file.committed)
    ensures db.inTxn == (old(db.inTxn) || CyberIncidents in old(db.tables))
    ensures db.Image() == Sqlite.After(old(db.Image()), Sqlite.DeleteIncident(incidentId))
    ensures r.Pass? <==> CyberIncidents in old(db.tables)
  {
    r := db.Execute(Sqlite.DeleteIncident(incidentId));
  }

  // -------------------------------------------------------------------
  // Datasets
  // -------------------------------------------------------------------

  /** `create_dataset`: appends one row with the six given values; a
      row_count beyond SQLite's 64-bit INTEGER raises OverflowError. */
  method CreateDataset(db: DatabaseManager, datasetName: Text, owner: Text, sourceSystem: Text,
                       sizeMb: Option<Float>, rowCount: Option<int>, createdAt: Text)
    returns (r: Outcome<Sqlite.DbError>)
    requires db.Valid() && db.open
    modifies db, db.file
    ensures db.Valid() && db.open
    ensures db.file.committed == old(db.file.committed)
    ensures db.inTxn == (old(db.inTxn) || DatasetsMetadata in old(db.tables))
    ensures db.Image() == Sqlite.After(old(db.Image()), Sqlite.InsertDataset(
      datasetName, owner, sourceSystem, sizeMb, rowCount, createdAt))
    ensures r.Pass? <==> DatasetsMetadata in old(db.tables) && Sqlite.FitsInteger(rowCount)
  {
    r := db.Execute(Sqlite.InsertDataset(datasetName, owner, sourceSystem, sizeMb, rowCount, createdAt));
  }

  /** `get_all_datasets`: every dataset row, in storage order. */
  method GetAllDatasets(db: DatabaseManager) returns (r: Result<seq<DatasetRow>, Sqlite.DbError>)
    requires db.Valid() && db.open
    ensures DatasetsMetadata in db.tables ==> r == Success(db.datasets)
    ensures DatasetsMetadata !in db.tables ==> r == Failure(Sqlite.NoSuchTable(DatasetsMetadata))
  {
    r := Sqlite.SelectAllDatasets(db.Image());
  }

  /** `update_dataset_owner`: sets the owner of every row with that dataset_name. */
  method UpdateDatasetOwner(db: DatabaseManager, datasetName: Text, newOwner: Text)
    returns (r: Outcome<Sqlite.DbError>)
    requires db.Valid() && db.open
    modifies db, db.file
    ensures db.Valid() && db.open
    ensures db.file.committed == old(db.file.committed)
    ensures db.inTxn == (old(db.inTxn) || DatasetsMetadata in old(db.tables))
    ensures db.Image() == Sqlite.After(old(db.Image()), Sqlite.UpdateDatasetOwner(datasetName, newOwner))
    ensures r.Pass? <==> DatasetsMetadata in old(db.tables)
  {
    r := db.Execute(Sqlite.UpdateDatasetOwner(datasetName, newOwner));
  }

  /** `delete_dataset`: removes every row with that dataset_name. */
  method DeleteDataset(db: DatabaseManager, datasetName: Text) returns (r: Outcome<Sqlite.DbError>)
    requires db.Valid() && db.open
    modifies db, db.file
    ensures db.Valid() && db.open
    ensures db.file.committed == old(db.file.committed)
    ensures db.inTxn == (old(db.inTxn) || DatasetsMetadata in old(db.tables))
    ensures db.Image() == Sqlite.After(old(db.Image()), Sqlite.DeleteDataset(datasetName))
    ensures r.Pass? <==> DatasetsMetadata in old(db.tables)
  {
    r := db.Execute(Sqlite.DeleteDataset(datasetName));
  }

  // -------------------------------------------------------------------
  // IT tickets
  // -------------------------------------------------------------------

  /** `create_ticket`: appends one row with the seven given values. */
  method CreateTicket(db: DatabaseManager, ticketId: Text, category: Text, priority: Text,
                      status: Text, openedAt: Text, closedAt: Text, assignedTo: Text)
    returns (r: Outcome<Sqlite.DbError>)
    requires db.Valid() && db.open
    modifies db, db.file
    ensures db.Valid() && db.open
    ensures db.file.committed == old(db.file.committed)
    ensures db.inTxn == (old(db.inTxn) || ItTickets in old(db.tables))
    ensures db.Image() == Sqlite.After(old(db.Image()), Sqlite.InsertTicket(
      ticketId, category, priority, status, openedAt, closedAt, assignedTo))
    ensures r.Pass? <==> ItTickets in old(db.tables)
  {
    r := db.Execute(Sqlite.InsertTicket(ticketId, category, priority, status, openedAt, closedAt, assignedTo));
  }

  /** `get_all_tickets`: every ticket row, in storage order. */
  method GetAllTickets(db: DatabaseManager) returns (r: Result<seq<TicketRow>, Sqlite.DbError>)
    requires db.Valid() && db.open
    ensures ItTickets in db.tables ==> r == Success(db.tickets)
    ensures ItTickets !in db.tables ==> r == Failure(Sqlite.NoSuchTable(ItTickets))
  {
    r := Sqlite.SelectAllTickets(db.Image());
  }

  /** `update_ticket_status`: sets the status of every row with that ticket_id. */
  method UpdateTicketStatus(db: DatabaseManager, ticketId: Text, newStatus: Text)
    returns (r: Outcome<Sqlite.DbError>)
    requires db.Valid() && db.open
    modifies db, db.file
    ensures db.Valid() && db.open
    ensures db.file.committed == old(db.file.committed)
    ensures db.inTxn == (old(db.inTxn) || ItTickets in old(db.tables))
    ensures db.Image() == Sqlite.After(old(db.Image()), Sqlite.UpdateTicketStatus(ticketId, newStatus))
    ensures r.Pass? <==> ItTickets in old(db.tables)
  {
    r := db.Execute(Sqlite.UpdateTicketStatus(ticketId, newStatus));
  }

  /** `delete_ticket`: removes every row with that ticket_id. */
  method DeleteTicket(db: DatabaseManager, ticketId: Text) returns (r: Outcome<Sqlite.DbError>)
    requires db.Valid() && db.open
    modifies db, db.file
    ensures db.Valid() && db.open
    ensures db.file.committed == old(db.file.committed)
    ensures db.inTxn == (old(db.inTxn) || ItTickets in old(db.tables))
    ensures db.Image() == Sqlite.After(old(db.Image()), Sqlite.DeleteTicket(ticketId))
    ensures r.Pass? <==> ItTickets in old(db.tables)
  {
    r := db.Execute(Sqlite.DeleteTicket(ticketId));
  }
}
