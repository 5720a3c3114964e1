/**
 * Statement-level semantics of the SQLite database the platform uses: the
 * contents of the four tables, the AUTOINCREMENT counters kept for them,
 * and the effect of each parameterised statement that the record store
 * issues. A statement either succeeds with a new image or raises and
 * changes nothing (SQLite statements are atomic).
 */
module Sqlite {
  import opened Wrappers
  import opened Records
  import opened Rows

  /** Everything a connection can see: which tables exist, their rows in
      storage order, and for each table the largest id AUTOINCREMENT has
      handed out so far (its `sqlite_sequence` entry). */
  datatype DbImage = DbImage(
    tables: set<TableName>,
    users: seq<UserRow>, usersSeq: nat,
    incidents: seq<IncidentRow>, incidentsSeq: nat,
    datasets: seq<DatasetRow>, datasetsSeq: nat,
    tickets: seq<TicketRow>, ticketsSeq: nat)

  /** An empty database file. */
  const EmptyImage := DbImage({}, [], 0, [], 0, [], 0, [], 0)

  /** The errors the sqlite3 driver raises for these statements. */
  datatype DbError =
    | NoSuchTable(table: TableName)
    | NotNullFailed(column: string)
    | UniqueFailed(column: string)
    | IntegerOverflow

  /** SQLite stores an INTEGER in 64 bits; sqlite3 refuses to bind a Python
      int outside that range and raises OverflowError. */
  const MinInteger := -0x8000_0000_0000_0000
  const MaxInteger := 0x7FFF_FFFF_FFFF_FFFF

  predicate FitsInteger(v: Option<int>) {
    v.None? || MinInteger <= v.value <= MaxInteger
  }

  /** No two users share a username (the UNIQUE constraint). */
  ghost predicate UniqueUsernames(users: seq<UserRow>) {
    forall i, j :: 0 <= i < j < |users| ==> users[i].username != users[j].username
  }

  /** What SQLite maintains for every database the platform touches. */
  ghost predicate WellFormed(img: DbImage) {
    && (Users !in img.tables ==> img.users == [] && img.usersSeq == 0)
    && (CyberIncidents !in img.tables ==> img.incidents == [] && img.incidentsSeq == 0)
    && (DatasetsMetadata !in img.tables ==> img.datasets == [] && img.datasetsSeq == 0)
    && (ItTickets !in img.tables ==> img.tickets == [] && img.ticketsSeq == 0)
    && Ascending(img.users, UserId) && IdsUpTo(img.users, UserId, img.usersSeq)
    && Ascending(img.incidents, IncidentKey) && IdsUpTo(img.incidents, IncidentKey, img.incidentsSeq)
    && Ascending(img.datasets, DatasetKey) && IdsUpTo(img.datasets, DatasetKey, img.datasetsSeq)
    && Ascending(img.tickets, TicketKey) && IdsUpTo(img.tickets, TicketKey, img.ticketsSeq)
    && UniqueUsernames(img.users)
  }

  /** The parameterised statements of the schema definer and the record store. */
  datatype Statement =
    | CreateTable(table: TableName)
    | InsertUser(username: Text, passwordHash: Text, role: Text)
    | InsertIncident(incidentId: Text, incidentType: Text, severity: Text, status: Text,
                     reportedAt: Text, resolvedAt: Text, assignedTo: Text, description: Text)
    | UpdateIncidentStatus(incidentId: Text, status: Text)
    | DeleteIncident(incidentId: Text)
    | InsertDataset(datasetName: Text, owner: Text, sourceSystem: Text,
                    sizeMb: Option<Float>, rowCount: Option<int>, createdAt: Text)
    | UpdateDatasetOwner(datasetName: Text, owner: Text)
    | DeleteDataset(datasetName: Text)
    | InsertTicket(ticketId: Text, category: Text, priority: Text, status: Text,
                   openedAt: Text, closedAt: Text, assignedTo: Text)
    | UpdateTicketStatus(ticketId: Text, status: Text)
    | DeleteTicket(ticketId: Text)

  /** The table a statement names. */
  function Target(st: Statement): TableName {
    match st
    case CreateTable(t) => t
    case InsertUser(_, _, _) => Users
    case InsertIncident(_, _, _, _, _, _, _, _) => CyberIncidents
    case UpdateIncidentStatus(_, _) => CyberIncidents
    case DeleteIncident(_) => CyberIncidents
    case InsertDataset(_, _, _, _, _, _) => DatasetsMetadata
    case UpdateDatasetOwner(_, _) => DatasetsMetadata
    case DeleteDataset(_) => DatasetsMetadata
    case InsertTicket(_, _, _, _, _, _, _) => ItTickets
    case UpdateTicketStatus(_, _) => ItTickets
    case DeleteTicket(_) => ItTickets
  }

  // WHERE predicates and SET assignments of the statements.
  function UsernameIs(name: string): UserRow -> bool { (r: UserRow) => r.username == name }
  function IncidentIdIs(k: Text): IncidentRow -> bool { (r: IncidentRow) => SqlEquals(r.incidentId, k) }
  function IncidentStatusTo(s: Text): IncidentRow -> IncidentRow { (r: IncidentRow) => r.(status := s) }
  function DatasetNameIs(k: Text): DatasetRow -> bool { (r: DatasetRow) => SqlEquals(r.datasetName, k) }
  function DatasetOwnerTo(o: Text): DatasetRow -> DatasetRow { (r: DatasetRow) => r.(owner := o) }
  function TicketIdIs(k: Text): TicketRow -> bool { (r: TicketRow) => SqlEquals(r.ticketId, k) }
  function TicketStatusTo(s: Text): TicketRow -> TicketRow { (r: TicketRow) => r.(status := s) }

  /** The effect of executing one statement. */
  function Exec(img: DbImage, st: Statement): Result<DbImage, DbError> {
    if st.CreateTable? then
      // CREATE TABLE IF NOT EXISTS: an existing table and its rows are untouched.
      Success(if st.table in img.tables then img else img.(tables := img.tables + {st.table}))
    else if Target(st) !in img.tables then
      Failure(NoSuchTable(Target(st)))
    else
      match st
      case InsertUser(u, h, role) =>
        if u.None? then Failure(NotNullFailed("users.username"))
        else if h.None? then Failure(NotNullFailed("users.password_hash"))
        else if role.None? then Failure(NotNullFailed("users.role"))
        else if Count(img.users, UsernameIs(u.value)) != 0 then Failure(UniqueFailed("users.username"))
        else
          var id := img.usersSeq + 1;
          Success(img.(users := img.users + [UserRow(id, u.value, h.value, role.value)], usersSeq := id))
      case InsertIncident(k, ty, sev, s, rep, res, who, desc) =>
        var id := img.incidentsSeq + 1;
        Success(img.(incidents := img.incidents + [IncidentRow(id, k, ty, sev, s, rep, res, who, desc)],
                     incidentsSeq := id))
      case UpdateIncidentStatus(k, s) =>
        Success(img.(incidents := UpdateWhere(img.incidents, IncidentIdIs(k), IncidentStatusTo(s))))
      case DeleteIncident(k) =>
        Success(img.(incidents := DeleteWhere(img.incidents, IncidentIdIs(k))))
      case InsertDataset(n, o, src, size, count, at) =>
        if !FitsInteger(count) then Failure(IntegerOverflow)
        else
          var id := img.datasetsSeq + 1;
          Success(img.(datasets := img.datasets + [DatasetRow(id, n, o, src, size, count, at)], datasetsSeq := id))
      case UpdateDatasetOwner(n, o) =>
        Success(img.(datasets := UpdateWhere(img.datasets, DatasetNameIs(n), DatasetOwnerTo(o))))
      case DeleteDataset(n) =>
        Success(img.(datasets := DeleteWhere(img.datasets, DatasetNameIs(n))))
      case InsertTicket(k, cat, pri, s, openAt, closeAt, who) =>
        var id := img.ticketsSeq + 1;
        Success(img.(tickets := img.tickets + [TicketRow(id, k, cat, pri, s, openAt, closeAt, who)], ticketsSeq := id))
      case UpdateTicketStatus(k, s) =>
        Success(img.(tickets := UpdateWhere(img.tickets, TicketIdIs(k), TicketStatusTo(s))))
      case DeleteTicket(k) =>
        Success(img.(tickets := DeleteWhere(img.tickets, TicketIdIs(k))))
  }

  /** The committed image after a statement: the new one if it succeeded,
      the old one if it raised. */
  function After(img: DbImage, st: Statement): DbImage {
    match Exec(img, st)
    case Success(next) => next
    case Failure(_) => img
  }

  /** `SELECT * FROM users WHERE username = ?` then `fetchone()`. */
  function SelectUserByUsername(img: DbImage, name: string): Result<Option<UserRow>, DbError> {
    if Users !in img.tables then Failure(NoSuchTable(Users))
    else Success(FirstWhere(img.users, UsernameIs(name)))
  }

  /** `SELECT * FROM cyber_incidents` then `fetchall()`. */
  function SelectAllIncidents(img: DbImage): Result<seq<IncidentRow>, DbError> {
    if CyberIncidents !in img.tables then Failure(NoSuchTable(CyberIncidents)) else Success(img.incidents)
  }

  /** `SELECT * FROM datasets_metadata` then `fetchall()`. */
  function SelectAllDatasets(img: DbImage): Result<seq<DatasetRow>, DbError> {
    if DatasetsMetadata !in img.tables then Failure(NoSuchTable(DatasetsMetadata)) else Success(img.datasets)
  }

  /** `SELECT * FROM it_tickets` then `fetchall()`. */
  function SelectAllTickets(img: DbImage): Result<seq<TicketRow>, DbError> {
    if ItTickets !in img.tables then Failure(NoSuchTable(ItTickets)) else Success(img.tickets)
  }

  // ---------------------------------------------------------------------
  // Properties of the statements
  // ---------------------------------------------------------------------

  lemma UsersReplaced(img: DbImage, users: seq<UserRow>, last: nat)
    requires WellFormed(img) && Users in img.tables
    requires Ascending(users, UserId) && IdsUpTo(users, UserId, last) && UniqueUsernames(users)
    ensures WellFormed(img.(users := users, usersSeq := last))
  {
  }

  lemma IncidentsReplaced(img: DbImage, incidents: seq<IncidentRow>, last: nat)
    requires WellFormed(img) && CyberIncidents in img.tables
    requires Ascending(incidents, IncidentKey) && IdsUpTo(incidents, IncidentKey, last)
    ensures WellFormed(img.(incidents := incidents, incidentsSeq := last))
  {
  }

  lemma DatasetsReplaced(img: DbImage, datasets: seq<DatasetRow>, last: nat)
    requires WellFormed(img) && DatasetsMetadata in img.tables
    requires Ascending(datasets, DatasetKey) && IdsUpTo(datasets, DatasetKey, last)
    ensures WellFormed(img.(datasets := datasets, datasetsSeq := last))
  {
  }

  lemma TicketsReplaced(img: DbImage, tickets: seq<TicketRow>, last: nat)
    requires WellFormed(img) && ItTickets in img.tables
    requires Ascending(tickets, TicketKey) && IdsUpTo(tickets, TicketKey, last)
    ensures WellFormed(img.(tickets := tickets, ticketsSeq := last))
  {
  }

  lemma UserStatementKeepsWellFormed(img: DbImage, st: Statement)
    requires WellFormed(img) && st.InsertUser? && Exec(img, st).Success?
    ensures WellFormed(Exec(img, st).value)
  {
    var row := UserRow(img.usersSeq + 1, st.username.value, st.passwordHash.value, st.role.value);
    AppendKeepsAscending(img.users, row, UserId, img.usersSeq);
    forall i | 0 <= i < |img.users| ensures img.users[i].username != st.username.value {
      assert !UsernameIs(st.username.value)(img.users[i]);
    }
    UsersReplaced(img, img.users + [row], img.usersSeq + 1);
  }

  lemma IncidentStatementKeepsWellFormed(img: DbImage, st: Statement)
    requires WellFormed(img) && Exec(img, st).Success?
    requires st.InsertIncident? || st.UpdateIncidentStatus? || st.DeleteIncident?
    ensures WellFormed(Exec(img, st).value)
  {
    match st
    case InsertIncident(k, ty, sev, s, rep, res, who, desc) =>
      var row := IncidentRow(img.incidentsSeq + 1, k, ty, sev, s, rep, res, who, desc);
      AppendKeepsAscending(img.incidents, row, IncidentKey, img.incidentsSeq);
      IncidentsReplaced(img, img.incidents + [row], img.incidentsSeq + 1);
    case UpdateIncidentStatus(k, s) =>
      var rows := UpdateWhere(img.incidents, IncidentIdIs(k), IncidentStatusTo(s));
      UpdateKeepsAscending(img.incidents, IncidentIdIs(k), IncidentStatusTo(s), IncidentKey);
      UpdateKeepsIdsUpTo(img.incidents, IncidentIdIs(k), IncidentStatusTo(s), IncidentKey, img.incidentsSeq);
      IncidentsReplaced(img, rows, img.incidentsSeq);
    case DeleteIncident(k) =>
      var rows := DeleteWhere(img.incidents, IncidentIdIs(k));
      DeleteKeepsAscending(img.incidents, IncidentIdIs(k), IncidentKey);
      DeleteKeepsIdsUpTo(img.incidents, IncidentIdIs(k), IncidentKey, img.incidentsSeq);
      IncidentsReplaced(img, rows, img.incidentsSeq);
  }

  lemma DatasetStatementKeepsWellFormed(img: DbImage, st: Statement)
    requires WellFormed(img) && Exec(img, st).Success?
    requires st.InsertDataset? || st.UpdateDatasetOwner? || st.DeleteDataset?
    ensures WellFormed(Exec(img, st).value)
  {
    match st
    case InsertDataset(n, o, src, size, count, at) =>
      var row := DatasetRow(img.datasetsSeq + 1, n, o, src, size, count, at);
      AppendKeepsAscending(img.datasets, row, DatasetKey, img.datasetsSeq);
      DatasetsReplaced(img, img.datasets + [row], img.datasetsSeq + 1);
    case UpdateDatasetOwner(n, o) =>
      var rows := UpdateWhere(img.datasets, DatasetNameIs(n), DatasetOwnerTo(o));
      UpdateKeepsAscending(img.datasets, DatasetNameIs(n), DatasetOwnerTo(o), DatasetKey);
      UpdateKeepsIdsUpTo(img.datasets, DatasetNameIs(n), DatasetOwnerTo(o), DatasetKey, img.datasetsSeq);
      DatasetsReplaced(img, rows, img.datasetsSeq);
    case DeleteDataset(n) =>
      var rows := DeleteWhere(img.datasets, DatasetNameIs(n));
      DeleteKeepsAscending(img.datasets, DatasetNameIs(n), DatasetKey);
      DeleteKeepsIdsUpTo(img.datasets, DatasetNameIs(n), DatasetKey, img.datasetsSeq);
      DatasetsReplaced(img, rows, img.datasetsSeq);
  }

  lemma TicketStatementKeepsWellFormed(img: DbImage, st: Statement)
    requires WellFormed(img) && Exec(img, st).Success?
    requires st.InsertTicket? || st.UpdateTicketStatus? || st.DeleteTicket?
    ensures WellFormed(Exec(img, st).value)
  {
    match st
    case InsertTicket(k, cat, pri, s, openAt, closeAt, who) =>
      var row := TicketRow(img.ticketsSeq + 1, k, cat, pri, s, openAt, closeAt, who);
      AppendKeepsAscending(img.tickets, row, TicketKey, img.ticketsSeq);
      TicketsReplaced(img, img.tickets + [row], img.ticketsSeq + 1);
    case UpdateTicketStatus(k, s) =>
      var rows := UpdateWhere(img.tickets, TicketIdIs(k), TicketStatusTo(s));
      UpdateKeepsAscending(img.tickets, TicketIdIs(k), TicketStatusTo(s), TicketKey);
      UpdateKeepsIdsUpTo(img.tickets, TicketIdIs(k), TicketStatusTo(s), TicketKey, img.ticketsSeq);
      TicketsReplaced(img, rows, img.ticketsSeq);
    case DeleteTicket(k) =>
      var rows := DeleteWhere(img.tickets, TicketIdIs(k));
      DeleteKeepsAscending(img.tickets, TicketIdIs(k), TicketKey);
      DeleteKeepsIdsUpTo(img.tickets, TicketIdIs(k), TicketKey, img.ticketsSeq);
      TicketsReplaced(img, rows, img.ticketsSeq);
  }

  /** Every statement keeps the image well formed: ids stay ascending and
      within the range handed out, and usernames stay unique. */
  lemma ExecKeepsWellFormed(img: DbImage, st: Statement)
    requires WellFormed(img)
    ensures Exec(img, st).Success? ==> WellFormed(Exec(img, st).value)
    ensures WellFormed(After(img, st))
  {
    if Exec(img, st).Success? {
      if st.InsertUser? {
        UserStatementKeepsWellFormed(img, st);
      } else if st.InsertIncident? || st.UpdateIncidentStatus? || st.DeleteIncident? {
        IncidentStatementKeepsWellFormed(img, st);
      } else if st.InsertDataset? || st.UpdateDatasetOwner? || st.DeleteDataset? {
        DatasetStatementKeepsWellFormed(img, st);
      } else if st.InsertTicket? || st.UpdateTicketStatus? || st.DeleteTicket? {
        TicketStatementKeepsWellFormed(img, st);
      }
    }
  }

  /** `CREATE TABLE IF NOT EXISTS`: adds the table when it is absent and
      otherwise leaves the table, its rows and its counter as they were. */
  lemma CreateTableEffect(img: DbImage, t: TableName)
    ensures Exec(img, CreateTable(t)) == Success(img.(tables := img.tables + {t}))
    ensures t in img.tables ==> After(img, CreateTable(t)) == img
  {
    if t in img.tables {
      assert img.tables + {t} == img.tables;
    }
  }

  /** `INSERT INTO users`: NULL in any of the three NOT NULL columns is
      rejected; otherwise the row is appended iff its username is new, with a
      fresh id above every id handed out before; a duplicate raises the
      UNIQUE error and changes nothing. */
  lemma InsertUserOutcome(img: DbImage, u: Text, h: Text, role: Text)
    requires WellFormed(img) && Users in img.tables
    ensures u.None? ==> Exec(img, InsertUser(u, h, role)) == Failure(NotNullFailed("users.username"))
    ensures u.Some? && h.None? ==> Exec(img, InsertUser(u, h, role)) == Failure(NotNullFailed("users.password_hash"))
    ensures u.Some? && h.Some? && role.None? ==> Exec(img, InsertUser(u, h, role)) == Failure(NotNullFailed("users.role"))
    ensures u.Some? && h.Some? && role.Some? ==>
      match Exec(img, InsertUser(u, h, role))
      case Success(next) =>
        && (forall i :: 0 <= i < |img.users| ==> img.users[i].username != u.value)
        && next == img.(users := img.users + [UserRow(img.usersSeq + 1, u.value, h.value, role.value)],
                        usersSeq := img.usersSeq + 1)
        && forall i :: 0 <= i < |img.users| ==> img.users[i].id < img.usersSeq + 1
      case Failure(e) =>
        && e == UniqueFailed("users.username")
        && exists i :: 0 <= i < |img.users| && img.users[i].username == u.value
  {
    if u.Some? && h.Some? && role.Some? && Exec(img, InsertUser(u, h, role)).Success? {
      forall i | 0 <= i < |img.users| ensures img.users[i].username != u.value {
        assert !UsernameIs(u.value)(img.users[i]);
      }
    }
  }

  /** `SELECT * FROM users WHERE username = ?` finds the one row with that
      username (usernames are unique), or none when no row has it. */
  lemma SelectUserFindsUniqueRow(img: DbImage, name: string)
    requires WellFormed(img) && Users in img.tables
    ensures SelectUserByUsername(img, name).Success?
    ensures match SelectUserByUsername(img, name).value
            case Some(row) =>
              && row.username == name
              && forall i :: 0 <= i < |img.users| && img.users[i].username == name ==> img.users[i] == row
            case None => forall i :: 0 <= i < |img.users| ==> img.users[i].username != name
  {
    var found := FirstWhere(img.users, UsernameIs(name));
    if found.Some? {
      var k :| 0 <= k < |img.users| && img.users[k] == found.value && UsernameIs(name)(img.users[k]);
      forall i | 0 <= i < |img.users| && img.users[i].username == name ensures img.users[i] == found.value {
        assert i == k;
      }
    } else {
      forall i | 0 <= i < |img.users| ensures img.users[i].username != name {
        assert !UsernameIs(name)(img.users[i]);
      }
    }
  }

  /** `INSERT INTO cyber_incidents` appends exactly one row carrying the eight
      values, with a fresh id, whatever rows already exist: incident_id is not
      UNIQUE, so a repeated key gives one more matching row. */
  lemma InsertIncidentAppendsOne(img: DbImage, k: Text, ty: Text, sev: Text, s: Text,
                                 rep: Text, res: Text, who: Text, desc: Text)
    requires WellFormed(img) && CyberIncidents in img.tables
    ensures Exec(img, InsertIncident(k, ty, sev, s, rep, res, who, desc)).Success?
    ensures var next := Exec(img, InsertIncident(k, ty, sev, s, rep, res, who, desc)).value;
      && next.incidents[..|img.incidents|] == img.incidents
      && next.incidents == img.incidents + [IncidentRow(next.incidentsSeq, k, ty, sev, s, rep, res, who, desc)]
      && (forall i :: 0 <= i < |img.incidents| ==> img.incidents[i].id < next.incidentsSeq)
      && Count(next.incidents, IncidentIdIs(k)) == Count(img.incidents, IncidentIdIs(k)) + (if k.Some? then 1 else 0)
      && next.(incidents := img.incidents, incidentsSeq := img.incidentsSeq) == img
  {
    var row := IncidentRow(img.incidentsSeq + 1, k, ty, sev, s, rep, res, who, desc);
    assert Exec(img, InsertIncident(k, ty, sev, s, rep, res, who, desc))
        == Success(img.(incidents := img.incidents + [row], incidentsSeq := img.incidentsSeq + 1));
    CountAppend(img.incidents, row, IncidentIdIs(k));
  }

  /** `INSERT INTO datasets_metadata` raises OverflowError for a row_count
      outside 64 bits; otherwise it appends exactly one row with a fresh id,
      and since dataset_name is not UNIQUE a repeated name gives one more
      match. */
  lemma InsertDatasetAppendsOne(img: DbImage, n: Text, o: Text, src: Text,
                                size: Option<Float>, count: Option<int>, at: Text)
    requires WellFormed(img) && DatasetsMetadata in img.tables
    ensures Exec(img, InsertDataset(n, o, src, size, count, at)).Success? <==> FitsInteger(count)
    ensures !FitsInteger(count) ==> Exec(img, InsertDataset(n, o, src, size, count, at)) == Failure(IntegerOverflow)
    ensures FitsInteger(count) ==> var next := Exec(img, InsertDataset(n, o, src, size, count, at)).value;
      && next.datasets == img.datasets + [DatasetRow(next.datasetsSeq, n, o, src, size, count, at)]
      && (forall i :: 0 <= i < |img.datasets| ==> img.datasets[i].id < next.datasetsSeq)
      && Count(next.datasets, DatasetNameIs(n)) == Count(img.datasets, DatasetNameIs(n)) + (if n.Some? then 1 else 0)
      && next.(datasets := img.datasets, datasetsSeq := img.datasetsSeq) == img
  {
    if FitsInteger(count) {
      var row := DatasetRow(img.datasetsSeq + 1, n, o, src, size, count, at);
      assert Exec(img, InsertDataset(n, o, src, size, count, at))
          == Success(img.(datasets := img.datasets + [row], datasetsSeq := img.datasetsSeq + 1));
      CountAppend(img.datasets, row, DatasetNameIs(n));
    }
  }

  /** `INSERT INTO it_tickets` appends exactly one row with a fresh id;
      ticket_id is not UNIQUE, so a repeated key gives one more match. */
  lemma InsertTicketAppendsOne(img: DbImage, k: Text, cat: Text, pri: Text, s: Text,
                               openAt: Text, closeAt: Text, who: Text)
    requires WellFormed(img) && ItTickets in img.tables
    ensures Exec(img, InsertTicket(k, cat, pri, s, openAt, closeAt, who)).Success?
    ensures var next := Exec(img, InsertTicket(k, cat, pri, s, openAt, closeAt, who)).value;
      && next.tickets == img.tickets + [TicketRow(next.ticketsSeq, k, cat, pri, s, openAt, closeAt, who)]
      && (forall i :: 0 <= i < |img.tickets| ==> img.tickets[i].id < next.ticketsSeq)
      && Count(next.tickets, TicketIdIs(k)) == Count(img.tickets, TicketIdIs(k)) + (if k.Some? then 1 else 0)
      && next.(tickets := img.tickets, ticketsSeq := img.ticketsSeq) == img
  {
    var row := TicketRow(img.ticketsSeq + 1, k, cat, pri, s, openAt, closeAt, who);
    assert Exec(img, InsertTicket(k, cat, pri, s, openAt, closeAt, who))
        == Success(img.(tickets := img.tickets + [row], ticketsSeq := img.ticketsSeq + 1));
    CountAppend(img.tickets, row, TicketIdIs(k));
  }

  /** `UPDATE cyber_incidents SET status = ? WHERE incident_id = ?` sets the
      status of every row whose incident_id equals the key, and changes no
      other column, no other row and no other table. */
  lemma UpdateIncidentStatusEffect(img: DbImage, k: Text, s: Text)
    requires CyberIncidents in img.tables
    ensures Exec(img, UpdateIncidentStatus(k, s)).Success?
    ensures var next := Exec(img, UpdateIncidentStatus(k, s)).value;
      && next.(incidents := img.incidents) == img
      && |next.incidents| == |img.incidents|
      && forall i :: 0 <= i < |img.incidents| ==>
           next.incidents[i] == if SqlEquals(img.incidents[i].incidentId, k)
                                then img.incidents[i].(status := s) else img.incidents[i]
  {
    var next := Exec(img, UpdateIncidentStatus(k, s)).value;
    forall i | 0 <= i < |img.incidents|
      ensures next.incidents[i] == if SqlEquals(img.incidents[i].incidentId, k)
                                   then img.incidents[i].(status := s) else img.incidents[i]
    {
      assert IncidentIdIs(k)(img.incidents[i]) == SqlEquals(img.incidents[i].incidentId, k);
    }
  }

  /** `DELETE FROM cyber_incidents WHERE incident_id = ?` keeps exactly the
      rows whose incident_id differs from the key (a NULL incident_id never
      equals it), and the count drops by the number of matches. */
  lemma DeleteIncidentEffect(img: DbImage, k: Text)
    requires CyberIncidents in img.tables
    ensures Exec(img, DeleteIncident(k)).Success?
    ensures var next := Exec(img, DeleteIncident(k)).value;
      && next.(incidents := img.incidents) == img
      && |next.incidents| == |img.incidents| - Count(img.incidents, IncidentIdIs(k))
      && (forall i :: 0 <= i < |next.incidents| ==>
            next.incidents[i] in img.incidents && !SqlEquals(next.incidents[i].incidentId, k))
      && (forall i :: 0 <= i < |img.incidents| && !SqlEquals(img.incidents[i].incidentId, k) ==>
            img.incidents[i] in next.incidents)
  {
    var rows := img.incidents;
    var next := DeleteWhere(rows, IncidentIdIs(k));
    forall i | 0 <= i < |next| ensures !SqlEquals(next[i].incidentId, k) {
      assert !IncidentIdIs(k)(next[i]);
    }
    forall i | 0 <= i < |rows| && !SqlEquals(rows[i].incidentId, k) ensures rows[i] in next {
      assert !IncidentIdIs(k)(rows[i]);
    }
  }

  /** `UPDATE datasets_metadata SET owner = ? WHERE dataset_name = ?` sets the
      owner of every row with that name and changes nothing else. */
  lemma UpdateDatasetOwnerEffect(img: DbImage, n: Text, o: Text)
    requires DatasetsMetadata in img.tables
    ensures Exec(img, UpdateDatasetOwner(n, o)).Success?
    ensures var next := Exec(img, UpdateDatasetOwner(n, o)).value;
      && next.(datasets := img.datasets) == img
      && |next.datasets| == |img.datasets|
      && forall i :: 0 <= i < |img.datasets| ==>
           next.datasets[i] == if SqlEquals(img.datasets[i].datasetName, n)
                               then img.datasets[i].(owner := o) else img.datasets[i]
  {
    var next := Exec(img, UpdateDatasetOwner(n, o)).value;
    forall i | 0 <= i < |img.datasets|
      ensures next.datasets[i] == if SqlEquals(img.datasets[i].datasetName, n)
                                  then img.datasets[i].(owner := o) else img.datasets[i]
    {
      assert DatasetNameIs(n)(img.datasets[i]) == SqlEquals(img.datasets[i].datasetName, n);
    }
  }

  /** `DELETE FROM datasets_metadata WHERE dataset_name = ?` keeps exactly the
      rows with another (or a NULL) name. */
  lemma DeleteDatasetEffect(img: DbImage, n: Text)
    requires DatasetsMetadata in img.tables
    ensures Exec(img, DeleteDataset(n)).Success?
    ensures var next := Exec(img, DeleteDataset(n)).value;
      && next.(datasets := img.datasets) == img
      && |next.datasets| == |img.datasets| - Count(img.datasets, DatasetNameIs(n))
      && (forall i :: 0 <= i < |next.datasets| ==>
            next.datasets[i] in img.datasets && !SqlEquals(next.datasets[i].datasetName, n))
      && (forall i :: 0 <= i < |img.datasets| && !SqlEquals(img.datasets[i].datasetName, n) ==>
            img.datasets[i] in next.datasets)
  {
    var rows := img.datasets;
    var next := DeleteWhere(rows, DatasetNameIs(n));
    forall i | 0 <= i < |next| ensures !SqlEquals(next[i].datasetName, n) {
      assert !DatasetNameIs(n)(next[i]);
    }
    forall i | 0 <= i < |rows| && !SqlEquals(rows[i].datasetName, n) ensures rows[i] in next {
      assert !DatasetNameIs(n)(rows[i]);
    }
  }

  /** `UPDATE it_tickets SET status = ? WHERE ticket_id = ?` sets the status of
      every row with that ticket_id and changes nothing else. */
  lemma UpdateTicketStatusEffect(img: DbImage, k: Text, s: Text)
    requires ItTickets in img.tables
    ensures Exec(img, UpdateTicketStatus(k, s)).Success?
    ensures var next := Exec(img, UpdateTicketStatus(k, s)).value;
      && next.(tickets := img.tickets) == img
      && |next.tickets| == |img.tickets|
      && forall i :: 0 <= i < |img.tickets| ==>
           next.tickets[i] == if SqlEquals(img.tickets[i].ticketId, k)
                              then img.tickets[i].(status := s) else img.tickets[i]
  {
    var next := Exec(img, UpdateTicketStatus(k, s)).value;
    forall i | 0 <= i < |img.tickets|
      ensures next.tickets[i] == if SqlEquals(img.tickets[i].ticketId, k)
                                 then img.tickets[i].(status := s) else img.tickets[i]
    {
      assert TicketIdIs(k)(img.tickets[i]) == SqlEquals(img.tickets[i].ticketId, k);
    }
  }

  /** `DELETE FROM it_tickets WHERE ticket_id = ?` keeps exactly the rows with
      another (or a NULL) ticket_id. */
  lemma DeleteTicketEffect(img: DbImage, k: Text)
    requires ItTickets in img.tables
    ensures Exec(img, DeleteTicket(k)).Success?
    ensures var next := Exec(img, DeleteTicket(k)).value;
      && next.(tickets := img.tickets) == img
      && |next.tickets| == |img.tickets| - Count(img.tickets, TicketIdIs(k))
      && (forall i :: 0 <= i < |next.tickets| ==>
            next.tickets[i] in img.tickets && !SqlEquals(next.tickets[i].ticketId, k))
      && (forall i :: 0 <= i < |img.tickets| && !SqlEquals(img.tickets[i].ticketId, k) ==>
            img.tickets[i] in next.tickets)
  {
    var rows := img.tickets;
    var next := DeleteWhere(rows, TicketIdIs(k));
    forall i | 0 <= i < |next| ensures !SqlEquals(next[i].ticketId, k) {
      assert !TicketIdIs(k)(next[i]);
    }
    forall i | 0 <= i < |rows| && !SqlEquals(rows[i].ticketId, k) ensures rows[i] in next {
      assert !TicketIdIs(k)(rows[i]);
    }
  }

  /** The key of an UPDATE or DELETE by business key. */
  predicate KeyedByBusinessKey(st: Statement) {
    st.UpdateIncidentStatus? || st.DeleteIncident? || st.UpdateDatasetOwner? || st.DeleteDataset?
    || st.UpdateTicketStatus? || st.DeleteTicket?
  }

  /** How many rows of its table an UPDATE or DELETE by business key matches. */
  function Matches(img: DbImage, st: Statement): nat
    requires KeyedByBusinessKey(st)
  {
    match st
    case UpdateIncidentStatus(k, _) => Count(img.incidents, IncidentIdIs(k))
    case DeleteIncident(k) => Count(img.incidents, IncidentIdIs(k))
    case UpdateDatasetOwner(n, _) => Count(img.datasets, DatasetNameIs(n))
    case DeleteDataset(n) => Count(img.datasets, DatasetNameIs(n))
    case UpdateTicketStatus(k, _) => Count(img.tickets, TicketIdIs(k))
    case DeleteTicket(k) => Count(img.tickets, TicketIdIs(k))
  }

  /** An UPDATE or DELETE whose key matches no row is a silent no-op, not an error. */
  lemma UnmatchedKeyIsNoOp(img: DbImage, st: Statement)
    requires KeyedByBusinessKey(st) && Target(st) in img.tables
    requires Matches(img, st) == 0
    ensures Exec(img, st) == Success(img)
  {
    match st {
      case UpdateIncidentStatus(k, s) => NoMatchIsNoOp(img.incidents, IncidentIdIs(k), IncidentStatusTo(s));
      case DeleteIncident(k) => NoMatchIsNoOp(img.incidents, IncidentIdIs(k), IncidentStatusTo(None));
      case UpdateDatasetOwner(n, o) => NoMatchIsNoOp(img.datasets, DatasetNameIs(n), DatasetOwnerTo(o));
      case DeleteDataset(n) => NoMatchIsNoOp(img.datasets, DatasetNameIs(n), DatasetOwnerTo(None));
      case UpdateTicketStatus(k, s) => NoMatchIsNoOp(img.tickets, TicketIdIs(k), TicketStatusTo(s));
      case DeleteTicket(k) => NoMatchIsNoOp(img.tickets, TicketIdIs(k), TicketStatusTo(None));
    }
  }

  /** A NULL key matches no row, so an UPDATE or DELETE with it changes nothing. */
  lemma NullKeyIsNoOp(img: DbImage, st: Statement)
    requires KeyedByBusinessKey(st) && Target(st) in img.tables
    requires match st
             case UpdateIncidentStatus(k, _) => k.None?
             case DeleteIncident(k) => k.None?
             case UpdateDatasetOwner(n, _) => n.None?
             case DeleteDataset(n) => n.None?
             case UpdateTicketStatus(k, _) => k.None?
             case DeleteTicket(k) => k.None?
             case _ => false
    ensures Exec(img, st) == Success(img)
  {
    assert Matches(img, st) == 0;
    UnmatchedKeyIsNoOp(img, st);
  }

  /** Helper: appending a row whose id is one past the counter keeps the ids ascending and in range. */
  lemma AppendKeepsAscending<R>(rows: seq<R>, x: R, id: R -> int, last: nat)
    requires Ascending(rows, id) && IdsUpTo(rows, id, last)
    requires id(x) == last + 1
    ensures Ascending(rows + [x], id) && IdsUpTo(rows + [x], id, last + 1)
  {
    var r := rows + [x];
    forall i, j | 0 <= i < j < |r| ensures id(r[i]) < id(r[j]) {
      assert r[i] == rows[i];
      if j < |rows| { assert r[j] == rows[j]; }
    }
  }

  /** Helper: an UPDATE that keeps ids keeps them in range. */
  lemma UpdateKeepsIdsUpTo<R>(rows: seq<R>, hit: R -> bool, assign: R -> R, id: R -> int, last: int)
    requires IdsUpTo(rows, id, last)
    requires forall x :: id(assign(x)) == id(x)
    ensures IdsUpTo(UpdateWhere(rows, hit, assign), id, last)
  {
    var r := UpdateWhere(rows, hit, assign);
    forall i | 0 <= i < |r| ensures 0 < id(r[i]) <= last {
      assert r[i] == if hit(rows[i]) then assign(rows[i]) else rows[i];
    }
  }

  /** Helper: a DELETE keeps the remaining ids in range. */
  lemma DeleteKeepsIdsUpTo<R>(rows: seq<R>, hit: R -> bool, id: R -> int, last: int)
    requires IdsUpTo(rows, id, last)
    ensures IdsUpTo(DeleteWhere(rows, hit), id, last)
  {
    var r := DeleteWhere(rows, hit);
    forall i | 0 <= i < |r| ensures 0 < id(r[i]) <= last {
      var k :| 0 <= k < |rows| && rows[k] == r[i];
    }
  }
}
