/**
 * The rows of the four tables of the intelligence-platform database, as
 * declared by `create_tables`. Every column other than the surrogate key is
 * a loosely typed SQLite column; the TEXT columns hold either a string or
 * NULL, because the callers pass Python `str` or `None`.
 */
module Records {
  import opened Wrappers
  import opened PyStr

  /** A TEXT cell: a Python `str`, or `None` stored as SQL NULL. */
  type Text = Option<string>

  /** A REAL cell's IEEE-754 binary64 bit pattern. The model carries it
      without interpreting it; no floating-point arithmetic is done. */
  datatype Float = Float(bits: bv64)

  /** SQL `column = ?`: NULL on either side compares as unknown, which a
      WHERE clause treats as false. */
  predicate SqlEquals(cell: Text, param: Text) {
    cell.Some? && param.Some? && cell.value == param.value
  }

  /** The four tables. */
  datatype TableName = Users | CyberIncidents | DatasetsMetadata | ItTickets

  /** `users`: username is UNIQUE NOT NULL, password_hash and role NOT NULL,
      so a stored row holds plain strings. */
  datatype UserRow = UserRow(id: int, username: string, passwordHash: string, role: string)

  /** `cyber_incidents`: no constraint beyond the surrogate key. */
  datatype IncidentRow = IncidentRow(
    id: int,
    incidentId: Text,
    incidentType: Text,
    severity: Text,
    status: Text,
    reportedAt: Text,
    resolvedAt: Text,
    assignedTo: Text,
    description: Text)

  /** `datasets_metadata`: size_mb is REAL and row_count INTEGER. */
  datatype DatasetRow = DatasetRow(
    id: int,
    datasetName: Text,
    owner: Text,
    sourceSystem: Text,
    sizeMb: Option<Float>,
    rowCount: Option<int>,
    createdAt: Text)

  /** `it_tickets`: no constraint beyond the surrogate key. */
  datatype TicketRow = TicketRow(
    id: int,
    ticketId: Text,
    category: Text,
    priority: Text,
    status: Text,
    openedAt: Text,
    closedAt: Text,
    assignedTo: Text)

  /** Surrogate-key projections, used to state the AUTOINCREMENT invariant. */
  function UserId(r: UserRow): int { r.id }
  function IncidentKey(r: IncidentRow): int { r.id }
  function DatasetKey(r: DatasetRow): int { r.id }
  function TicketKey(r: TicketRow): int { r.id }

  /** A value as the sqlite3 driver hands it to Python, by storage class. */
  datatype Value = Null | Integer(i: int) | Real(f: Float) | TextValue(s: string) | Blob(bytes: Bytes)

  /** A TEXT cell as a driver value. */
  function TextCell(t: Text): Value {
    match t
    case None => Null
    case Some(s) => TextValue(s)
  }
}
