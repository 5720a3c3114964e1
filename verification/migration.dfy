/**
 * Database set-up: the migration of the legacy `users.txt` credentials into
 * the users table, the order of steps in `setup_database`, and the
 * create/update/delete walk-through of `demo_crud`.
 *
 * The credentials file is its list of lines (without line terminators), or
 * `None` when it does not exist.
 */
module Migration {
  import opened Wrappers
  import opened Records
  import opened Rows
  import opened Sqlite
  import opened Db
  import Crud
  import Schema
  import opened PyStr

  /** The role every migrated user receives. */
  const MigratedRole := "general"

  /** Why a migration stops: a line that does not unpack into exactly two
      comma-separated fields (ValueError), or an error raised by the driver. */
  datatype MigrationError = MalformedLine(line: string) | DatabaseError(error: DbError)

  /** How the migration reads one line of the file. */
  datatype LineKind = Blank | Malformed | Entry(username: string, passwordHash: string)

  /** A line is blank when nothing is left after `strip()`; otherwise it is an
      entry when it splits on commas into exactly two fields, and malformed
      when it does not. An entry is the stripped line `username,hash`. */
  function Classify(line: string): (k: LineKind)
    ensures k.Blank? <==> Strip(line) == []
    ensures k.Entry? <==> Strip(line) != [] && |Split(Strip(line), ',')| == 2
    ensures k.Entry? ==>
      && Strip(line) == k.username + "," + k.passwordHash
      && ',' !in k.username && ',' !in k.passwordHash
  {
    var s := Strip(line);
    if s == [] then Blank
    else
      var parts := Split(s, ',');
      if |parts| != 2 then Malformed
      else
        SplitJoinsBack(s, ',');
        assert ',' !in parts[0] && ',' !in parts[1];
        assert Join(parts, [',']) == parts[0] + [','] + Join(parts[1..], [',']);
        Entry(parts[0], parts[1])
  }

  /** One line's step: a blank line is skipped; a malformed one raises; an
      entry inserts its user with the migrated role unless a row with that
      username already exists. */
  function MigrateLine(img: DbImage, line: string): Result<DbImage, MigrationError> {
    match Classify(line)
    case Blank => Success(img)
    case Malformed => Failure(MalformedLine(line))
    case Entry(username, passwordHash) =>
      match SelectUserByUsername(img, username)
      case Failure(e) => Failure(DatabaseError(e))
      case Success(Some(_)) => Success(img)
      case Success(None) =>
        match Exec(img, InsertUser(Some(username), Some(passwordHash), Some(MigratedRole)))
        case Failure(e) => Failure(DatabaseError(e))
        case Success(next) => Success(next)
  }

  /** The connection's view after a migration, and how the migration ended. */
  datatype Run = Run(image: DbImage, outcome: Outcome<MigrationError>)

  /** The lines processed in order; the first error stops the run, leaving
      the rows inserted before it in place. */
  function MigrateLines(img: DbImage, lines: seq<string>): Run
    decreases |lines|
  {
    if lines == [] then Run(img, Pass)
    else match MigrateLine(img, lines[0])
      case Failure(e) => Run(img, Fail(e))
      case Success(next) => MigrateLines(next, lines[1..])
  }

  /** The whole migration: a missing file is skipped. */
  function Migrate(img: DbImage, usersFile: Option<seq<string>>): Run {
    match usersFile
    case None => Run(img, Pass)
    case Some(lines) => MigrateLines(img, lines)
  }

  /** The users of `users` include one named `username`. */
  ghost predicate HasUser(users: seq<UserRow>, username: string) {
    exists k :: 0 <= k < |users| && users[k].username == username
  }

  // -------------------------------------------------------------------
  // migrate_users_from_file
  // -------------------------------------------------------------------

  /** The body of the loop for one line: skips a blank line, raises on a
      malformed one, and inserts an absent user with the migrated role. The
      connection ends as `MigrateLine` says, and the file is not written. */
  method MigrateLineOn(db: DatabaseManager, line: string) returns (stop: Option<MigrationError>)
    requires db.Valid() && db.open
    modifies db, db.file
    ensures db.Valid() && db.open && db.file.committed == old(db.file.committed)
    ensures match MigrateLine(old(db.Image()), line)
            case Failure(e) => stop == Some(e) && db.Image() == old(db.Image())
            case Success(next) => stop == None && db.Image() == next
  {
    var stripped := Strip(line);
    if stripped == [] {
      return None;
    }
    var parts := Split(stripped, ',');
    if |parts| != 2 {
      return Some(MalformedLine(line));
    }
    var username, passwordHash := parts[0], parts[1];
    var found := Crud.GetUserByUsername(db, username);
    if found.Failure? {
      return Some(DatabaseError(found.error));
    }
    if found.value.None? {
      // The username is absent and every value is given: the insert succeeds.
      InsertUserOutcome(db.Image(), Some(username), Some(passwordHash), Some(MigratedRole));
      var inserted := Crud.InsertUser(db, Some(username), Some(passwordHash), Some(MigratedRole));
    }
    return None;
  }

  /** `migrate_users_from_file`: runs the migration on the manager's
      connection; a missing file changes nothing. */
  method MigrateUsersFromFile(db: DatabaseManager, usersFile: Option<seq<string>>)
    returns (r: Outcome<MigrationError>)
    requires db.Valid() && db.open
    modifies db, db.file
    ensures db.Valid() && db.open && db.file.committed == old(db.file.committed)
    ensures Run(db.Image(), r) == Migrate(old(db.Image()), usersFile)
    ensures usersFile.None? ==> r.Pass? && db.Image() == old(db.Image())
  {
    if usersFile.None? {
      // "users.txt not found, skipping migration"
      return Pass;
    }
    var lines := usersFile.value;
    var i := 0;
    while i < |lines|
      invariant 0 <= i <= |lines|
      invariant db.Valid() && db.open && db.file.committed == old(db.file.committed)
      invariant MigrateLines(old(db.Image()), lines) == MigrateLines(db.Image(), lines[i..])
    {
      assert lines[i..][1..] == lines[i + 1..];
      var stop := MigrateLineOn(db, lines[i]);
      if stop.Some? {
        return Fail(stop.value);
      }
      i := i + 1;
    }
    return Pass;
  }

  // -------------------------------------------------------------------
  // Properties of the migration
  // -------------------------------------------------------------------

  /** `next` keeps every user row of `img` in place, adds rows only at the
      end and all with the migrated role, and changes no other table. */
  ghost predicate OnlyAppendsUsers(img: DbImage, next: DbImage) {
    && |img.users| <= |next.users| && next.users[..|img.users|] == img.users
    && (forall i :: |img.users| <= i < |next.users| ==> next.users[i].role == MigratedRole)
    && next.(users := img.users, usersSeq := img.usersSeq) == img
  }

  lemma OnlyAppendsUsersTransitive(a: DbImage, b: DbImage, c: DbImage)
    requires OnlyAppendsUsers(a, b) && OnlyAppendsUsers(b, c)
    ensures OnlyAppendsUsers(a, c)
  {
    assert c.users[..|a.users|] == b.users[..|a.users|];
  }

  /** One step only appends users with the migrated role. */
  lemma MigrateLineAppends(img: DbImage, line: string)
    requires WellFormed(img)
    ensures MigrateLine(img, line).Success? ==>
      WellFormed(MigrateLine(img, line).value) && OnlyAppendsUsers(img, MigrateLine(img, line).value)
  {
    match Classify(line)
    case Blank =>
    case Malformed =>
    case Entry(username, passwordHash) =>
      var st := InsertUser(Some(username), Some(passwordHash), Some(MigratedRole));
      if SelectUserByUsername(img, username) == Success(None) {
        ExecKeepsWellFormed(img, st);
        InsertUserOutcome(img, Some(username), Some(passwordHash), Some(MigratedRole));
      }
  }

  /** The migration never modifies or removes an existing user row, gives
      every user it adds the "general" role, and changes no other table,
      whether it finishes or stops at an error. */
  lemma {:induction false} MigrationOnlyAppends(img: DbImage, lines: seq<string>)
    requires WellFormed(img)
    ensures WellFormed(MigrateLines(img, lines).image)
    ensures OnlyAppendsUsers(img, MigrateLines(img, lines).image)
    decreases |lines|
  {
    if lines != [] {
      MigrateLineAppends(img, lines[0]);
      if MigrateLine(img, lines[0]).Success? {
        var mid := MigrateLine(img, lines[0]).value;
        MigrationOnlyAppends(mid, lines[1..]);
        OnlyAppendsUsersTransitive(img, mid, MigrateLines(mid, lines[1..]).image);
      }
    }
  }

  /** After a step that succeeds, the line's user is in the table. */
  lemma MigrateLinePlacesUser(img: DbImage, line: string)
    requires WellFormed(img)
    requires Classify(line).Entry? && MigrateLine(img, line).Success?
    ensures Users in MigrateLine(img, line).value.tables
    ensures HasUser(MigrateLine(img, line).value.users, Classify(line).username)
  {
    var username, passwordHash := Classify(line).username, Classify(line).passwordHash;
    SelectUserFindsUniqueRow(img, username);
    match SelectUserByUsername(img, username).value
    case Some(row) =>
      var k :| 0 <= k < |img.users| && img.users[k] == row && UsernameIs(username)(img.users[k]);
    case None =>
      InsertUserOutcome(img, Some(username), Some(passwordHash), Some(MigratedRole));
      var next := MigrateLine(img, line).value;
      assert next.users[|next.users| - 1].username == username;
  }

  /** A user that is present stays present through later steps. */
  lemma PresenceLasts(img: DbImage, lines: seq<string>, username: string)
    requires WellFormed(img) && HasUser(img.users, username)
    ensures HasUser(MigrateLines(img, lines).image.users, username)
  {
    MigrationOnlyAppends(img, lines);
    var k :| 0 <= k < |img.users| && img.users[k].username == username;
    var next := MigrateLines(img, lines).image;
    assert next.users[..|img.users|][k] == img.users[k];
  }

  /** A migration that finishes has met no malformed line, and leaves every
      user named in the file in the table. */
  lemma {:induction false} FinishedRunCoversFile(img: DbImage, lines: seq<string>)
    requires WellFormed(img)
    requires MigrateLines(img, lines).outcome.Pass?
    ensures forall i :: 0 <= i < |lines| ==> !Classify(lines[i]).Malformed?
    ensures forall i :: 0 <= i < |lines| && Classify(lines[i]).Entry? ==>
      && Users in MigrateLines(img, lines).image.tables
      && HasUser(MigrateLines(img, lines).image.users, Classify(lines[i]).username)
    decreases |lines|
  {
    if lines != [] {
      var mid := MigrateLine(img, lines[0]).value;
      MigrateLineAppends(img, lines[0]);
      FinishedRunCoversFile(mid, lines[1..]);
      var last := MigrateLines(img, lines).image;
      MigrationOnlyAppends(mid, lines[1..]);
      forall i | 0 <= i < |lines| ensures !Classify(lines[i]).Malformed? {
        if i > 0 { assert lines[i] == lines[1..][i - 1]; }
      }
      forall i | 0 <= i < |lines| && Classify(lines[i]).Entry?
        ensures Users in last.tables && HasUser(last.users, Classify(lines[i]).username)
      {
        if i == 0 {
          MigrateLinePlacesUser(img, lines[0]);
          PresenceLasts(mid, lines[1..], Classify(lines[0]).username);
        } else {
          assert lines[i] == lines[1..][i - 1];
        }
      }
    }
  }

  /** A blank line, or a line whose user is present, changes nothing. */
  lemma PresentLineIsSkipped(img: DbImage, line: string)
    requires WellFormed(img)
    requires || Classify(line).Blank?
             || (Classify(line).Entry? && Users in img.tables && HasUser(img.users, Classify(line).username))
    ensures MigrateLine(img, line) == Success(img)
  {
    var k := Classify(line);
    if k.Entry? {
      SelectUserFindsUniqueRow(img, k.username);
      var j :| 0 <= j < |img.users| && img.users[j].username == k.username;
      assert SelectUserByUsername(img, k.username).value.Some?;
    }
  }

  /** A file whose users are all present already changes nothing. */
  lemma {:induction false} PresentUsersAreSkipped(img: DbImage, lines: seq<string>)
    requires WellFormed(img)
    requires forall i :: 0 <= i < |lines| ==>
      || Classify(lines[i]).Blank?
      || (Classify(lines[i]).Entry? && Users in img.tables && HasUser(img.users, Classify(lines[i]).username))
    ensures MigrateLines(img, lines) == Run(img, Pass)
    decreases |lines|
  {
    if lines != [] {
      PresentLineIsSkipped(img, lines[0]);
      forall i | 0 <= i < |lines[1..]|
        ensures || Classify(lines[1..][i]).Blank?
                || (Classify(lines[1..][i]).Entry? && Users in img.tables
                    && HasUser(img.users, Classify(lines[1..][i]).username))
      {
        assert lines[1..][i] == lines[i + 1];
      }
      PresentUsersAreSkipped(img, lines[1..]);
    }
  }

  /** Running the migration a second time on what the first produced
      changes nothing. */
  lemma MigrationIdempotent(img: DbImage, lines: seq<string>)
    requires WellFormed(img)
    requires MigrateLines(img, lines).outcome.Pass?
    ensures var once := MigrateLines(img, lines).image;
      MigrateLines(once, lines) == Run(once, Pass)
  {
    MigrationOnlyAppends(img, lines);
    FinishedRunCoversFile(img, lines);
    PresentUsersAreSkipped(MigrateLines(img, lines).image, lines);
  }

  /** A step that inserts `username` stores the line's hash and the
      migrated role in the one new row. */
  lemma InsertedEntryRow(img: DbImage, line: string)
    requires WellFormed(img) && Classify(line).Entry?
    requires !HasUser(img.users, Classify(line).username)
    requires MigrateLine(img, line).Success?
    ensures var next := MigrateLine(img, line).value;
      && |next.users| == |img.users| + 1
      && next.users[|img.users|].username == Classify(line).username
      && next.users[|img.users|].passwordHash == Classify(line).passwordHash
      && next.users[|img.users|].role == MigratedRole
      && WellFormed(next)
  {
    var username, passwordHash := Classify(line).username, Classify(line).passwordHash;
    SelectUserFindsUniqueRow(img, username);
    assert SelectUserByUsername(img, username).value.None?;
    InsertUserOutcome(img, Some(username), Some(passwordHash), Some(MigratedRole));
    ExecKeepsWellFormed(img, InsertUser(Some(username), Some(passwordHash), Some(MigratedRole)));
  }

  /** A step for a line that does not name `username` leaves it absent. */
  lemma OtherEntryKeepsAbsent(img: DbImage, line: string, username: string)
    requires WellFormed(img) && !HasUser(img.users, username)
    requires !(Classify(line).Entry? && Classify(line).username == username)
    requires MigrateLine(img, line).Success?
    ensures !HasUser(MigrateLine(img, line).value.users, username)
  {
    var k := Classify(line);
    if k.Entry? && SelectUserByUsername(img, k.username) == Success(None) {
      InsertUserOutcome(img, Some(k.username), Some(k.passwordHash), Some(MigratedRole));
      var next := MigrateLine(img, line).value;
      forall j | 0 <= j < |next.users| ensures next.users[j].username != username {
        if j < |img.users| { assert next.users[j] == img.users[j]; }
      }
    }
  }

  /** A row added at position `n` is the only row with its username, and it
      stays as it is through the rest of the migration. */
  lemma AddedRowLasts(img: DbImage, lines: seq<string>, n: nat)
    requires WellFormed(img) && n < |img.users|
    ensures var users := MigrateLines(img, lines).image.users;
      && n < |users| && users[n] == img.users[n]
      && forall k :: 0 <= k < |users| && users[k].username == img.users[n].username ==> k == n
  {
    MigrationOnlyAppends(img, lines);
    var users := MigrateLines(img, lines).image.users;
    assert users[..|img.users|][n] == img.users[n];
  }

  /** When the file names a user several times and the table did not hold
      that user, every row with that username carries the password hash of
      the first line naming it, with the migrated role. */
  lemma {:induction false} FirstLineWins(img: DbImage, lines: seq<string>, i: nat)
    requires WellFormed(img)
    requires MigrateLines(img, lines).outcome.Pass?
    requires i < |lines| && Classify(lines[i]).Entry?
    requires !HasUser(img.users, Classify(lines[i]).username)
    requires forall j :: 0 <= j < i ==>
      !(Classify(lines[j]).Entry? && Classify(lines[j]).username == Classify(lines[i]).username)
    ensures var users := MigrateLines(img, lines).image.users;
      && HasUser(users, Classify(lines[i]).username)
      && forall k :: 0 <= k < |users| && users[k].username == Classify(lines[i]).username ==>
           users[k].passwordHash == Classify(lines[i]).passwordHash && users[k].role == MigratedRole
    decreases |lines|
  {
    var username := Classify(lines[i]).username;
    var mid := MigrateLine(img, lines[0]).value;
    MigrateLineAppends(img, lines[0]);
    if i == 0 {
      InsertedEntryRow(img, lines[0]);
      AddedRowLasts(mid, lines[1..], |img.users|);
    } else {
      OtherEntryKeepsAbsent(img, lines[0], username);
      assert lines[1..][i - 1] == lines[i];
      forall j | 0 <= j < i - 1
        ensures !(Classify(lines[1..][j]).Entry? && Classify(lines[1..][j]).username == username)
      {
        assert lines[1..][j] == lines[j + 1];
      }
      FirstLineWins(mid, lines[1..], i - 1);
    }
  }

  // -------------------------------------------------------------------
  // setup_database and demo_crud
  // -------------------------------------------------------------------

  /** `setup_database`: one `with` block that creates the four tables, then
      migrates the credentials file. The tables are written to the file as
      they are created, since no transaction is open yet; the migrated users
      are committed when the migration finishes and discarded when it
      raises, which leaves the file with the four tables only. The model
      leaves the block right after the migration: the CSV load that follows
      it is not modelled. That load commits the connection after each CSV it
      loads, so the migrated users reach the file earlier. A failing load
      rolls back whatever is still uncommitted, which can include them. */
  method SetupDatabase(file: DbFile, usersFile: Option<seq<string>>) returns (r: Outcome<MigrationError>)
    requires file.Valid()
    modifies file
    ensures file.Valid()
    ensures var run := Migrate(old(file.committed).(tables := Schema.AllTables), usersFile);
      && r == run.outcome
      && file.committed == if r.Pass? then run.image else old(file.committed).(tables := Schema.AllTables)
    ensures r.Pass? ==> file.committed.tables == Schema.AllTables
  {
    var manager := new DatabaseManager(file);
    var db := manager.Enter();
    Schema.CreateTables(db);
    ghost var created := db.Image();
    r := MigrateUsersFromFile(db, usersFile);
    if usersFile.Some? {
      MigrationOnlyAppends(created, usersFile.value);
    }
    assert r.Pass? ==> db.tables == Schema.AllTables;
    db.Exit(r.Fail?);
  }

  /** The three incident counts `demo_crud` reports. */
  datatype DemoCounts = DemoCounts(before: nat, afterCreate: nat, afterDelete: nat)

  /** The key of the incident `demo_crud` creates, updates and deletes. */
  const DemoKey: Text := Some("TEST123")

  /** `demo_crud`: counts the incidents, creates "TEST123", counts again,
      resolves it, deletes it and counts once more, in one `with` block. The
      second count is one more than the first; afterwards no incident with
      that key is left, every other incident is kept, and the other tables
      are untouched. Without an incidents table the first count raises and
      nothing is committed. */
  method DemoCrud(file: DbFile) returns (r: Result<DemoCounts, DbError>)
    requires file.Valid()
    modifies file
    ensures file.Valid()
    ensures CyberIncidents !in old(file.committed).tables ==>
      r == Failure(NoSuchTable(CyberIncidents)) && file.committed == old(file.committed)
    ensures CyberIncidents in old(file.committed).tables ==>
      && r.Success?
      && r.value.before == |old(file.committed).incidents|
      && r.value.afterCreate == r.value.before + 1
      && r.value.afterDelete == |file.committed.incidents| < r.value.afterCreate
      && (forall i :: 0 <= i < |file.committed.incidents| ==> !SqlEquals(file.committed.incidents[i].incidentId, DemoKey))
      && (forall i :: 0 <= i < |old(file.committed).incidents| &&
                      !SqlEquals(old(file.committed).incidents[i].incidentId, DemoKey) ==>
            old(file.committed).incidents[i] in file.committed.incidents)
      && file.committed.(incidents := old(file.committed).incidents,
                         incidentsSeq := old(file.committed).incidentsSeq) == old(file.committed)
  {
    var manager := new DatabaseManager(file);
    var db := manager.Enter();
    var all := Crud.GetAllIncidents(db);
    if all.Failure? {
      db.Exit(true);
      return Failure(all.error);
    }
    var before := |all.value|;
    ghost var start := db.Image();

    var created := Crud.CreateIncident(db, DemoKey, Some("Phishing"), Some("Medium"), Some("Open"),
                                       Some("2025-01-01"), None, Some("Alice"), Some("Test incident"));
    DemoSequenceEffect(start);
    ghost var withNew := After(start, DemoInsert);
    assert db.Image() == withNew;
    all := Crud.GetAllIncidents(db);
    var afterCreate := |all.value|;
    var updated := Crud.UpdateIncidentStatus(db, DemoKey, Some("Resolved"));
    assert db.Image() == After(withNew, DemoResolve);
    var deleted := Crud.DeleteIncident(db, DemoKey);
    assert db.Image() == After(After(withNew, DemoResolve), DemoDelete);
    all := Crud.GetAllIncidents(db);
    var afterDelete := |all.value|;
    db.Exit(false);
    r := Success(DemoCounts(before, afterCreate, afterDelete));
  }

  /** The demo's statements, in the order it runs them. */
  const DemoInsert := InsertIncident(DemoKey, Some("Phishing"), Some("Medium"), Some("Open"),
                                     Some("2025-01-01"), None, Some("Alice"), Some("Test incident"))
  const DemoResolve := UpdateIncidentStatus(DemoKey, Some("Resolved"))
  const DemoDelete := DeleteIncident(DemoKey)

  /** Insert, resolve and delete on a database with the incidents table: the
      insert adds one row, the delete removes at least that row, no incident
      with the demo key is left, every other incident is kept, and nothing
      outside the incidents table changes. */
  lemma DemoSequenceEffect(start: DbImage)
    requires WellFormed(start) && CyberIncidents in start.tables
    ensures var withNew := After(start, DemoInsert);
      var fin := After(After(withNew, DemoResolve), DemoDelete);
      && |withNew.incidents| == |start.incidents| + 1
      && |fin.incidents| < |withNew.incidents|
      && (forall i :: 0 <= i < |fin.incidents| ==> !SqlEquals(fin.incidents[i].incidentId, DemoKey))
      && (forall i :: 0 <= i < |start.incidents| && !SqlEquals(start.incidents[i].incidentId, DemoKey) ==>
            start.incidents[i] in fin.incidents)
      && fin.(incidents := start.incidents, incidentsSeq := start.incidentsSeq) == start
  {
    InsertIncidentAppendsOne(start, DemoKey, Some("Phishing"), Some("Medium"), Some("Open"),
                             Some("2025-01-01"), None, Some("Alice"), Some("Test incident"));
    var withNew := After(start, DemoInsert);
    UpdateIncidentStatusEffect(withNew, DemoKey, Some("Resolved"));
    var resolved := After(withNew, DemoResolve);
    assert IncidentIdIs(DemoKey)(resolved.incidents[|resolved.incidents| - 1]);
    DeleteIncidentEffect(resolved, DemoKey);
    forall i | 0 <= i < |start.incidents| && !SqlEquals(start.incidents[i].incidentId, DemoKey)
      ensures start.incidents[i] in After(resolved, DemoDelete).incidents
    {
      assert withNew.incidents[i] == start.incidents[i];
      assert resolved.incidents[i] == start.incidents[i];
    }
  }
}
