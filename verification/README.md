# Multi-domain intelligence platform: verified model of the persistence and authentication core

This Dafny project models the core of a small Python dashboard platform. The parts modelled are:

- the SQLite schema with its four tables (users, cyber incidents, dataset metadata, IT tickets);
- the record store (`DB/crud.py`) and the connection manager (`DB/db.py`) with its commit-on-success `with` block;
- the four domain services;
- the set-up script: migrating the legacy `users.txt` file into the users table, and the CRUD walk-through;
- the file-based authentication of the first version (`auth.py`);
- the Streamlit login page;
- the rule-based offline fallback of the cyber assistant.

The model is layered the way the program is:

| module (file) | models |
|---|---|
| `Wrappers` (wrappers.dfy) | `Option`, `Result`, and `Outcome` (a statement either passes or raises) |
| `PyStr` (text.dfy) | the Python `str`/`bytes` operations the code relies on: `strip`, `split(",")`, `"\n".join`, `lower`, `isalnum`, `in`, `startswith`, UTF-8 `encode`/`decode` |
| `Records` (records.dfy) | the row of each table; a TEXT cell is `Option<string>` (NULL is `None`), and SQL `=` never matches NULL |
| `Rows` (rows.dfy) | multi-row `UPDATE … WHERE` / `DELETE … WHERE` / first match over a table's rows in storage order |
| `Sqlite` (sqlite.dfy) | the database as a value (`DbImage`: tables, rows, AUTOINCREMENT counters) and the effect of each parameterised statement; NOT NULL and UNIQUE failures; "no such table"; a failing statement changes nothing |
| `Db` (db.dfy) | `DbFile` (the committed contents of the file) and the `DatabaseManager` class (an open connection's view, `commit`, `close`, `__enter__`, `__exit__`) |
| `Crud` (crud.dfy) | one method per record-store function, each a single statement on the manager |
| `Schema` (schema.dfy) | `create_tables` |
| `Services` (services.dfy) | `UserService`, `IncidentService`, `DatasetService`, `TicketService`: one `with` block around one record-store call; the row-to-dict conversion of `find_user` |
| `Migration` (migration.dfy) | `migrate_users_from_file`, `setup_database` and `demo_crud` (`DB/main.py`, `main.py`) |
| `Auth` (auth.dfy) | password hashing and checking, the validators, and `users.txt` registration and login |
| `LoginPage` (login.dfy) | `login_page` over the session's `"user"` entry |
| `Assistant` (assistant.dfy) | `_offline_response` and the fallback rule of `ask_cyber_assistant` |

Conventions:

- A Python exception is an error value: `Failure(...)`, `Fail(...)`, or an error verdict.
- The file system is a parameter. A text file is `Option<seq<string>>`: `None` when the file does not exist, otherwise its lines without terminators.
- bcrypt is a pair of function values (`Auth.Bcrypt`). The random salt of `gensalt()` is a parameter. `checkpw` gives `None` where bcrypt raises ValueError, for stored bytes that are not a bcrypt hash. The model assumes only what `Auth.Sound` states: a password checks against its own hash, and a hash is non-empty text over bcrypt's alphabet.
- The connection keeps sqlite3's default transaction handling (`DB/db.py:12`). An INSERT, UPDATE or DELETE on an existing table opens a transaction when none is open, and its writes reach the file only at `commit()`. A `CREATE TABLE` run while no transaction is open is written to the file at once.
- The online assistant's answer is a parameter, `None` when no API key is set.

Behaviour of the code worth stating:

- The login page has a "Log out" action that clears the session (`pages/Login.py:23-26`).
- An online reply of "AI API returned no choices." is passed to the user; only a missing reply or one starting with "Error calling OpenRouter API" falls back (`ai_helper.py:142-143`, `ai_helper.py:166`).
- `setup_database` is one `with` block around the schema, the migration and the CSV load (`DB/main.py:43-52`). The model stops after the migration and then leaves the block. The four tables are written to the file as they are created, since no transaction is open yet. In the model, the migrated users are committed when the block is left; if the migration raises, they are discarded and the file keeps the four tables. In the program the CSV load runs before the block is left, and it changes when the users are committed (see "## Left out").
- `demo_crud` runs three reads and three writes in one `with` block (`main.py:36-58`). The transaction opens at the INSERT, and the three writes are committed together at the end of the block.

## Model

| member | source | states |
|---|---|---|
| Rows.UpdateWhere | DB/crud.py:32-38 | `UPDATE … SET … WHERE key = ?` keeps the row count and order; it rewrites exactly the matching rows, every one of them, and leaves the others as they were |
| Rows.DeleteWhere | DB/crud.py:40-42 | `DELETE … WHERE key = ?` removes exactly the matching rows, all of them: every remaining row is an old non-matching row, every non-matching row survives, and the length drops by the number of matches |
| Rows.FirstWhere | DB/crud.py:9-13 | `fetchone()` finds nothing iff no row matches; otherwise it returns a matching row of the table |
| Rows.Count | DB/crud.py:32-42 | the number of rows a key matches is at most the table size, and zero iff no row matches |
| Rows.DeleteKeepsAscending | DB/crud.py:40-42 | deleting rows keeps the surrogate ids strictly ascending in storage order |
| Rows.UpdateKeepsAscending | DB/crud.py:32-38 | updating a non-key column keeps the ids ascending |
| Rows.PrependKeepsAscending | DB/crud.py:40-42 | a row with an id below all others can head an ascending table |
| Rows.NoMatchIsNoOp | DB/crud.py:32-42 | an update or delete whose key matches no row leaves the table unchanged |
| Rows.DeleteKeepsOrder | DB/crud.py:40-42 | a delete that matches nothing returns the rows in the same order |
| Rows.CountAppend | DB/crud.py:18-25 | appending a row adds one to a key's match count iff the new row matches |
| Sqlite.ExecKeepsWellFormed | schema.py:8-13 | every statement, failed or not, keeps the invariants: unique usernames, and in every table ids strictly ascending and never above its AUTOINCREMENT counter; a missing table has no rows |
| Sqlite.CreateTableEffect | schema.py:7-14 | `CREATE TABLE IF NOT EXISTS` adds the table and touches no row; on an existing table it changes nothing |
| Sqlite.InsertUserOutcome | DB/crud.py:5-7 | the insert into users fails with the NOT NULL error of the first NULL column; otherwise it succeeds iff the username is new, appending one row with the next AUTOINCREMENT id, greater than every id before; a duplicate fails with the UNIQUE error, and the username is then present |
| Sqlite.SelectUserFindsUniqueRow | DB/crud.py:9-13 | looking up a username succeeds and returns the one row with that username, or nothing when no row has it |
| Sqlite.InsertIncidentAppendsOne | DB/crud.py:18-25 | inserting an incident always succeeds and appends exactly one row with the eight given cells and a fresh id, even for a business key already present; the other tables are untouched |
| Sqlite.InsertDatasetAppendsOne | DB/crud.py:46-53 | a row_count outside SQLite's 64-bit INTEGER raises OverflowError; otherwise, as for incidents, one dataset row with its six cells and a fresh id is appended |
| Sqlite.InsertTicketAppendsOne | DB/crud.py:75-82 | same for a ticket row with its seven cells |
| Sqlite.UpdateIncidentStatusEffect | DB/crud.py:32-38 | sets the status of every incident whose `incident_id` equals the key, and no other cell or row |
| Sqlite.DeleteIncidentEffect | DB/crud.py:40-42 | removes every incident with the key, keeping every other incident and the other tables |
| Sqlite.UpdateDatasetOwnerEffect | DB/crud.py:60-66 | sets the owner of every dataset with that name, nothing else |
| Sqlite.DeleteDatasetEffect | DB/crud.py:68-70 | removes every dataset with that name, keeping the rest |
| Sqlite.UpdateTicketStatusEffect | DB/crud.py:89-95 | sets the status of every ticket with that id, nothing else |
| Sqlite.DeleteTicketEffect | DB/crud.py:97-99 | removes every ticket with that id, keeping the rest |
| Sqlite.UnmatchedKeyIsNoOp | DB/crud.py:32-99 | an update or delete by business key that matches no row succeeds and changes nothing |
| Sqlite.NullKeyIsNoOp | DB/crud.py:32-99 | an update or delete whose key is `None` (NULL) matches nothing and changes nothing |
| Sqlite.AppendKeepsAscending | schema.py:9 | appending a row with the next AUTOINCREMENT id keeps the ids ascending and at most the new counter |
| Sqlite.UpdateKeepsIdsUpTo | schema.py:9 | an update keeps every id at most the counter |
| Sqlite.DeleteKeepsIdsUpTo | schema.py:9 | a delete keeps every id at most the counter |
| Db.DbFile.constructor | DB/db.py:10-12 | a new database file is empty |
| Db.DatabaseManager.constructor | DB/db.py:10-13 | a new connection is open, has no transaction, and sees the committed contents of its file |
| Db.DatabaseManager.Execute | DB/db.py:12-16 | a statement on the cursor changes the view as `Exec` says: applied on success, nothing on error; the error is reported. An INSERT, UPDATE or DELETE on an existing table opens a transaction and never writes the file; a CREATE TABLE outside a transaction is written to the file at once. Outside a transaction the view is the file's contents |
| Db.DatabaseManager.Commit | DB/db.py:18-19 | the file's committed contents become the connection's view, and the transaction ends |
| Db.DatabaseManager.Close | DB/db.py:21-22 | the connection is closed and its transaction ends; uncommitted work is never written to the file |
| Db.DatabaseManager.Enter | DB/db.py:24-25 | `__enter__` returns the manager itself |
| Db.DatabaseManager.Exit | DB/db.py:27-30 | `__exit__` commits the view iff the block raised nothing, then closes |
| Crud.InsertUser | DB/crud.py:5-7 | the insert is applied to the connection, and passes exactly when the statement succeeds |
| Crud.GetUserByUsername | DB/crud.py:9-13 | returns the row with the username, or `None` when no row has it; fails iff the users table is missing |
| Crud.CreateIncident | DB/crud.py:18-25 | appends the incident; passes iff the table exists |
| Crud.GetAllIncidents | DB/crud.py:27-30 | returns every incident in storage order; fails iff the table is missing |
| Crud.UpdateIncidentStatus | DB/crud.py:32-38 | applies the update by key; passes iff the table exists |
| Crud.DeleteIncident | DB/crud.py:40-42 | applies the delete by key; passes iff the table exists |
| Crud.CreateDataset | DB/crud.py:46-53 | appends the dataset; passes iff the table exists and the row_count fits in 64 bits |
| Crud.GetAllDatasets | DB/crud.py:55-58 | returns every dataset; fails iff the table is missing |
| Crud.UpdateDatasetOwner | DB/crud.py:60-66 | applies the owner update by name; passes iff the table exists |
| Crud.DeleteDataset | DB/crud.py:68-70 | applies the delete by name; passes iff the table exists |
| Crud.CreateTicket | DB/crud.py:75-82 | appends the ticket; passes iff the table exists |
| Crud.GetAllTickets | DB/crud.py:84-87 | returns every ticket; fails iff the table is missing |
| Crud.UpdateTicketStatus | DB/crud.py:89-95 | applies the status update by ticket id; passes iff the table exists |
| Crud.DeleteTicket | DB/crud.py:97-99 | applies the delete by ticket id; passes iff the table exists |
| Schema.CreateIfNotExists | schema.py:8-13 | one `CREATE TABLE IF NOT EXISTS` adds the table to the view, keeping rows and counters; outside a transaction the file receives it at once, inside one the file is unchanged |
| Schema.CreateTables | schema.py:3-57 | afterwards all four tables exist and no row or counter changed; on a database that already has them it changes nothing (idempotent). No commit is issued: outside a transaction the file holds the new tables at once, inside one it is unchanged |
| Services.MappingToDictKeepsColumns | services/users_service.py:33-34 | `dict(row)` has a key for every column, and each key holds that column's value |
| Services.RowToDict | services/users_service.py:29-42 | a mapping row becomes `dict(row)`; a tuple row becomes the four-key dict of its first four values, and a shorter tuple raises |
| Services.RowShapesAgree | services/users_service.py:32-42 | a users row gives the same dict whether the driver returns it as a mapping or as a tuple |
| Services.UserService.constructor | services/users_service.py:15-16 | the service connects to the given database file |
| Services.UserService.FindUser | services/users_service.py:22-42 | returns the dict of the user's row, or `None`, exactly as `SELECT … WHERE username = ?` finds it; the file's contents are unchanged |
| Services.UserService.RegisterUser | services/users_service.py:44-49 | the insert is committed iff it succeeds (default role "general"); a duplicate username leaves the file as it was |
| Services.IncidentService.constructor | services/incidents_service.py:20-21 | the service connects to the given file |
| Services.IncidentService.ListIncidents | services/incidents_service.py:28-31 | the committed incidents, file unchanged |
| Services.IncidentService.CreateIncident | services/incidents_service.py:35-57 | the insert is committed, or nothing when the table is missing |
| Services.IncidentService.ChangeStatus | services/incidents_service.py:59-61 | the update by key is committed |
| Services.IncidentService.RemoveIncident | services/incidents_service.py:63-65 | the delete by key is committed |
| Services.DatasetService.constructor | services/datasets_service.py:19-20 | the service connects to the given file |
| Services.DatasetService.ListDatasets | services/datasets_service.py:25-28 | the committed datasets, file unchanged |
| Services.DatasetService.RegisterDataset | services/datasets_service.py:30-48 | the insert is committed; nothing is committed when the table is missing or the row count does not fit in 64 bits |
| Services.DatasetService.ChangeOwner | services/datasets_service.py:50-52 | the owner update by name is committed |
| Services.DatasetService.RemoveDataset | services/datasets_service.py:54-56 | the delete by name is committed |
| Services.TicketService.constructor | services/tickets_service.py:19-20 | the service connects to the given file |
| Services.TicketService.ListTickets | services/tickets_service.py:25-28 | the committed tickets, file unchanged |
| Services.TicketService.CreateTicket | services/tickets_service.py:30-50 | the insert is committed, or nothing when the table is missing |
| Services.TicketService.ChangeStatus | services/tickets_service.py:52-54 | the status update by ticket id is committed |
| Services.TicketService.RemoveTicket | services/tickets_service.py:56-58 | the delete by ticket id is committed |
| PyStr.StripStart | DB/main.py:32 | `lstrip` drops a white-space prefix and nothing else; the result starts with a non-space |
| PyStr.StripEnd | DB/main.py:32 | `rstrip` drops a white-space suffix and nothing else; the result ends with a non-space |
| PyStr.StripIsTrimmedSlice | DB/main.py:32 | `strip()` is the slice left after cutting white space on both sides, with no white space at either end |
| PyStr.StripKeepsTrimmed | auth.py:29 | text with no white space at either end is its own `strip()` |
| PyStr.StripNoSpace | auth.py:29 | text with no white space is its own `strip()` |
| PyStr.Split | DB/main.py:36 | `split(",")` returns at least one part |
| PyStr.SplitJoinsBack | DB/main.py:36 | the parts of `split(sep)` hold no separator, and joining them with it rebuilds the string |
| PyStr.SplitNoSep | auth.py:29 | a string without the separator is one part |
| PyStr.SplitAfterPart | auth.py:58 | splitting `a + sep + rest` with `a` separator-free gives `a` then the parts of `rest` |
| PyStr.SplitJoin | auth.py:44 | `split` inverts `join` when no part holds the separator |
| PyStr.Lower | ai_helper.py:47 | `lower()` keeps the length, maps each character and leaves no upper-case letter |
| PyStr.Encode | auth.py:9 | UTF-8 encoding is at least one byte per character, exactly one for ASCII text |
| PyStr.EncodeChar | auth.py:9 | one code point encodes to 1-4 bytes: one below 0x80, otherwise a lead byte then continuation bytes |
| PyStr.DecodeAscii | auth.py:12 | decoding succeeds iff the bytes are ASCII, one character per byte |
| PyStr.DecodeEncode | auth.py:9-12 | decoding ASCII bytes and encoding the text gives back the bytes |
| Migration.Classify | DB/main.py:32-36 | a line is blank iff it strips to nothing; it is an entry iff the stripped line splits into exactly two fields, which then rebuild it as `username,hash` and hold no comma |
| Migration.MigrateLineOn | DB/main.py:31-40 | one pass of the loop leaves the connection and the outcome as the line's step `MigrateLine` says, and never writes the file |
| Migration.MigrateUsersFromFile | DB/main.py:25-40 | the loop leaves the connection and the outcome exactly as the line-by-line migration from the old view specifies; a missing file changes nothing |
| Migration.OnlyAppendsUsersTransitive | DB/main.py:39-40 | "only appends users with role general" composes |
| Migration.MigrateLineAppends | DB/main.py:31-40 | one line's step keeps the invariants and only appends users with the role "general" |
| Migration.MigrationOnlyAppends | DB/main.py:25-40 | the whole migration keeps the invariants, never changes other tables, never rewrites or removes a user, and only appends users with the role "general" |
| Migration.MigrateLinePlacesUser | DB/main.py:39-40 | after an entry's step its username is in the users table |
| Migration.PresenceLasts | DB/main.py:39-40 | a user present before stays present through the migration |
| Migration.FinishedRunCoversFile | DB/main.py:30-40 | a migration that finishes met no malformed line, and every entry's username is in the table afterwards |
| Migration.PresentLineIsSkipped | DB/main.py:32-39 | a blank line, or a line whose user is already in the table, leaves the database as it was |
| Migration.PresentUsersAreSkipped | DB/main.py:39 | lines that are blank or name users already in the table change nothing |
| Migration.MigrationIdempotent | DB/main.py:25-40 | running the migration again on its own result changes nothing and passes |
| Migration.InsertedEntryRow | DB/main.py:36-40 | a new username gets exactly one appended row with the line's hash and the role "general" |
| Migration.OtherEntryKeepsAbsent | DB/main.py:31-40 | a step for another line never adds a given absent user |
| Migration.AddedRowLasts | DB/main.py:39-40 | a row present before the migration stays at its place, and no later row duplicates its username |
| Migration.FirstLineWins | DB/main.py:30-40 | when the file names a user several times, that user's row carries the hash of the first line naming it |
| Migration.SetupDatabase | DB/main.py:43-52 | with the block left right after the migration (the CSV load is not modelled): the file ends with the four tables plus the migrated users when the migration finishes; when the migration raises, the file holds the four tables (already written) and none of the migrated users |
| Migration.DemoSequenceEffect | main.py:42-55 | insert, resolve and delete of "TEST123" on a well-formed database: the insert adds exactly one row, the delete leaves fewer rows than after the insert, no "TEST123" incident remains, every other incident is kept and the other tables are untouched |
| Migration.DemoCrud | main.py:36-58 | the second count is one more than the first; afterwards no incident "TEST123" is left and every other incident and table is kept; without the incidents table it raises and commits nothing |
| Auth.HashPassword | auth.py:7-12 | the password verifies against its hash (bcrypt answers true, without raising), and the hash is non-empty text over bcrypt's alphabet |
| Auth.ValidateUsername | auth.py:72-78 | accepted iff 3 to 20 characters and alphanumeric; the length message takes precedence over the alphanumeric one; empty message on success |
| Auth.ValidatePassword | auth.py:81-85 | accepted iff at least 6 characters, with the message otherwise |
| Auth.UsersFile.constructor | auth.py:4 | the credentials file holds the given lines, or does not exist |
| Auth.Fields | auth.py:29 | a line's fields after `strip().split(",")` are at least one |
| Auth.Usernames | auth.py:87-94 | one username per line: the first field of the stripped line |
| Auth.UserExists | auth.py:22-32 | true iff the file exists and some line's first field is the username |
| Auth.ExistingUsernames | auth.py:87-99 | the loop collects every line's first field, and the check passes iff the username is not among them, with "… already exists." otherwise |
| Auth.RegisterUser | auth.py:35-47 | a taken username is refused and the file is untouched; otherwise exactly one line `username,hash` is appended, creating the file if it was missing (one line as read back for a username without line terminators, as the program's only caller ensures by validating it first) |
| Auth.LoginUser | auth.py:50-69 | the loop returns the verdict of the line scan: no file gives "no users yet", the first line naming the user decides by its hash and raises when bcrypt cannot read that hash, a malformed line before it raises, and no match gives "username not found" |
| Auth.ValidUsernameIsOneField | auth.py:72-78 | a valid username has no comma and no white space |
| Auth.EntryLineFields | auth.py:44 | the line written at registration reads back as exactly the username and the hash |
| Auth.LoginFirstMatchDecides | auth.py:56-66 | with well-formed lines for other users before it, the first line naming the user decides the login by its password check: welcome, invalid password, or the ValueError of a hash bcrypt cannot read |
| Auth.LoginUnknownUser | auth.py:56-69 | with well-formed lines and none naming the user, the login ends with "username not found" |
| Auth.RegisterThenLogin | auth.py:35-69 | after registering a valid new username, every line is still well formed, the name is known, and the same password logs in |
| Auth.RegisterIsOnce | auth.py:22-39 | after registering, the username is known, so registering it again is refused |
| LoginPage.Session.constructor | pages/Login.py:14 | a fresh session has no user |
| LoginPage.StoredHashBytes | pages/Login.py:50-54 | a bytes hash is used as it is, a text hash as its UTF-8 bytes; a missing column raises |
| LoginPage.LoginPage | pages/Login.py:10-65 | a logged-in session shows the user and logs out only on "Log out"; an empty field is refused without a lookup; otherwise the session gets the row's identity exactly when the password checks against the stored hash, unknown users and wrong passwords get the same message, a stored hash bcrypt cannot read raises, and the database is left unchanged |
| LoginPage.UnreadableHashRaises | pages/Login.py:50-56 | a stored hash bcrypt cannot read (such as a legacy line's second field copied by the migration) makes the page raise |
| LoginPage.WrongPasswordLooksLikeUnknownUser | pages/Login.py:46-65 | a wrong password and an unknown username lead to the same verdict |
| LoginPage.TextAndBytesHashAgree | pages/Login.py:50-54 | a hash stored as text and as its UTF-8 bytes give the same verdict |
| LoginPage.IdentityCopiesRow | pages/Login.py:56-61 | a successful check stores the row's id, username and role, and only after the password checked |
| LoginPage.HashedPasswordLogsIn | pages/Login.py:45-62 | a users row whose hash `hash_password` made from a password logs in with that password, as the row's identity |
| Assistant.OfflineResponse | ai_helper.py:31-85 | the appended parts, joined with line breaks, are the offline answer the section layout specifies |
| Assistant.AskCyberAssistant | ai_helper.py:157-170 | a missing or error reply is replaced by the offline answer, and any other reply is returned unchanged; the caller never receives an API error message |
| Assistant.OfflineAnswerFraming | ai_helper.py:39-42 | the offline answer starts with the "Offline assistant mode" introduction and ends with the deployment note |
| Assistant.LayoutPresence | ai_helper.py:44-83 | the summary is present iff there is context; each advice part is present iff its keyword condition holds; general guidance is present iff nothing else was added |
| Assistant.LayoutAscending | ai_helper.py:39-83 | the parts come in the fixed order, each at most once |
| Assistant.SectionsPresence | ai_helper.py:44-73 | for a question and a context: ordered parts, the summary iff the context is non-empty, each advice part iff its keyword is in the lower-cased question, and general guidance iff none of those |
| Assistant.JoinStartsWithFirst | ai_helper.py:85 | a line-joined text starts with its first part |
| Assistant.JoinEndsWithLast | ai_helper.py:85 | a line-joined text ends with its last part |

## Left out

- The Streamlit dashboards (`pages/*_Dashboard.py`), `app.py` and the page layout (columns, titles, `st.rerun()`) are not part of this model; the login page's result is the list of notices it shows.
- `Migration.SetupDatabase`: `load_all_csv_data` (`DB/main.py:52`) is not modelled, and the model leaves the `with` block right after the migration. The CSV rows are bulk data with no invariant of their own. Their load also affects the migrated users, which the model does not capture. pandas' `to_sql` on the raw connection (`load_data.py:9`) commits that connection after each CSV it loads, so the migrated users reach the file at the first loaded CSV. A load that raises rolls the connection back. So when the migration passes and a later CSV load fails, the program keeps only what the earlier loads committed, while the model commits every migrated user.
- `_openrouter_response` (the HTTP call, environment variable, JSON payload and timeout) is replaced by its result, passed to `Assistant.AskCyberAssistant` as `onlineAnswer`.
- bcrypt's algorithm and `gensalt()` randomness are not modelled. The hash functions and the salt are parameters, and `Auth.Sound` is all that is assumed of them. In particular, that a different password fails against a hash is not assumed or proved.
- File paths, `os.path.exists` and file encodings are replaced by `Option<seq<string>>` of lines. Line terminators are not modelled. Python would merge a line appended after a last line lacking `\n` with it; the model appends a separate line.
- `PyStr.Lower`: only ASCII letters are lower-cased. Python's `str.lower()` also folds non-ASCII letters, some of them to ASCII ones: U+212A KELVIN SIGN becomes `k`. So a question containing "BAC\u212ALOG" gets the backlog advice from the program and not from `Assistant.SectionsPresence` and `Assistant.OfflineResponse`.
- `PyStr.IsAlnum`: only ASCII letters and digits count. Python's `isalnum()` also accepts other Unicode letters and digits, so `Auth.ValidateUsername` rejects a name such as `café1` that the program accepts.
- `Sqlite.InsertUserOutcome`, `Sqlite.InsertIncidentAppendsOne`, `Sqlite.InsertDatasetAppendsOne`, `Sqlite.InsertTicketAppendsOne`: the AUTOINCREMENT counters are unbounded. SQLite fails an insert with SQLITE_FULL once the id 2^63-1 has been used; the model always hands out the next id.
- `PyStr.DecodeAscii`: only ASCII byte strings are decoded. A bcrypt hash is always ASCII, so `hash_password` never needs more.
- REAL columns (`size_mb`) are opaque bit patterns; no floating-point arithmetic is done.
- Concurrency between processes sharing the database file is not modelled; each connection sees the file as it was when it opened.
- `display_menu` and `main` in `auth.py` (the console loop, `input` and `print`) are not modelled. Their printed messages are represented by `Auth.LoginVerdict` and the Boolean results.
- `LoginPage.LoginPage`: the three parts of the failure path (lookup, hash read, password check) are computed by `LoginPage.CheckCredentials` before the session is changed. This has the same effect as the source's early returns.
- `Migration.MigrateUsersFromFile`: the copy of this function in `main.py:15-28` is the same code as `DB/main.py:25-40` and is modelled once.
- The `print` calls of `main.py`'s `demo_crud` are replaced by the three counts in `Migration.DemoCounts`.
