/**
 * The decision logic of the login page over the session's "user" entry.
 * One call is one run of the page: it either shows who is logged in (and
 * logs out on request), or handles a submitted form by looking the user up
 * through the user service and checking the password with bcrypt.
 * Rendering, columns and `st.rerun()` are not modelled; the page's result
 * is the list of notices it shows, in order.
 */
module LoginPage {
  import opened Wrappers
  import opened Records
  import opened PyStr
  import opened Sqlite
  import opened Db
  import Services
  import Auth

  /** What `session_state["user"]` holds: three columns copied from the row. */
  datatype Identity = Identity(id: Value, username: Value, role: Value)

  class Session {
    /** `session_state["user"]`, absent while nobody is logged in. */
    var user: Option<Identity>

    constructor ()
      ensures user == None
    {
      user := None;
    }
  }

  /** What the visitor did on this run of the page. */
  datatype Event = NoAction | Submit(username: string, password: string) | GoToDashboard | LogOut

  /** A message box: `st.success(...)` or `st.error(...)`; `LoggedInAs` is
      the success box naming the logged-in user and role. */
  datatype Notice = LoggedInAs(username: Value, role: Value) | SuccessBox(text: string) | ErrorBox(text: string)

  /** An exception escaping the page: the lookup raised, a column was
      missing from the row, the stored hash was neither bytes nor text, or
      bcrypt refused the stored hash ("Invalid salt"). */
  datatype PageError = LookupFailed(error: DbError) | MissingKey(key: string) | HashNotText | InvalidSalt

  const MissingCredentials := "Please enter both a username and a password."
  const InvalidCredentials := "Invalid username or password."
  const LoginSucceeded := "Login successful."
  const LoggedOut := "Logged out successfully."

  /** The bytes bcrypt checks against: a bytes value as it is, a text value
      encoded as UTF-8. */
  function StoredHashBytes(row: Services.Dict): (r: Result<Bytes, PageError>)
    ensures "password_hash" !in row ==> r == Failure(MissingKey("password_hash"))
    ensures "password_hash" in row ==>
      match row["password_hash"]
      case Blob(b) => r == Success(b)
      case TextValue(s) => r == Success(Encode(s))
      case _ => r == Failure(HashNotText)
  {
    if "password_hash" !in row then Failure(MissingKey("password_hash"))
    else match row["password_hash"]
      case Blob(b) => Success(b)
      case TextValue(s) => Success(Encode(s))
      case _ => Failure(HashNotText)
  }

  /** The identity stored on success, read column by column. */
  function IdentityOf(row: Services.Dict): Result<Identity, PageError> {
    if "id" !in row then Failure(MissingKey("id"))
    else if "username" !in row then Failure(MissingKey("username"))
    else if "role" !in row then Failure(MissingKey("role"))
    else Success(Identity(row["id"], row["username"], row["role"]))
  }

  /** The verdict on a looked-up row: `None` when the user is unknown or
      the password does not check, the identity to store when it does; a
      stored hash bcrypt cannot read raises. */
  function CheckCredentials(checkpw: (Bytes, Bytes) -> Option<bool>, row: Option<Services.Dict>, password: string)
    : Result<Option<Identity>, PageError>
  {
    match row
    case None => Success(None)
    case Some(d) =>
      match StoredHashBytes(d)
      case Failure(e) => Failure(e)
      case Success(hashed) =>
        match checkpw(Encode(password), hashed)
        case None => Failure(InvalidSalt)
        case Some(false) => Success(None)
        case Some(true) =>
          match IdentityOf(d)
          case Failure(e) => Failure(e)
          case Success(id) => Success(Some(id))
  }

  /** The verdict on a submitted form, given the database `find_user` reads. */
  function Attempt(img: DbImage, checkpw: (Bytes, Bytes) -> Option<bool>, username: string, password: string)
    : Result<Option<Identity>, PageError>
  {
    match SelectUserByUsername(img, username)
    case Failure(e) => Failure(LookupFailed(e))
    case Success(None) => CheckCredentials(checkpw, None, password)
    case Success(Some(u)) => CheckCredentials(checkpw, Some(Services.UserDict(u)), password)
  }

  /** `login_page`. When someone is logged in, it shows who, checks nothing,
      and on "Log out" removes the session's user. Otherwise a form
      submitted with an empty field is refused without a lookup; else the
      session gets the row's identity exactly when the password checks, an
      unknown user and a wrong password get the same message, and a stored
      hash bcrypt cannot read raises. Reading the user commits nothing to
      the database. */
  method LoginPage(session: Session, users: Services.UserService, checkpw: (Bytes, Bytes) -> Option<bool>, ev: Event)
    returns (r: Result<seq<Notice>, PageError>)
    requires users.file.Valid()
    modifies session, users.file
    ensures users.file.Valid() && users.file.committed == old(users.file.committed)
    ensures old(session.user).Some? ==>
      var u := old(session.user).value;
      if ev.LogOut? then
        session.user == None && r == Success([LoggedInAs(u.username, u.role), SuccessBox(LoggedOut)])
      else
        session.user == old(session.user) && r == Success([LoggedInAs(u.username, u.role)])
    ensures old(session.user).None? && !ev.Submit? ==> session.user == None && r == Success([])
    ensures old(session.user).None? && ev.Submit? && (ev.username == "" || ev.password == "") ==>
      session.user == None && r == Success([ErrorBox(MissingCredentials)])
    ensures old(session.user).None? && ev.Submit? && ev.username != "" && ev.password != "" ==>
      match Attempt(old(users.file.committed), checkpw, ev.username, ev.password)
      case Failure(e) => session.user == None && r == Failure(e)
      case Success(None) => session.user == None && r == Success([ErrorBox(InvalidCredentials)])
      case Success(Some(id)) => session.user == Some(id) && r == Success([SuccessBox(LoginSucceeded)])
  {
    if session.user.Some? {
      var user := session.user.value;
      var notices := [LoggedInAs(user.username, user.role)];
      if ev.LogOut? {
        session.user := None;
        notices := notices + [SuccessBox(LoggedOut)];
        assert notices == [LoggedInAs(user.username, user.role), SuccessBox(LoggedOut)];
      }
      return Success(notices);
    }
    if !ev.Submit? {
      return Success([]);
    }
    var username, password := ev.username, ev.password;
    if username == "" || password == "" {
      return Success([ErrorBox(MissingCredentials)]);
    }
    var userRow := users.FindUser(username);
    var verdict := match userRow
      case Failure(e) => Failure(LookupFailed(e))
      case Success(row) => CheckCredentials(checkpw, row, password);
    if verdict.Failure? {
      return Failure(verdict.error);
    }
    if verdict.value.None? {
      return Success([ErrorBox(InvalidCredentials)]);
    }
    session.user := verdict.value;
    return Success([SuccessBox(LoginSucceeded)]);
  }

  // -------------------------------------------------------------------
  // Properties
  // -------------------------------------------------------------------

  /** An unknown user and a wrong password are indistinguishable: both give
      the verdict of a missing row. */
  lemma WrongPasswordLooksLikeUnknownUser(checkpw: (Bytes, Bytes) -> Option<bool>, row: Services.Dict, password: string)
    requires StoredHashBytes(row).Success?
    requires checkpw(Encode(password), StoredHashBytes(row).value) == Some(false)
    ensures CheckCredentials(checkpw, Some(row), password) == CheckCredentials(checkpw, None, password)
    ensures CheckCredentials(checkpw, None, password) == Success(None)
  {
  }

  /** A stored hash that bcrypt cannot read, such as a legacy line's second
      field copied in by the migration, makes the page raise rather than
      answer. */
  lemma UnreadableHashRaises(checkpw: (Bytes, Bytes) -> Option<bool>, row: Services.Dict, password: string)
    requires StoredHashBytes(row).Success?
    requires checkpw(Encode(password), StoredHashBytes(row).value).None?
    ensures CheckCredentials(checkpw, Some(row), password) == Failure(InvalidSalt)
  {
  }

  /** A hash stored as text and the same hash stored as its UTF-8 bytes get
      the same verdict. */
  lemma TextAndBytesHashAgree(checkpw: (Bytes, Bytes) -> Option<bool>, row: Services.Dict, hashed: string, password: string)
    ensures CheckCredentials(checkpw, Some(row["password_hash" := TextValue(hashed)]), password)
         == CheckCredentials(checkpw, Some(row["password_hash" := Blob(Encode(hashed))]), password)
  {
    var asText := row["password_hash" := TextValue(hashed)];
    var asBytes := row["password_hash" := Blob(Encode(hashed))];
    assert StoredHashBytes(asText) == StoredHashBytes(asBytes);
    assert IdentityOf(asText) == IdentityOf(asBytes);
  }

  /** A successful check stores the row's id, username and role, and only
      after the password checked against the stored hash; the hash itself is
      not part of what is stored. */
  lemma IdentityCopiesRow(checkpw: (Bytes, Bytes) -> Option<bool>, row: Services.Dict, password: string)
    requires CheckCredentials(checkpw, Some(row), password).Success?
    requires CheckCredentials(checkpw, Some(row), password).value.Some?
    ensures var id := CheckCredentials(checkpw, Some(row), password).value.value;
      && StoredHashBytes(row).Success? && checkpw(Encode(password), StoredHashBytes(row).value) == Some(true)
      && "id" in row && "username" in row && "role" in row
      && id == Identity(row["id"], row["username"], row["role"])
  {
  }

  /** A users row whose hash was made by `hash_password` from a password
      logs in with that password, as the row's own id, username and role. */
  lemma HashedPasswordLogsIn(bc: Auth.Bcrypt, u: UserRow, password: string, salt: Bytes)
    requires Auth.Sound(bc) && u.passwordHash == Auth.HashPassword(bc, password, salt)
    ensures CheckCredentials(bc.checkpw, Some(Services.UserDict(u)), password)
         == Success(Some(Identity(Integer(u.id), TextValue(u.username), TextValue(u.role))))
  {
    var d := Services.UserDict(u);
    assert d["password_hash"] == TextValue(u.passwordHash);
    assert StoredHashBytes(d) == Success(Encode(u.passwordHash));
    assert Auth.VerifyPassword(bc, password, u.passwordHash) == Some(true);
  }
}
