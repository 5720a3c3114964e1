/**
 * The file-based authentication of the first version of the platform:
 * users are kept as `username,hash` lines in a text file, passwords are
 * hashed with bcrypt, and the validators guard registration.
 *
 * bcrypt is a pair of functions supplied from outside, with the random salt
 * of `gensalt()` passed in; all the model relies on is that a password
 * checks against its own hash, and that a hash is made of the characters of
 * bcrypt's alphabet. The text file is its list of lines, or `None` when it
 * does not exist.
 */
module Auth {
  import opened Wrappers
  import opened PyStr

  // -------------------------------------------------------------------
  // Hashing
  // -------------------------------------------------------------------

  /** `bcrypt.hashpw(password, salt)` and `bcrypt.checkpw(password, hashed)`.
      `checkpw` gives `None` where bcrypt raises ValueError ("Invalid salt"):
      for stored bytes that are not a bcrypt hash. */
  datatype Bcrypt = Bcrypt(hashpw: (Bytes, Bytes) -> Bytes, checkpw: (Bytes, Bytes) -> Option<bool>)

  /** The characters of a bcrypt hash: `$`, `.`, `/`, digits and letters. */
  predicate IsHashChar(c: char) {
    c == '$' || c == '.' || c == '/' || IsAsciiAlnum(c)
  }

  predicate IsHashByte(b: uint8) {
    IsHashChar(b as int as char)
  }

  /** What the model assumes of bcrypt: a password checks against any hash
      made from it, and a hash is a non-empty string over bcrypt's alphabet. */
  ghost predicate Sound(bc: Bcrypt) {
    forall password: Bytes, salt: Bytes ::
      && bc.checkpw(password, bc.hashpw(password, salt)) == Some(true)
      && |bc.hashpw(password, salt)| > 0
      && forall i :: 0 <= i < |bc.hashpw(password, salt)| ==> IsHashByte(bc.hashpw(password, salt)[i])
  }

  /** `verify_password`: checks the UTF-8 bytes of the password against the
      UTF-8 bytes of the stored hash. */
  function VerifyPassword(bc: Bcrypt, password: string, hashed: string): Option<bool> {
    bc.checkpw(Encode(password), Encode(hashed))
  }

  /** `hash_password`: the bcrypt hash of the password's UTF-8 bytes with the
      given salt, decoded as text. The password verifies against it, and it
      holds no comma and no white space. */
  function HashPassword(bc: Bcrypt, password: string, salt: Bytes): (h: string)
    requires Sound(bc)
    ensures VerifyPassword(bc, password, h) == Some(true)
    ensures |h| > 0 && forall i :: 0 <= i < |h| ==> IsHashChar(h[i])
  {
    var hashed := bc.hashpw(Encode(password), salt);
    assert IsAscii(hashed) by {
      forall i | 0 <= i < |hashed| ensures hashed[i] < 0x80 {
        assert IsHashByte(hashed[i]);
      }
    }
    DecodeEncode(hashed);
    var h := DecodeAscii(hashed).value;
    assert forall i :: 0 <= i < |h| ==> h[i] == hashed[i] as int as char;
    h
  }

  // -------------------------------------------------------------------
  // Validation
  // -------------------------------------------------------------------

  const UsernameLengthMessage := "Username must be 3\U{2013}20 characters."
  const UsernameAlnumMessage := "Username must be alphanumeric."
  const PasswordLengthMessage := "Password must be at least 6 characters."

  /** `validate_username`: accepts exactly the alphanumeric names of 3 to 20
      characters; a bad length is reported before a bad character. */
  function ValidateUsername(username: string): (r: (bool, string))
    ensures r.0 <==> 3 <= |username| <= 20 && IsAlnum(username)
    ensures r.0 ==> r.1 == ""
    ensures !(3 <= |username| <= 20) ==> r.1 == UsernameLengthMessage
    ensures 3 <= |username| <= 20 && !IsAlnum(username) ==> r.1 == UsernameAlnumMessage
  {
    if |username| < 3 || |username| > 20 then (false, UsernameLengthMessage)
    else if !IsAlnum(username) then (false, UsernameAlnumMessage)
    else (true, "")
  }

  /** `validate_password`: accepts exactly the passwords of 6 or more characters. */
  function ValidatePassword(password: string): (r: (bool, string))
    ensures r.0 <==> |password| >= 6
    ensures r.1 == if r.0 then "" else PasswordLengthMessage
  {
    if |password| < 6 then (false, PasswordLengthMessage) else (true, "")
  }

  // -------------------------------------------------------------------
  // The users file
  // -------------------------------------------------------------------

  class UsersFile {
    /** The file's lines, or `None` while it does not exist. */
    var lines: Option<seq<string>>

    constructor (lines: Option<seq<string>>)
      ensures this.lines == lines
    {
      this.lines := lines;
    }
  }

  /** The lines of a file, none when it does not exist. */
  function LinesOf(file: Option<seq<string>>): seq<string> {
    match file
    case None => []
    case Some(lines) => lines
  }

  /** The fields of a line: the stripped line split on commas. */
  function Fields(line: string): (parts: seq<string>)
    ensures |parts| >= 1
  {
    Split(Strip(line), ',')
  }

  /** The username a line stands for: its first field. */
  function Usernames(lines: seq<string>): (names: seq<string>)
    ensures |names| == |lines|
    ensures forall i :: 0 <= i < |lines| ==> names[i] == Fields(lines[i])[0]
  {
    seq(|lines|, i requires 0 <= i < |lines| => Fields(lines[i])[0])
  }

  /** Every line is a `username,hash` entry. */
  ghost predicate AllEntries(lines: seq<string>) {
    forall i :: 0 <= i < |lines| ==> |Fields(lines[i])| == 2
  }

  /** The line `register_user` appends. */
  function EntryLine(username: string, hashed: string): string {
    username + "," + hashed
  }

  /** `user_exists`: false when the file does not exist; otherwise whether
      some line's first field is the username. */
  method UserExists(f: UsersFile, username: string) returns (b: bool)
    ensures b <==> f.lines.Some? && username in Usernames(f.lines.value)
  {
    if f.lines.None? {
      return false;
    }
    var lines := f.lines.value;
    var i := 0;
    while i < |lines|
      invariant 0 <= i <= |lines|
      invariant forall j :: 0 <= j < i ==> Fields(lines[j])[0] != username
    {
      var storedUsername := Fields(lines[i])[0];
      if storedUsername == username {
        assert Usernames(lines)[i] == username;
        return true;
      }
      i := i + 1;
    }
    return false;
  }

  /** `exisiting_usernames`: collects the first field of every line, then
      reports `(False, "<name> already exists.")` when the username is among
      them and `(True, "")` when it is not. */
  method ExistingUsernames(f: UsersFile, username: string) returns (ok: bool, msg: string)
    ensures ok <==> !(f.lines.Some? && username in Usernames(f.lines.value))
    ensures msg == if ok then "" else username + " already exists."
  {
    var usernames: seq<string> := [];
    if f.lines.Some? {
      var lines := f.lines.value;
      var i := 0;
      while i < |lines|
        invariant 0 <= i <= |lines|
        invariant |usernames| == i
        invariant forall j :: 0 <= j < i ==> usernames[j] == Fields(lines[j])[0]
      {
        var storedUsername := Fields(lines[i])[0];
        usernames := usernames + [storedUsername];
        i := i + 1;
      }
      assert usernames == Usernames(lines);
    }
    if username in usernames {
      ok, msg := false, username + " already exists.";
    } else {
      ok, msg := true, "";
    }
  }

  /** `register_user`: refuses a username some line already has, leaving the
      file as it was; otherwise appends one `username,hash` line, creating
      the file if needed. */
  method RegisterUser(f: UsersFile, bc: Bcrypt, username: string, password: string, salt: Bytes)
    returns (ok: bool)
    requires Sound(bc)
    modifies f
    ensures old(f.lines).Some? && username in Usernames(old(f.lines).value) ==> !ok && f.lines == old(f.lines)
    ensures !(old(f.lines).Some? && username in Usernames(old(f.lines).value)) ==>
      ok && f.lines == Some(LinesOf(old(f.lines)) + [EntryLine(username, HashPassword(bc, password, salt))])
  {
    var taken := UserExists(f, username);
    if taken {
      // "Error: Username '...' already exists."
      return false;
    }
    var hashed := HashPassword(bc, password, salt);
    f.lines := Some(LinesOf(f.lines) + [EntryLine(username, hashed)]);
    // "Success: User '...' registered successfully!"
    return true;
  }

  /** The message `login_user` prints, and so its verdict: only `Welcome`
      makes it return True. */
  datatype LoginVerdict = NoUsersYet | Welcome | InvalidPassword | UsernameNotFound

  /** A line that does not unpack into two fields raises ValueError, and so
      does bcrypt when the matching line's hash is not a bcrypt hash. */
  datatype LoginError = MalformedLine(line: string) | InvalidHash(hashed: string)

  /** The outcome once the line naming the user is found: the password
      check on its hash decides, or raises. */
  function Decide(bc: Bcrypt, password: string, storedHash: string): Result<LoginVerdict, LoginError> {
    match VerifyPassword(bc, password, storedHash)
    case None => Failure(InvalidHash(storedHash))
    case Some(ok) => Success(if ok then Welcome else InvalidPassword)
  }

  /** The scan of `login_user` over the file's lines. */
  function LoginScan(bc: Bcrypt, lines: seq<string>, username: string, password: string)
    : Result<LoginVerdict, LoginError>
  {
    if lines == [] then Success(UsernameNotFound)
    else
      var parts := Fields(lines[0]);
      if |parts| != 2 then Failure(MalformedLine(lines[0]))
      else if parts[0] == username then Decide(bc, password, parts[1])
      else LoginScan(bc, lines[1..], username, password)
  }

  /** `login_user` on the file: with no file nobody is registered yet. */
  function Login(bc: Bcrypt, file: Option<seq<string>>, username: string, password: string)
    : Result<LoginVerdict, LoginError>
  {
    match file
    case None => Success(NoUsersYet)
    case Some(lines) => LoginScan(bc, lines, username, password)
  }

  /** `login_user`: reads the lines in order; the first line whose username
      matches decides, by checking the password against that line's hash,
      which raises when that hash is not a bcrypt hash. */
  method LoginUser(f: UsersFile, bc: Bcrypt, username: string, password: string)
    returns (r: Result<LoginVerdict, LoginError>)
    ensures r == Login(bc, f.lines, username, password)
  {
    if f.lines.None? {
      return Success(NoUsersYet);
    }
    var lines := f.lines.value;
    var i := 0;
    while i < |lines|
      invariant 0 <= i <= |lines|
      invariant LoginScan(bc, lines, username, password) == LoginScan(bc, lines[i..], username, password)
    {
      assert lines[i..][1..] == lines[i + 1..];
      var parts := Fields(lines[i]);
      if |parts| != 2 {
        return Failure(MalformedLine(lines[i]));
      }
      var storedUsername, storedHash := parts[0], parts[1];
      if storedUsername == username {
        var verified := VerifyPassword(bc, password, storedHash);
        if verified.None? {
          return Failure(InvalidHash(storedHash));
        } else if verified.value {
          return Success(Welcome);
        } else {
          return Success(InvalidPassword);
        }
      }
      i := i + 1;
    }
    return Success(UsernameNotFound);
  }

  // -------------------------------------------------------------------
  // Properties
  // -------------------------------------------------------------------

  /** A valid username is one comma-free field with no white space. */
  lemma ValidUsernameIsOneField(username: string)
    requires ValidateUsername(username).0
    ensures ',' !in username
    ensures forall i :: 0 <= i < |username| ==> !IsSpace(username[i])
  {
    forall i | 0 <= i < |username| ensures !IsSpace(username[i]) && username[i] != ',' {
      assert IsAsciiAlnum(username[i]);
    }
  }

  /** The line written for a valid username reads back as exactly its two
      fields: the username and the hash. */
  lemma EntryLineFields(bc: Bcrypt, username: string, password: string, salt: Bytes)
    requires Sound(bc) && ValidateUsername(username).0
    ensures var h := HashPassword(bc, password, salt);
      Fields(EntryLine(username, h)) == [username, h]
  {
    var h := HashPassword(bc, password, salt);
    var line := EntryLine(username, h);
    ValidUsernameIsOneField(username);
    assert forall i :: 0 <= i < |h| ==> !IsSpace(h[i]) && h[i] != ',' by {
      forall i | 0 <= i < |h| ensures !IsSpace(h[i]) && h[i] != ',' {
        assert IsHashChar(h[i]);
      }
    }
    StripKeepsTrimmed(line);
    assert Join([username, h], [',']) == line;
    SplitJoin([username, h], ',');
  }

  /** A login is decided by the first line naming the user, once the lines
      before it are all well-formed entries for other users. */
  lemma {:induction false} LoginFirstMatchDecides(bc: Bcrypt, lines: seq<string>, username: string,
                                                  password: string, i: nat)
    requires i < |lines| && |Fields(lines[i])| == 2 && Fields(lines[i])[0] == username
    requires forall j :: 0 <= j < i ==> |Fields(lines[j])| == 2 && Fields(lines[j])[0] != username
    ensures LoginScan(bc, lines, username, password) ==
      Decide(bc, password, Fields(lines[i])[1])
  {
    if i > 0 {
      forall j | 0 <= j < i - 1 ensures |Fields(lines[1..][j])| == 2 && Fields(lines[1..][j])[0] != username {
        assert lines[1..][j] == lines[j + 1];
      }
      assert lines[1..][i - 1] == lines[i];
      LoginFirstMatchDecides(bc, lines[1..], username, password, i - 1);
    }
  }

  /** With only well-formed lines, none naming the user, the login fails
      with "Username not found." */
  lemma {:induction false} LoginUnknownUser(bc: Bcrypt, lines: seq<string>, username: string, password: string)
    requires AllEntries(lines) && username !in Usernames(lines)
    ensures LoginScan(bc, lines, username, password) == Success(UsernameNotFound)
  {
    if lines != [] {
      assert Usernames(lines)[0] == Fields(lines[0])[0];
      assert |Fields(lines[0])| == 2;
      forall i | 0 <= i < |lines[1..]| ensures |Fields(lines[1..][i])| == 2 {
        assert lines[1..][i] == lines[i + 1];
      }
      assert Usernames(lines[1..]) == Usernames(lines)[1..];
      LoginUnknownUser(bc, lines[1..], username, password);
    }
  }

  /** Registering a valid, new username keeps every line a well-formed
      entry, makes the username known to `user_exists`, and lets the same
      password log in. */
  lemma RegisterThenLogin(bc: Bcrypt, lines: seq<string>, username: string, password: string, salt: Bytes)
    requires Sound(bc) && ValidateUsername(username).0
    requires AllEntries(lines) && username !in Usernames(lines)
    ensures var after := lines + [EntryLine(username, HashPassword(bc, password, salt))];
      && AllEntries(after)
      && username in Usernames(after)
      && LoginScan(bc, after, username, password) == Success(Welcome)
  {
    var h := HashPassword(bc, password, salt);
    var after := lines + [EntryLine(username, h)];
    EntryLineFields(bc, username, password, salt);
    forall j | 0 <= j < |after| ensures |Fields(after[j])| == 2 {
      if j < |lines| { assert after[j] == lines[j]; }
    }
    assert Usernames(after)[|lines|] == username;
    forall j | 0 <= j < |lines| ensures |Fields(after[j])| == 2 && Fields(after[j])[0] != username {
      assert after[j] == lines[j];
      assert Usernames(lines)[j] == Fields(lines[j])[0];
    }
    LoginFirstMatchDecides(bc, after, username, password, |lines|);
  }

  /** A second registration under the same name is refused: the name is
      already known. */
  lemma RegisterIsOnce(bc: Bcrypt, lines: seq<string>, username: string, password: string, salt: Bytes)
    requires Sound(bc) && ValidateUsername(username).0
    ensures username in Usernames(lines + [EntryLine(username, HashPassword(bc, password, salt))])
  {
    EntryLineFields(bc, username, password, salt);
    var after := lines + [EntryLine(username, HashPassword(bc, password, salt))];
    assert Usernames(after)[|lines|] == username;
  }
}
