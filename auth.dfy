/**
 * Sessions and accounts: resolving the session cookie to a user, logging in
 * and registering. A session is the decimal user id the login or registration
 * stored in the cookie; the server keeps no session table.
 */
module Auth {
  import opened Wrappers
  import Text
  import opened Models
  import opened Db

  /**
   * `get_current_user`: the cookie's value read as an `i64` user id and looked
   * up. A missing cookie, a value that does not parse and an unknown id all
   * give `None`, never an error.
   */
  function CurrentUser(db: Store, session: Option<string>): (u: Option<User>)
    reads db
    ensures session.None? ==> u.None?
    ensures session.Some? && Text.ParseI64(session.value).None? ==> u.None?
    ensures session.Some? && Text.ParseI64(session.value).Some? ==>
      var uid := Text.ParseI64(session.value).value;
      (u.Some? <==> uid in db.users) && (u.Some? ==> u.value == db.users[uid])
  {
    if session.None? then None
    else
      match Text.ParseI64(session.value)
      case None => None
      case Some(uid) => if uid in db.users then Some(db.users[uid]) else None
  }

  /** The cookie value handed out for user `uid` resolves back to that user's row. */
  lemma SessionRoundTrip(db: Store, uid: int)
    requires db.Valid() && uid in db.users
    ensures CurrentUser(db, Some(Text.FormatInt(uid))) == Some(db.users[uid])
  {
    Text.ParseFormatRoundTrip(uid);
  }

  /** A resolved user is a row of the users table, stored under its own id. */
  lemma CurrentUserIsARow(db: Store, session: Option<string>)
    requires db.Valid() && CurrentUser(db, session).Some?
    ensures var u := CurrentUser(db, session).value; u.id in db.users && db.users[u.id] == u
  {
  }

  const LoginFailedMessage: string := "Invalid username or password"

  datatype LoginOutcome = LoginRejected(message: string) | SignedIn(session: string)

  /**
   * `login`: signs in when a user of that name exists and the password verifies
   * against its hash. Both failures give the same message, so the answer does
   * not tell an unknown name from a wrong password. The session handed out
   * resolves to the user who signed in.
   */
  method Login(db: Store, form: LoginForm, verify: (string, string) -> bool) returns (r: LoginOutcome)
    requires db.Valid()
    ensures r.SignedIn? <==> exists uid :: uid in db.users && db.users[uid].username == form.username
                                           && verify(form.password, db.users[uid].passwordHash)
    ensures r.LoginRejected? ==> r.message == LoginFailedMessage
    ensures r.SignedIn? ==>
      var u := CurrentUser(db, Some(r.session));
      u.Some? && u.value.username == form.username && verify(form.password, u.value.passwordHash)
  {
    if exists uid :: uid in db.users && db.users[uid].username == form.username {
      var uid :| uid in db.users && db.users[uid].username == form.username;
      if verify(form.password, db.users[uid].passwordHash) {
        SessionRoundTrip(db, uid);
        return SignedIn(Text.FormatInt(uid));
      }
    }
    return LoginRejected(LoginFailedMessage);
  }

  datatype RegisterError =
    | UsernameTooShort
    | PasswordTooShort
    | PasswordMismatch
    | UsernameAlreadyTaken
    | AccountCreationFailed

  /** The message the registration form shows for each error. */
  function Message(e: RegisterError): string {
    match e
    case UsernameTooShort => "Username must be at least 3 characters"
    case PasswordTooShort => "Password must be at least 6 characters"
    case PasswordMismatch => "Passwords do not match"
    case UsernameAlreadyTaken => "Username already taken"
    case AccountCreationFailed => "Failed to create account"
  }

  /** The position of each input check in `register`; account creation comes after all of them. */
  function Rank(e: RegisterError): nat {
    match e
    case UsernameTooShort => 0
    case PasswordTooShort => 1
    case PasswordMismatch => 2
    case UsernameAlreadyTaken => 3
    case AccountCreationFailed => 4
  }

  /** The condition under which each input check rejects; lengths are in bytes. */
  predicate Fails(e: RegisterError, form: RegisterForm, taken: bool) {
    match e
    case UsernameTooShort => Text.Utf8Len(form.username) < 3
    case PasswordTooShort => Text.Utf8Len(form.password) < 6
    case PasswordMismatch => form.password != form.confirmPassword
    case UsernameAlreadyTaken => taken
    case AccountCreationFailed => false
  }

  /**
   * The input checks of `register`, in the order the handler runs them. The
   * error reported is the first check that fails: it fails, and no check
   * ranked before it does. No error means every check passes.
   */
  function ValidateRegistration(form: RegisterForm, taken: bool): (r: Option<RegisterError>)
    ensures r.Some? ==> Fails(r.value, form, taken)
    ensures r.Some? ==> forall e :: Rank(e) < Rank(r.value) ==> !Fails(e, form, taken)
    ensures r.None? ==> forall e :: !Fails(e, form, taken)
  {
    if Text.Utf8Len(form.username) < 3 then Some(UsernameTooShort)
    else if Text.Utf8Len(form.password) < 6 then Some(PasswordTooShort)
    else if form.password != form.confirmPassword then Some(PasswordMismatch)
    else if taken then Some(UsernameAlreadyTaken)
    else None
  }

  datatype RegisterOutcome = RegisterRejected(error: RegisterError) | Registered(session: string)

  /**
   * `register`: the input checks first; then hashing the password, then the
   * insert, both of which fail with "Failed to create account". Every failure
   * leaves the users table as it was. On success the new row takes the next
   * AUTOINCREMENT id and the session handed out resolves to it.
   */
  method Register(db: Store, form: RegisterForm, hash: string -> Option<string>, now: int)
    returns (r: RegisterOutcome)
    requires db.Valid()
    modifies db
    ensures db.Valid() && db.pastes == old(db.pastes)
    ensures var check := ValidateRegistration(form, UsernameTaken(old(db.users), form.username));
      && (check.Some? ==> r == RegisterRejected(check.value))
      && (check.None? && hash(form.password).None? ==> r == RegisterRejected(AccountCreationFailed))
      && (check.None? && r.RegisterRejected? ==> r.error == AccountCreationFailed)
      && (r.Registered? <==> check.None? && hash(form.password).Some? && old(db.nextUserId) <= Text.I64Max)
    ensures r.RegisterRejected? ==> db.users == old(db.users) && db.nextUserId == old(db.nextUserId)
    ensures r.Registered? ==>
      var uid := old(db.nextUserId);
      var user := User(uid, form.username, hash(form.password).value, now);
      && uid !in old(db.users)
      && db.users == old(db.users)[uid := user]
      && db.nextUserId == uid + 1
      && r.session == Text.FormatInt(uid)
      && CurrentUser(db, Some(r.session)) == Some(user)
  {
    var taken := UsernameTaken(db.users, form.username);
    var check := ValidateRegistration(form, taken);
    if check.Some? {
      return RegisterRejected(check.value);
    }
    var passwordHash := hash(form.password);
    if passwordHash.None? {
      return RegisterRejected(AccountCreationFailed);
    }
    var id := db.InsertUser(form.username, passwordHash.value, now);
    if id.None? {
      return RegisterRejected(AccountCreationFailed);
    }
    SessionRoundTrip(db, id.value);
    r := Registered(Text.FormatInt(id.value));
  }

  /** A name shorter than three bytes is refused for its length, before the table is even asked. */
  lemma ShortUsernameFirst(form: RegisterForm, taken: bool)
    requires Text.Utf8Len(form.username) < 3
    ensures ValidateRegistration(form, taken) == Some(UsernameTooShort)
  {
  }
}
