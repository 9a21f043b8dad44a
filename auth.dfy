/**
 * The account screens (ui/auth/SignupActivity.kt, ui/auth/LoginActivity.kt):
 * the button handlers, from the raw text of the fields to the write they make.
 * The digest `PasswordUtils.hashPassword` applies is a parameter.
 */
module Auth {
  import opened Wrappers
  import opened Text
  import opened TaskDatabase
  import opened Session
  import opened PasswordUtils

  /** The shortest password the signup screen accepts. */
  const MinPasswordLength: int := 6

  datatype SignupOutcome =
    | SignupFieldsMissing
    | PasswordTooShort
    | AccountCreated(userId: int)
    | SignupFailed

  /** The checks the create-account button makes before touching the table, on trimmed fields.
      The password's length is Kotlin's, in UTF-16 code units. */
  function SignupRejection(email: string, password: string): (r: Option<SignupOutcome>)
    ensures r == Some(SignupFieldsMissing) <==> email == [] || password == []
    ensures r == Some(PasswordTooShort) <==> email != [] && password != [] && Utf16Length(password) < MinPasswordLength
    ensures r == None <==> email != [] && Utf16Length(password) >= MinPasswordLength
  {
    if email == [] || password == [] then Some(SignupFieldsMissing)
    else if Utf16Length(password) < MinPasswordLength then Some(PasswordTooShort)
    else None
  }

  /** Three characters outside the Basic Multilingual Plane are six code units, so such a password
      passes the length check although it has only three characters. */
  lemma ThreeEmojiPasswordAccepted(email: string)
    requires email != []
    ensures SignupRejection(email, "\U{1F600}\U{1F600}\U{1F600}") == None
  {
    var p := "\U{1F600}\U{1F600}\U{1F600}";
    assert p[1..][1..][1..] == [];
    assert Utf16Length(p) == 6;
  }

  /** The create-account button. Only an accepted form reaches the table; the email and name are
      stored trimmed and the password as the hash of its trimmed text. */
  method CreateAccount(db: TaskDatabaseHelper, digest: string -> seq<Byte>,
                       emailText: string, passwordText: string, nameText: string)
    returns (outcome: SignupOutcome)
    requires db.Valid()
    modifies db`users, db`nextUserId
    ensures db.Valid()
    ensures var email, password := Trim(emailText), Trim(passwordText);
      match SignupRejection(email, password)
      case Some(rejection) => outcome == rejection && db.users == old(db.users) && db.nextUserId == old(db.nextUserId)
      case None =>
        && (outcome == SignupFailed <==> exists uid :: uid in old(db.users) && old(db.users)[uid].email == email)
        && (outcome == SignupFailed || outcome.AccountCreated?)
        && (outcome == SignupFailed ==> db.users == old(db.users))
        && (outcome.AccountCreated? ==> outcome.userId !in old(db.users))
        && (outcome.AccountCreated? ==>
              db.users == old(db.users)[outcome.userId :=
                UserRow(outcome.userId, email, HashPassword(digest, password), Trim(nameText))])
    ensures outcome.AccountCreated? ==> db.ValidateUser(Trim(emailText), HashPassword(digest, Trim(passwordText)))
  {
    var email := Trim(emailText);
    var password := Trim(passwordText);
    var name := Trim(nameText);
    if email == [] || password == [] {
      return SignupFieldsMissing;
    }
    if Utf16Length(password) < MinPasswordLength {
      return PasswordTooShort;
    }
    var hashedPassword := HashPassword(digest, password);
    var result := db.InsertUser(email, hashedPassword, name);
    if result != -1 {
      outcome := AccountCreated(result);
      assert db.users[result].email == email && db.users[result].password == hashedPassword;
    } else {
      outcome := SignupFailed;
    }
  }

  datatype LoginOutcome = LoginFieldsMissing | InvalidCredentials | LoggedIn

  /** The login button. Valid credentials save the matching user's id and the typed email in the
      session; anything else leaves the session as it was. */
  method Login(db: TaskDatabaseHelper, session: SessionManager, digest: string -> seq<Byte>,
               emailText: string, passwordText: string)
    returns (outcome: LoginOutcome)
    requires db.Valid() && session.Valid()
    modifies session
    ensures session.Valid()
    ensures var email, password := Trim(emailText), Trim(passwordText);
      && (outcome == LoginFieldsMissing <==> email == [] || password == [])
      && (outcome == LoggedIn <==> email != [] && password != [] && db.ValidateUser(email, HashPassword(digest, password)))
      && (outcome != LoggedIn ==> session.prefs == old(session.prefs))
      && (outcome == LoggedIn ==>
            exists uid :: uid in db.users && db.users[uid].email == email &&
              session.prefs == SessionSaved(old(session.prefs), uid, email))
  {
    var email := Trim(emailText);
    var password := Trim(passwordText);
    if email == [] || password == [] {
      return LoginFieldsMissing;
    }
    var hashedPassword := HashPassword(digest, password);
    var valid := db.ValidateUser(email, hashedPassword);
    if valid {
      var user := db.GetUserByEmail(email);
      if user.Some? {
        session.SaveUserSession(user.value.id, email);
      }
      outcome := LoggedIn;
    } else {
      outcome := InvalidCredentials;
    }
  }

  /** Signing up and then logging in with the same typed fields logs in as the new account. */
  method SignupThenLogin(db: TaskDatabaseHelper, session: SessionManager, digest: string -> seq<Byte>,
                         emailText: string, passwordText: string, nameText: string)
    returns (signup: SignupOutcome, login: LoginOutcome)
    requires db.Valid() && session.Valid()
    modifies db`users, db`nextUserId, session
    ensures db.Valid() && session.Valid()
    ensures signup.AccountCreated? ==> login == LoggedIn
    ensures signup.AccountCreated? ==> session.GetUserId() == (if signup.userId != NoUserId then Some(signup.userId) else None)
  {
    signup := CreateAccount(db, digest, emailText, passwordText, nameText);
    login := Login(db, session, digest, emailText, passwordText);
    if signup.AccountCreated? {
      SavedSessionReadsBack(old(session.prefs), signup.userId, Trim(emailText));
    }
  }
}
