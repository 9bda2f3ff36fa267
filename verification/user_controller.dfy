/**
 * postSignUp and postLogin of controllers/userController.js: the sanitizing
 * validators, the normalized-email lookup, the duplicate-email refusal, the
 * creation of the user (whose password the pre-save hook hashes), and the
 * login lookup that sets `req.session.userId`.
 */
module UserController {
  import opened Common
  import opened Text
  import opened Lists
  import opened UserModel
  import opened Store

  /** The four signup validators, each with the message it reports. */
  datatype SignupCheck = FirstNameRequired | LastNameRequired | InvalidEmail | PasswordLength
  {
    function Message(): string
    {
      match this
      case FirstNameRequired => "First name is required"
      case LastNameRequired => "Last name is required"
      case InvalidEmail => "Invalid email"
      case PasswordLength => "Password must be between 8 and 64 characters long"
    }
  }

  /** The signup form as posted. */
  datatype SignupForm = SignupForm(firstName: string, lastName: string, email: string, password: string)

  /** 400 with the validators' messages, 400 "Email is already in use", the redirect to login, or `next(err)`. */
  datatype SignupReply = Rejected(failed: seq<SignupCheck>) | EmailInUse | Registered | SignupFailed

  /** The first and last name after the `trim().escape()` sanitizers. */
  function SanitizedFirstName(f: SignupForm, ext: Externals): string
  {
    ext.escape(Trim(f.firstName))
  }

  function SanitizedLastName(f: SignupForm, ext: Externals): string
  {
    ext.escape(Trim(f.lastName))
  }

  /** The email after `trim().normalizeEmail()`: what `isEmail` checks. */
  function SanitizedEmail(f: SignupForm, ext: Externals): string
  {
    ext.normalizeEmail(Trim(f.email))
  }

  /**
   * `validationResult(req)`: the failing validators, in the order the chains are
   * declared; the page lists their messages.
   */
  function SignupMessages(f: SignupForm, ext: Externals): (msgs: seq<SignupCheck>)
    ensures FirstNameRequired in msgs <==> SanitizedFirstName(f, ext) == ""
    ensures LastNameRequired in msgs <==> SanitizedLastName(f, ext) == ""
    ensures InvalidEmail in msgs <==> !ext.isEmail(SanitizedEmail(f, ext))
    ensures PasswordLength in msgs <==> !(MinPasswordLength <= |f.password| <= MaxPasswordLength)
    ensures NoDuplicates(msgs)
  {
    (if SanitizedFirstName(f, ext) == "" then [FirstNameRequired] else [])
    + (if SanitizedLastName(f, ext) == "" then [LastNameRequired] else [])
    + (if !ext.isEmail(SanitizedEmail(f, ext)) then [InvalidEmail] else [])
    + (if !(MinPasswordLength <= |f.password| <= MaxPasswordLength) then [PasswordLength] else [])
  }

  /** `(req.body.email || '').toLowerCase().trim()`, applied to the sanitized email. */
  function SignupKey(f: SignupForm, ext: Externals): (key: string)
    ensures IsTrimmed(key) && Lower(key) == key
  {
    NormalizedEmail(SanitizedEmail(f, ext))
  }

  /** The document `new User({ firstName, lastName, email, password })` builds, if it validates. */
  function NewUser(f: SignupForm, ext: Externals): Option<User>
  {
    UserModel.Validate(SanitizedFirstName(f, ext), SanitizedLastName(f, ext), SignupKey(f, ext), f.password, ext)
  }

  /**
   * postSignUp. `salt` stands for `bcrypt.genSalt(10)` and `newId` for the id
   * the new document receives. A signup that is refused, or whose save fails,
   * changes nothing; a successful one adds exactly one user, whose email is the
   * normalized key and whose password is the hash of the submitted one.
   */
  function SignUpEffect(db: Db, f: SignupForm, salt: string, newId: UserId, ext: Externals): (r: Effect<SignupReply>)
    requires UniqueEmails(db.users) && Unused(db, newId)
    ensures r.reply.Rejected? <==> SignupMessages(f, ext) != []
    ensures r.reply.Rejected? ==> r.reply.failed == SignupMessages(f, ext)
    ensures r.reply == EmailInUse <==>
              SignupMessages(f, ext) == [] && exists u :: u in db.users && db.users[u].email == SignupKey(f, ext)
    ensures r.reply == Registered <==>
              && SignupMessages(f, ext) == []
              && (forall u :: u in db.users ==> db.users[u].email != SignupKey(f, ext))
              && NewUser(f, ext).Some?
    ensures r.reply != Registered ==> r.db == db
    ensures r.reply == Registered ==>
              && r.db.events == db.events && r.db.rsvps == db.rsvps
              && r.db.users.Keys == db.users.Keys + {newId}
              && (forall u :: u in db.users ==> r.db.users[u] == db.users[u])
              && r.db.users[newId] == NewUser(f, ext).value.(password := ext.hash(f.password, salt))
              && r.db.users[newId].email == SignupKey(f, ext)
              && r.db.users[newId].events == [] && r.db.users[newId].rsvps == []
    ensures UniqueEmails(r.db.users)
    ensures Invariant(db) ==> Invariant(r.db)
  {
    var msgs := SignupMessages(f, ext);
    if msgs != [] then Effect(Rejected(msgs), db)
    else
      var key := SignupKey(f, ext);
      if FindByEmail(db.users, key).Some? then Effect(EmailInUse, db)
      else
        match NewUser(f, ext)
        case None => Effect(SignupFailed, db)
        case Some(u) =>
          NormalizedEmailIdempotent(SanitizedEmail(f, ext));
          var stored := u.(password := ext.hash(f.password, salt));
          var db1 := db.(users := db.users[newId := stored]);
          AddUserKeepsInvariant(db, newId, stored);
          Effect(Registered, db1)
  }

  /** Adding a user with no list entries under an unused id and a new email keeps the invariant. */
  lemma AddUserKeepsInvariant(db: Db, id: UserId, u: User)
    requires UniqueEmails(db.users) && Unused(db, id)
    requires u.events == [] && u.rsvps == []
    requires forall v :: v in db.users ==> db.users[v].email != u.email
    ensures UniqueEmails(db.users[id := u])
    ensures Invariant(db) ==> Invariant(db.(users := db.users[id := u]))
  {
    var users := db.users[id := u];
    forall u1, u2 | u1 in users && u2 in users && u1 != u2
      ensures users[u1].email != users[u2].email
    {
      if u1 != id && u2 != id {
        assert users[u1] == db.users[u1] && users[u2] == db.users[u2];
      }
    }
  }

  method SignUp(store: Store, f: SignupForm, salt: string, newId: UserId, ext: Externals) returns (reply: SignupReply)
    requires UniqueEmails(store.users) && Unused(store.Snapshot(), newId)
    modifies store
    ensures reply == SignUpEffect(old(store.Snapshot()), f, salt, newId, ext).reply
    ensures store.Snapshot() == SignUpEffect(old(store.Snapshot()), f, salt, newId, ext).db
  {
    var msgs := SignupMessages(f, ext);
    if msgs != [] {
      return Rejected(msgs);
    }
    var email := NormalizedEmail(SanitizedEmail(f, ext));
    var existing := FindByEmail(store.users, email);
    if existing.Some? {
      return EmailInUse;
    }
    var u := UserModel.Validate(SanitizedFirstName(f, ext), SanitizedLastName(f, ext), email, f.password, ext);
    if u.None? {
      return SignupFailed;
    }
    var doc := new UserDocument.Create(u.value);
    doc.Save(salt, ext);
    store.SaveUser(newId, doc.user);
    reply := Registered;
  }

  /** The login form as posted; either field may be missing. */
  datatype LoginForm = LoginForm(email: Option<string>, password: Option<string>)

  /**
   * "Invalid email or password" with a redirect back, the redirect to the
   * profile, or `next(err)` when `bcrypt.compare` throws on a missing password.
   */
  datatype LoginReply = LoginRejected | LoggedIn | LoginFailed

  /** `(req.body.email || '').toLowerCase().trim()` */
  function LoginKey(f: LoginForm): (key: string)
    ensures IsTrimmed(key) && Lower(key) == key
    ensures f.email.None? ==> key == ""
  {
    NormalizedEmail(if f.email.Some? then f.email.value else "")
  }

  /**
   * postLogin. It reads the users and changes only the session: a failed login,
   * whatever the reason, leaves the session as it was; a successful one holds the
   * matched user's id.
   */
  function LoginEffect(users: map<UserId, User>, s: Session, f: LoginForm, ext: Externals): (r: (LoginReply, Session))
    requires UniqueEmails(users)
    ensures r.0 != LoggedIn ==> r.1 == s
    ensures (forall u :: u in users ==> users[u].email != LoginKey(f)) ==> r.0 == LoginRejected
    ensures r.0 == LoggedIn ==>
              exists u :: && u in users && users[u].email == LoginKey(f) && r.1 == Session(Some(u))
                          && f.password.Some? && ext.compare(f.password.value, users[u].password)
    ensures r.0 == LoginFailed ==> f.password.None?
    ensures forall u :: u in users && users[u].email == LoginKey(f) ==>
              && (f.password.None? ==> r.0 == LoginFailed)
              && (f.password.Some? && !ext.compare(f.password.value, users[u].password) ==> r.0 == LoginRejected)
              && (f.password.Some? && ext.compare(f.password.value, users[u].password) ==>
                    r == (LoggedIn, Session(Some(u))))
  {
    match FindByEmail(users, LoginKey(f))
    case None => (LoginRejected, s)
    case Some(u) =>
      if f.password.None? then (LoginFailed, s)
      else if !ext.compare(f.password.value, users[u].password) then (LoginRejected, s)
      else (LoggedIn, Session(Some(u)))
  }

  /**
   * Whatever the case and surrounding blanks of the email typed at signup, a
   * second signup whose email normalizes to the same key is refused.
   */
  lemma SecondSignupRefused(db: Db, f1: SignupForm, f2: SignupForm, salt: string, newId: UserId, newId2: UserId,
                            ext: Externals)
    requires UniqueEmails(db.users) && Unused(db, newId)
    requires SignUpEffect(db, f1, salt, newId, ext).reply == Registered
    requires Unused(SignUpEffect(db, f1, salt, newId, ext).db, newId2)
    requires SignupMessages(f2, ext) == [] && SignupKey(f2, ext) == SignupKey(f1, ext)
    ensures var db1 := SignUpEffect(db, f1, salt, newId, ext).db;
            SignUpEffect(db1, f2, salt, newId2, ext) == Effect(EmailInUse, db1)
  {
    var db1 := SignUpEffect(db, f1, salt, newId, ext).db;
    assert newId in db1.users && db1.users[newId].email == SignupKey(f2, ext);
  }

  /**
   * A user who has just signed up logs in with any spelling of their email that
   * normalizes to the stored one and a password that `bcrypt.compare` accepts
   * against the stored hash.
   */
  lemma LoginAfterSignup(db: Db, f: SignupForm, salt: string, newId: UserId, s: Session, login: LoginForm,
                         ext: Externals)
    requires UniqueEmails(db.users) && Unused(db, newId)
    requires SignUpEffect(db, f, salt, newId, ext).reply == Registered
    requires LoginKey(login) == SignupKey(f, ext)
    requires login.password.Some? && ext.compare(login.password.value, ext.hash(f.password, salt))
    ensures LoginEffect(SignUpEffect(db, f, salt, newId, ext).db.users, s, login, ext) == (LoggedIn, Session(Some(newId)))
  {
    var db1 := SignUpEffect(db, f, salt, newId, ext).db;
    assert newId in db1.users && db1.users[newId].email == LoginKey(login);
    assert db1.users[newId].password == ext.hash(f.password, salt);
  }
}
