/** The account handlers: registration, login, logout and the password-reset and
    password-change flows. Each handler is a function from the store, the clock and
    the request fields to the response and the new store. A request field that is
    absent is the empty string, which JavaScript treats as false just like
    `undefined`, except for forgot-password, whose email goes straight into a query
    where `undefined` and the empty string differ. */
module Auth {
  import opened Seqs
  import opened JsText
  import opened EmailPattern
  import opened Crypto
  import opened UserSchema
  import opened Store
  import opened Http

  /** `generateToken(id)`: the signed session token of a user. */
  function SessionToken(c: Primitives, id: UserId): string {
    c.sign(id)
  }

  /** The response of a successful registration or login for `u`: its public fields,
      its session token and the cookie carrying that token for one day. */
  function SignedIn(c: Primitives, u: User, status: int, now: int): Reply {
    var token := SessionToken(c, u.id);
    Success(status, Account(ProfileOf(u), token), Some(SessionCookie(token, now + SessionMillis)))
  }

  /** `registerUser`. `freshId` is the `_id` the store assigns to the new document. */
  function Register(c: Primitives, db: Db, now: int, freshId: UserId, name: string, email: string, password: string): (s: Step)
    requires FindById(db.users, freshId).None?
    ensures s.reply.Failure? ==> s.db == db
    ensures name == "" || email == "" || password == "" ==> s.reply == Failure(400, MissingFields)
    ensures name != "" && email != "" && password != "" && |password| < MinPasswordLength ==>
      s.reply == Failure(400, ShortPassword)
    ensures name != "" && email != "" && |password| >= MinPasswordLength && FindByEmail(db.users, Trim(email)).Some? ==>
      s.reply == Failure(400, EmailTaken)
    ensures s.reply.Success? <==>
      name != "" && ValidEmail(Trim(email)) && |password| >= MinPasswordLength && FindByEmail(db.users, Trim(email)).None?
    ensures (
      && name != "" && email != "" && |password| >= MinPasswordLength && FindByEmail(db.users, Trim(email)).None?
      && !ValidEmail(Trim(email))) ==> s.reply == Failure(UnsetStatus, ValidationFailed)
    ensures s.reply.Success? ==>
      var u := User(freshId, name, Trim(email), c.hash(password), DefaultProfilePic, DefaultBio);
      s.db == Db(db.users + [u], db.tokens) && s.reply == SignedIn(c, u, 201, now)
  {
    if name == "" || email == "" || password == "" then Step(Failure(400, MissingFields), db)
    else if |password| < MinPasswordLength then Step(Failure(400, ShortPassword), db)
    else if FindByEmail(db.users, Trim(email)).Some? then Step(Failure(400, EmailTaken), db)
    else
      match Save(c, Create(freshId, name, email, password))
      case Invalid(_) => Step(Failure(UnsetStatus, ValidationFailed), db)
      case Saved(u) => Step(SignedIn(c, u, 201, now), Db(db.users + [u], db.tokens))
  }

  /** `loginUser`. It never changes the store; a successful login answers with the
      account of the user stored under the trimmed email, whose digest matches the
      password. */
  function Login(c: Primitives, db: Db, now: int, email: string, password: string): (s: Step)
    ensures s.db == db
    ensures s.reply.Failure? ==> s.reply.status == 400
    ensures email == "" || password == "" ==> s.reply == Failure(400, MissingCredentials)
    ensures email != "" && password != "" && FindByEmail(db.users, Trim(email)).None? ==>
      s.reply == Failure(400, UnknownUser)
    ensures s.reply.Success? <==>
      email != "" && password != "" && FindByEmail(db.users, Trim(email)).Some?
      && Verify(c, password, db.users[FindByEmail(db.users, Trim(email)).value].password)
    ensures s.reply.Success? ==> exists i :: (
      && 0 <= i < |db.users| && db.users[i].email == Trim(email)
      && Verify(c, password, db.users[i].password) && s.reply == SignedIn(c, db.users[i], 200, now))
    ensures s.reply == Failure(400, BadCredentials) ==> exists i :: (
      && 0 <= i < |db.users| && db.users[i].email == Trim(email)
      && !Verify(c, password, db.users[i].password))
  {
    if email == "" || password == "" then Step(Failure(400, MissingCredentials), db)
    else
      match FindByEmail(db.users, Trim(email))
      case None => Step(Failure(400, UnknownUser), db)
      case Some(i) =>
        if Verify(c, password, db.users[i].password) then Step(SignedIn(c, db.users[i], 200, now), db)
        else Step(Failure(400, BadCredentials), db)
  }

  /** A login with both fields given is decided by the user the trimmed email finds:
      the account when the password matches that user's digest, and 400 otherwise. */
  lemma LoginOutcome(c: Primitives, db: Db, now: int, email: string, password: string, j: nat)
    requires email != "" && password != "" && FindByEmail(db.users, Trim(email)) == Some(j)
    ensures Verify(c, password, db.users[j].password) ==> Login(c, db, now, email, password).reply == SignedIn(c, db.users[j], 200, now)
    ensures !Verify(c, password, db.users[j].password) ==> Login(c, db, now, email, password).reply == Failure(400, BadCredentials)
  {
  }

  /** `logout`: the cookie is overwritten with an expired empty one; nothing else
      changes. */
  function Logout(db: Db): (s: Step)
    ensures s.db == db
    ensures s.reply.Success? && s.reply.status == 200 && s.reply.cookie == Some(ClearedCookie)
  {
    Step(Success(200, Note(LoggedOut), Some(ClearedCookie)), db)
  }

  /** The row forgot-password stores for user `u` at time `now`: the digest of the
      secret mailed to the user, expiring thirty minutes later. */
  function ResetRow(c: Primitives, u: User, random: seq<byte>, now: int): (row: TokenRow)
    requires |random| == RandomBytes
    ensures row.userId == u.id && Issued(c, row) && row.createdAt == now && row.expiresAt == now + ResetWindow
  {
    TokenRow(u.id, c.sha(ResetSecret(random, u.id)), now, now + ResetWindow)
  }

  /** The user `User.findOne({ email })` returns. A given email is trimmed and
      matched; without one the filter has no condition at all and the first stored
      user is returned. */
  function Recipient(users: seq<User>, email: Option<string>): (r: Option<nat>)
    ensures r.Some? ==> r.value < |users|
    ensures email.Some? ==> r == FindByEmail(users, Trim(email.value))
    ensures email.None? ==> r == (if users == [] then None else Some(0))
  {
    match email
    case Some(e) => FindByEmail(users, Trim(e))
    case None => if users == [] then None else Some(0)
  }

  /** `forgotPassword`. `random` is what `randomBytes(32)` returns and `delivered`
      whether `sendEmail` resolved. The new row is stored before the email is sent,
      so it stays even when delivery fails. The email is `None` when the request has
      none. */
  function ForgotPassword(c: Primitives, db: Db, now: int, random: seq<byte>, delivered: bool, email: Option<string>): (s: Step)
    requires |random| == RandomBytes
    ensures s.db.users == db.users
    ensures Recipient(db.users, email).None? <==> s.reply == Failure(404, NoSuchUser)
    ensures Recipient(db.users, email).None? ==> s.db == db
    ensures Recipient(db.users, email).Some? ==>
      var u := db.users[Recipient(db.users, email).value];
      var row := TokenRow(u.id, c.sha(ResetSecret(random, u.id)), now, now + ResetWindow);
      && RowsOf(s.db.tokens, u.id) == DropOldest(RowsOf(db.tokens, u.id)) + [row]
      && (forall v :: v != u.id ==> RowsOf(s.db.tokens, v) == RowsOf(db.tokens, v))
      && s.reply == (if delivered then Success(200, Note(ResetSent), None) else Failure(500, EmailNotSent))
  {
    match Recipient(db.users, email)
    case None => Step(Failure(404, NoSuchUser), db)
    case Some(i) =>
      var after := Db(db.users, Reissue(db.tokens, ResetRow(c, db.users[i], random, now)));
      if delivered then Step(Success(200, Note(ResetSent), None), after)
      else Step(Failure(500, EmailNotSent), after)
  }

  /** `resetPassword`. The token rows are never touched: the row that was redeemed
      stays and can be redeemed again until it expires. */
  function ResetPassword(c: Primitives, db: Db, now: int, secret: string, password: string): (s: Step)
    ensures s.db.tokens == db.tokens
    ensures s.reply.Failure? ==> s.db == db
    ensures FindLive(db.tokens, c.sha(secret), now).None? <==> s.reply == Failure(404, BadResetToken)
    ensures s.reply.Success? <==> (
      && FindLive(db.tokens, c.sha(secret), now).Some?
      && FindById(db.users, db.tokens[FindLive(db.tokens, c.sha(secret), now).value].userId).Some?
      && var u := db.users[FindById(db.users, db.tokens[FindLive(db.tokens, c.sha(secret), now).value].userId).value];
         WellFormed(u) && PasswordAccepted(u.password, password))
    ensures (
      && FindLive(db.tokens, c.sha(secret), now).Some?
      && FindById(db.users, db.tokens[FindLive(db.tokens, c.sha(secret), now).value].userId).None?) ==>
      s.reply == Failure(UnsetStatus, NullUser)
    ensures (
      && FindLive(db.tokens, c.sha(secret), now).Some?
      && FindById(db.users, db.tokens[FindLive(db.tokens, c.sha(secret), now).value].userId).Some?
      && var u := db.users[FindById(db.users, db.tokens[FindLive(db.tokens, c.sha(secret), now).value].userId).value];
         !(WellFormed(u) && PasswordAccepted(u.password, password))) ==>
      s.reply == Failure(UnsetStatus, ValidationFailed)
    ensures s.reply.Success? ==> s.reply == Success(200, Note(ResetDone), None)
    ensures s.reply.Success? ==> exists k, i ::
      && FindLive(db.tokens, c.sha(secret), now) == Some(k) && Redeems(db.tokens[k], c.sha(secret), now)
      && FindById(db.users, db.tokens[k].userId) == Some(i) && db.users[i].id == db.tokens[k].userId
      && PasswordAccepted(db.users[i].password, password)
      && PasswordReplaced(c, db.users, s.db.users, i, password)
  {
    match FindLive(db.tokens, c.sha(secret), now)
    case None => Step(Failure(404, BadResetToken), db)
    case Some(k) =>
      match FindById(db.users, db.tokens[k].userId)
      case None => Step(Failure(UnsetStatus, NullUser), db)
      case Some(i) =>
        AssignedSave(c, db.users[i], password);
        match Save(c, Assign(db.users[i], password))
        case Invalid(_) => Step(Failure(UnsetStatus, ValidationFailed), db)
        case Saved(u) =>
          assert Redeems(db.tokens[k], c.sha(secret), now) && PasswordReplaced(c, db.users, db.users[i := u], i, password);
          Step(Success(200, Note(ResetDone), None), Db(db.users[i := u], db.tokens))
  }

  /** `changePassword` for the authenticated user `caller`. */
  function ChangePassword(c: Primitives, db: Db, caller: UserId, oldPassword: string, password: string): (s: Step)
    ensures s.db.tokens == db.tokens
    ensures s.reply.Failure? ==> s.db == db
    ensures FindById(db.users, caller).None? ==> s.reply == Failure(400, ChangeNoUser)
    ensures FindById(db.users, caller).Some? && (oldPassword == "" || password == "") ==>
      s.reply == Failure(400, MissingPasswords)
    ensures FindById(db.users, caller).Some? && oldPassword != "" && oldPassword == password ==>
      s.reply == Failure(400, SamePasswords)
    ensures (
      && FindById(db.users, caller).Some? && oldPassword != "" && password != "" && oldPassword != password
      && !Verify(c, oldPassword, db.users[FindById(db.users, caller).value].password)) ==>
      s.reply == Failure(400, WrongOldPassword)
    ensures s.reply.Success? <==> (
      && FindById(db.users, caller).Some?
      && oldPassword != "" && password != "" && oldPassword != password
      && var u := db.users[FindById(db.users, caller).value];
         Verify(c, oldPassword, u.password) && WellFormed(u) && PasswordAccepted(u.password, password))
    ensures (
      && FindById(db.users, caller).Some?
      && oldPassword != "" && password != "" && oldPassword != password
      && var u := db.users[FindById(db.users, caller).value];
         Verify(c, oldPassword, u.password) && !(WellFormed(u) && PasswordAccepted(u.password, password))) ==>
      s.reply == Failure(UnsetStatus, ValidationFailed)
    ensures s.reply.Success? ==> s.reply == Success(200, Note(PasswordChanged), None)
    ensures s.reply.Success? ==> exists i :: (
      && FindById(db.users, caller) == Some(i) && db.users[i].id == caller
      && Verify(c, oldPassword, db.users[i].password) && PasswordAccepted(db.users[i].password, password)
      && PasswordReplaced(c, db.users, s.db.users, i, password))
  {
    match FindById(db.users, caller)
    case None => Step(Failure(400, ChangeNoUser), db)
    case Some(i) =>
      if oldPassword == "" || password == "" then Step(Failure(400, MissingPasswords), db)
      else if oldPassword == password then Step(Failure(400, SamePasswords), db)
      else if !Verify(c, oldPassword, db.users[i].password) then Step(Failure(400, WrongOldPassword), db)
      else
        AssignedSave(c, db.users[i], password);
        match Save(c, Assign(db.users[i], password))
        case Invalid(_) => Step(Failure(UnsetStatus, ValidationFailed), db)
        case Saved(u) =>
          assert PasswordReplaced(c, db.users, db.users[i := u], i, password);
          Step(Success(200, Note(PasswordChanged), None), Db(db.users[i := u], db.tokens))
  }
}
