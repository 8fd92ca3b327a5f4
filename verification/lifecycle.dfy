/** Properties that relate several handler calls: the store invariant every
    handler keeps, the life of a reset secret, and what a later login, profile read
    or search sees after an earlier call. */
module Lifecycle {
  import opened Seqs
  import opened JsText
  import opened EmailPattern
  import opened Crypto
  import opened UserSchema
  import opened Store
  import opened Http
  import opened Auth
  import opened Profiles

  /** No two plaintexts share a digest. */
  ghost predicate Injective(f: string -> string) {
    forall a, b :: f(a) == f(b) ==> a == b
  }

  // ---------------------------------------------------------------- the invariant

  lemma ReplaceUserKeepsUsersOk(users: seq<User>, i: nat, v: User)
    requires UsersOk(users) && i < |users|
    requires v.id == users[i].id && v.email == users[i].email && WellFormed(v)
    ensures UsersOk(users[i := v])
  {
  }

  lemma ReplaceUserKeepsOwners(users: seq<User>, tokens: seq<TokenRow>, i: nat, v: User)
    requires RowsOwned(users, tokens) && i < |users| && v.id == users[i].id
    ensures RowsOwned(users[i := v], tokens)
  {
    SameIds(users, users[i := v]);
  }

  /** Replacing one user by a well-formed document with the same id and email keeps
      the store valid. */
  lemma ReplaceUserKeepsValid(c: Primitives, db: Db, i: nat, v: User)
    requires Valid(c, db) && i < |db.users|
    requires v.id == db.users[i].id && v.email == db.users[i].email && WellFormed(v)
    ensures Valid(c, Db(db.users[i := v], db.tokens))
  {
    ReplaceUserKeepsUsersOk(db.users, i, v);
    ReplaceUserKeepsOwners(db.users, db.tokens, i, v);
  }

  lemma AppendUserKeepsUnique(users: seq<User>, u: User)
    requires UniqueIds(users) && UniqueEmails(users)
    requires FindById(users, u.id).None? && FindByEmail(users, u.email).None?
    ensures UniqueIds(users + [u]) && UniqueEmails(users + [u])
  {
    var w := users + [u];
    forall i, j | 0 <= i < j < |w|
      ensures w[i].id != w[j].id && w[i].email != w[j].email
    {
      assert w[i] == users[i];
      if j < |users| {
        assert w[j] == users[j];
      }
    }
  }

  lemma AppendUserKeepsUsersOk(users: seq<User>, u: User)
    requires UsersOk(users) && WellFormed(u)
    requires FindById(users, u.id).None? && FindByEmail(users, u.email).None?
    ensures UsersOk(users + [u])
  {
    AppendUserKeepsUnique(users, u);
    var w := users + [u];
    forall i | 0 <= i < |w|
      ensures WellFormed(w[i])
    {
      if i < |users| {
        assert w[i] == users[i];
      }
    }
  }

  lemma AppendUserKeepsOwners(users: seq<User>, tokens: seq<TokenRow>, u: User)
    requires RowsOwned(users, tokens)
    ensures RowsOwned(users + [u], tokens)
  {
    forall k | 0 <= k < |tokens|
      ensures FindById(users + [u], tokens[k].userId).Some?
    {
      var j := FindById(users, tokens[k].userId).value;
      assert (users + [u])[j].id == tokens[k].userId;
    }
  }

  lemma RegisterKeepsValid(c: Primitives, db: Db, now: int, freshId: UserId, name: string, email: string, password: string)
    requires Valid(c, db) && FindById(db.users, freshId).None?
    ensures Valid(c, Register(c, db, now, freshId, name, email, password).db)
  {
    var s := Register(c, db, now, freshId, name, email, password);
    if s.reply.Success? {
      var u := User(freshId, name, Trim(email), c.hash(password), DefaultProfilePic, DefaultBio);
      assert s.db == Db(db.users + [u], db.tokens);
      AppendUserKeepsUsersOk(db.users, u);
      AppendUserKeepsOwners(db.users, db.tokens, u);
    }
  }

  lemma ReissueKeepsRowsOk(c: Primitives, tokens: seq<TokenRow>, row: TokenRow)
    requires RowsOk(c, tokens) && Issued(c, row) && row.expiresAt == row.createdAt + ResetWindow
    ensures RowsOk(c, Reissue(tokens, row))
  {
    var after := Reissue(tokens, row);
    forall k | 0 <= k < |after|
      ensures Issued(c, after[k]) && after[k].expiresAt == after[k].createdAt + ResetWindow
    {
      if k < |after| - 1 {
        var j :| 0 <= j < |tokens| && tokens[j] == after[k];
        assert Issued(c, tokens[j]);
      }
    }
  }

  lemma ReissueKeepsOwners(users: seq<User>, tokens: seq<TokenRow>, row: TokenRow)
    requires RowsOwned(users, tokens) && FindById(users, row.userId).Some?
    ensures RowsOwned(users, Reissue(tokens, row))
  {
    var after := Reissue(tokens, row);
    forall k | 0 <= k < |after| - 1
      ensures FindById(users, after[k].userId).Some?
    {
      var j :| 0 <= j < |tokens| && tokens[j] == after[k];
    }
  }

  lemma ForgotKeepsValid(c: Primitives, db: Db, now: int, random: seq<byte>, delivered: bool, email: Option<string>)
    requires Valid(c, db) && |random| == RandomBytes
    ensures Valid(c, ForgotPassword(c, db, now, random, delivered, email).db)
  {
    match Recipient(db.users, email)
    case None =>
    case Some(i) =>
      var row := ResetRow(c, db.users[i], random, now);
      assert ForgotPassword(c, db, now, random, delivered, email).db == Db(db.users, Reissue(db.tokens, row));
      assert db.users[i].id == row.userId;
      ReissueKeepsRowsOk(c, db.tokens, row);
      ReissueKeepsOwners(db.users, db.tokens, row);
  }

  lemma ResetKeepsValid(c: Primitives, db: Db, now: int, secret: string, password: string)
    requires Valid(c, db)
    ensures Valid(c, ResetPassword(c, db, now, secret, password).db)
  {
    var s := ResetPassword(c, db, now, secret, password);
    if s.reply.Success? {
      var i := ResetOwner(c, db, now, secret, password);
      var v := db.users[i].(password := NewDigest(c, db.users[i].password, password));
      WellFormedIgnoresPassword(db.users[i], v.password);
      ReplaceUserKeepsValid(c, db, i, v);
    }
  }

  lemma ChangeKeepsValid(c: Primitives, db: Db, caller: UserId, oldPassword: string, password: string)
    requires Valid(c, db)
    ensures Valid(c, ChangePassword(c, db, caller, oldPassword, password).db)
  {
    var s := ChangePassword(c, db, caller, oldPassword, password);
    if s.reply.Success? {
      var i := FindById(db.users, caller).value;
      assert PasswordReplaced(c, db.users, s.db.users, i, password);
      var v := db.users[i].(password := NewDigest(c, db.users[i].password, password));
      WellFormedIgnoresPassword(db.users[i], v.password);
      ReplaceUserKeepsValid(c, db, i, v);
    }
  }

  lemma UpdateKeepsValid(c: Primitives, db: Db, caller: UserId, name: string, email: string, profilePic: string, bio: string)
    requires Valid(c, db)
    ensures Valid(c, UpdateUser(c, db, caller, name, email, profilePic, bio).db)
  {
    var s := UpdateUser(c, db, caller, name, email, profilePic, bio);
    if s.reply.Success? {
      var i := FindById(db.users, caller).value;
      ValidEmailIsTrimmed(db.users[i].email);
      ReplaceUserKeepsValid(c, db, i, Updated(db.users[i], name, profilePic, bio));
    }
  }

  // ------------------------------------------------------------ reset secrets

  /** With a valid store a reset fails only for want of a live row or of an
      acceptable password: the row's owner is always found and always validates. */
  lemma ResetSucceedsIff(c: Primitives, db: Db, now: int, secret: string, password: string)
    requires Valid(c, db)
    ensures ResetPassword(c, db, now, secret, password).reply.Success? <==>
      && FindLive(db.tokens, c.sha(secret), now).Some?
      && var owner := db.tokens[FindLive(db.tokens, c.sha(secret), now).value].userId;
         PasswordAccepted(db.users[FindById(db.users, owner).value].password, password)
  {
    match FindLive(db.tokens, c.sha(secret), now)
    case None =>
    case Some(k) =>
      var i := FindById(db.users, db.tokens[k].userId).value;
      assert WellFormed(db.users[i]);
  }

  /** With a valid store a password change fails only for the reasons the handler
      checks itself or for an unacceptable new password: the caller's document
      always validates. */
  lemma ChangeSucceedsIff(c: Primitives, db: Db, caller: UserId, oldPassword: string, password: string)
    requires Valid(c, db)
    ensures ChangePassword(c, db, caller, oldPassword, password).reply.Success? <==>
      && FindById(db.users, caller).Some?
      && oldPassword != "" && password != "" && oldPassword != password
      && var stored := db.users[FindById(db.users, caller).value].password;
         Verify(c, oldPassword, stored) && PasswordAccepted(stored, password)
  {
    if FindById(db.users, caller).Some? {
      assert WellFormed(db.users[FindById(db.users, caller).value]);
    }
  }

  /** After forgot-password, the user has exactly the one row just written: the
      previous one, if any, is gone. */
  lemma ForgotLeavesOneRow(c: Primitives, db: Db, now: int, random: seq<byte>, delivered: bool, email: Option<string>)
    requires Valid(c, db) && |random| == RandomBytes && Recipient(db.users, email).Some?
    ensures var u := db.users[Recipient(db.users, email).value];
      RowsOf(ForgotPassword(c, db, now, random, delivered, email).db.tokens, u.id) == [ResetRow(c, u, random, now)]
  {
    var u := db.users[Recipient(db.users, email).value];
    AtMostOneRow(db.tokens, u.id);
  }

  /** A row of a valid store whose digest is that of a reset secret of user `uid`
      belongs to `uid` and was issued with the same random bytes. */
  lemma RowOfSecret(c: Primitives, tokens: seq<TokenRow>, k: nat, guess: seq<byte>, uid: UserId)
    requires RowsOk(c, tokens) && Injective(c.sha) && k < |tokens| && |guess| == RandomBytes
    requires tokens[k].tokenHash == c.sha(ResetSecret(guess, uid))
    ensures tokens[k].userId == uid
  {
    var r: seq<byte> :| |r| == RandomBytes && tokens[k].tokenHash == c.sha(ResetSecret(r, tokens[k].userId));
    ResetSecretInjective(r, tokens[k].userId, guess, uid);
  }

  /** When a user's only row holds the digest of the secret made from `random`, a
      secret of that user made from `guess` finds a live row exactly when `guess` is
      `random` and the row has not expired. */
  lemma OnlyRowDecides(c: Primitives, tokens: seq<TokenRow>, row: TokenRow, random: seq<byte>,
                       guess: seq<byte>, now: int)
    requires RowsOk(c, tokens) && Injective(c.sha) && |random| == RandomBytes && |guess| == RandomBytes
    requires RowsOf(tokens, row.userId) == [row] && row.tokenHash == c.sha(ResetSecret(random, row.userId))
    ensures FindLive(tokens, c.sha(ResetSecret(guess, row.userId)), now).Some? <==>
      guess == random && now < row.expiresAt
  {
    var hash := c.sha(ResetSecret(guess, row.userId));
    match FindLive(tokens, hash, now)
    case Some(k) =>
      RowOfSecret(c, tokens, k, guess, row.userId);
      RowOwnedBy(tokens, k);
      ResetSecretInjective(random, row.userId, guess, row.userId);
    case None =>
      if guess == random && now < row.expiresAt {
        assert row in RowsOf(tokens, row.userId);
        RowsAreRows(tokens, row.userId);
      }
  }

  /** After forgot-password at time `t` with random bytes `random`, a secret of the
      user built from bytes `guess` finds a live row exactly when `guess` is `random`
      and thirty minutes have not passed. */
  lemma ForgotIssuesOneSecret(c: Primitives, db: Db, t: int, random: seq<byte>, delivered: bool, email: Option<string>,
                              guess: seq<byte>, now: int)
    requires Valid(c, db) && Injective(c.sha) && |random| == RandomBytes && |guess| == RandomBytes
    requires Recipient(db.users, email).Some?
    ensures var uid := db.users[Recipient(db.users, email).value].id;
      var after := ForgotPassword(c, db, t, random, delivered, email).db;
      FindLive(after.tokens, c.sha(ResetSecret(guess, uid)), now).Some? <==> guess == random && now < t + ResetWindow
  {
    var u := db.users[Recipient(db.users, email).value];
    var after := ForgotPassword(c, db, t, random, delivered, email).db;
    ForgotKeepsValid(c, db, t, random, delivered, email);
    ForgotLeavesOneRow(c, db, t, random, delivered, email);
    OnlyRowDecides(c, after.tokens, ResetRow(c, u, random, t), random, guess, now);
  }

  /** Only the secret of the latest forgot-password resets the password, and only for
      thirty minutes: a secret mailed earlier stops working as soon as a new one is
      issued. */
  lemma LatestSecretResets(c: Primitives, db: Db, t: int, random: seq<byte>, delivered: bool, email: Option<string>,
                           guess: seq<byte>, now: int, password: string)
    requires Valid(c, db) && Injective(c.sha) && |random| == RandomBytes && |guess| == RandomBytes
    requires Recipient(db.users, email).Some?
    ensures var uid := db.users[Recipient(db.users, email).value].id;
      var after := ForgotPassword(c, db, t, random, delivered, email).db;
      ResetPassword(c, after, now, ResetSecret(guess, uid), password).reply.Success? <==>
        guess == random && now < t + ResetWindow
        && PasswordAccepted(db.users[Recipient(db.users, email).value].password, password)
  {
    var uid := db.users[Recipient(db.users, email).value].id;
    var after := ForgotPassword(c, db, t, random, delivered, email).db;
    ForgotKeepsValid(c, db, t, random, delivered, email);
    ForgotIssuesOneSecret(c, db, t, random, delivered, email, guess, now);
    ResetSucceedsIff(c, after, now, ResetSecret(guess, uid), password);
    if FindLive(after.tokens, c.sha(ResetSecret(guess, uid)), now).Some? {
      var k := FindLive(after.tokens, c.sha(ResetSecret(guess, uid)), now).value;
      RowOfSecret(c, after.tokens, k, guess, uid);
      FindOwnId(db.users, Recipient(db.users, email).value);
    }
  }

  /** A successful reset does not consume its secret: later on, the same secret
      resets the password again, to anything acceptable over the digest the first
      reset left, for as long as the row it redeemed is live. */
  lemma ResetReplays(c: Primitives, db: Db, now: int, later: int, secret: string, first: string, second: string)
    requires UsersOk(db.users) && now <= later
    requires ResetPassword(c, db, now, secret, first).reply.Success?
    ensures var k := FindLive(db.tokens, c.sha(secret), now).value;
      var after := ResetPassword(c, db, now, secret, first).db;
      var stored := db.users[FindById(db.users, db.tokens[k].userId).value].password;
      later < db.tokens[k].expiresAt ==>
        (ResetPassword(c, after, later, secret, second).reply.Success? <==>
           PasswordAccepted(NewDigest(c, stored, first), second))
  {
    var after := ResetPassword(c, db, now, secret, first).db;
    var i := ResetOwner(c, db, now, secret, first);
    var k := FindLive(db.tokens, c.sha(secret), now).value;
    if later < db.tokens[k].expiresAt {
      var v := db.users[i].(password := NewDigest(c, db.users[i].password, first));
      assert WellFormed(db.users[i]);
      ReplayAfter(c, db, after, i, v, k, now, later, secret, second);
    }
  }

  lemma ReplayAfter(c: Primitives, db: Db, after: Db, i: nat, v: User, k: nat,
                    now: int, later: int, secret: string, second: string)
    requires FindLive(db.tokens, c.sha(secret), now) == Some(k) && now <= later < db.tokens[k].expiresAt
    requires FindById(db.users, db.tokens[k].userId) == Some(i) && WellFormed(db.users[i])
    requires v == db.users[i].(password := v.password)
    requires after == Db(db.users[i := v], db.tokens)
    ensures ResetPassword(c, after, later, secret, second).reply.Success? <==> PasswordAccepted(v.password, second)
  {
    FindLiveLater(db.tokens, c.sha(secret), now, later, k);
    SameIds(db.users, after.users);
    WellFormedIgnoresPassword(db.users[i], v.password);
    assert after.users[i] == v;
  }

  // -------------------------------------------------------- sign-in after a change

  /** A registered user can sign in at once with the same email and password, and
      is refused with any password of a different digest. */
  lemma RegisterThenLogin(c: Primitives, db: Db, now: int, freshId: UserId, name: string, email: string,
                          password: string, later: int, attempt: string)
    requires FindById(db.users, freshId).None?
    requires Register(c, db, now, freshId, name, email, password).reply.Success?
    ensures var after := Register(c, db, now, freshId, name, email, password).db;
      var u := User(freshId, name, Trim(email), c.hash(password), DefaultProfilePic, DefaultBio);
      && Login(c, after, later, email, password).reply == SignedIn(c, u, 200, later)
      && GetUser(after, freshId) == Success(200, Details(ProfileOf(u)), None)
      && (attempt != "" && c.hash(attempt) != c.hash(password) ==>
            Login(c, after, later, email, attempt).reply == Failure(400, BadCredentials))
  {
    var u := User(freshId, name, Trim(email), c.hash(password), DefaultProfilePic, DefaultBio);
    var after := Db(db.users + [u], db.tokens);
    assert email != "" by {
      if email == "" {
        TrimmedIsFixed(email);
      }
    }
    FindAppendedByEmail(db.users, u);
    FindAppendedById(db.users, u);
    assert after.users[|db.users|] == u;
    LoginOutcome(c, after, later, email, password, |db.users|);
    if attempt != "" {
      LoginOutcome(c, after, later, email, attempt, |db.users|);
    }
  }

  /** Once a new password has been assigned to user `i` and saved, the user signs in with the new
      password and is refused with any password of a different digest. */
  lemma LoginAfterPasswordReplaced(c: Primitives, users: seq<User>, after: seq<User>, tokens: seq<TokenRow>,
                                   i: nat, password: string, now: int, attempt: string)
    requires UniqueEmails(users) && PasswordReplaced(c, users, after, i, password) && password != ""
    requires password != users[i].password && ValidEmail(users[i].email)
    ensures Login(c, Db(after, tokens), now, users[i].email, password).reply == SignedIn(c, after[i], 200, now)
    ensures attempt != "" && c.hash(attempt) != c.hash(password) ==>
      Login(c, Db(after, tokens), now, users[i].email, attempt).reply == Failure(400, BadCredentials)
  {
    var email := users[i].email;
    ValidEmailIsTrimmed(email);
    FindOwnEmail(users, i);
    SameEmails(users, after);
    LoginOutcome(c, Db(after, tokens), now, email, password, i);
    if attempt != "" {
      LoginOutcome(c, Db(after, tokens), now, email, attempt, i);
    }
  }

  /** After a successful change to a password other than the stored digest, the
      caller signs in with the new password, and no longer with the old one unless
      both have the same digest. */
  lemma ChangeThenLogin(c: Primitives, db: Db, caller: UserId, oldPassword: string, password: string, now: int)
    requires Valid(c, db)
    requires ChangePassword(c, db, caller, oldPassword, password).reply.Success?
    requires password != db.users[FindById(db.users, caller).value].password
    ensures var after := ChangePassword(c, db, caller, oldPassword, password).db;
      var email := db.users[FindById(db.users, caller).value].email;
      && Login(c, after, now, email, password).reply.Success?
      && (c.hash(oldPassword) != c.hash(password) ==>
            Login(c, after, now, email, oldPassword).reply == Failure(400, BadCredentials))
  {
    var s := ChangePassword(c, db, caller, oldPassword, password);
    var i := FindById(db.users, caller).value;
    assert s.db == Db(db.users[i := db.users[i].(password := c.hash(password))], db.tokens);
    assert WellFormed(db.users[i]);
    assert |password| >= MinPasswordLength;
    LoginAfterPasswordReplaced(c, db.users, s.db.users, db.tokens, i, password, now, oldPassword);
  }

  /** After a successful reset to a password other than the stored digest, the
      owner of the redeemed row signs in with the new password. */
  lemma ResetThenLogin(c: Primitives, db: Db, now: int, secret: string, password: string, later: int)
    requires UsersOk(db.users)
    requires ResetPassword(c, db, now, secret, password).reply.Success?
    requires var owner := db.tokens[FindLive(db.tokens, c.sha(secret), now).value].userId;
      password != db.users[FindById(db.users, owner).value].password
    ensures var after := ResetPassword(c, db, now, secret, password).db;
      var owner := db.tokens[FindLive(db.tokens, c.sha(secret), now).value].userId;
      var email := db.users[FindById(db.users, owner).value].email;
      Login(c, after, later, email, password).reply.Success?
  {
    var s := ResetPassword(c, db, now, secret, password);
    var i := ResetOwner(c, db, now, secret, password);
    LoginAfterPasswordReplaced(c, db.users, s.db.users, db.tokens, i, password, later, password);
  }

  lemma ResetOwner(c: Primitives, db: Db, now: int, secret: string, password: string) returns (i: nat)
    requires ResetPassword(c, db, now, secret, password).reply.Success?
    ensures i < |db.users|
    ensures i == FindById(db.users, db.tokens[FindLive(db.tokens, c.sha(secret), now).value].userId).value
    ensures PasswordReplaced(c, db.users, ResetPassword(c, db, now, secret, password).db.users, i, password)
    ensures PasswordAccepted(db.users[i].password, password)
  {
    i := FindById(db.users, db.tokens[FindLive(db.tokens, c.sha(secret), now).value].userId).value;
  }

  /** In a valid store, a change whose new password is the stored digest itself
      passes every check the handler makes, needs no length check, and leaves the
      store exactly as it was. */
  lemma ChangeToStoredDigest(c: Primitives, db: Db, caller: UserId, oldPassword: string, password: string)
    requires Valid(c, db) && FindById(db.users, caller).Some?
    requires oldPassword != "" && password != "" && oldPassword != password
    requires Verify(c, oldPassword, db.users[FindById(db.users, caller).value].password)
    requires password == db.users[FindById(db.users, caller).value].password
    ensures ChangePassword(c, db, caller, oldPassword, password).reply.Success?
    ensures ChangePassword(c, db, caller, oldPassword, password).db == db
  {
    ChangeSucceedsIff(c, db, caller, oldPassword, password);
    var i := FindById(db.users, caller).value;
    assert db.users[i := db.users[i]] == db.users;
  }

  /** Likewise, in a valid store a reset with a live secret to the owner's stored
      digest succeeds, whatever the digest's length, and stores nothing new. */
  lemma ResetToStoredDigest(c: Primitives, db: Db, now: int, secret: string, password: string)
    requires Valid(c, db) && FindLive(db.tokens, c.sha(secret), now).Some?
    requires var owner := db.tokens[FindLive(db.tokens, c.sha(secret), now).value].userId;
      password == db.users[FindById(db.users, owner).value].password
    ensures ResetPassword(c, db, now, secret, password).reply.Success?
    ensures ResetPassword(c, db, now, secret, password).db == db
  {
    ResetSucceedsIff(c, db, now, secret, password);
    SuccessfulResetToDigest(c, db, now, secret, password);
  }

  lemma SuccessfulResetToDigest(c: Primitives, db: Db, now: int, secret: string, password: string)
    requires ResetPassword(c, db, now, secret, password).reply.Success?
    requires var owner := db.tokens[FindLive(db.tokens, c.sha(secret), now).value].userId;
      password == db.users[FindById(db.users, owner).value].password
    ensures ResetPassword(c, db, now, secret, password).db == db
  {
    var i := ResetOwner(c, db, now, secret, password);
    assert db.users[i := db.users[i]] == db.users;
  }

  /** A forgot-password request without an email reissues the secret of the first
      stored user, whoever asks; only an empty store answers 404. */
  lemma ForgotWithoutEmail(c: Primitives, db: Db, now: int, random: seq<byte>, delivered: bool)
    requires Valid(c, db) && |random| == RandomBytes
    ensures var s := ForgotPassword(c, db, now, random, delivered, None);
      && (db.users == [] <==> s.reply == Failure(404, NoSuchUser))
      && (db.users != [] ==> RowsOf(s.db.tokens, db.users[0].id) == [ResetRow(c, db.users[0], random, now)])
  {
    if db.users != [] {
      ForgotLeavesOneRow(c, db, now, random, delivered, None);
    }
  }

  // --------------------------------------------------------------- the profile

  /** The shape of a successful update: the caller's document replaced by the
      merged one, which is also what the reply shows. */
  lemma UpdateOutcome(c: Primitives, db: Db, caller: UserId, name: string, email: string,
                      profilePic: string, bio: string) returns (i: nat)
    requires UpdateUser(c, db, caller, name, email, profilePic, bio).reply.Success?
    ensures FindById(db.users, caller) == Some(i) && i < |db.users|
    ensures var v := Updated(db.users[i], name, profilePic, bio);
      UpdateUser(c, db, caller, name, email, profilePic, bio) ==
        Step(Success(200, Details(ProfileOf(v)), None), Db(db.users[i := v], db.tokens))
  {
    i := FindById(db.users, caller).value;
  }

  /** Every stored email is its own trim. */
  ghost predicate EmailsTrimmed(users: seq<User>) {
    forall k :: 0 <= k < |users| ==> Trim(users[k].email) == users[k].email
  }

  /** Every document that passed validation holds a trimmed email. */
  lemma ValidUsersTrimmed(users: seq<User>)
    requires UsersOk(users)
    ensures EmailsTrimmed(users)
  {
    forall k | 0 <= k < |users|
      ensures Trim(users[k].email) == users[k].email
    {
      ValidEmailIsTrimmed(users[k].email);
    }
  }

  /** When stored emails are trimmed, as validation guarantees, an update never
      changes an id, an email or a password. */
  lemma UpdateKeepsCredentials(c: Primitives, db: Db, caller: UserId, name: string, email: string,
                               profilePic: string, bio: string)
    requires EmailsTrimmed(db.users)
    ensures var after := UpdateUser(c, db, caller, name, email, profilePic, bio).db;
      && |after.users| == |db.users|
      && forall k :: 0 <= k < |db.users| ==>
           && after.users[k].id == db.users[k].id
           && after.users[k].email == db.users[k].email
           && after.users[k].password == db.users[k].password
  {
    var s := UpdateUser(c, db, caller, name, email, profilePic, bio);
    if s.reply.Success? {
      var i := UpdateOutcome(c, db, caller, name, email, profilePic, bio);
      var v := Updated(db.users[i], name, profilePic, bio);
      assert v.email == db.users[i].email;
      assert s.db.users == db.users[i := v];
    } else {
      assert s.db == db;
    }
  }

  /** Hence every sign-in attempt after an update has the outcome it had before. */
  lemma UpdateKeepsLogin(c: Primitives, db: Db, caller: UserId, name: string, email: string,
                         profilePic: string, bio: string, now: int, attempt: string, attemptPassword: string)
    requires EmailsTrimmed(db.users)
    ensures var after := UpdateUser(c, db, caller, name, email, profilePic, bio).db;
      Login(c, after, now, attempt, attemptPassword).reply.Success? <==>
      Login(c, db, now, attempt, attemptPassword).reply.Success?
  {
    UpdateKeepsCredentials(c, db, caller, name, email, profilePic, bio);
    SameCredentialsSameLogin(c, db, UpdateUser(c, db, caller, name, email, profilePic, bio).db, now, attempt, attemptPassword);
  }

  /** In particular an update keeps every sign-in outcome of a valid store. */
  lemma UpdateKeepsLoginWhenValid(c: Primitives, db: Db, caller: UserId, name: string, email: string,
                                  profilePic: string, bio: string, now: int, attempt: string, attemptPassword: string)
    requires Valid(c, db)
    ensures var after := UpdateUser(c, db, caller, name, email, profilePic, bio).db;
      Login(c, after, now, attempt, attemptPassword).reply.Success? <==>
      Login(c, db, now, attempt, attemptPassword).reply.Success?
  {
    ValidUsersTrimmed(db.users);
    UpdateKeepsLogin(c, db, caller, name, email, profilePic, bio, now, attempt, attemptPassword);
  }

  /** Sign-in depends only on the emails and the password digests, position by
      position. */
  lemma SameCredentialsSameLogin(c: Primitives, db: Db, other: Db, now: int, attempt: string, attemptPassword: string)
    requires |other.users| == |db.users|
    requires forall k :: 0 <= k < |db.users| ==>
      other.users[k].email == db.users[k].email && other.users[k].password == db.users[k].password
    ensures Login(c, other, now, attempt, attemptPassword).reply.Success? <==>
      Login(c, db, now, attempt, attemptPassword).reply.Success?
  {
    SameEmails(db.users, other.users);
  }

  /** An update that merges to the stored document itself stores it unchanged. */
  lemma UpdateOfMerged(c: Primitives, db: Db, caller: UserId, name: string, email: string,
                       profilePic: string, bio: string, i: nat)
    requires FindById(db.users, caller) == Some(i) && i < |db.users|
    requires Updated(db.users[i], name, profilePic, bio) == db.users[i] && WellFormed(db.users[i])
    ensures UpdateUser(c, db, caller, name, email, profilePic, bio) ==
      Step(Success(200, Details(ProfileOf(db.users[i])), None), db)
  {
    assert db.users[i := db.users[i]] == db.users;
  }

  /** Sending the same update twice leaves the store as the first one left it and
      gets the same answer. */
  lemma UpdateIdempotent(c: Primitives, db: Db, caller: UserId, name: string, email: string,
                         profilePic: string, bio: string)
    requires UpdateUser(c, db, caller, name, email, profilePic, bio).reply.Success?
    ensures var s := UpdateUser(c, db, caller, name, email, profilePic, bio);
      UpdateUser(c, s.db, caller, name, email, profilePic, bio) == s
  {
    var s := UpdateUser(c, db, caller, name, email, profilePic, bio);
    var i := UpdateOutcome(c, db, caller, name, email, profilePic, bio);
    var v := Updated(db.users[i], name, profilePic, bio);
    assert Updated(v, name, profilePic, bio) == v by {
      TrimIdempotent(db.users[i].email);
    }
    SameIds(db.users, s.db.users);
    UpdateOfMerged(c, s.db, caller, name, email, profilePic, bio, i);
  }

  /** After a successful update, reading the profile returns what the update
      answered. */
  lemma UpdateThenGet(c: Primitives, db: Db, caller: UserId, name: string, email: string,
                      profilePic: string, bio: string)
    requires UpdateUser(c, db, caller, name, email, profilePic, bio).reply.Success?
    ensures var s := UpdateUser(c, db, caller, name, email, profilePic, bio);
      GetUser(s.db, caller) == s.reply
  {
    var s := UpdateUser(c, db, caller, name, email, profilePic, bio);
    var i := UpdateOutcome(c, db, caller, name, email, profilePic, bio);
    SameIds(db.users, s.db.users);
  }

  // ---------------------------------------------------------------- the search

  lemma SameId(users: seq<User>, i: nat, j: nat)
    requires UniqueIds(users) && i < |users| && j < |users| && users[i].id == users[j].id
    ensures i == j
  {
  }

  /** With unique ids, a user appears in the search results exactly when the
      handler's filter accepts the user. */
  lemma SearchFindsHits(db: Db, caller: UserId, query: string, j: nat)
    requires UniqueIds(db.users) && query != "" && j < |db.users|
    ensures var r := SearchUsers(db, caller, query);
      (r.Success? && SummaryOf(db.users[j]) in r.body.users) <==> Hit(db.users[j], caller, query)
  {
    var r := SearchUsers(db, caller, query);
    if r.Success? && SummaryOf(db.users[j]) in r.body.users {
      var k :| 0 <= k < |r.body.users| && r.body.users[k] == SummaryOf(db.users[j]);
      var i :| 0 <= i < |db.users| && Hit(db.users[i], caller, query) && r.body.users[k] == SummaryOf(db.users[i]);
      SameId(db.users, i, j);
    }
  }

  /** Hence a user appears in the search results exactly when the user is not the
      caller and the query occurs, up to ASCII case, in the user's name or email. */
  lemma SearchIsReference(db: Db, caller: UserId, query: string, j: nat)
    requires UniqueIds(db.users) && query != "" && j < |db.users|
    ensures var r := SearchUsers(db, caller, query);
      (r.Success? && SummaryOf(db.users[j]) in r.body.users) <==> Matches(db.users[j], caller, query)
  {
    SearchFindsHits(db, caller, query, j);
    HitIff(db.users[j], caller, query);
  }

  /** A successful search lists one summary per passing user, in store order: the
      k-th summary is that of the store's user at position `p[k]`, the positions
      strictly increase, and they are exactly the positions of the passing users. */
  lemma SearchOrder(db: Db, caller: UserId, query: string) returns (p: seq<nat>)
    ensures var r := SearchUsers(db, caller, query);
      r.Success? ==>
        && |p| == |r.body.users|
        && forall k :: 0 <= k < |p| ==> p[k] < |db.users| && r.body.users[k] == SummaryOf(db.users[p[k]])
    ensures forall k, l :: 0 <= k < l < |p| ==> p[k] < p[l]
    ensures forall i :: 0 <= i < |db.users| ==> (Hit(db.users[i], caller, query) <==> i in p)
  {
    p := MatchingPositions(db.users, caller, query);
  }

  /** With unique ids in the store, no user is listed twice. */
  lemma SearchDistinctIds(db: Db, caller: UserId, query: string)
    requires UniqueIds(db.users)
    ensures var r := SearchUsers(db, caller, query);
      r.Success? ==> forall k, l :: 0 <= k < l < |r.body.users| ==> r.body.users[k].id != r.body.users[l].id
  {
    var r := SearchUsers(db, caller, query);
    if r.Success? {
      var users := r.body.users;
      var p := SearchOrder(db, caller, query);
      forall k, l | 0 <= k < l < |users|
        ensures users[k].id != users[l].id
      {
        assert users[k].id == db.users[p[k]].id && users[l].id == db.users[p[l]].id;
        assert p[k] < p[l];
      }
    }
  }
}
