/** The two collections the handlers work on, as sequences in their natural order:
    the users and the password-reset token rows. Lookups return the first matching
    document, as `findOne` does. */
module Store {
  import opened Seqs
  import opened Crypto
  import opened UserSchema

  /** Thirty minutes in milliseconds: how long a reset secret can be redeemed. */
  const ResetWindow := 30 * (60 * 1000)

  /** A row of the reset-token collection. Only the digest of the plaintext secret
      is stored. */
  datatype TokenRow = TokenRow(userId: UserId, tokenHash: string, createdAt: int, expiresAt: int)

  datatype Db = Db(users: seq<User>, tokens: seq<TokenRow>)

  /** `User.findOne({ email })` */
  function FindByEmail(users: seq<User>, email: string): (r: Option<nat>)
    ensures r.Some? ==> r.value < |users| && users[r.value].email == email
    ensures r.Some? ==> forall k :: 0 <= k < r.value ==> users[k].email != email
    ensures r.None? <==> forall i :: 0 <= i < |users| ==> users[i].email != email
  {
    First(users, (u: User) => u.email == email)
  }

  /** `User.findById(id)` */
  function FindById(users: seq<User>, id: UserId): (r: Option<nat>)
    ensures r.Some? ==> r.value < |users| && users[r.value].id == id
    ensures r.Some? ==> forall k :: 0 <= k < r.value ==> users[k].id != id
    ensures r.None? <==> forall i :: 0 <= i < |users| ==> users[i].id != id
  {
    First(users, (u: User) => u.id == id)
  }

  /** `Token.findOne({ userId })` */
  function FindRowOf(tokens: seq<TokenRow>, userId: UserId): (r: Option<nat>)
    ensures r.Some? ==> r.value < |tokens| && tokens[r.value].userId == userId
    ensures r.Some? ==> forall k :: 0 <= k < r.value ==> tokens[k].userId != userId
    ensures r.None? <==> forall k :: 0 <= k < |tokens| ==> tokens[k].userId != userId
  {
    First(tokens, (row: TokenRow) => row.userId == userId)
  }

  /** Lookups by id agree on two user lists whose ids agree position by position. */
  lemma SameIds(a: seq<User>, b: seq<User>)
    requires |a| == |b| && forall k :: 0 <= k < |a| ==> a[k].id == b[k].id
    ensures forall id :: FindById(a, id) == FindById(b, id)
  {
    forall id
      ensures FindById(a, id) == FindById(b, id)
    {
      var ra, rb := FindById(a, id), FindById(b, id);
      if ra.Some? && rb.Some? {
        assert !(ra.value < rb.value) && !(rb.value < ra.value);
      }
    }
  }

  /** Lookups by email agree on two user lists whose emails agree position by
      position. */
  lemma SameEmails(a: seq<User>, b: seq<User>)
    requires |a| == |b| && forall k :: 0 <= k < |a| ==> a[k].email == b[k].email
    ensures forall email :: FindByEmail(a, email) == FindByEmail(b, email)
  {
    forall email
      ensures FindByEmail(a, email) == FindByEmail(b, email)
    {
      var ra, rb := FindByEmail(a, email), FindByEmail(b, email);
      if ra.Some? && rb.Some? {
        assert !(ra.value < rb.value) && !(rb.value < ra.value);
      }
    }
  }

  /** A user appended under a new email is the one found by that email. */
  lemma FindAppendedByEmail(users: seq<User>, u: User)
    requires FindByEmail(users, u.email).None?
    ensures FindByEmail(users + [u], u.email) == Some(|users|)
  {
    assert (users + [u])[|users|] == u;
    assert forall k :: 0 <= k < |users| ==> (users + [u])[k] == users[k];
  }

  /** A user appended under a new id is the one found by that id. */
  lemma FindAppendedById(users: seq<User>, u: User)
    requires FindById(users, u.id).None?
    ensures FindById(users + [u], u.id) == Some(|users|)
  {
    assert (users + [u])[|users|] == u;
    assert forall k :: 0 <= k < |users| ==> (users + [u])[k] == users[k];
  }

  /** With unique emails, a user's email finds that user. */
  lemma FindOwnEmail(users: seq<User>, j: nat)
    requires UniqueEmails(users) && j < |users|
    ensures FindByEmail(users, users[j].email) == Some(j)
  {
    var r := FindByEmail(users, users[j].email);
    assert r.Some?;
  }

  /** With unique ids, a user's id finds that user. */
  lemma FindOwnId(users: seq<User>, j: nat)
    requires UniqueIds(users) && j < |users|
    ensures FindById(users, users[j].id) == Some(j)
  {
    var r := FindById(users, users[j].id);
    assert r.Some?;
  }

  /** A row whose digest is `hash` and that is still live at time `now`. */
  predicate Redeems(row: TokenRow, hash: string, now: int) {
    row.tokenHash == hash && row.expiresAt > now
  }

  /** `Token.findOne({ token: hash, expiresAt: { $gt: now } })` */
  function FindLive(tokens: seq<TokenRow>, hash: string, now: int): (r: Option<nat>)
    ensures r.Some? ==> r.value < |tokens| && Redeems(tokens[r.value], hash, now)
    ensures r.Some? ==> forall j :: 0 <= j < r.value ==> !Redeems(tokens[j], hash, now)
    ensures r.None? <==> forall k :: 0 <= k < |tokens| ==> !Redeems(tokens[k], hash, now)
  {
    First(tokens, (row: TokenRow) => Redeems(row, hash, now))
  }

  /** A row that is the first live match at `now` stays the first live match at any
      later time before it expires. */
  lemma FindLiveLater(tokens: seq<TokenRow>, hash: string, now: int, later: int, k: nat)
    requires FindLive(tokens, hash, now) == Some(k) && now <= later && later < tokens[k].expiresAt
    ensures FindLive(tokens, hash, later) == Some(k)
  {
    assert Redeems(tokens[k], hash, later);
  }

  /** The rows belonging to one user, oldest first. */
  function RowsOf(tokens: seq<TokenRow>, userId: UserId): (rows: seq<TokenRow>)
    ensures forall k :: 0 <= k < |rows| ==> rows[k].userId == userId
    ensures rows == [] <==> forall k :: 0 <= k < |tokens| ==> tokens[k].userId != userId
  {
    if tokens == [] then []
    else (if tokens[0].userId == userId then [tokens[0]] else []) + RowsOf(tokens[1..], userId)
  }

  lemma {:induction false} RowsOfAppend(a: seq<TokenRow>, b: seq<TokenRow>, userId: UserId)
    ensures RowsOf(a + b, userId) == RowsOf(a, userId) + RowsOf(b, userId)
  {
    if a == [] {
      assert a + b == b;
    } else {
      assert (a + b)[0] == a[0];
      assert (a + b)[1..] == a[1..] + b;
      RowsOfAppend(a[1..], b, userId);
    }
  }

  /** A user's rows around the row at `j`. */
  lemma RowsOfSplit(tokens: seq<TokenRow>, j: nat, userId: UserId)
    requires j < |tokens|
    ensures RowsOf(tokens, userId) ==
      RowsOf(tokens[..j], userId) + RowsOf([tokens[j]], userId) + RowsOf(tokens[j + 1..], userId)
    ensures RowsOf(RemoveAt(tokens, j), userId) == RowsOf(tokens[..j], userId) + RowsOf(tokens[j + 1..], userId)
  {
    assert tokens == tokens[..j] + ([tokens[j]] + tokens[j + 1..]);
    RowsOfAppend(tokens[..j], [tokens[j]] + tokens[j + 1..], userId);
    RowsOfAppend([tokens[j]], tokens[j + 1..], userId);
    RowsOfAppend(tokens[..j], tokens[j + 1..], userId);
  }

  /** Deleting the row at `j` deletes it from its owner's rows and from no one else's. */
  lemma RowsOfRemove(tokens: seq<TokenRow>, j: nat, userId: UserId)
    requires j < |tokens|
    ensures tokens[j].userId != userId ==> RowsOf(RemoveAt(tokens, j), userId) == RowsOf(tokens, userId)
    ensures tokens[j].userId == userId ==>
      RowsOf(tokens, userId) == RowsOf(tokens[..j], userId) + [tokens[j]] + RowsOf(tokens[j + 1..], userId)
  {
    RowsOfSplit(tokens, j, userId);
    assert [tokens[j]][1..] == [];
    assert RowsOf([tokens[j]], userId) == (if tokens[j].userId == userId then [tokens[j]] else []);
  }

  /** Every row is among its owner's rows. */
  lemma RowOwnedBy(tokens: seq<TokenRow>, k: nat)
    requires k < |tokens|
    ensures tokens[k] in RowsOf(tokens, tokens[k].userId)
  {
    RowsOfRemove(tokens, k, tokens[k].userId);
  }

  /** A user's rows are rows of the collection. */
  lemma {:induction false} RowsAreRows(tokens: seq<TokenRow>, userId: UserId)
    ensures forall row :: row in RowsOf(tokens, userId) ==> row in tokens
  {
    if tokens != [] {
      RowsAreRows(tokens[1..], userId);
    }
  }

  /** All but the oldest of a user's rows. */
  function DropOldest(rows: seq<TokenRow>): seq<TokenRow> {
    if rows == [] then [] else rows[1..]
  }

  /** `Token.findOne({ userId })`, then `deleteOne()` on the row if there is one:
      the user's oldest row goes and every other row stays, in order. */
  function DeleteRowOf(tokens: seq<TokenRow>, userId: UserId): (kept: seq<TokenRow>)
    ensures RowsOf(kept, userId) == DropOldest(RowsOf(tokens, userId))
    ensures forall v :: v != userId ==> RowsOf(kept, v) == RowsOf(tokens, v)
    ensures forall k :: 0 <= k < |kept| ==> kept[k] in tokens
    ensures OneRowPerUser(tokens) ==> OneRowPerUser(kept)
    ensures OneRowPerUser(tokens) ==> forall k :: 0 <= k < |kept| ==> kept[k].userId != userId
  {
    match FindRowOf(tokens, userId)
    case None => tokens
    case Some(j) =>
      assert RowsOf(tokens[..j], userId) == [];
      RowsOfSplit(tokens, j, userId);
      RowsOfRemove(tokens, j, userId);
      assert forall v | v != userId :: RowsOf(RemoveAt(tokens, j), v) == RowsOf(tokens, v) by {
        forall v | v != userId
          ensures RowsOf(RemoveAt(tokens, j), v) == RowsOf(tokens, v)
        {
          RowsOfRemove(tokens, j, v);
        }
      }
      RemoveAt(tokens, j)
  }

  /** The token rows after forgot-password: the user's oldest row deleted and the
      new row appended. */
  function Reissue(tokens: seq<TokenRow>, row: TokenRow): (after: seq<TokenRow>)
    ensures |after| > 0 && after[|after| - 1] == row
    ensures RowsOf(after, row.userId) == DropOldest(RowsOf(tokens, row.userId)) + [row]
    ensures forall v :: v != row.userId ==> RowsOf(after, v) == RowsOf(tokens, v)
    ensures forall k :: 0 <= k < |after| - 1 ==> after[k] in tokens
    ensures OneRowPerUser(tokens) ==> OneRowPerUser(after)
  {
    var kept := DeleteRowOf(tokens, row.userId);
    RowsOfAppend(kept, [row], row.userId);
    assert RowsOf([row], row.userId) == [row] by {
      assert [row][1..] == [];
    }
    assert forall v | v != row.userId :: RowsOf(kept + [row], v) == RowsOf(kept, v) by {
      forall v | v != row.userId
        ensures RowsOf(kept + [row], v) == RowsOf(kept, v)
      {
        RowsOfAppend(kept, [row], v);
        assert [row][1..] == [];
      }
    }
    kept + [row]
  }

  /** `after` is `before` once `password` has been assigned to user `i` and saved:
      the user's digest is the hash of `password`, or stays as it was when
      `password` is that digest, and nothing else changed. */
  predicate PasswordReplaced(c: Primitives, before: seq<User>, after: seq<User>, i: int, password: string) {
    0 <= i < |before| && after == before[i := before[i].(password := NewDigest(c, before[i].password, password))]
  }

  /** The row was written by forgot-password: its digest is that of a secret made of
      32 random bytes and the owner's id. */
  ghost predicate Issued(c: Primitives, row: TokenRow) {
    exists r: seq<byte> :: |r| == RandomBytes && row.tokenHash == c.sha(ResetSecret(r, row.userId))
  }

  /** The state every handler preserves. */
  ghost predicate Valid(c: Primitives, db: Db) {
    UsersOk(db.users) && RowsOwned(db.users, db.tokens) && RowsOk(c, db.tokens)
  }

  /** Ids and emails are unique and every stored user passed validation. */
  ghost predicate UsersOk(users: seq<User>) {
    && UniqueIds(users)
    && UniqueEmails(users)
    && (forall i :: 0 <= i < |users| ==> WellFormed(users[i]))
  }

  /** Every row belongs to a stored user. */
  ghost predicate RowsOwned(users: seq<User>, tokens: seq<TokenRow>) {
    forall k :: 0 <= k < |tokens| ==> FindById(users, tokens[k].userId).Some?
  }

  /** Every row was issued by forgot-password with the thirty-minute window, and no
      user has two rows. */
  ghost predicate RowsOk(c: Primitives, tokens: seq<TokenRow>) {
    && (forall k :: 0 <= k < |tokens| ==> Issued(c, tokens[k]))
    && (forall k :: 0 <= k < |tokens| ==> tokens[k].expiresAt == tokens[k].createdAt + ResetWindow)
    && OneRowPerUser(tokens)
  }

  /** No two users share an id. */
  ghost predicate UniqueIds(users: seq<User>) {
    forall i, j :: 0 <= i < j < |users| ==> users[i].id != users[j].id
  }

  /** No two users share an email: the pre-check of registration and the unique
      index together. */
  ghost predicate UniqueEmails(users: seq<User>) {
    forall i, j :: 0 <= i < j < |users| ==> users[i].email != users[j].email
  }

  /** No two rows belong to the same user. */
  ghost predicate OneRowPerUser(tokens: seq<TokenRow>) {
    forall k, l :: 0 <= k < l < |tokens| ==> tokens[k].userId != tokens[l].userId
  }

  /** With one row per user, a user's rows are at most the one `FindRowOf` finds. */
  lemma AtMostOneRow(tokens: seq<TokenRow>, userId: UserId)
    requires OneRowPerUser(tokens)
    ensures FindRowOf(tokens, userId).None? ==> RowsOf(tokens, userId) == []
    ensures FindRowOf(tokens, userId).Some? ==> RowsOf(tokens, userId) == [tokens[FindRowOf(tokens, userId).value]]
  {
    match FindRowOf(tokens, userId)
    case None =>
    case Some(j) =>
      RowsOfRemove(tokens, j, userId);
      var later := tokens[j + 1..];
      assert forall k :: 0 <= k < |later| ==> later[k] == tokens[j + 1 + k];
      assert RowsOf(tokens[..j], userId) == [];
      assert RowsOf(later, userId) == [];
  }
}
