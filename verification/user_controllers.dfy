/** The profile handlers for an authenticated user `caller`: reading and updating
    the caller's own profile, and searching other users by name or email. */
module Profiles {
  import opened Seqs
  import opened JsText
  import opened Crypto
  import opened UserSchema
  import opened Store
  import opened Http

  /** `getUser`: the caller's public fields, or 400 when the caller is not stored. */
  function GetUser(db: Db, caller: UserId): (r: Reply)
    ensures r.Success? <==> FindById(db.users, caller).Some?
    ensures r.Failure? ==> r == Failure(400, ProfileNotFound)
    ensures r.Success? ==> exists i :: (
      && 0 <= i < |db.users| && db.users[i].id == caller
      && r == Success(200, Details(ProfileOf(db.users[i])), None))
  {
    match FindById(db.users, caller)
    case None => Failure(400, ProfileNotFound)
    case Some(i) => Success(200, Details(ProfileOf(db.users[i])), None)
  }

  /** JavaScript's `a || b` on strings. */
  function OrElse(a: string, b: string): string {
    if a != "" then a else b
  }

  /** The document `updateUser` saves: the stored email assigned back to itself
      (through the `trim` setter), and name, picture and bio taken from the request
      when given. The password path is not assigned. */
  function Updated(u: User, name: string, profilePic: string, bio: string): (v: User)
    ensures v.id == u.id && v.password == u.password && v.email == Trim(u.email)
    ensures name != "" ==> v.name == name
    ensures name == "" ==> v.name == u.name
    ensures profilePic != "" ==> v.profilePic == profilePic
    ensures profilePic == "" ==> v.profilePic == u.profilePic
    ensures bio != "" ==> v.bio == bio
    ensures bio == "" ==> v.bio == u.bio
  {
    u.(email := Trim(u.email), name := OrElse(name, u.name), profilePic := OrElse(profilePic, u.profilePic),
       bio := OrElse(bio, u.bio))
  }

  /** `updateUser`. `email` is the request's email field, which the handler never
      reads. */
  function UpdateUser(c: Primitives, db: Db, caller: UserId, name: string, email: string, profilePic: string, bio: string): (s: Step)
    ensures s.db.tokens == db.tokens
    ensures s.reply.Failure? ==> s.db == db
    ensures FindById(db.users, caller).None? ==> s.reply == Failure(404, UpdateNotFound)
    ensures s.reply.Success? <==>
      FindById(db.users, caller).Some?
      && WellFormed(Updated(db.users[FindById(db.users, caller).value], name, profilePic, bio))
    ensures (
      && FindById(db.users, caller).Some?
      && !WellFormed(Updated(db.users[FindById(db.users, caller).value], name, profilePic, bio))) ==>
      s.reply == Failure(UnsetStatus, ValidationFailed)
    ensures s.reply.Success? ==> exists i :: (
      && 0 <= i < |db.users| && db.users[i].id == caller
      && var v := Updated(db.users[i], name, profilePic, bio);
      && s.db.users == db.users[i := v]
      && s.reply == Success(200, Details(ProfileOf(v)), None))
  {
    match FindById(db.users, caller)
    case None => Step(Failure(404, UpdateNotFound), db)
    case Some(i) =>
      match Save(c, Draft(Updated(db.users[i], name, profilePic, bio), false))
      case Invalid(_) => Step(Failure(UnsetStatus, ValidationFailed), db)
      case Saved(v) => Step(Success(200, Details(ProfileOf(v)), None), Db(db.users[i := v], db.tokens))
  }

  /** The search filter as the handler computes it: not the caller, and the query
      occurs in the name or the email, ignoring ASCII case. */
  predicate Hit(u: User, caller: UserId, query: string) {
    u.id != caller && (ContainsFolded(u.name, query) || ContainsFolded(u.email, query))
  }

  /** The same filter stated by positions: some window of the name or the email
      equals the query up to ASCII case. */
  ghost predicate Matches(u: User, caller: UserId, query: string) {
    && u.id != caller
    && ((exists i :: OccursAt(u.name, query, i)) || (exists i :: OccursAt(u.email, query, i)))
  }

  lemma HitIff(u: User, caller: UserId, query: string)
    ensures Hit(u, caller, query) <==> Matches(u, caller, query)
  {
    ContainsFoldedIff(u.name, query);
    ContainsFoldedIff(u.email, query);
  }

  /** `User.find(filter)`: the users that pass the filter, in store order. */
  function Matching(users: seq<User>, caller: UserId, query: string): (hits: seq<User>)
    ensures |hits| <= |users|
    ensures forall k :: 0 <= k < |hits| ==> hits[k] in users && Hit(hits[k], caller, query)
    ensures forall i :: 0 <= i < |users| && Hit(users[i], caller, query) ==> users[i] in hits
  {
    Filter(users, u => Hit(u, caller, query))
  }

  /** The hits are the passing users in store order, each taken once: they sit at
      strictly increasing positions of the store, and those positions are exactly
      the positions of the users that pass the filter. */
  lemma MatchingPositions(users: seq<User>, caller: UserId, query: string) returns (p: seq<nat>)
    ensures |p| == |Matching(users, caller, query)|
    ensures forall k :: 0 <= k < |p| ==> p[k] < |users| && Matching(users, caller, query)[k] == users[p[k]]
    ensures forall k, l :: 0 <= k < l < |p| ==> p[k] < p[l]
    ensures forall i :: 0 <= i < |users| ==> (Hit(users[i], caller, query) <==> i in p)
  {
    p := FilterPositions(users, u => Hit(u, caller, query));
  }

  /** `select("name email profilePic")` applied to every hit. */
  function Summaries(users: seq<User>): (r: seq<Summary>)
    ensures |r| == |users| && forall k :: 0 <= k < |users| ==> r[k] == SummaryOf(users[k])
  {
    seq(|users|, k requires 0 <= k < |users| => SummaryOf(users[k]))
  }

  /** `searchUsers`: 400 without a query, 404 when no other user matches it, and
      otherwise the summaries of the users that match. */
  function SearchUsers(db: Db, caller: UserId, query: string): (r: Reply)
    ensures query == "" ==> r == Failure(400, QueryRequired)
    ensures query != "" && (forall i :: 0 <= i < |db.users| ==> !Hit(db.users[i], caller, query)) ==>
      r == Failure(404, NoMatches)
    ensures r.Success? ==> r.status == 200 && r.body.Found? && r.cookie.None? && |r.body.users| > 0
    ensures r.Success? ==> forall k :: 0 <= k < |r.body.users| ==> r.body.users[k].id != caller
    ensures r.Success? ==> forall k :: 0 <= k < |r.body.users| ==> exists i :: (
      && 0 <= i < |db.users| && Hit(db.users[i], caller, query)
      && r.body.users[k] == SummaryOf(db.users[i]))
    ensures query != "" ==> forall i :: 0 <= i < |db.users| && Hit(db.users[i], caller, query) ==>
      r.Success? && SummaryOf(db.users[i]) in r.body.users
  {
    if query == "" then Failure(400, QueryRequired)
    else
      var hits := Matching(db.users, caller, query);
      if hits == [] then Failure(404, NoMatches)
      else
        assert exists i :: 0 <= i < |db.users| && db.users[i] == hits[0];
        Success(200, Found(Summaries(hits)), None)
  }
}
