/** The user document and the rules its schema attaches to saving one: the `trim`
    setter on the email, the defaults for the picture and the bio, the validators on
    every path, and the pre-save hook that hashes a modified password. */
module UserSchema {
  import opened JsText
  import opened EmailPattern
  import opened Crypto

  type UserId = string

  const DefaultProfilePic := "https://i.ibb.co/4pDNDk1/avatar.png"
  const DefaultBio := "bio"
  const MinPasswordLength := 6
  const MaxBioLength := 250

  /** A stored user; `password` holds whatever the document carries, which after a
      save is a digest. The unused `friends` list is not modelled. */
  datatype User = User(
    id: UserId,
    name: string,
    email: string,
    password: string,
    profilePic: string,
    bio: string)

  /** The schema paths a validator can reject. */
  datatype Path = NamePath | EmailPath | PasswordPath | ProfilePicPath | BioPath

  /** A document on its way to the store. `passwordModified` is the document's
      `isModified("password")`: the password path was assigned a value different
      from the one the document held. */
  datatype Draft = Draft(doc: User, passwordModified: bool)

  /** What every successfully saved document satisfies, whatever its password. */
  predicate WellFormed(u: User) {
    && u.name != ""
    && ValidEmail(u.email)
    && u.profilePic != ""
    && |u.bio| <= MaxBioLength
  }

  lemma WellFormedIgnoresPassword(u: User, password: string)
    ensures WellFormed(u.(password := password)) == WellFormed(u)
  {
  }

  /** Paths whose validators reject the draft. `required` rejects the empty string,
      `match` the malformed address, `minLength` a short new password and
      `maxLength` a long bio. A password path that was not assigned holds the
      stored digest, which is never short. */
  function Violations(d: Draft): set<Path> {
    (if d.doc.name == "" then {NamePath} else {})
    + (if !ValidEmail(d.doc.email) then {EmailPath} else {})
    + (if d.passwordModified && |d.doc.password| < MinPasswordLength then {PasswordPath} else {})
    + (if d.doc.profilePic == "" then {ProfilePicPath} else {})
    + (if |d.doc.bio| > MaxBioLength then {BioPath} else {})
  }

  /** The `pre("save")` hook: a modified password is replaced by its hash, an
      unmodified one is left as stored, and no other path is touched. */
  function HashIfModified(c: Primitives, d: Draft): (u: User)
    ensures d.passwordModified ==> Verify(c, d.doc.password, u.password)
    ensures !d.passwordModified ==> u == d.doc
    ensures u.(password := d.doc.password) == d.doc
  {
    if !d.passwordModified then d.doc else d.doc.(password := c.hash(d.doc.password))
  }

  datatype SaveResult = Saved(user: User) | Invalid(paths: set<Path>)

  /** `document.save()`: validation runs first, then the pre-save hook. */
  function Save(c: Primitives, d: Draft): (r: SaveResult)
    ensures r.Saved? <==> WellFormed(d.doc) && (d.passwordModified ==> |d.doc.password| >= MinPasswordLength)
    ensures r.Invalid? ==> r.paths != {}
    ensures d.passwordModified && |d.doc.password| < MinPasswordLength ==> r.Invalid? && PasswordPath in r.paths
    ensures |d.doc.bio| > MaxBioLength ==> r.Invalid? && BioPath in r.paths
    ensures r.Saved? ==> WellFormed(r.user) && r.user.(password := d.doc.password) == d.doc
    ensures r.Saved? && d.passwordModified ==> Verify(c, d.doc.password, r.user.password)
    ensures r.Saved? && !d.passwordModified ==> r.user == d.doc
  {
    var v := Violations(d);
    if v != {} then Invalid(v) else Saved(HashIfModified(c, d))
  }

  /** `user.password = password` on a loaded user. Mongoose marks the path modified
      only when the assigned value differs from the one the document holds, so
      assigning the stored digest itself changes nothing. */
  function Assign(u: User, password: string): Draft {
    Draft(u.(password := password), password != u.password)
  }

  /** The password `u` holds after `Assign(u, password)` is saved: the hash of a new
      value, or the stored digest when that very digest was assigned. */
  function NewDigest(c: Primitives, stored: string, password: string): string {
    if password == stored then stored else c.hash(password)
  }

  /** Whether `minLength` lets `password` replace the digest `stored`: it checks only
      a modified path. */
  predicate PasswordAccepted(stored: string, password: string) {
    password == stored || |password| >= MinPasswordLength
  }

  /** Saving an assigned password succeeds exactly when the rest of the document is
      well formed and the new value is accepted; the saved document differs from the
      loaded one only in the digest, which signs in the assigned password whenever
      it is new. */
  lemma AssignedSave(c: Primitives, u: User, password: string)
    ensures Save(c, Assign(u, password)).Saved? <==> WellFormed(u) && PasswordAccepted(u.password, password)
    ensures Save(c, Assign(u, password)).Saved? ==>
      && Save(c, Assign(u, password)).user == u.(password := NewDigest(c, u.password, password))
      && (password != u.password ==> Verify(c, password, Save(c, Assign(u, password)).user.password))
  {
    WellFormedIgnoresPassword(u, password);
  }

  /** The document `User.create({ name, email, password })` builds before saving:
      the email through the `trim` setter, the schema defaults for picture and bio,
      and the password path marked modified. */
  function Create(id: UserId, name: string, email: string, password: string): Draft {
    Draft(User(id, name, Trim(email), password, DefaultProfilePic, DefaultBio), true)
  }

  /** A created user that saves is stored with the default picture and bio, the
      trimmed email and the hash of the password, never the plaintext itself. */
  lemma CreatedUser(c: Primitives, id: UserId, name: string, email: string, password: string)
    requires Save(c, Create(id, name, email, password)).Saved?
    ensures var u := Save(c, Create(id, name, email, password)).user;
      && u == User(id, name, Trim(email), c.hash(password), DefaultProfilePic, DefaultBio)
      && ValidEmail(Trim(email)) && |password| >= MinPasswordLength
  {
  }
}
