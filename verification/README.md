# Account lifecycle of the chat-app server, in Dafny

This project models the account core of an Express/Mongoose chat backend, in three parts:

- the authentication handlers: register, login, logout, forgot-password, reset-password and change-password;
- the profile handlers: get, update and search;
- the user schema that stands behind all of them: the `trim` setter and format check on the email, the defaults, the length limits, and the pre-save hook that hashes a modified password.

Each handler is a pure function. It takes the store (a sequence of user documents and a sequence of reset-token rows), the clock and the request fields. It returns the response and the new store.

The cryptographic library calls are function-valued fields of a `Primitives` value:

- the salted password hash (bcrypt);
- SHA-256;
- the session-token signer.

`Verify(plain, digest)` holds exactly when the digest is the hash of the plaintext.

Nondeterministic inputs are parameters:

- the 32 random bytes of a reset secret;
- the current time;
- whether the reset e-mail was delivered;
- the id the store assigns to a new document.

On top of the contracts of single handlers, the `Lifecycle` module proves:

- **Store invariant.** Every handler preserves the store invariant: unique ids and emails, validated documents, token rows that belong to users, one row per user, and the thirty-minute window.
- **Reset secrets.** Assuming SHA-256 has no collisions, only the secret of the latest forgot-password resets a password, and only within thirty minutes. A redeemed secret is not consumed: it can be replayed while its row is live.
- **Sign-in after a change.** Registering, resetting or changing a password lets the user sign in with the new password. The one exception is a "new" password equal to the stored digest: Mongoose does not mark it modified, so the store is left as it was. An update never changes who can sign in.
- **Update.** An update is idempotent, and reading the profile afterwards shows what the update answered.
- **Search.** Search returns exactly the other users whose name or email contains the query, ignoring ASCII case.

Files:

| file | module | contents |
|---|---|---|
| `seqs.dfy` | `Seqs` | `Option`, first-match search, deletion at an index |
| `js_text.dfy` | `JsText` | JavaScript white space, `trim`, ASCII case folding, substring search |
| `email_pattern.dfy` | `EmailPattern` | the schema's e-mail pattern as a recogniser, as written and as intended |
| `crypto.dfy` | `Crypto` | the abstract primitives, hex encoding, the reset-secret format |
| `user_schema.dfy` | `UserSchema` | the user document, validation, the pre-save hook, `create` |
| `store.dfy` | `Store` | the two collections, their lookups, the token-row rewrite, the invariant |
| `http.dfy` | `Http` | replies, messages, cookies, the public views of a user |
| `auth_controllers.dfy` | `Auth` | the authentication handlers |
| `user_controllers.dfy` | `Profiles` | the profile handlers |
| `lifecycle.dfy` | `Lifecycle` | properties relating several handler calls |

Modelling choices:

- A request field that is absent is the empty string. JavaScript treats it as false, just like `undefined`. The exception is forgot-password's email, which goes straight into a query. There an absent email (`None`) is a filter with no condition, which finds the first stored user.
- Lookups by email use the trimmed email, because Mongoose applies the `trim` setter to query values as well.
- A handler that throws without calling `res.status` leaves Express's default status, 200 (`Http.UnsetStatus`). The error middleware that could turn such a failure into another status is not part of this model, so the model records the status the handler left.
- Validation runs before the pre-save hook, as in Mongoose.
- Assigning `user.password` marks the path modified only when the new value differs from the stored one (`UserSchema.Assign`). Only a modified path is hashed and checked against the six-character minimum.
- Email validation uses the corrected pattern (`EmailPattern.ValidEmail`) throughout, not the pattern as written; see "## Findings".

## Model

| member | source | states |
|---|---|---|
| Auth.Register | controllers/authControllers.js:15-66 | The registration failures, each with status 400 and the store unchanged: a missing name, email or password; a password shorter than six characters; an email already registered. Otherwise registration succeeds exactly when the trimmed email is valid under the corrected pattern. A well-formed request whose trimmed email is new but invalid fails with the validation error and the unset status 200. A successful registration appends exactly one user: the given name, the trimmed email, the hash of the password, and the default picture and bio. It answers 201 with that user's public fields, `Sign(id)` and a one-day session cookie. |
| Auth.Login | controllers/authControllers.js:76-127 | Login never changes the store, and every failure is a 400. Missing credentials fail first, then an unknown email. Login succeeds exactly when the password verifies against the digest of the user found by the trimmed email. It then answers with that user's fields, `Sign(id)` and the cookie. "Invalid email or password" means the found user's digest did not verify, and a failure sets no cookie. |
| Auth.LoginOutcome | controllers/authControllers.js:95-125 | Once both fields are present and the email finds user `j`, the reply is decided by `Verify` against user `j`'s digest alone. |
| Auth.Logout | controllers/authControllers.js:130-142 | Logout answers 200, overwrites the cookie with the cleared one and leaves the store alone. |
| Auth.ResetRow | controllers/authControllers.js:162-176 | The stored row is the SHA-256 digest of a secret issued for the user. It is created at `now` and expires thirty minutes (1,800,000 ms) later. |
| Auth.Recipient | controllers/authControllers.js:147-148 | `User.findOne({ email })`: a given email finds the first user with the trimmed email. With no email the filter has no condition, so the first stored user is returned, or none from an empty store. |
| Auth.ForgotPassword | controllers/authControllers.js:145-204 | The user is the one `findOne({ email })` returns: the first user with the trimmed email or, when the request has no email, the first stored user. When there is no such user the handler answers 404 and leaves the store unchanged. Otherwise the user's oldest row is deleted and one new row is appended, with digest `Sha(hex(random) ++ id)` and expiry `now + 30 min`. Other users' rows and all users stay as they were. The reply is 200, or 500 when delivery failed; either way the row is already stored. |
| Auth.ResetPassword | controllers/authControllers.js:206-235 | Reset never touches the token rows, and a failure leaves the store unchanged. It answers 404 exactly when no row carries the digest of the presented secret with an expiry after `now`. It succeeds exactly when the owner of the first such row is stored, that owner's document validates, and the password is acceptable: at least six characters, or equal to the stored digest. A live row whose owner is gone answers the null-user error, and a rejected document or password the validation error, both with the unset status 200. On success only that owner's password changes. It becomes the hash of the new password, or stays the stored digest when that digest was sent. |
| Auth.ChangePassword | controllers/authControllers.js:237-269 | Change-password checks, in order: the caller exists, both fields are present, old ≠ new, and the old password verifies. Each check fails with 400 and leaves the store unchanged. Success happens exactly when all four checks pass, the caller's document validates, and the new password is acceptable: at least six characters, or equal to the stored digest. When the four checks pass but the document or the new password is rejected, the reply is the validation error with the unset status 200. On success only the caller's password changes. It becomes the hash of the new one, or stays as it was when the stored digest was sent. |
| Profiles.GetUser | controllers/userControllers.js:5-21 | Get-user succeeds exactly when the caller is stored, and then answers exactly that user's id, name, email, picture and bio. Otherwise it answers 400 "User Not Found". |
| Profiles.Updated | controllers/userControllers.js:29-33 | The id and password stay, and the email is reassigned to its own trimmed value, so a stored (already trimmed) email is unchanged. Name, picture and bio each take the request value when it is non-empty, and the old value otherwise. |
| Profiles.UpdateUser | controllers/userControllers.js:23-48 | A missing caller answers 404 with the store unchanged. The update succeeds exactly when the merged document validates, using the corrected email pattern; otherwise it answers the validation error with the unset status 200. A successful update replaces only the caller's document and answers that document's public fields. The token rows never change. |
| Profiles.HitIff | controllers/userControllers.js:58-63 | The handler's left-to-right scan accepts a user exactly when the user is not the caller and the query occurs at some offset of the name or email, ignoring ASCII case. |
| Profiles.Matching | controllers/userControllers.js:58-64 | `find` keeps exactly the users that pass the filter: every kept user is in the store and passes, and every passing user is kept. |
| Profiles.MatchingPositions | controllers/userControllers.js:58-64 | `find` returns the passing users in store order, each once: the k-th hit is the store's user at position `p[k]`, the positions strictly increase, and they are exactly the positions of the passing users. |
| Profiles.SearchUsers | controllers/userControllers.js:50-73 | An empty query answers 400, and no match answers 404 rather than an empty list. Otherwise search answers 200 with a non-empty list. The list never contains the caller. Every entry is a passing user's summary, and every passing user's summary is in the list. |
| UserSchema.HashIfModified | models/Users.js:41-46 | The pre-save hook replaces a modified password by its hash, never the plaintext. It keeps an unmodified password as stored and touches no other path. |
| UserSchema.Save | models/Users.js:6-46 | A save succeeds exactly when: the name and picture are present; the email matches the corrected pattern; a password assigned a new value has at least six characters; and the bio has at most 250. A short new password or a long bio are among the reported paths. The saved document passes validation and differs from the draft at most in the hashed password. |
| UserSchema.AssignedSave | models/Users.js:20-46 | Saving a loaded user after `user.password = p` succeeds exactly when the rest of the document validates and `p` is acceptable: at least six characters, or equal to the stored digest. The saved user differs from the loaded one only in the digest. Whenever `p` is new, that digest verifies `p`. |
| UserSchema.CreatedUser | controllers/authControllers.js:39-43 | A user created from name, email and password and saved has the trimmed email, the hash of the password, the placeholder picture URL and the bio "bio". |
| Store.FindByEmail | controllers/authControllers.js:31 | `findOne({ email })` finds the first user with that email, or none exactly when no user has it. |
| Store.FindById | controllers/userControllers.js:6 | `findById` finds the first user with that id, or none exactly when no user has it. |
| Store.FindRowOf | controllers/authControllers.js:156 | `Token.findOne({ userId })` finds the first row of the user, or none exactly when the user has no row. |
| Store.FindLive | controllers/authControllers.js:217-220 | The row found carries the digest and expires strictly after `now`. There is none exactly when no row does. |
| Store.FindLiveLater | controllers/authControllers.js:217-220 | The first live row for a digest at `now` is still the first one at any later time before it expires. |
| Store.DeleteRowOf | controllers/authControllers.js:156-159 | The delete removes the user's oldest row and no other row. Every kept row was a row before, and with one row per user the user has no row left. |
| Store.Reissue | controllers/authControllers.js:156-176 | After delete-then-save, the user's rows are the older rows minus the oldest, followed by the new row. Other users' rows are unchanged, and the one-row-per-user discipline is kept. |
| Store.AtMostOneRow | controllers/authControllers.js:156-159 | With one row per user, the row `findOne` returns is all the user has. |
| JsText.TrimStrips | models/Users.js:14 | `trim` cuts only white space from the two ends, and the result neither starts nor ends with white space. |
| JsText.TrimIdempotent | models/Users.js:14 | Trimming a trimmed value changes nothing. |
| JsText.ContainsFoldedIff | controllers/userControllers.js:60-61 | The case-insensitive scan finds the query exactly when it occurs, up to ASCII case, at some offset. |
| EmailPattern.RecogniseIff | models/Users.js:16 | Splitting at the last '@' accepts exactly the strings that split, at some '@', into an accepted local part and a domain. This is the language of the anchored pattern. |
| EmailPattern.DottedIff | models/Users.js:16 | The atom alternative accepts exactly the non-empty strings of atom characters and single dots that neither start nor end with a dot. |
| EmailPattern.HostNameIff | models/Users.js:16 | A host name is exactly one or more dot-terminated labels of letters, digits and '-', then a top-level label of at least two ASCII letters. |
| EmailPattern.DomainHasNoAt | models/Users.js:16 | No domain, bracketed or named, contains an '@'. |
| EmailPattern.SplitIsLastAt | models/Users.js:16 | Because domains have no '@', an address can only split at its last '@'. |
| EmailPattern.DotAtomLocal | models/Users.js:16 | A local part that is not quoted is non-empty atoms joined by single dots, with no white space and none of `<>()[]\.,;:@"`. |
| EmailPattern.ValidEmailIsTrimmed | models/Users.js:14-16 | A valid address is non-empty and has no white space at either end, so `trim` leaves a stored address alone. |
| EmailPattern.AsWrittenRefusesQuoted | models/Users.js:16 | The quoted alternative as written refuses every properly quoted local part whose first quoted character is not a quote. |
| EmailPattern.AcceptsQuoted | models/Users.js:16 | The corrected quoted alternative accepts every quoted local part, with any domain. |
| EmailPattern.QuotedCounterexample | models/Users.js:16 | `"john"@example.com` is refused as written and accepted as intended. |
| EmailPattern.PrefixedQuoteCounterexample | models/Users.js:16 | `x"john"@example.com` is accepted as written and refused as intended. |
| Crypto.Hex | controllers/authControllers.js:162 | `toString("hex")` writes two lower-case digits per byte, high nibble first. |
| Crypto.HexRoundTrip | controllers/authControllers.js:162 | Decoding the hex text gives back the random bytes. |
| Crypto.ResetSecret | controllers/authControllers.js:162 | The secret is the 64-digit hex text of the random bytes, which decodes back to them, followed by the user id. |
| Crypto.ResetSecretInjective | controllers/authControllers.js:162 | Two secrets are equal only when both the random bytes and the user ids are equal. |
| Lifecycle.RegisterKeepsValid | controllers/authControllers.js:31-43 | Registration keeps the store invariant. |
| Lifecycle.ForgotKeepsValid | controllers/authControllers.js:156-176 | Forgot-password keeps the store invariant. |
| Lifecycle.ResetKeepsValid | controllers/authControllers.js:228-230 | Reset-password keeps the store invariant. |
| Lifecycle.ChangeKeepsValid | controllers/authControllers.js:258-262 | Change-password keeps the store invariant. |
| Lifecycle.UpdateKeepsValid | controllers/userControllers.js:25-35 | Update keeps the store invariant. |
| Lifecycle.ResetSucceedsIff | controllers/authControllers.js:211-230 | In a valid store, a reset succeeds exactly when a live row carries the digest of the secret and the new password is acceptable over its owner's digest. |
| Lifecycle.ChangeSucceedsIff | controllers/authControllers.js:240-262 | In a valid store, a password change succeeds exactly when: the caller is stored; both fields are present and differ; the old password verifies; and the new one is acceptable over the stored digest. |
| Lifecycle.ForgotWithoutEmail | controllers/authControllers.js:147-176 | A forgot-password request without an email issues a fresh secret for the first stored user. Only an empty store answers 404. |
| Lifecycle.ForgotLeavesOneRow | controllers/authControllers.js:155-176 | After forgot-password the user has exactly one row, the one just written. |
| Lifecycle.ForgotIssuesOneSecret | controllers/authControllers.js:162-176 | After forgot-password at time `t`, a secret of the user finds a live row exactly when it was built from the same random bytes and `now < t + 30 min`. This assumes SHA-256 has no collisions. |
| Lifecycle.LatestSecretResets | controllers/authControllers.js:156-225 | After forgot-password, a reset with a secret of the user succeeds exactly when: it is the latest secret, thirty minutes have not passed, and the new password is acceptable over the user's digest. Any earlier secret is dead. This assumes SHA-256 has no collisions. |
| Lifecycle.ResetReplays | controllers/authControllers.js:217-230 | A redeemed secret is not consumed. From the first reset until the row it redeemed expires, the same secret resets the password again. It accepts any password that is acceptable over the digest the first reset left. |
| Lifecycle.RegisterThenLogin | controllers/authControllers.js:31-125 | Right after registration: login with the same email and password returns the new account; reading the profile returns it; and a password with a different digest is refused. |
| Lifecycle.LoginAfterPasswordReplaced | controllers/authControllers.js:87-125 | Once a password other than the stored digest has been assigned and saved, login with it signs the user in. A password with a different digest is refused. |
| Lifecycle.ChangeThenLogin | controllers/authControllers.js:258-263 | After a change to a password other than the stored digest, the caller signs in with the new password and is refused with the old one, unless both have the same digest. |
| Lifecycle.ResetThenLogin | controllers/authControllers.js:228-231 | After a reset to a password other than the stored digest, the owner of the redeemed row signs in with the new password. |
| Lifecycle.ChangeToStoredDigest | controllers/authControllers.js:240-262 | In a valid store, a change that passes the handler's own checks and whose new password is exactly the stored digest succeeds, whatever the digest's length. It leaves the store as it was. |
| Lifecycle.ResetToStoredDigest | controllers/authControllers.js:217-230 | In a valid store, a reset with a live secret whose new password is exactly the owner's stored digest succeeds, whatever the digest's length. It leaves the store as it was. |
| Lifecycle.UpdateKeepsCredentials | controllers/userControllers.js:29-33 | With trimmed stored emails, an update changes no id, email or password. |
| Lifecycle.UpdateKeepsLogin | controllers/userControllers.js:29-30 | Hence every login attempt has the same outcome before and after an update. |
| Lifecycle.UpdateKeepsLoginWhenValid | controllers/userControllers.js:29-35 | In a valid store, every login attempt has the same outcome before and after an update. |
| Lifecycle.UpdateIdempotent | controllers/userControllers.js:29-35 | Sending the same successful update a second time answers the same and changes nothing more. |
| Lifecycle.UpdateThenGet | controllers/userControllers.js:36-42 | After a successful update, get-user answers exactly what the update answered. |
| Lifecycle.SearchFindsHits | controllers/userControllers.js:58-71 | With unique ids, a user is in the search results exactly when the filter accepts that user. |
| Lifecycle.SearchIsReference | controllers/userControllers.js:58-64 | A user is in the results exactly when the user is not the caller and the query occurs, up to ASCII case, in the name or the email. |
| Lifecycle.SearchOrder | controllers/userControllers.js:58-71 | A successful search answers one summary per passing user, in store order: the k-th entry is the summary of the store's user at position `p[k]`, the positions strictly increase, and they are exactly the positions of the passing users. |
| Lifecycle.SearchDistinctIds | controllers/userControllers.js:58-71 | With unique ids in the store, no user appears twice in a successful search's answer. |
| Seqs.FilterPositions | controllers/userControllers.js:58-64 | Filtering keeps each satisfying element once, in order: the kept elements sit at strictly increasing positions, and those are exactly the positions whose element satisfies the predicate. |

## Left out

- Profiles.SearchUsers: the query is treated as literal text with ASCII-only case folding. MongoDB's `$regex` reads it as a regular expression, and its `i` option also folds non-ASCII letters.
- UserSchema.Save: a password path that was not assigned a new value is not re-validated. It holds the stored digest, which is never shorter than six characters. String lengths are counted in characters rather than JavaScript's UTF-16 code units.
- UserSchema.Save: the failure message is Mongoose's `ValidationError` text. The model keeps only the failing paths and the message's opening words (`Http.Text`).
- The error middleware, which is not part of this model. It turns a thrown error into the response; the model stops at the status the handler set and the error's message.
- The authentication middleware and the `Token` model, which are not part of this model. The caller's id is a parameter of the profile and change-password handlers.
- The salting and cost of bcrypt, the contents and one-day expiry of the signed session token, and SHA-256 itself. They are fields of `Primitives`.
- `randomBytes`, `Date.now()` and `sendEmail`. They are parameters: the random bytes, `now` and a `delivered` flag. The reset URL, subject and HTML body of the e-mail are not modelled.
- Cookie attributes (path, `httpOnly`, `sameSite`, `secure`), which are the same on every call. Only "set to a token expiring at time t" and "cleared" are modelled.
- Concurrency and storage: interleaved requests, the delete-then-insert race in forgot-password, and the unique index on email. In a sequential run the registration pre-check already keeps emails unique.
- The `friends` list and the `createdAt`/`updatedAt` timestamps, which no handler in the core reads.
- The "Invalied user data" branch of registration. `User.create` either returns the saved document or throws, so that branch is unreachable.
- Request values that are not strings (numbers, arrays or objects in the JSON body). A field is either a string or absent.
- Express wiring. The routes file lists neither change-password nor search, and the profile router is never mounted. The handlers are modelled as written, whether reachable or not.
- Auth.Register: the email is checked against the corrected pattern, not the pattern as written (see "## Findings"), so an address such as `"john"@example.com` registers here and `x"john"@example.com` does not.
- UserSchema.Save: `UserSchema.WellFormed` and `UserSchema.Violations` use the corrected email pattern, not the one as written.
- Profiles.UpdateUser: validation of the merged document uses the corrected email pattern, not the one as written.
- Auth.ForgotPassword: the source reads `Date.now()` twice, once for `createdAt` and once for `expiresAt`. The model reads the clock once, so the stored window is exactly thirty minutes.
- Auth.Register: the handler's own six-character check on the password counts characters, not JavaScript's UTF-16 code units. So a password such as three astral-plane emoji, which has JavaScript length 6, is refused here as too short.
- Auth.Register: the id of the new document is a parameter, required to be unused, in place of ObjectId generation.

## Findings

| source | as written | input that shows it | evidently intended | confidence | as-written member | corrected member |
|---|---|---|---|---|---|---|
| models/Users.js:16 | the quoted alternative of the local part is `.(".+")`: one arbitrary character, then the quoted string | `"john"@example.com` is refused, while `x"john"@example.com` is accepted | `(".+")`, a quoted local part with nothing before the opening quote | not executed | EmailPattern.QuotedCounterexample | EmailPattern.AcceptsQuoted |

`EmailPattern.ValidEmailAsWritten` recognises the pattern as written. `EmailPattern.AsWrittenRefusesQuoted` and `EmailPattern.PrefixedQuoteCounterexample` give the general and the reverse form of the discrepancy. Since the pattern has no `u` flag, the leading `.` of the as-written alternative matches one UTF-16 code unit, so `EmailPattern.QuotedAsWritten` admits only a basic-plane character there. The schema in this model (`UserSchema.WellFormed`) uses the corrected `EmailPattern.ValidEmail`.
