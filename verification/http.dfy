/** What a handler hands back: the response it sends (status, JSON body or error
    message, and what it does to the `token` cookie) together with the store it
    leaves behind. */
module Http {
  import opened Seqs
  import opened UserSchema
  import opened Store

  /** `res.statusCode` when a handler throws without calling `res.status`: Express's
      default. The error middleware, which is not part of this model, turns the
      thrown error into the response the client sees. */
  const UnsetStatus := 200

  /** One day in milliseconds: the lifetime of the session cookie. */
  const SessionMillis := 1000 * 86400

  /** `res.cookie("token", ...)`: set to a session token expiring at `expires`, or
      overwritten with the empty string and the epoch. Path, `httpOnly`, `sameSite`
      and `secure` are the same on every call and are not modelled. */
  datatype Cookie = SessionCookie(token: string, expires: int) | ClearedCookie

  /** `{ _id, name, email, profilePic, bio }` */
  datatype Profile = Profile(id: UserId, name: string, email: string, profilePic: string, bio: string)

  /** A search hit: `select("name email profilePic")` plus the `_id` it always keeps. */
  datatype Summary = Summary(id: UserId, name: string, email: string, profilePic: string)

  function ProfileOf(u: User): Profile {
    Profile(u.id, u.name, u.email, u.profilePic, u.bio)
  }

  function SummaryOf(u: User): Summary {
    Summary(u.id, u.name, u.email, u.profilePic)
  }

  /** The messages the handlers send, by name. */
  datatype Message =
    | MissingFields | ShortPassword | EmailTaken | ValidationFailed
    | MissingCredentials | UnknownUser | BadCredentials | LoggedOut
    | NoSuchUser | ResetSent | EmailNotSent | BadResetToken | NullUser | ResetDone
    | ChangeNoUser | MissingPasswords | SamePasswords | WrongOldPassword | PasswordChanged
    | ProfileNotFound | UpdateNotFound | QueryRequired | NoMatches

  /** The words of each message. A failed validation is Mongoose's
      `ValidationError`, whose message continues with the failing paths. Reading a
      field of the `null` a lookup returned is a `TypeError`. Nothing in the model
      reads these strings; the function only records which text the handlers send
      for each message. */
  function Text(m: Message): string {
    match m
    case MissingFields => "Please fill up the all required fields"
    case ShortPassword => "Password must be up to 6 characters"
    case EmailTaken => "Email has already been registered"
    case ValidationFailed => "User validation failed"
    case MissingCredentials => "Pleace add email and password"
    case UnknownUser => "User not found, please register"
    case BadCredentials => "Invalid email or password"
    case LoggedOut => "Successfully Logged Out"
    case NoSuchUser => "User does not exist"
    case ResetSent => "Reset Email Sent"
    case EmailNotSent => "Email not sent, please try again"
    case BadResetToken => "Invalid or Expired Token"
    case NullUser => "Cannot set properties of null (setting 'password')"
    case ResetDone => "Password Reset Successful, Please Login"
    case ChangeNoUser => "User not found, Please signup"
    case MissingPasswords => "Please add old and new password"
    case SamePasswords => "Old and new password are same, Please change diffirent password"
    case WrongOldPassword => "Old password is incorrect"
    case PasswordChanged => "Password change successfully"
    case ProfileNotFound => "User Not Found"
    case UpdateNotFound => "User not found"
    case QueryRequired => "Search query is required"
    case NoMatches => "Users not found"
  }

  datatype Body =
    | Account(profile: Profile, token: string)
    | Details(profile: Profile)
    | Note(message: Message)
    | Found(users: seq<Summary>)

  /** A response. A failure is an error thrown to the error middleware, with the
      status the handler set and the error's message; no failing handler touches
      the cookie. */
  datatype Reply =
    | Success(status: int, body: Body, cookie: Option<Cookie>)
    | Failure(status: int, message: Message)

  datatype Step = Step(reply: Reply, db: Db)
}
