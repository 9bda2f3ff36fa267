/**
 * Shared vocabulary of the model: optional values, identifiers, HTTP outcome
 * kinds, the session, and the foreign library calls the application relies on.
 */
module Common {

  datatype Option<+T> = None | Some(value: T)

  /** Every document id (User, Event, RSVP) is the hex text of a MongoDB ObjectId. */
  type UserId = string
  type EventId = string
  type RsvpId = string

  /** A point in time, in milliseconds since the epoch (a JavaScript `Date`). */
  type Instant = int

  /** The non-success HTTP outcomes the handlers and gates answer with. */
  datatype Code = BadRequest | Unauthorized | NotFound | ServerError
  {
    function Status(): (n: int)
      ensures 400 <= n < 600
    {
      match this
      case BadRequest => 400
      case Unauthorized => 401
      case NotFound => 404
      case ServerError => 500
    }
  }

  /** The part of the express session the application reads: `req.session.userId`. */
  datatype Session = Session(userId: Option<UserId>)

  /** `if (req.session.userId)`: present and not the empty string (JavaScript truthiness). */
  predicate SignedIn(s: Session)
  {
    s.userId.Some? && s.userId.value != ""
  }

  /** `event.host.toString() === req.session.userId` */
  predicate IsSessionUser(s: Session, host: UserId)
  {
    s.userId == Some(host)
  }

  /**
   * Library functions whose behaviour is not part of this model:
   * `mongoose.Types.ObjectId.isValid`, `validator.isEmail`, the
   * `normalizeEmail` and `escape` sanitizers, `bcrypt.hash` (with a salt)
   * and `bcrypt.compare`.
   */
  datatype Externals = Externals(
    isValidObjectId: string -> bool,
    isEmail: string -> bool,
    normalizeEmail: string -> string,
    escape: string -> string,
    hash: (string, string) -> string,
    compare: (string, string) -> bool)
}
