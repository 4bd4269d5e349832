// The server's shared state, as every handler sees it: the database
// behind the connection pool and the request's `session_id` cookie.
// Each handler module takes a `Forum` and replies with a `Response`.
module Forum {
  import opened Wrappers
  import Text
  import Users
  import Sessions
  import Registrations
  import Store
  import Policies
  import Listings

  /** Why a handler answered with something other than `Ok`: one constructor per guard. */
  datatype Why =
    | Denied(denial: Policies.Denial)   // the policy's own Forbidden response
    | DbFailure                         // an insert, update, delete or commit failed
    | ReadFailed                        // a listing query or a lookup the handler checks failed
    | CommitFailed                      // login's commit failed after the cookie was set
    | AlreadyLoggedIn | UnknownUser | UserBanned | WrongPassword | AlreadyLoggedOut
    | BadGuildTag | BadGuildName | GuildExists | GuildNotFound
    | AlreadyMember | NotMember | AdminCannotLeave | IsModOrAdmin | AlreadyBanned | NotModerator
    | PostNotFound | CommentNotFound | NotAuthor | LongTitle | EmptyTitle | PostLocked | EmptyBody
    | SelfBlock | AlreadyBlocked | NotBlocked
    | TargetIsAdmin | NotBanned | AlreadyAdmin | AlreadyVerified
    | PasswordMismatch | BadUsername | UsernameTaken | UsernameRegistered | EmailTaken | EmailRegistered
    | RegistrationNotFound
    | ResetNotFound | ResetAlreadyVerified | ResetNotVerified
    | EmptyReason | NoTarget | TwoTargets

  /** What an `Ok` response carries. */
  datatype Body =
    | Done
    | ExpiredSession
    | VoteUndone
    | VoteUpdated
    | VoteCast
    | SessionIssued(session: Sessions.UserSessionView)
    | Registered(registration: Registrations.UserRegistrationView)
    | PostList(posts: seq<Listings.DetailedPostView>)
    | CommentList(comments: seq<Listings.DetailedCommentView>)
    | GuildList(guilds: seq<Listings.ShortGuildView>)
    | GuildPage(details: Listings.DetailedGuildView, isMember: bool)
    | PersonalInfo(info: Listings.UserPersonalView)

  /** The HTTP status a handler answers with, and its reason or body. */
  datatype Response =
    | Ok(body: Body)
    | BadRequest(why: Why)
    | Forbidden(why: Why)
    | NotFound(why: Why)
    | NotAcceptable(why: Why)
    | InternalError(why: Why)

  /** The response a handler returns for a rejecting policy outcome. */
  function Rejected(o: Policies.Outcome): (r: Response)
    requires o.response.Some?
    ensures r.Forbidden? && r.why == Denied(o.response.value)
  {
    Forbidden(Denied(o.response.value))
  }

  class Forum {
    /** Every table of the database. */
    var db: Store.Db
    /** The request's `session_id` cookie; `None` when absent or removed. */
    var cookie: Option<string>
    /** Lowercasing, `is_alphanumeric` and bcrypt, which the model leaves abstract. */
    const prims: Text.Primitives

    predicate Valid()
      reads this
    {
      db.Valid()
    }

    constructor (db0: Store.Db, cookie0: Option<string>, prims0: Text.Primitives)
      requires db0.Valid()
      ensures Valid()
      ensures db == db0 && cookie == cookie0 && prims == prims0
    {
      db := db0;
      cookie := cookie0;
      prims := prims0;
    }

    /** The outcome policy `p` gives this request. */
    function Verdict(p: Policies.Policy): (r: Policies.Outcome)
      reads this
      requires Valid()
      ensures r.ExactlyOne()
    {
      Store.Verdict(db, cookie, p)
    }

    /** The cookie once `validate_session` has run. */
    function CookieAfter(): (c: Option<string>)
      reads this
      requires Valid()
      ensures c.Some? ==> c == cookie
    {
      Store.CookieAfter(db, cookie)
    }

    /** The signed-in user, if the cookie names a session of an existing user. */
    function Viewer(): Option<Users.User>
      reads this
      requires Valid()
    {
      Store.Viewer(db, cookie)
    }

    /** Runs `validate_session` alone, as the login handler does. */
    method Validate() returns (user: Option<Users.User>)
      requires Valid()
      modifies this
      ensures Valid()
      ensures db == old(db)
      ensures user == old(Viewer())
      ensures cookie == old(CookieAfter())
    {
      user := Store.Viewer(db, cookie);
      cookie := Store.CookieAfter(db, cookie);
    }

    /**
     * Runs policy `p`: `validate_session` and the policy's lookups read the
     * database, and the cookie is removed when it names no session.
     */
    method Authorize(p: Policies.Policy) returns (out: Policies.Outcome)
      requires Valid()
      modifies this
      ensures Valid()
      ensures db == old(db)
      ensures out == old(Verdict(p))
      ensures cookie == old(CookieAfter())
    {
      out := Store.Verdict(db, cookie, p);
      cookie := Store.CookieAfter(db, cookie);
    }
  }
}
