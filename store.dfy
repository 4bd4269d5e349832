// The whole database: one value per table, and the lookups the policies
// perform against it.
module Store {
  import opened Wrappers
  import Users
  import Sessions
  import Guilds
  import Memberships
  import Posts
  import Comments
  import Votes
  import Blocks
  import Registrations
  import Resets
  import Reports
  import Policies

  datatype Db = Db(
    users: Users.Table,
    sessions: Sessions.Table,
    guilds: Guilds.Table,
    memberships: Memberships.Table,
    posts: Posts.Table,
    comments: Comments.Table,
    postVotes: Votes.Table,
    commentVotes: Votes.Table,
    blocks: Blocks.Table,
    registrations: Registrations.Table,
    resets: Resets.Table,
    reports: Reports.Table)
  {
    /** Every keyed table is consistent with its key column and serial. */
    predicate Valid()
    {
      users.Valid() && sessions.Valid() && guilds.Valid() && memberships.Valid() &&
      posts.Valid() && comments.Valid() && registrations.Valid() && reports.Valid()
    }
  }

  /** `find_by_session_id` against the database, as the policies see it. */
  function SessionLookup(db: Db): (f: string -> Lookup<Sessions.UserSession>)
    ensures forall token :: f(token).Found? <==> token in db.sessions.rows
    ensures forall token :: f(token).Found? ==> f(token).row == db.sessions.rows[token]
  {
    (token: string) => Lookup.Of(Sessions.FindBySessionId(db.sessions, token))
  }

  /** `User::find_by_id` against the database. */
  function UserLookup(db: Db): (f: int -> Lookup<Users.User>)
    ensures forall id :: f(id).Found? <==> id in db.users.rows
    ensures forall id :: f(id).Found? ==> f(id).row == db.users.rows[id]
  {
    (id: int) => Lookup.Of(Users.FindById(db.users, id))
  }

  /** `find_by_user_and_guild_tag(user_id, tag)` against the database. */
  function MembershipLookup(db: Db, tag: string): (f: int -> Lookup<Memberships.Membership>)
    requires db.Valid()
    ensures forall u :: f(u) == Lookup.Of(Memberships.FindByUserAndGuildTag(db.memberships, u, tag))
  {
    (u: int) => Lookup.Of(Memberships.FindByUserAndGuildTag(db.memberships, u, tag))
  }

  /** The tag a guild policy reads memberships of; the site policies read none. */
  function PolicyTag(p: Policies.Policy): string
  {
    match p
    case GuildAdmin(tag) => tag
    case GuildMember(tag) => tag
    case GuildModeratorOrAdmin(tag) => tag
    case _ => ""
  }

  /** `validate_session` run against the database with the request's cookie. */
  function Validate(db: Db, cookie: Option<string>): (r: Policies.Validation)
    requires db.Valid()
    ensures cookie.None? ==> r == Policies.Validation(None, false)
    ensures r.dropCookie <==> cookie.Some? && cookie.value !in db.sessions.rows
    ensures r.user.Some? <==>
      cookie.Some? && cookie.value in db.sessions.rows && db.sessions.rows[cookie.value].userId in db.users.rows
    ensures r.user.Some? ==> r.user.value == db.users.rows[db.sessions.rows[cookie.value].userId]
  {
    Policies.ValidateSession(cookie, SessionLookup(db), UserLookup(db))
  }

  /** The user the cookie signs in, if any. */
  function Viewer(db: Db, cookie: Option<string>): Option<Users.User>
    requires db.Valid()
  {
    Validate(db, cookie).user
  }

  /** The cookie after `validate_session`: the `session_id` key is removed when it names no session. */
  function CookieAfter(db: Db, cookie: Option<string>): (c: Option<string>)
    requires db.Valid()
    ensures c.None? <==> cookie.None? || cookie.value !in db.sessions.rows
    ensures c.Some? ==> c == cookie
  {
    if Validate(db, cookie).dropCookie then None else cookie
  }

  /** The outcome of policy `p` for the request's cookie, against the database. */
  function Verdict(db: Db, cookie: Option<string>, p: Policies.Policy): (r: Policies.Outcome)
    requires db.Valid()
    ensures r.ExactlyOne()
    ensures r.Passed() ==> r.user == Viewer(db, cookie)
  {
    Policies.Decide(p, Viewer(db, cookie), MembershipLookup(db, PolicyTag(p)))
  }

  /** The user a passing verdict hands to the handler. */
  function Caller(db: Db, cookie: Option<string>, p: Policies.Policy): (u: Users.User)
    requires db.Valid() && Verdict(db, cookie, p).Passed()
    ensures Viewer(db, cookie) == Some(u)
  {
    Verdict(db, cookie, p).user.value
  }
}
