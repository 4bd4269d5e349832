// Session validation and the six authorization policies
// (src/utils/session_validation.rs), as pure decision trees over the
// outcomes of the lookups they perform. Each lookup is a function
// parameter, so a policy that never consults it is visibly independent of it.
module Policies {
  import opened Wrappers
  import Users
  import Sessions
  import Memberships

  type User = Users.User
  type Membership = Memberships.Membership

  /** The three rejection texts: "You are banned.", "You are banned from this guild.", "Forbidden.". */
  datatype Denial = SiteBanned | GuildBanned | NotAllowed

  /** A policy's `(Option<HttpResponse>, Option<User>)` pair; every rejection is a Forbidden response. */
  datatype Outcome = Outcome(response: Option<Denial>, user: Option<User>)
  {
    predicate Passed()
    {
      response.None? && user.Some?
    }

    /** The shape every handler relies on: a response or a user, never both and never neither. */
    predicate ExactlyOne()
    {
      response.Some? != user.Some?
    }
  }

  function Pass(u: User): Outcome { Outcome(None, Some(u)) }

  function Reject(d: Denial): Outcome { Outcome(Some(d), None) }

  /** What `validate_session` returns, and whether it removed the `session_id` key from the cookie. */
  datatype Validation = Validation(user: Option<User>, dropCookie: bool)

  /**
   * `validate_session`. A cookie value that cannot be read counts as
   * absent (`cookie == None`). A token without a session row drops the
   * cookie key; every other outcome, lookup errors included, keeps it. The
   * user is returned whatever its `is_banned` flag, and no path yields an
   * error.
   */
  function ValidateSession(
    cookie: Option<string>,
    findSession: string -> Lookup<Sessions.UserSession>,
    findUser: int -> Lookup<User>): (r: Validation)
    ensures cookie.None? ==> r == Validation(None, false)
    ensures r.dropCookie <==> cookie.Some? && findSession(cookie.value).Missing?
    ensures r.user.Some? <==>
      cookie.Some? && findSession(cookie.value).Found? && findUser(findSession(cookie.value).row.userId).Found?
    ensures r.user.Some? ==> r.user.value == findUser(findSession(cookie.value).row.userId).row
  {
    match cookie
    case None => Validation(None, false)
    case Some(token) =>
      match findSession(token)
      case Found(s) =>
        (match findUser(s.userId)
         case Found(u) => Validation(Some(u), false)
         case Missing => Validation(None, false)
         case Failed => Validation(None, false))
      case Missing => Validation(None, true)
      case Failed => Validation(None, false)
  }

  /** `policy_user`: a resolved user who is not site-banned. */
  function PolicyUser(v: Option<User>): (r: Outcome)
    ensures r.ExactlyOne()
    ensures r.Passed() <==> v.Some? && !v.value.isBanned
    ensures r.Passed() ==> r.user == v
    ensures v.Some? && v.value.isBanned ==> r == Reject(SiteBanned)
    ensures v.None? ==> r == Reject(NotAllowed)
  {
    match v
    case Some(u) => if u.isBanned then Reject(SiteBanned) else Pass(u)
    case None => Reject(NotAllowed)
  }

  /** `policy_self`: a non-banned user whose username equals `username` exactly (no case folding). */
  function PolicySelf(username: string, v: Option<User>): (r: Outcome)
    ensures r.ExactlyOne()
    ensures r.Passed() <==> v.Some? && !v.value.isBanned && v.value.username == username
    ensures r.Passed() ==> r.user == v
    ensures v.Some? && v.value.isBanned ==> r == Reject(SiteBanned)
    ensures !r.Passed() && !(v.Some? && v.value.isBanned) ==> r == Reject(NotAllowed)
  {
    match v
    case Some(u) =>
      if u.isBanned then Reject(SiteBanned)
      else if u.username == username then Pass(u)
      else Reject(NotAllowed)
    case None => Reject(NotAllowed)
  }

  /** `policy_admin`: a resolved site admin. The ban flag is not consulted. */
  function PolicyAdmin(v: Option<User>): (r: Outcome)
    ensures r.ExactlyOne()
    ensures r.Passed() <==> v.Some? && v.value.isAdmin
    ensures r.Passed() ==> r.user == v
    ensures !r.Passed() ==> r == Reject(NotAllowed)
  {
    match v
    case Some(u) => if u.isAdmin then Pass(u) else Reject(NotAllowed)
    case None => Reject(NotAllowed)
  }

  /**
   * The part the three guild policies share: reject a site-banned user,
   * pass a site admin without looking up a membership, otherwise decide on
   * the caller's membership in the guild (`m(user_id)`), where a missing
   * row and a lookup error are both "Forbidden.".
   */
  function GuildGate(v: Option<User>, m: int -> Lookup<Membership>, role: Membership -> Option<Denial>): (r: Outcome)
    ensures r.ExactlyOne()
    ensures r.Passed() ==> r.user == v
  {
    match v
    case None => Reject(NotAllowed)
    case Some(u) =>
      if u.isBanned then Reject(SiteBanned)
      else if u.isAdmin then Pass(u)
      else match m(u.userId)
        case Found(ms) => (match role(ms) case None => Pass(u) case Some(d) => Reject(d))
        case Missing => Reject(NotAllowed)
        case Failed => Reject(NotAllowed)
  }

  /** `policy_guild_admin` on the caller's membership: `is_admin`, with `is_banned` ignored. */
  function AdminRole(ms: Membership): Option<Denial>
  {
    if ms.isAdmin then None else Some(NotAllowed)
  }

  /** `policy_guild_member` on the caller's membership: any row that is not guild-banned. */
  function MemberRole(ms: Membership): Option<Denial>
  {
    if ms.isBanned then Some(GuildBanned) else None
  }

  /** `policy_guild_moderator_or_admin` on the caller's membership: `is_admin || is_moderator`, ban ignored. */
  function ModeratorRole(ms: Membership): Option<Denial>
  {
    if ms.isAdmin || ms.isModerator then None else Some(NotAllowed)
  }

  /** The caller is a signed-in, non-banned user who is not a site admin: the only case that reads `m`. */
  predicate Ordinary(v: Option<User>)
  {
    v.Some? && !v.value.isBanned && !v.value.isAdmin
  }

  function PolicyGuildAdmin(v: Option<User>, m: int -> Lookup<Membership>): (r: Outcome)
    ensures r.ExactlyOne()
    ensures r.Passed() ==> r.user == v
    ensures v.None? ==> r == Reject(NotAllowed)
    ensures v.Some? && v.value.isBanned ==> r == Reject(SiteBanned)
    ensures v.Some? && !v.value.isBanned && v.value.isAdmin ==> r == Pass(v.value)
    ensures Ordinary(v) ==> (r.Passed() <==> m(v.value.userId).Found? && m(v.value.userId).row.isAdmin)
    ensures Ordinary(v) && !r.Passed() ==> r == Reject(NotAllowed)
  {
    GuildGate(v, m, AdminRole)
  }

  function PolicyGuildMember(v: Option<User>, m: int -> Lookup<Membership>): (r: Outcome)
    ensures r.ExactlyOne()
    ensures r.Passed() ==> r.user == v
    ensures v.None? ==> r == Reject(NotAllowed)
    ensures v.Some? && v.value.isBanned ==> r == Reject(SiteBanned)
    ensures v.Some? && !v.value.isBanned && v.value.isAdmin ==> r == Pass(v.value)
    ensures Ordinary(v) ==> (r.Passed() <==> m(v.value.userId).Found? && !m(v.value.userId).row.isBanned)
    ensures Ordinary(v) && m(v.value.userId).Found? && m(v.value.userId).row.isBanned ==> r == Reject(GuildBanned)
    ensures Ordinary(v) && !m(v.value.userId).Found? ==> r == Reject(NotAllowed)
  {
    GuildGate(v, m, MemberRole)
  }

  function PolicyGuildModeratorOrAdmin(v: Option<User>, m: int -> Lookup<Membership>): (r: Outcome)
    ensures r.ExactlyOne()
    ensures r.Passed() ==> r.user == v
    ensures v.None? ==> r == Reject(NotAllowed)
    ensures v.Some? && v.value.isBanned ==> r == Reject(SiteBanned)
    ensures v.Some? && !v.value.isBanned && v.value.isAdmin ==> r == Pass(v.value)
    ensures Ordinary(v) ==> (r.Passed() <==>
      m(v.value.userId).Found? && (m(v.value.userId).row.isAdmin || m(v.value.userId).row.isModerator))
    ensures Ordinary(v) && !r.Passed() ==> r == Reject(NotAllowed)
  {
    GuildGate(v, m, ModeratorRole)
  }

  /** The policy a handler asks for; the guild policies carry the tag they are evaluated on. */
  datatype Policy =
    | AnyUser
    | SelfNamed(username: string)
    | SiteAdmin
    | GuildAdmin(guildTag: string)
    | GuildMember(guildTag: string)
    | GuildModeratorOrAdmin(guildTag: string)

  /** The policy `p` applied to the validated user, with `m` the membership lookup in `p`'s guild. */
  function Decide(p: Policy, v: Option<User>, m: int -> Lookup<Membership>): (r: Outcome)
    ensures r.ExactlyOne()
    ensures r.Passed() ==> r.user == v && !(p != SiteAdmin && v.value.isBanned)
  {
    match p
    case AnyUser => PolicyUser(v)
    case SelfNamed(name) => PolicySelf(name, v)
    case SiteAdmin => PolicyAdmin(v)
    case GuildAdmin(_) => PolicyGuildAdmin(v, m)
    case GuildMember(_) => PolicyGuildMember(v, m)
    case GuildModeratorOrAdmin(_) => PolicyGuildModeratorOrAdmin(v, m)
  }

  /** Every policy but `policy_admin` rejects a site-banned user first, with "You are banned.", whatever the membership. */
  lemma SiteBanPrecedence(p: Policy, u: User, m: int -> Lookup<Membership>)
    requires p != SiteAdmin && u.isBanned
    ensures Decide(p, Some(u), m) == Reject(SiteBanned)
  {
  }

  /** `policy_admin` lets a banned site admin through. */
  lemma BannedSiteAdminPassesAdminPolicy(u: User, m: int -> Lookup<Membership>)
    requires u.isAdmin && u.isBanned
    ensures Decide(SiteAdmin, Some(u), m) == Pass(u)
  {
  }

  /** A site admin who is not banned passes every guild policy, and no membership lookup is consulted. */
  lemma SiteAdminOverride(p: Policy, u: User, m: int -> Lookup<Membership>, m': int -> Lookup<Membership>)
    requires p.GuildAdmin? || p.GuildMember? || p.GuildModeratorOrAdmin?
    requires u.isAdmin && !u.isBanned
    ensures Decide(p, Some(u), m) == Pass(u)
    ensures Decide(p, Some(u), m) == Decide(p, Some(u), m')
  {
  }

  /** A membership lookup error and a missing membership row lead to the same decision. */
  lemma LookupErrorIsMissingRow(p: Policy, v: Option<User>, m: int -> Lookup<Membership>, m': int -> Lookup<Membership>)
    requires forall k :: (m(k).Failed? && m'(k).Missing?) || m(k) == m'(k)
    ensures Decide(p, v, m) == Decide(p, v, m')
  {
  }

  /** Only the guild policies read the membership at all. */
  lemma SitePoliciesIgnoreMemberships(p: Policy, v: Option<User>, m: int -> Lookup<Membership>, m': int -> Lookup<Membership>)
    requires p.AnyUser? || p.SelfNamed? || p.SiteAdmin?
    ensures Decide(p, v, m) == Decide(p, v, m')
  {
  }

  /** Passing the guild-admin policy implies passing the moderator-or-admin policy. */
  lemma GuildAdminIsModerator(v: Option<User>, m: int -> Lookup<Membership>)
    requires PolicyGuildAdmin(v, m).Passed()
    ensures PolicyGuildModeratorOrAdmin(v, m) == PolicyGuildAdmin(v, m)
  {
  }

  /**
   * The guild admin and moderator policies ignore `membership.is_banned`: a
   * guild-banned admin membership still passes them, while it fails the
   * member policy.
   */
  lemma GuildBanIgnoredByRolePolicies(u: User, m: int -> Lookup<Membership>)
    requires !u.isBanned && !u.isAdmin
    requires m(u.userId).Found? && m(u.userId).row.isAdmin && m(u.userId).row.isBanned
    ensures PolicyGuildAdmin(Some(u), m).Passed()
    ensures PolicyGuildModeratorOrAdmin(Some(u), m).Passed()
    ensures PolicyGuildMember(Some(u), m) == Reject(GuildBanned)
  {
  }

  /**
   * `ban_user` goes on to look up the caller's own membership and refuses a
   * moderator or admin one. A caller who passed the moderator policy and
   * holds a plain membership must therefore be a site admin.
   */
  lemma BanReachableOnlyBySiteAdmin(v: Option<User>, m: int -> Lookup<Membership>)
    requires PolicyGuildModeratorOrAdmin(v, m).Passed()
    requires m(v.value.userId).Found? && !m(v.value.userId).row.isAdmin && !m(v.value.userId).row.isModerator
    ensures v.value.isAdmin && !v.value.isBanned
  {
  }
}
