// The site administration handlers under src/site/api_handlers. Each runs
// `policy_admin` and then finds the target by its lowercased username.
module SiteHandlers {
  import opened Wrappers
  import Users
  import Policies
  import opened Forum

  /** The user a site handler acts on. */
  function Target(f: Forum, username: string): (r: Option<Users.User>)
    reads f
    requires f.Valid()
    ensures r.Some? ==> r.value.userId in f.db.users.rows && f.db.users.rows[r.value.userId] == r.value
    ensures r.Some? ==> r.value.username == f.prims.lower(username)
    ensures r.None? <==> forall k :: k in f.db.users.rows ==> f.db.users.rows[k].username != f.prims.lower(username)
  {
    Users.FindByUsernameSensitive(f.db.users, f.prims.lower(username))
  }

  /** `POST /ban/{username}`: bans a user who is neither an admin nor already banned. */
  method SiteBanUser(f: Forum, username: string, txFails: bool) returns (resp: Response)
    requires f.Valid()
    modifies f
    ensures f.Valid() && f.cookie == old(f.CookieAfter())
    ensures var out := old(f.Verdict(Policies.SiteAdmin));
      var target := old(Target(f, username));
      resp == (
        if !out.Passed() then Rejected(out)
        else if target.None? then BadRequest(UnknownUser)
        else if target.value.isAdmin then BadRequest(TargetIsAdmin)
        else if target.value.isBanned then BadRequest(AlreadyBanned)
        else if txFails then InternalError(DbFailure)
        else Ok(Done)) &&
      f.db == if resp.Ok? then old(f.db).(users := Users.UpdateBannedStatus(old(f.db).users, target.value.userId, true)) else old(f.db)
  {
    var out := f.Authorize(Policies.SiteAdmin);
    if !out.Passed() {
      return Rejected(out);
    }
    var target := Target(f, username);
    if target.None? {
      return BadRequest(UnknownUser);
    }
    if target.value.isAdmin {
      return BadRequest(TargetIsAdmin);
    }
    if target.value.isBanned {
      return BadRequest(AlreadyBanned);
    }
    if txFails {
      return InternalError(DbFailure);
    }
    f.db := f.db.(users := Users.UpdateBannedStatus(f.db.users, target.value.userId, true));
    resp := Ok(Done);
  }

  /** `POST /unban/{username}`: lifts the site ban of a banned user. */
  method SiteUnbanUser(f: Forum, username: string, txFails: bool) returns (resp: Response)
    requires f.Valid()
    modifies f
    ensures f.Valid() && f.cookie == old(f.CookieAfter())
    ensures var out := old(f.Verdict(Policies.SiteAdmin));
      var target := old(Target(f, username));
      resp == (
        if !out.Passed() then Rejected(out)
        else if target.None? then BadRequest(UnknownUser)
        else if !target.value.isBanned then BadRequest(NotBanned)
        else if txFails then InternalError(DbFailure)
        else Ok(Done)) &&
      f.db == if resp.Ok? then old(f.db).(users := Users.UpdateBannedStatus(old(f.db).users, target.value.userId, false)) else old(f.db)
  {
    var out := f.Authorize(Policies.SiteAdmin);
    if !out.Passed() {
      return Rejected(out);
    }
    var target := Target(f, username);
    if target.None? {
      return BadRequest(UnknownUser);
    }
    if !target.value.isBanned {
      return BadRequest(NotBanned);
    }
    if txFails {
      return InternalError(DbFailure);
    }
    f.db := f.db.(users := Users.UpdateBannedStatus(f.db.users, target.value.userId, false));
    resp := Ok(Done);
  }

  /** `POST /giveadmin/{username}`: makes a user who is not banned a site admin. */
  method SiteMakeUserAdmin(f: Forum, username: string, txFails: bool) returns (resp: Response)
    requires f.Valid()
    modifies f
    ensures f.Valid() && f.cookie == old(f.CookieAfter())
    ensures var out := old(f.Verdict(Policies.SiteAdmin));
      var target := old(Target(f, username));
      resp == (
        if !out.Passed() then Rejected(out)
        else if target.None? then BadRequest(UnknownUser)
        else if target.value.isAdmin then BadRequest(AlreadyAdmin)
        else if target.value.isBanned then BadRequest(UserBanned)
        else if txFails then InternalError(DbFailure)
        else Ok(Done)) &&
      f.db == if resp.Ok? then old(f.db).(users := Users.UpdateAdminStatus(old(f.db).users, target.value.userId, true)) else old(f.db)
  {
    var out := f.Authorize(Policies.SiteAdmin);
    if !out.Passed() {
      return Rejected(out);
    }
    var target := Target(f, username);
    if target.None? {
      return BadRequest(UnknownUser);
    }
    if target.value.isAdmin {
      return BadRequest(AlreadyAdmin);
    }
    if target.value.isBanned {
      return BadRequest(UserBanned);
    }
    if txFails {
      return InternalError(DbFailure);
    }
    f.db := f.db.(users := Users.UpdateAdminStatus(f.db.users, target.value.userId, true));
    resp := Ok(Done);
  }

  /** `POST /verify/{username}`: marks a user who is not banned as verified. */
  method SiteVerifyUser(f: Forum, username: string, txFails: bool) returns (resp: Response)
    requires f.Valid()
    modifies f
    ensures f.Valid() && f.cookie == old(f.CookieAfter())
    ensures var out := old(f.Verdict(Policies.SiteAdmin));
      var target := old(Target(f, username));
      resp == (
        if !out.Passed() then Rejected(out)
        else if target.None? then BadRequest(UnknownUser)
        else if target.value.isVerified then BadRequest(AlreadyVerified)
        else if target.value.isBanned then BadRequest(UserBanned)
        else if txFails then InternalError(DbFailure)
        else Ok(Done)) &&
      f.db == if resp.Ok? then old(f.db).(users := Users.UpdateVerifiedStatus(old(f.db).users, target.value.userId, true)) else old(f.db)
  {
    var out := f.Authorize(Policies.SiteAdmin);
    if !out.Passed() {
      return Rejected(out);
    }
    var target := Target(f, username);
    if target.None? {
      return BadRequest(UnknownUser);
    }
    if target.value.isVerified {
      return BadRequest(AlreadyVerified);
    }
    if target.value.isBanned {
      return BadRequest(UserBanned);
    }
    if txFails {
      return InternalError(DbFailure);
    }
    f.db := f.db.(users := Users.UpdateVerifiedStatus(f.db.users, target.value.userId, true));
    resp := Ok(Done);
  }

  /** `POST /delete/{username}`: deletes a user who is not a site admin. */
  method SiteDeleteUser(f: Forum, username: string, txFails: bool) returns (resp: Response)
    requires f.Valid()
    modifies f
    ensures f.Valid() && f.cookie == old(f.CookieAfter())
    ensures var out := old(f.Verdict(Policies.SiteAdmin));
      var target := old(Target(f, username));
      resp == (
        if !out.Passed() then Rejected(out)
        else if target.None? then BadRequest(UnknownUser)
        else if target.value.isAdmin then Forbidden(TargetIsAdmin)
        else if txFails then InternalError(DbFailure)
        else Ok(Done)) &&
      f.db == if resp.Ok? then old(f.db).(users := Users.Delete(old(f.db).users, target.value.userId)) else old(f.db)
  {
    var out := f.Authorize(Policies.SiteAdmin);
    if !out.Passed() {
      return Rejected(out);
    }
    var target := Target(f, username);
    if target.None? {
      return BadRequest(UnknownUser);
    }
    if target.value.isAdmin {
      return Forbidden(TargetIsAdmin);
    }
    if txFails {
      return InternalError(DbFailure);
    }
    f.db := f.db.(users := Users.Delete(f.db.users, target.value.userId));
    resp := Ok(Done);
  }
}
