// The handlers under src/user/api_handlers: logging in and out, and the
// per-user block list.
module UserHandlers {
  import opened Wrappers
  import Users
  import Sessions
  import Blocks
  import Policies
  import opened Forum

  /**
   * `POST /login`. `token` is the session id `create` would generate;
   * `txFails` makes the insert fail, `cookieFails` the cookie write and
   * `commitFails` the commit that follows it.
   */
  method Login(f: Forum, username: string, password: string, token: string,
               txFails: bool, cookieFails: bool, commitFails: bool) returns (resp: Response)
    requires f.Valid()
    modifies f
    ensures f.Valid()
    ensures old(f.Viewer()).Some? ==> resp == InternalError(AlreadyLoggedIn)
    ensures old(f.Viewer()).None? ==>
      var user := Users.FindByUsernameSensitive(old(f.db).users, f.prims.lower(username));
      resp == (
        if user.None? then InternalError(UnknownUser)
        else if user.value.isBanned then Forbidden(UserBanned)
        else if !Users.VerifyPassword(f.prims.verify, user.value, password) then InternalError(WrongPassword)
        else if txFails || token in old(f.db).sessions.rows || cookieFails then InternalError(DbFailure)
        else if commitFails then InternalError(CommitFailed)
        else Ok(SessionIssued(Sessions.UserSessionView(token, user.value.userId))))
    ensures !resp.Ok? ==> f.db == old(f.db)
    ensures resp.Ok? ==>
      token !in old(f.db).sessions.rows &&
      f.db == old(f.db).(sessions := Sessions.Create(old(f.db).sessions, token, resp.body.session.userId).value.0)
    ensures f.cookie == if resp.Ok? || resp == InternalError(CommitFailed) then Some(token) else old(f.CookieAfter())
  {
    var viewer := f.Validate();
    if viewer.Some? {
      return InternalError(AlreadyLoggedIn);
    }
    var user := Users.FindByUsernameSensitive(f.db.users, f.prims.lower(username));
    if user.None? {
      return InternalError(UnknownUser);
    }
    var u := user.value;
    if u.isBanned {
      return Forbidden(UserBanned);
    }
    if !Users.VerifyPassword(f.prims.verify, u, password) {
      return InternalError(WrongPassword);
    }
    var created := Sessions.Create(f.db.sessions, token, u.userId);
    if txFails || created.None? || cookieFails {
      return InternalError(DbFailure);
    }
    f.cookie := Some(token);
    if commitFails {
      return InternalError(CommitFailed);
    }
    f.db := f.db.(sessions := created.value.0);
    resp := Ok(SessionIssued(created.value.1));
  }

  /**
   * `POST /logout`: deletes the cookie's session and removes the cookie;
   * a cookie naming no session is removed with an "expired session" reply.
   * `txFails` makes the delete or its commit fail.
   */
  method Logout(f: Forum, txFails: bool) returns (resp: Response)
    requires f.Valid()
    modifies f
    ensures f.Valid()
    ensures old(f.cookie).None? ==> resp == InternalError(AlreadyLoggedOut)
    ensures old(f.cookie).Some? && old(f.cookie).value !in old(f.db.sessions.rows) ==>
      resp == Ok(ExpiredSession)
    ensures old(f.cookie).Some? && old(f.cookie).value in old(f.db.sessions.rows) ==>
      resp == if txFails then InternalError(DbFailure) else Ok(Done)
    ensures f.db == if resp == Ok(Done) then old(f.db).(sessions := Sessions.Delete(old(f.db).sessions, old(f.cookie).value)) else old(f.db)
    ensures f.cookie == if resp.Ok? then None else old(f.cookie)
  {
    if f.cookie.None? {
      return InternalError(AlreadyLoggedOut);
    }
    var session := Sessions.FindBySessionId(f.db.sessions, f.cookie.value);
    if session.None? {
      f.cookie := None;
      return Ok(ExpiredSession);
    }
    if txFails {
      return InternalError(DbFailure);
    }
    f.db := f.db.(sessions := Sessions.Delete(f.db.sessions, session.value.sessionId));
    f.cookie := None;
    resp := Ok(Done);
  }

  /**
   * `POST /block/{username}`: adds the named user to the caller's block list.
   * A missing user is refused with the same "already blocked" message as a
   * repeated block.
   */
  method BlockUser(f: Forum, username: string, txFails: bool) returns (resp: Response)
    requires f.Valid()
    modifies f
    ensures f.Valid() && f.cookie == old(f.CookieAfter())
    ensures !old(f.Verdict(Policies.AnyUser)).Passed() ==> resp == Rejected(old(f.Verdict(Policies.AnyUser)))
    ensures old(f.Verdict(Policies.AnyUser)).Passed() ==>
      var u := old(f.Verdict(Policies.AnyUser)).user.value;
      var name := f.prims.lower(username);
      var target := Users.FindByUsernameSensitive(old(f.db).users, name);
      resp == (
        if target.None? then BadRequest(UnknownUser)
        else if target.value.username == u.username then BadRequest(SelfBlock)
        else if Blocks.Block(u.userId, name) in old(f.db).blocks.rows then BadRequest(AlreadyBlocked)
        else if txFails then InternalError(DbFailure)
        else Ok(Done)) &&
      f.db == if resp.Ok? then old(f.db).(blocks := Blocks.Create(old(f.db).blocks, u.userId, name)) else old(f.db)
    ensures !resp.Ok? ==> f.db == old(f.db)
  {
    var out := f.Authorize(Policies.AnyUser);
    if !out.Passed() {
      return Rejected(out);
    }
    var u := out.user.value;
    var name := f.prims.lower(username);
    var target := Users.FindByUsernameSensitive(f.db.users, name);
    if target.None? {
      return BadRequest(UnknownUser);
    }
    if target.value.username == u.username {
      return BadRequest(SelfBlock);
    }
    if Blocks.FindByUserAndBlockedUserUsername(f.db.blocks, u.userId, name).Some? {
      return BadRequest(AlreadyBlocked);
    }
    if txFails {
      return InternalError(DbFailure);
    }
    f.db := f.db.(blocks := Blocks.Create(f.db.blocks, u.userId, name));
    resp := Ok(Done);
  }

  /** `POST /unblock/{username}`: removes the named user from the caller's block list. */
  method UnblockUser(f: Forum, username: string, txFails: bool) returns (resp: Response)
    requires f.Valid()
    modifies f
    ensures f.Valid() && f.cookie == old(f.CookieAfter())
    ensures !old(f.Verdict(Policies.AnyUser)).Passed() ==> resp == Rejected(old(f.Verdict(Policies.AnyUser)))
    ensures old(f.Verdict(Policies.AnyUser)).Passed() ==>
      var u := old(f.Verdict(Policies.AnyUser)).user.value;
      var name := f.prims.lower(username);
      var target := Users.FindByUsernameSensitive(old(f.db).users, name);
      resp == (
        if target.None? then BadRequest(UnknownUser)
        else if Blocks.Block(u.userId, name) !in old(f.db).blocks.rows then BadRequest(NotBlocked)
        else if txFails then InternalError(DbFailure)
        else Ok(Done)) &&
      f.db == if resp.Ok? then old(f.db).(blocks := Blocks.Delete(old(f.db).blocks, u.userId, name)) else old(f.db)
    ensures !resp.Ok? ==> f.db == old(f.db)
  {
    var out := f.Authorize(Policies.AnyUser);
    if !out.Passed() {
      return Rejected(out);
    }
    var u := out.user.value;
    var name := f.prims.lower(username);
    var target := Users.FindByUsernameSensitive(f.db.users, name);
    if target.None? {
      return BadRequest(UnknownUser);
    }
    if Blocks.FindByUserAndBlockedUserUsername(f.db.blocks, u.userId, name).None? {
      return BadRequest(NotBlocked);
    }
    if txFails {
      return InternalError(DbFailure);
    }
    f.db := f.db.(blocks := Blocks.Delete(f.db.blocks, u.userId, name));
    resp := Ok(Done);
  }
}
