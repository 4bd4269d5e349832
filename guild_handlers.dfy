// The handlers under src/guild/api_handlers: creating, joining, leaving and
// removing guilds, guild moderation, and the guild settings updaters.
module GuildHandlers {
  import opened Wrappers
  import Text
  import Users
  import Guilds
  import Memberships
  import Posts
  import Comments
  import Policies
  import opened Forum

  /** The tag and name rules `create_guild` checks before anything else. */
  function GuildFormCheck(f: Forum, guildTag: string, guildName: string): (r: Option<Response>)
    reads f
    ensures r.None? <==>
      Text.AllAlphanumeric(guildTag, f.prims.isAlphanumeric) && Text.ByteLen(guildTag) <= 15 &&
      Text.ByteLen(guildName) <= 25
    ensures r.Some? ==> r.value.NotAcceptable?
  {
    if !Text.AllAlphanumeric(guildTag, f.prims.isAlphanumeric) || Text.ByteLen(guildTag) > 15 then
      Some(NotAcceptable(BadGuildTag))
    else if Text.ByteLen(guildName) > 25 then Some(NotAcceptable(BadGuildName))
    else None
  }

  /**
   * For ASCII input the byte limits are character limits: an alphanumeric
   * tag of at most 15 characters and a name of at most 25 pass the form check.
   */
  lemma AsciiGuildFormCheck(f: Forum, guildTag: string, guildName: string)
    requires Text.IsAscii(guildTag) && Text.IsAscii(guildName)
    ensures GuildFormCheck(f, guildTag, guildName).None? <==>
      Text.AllAlphanumeric(guildTag, f.prims.isAlphanumeric) && |guildTag| <= 15 && |guildName| <= 25
  {
    Text.ByteLenOfAscii(guildTag);
    Text.ByteLenOfAscii(guildName);
  }

  /**
   * `POST /create`: a site admin creates a guild under the lowercased tag and
   * becomes its admin member, in one transaction.
   */
  method CreateGuild(f: Forum, guildTag: string, guildName: string, txFails: bool) returns (resp: Response)
    requires f.Valid()
    modifies f
    ensures f.Valid()
    ensures GuildFormCheck(f, guildTag, guildName).Some? ==>
      resp == GuildFormCheck(f, guildTag, guildName).value && f.cookie == old(f.cookie)
    ensures GuildFormCheck(f, guildTag, guildName).None? ==>
      var tag := f.prims.lower(guildTag);
      var out := old(f.Verdict(Policies.SiteAdmin));
      f.cookie == old(f.CookieAfter()) &&
      resp == (
        if !out.Passed() then Rejected(out)
        else if tag in old(f.db).guilds.rows then InternalError(GuildExists)
        else if txFails then InternalError(DbFailure)
        else Ok(Done)) &&
      (resp.Ok? ==>
        f.db == old(f.db).(
          guilds := Guilds.Create(old(f.db).guilds, tag, guildName).value,
          memberships := Memberships.CreateAsAdmin(old(f.db).memberships, out.user.value.userId, tag)))
    ensures !resp.Ok? ==> f.db == old(f.db)
  {
    var check := GuildFormCheck(f, guildTag, guildName);
    if check.Some? {
      return check.value;
    }
    var tag := f.prims.lower(guildTag);
    var out := f.Authorize(Policies.SiteAdmin);
    if !out.Passed() {
      return Rejected(out);
    }
    if Guilds.FindByGuildTag(f.db.guilds, tag).Some? {
      return InternalError(GuildExists);
    }
    var guilds := Guilds.Create(f.db.guilds, tag, guildName);
    if txFails || guilds.None? {
      return InternalError(DbFailure);
    }
    f.db := f.db.(
      guilds := guilds.value,
      memberships := Memberships.CreateAsAdmin(f.db.memberships, out.user.value.userId, tag));
    resp := Ok(Done);
  }

  /** `POST /join/{guild_tag}`: the caller becomes a plain member of an existing guild. */
  method JoinGuild(f: Forum, guildTag: string, txFails: bool) returns (resp: Response)
    requires f.Valid()
    modifies f
    ensures f.Valid() && f.cookie == old(f.CookieAfter())
    ensures !old(f.Verdict(Policies.AnyUser)).Passed() ==> resp == Rejected(old(f.Verdict(Policies.AnyUser)))
    ensures old(f.Verdict(Policies.AnyUser)).Passed() ==>
      var u := old(f.Verdict(Policies.AnyUser)).user.value;
      var tag := f.prims.lower(guildTag);
      resp == (
        if Memberships.FindByUserAndGuildTag(old(f.db).memberships, u.userId, tag).Some? then BadRequest(AlreadyMember)
        else if tag !in old(f.db).guilds.rows then NotFound(GuildNotFound)
        else if txFails then InternalError(DbFailure)
        else Ok(Done)) &&
      (resp.Ok? ==> f.db == old(f.db).(memberships := Memberships.Create(old(f.db).memberships, u.userId, tag)))
    ensures !resp.Ok? ==> f.db == old(f.db)
  {
    var out := f.Authorize(Policies.AnyUser);
    if !out.Passed() {
      return Rejected(out);
    }
    var u := out.user.value;
    var tag := f.prims.lower(guildTag);
    if Memberships.FindByUserAndGuildTag(f.db.memberships, u.userId, tag).Some? {
      return BadRequest(AlreadyMember);
    }
    if Guilds.FindByGuildTag(f.db.guilds, tag).None? {
      return NotFound(GuildNotFound);
    }
    if txFails {
      return InternalError(DbFailure);
    }
    f.db := f.db.(memberships := Memberships.Create(f.db.memberships, u.userId, tag));
    resp := Ok(Done);
  }

  /** `POST /leave/{guild_tag}`: deletes the caller's membership; guild admins cannot leave. */
  method LeaveGuild(f: Forum, guildTag: string, txFails: bool) returns (resp: Response)
    requires f.Valid()
    modifies f
    ensures f.Valid() && f.cookie == old(f.CookieAfter())
    ensures !old(f.Verdict(Policies.AnyUser)).Passed() ==> resp == Rejected(old(f.Verdict(Policies.AnyUser)))
    ensures old(f.Verdict(Policies.AnyUser)).Passed() ==>
      var u := old(f.Verdict(Policies.AnyUser)).user.value;
      var m := Memberships.FindByUserAndGuildTag(old(f.db).memberships, u.userId, f.prims.lower(guildTag));
      resp == (
        if m.None? then BadRequest(NotMember)
        else if m.value.isAdmin then Forbidden(AdminCannotLeave)
        else if txFails then InternalError(DbFailure)
        else Ok(Done)) &&
      (resp.Ok? ==> f.db == old(f.db).(memberships := Memberships.Delete(old(f.db).memberships, m.value.membershipId)))
    ensures !resp.Ok? ==> f.db == old(f.db)
  {
    var out := f.Authorize(Policies.AnyUser);
    if !out.Passed() {
      return Rejected(out);
    }
    var m := Memberships.FindByUserAndGuildTag(f.db.memberships, out.user.value.userId, f.prims.lower(guildTag));
    if m.None? {
      return BadRequest(NotMember);
    }
    if m.value.isAdmin {
      return Forbidden(AdminCannotLeave);
    }
    if txFails {
      return InternalError(DbFailure);
    }
    f.db := f.db.(memberships := Memberships.Delete(f.db.memberships, m.value.membershipId));
    resp := Ok(Done);
  }

  /**
   * `POST /{guild_tag}/ban/{username}`. As written, the membership it looks up
   * and bans is the CALLER's own in that guild; the username is never read.
   */
  method BanUser(f: Forum, guildTag: string, username: string, txFails: bool) returns (resp: Response)
    requires f.Valid()
    modifies f
    ensures f.Valid() && f.cookie == old(f.CookieAfter())
    ensures var out := old(f.Verdict(Policies.GuildModeratorOrAdmin(f.prims.lower(guildTag))));
      !out.Passed() ==> resp == Rejected(out)
    ensures var out := old(f.Verdict(Policies.GuildModeratorOrAdmin(f.prims.lower(guildTag))));
      out.Passed() ==>
      var m := Memberships.FindByUserAndGuildTag(old(f.db).memberships, out.user.value.userId, f.prims.lower(guildTag));
      resp == (
        if m.None? then BadRequest(NotMember)
        else if m.value.isModerator || m.value.isAdmin then BadRequest(IsModOrAdmin)
        else if m.value.isBanned then BadRequest(AlreadyBanned)
        else if txFails then InternalError(DbFailure)
        else Ok(Done)) &&
      (resp.Ok? ==>
        f.db == old(f.db).(memberships := Memberships.UpdateMembershipBanStatus(old(f.db).memberships, m.value.membershipId, true)))
    ensures !resp.Ok? ==> f.db == old(f.db)
  {
    var tag := f.prims.lower(guildTag);
    var out := f.Authorize(Policies.GuildModeratorOrAdmin(tag));
    if !out.Passed() {
      return Rejected(out);
    }
    var m := Memberships.FindByUserAndGuildTag(f.db.memberships, out.user.value.userId, tag);
    if m.None? {
      return BadRequest(NotMember);
    }
    if m.value.isModerator || m.value.isAdmin {
      return BadRequest(IsModOrAdmin);
    }
    if m.value.isBanned {
      return BadRequest(AlreadyBanned);
    }
    if txFails {
      return InternalError(DbFailure);
    }
    f.db := f.db.(memberships := Memberships.UpdateMembershipBanStatus(f.db.memberships, m.value.membershipId, true));
    resp := Ok(Done);
  }

  /** `POST /{guild_tag}/removemod/{username}`: a guild admin clears the moderator flag of a member. */
  method RemoveModerator(f: Forum, guildTag: string, username: string, txFails: bool) returns (resp: Response)
    requires f.Valid()
    modifies f
    ensures f.Valid() && f.cookie == old(f.CookieAfter())
    ensures var out := old(f.Verdict(Policies.GuildAdmin(f.prims.lower(guildTag))));
      !out.Passed() ==> resp == Rejected(out)
    ensures old(f.Verdict(Policies.GuildAdmin(f.prims.lower(guildTag)))).Passed() ==>
      var target := Users.FindByUsernameSensitive(old(f.db).users, f.prims.lower(username));
      var m := if target.None? then None
               else Memberships.FindByUserAndGuildTag(old(f.db).memberships, target.value.userId, f.prims.lower(guildTag));
      resp == (
        if target.None? then NotFound(UnknownUser)
        else if m.None? then BadRequest(NotMember)
        else if !m.value.isModerator then BadRequest(NotModerator)
        else if txFails then InternalError(DbFailure)
        else Ok(Done)) &&
      (resp.Ok? ==>
        f.db == old(f.db).(memberships := Memberships.UpdateMembershipModStatus(old(f.db).memberships, m.value.membershipId, false)))
    ensures !resp.Ok? ==> f.db == old(f.db)
  {
    var tag := f.prims.lower(guildTag);
    var out := f.Authorize(Policies.GuildAdmin(tag));
    if !out.Passed() {
      return Rejected(out);
    }
    var target := Users.FindByUsernameSensitive(f.db.users, f.prims.lower(username));
    if target.None? {
      return NotFound(UnknownUser);
    }
    var m := Memberships.FindByUserAndGuildTag(f.db.memberships, target.value.userId, tag);
    if m.None? {
      return BadRequest(NotMember);
    }
    if !m.value.isModerator {
      return BadRequest(NotModerator);
    }
    if txFails {
      return InternalError(DbFailure);
    }
    f.db := f.db.(memberships := Memberships.UpdateMembershipModStatus(f.db.memberships, m.value.membershipId, false));
    resp := Ok(Done);
  }

  /** `POST /remove/{guild_tag}`: a guild admin deletes the guild row; a missing guild is not checked for. */
  method RemoveGuild(f: Forum, guildTag: string, txFails: bool) returns (resp: Response)
    requires f.Valid()
    modifies f
    ensures f.Valid() && f.cookie == old(f.CookieAfter())
    ensures var out := old(f.Verdict(Policies.GuildAdmin(f.prims.lower(guildTag))));
      resp == (
        if !out.Passed() then Rejected(out)
        else if txFails then InternalError(DbFailure)
        else Ok(Done))
    ensures f.db == if resp.Ok? then old(f.db).(guilds := Guilds.Delete(old(f.db).guilds, f.prims.lower(guildTag))) else old(f.db)
  {
    var tag := f.prims.lower(guildTag);
    var out := f.Authorize(Policies.GuildAdmin(tag));
    if !out.Passed() {
      return Rejected(out);
    }
    if txFails {
      return InternalError(DbFailure);
    }
    f.db := f.db.(guilds := Guilds.Delete(f.db.guilds, tag));
    resp := Ok(Done);
  }

  /**
   * A guild moderator or admin deletes a post by id. The post's own guild is
   * not compared with the tag the policy was run on.
   */
  method ModRemovePost(f: Forum, guildTag: string, postId: int, txFails: bool) returns (resp: Response)
    requires f.Valid()
    modifies f
    ensures f.Valid() && f.cookie == old(f.CookieAfter())
    ensures var out := old(f.Verdict(Policies.GuildModeratorOrAdmin(f.prims.lower(guildTag))));
      resp == (
        if !out.Passed() then Rejected(out)
        else if postId !in old(f.db).posts.rows then BadRequest(PostNotFound)
        else if txFails then InternalError(DbFailure)
        else Ok(Done))
    ensures f.db == if resp.Ok? then old(f.db).(posts := Posts.Delete(old(f.db).posts, postId)) else old(f.db)
  {
    var out := f.Authorize(Policies.GuildModeratorOrAdmin(f.prims.lower(guildTag)));
    if !out.Passed() {
      return Rejected(out);
    }
    var post := Posts.FindByPostId(f.db.posts, postId);
    if post.None? {
      return BadRequest(PostNotFound);
    }
    if txFails {
      return InternalError(DbFailure);
    }
    f.db := f.db.(posts := Posts.Delete(f.db.posts, post.value.postId));
    resp := Ok(Done);
  }

  /** A guild moderator or admin deletes a comment by id, again without a guild check. */
  method ModRemoveComment(f: Forum, guildTag: string, commentId: int, txFails: bool) returns (resp: Response)
    requires f.Valid()
    modifies f
    ensures f.Valid() && f.cookie == old(f.CookieAfter())
    ensures var out := old(f.Verdict(Policies.GuildModeratorOrAdmin(f.prims.lower(guildTag))));
      resp == (
        if !out.Passed() then Rejected(out)
        else if commentId !in old(f.db).comments.rows then BadRequest(CommentNotFound)
        else if txFails then InternalError(DbFailure)
        else Ok(Done))
    ensures f.db == if resp.Ok? then old(f.db).(comments := Comments.Delete(old(f.db).comments, commentId)) else old(f.db)
  {
    var out := f.Authorize(Policies.GuildModeratorOrAdmin(f.prims.lower(guildTag)));
    if !out.Passed() {
      return Rejected(out);
    }
    var comment := Comments.FindByCommentId(f.db.comments, commentId);
    if comment.None? {
      return BadRequest(CommentNotFound);
    }
    if txFails {
      return InternalError(DbFailure);
    }
    f.db := f.db.(comments := Comments.Delete(f.db.comments, comment.value.commentId));
    resp := Ok(Done);
  }

  /**
   * The body shared by the four `/{guild_tag}/mod/update…` handlers: an empty
   * value becomes NULL, and a guild moderator or admin stores it with
   * `update_guild_description`, whichever setting the route names.
   */
  method UpdateGuildDescription(f: Forum, guildTag: string, value: string, txFails: bool) returns (resp: Response)
    requires f.Valid()
    modifies f
    ensures f.Valid() && f.cookie == old(f.CookieAfter())
    ensures var out := old(f.Verdict(Policies.GuildModeratorOrAdmin(f.prims.lower(guildTag))));
      resp == (
        if !out.Passed() then Rejected(out)
        else if txFails then InternalError(DbFailure)
        else Ok(Done))
    ensures f.db ==
      if resp.Ok? then old(f.db).(guilds := Guilds.UpdateGuildDescription(old(f.db).guilds, f.prims.lower(guildTag), Text.NoneIfEmpty(value)))
      else old(f.db)
  {
    var tag := f.prims.lower(guildTag);
    var description := Text.NoneIfEmpty(value);
    var out := f.Authorize(Policies.GuildModeratorOrAdmin(tag));
    if !out.Passed() {
      return Rejected(out);
    }
    if txFails {
      return InternalError(DbFailure);
    }
    f.db := f.db.(guilds := Guilds.UpdateGuildDescription(f.db.guilds, tag, description));
    resp := Ok(Done);
  }

  /** `POST /{guild_tag}/mod/updateavatar`: as written, it stores the URL as the guild's description. */
  method UpdateGuildAvatar(f: Forum, guildTag: string, avatarUrl: string, txFails: bool) returns (resp: Response)
    requires f.Valid()
    modifies f
    ensures f.Valid() && f.cookie == old(f.CookieAfter())
    ensures var out := old(f.Verdict(Policies.GuildModeratorOrAdmin(f.prims.lower(guildTag))));
      resp == (
        if !out.Passed() then Rejected(out)
        else if txFails then InternalError(DbFailure)
        else Ok(Done))
    ensures f.db ==
      if resp.Ok? then old(f.db).(guilds := Guilds.UpdateGuildDescription(old(f.db).guilds, f.prims.lower(guildTag), Text.NoneIfEmpty(avatarUrl)))
      else old(f.db)
  {
    resp := UpdateGuildDescription(f, guildTag, avatarUrl, txFails);
  }

  /** `POST /{guild_tag}/mod/updatebanner`: as written, it stores the URL as the guild's description. */
  method UpdateGuildBanner(f: Forum, guildTag: string, bannerUrl: string, txFails: bool) returns (resp: Response)
    requires f.Valid()
    modifies f
    ensures f.Valid() && f.cookie == old(f.CookieAfter())
    ensures var out := old(f.Verdict(Policies.GuildModeratorOrAdmin(f.prims.lower(guildTag))));
      resp == (
        if !out.Passed() then Rejected(out)
        else if txFails then InternalError(DbFailure)
        else Ok(Done))
    ensures f.db ==
      if resp.Ok? then old(f.db).(guilds := Guilds.UpdateGuildDescription(old(f.db).guilds, f.prims.lower(guildTag), Text.NoneIfEmpty(bannerUrl)))
      else old(f.db)
  {
    resp := UpdateGuildDescription(f, guildTag, bannerUrl, txFails);
  }

  /** `POST /{guild_tag}/mod/updatename`: as written, it stores the new name as the guild's description. */
  method UpdateGuildName(f: Forum, guildTag: string, name: string, txFails: bool) returns (resp: Response)
    requires f.Valid()
    modifies f
    ensures f.Valid() && f.cookie == old(f.CookieAfter())
    ensures var out := old(f.Verdict(Policies.GuildModeratorOrAdmin(f.prims.lower(guildTag))));
      resp == (
        if !out.Passed() then Rejected(out)
        else if txFails then InternalError(DbFailure)
        else Ok(Done))
    ensures f.db ==
      if resp.Ok? then old(f.db).(guilds := Guilds.UpdateGuildDescription(old(f.db).guilds, f.prims.lower(guildTag), Text.NoneIfEmpty(name)))
      else old(f.db)
  {
    resp := UpdateGuildDescription(f, guildTag, name, txFails);
  }
}
