// The handlers under src/post/api_handlers: creating, editing, deleting and
// locking posts.
module PostHandlers {
  import opened Wrappers
  import Text
  import Posts
  import Policies
  import opened Forum

  /** The title rule `create_post` and `edit_post` check before the session: 1 to 100 bytes. */
  function TitleCheck(title: string): (r: Option<Response>)
    ensures r.None? <==> title != "" && Text.ByteLen(title) <= 100
    ensures r.Some? ==> r.value.BadRequest?
  {
    if Text.ByteLen(title) > 100 then Some(BadRequest(LongTitle))
    else if title == "" then Some(BadRequest(EmptyTitle))
    else None
  }

  /** The row `create_post` inserts: empty strings become NULL, the tag is lowercased. */
  function NewPostForm(f: Forum, userId: int, guildTag: string, imageUrl: string, linkUrl: string,
                       title: string, body: string): (r: Posts.PostForm)
    reads f
    ensures r.guildTag == f.prims.lower(guildTag) && r.userId == userId && r.title == title
    ensures r.imageUrl == Text.NoneIfEmpty(imageUrl) && r.linkUrl == Text.NoneIfEmpty(linkUrl)
    ensures r.body == Text.NoneIfEmpty(body)
  {
    Posts.PostForm(f.prims.lower(guildTag), userId, Text.NoneIfEmpty(imageUrl), Text.NoneIfEmpty(linkUrl),
                   title, Text.NoneIfEmpty(body))
  }

  /**
   * `POST /create`: a guild member posts to an existing guild. The policy is
   * run on the tag as typed, the guild lookup and the row on the lowercased tag.
   */
  method CreatePost(f: Forum, guildTag: string, imageUrl: string, linkUrl: string, title: string, body: string,
                    txFails: bool) returns (resp: Response)
    requires f.Valid()
    modifies f
    ensures f.Valid()
    ensures TitleCheck(title).Some? ==> resp == TitleCheck(title).value && f.cookie == old(f.cookie)
    ensures TitleCheck(title).None? ==>
      var out := old(f.Verdict(Policies.GuildMember(guildTag)));
      f.cookie == old(f.CookieAfter()) &&
      resp == (
        if !out.Passed() then Rejected(out)
        else if f.prims.lower(guildTag) !in old(f.db).guilds.rows then BadRequest(GuildNotFound)
        else if txFails then InternalError(DbFailure)
        else Ok(Done)) &&
      (resp.Ok? ==>
        f.db == old(f.db).(posts := Posts.Create(old(f.db).posts,
          NewPostForm(f, out.user.value.userId, guildTag, imageUrl, linkUrl, title, body))))
    ensures !resp.Ok? ==> f.db == old(f.db)
  {
    var check := TitleCheck(title);
    if check.Some? {
      return check.value;
    }
    var out := f.Authorize(Policies.GuildMember(guildTag));
    if !out.Passed() {
      return Rejected(out);
    }
    var form := NewPostForm(f, out.user.value.userId, guildTag, imageUrl, linkUrl, title, body);
    if form.guildTag !in f.db.guilds.rows {
      return BadRequest(GuildNotFound);
    }
    if txFails {
      return InternalError(DbFailure);
    }
    f.db := f.db.(posts := Posts.Create(f.db.posts, form));
    resp := Ok(Done);
  }

  /** `POST /edit`: the author replaces the title, body and URLs and the post is marked edited. */
  method EditPost(f: Forum, postId: int, imageUrl: string, linkUrl: string, title: string, body: string,
                  txFails: bool) returns (resp: Response)
    requires f.Valid()
    modifies f
    ensures f.Valid()
    ensures TitleCheck(title).Some? ==> resp == TitleCheck(title).value && f.cookie == old(f.cookie)
    ensures TitleCheck(title).None? ==>
      var out := old(f.Verdict(Policies.AnyUser));
      f.cookie == old(f.CookieAfter()) &&
      resp == (
        if !out.Passed() then Rejected(out)
        else if postId !in old(f.db).posts.rows then BadRequest(PostNotFound)
        else if old(f.db).posts.rows[postId].userId != out.user.value.userId then Forbidden(NotAuthor)
        else if txFails then InternalError(DbFailure)
        else Ok(Done))
    ensures f.db ==
      if resp.Ok? then
        old(f.db).(posts := Posts.Update(old(f.db).posts, Posts.PostEditForm(postId,
          Text.NoneIfEmpty(imageUrl), Text.NoneIfEmpty(linkUrl), title, Text.NoneIfEmpty(body))))
      else old(f.db)
  {
    var check := TitleCheck(title);
    if check.Some? {
      return check.value;
    }
    var out := f.Authorize(Policies.AnyUser);
    if !out.Passed() {
      return Rejected(out);
    }
    var post := Posts.FindByPostId(f.db.posts, postId);
    if post.None? {
      return BadRequest(PostNotFound);
    }
    if post.value.userId != out.user.value.userId {
      return Forbidden(NotAuthor);
    }
    var edits := Posts.PostEditForm(postId, Text.NoneIfEmpty(imageUrl), Text.NoneIfEmpty(linkUrl), title,
                                    Text.NoneIfEmpty(body));
    if txFails {
      return InternalError(DbFailure);
    }
    f.db := f.db.(posts := Posts.Update(f.db.posts, edits));
    resp := Ok(Done);
  }

  /** `POST /delete`: the author deletes their post. */
  method DeletePost(f: Forum, postId: int, txFails: bool) returns (resp: Response)
    requires f.Valid()
    modifies f
    ensures f.Valid() && f.cookie == old(f.CookieAfter())
    ensures var out := old(f.Verdict(Policies.AnyUser));
      resp == (
        if !out.Passed() then Rejected(out)
        else if postId !in old(f.db).posts.rows then BadRequest(PostNotFound)
        else if old(f.db).posts.rows[postId].userId != out.user.value.userId then Forbidden(NotAuthor)
        else if txFails then InternalError(DbFailure)
        else Ok(Done))
    ensures f.db == if resp.Ok? then old(f.db).(posts := Posts.Delete(old(f.db).posts, postId)) else old(f.db)
  {
    var out := f.Authorize(Policies.AnyUser);
    if !out.Passed() {
      return Rejected(out);
    }
    var post := Posts.FindByPostId(f.db.posts, postId);
    if post.None? {
      return BadRequest(PostNotFound);
    }
    if post.value.userId != out.user.value.userId {
      return Forbidden(NotAuthor);
    }
    if txFails {
      return InternalError(DbFailure);
    }
    f.db := f.db.(posts := Posts.Delete(f.db.posts, postId));
    resp := Ok(Done);
  }

  /**
   * `POST /lock`: the post is looked up first, then a moderator or admin of
   * the post's own guild locks it.
   */
  method LockPost(f: Forum, postId: int, txFails: bool) returns (resp: Response)
    requires f.Valid()
    modifies f
    ensures f.Valid()
    ensures postId !in old(f.db).posts.rows ==> resp == BadRequest(PostNotFound) && f.cookie == old(f.cookie)
    ensures postId in old(f.db).posts.rows ==>
      var tag := old(f.db).posts.rows[postId].guildTag;
      var out := old(f.Verdict(Policies.GuildModeratorOrAdmin(tag)));
      f.cookie == old(f.CookieAfter()) &&
      resp == (
        if !out.Passed() then Rejected(out)
        else if txFails then InternalError(DbFailure)
        else Ok(Done))
    ensures f.db == if resp.Ok? then old(f.db).(posts := Posts.UpdateLock(old(f.db).posts, postId, true)) else old(f.db)
  {
    var post := Posts.FindByPostId(f.db.posts, postId);
    if post.None? {
      return BadRequest(PostNotFound);
    }
    var out := f.Authorize(Policies.GuildModeratorOrAdmin(post.value.guildTag));
    if !out.Passed() {
      return Rejected(out);
    }
    if txFails {
      return InternalError(DbFailure);
    }
    f.db := f.db.(posts := Posts.UpdateLock(f.db.posts, postId, true));
    resp := Ok(Done);
  }
}
