// The listing handlers under src/view/api_handlers. Each reads one SQL
// view, given here as its rows in query order, and changes no table; the
// only state they touch is the cookie `validate_session` may remove. A
// rejected viewer still gets the listing, without per-viewer flags.
module ViewHandlers {
  import opened Wrappers
  import Blocks
  import Votes
  import Memberships
  import Policies
  import Listings
  import opened Forum

  /** The vote lookups of the signed-in caller, on the table `votes`. */
  function CallerVotes(votes: Votes.Table, out: Policies.Outcome, voteFails: set<int>): int -> Lookup<Votes.Vote>
    requires out.Passed()
  {
    Listings.VoteLookup(votes, out.user.value.userId, voteFails)
  }

  /**
   * `GET /posts/{page_number}`: a page of all posts; for a signed-in caller
   * each post is flagged by the caller's block list and votes.
   * `blocksFail` makes the block list query fail; a vote lookup of an id in
   * `voteFails` fails and is ignored.
   */
  method GetAllPosts(f: Forum, view: seq<Listings.DetailedPostView>, pageNumber: int,
                     blocksFail: bool, voteFails: set<int>) returns (resp: Response)
    requires f.Valid()
    modifies f
    ensures f.Valid() && f.db == old(f.db) && f.cookie == old(f.CookieAfter())
    ensures var out := old(f.Verdict(Policies.AnyUser));
      var fetched := Listings.AllPosts(view, pageNumber);
      resp == (
        if fetched.None? then InternalError(ReadFailed)
        else if !out.Passed() then Ok(PostList(fetched.value))
        else if blocksFail then InternalError(ReadFailed)
        else Ok(PostList(Listings.AnnotatedPosts(fetched.value,
          Blocks.FindAllByUser(f.db.blocks, out.user.value.userId), CallerVotes(f.db.postVotes, out, voteFails)))))
  {
    var out := f.Authorize(Policies.AnyUser);
    var fetched := Listings.AllPosts(view, pageNumber);
    if fetched.None? {
      return InternalError(ReadFailed);
    }
    if !out.Passed() {
      return Ok(PostList(fetched.value));
    }
    if blocksFail {
      return InternalError(ReadFailed);
    }
    var blocks := Blocks.FindAllByUser(f.db.blocks, out.user.value.userId);
    var posts := Listings.AnnotatePosts(fetched.value, blocks, CallerVotes(f.db.postVotes, out, voteFails));
    resp := Ok(PostList(posts));
  }

  /** `GET /{guild_tag}/posts/{page_number}`: the same, for the posts of one guild (tag lowercased). */
  method GetPostsByGuild(f: Forum, view: seq<Listings.DetailedPostView>, guildTag: string, pageNumber: int,
                         blocksFail: bool, voteFails: set<int>) returns (resp: Response)
    requires f.Valid()
    modifies f
    ensures f.Valid() && f.db == old(f.db) && f.cookie == old(f.CookieAfter())
    ensures var out := old(f.Verdict(Policies.AnyUser));
      var fetched := Listings.PostsByGuild(view, f.prims.lower(guildTag), pageNumber);
      resp == (
        if fetched.None? then InternalError(ReadFailed)
        else if !out.Passed() then Ok(PostList(fetched.value))
        else if blocksFail then InternalError(ReadFailed)
        else Ok(PostList(Listings.AnnotatedPosts(fetched.value,
          Blocks.FindAllByUser(f.db.blocks, out.user.value.userId), CallerVotes(f.db.postVotes, out, voteFails)))))
  {
    var out := f.Authorize(Policies.AnyUser);
    var fetched := Listings.PostsByGuild(view, f.prims.lower(guildTag), pageNumber);
    if fetched.None? {
      return InternalError(ReadFailed);
    }
    if !out.Passed() {
      return Ok(PostList(fetched.value));
    }
    if blocksFail {
      return InternalError(ReadFailed);
    }
    var blocks := Blocks.FindAllByUser(f.db.blocks, out.user.value.userId);
    var posts := Listings.AnnotatePosts(fetched.value, blocks, CallerVotes(f.db.postVotes, out, voteFails));
    resp := Ok(PostList(posts));
  }

  /**
   * `GET /post/{post_id}/comments/{page_number}`: a page of a post's comments,
   * flagged like the posts, but with votes read from the comment vote table
   * under the comment's `post_id`.
   */
  method GetPostComments(f: Forum, view: seq<Listings.DetailedCommentView>, postId: int, pageNumber: int,
                         blocksFail: bool, voteFails: set<int>) returns (resp: Response)
    requires f.Valid()
    modifies f
    ensures f.Valid() && f.db == old(f.db) && f.cookie == old(f.CookieAfter())
    ensures var out := old(f.Verdict(Policies.AnyUser));
      var fetched := Listings.CommentsByPost(view, postId, pageNumber);
      resp == (
        if fetched.None? then InternalError(ReadFailed)
        else if !out.Passed() then Ok(CommentList(fetched.value))
        else if blocksFail then InternalError(ReadFailed)
        else Ok(CommentList(Listings.AnnotatedComments(fetched.value,
          Blocks.FindAllByUser(f.db.blocks, out.user.value.userId), CallerVotes(f.db.commentVotes, out, voteFails)))))
  {
    var out := f.Authorize(Policies.AnyUser);
    var fetched := Listings.CommentsByPost(view, postId, pageNumber);
    if fetched.None? {
      return InternalError(ReadFailed);
    }
    if !out.Passed() {
      return Ok(CommentList(fetched.value));
    }
    if blocksFail {
      return InternalError(ReadFailed);
    }
    var blocks := Blocks.FindAllByUser(f.db.blocks, out.user.value.userId);
    var comments := Listings.AnnotateComments(fetched.value, blocks, CallerVotes(f.db.commentVotes, out, voteFails));
    resp := Ok(CommentList(comments));
  }

  /** `GET /user/{username}/posts/{page_number}`: a user's posts (name lowercased), flagged by votes only. */
  method GetUserPosts(f: Forum, view: seq<Listings.DetailedPostView>, username: string, pageNumber: int,
                      voteFails: set<int>) returns (resp: Response)
    requires f.Valid()
    modifies f
    ensures f.Valid() && f.db == old(f.db) && f.cookie == old(f.CookieAfter())
    ensures var out := old(f.Verdict(Policies.AnyUser));
      var fetched := Listings.PostsByUser(view, f.prims.lower(username), pageNumber);
      resp == (
        if fetched.None? then InternalError(ReadFailed)
        else if !out.Passed() then Ok(PostList(fetched.value))
        else Ok(PostList(Listings.AnnotatedPosts(fetched.value, [], CallerVotes(f.db.postVotes, out, voteFails)))))
  {
    var out := f.Authorize(Policies.AnyUser);
    var fetched := Listings.PostsByUser(view, f.prims.lower(username), pageNumber);
    if fetched.None? {
      return InternalError(ReadFailed);
    }
    if !out.Passed() {
      return Ok(PostList(fetched.value));
    }
    var posts := Listings.AnnotatePosts(fetched.value, [], CallerVotes(f.db.postVotes, out, voteFails));
    resp := Ok(PostList(posts));
  }

  /**
   * `GET /guilds/{page_number}`: a page of guilds; for a signed-in caller,
   * `is_member` is set on every guild the caller has a membership in.
   * `membershipsFail` makes the membership query fail.
   */
  method GetShortGuildDetails(f: Forum, view: seq<Listings.ShortGuildView>, pageNumber: int,
                              membershipsFail: bool) returns (resp: Response)
    requires f.Valid()
    modifies f
    ensures f.Valid() && f.db == old(f.db) && f.cookie == old(f.CookieAfter())
    ensures var out := old(f.Verdict(Policies.AnyUser));
      var fetched := Listings.ShortGuilds(view, pageNumber);
      resp == (
        if fetched.None? then InternalError(ReadFailed)
        else if !out.Passed() then Ok(GuildList(fetched.value))
        else if membershipsFail then InternalError(ReadFailed)
        else Ok(GuildList(Listings.MarkedGuilds(fetched.value,
          Memberships.OfUser(f.db.memberships, out.user.value.userId)))))
  {
    var out := f.Authorize(Policies.AnyUser);
    var fetched := Listings.ShortGuilds(view, pageNumber);
    if fetched.None? {
      return InternalError(ReadFailed);
    }
    if !out.Passed() {
      return Ok(GuildList(fetched.value));
    }
    if membershipsFail {
      return InternalError(ReadFailed);
    }
    var memberships := Memberships.FindAllByUserId(f.db.memberships, out.user.value.userId, 0, 1);
    var guilds := Listings.MarkMemberships(fetched.value, memberships.value);
    resp := Ok(GuildList(guilds));
  }

  /**
   * `GET /guild/{guild_tag}`: the guild's details (tag lowercased) to
   * anyone, with `is_member` true exactly when the caller passes the guild
   * member policy.
   */
  function GetGuildDetails(f: Forum, view: seq<Listings.DetailedGuildView>, guildTag: string): (r: Response)
    reads f
    requires f.Valid()
    ensures var tag := f.prims.lower(guildTag);
      (r.Ok? <==> exists i :: 0 <= i < |view| && view[i].guildTag == Some(tag)) &&
      (!r.Ok? ==> r == BadRequest(GuildNotFound)) &&
      (r.Ok? ==> r.body.GuildPage? && r.body.details in view && r.body.details.guildTag == Some(tag)) &&
      (r.Ok? ==> (r.body.isMember <==> f.Verdict(Policies.GuildMember(tag)).Passed()))
  {
    var tag := f.prims.lower(guildTag);
    var member := f.Verdict(Policies.GuildMember(tag)).Passed();
    match Listings.GuildByTag(view, tag)
    case Some(details) => Ok(GuildPage(details, member))
    case None => BadRequest(GuildNotFound)
  }

  /**
   * The guild page's `is_member` for a signed-in caller: a site admin who is
   * not banned always counts as a member, a site-banned caller never does,
   * and anyone else does exactly when they hold a membership of that guild
   * that is not guild-banned.
   */
  lemma GuildPageMembership(f: Forum, view: seq<Listings.DetailedGuildView>, guildTag: string)
    requires f.Valid() && GetGuildDetails(f, view, guildTag).Ok?
    ensures var page := GetGuildDetails(f, view, guildTag).body;
      var v := f.Viewer();
      var m := if v.Some? then Memberships.FindByUserAndGuildTag(f.db.memberships, v.value.userId, f.prims.lower(guildTag)) else None;
      (v.None? ==> !page.isMember) &&
      (v.Some? && v.value.isBanned ==> !page.isMember) &&
      (v.Some? && !v.value.isBanned && v.value.isAdmin ==> page.isMember) &&
      (v.Some? && !v.value.isBanned && !v.value.isAdmin ==> (page.isMember <==> m.Some? && !m.value.isBanned))
  {
  }

  /**
   * `GET /user/{username}/personal`: the caller's own username, email and
   * avatar; only the signed-in, unbanned owner of the name gets them.
   */
  function GetUserPersonalInfo(f: Forum, view: seq<Listings.UserPersonalView>, username: string): (r: Response)
    reads f
    requires f.Valid()
    ensures var name := f.prims.lower(username);
      var out := f.Verdict(Policies.SelfNamed(name));
      (!out.Passed() ==> r == Rejected(out)) &&
      (out.Passed() ==> (r.Ok? <==> exists i :: 0 <= i < |view| && view[i].username == Some(name))) &&
      (out.Passed() && !r.Ok? ==> r == BadRequest(UnknownUser)) &&
      (r.Ok? ==> r.body.PersonalInfo? && r.body.info in view && r.body.info.username == Some(name))
  {
    var name := f.prims.lower(username);
    var out := f.Verdict(Policies.SelfNamed(name));
    if !out.Passed() then Rejected(out)
    else match Listings.PersonalByUsername(view, name)
      case Some(info) => Ok(PersonalInfo(info))
      case None => BadRequest(UnknownUser)
  }

  /** Personal information goes only to the signed-in, unbanned user of that name. */
  lemma PersonalInfoOnlyForOwner(f: Forum, view: seq<Listings.UserPersonalView>, username: string)
    requires f.Valid() && GetUserPersonalInfo(f, view, username).Ok?
    ensures f.Viewer().Some? && f.Viewer().value.username == f.prims.lower(username) && !f.Viewer().value.isBanned
  {
  }
}
