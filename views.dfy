// The read-only views of src/view/model.rs and the annotation loops the
// listing handlers run over them. Each view is a SQL view over several
// tables; the model takes a view's rows, in the order the view returns them,
// as given, and models the `WHERE` / `LIMIT` / `OFFSET` the finders add and
// the per-viewer flags the handlers set afterwards.
module Listings {
  import opened Wrappers
  import Rows
  import Paging
  import Votes
  import Blocks
  import Memberships

  /** Every listing handler asks for pages of 20 rows. */
  const PER_PAGE := 20

  /** A row of `detailed_post_view`; the three flags are not columns and start `false`. */
  datatype DetailedPostView = DetailedPostView(
    postId: Option<int>,
    guildTag: Option<string>,
    imageUrl: Option<string>,
    linkUrl: Option<string>,
    title: Option<string>,
    body: Option<string>,
    isLocked: Option<bool>,
    isEdited: Option<bool>,
    username: Option<string>,
    avatarUrl: Option<string>,
    isAdmin: Option<bool>,
    isVerified: Option<bool>,
    upvotes: Option<int>,
    downvotes: Option<int>,
    replies: Option<int>,
    isBlocked: bool,
    isUpvoted: bool,
    isDownvoted: bool)

  /** A row of `detailed_comment_view`, with the same three flags. */
  datatype DetailedCommentView = DetailedCommentView(
    commentId: Option<int>,
    postId: Option<int>,
    parentCommentId: Option<int>,
    body: Option<string>,
    isEdited: Option<bool>,
    username: Option<string>,
    avatarUrl: Option<string>,
    isAdmin: Option<bool>,
    isVerified: Option<bool>,
    upvotes: Option<int>,
    downvotes: Option<int>,
    isBlocked: bool,
    isUpvoted: bool,
    isDownvoted: bool)

  /** A row of `detailed_guild_view`. */
  datatype DetailedGuildView = DetailedGuildView(
    guildTag: Option<string>,
    guildName: Option<string>,
    guildDescription: Option<string>,
    avatarUrl: Option<string>,
    bannerUrl: Option<string>,
    isBanned: Option<bool>,
    members: Option<int>,
    numberOfPosts: Option<int>)

  /** A row of `short_guild_view`; `is_member` is not a column and starts `false`. */
  datatype ShortGuildView = ShortGuildView(
    guildTag: Option<string>,
    guildName: Option<string>,
    avatarUrl: Option<string>,
    members: Option<int>,
    numberOfPosts: Option<int>,
    isMember: bool)

  /** A row of `user_personal_view`. */
  datatype UserPersonalView = UserPersonalView(
    username: Option<string>,
    email: Option<string>,
    avatarUrl: Option<string>)

  // ---------------------------------------------------------------- finders

  /** `get_all_posts(20, page_number)`: the numbered page of the whole view, the offset taken in `i64`. */
  function AllPosts(view: seq<DetailedPostView>, page: int): (r: Option<seq<DetailedPostView>>)
    ensures r.None? <==> Paging.Offset(PER_PAGE, page) < 0
    ensures Paging.NoOverflow(PER_PAGE, page) ==> (r.None? <==> page < 1)
    ensures r.Some? ==> |r.value| == Paging.PageSize(|view|, PER_PAGE, Paging.Offset(PER_PAGE, page))
    ensures r.Some? ==> forall j :: 0 <= j < |r.value| ==>
      (Paging.Offset(PER_PAGE, page) + j < |view| && r.value[j] == view[Paging.Offset(PER_PAGE, page) + j])
  {
    Paging.NumberedPage(view, PER_PAGE, page)
  }

  /** The view's posts in guild `tag`, in the view's order. */
  function GuildPosts(view: seq<DetailedPostView>, tag: string): seq<DetailedPostView>
  {
    Rows.Filter(view, (p: DetailedPostView) => p.guildTag == Some(tag))
  }

  /** The view's posts by `username`, in the view's order. */
  function UserPosts(view: seq<DetailedPostView>, username: string): seq<DetailedPostView>
  {
    Rows.Filter(view, (p: DetailedPostView) => p.username == Some(username))
  }

  /** The view's comments under post `postId`, in the view's order. */
  function PostComments(view: seq<DetailedCommentView>, postId: int): seq<DetailedCommentView>
  {
    Rows.Filter(view, (c: DetailedCommentView) => c.postId == Some(postId))
  }

  /** The filtered listings hold exactly the view's rows with that key. */
  lemma FilteredListingsExact(view: seq<DetailedPostView>, comments: seq<DetailedCommentView>, tag: string, username: string,
                              postId: int, p: DetailedPostView, c: DetailedCommentView)
    ensures p in GuildPosts(view, tag) <==> p in view && p.guildTag == Some(tag)
    ensures p in UserPosts(view, username) <==> p in view && p.username == Some(username)
    ensures c in PostComments(comments, postId) <==> c in comments && c.postId == Some(postId)
  {
    Rows.FilterExact(view, (q: DetailedPostView) => q.guildTag == Some(tag), p);
    Rows.FilterExact(view, (q: DetailedPostView) => q.username == Some(username), p);
    Rows.FilterExact(comments, (q: DetailedCommentView) => q.postId == Some(postId), c);
  }

  /** `get_posts_by_guild`: the numbered page of the guild's posts. */
  function PostsByGuild(view: seq<DetailedPostView>, tag: string, page: int): (r: Option<seq<DetailedPostView>>)
    ensures r.None? <==> Paging.Offset(PER_PAGE, page) < 0
    ensures Paging.NoOverflow(PER_PAGE, page) ==> (r.None? <==> page < 1)
    ensures r.Some? ==> |r.value| == Paging.PageSize(|GuildPosts(view, tag)|, PER_PAGE, Paging.Offset(PER_PAGE, page))
    ensures r.Some? ==> forall j :: 0 <= j < |r.value| ==>
      (Paging.Offset(PER_PAGE, page) + j < |GuildPosts(view, tag)| && r.value[j] == GuildPosts(view, tag)[Paging.Offset(PER_PAGE, page) + j])
    ensures r.Some? ==> forall j :: 0 <= j < |r.value| ==> r.value[j] in view && r.value[j].guildTag == Some(tag)
  {
    Paging.NumberedPage(GuildPosts(view, tag), PER_PAGE, page)
  }

  /** `get_posts_by_user`: the numbered page of the user's posts. */
  function PostsByUser(view: seq<DetailedPostView>, username: string, page: int): (r: Option<seq<DetailedPostView>>)
    ensures r.None? <==> Paging.Offset(PER_PAGE, page) < 0
    ensures Paging.NoOverflow(PER_PAGE, page) ==> (r.None? <==> page < 1)
    ensures r.Some? ==> |r.value| == Paging.PageSize(|UserPosts(view, username)|, PER_PAGE, Paging.Offset(PER_PAGE, page))
    ensures r.Some? ==> forall j :: 0 <= j < |r.value| ==>
      (Paging.Offset(PER_PAGE, page) + j < |UserPosts(view, username)| && r.value[j] == UserPosts(view, username)[Paging.Offset(PER_PAGE, page) + j])
    ensures r.Some? ==> forall j :: 0 <= j < |r.value| ==> r.value[j] in view && r.value[j].username == Some(username)
  {
    Paging.NumberedPage(UserPosts(view, username), PER_PAGE, page)
  }

  /** `get_comments_by_post_id`: the numbered page of the post's comments. */
  function CommentsByPost(view: seq<DetailedCommentView>, postId: int, page: int): (r: Option<seq<DetailedCommentView>>)
    ensures r.None? <==> Paging.Offset(PER_PAGE, page) < 0
    ensures Paging.NoOverflow(PER_PAGE, page) ==> (r.None? <==> page < 1)
    ensures r.Some? ==> |r.value| == Paging.PageSize(|PostComments(view, postId)|, PER_PAGE, Paging.Offset(PER_PAGE, page))
    ensures r.Some? ==> forall j :: 0 <= j < |r.value| ==>
      (Paging.Offset(PER_PAGE, page) + j < |PostComments(view, postId)| && r.value[j] == PostComments(view, postId)[Paging.Offset(PER_PAGE, page) + j])
    ensures r.Some? ==> forall j :: 0 <= j < |r.value| ==> r.value[j] in view && r.value[j].postId == Some(postId)
  {
    Paging.NumberedPage(PostComments(view, postId), PER_PAGE, page)
  }

  /** `ShortGuildView::find_all(20, page_number)`: the numbered page of the guild list. */
  function ShortGuilds(view: seq<ShortGuildView>, page: int): (r: Option<seq<ShortGuildView>>)
    ensures r.None? <==> Paging.Offset(PER_PAGE, page) < 0
    ensures Paging.NoOverflow(PER_PAGE, page) ==> (r.None? <==> page < 1)
    ensures r.Some? ==> |r.value| == Paging.PageSize(|view|, PER_PAGE, Paging.Offset(PER_PAGE, page))
    ensures r.Some? ==> forall j :: 0 <= j < |r.value| ==>
      (Paging.Offset(PER_PAGE, page) + j < |view| && r.value[j] == view[Paging.Offset(PER_PAGE, page) + j])
  {
    Paging.NumberedPage(view, PER_PAGE, page)
  }

  /** `DetailedGuildView::find_by_guild_tag`: the first row with that tag. */
  function GuildByTag(view: seq<DetailedGuildView>, tag: string): (r: Option<DetailedGuildView>)
    ensures r.Some? ==> r.value in view && r.value.guildTag == Some(tag)
    ensures r.None? <==> forall i :: 0 <= i < |view| ==> view[i].guildTag != Some(tag)
  {
    Rows.FirstWhere(view, (g: DetailedGuildView) => g.guildTag == Some(tag))
  }

  /** `UserPersonalView::find_by_username`: the first row with that username. */
  function PersonalByUsername(view: seq<UserPersonalView>, username: string): (r: Option<UserPersonalView>)
    ensures r.Some? ==> r.value in view && r.value.username == Some(username)
    ensures r.None? <==> forall i :: 0 <= i < |view| ==> view[i].username != Some(username)
  {
    Rows.FirstWhere(view, (u: UserPersonalView) => u.username == Some(username))
  }

  // ------------------------------------------------------------ annotations

  /** Whether `username` is the `blocked_user_username` of some block in the list. */
  predicate Blocked(username: Option<string>, blocks: seq<Blocks.Block>)
  {
    username.Some? && exists i :: 0 <= i < |blocks| && blocks[i].blockedUserUsername == username.value
  }

  /**
   * The vote lookups of one viewer: `find_by_*_and_user_id(id, user_id)`
   * against `t`, failing for the ids in `fails`.
   */
  function VoteLookup(t: Votes.Table, userId: int, fails: set<int>): (f: int -> Lookup<Votes.Vote>)
    ensures forall id :: id in fails ==> f(id).Failed?
    ensures forall id :: id !in fails ==> f(id) == Lookup.Of(Votes.FindByTargetAndUserId(t, id, userId))
  {
    (id: int) => if id in fails then Failed else Lookup.Of(Votes.FindByTargetAndUserId(t, id, userId))
  }

  /** The lookup the loop makes for a row whose id column is `id`; a NULL id looks nothing up. */
  function VoteFor(id: Option<int>, findVote: int -> Lookup<Votes.Vote>): Lookup<Votes.Vote>
  {
    if id.Some? then findVote(id.value) else Missing
  }

  /** A post as the listing loop leaves it: blocked author and found vote set their flags. */
  function AnnotatedPost(p: DetailedPostView, blocks: seq<Blocks.Block>, vote: Lookup<Votes.Vote>): DetailedPostView
  {
    p.(isBlocked := p.isBlocked || Blocked(p.username, blocks),
       isUpvoted := p.isUpvoted || (vote.Found? && vote.row.up),
       isDownvoted := p.isDownvoted || (vote.Found? && !vote.row.up))
  }

  /** A comment as `get_post_comments`'s loop leaves it. */
  function AnnotatedComment(c: DetailedCommentView, blocks: seq<Blocks.Block>, vote: Lookup<Votes.Vote>): DetailedCommentView
  {
    c.(isBlocked := c.isBlocked || Blocked(c.username, blocks),
       isUpvoted := c.isUpvoted || (vote.Found? && vote.row.up),
       isDownvoted := c.isDownvoted || (vote.Found? && !vote.row.up))
  }

  /** Whether one of `memberships` is in guild `g`. */
  predicate MemberOf(g: ShortGuildView, memberships: seq<Memberships.Membership>)
  {
    g.guildTag.Some? && exists i :: 0 <= i < |memberships| && memberships[i].guildTag == g.guildTag.value
  }

  /** A guild as `get_short_guild_details`'s loop leaves it. */
  function MarkedGuild(g: ShortGuildView, memberships: seq<Memberships.Membership>): ShortGuildView
  {
    g.(isMember := g.isMember || MemberOf(g, memberships))
  }

  /** A whole page as the post listing loop leaves it. */
  function AnnotatedPosts(page: seq<DetailedPostView>, blocks: seq<Blocks.Block>, findVote: int -> Lookup<Votes.Vote>)
    : (r: seq<DetailedPostView>)
    ensures |r| == |page|
    ensures forall i :: 0 <= i < |r| ==>
      r[i].(isBlocked := page[i].isBlocked, isUpvoted := page[i].isUpvoted, isDownvoted := page[i].isDownvoted) == page[i]
  {
    seq(|page|, i requires 0 <= i < |page| => AnnotatedPost(page[i], blocks, VoteFor(page[i].postId, findVote)))
  }

  /** A whole page as the comment listing loop leaves it. */
  function AnnotatedComments(page: seq<DetailedCommentView>, blocks: seq<Blocks.Block>, findVote: int -> Lookup<Votes.Vote>)
    : (r: seq<DetailedCommentView>)
    ensures |r| == |page|
    ensures forall i :: 0 <= i < |r| ==>
      r[i].(isBlocked := page[i].isBlocked, isUpvoted := page[i].isUpvoted, isDownvoted := page[i].isDownvoted) == page[i]
  {
    seq(|page|, i requires 0 <= i < |page| => AnnotatedComment(page[i], blocks, VoteFor(page[i].postId, findVote)))
  }

  /** A whole page as the guild listing loop leaves it. */
  function MarkedGuilds(page: seq<ShortGuildView>, memberships: seq<Memberships.Membership>): (r: seq<ShortGuildView>)
    ensures |r| == |page|
    ensures forall i :: 0 <= i < |r| ==> r[i].(isMember := page[i].isMember) == page[i]
  {
    seq(|page|, i requires 0 <= i < |page| => MarkedGuild(page[i], memberships))
  }

  /** The inner loop over the block list: whether `flag` ends up set. */
  method MarkBlocked(flag: bool, username: Option<string>, blocks: seq<Blocks.Block>) returns (b: bool)
    ensures b == (flag || Blocked(username, blocks))
  {
    b := flag;
    for j := 0 to |blocks|
      invariant b == (flag || (username.Some? && exists k :: 0 <= k < j && blocks[k].blockedUserUsername == username.value))
    {
      if username.Some? && blocks[j].blockedUserUsername == username.value {
        b := true;
      }
    }
  }

  /**
   * The loop of `get_all_posts` and `get_posts_by_guild`; `get_user_posts`
   * runs it without a block list. A failed vote lookup sets no flag.
   */
  method AnnotatePosts(page: seq<DetailedPostView>, blocks: seq<Blocks.Block>, findVote: int -> Lookup<Votes.Vote>)
    returns (out: seq<DetailedPostView>)
    ensures out == AnnotatedPosts(page, blocks, findVote)
  {
    out := [];
    for i := 0 to |page|
      invariant |out| == i
      invariant forall k :: 0 <= k < i ==> out[k] == AnnotatedPost(page[k], blocks, VoteFor(page[k].postId, findVote))
    {
      var post := page[i];
      var blocked := MarkBlocked(post.isBlocked, post.username, blocks);
      post := post.(isBlocked := blocked);
      if post.postId.Some? {
        var vote := findVote(post.postId.value);
        if vote.Found? {
          if vote.row.up {
            post := post.(isUpvoted := true);
          } else {
            post := post.(isDownvoted := true);
          }
        }
      }
      out := out + [post];
    }
  }

  /**
   * The loop of `get_post_comments`. As in the source, the comment vote is
   * looked up by the comment's `post_id` column.
   */
  method AnnotateComments(page: seq<DetailedCommentView>, blocks: seq<Blocks.Block>, findVote: int -> Lookup<Votes.Vote>)
    returns (out: seq<DetailedCommentView>)
    ensures out == AnnotatedComments(page, blocks, findVote)
  {
    out := [];
    for i := 0 to |page|
      invariant |out| == i
      invariant forall k :: 0 <= k < i ==> out[k] == AnnotatedComment(page[k], blocks, VoteFor(page[k].postId, findVote))
    {
      var comment := page[i];
      var blocked := MarkBlocked(comment.isBlocked, comment.username, blocks);
      comment := comment.(isBlocked := blocked);
      if comment.postId.Some? {
        var vote := findVote(comment.postId.value);
        if vote.Found? {
          if vote.row.up {
            comment := comment.(isUpvoted := true);
          } else {
            comment := comment.(isDownvoted := true);
          }
        }
      }
      out := out + [comment];
    }
  }

  /** The nested loop of `get_short_guild_details`. */
  method MarkMemberships(page: seq<ShortGuildView>, memberships: seq<Memberships.Membership>)
    returns (out: seq<ShortGuildView>)
    ensures out == MarkedGuilds(page, memberships)
  {
    out := [];
    for i := 0 to |page|
      invariant |out| == i
      invariant forall k :: 0 <= k < i ==> out[k] == MarkedGuild(page[k], memberships)
    {
      var guild := page[i];
      for j := 0 to |memberships|
        invariant guild == page[i].(isMember := guild.isMember)
        invariant guild.isMember == (page[i].isMember ||
          (page[i].guildTag.Some? && exists k :: 0 <= k < j && memberships[k].guildTag == page[i].guildTag.value))
      {
        if guild.guildTag.Some? && memberships[j].guildTag == guild.guildTag.value {
          guild := guild.(isMember := true);
        }
      }
      out := out + [guild];
    }
  }

  // ---------------------------------------------------------------- lemmas

  /** The block list of `find_all_by_user(userId)` blocks exactly the names `userId` has a block row for. */
  lemma BlockedIffListed(t: Blocks.Table, userId: int, username: Option<string>)
    ensures Blocked(username, Blocks.FindAllByUser(t, userId)) <==>
      username.Some? && Blocks.Block(userId, username.value) in t.rows
  {
    var list := Blocks.FindAllByUser(t, userId);
    if username.Some? && Blocks.Block(userId, username.value) in t.rows {
      var i :| 0 <= i < |t.rows| && t.rows[i] == Blocks.Block(userId, username.value);
      var j :| 0 <= j < |list| && list[j] == t.rows[i];
      assert list[j].blockedUserUsername == username.value;
    }
  }

  /**
   * What a listed post's flags mean for a signed-in viewer `userId`: blocked
   * iff the viewer blocked its author, up- or downvoted iff the viewer's vote
   * row on it says so and its lookup did not fail, never both; every column
   * is left as the view returned it.
   */
  lemma {:induction false} AnnotatedPostMeaning(p: DetailedPostView, blockTable: Blocks.Table, votes: Votes.Table,
                                                userId: int, fails: set<int>)
    requires !p.isBlocked && !p.isUpvoted && !p.isDownvoted
    ensures var q := AnnotatedPost(p, Blocks.FindAllByUser(blockTable, userId), VoteFor(p.postId, VoteLookup(votes, userId, fails)));
      var voted := p.postId.Some? && p.postId.value !in fails && (p.postId.value, userId) in votes.rows;
      (q.isBlocked <==> p.username.Some? && Blocks.Block(userId, p.username.value) in blockTable.rows) &&
      (q.isUpvoted <==> voted && votes.rows[(p.postId.value, userId)]) &&
      (q.isDownvoted <==> voted && !votes.rows[(p.postId.value, userId)]) &&
      !(q.isUpvoted && q.isDownvoted) &&
      q.(isBlocked := false, isUpvoted := false, isDownvoted := false) == p
  {
    BlockedIffListed(blockTable, userId, p.username);
  }

  /**
   * The same for a listed comment, whose vote flags come from the comment
   * vote row keyed by the comment's `post_id` rather than its `comment_id`.
   */
  lemma {:induction false} AnnotatedCommentMeaning(c: DetailedCommentView, blockTable: Blocks.Table, votes: Votes.Table,
                                                   userId: int, fails: set<int>)
    requires !c.isBlocked && !c.isUpvoted && !c.isDownvoted
    ensures var q := AnnotatedComment(c, Blocks.FindAllByUser(blockTable, userId), VoteFor(c.postId, VoteLookup(votes, userId, fails)));
      var voted := c.postId.Some? && c.postId.value !in fails && (c.postId.value, userId) in votes.rows;
      (q.isBlocked <==> c.username.Some? && Blocks.Block(userId, c.username.value) in blockTable.rows) &&
      (q.isUpvoted <==> voted && votes.rows[(c.postId.value, userId)]) &&
      (q.isDownvoted <==> voted && !votes.rows[(c.postId.value, userId)]) &&
      !(q.isUpvoted && q.isDownvoted) &&
      q.(isBlocked := false, isUpvoted := false, isDownvoted := false) == c
  {
    BlockedIffListed(blockTable, userId, c.username);
  }

  /** Without a block list, as in `get_user_posts`, no post is marked blocked. */
  lemma NoBlockListBlocksNothing(p: DetailedPostView, vote: Lookup<Votes.Vote>)
    ensures AnnotatedPost(p, [], vote).isBlocked == p.isBlocked
  {
  }

  /**
   * A guild is marked as joined iff the viewer has a membership row in it,
   * banned or not, when the memberships are the viewer's unpaged listing.
   */
  lemma {:induction false} MarkedGuildIffMember(g: ShortGuildView, t: Memberships.Table, userId: int)
    requires t.Valid() && !g.isMember
    ensures MarkedGuild(g, Memberships.OfUser(t, userId)).isMember <==>
      g.guildTag.Some? && exists k :: k in t.rows && t.rows[k].userId == userId && t.rows[k].guildTag == g.guildTag.value
    ensures MarkedGuild(g, Memberships.OfUser(t, userId)).(isMember := false) == g
  {
    var list := Memberships.OfUser(t, userId);
    if g.guildTag.Some? {
      if exists k :: k in t.rows && t.rows[k].userId == userId && t.rows[k].guildTag == g.guildTag.value {
        var k :| k in t.rows && t.rows[k].userId == userId && t.rows[k].guildTag == g.guildTag.value;
        Memberships.OfUserExact(t, userId, t.rows[k]);
        var i :| 0 <= i < |list| && list[i] == t.rows[k];
        assert list[i].guildTag == g.guildTag.value;
      }
      if MemberOf(g, list) {
        var i :| 0 <= i < |list| && list[i].guildTag == g.guildTag.value;
        Memberships.OfUserExact(t, userId, list[i]);
        assert t.rows[list[i].membershipId].userId == userId;
      }
    }
  }
}
