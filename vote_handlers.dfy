// The vote handlers under src/post_vote/api_handlers and
// src/comment_vote/api_handlers. The target is checked before the session.
module VoteHandlers {
  import opened Wrappers
  import Votes
  import Policies
  import opened Forum

  /** The `Ok` body a vote request answers with, by the vote it finds. */
  function VoteReply(existing: Option<Votes.Vote>, up: bool): (r: Body)
    ensures r == VoteCast <==> existing.None?
    ensures r == VoteUndone <==> existing.Some? && existing.value.up == up
    ensures r == VoteUpdated <==> existing.Some? && existing.value.up != up
  {
    match existing
    case None => VoteCast
    case Some(v) => if v.up == up then VoteUndone else VoteUpdated
  }

  /** `POST /vote/post`: the post must exist and be unlocked. */
  method VotePost(f: Forum, postId: int, up: bool, txFails: bool) returns (resp: Response)
    requires f.Valid()
    modifies f
    ensures f.Valid()
    ensures postId !in old(f.db).posts.rows ==> resp == BadRequest(PostNotFound) && f.cookie == old(f.cookie)
    ensures postId in old(f.db).posts.rows && old(f.db).posts.rows[postId].isLocked ==>
      resp == Forbidden(PostLocked) && f.cookie == old(f.cookie)
    ensures postId in old(f.db).posts.rows && !old(f.db).posts.rows[postId].isLocked ==>
      var out := old(f.Verdict(Policies.AnyUser));
      f.cookie == old(f.CookieAfter()) &&
      resp == (
        if !out.Passed() then Rejected(out)
        else if txFails then InternalError(DbFailure)
        else Ok(VoteReply(Votes.FindByTargetAndUserId(old(f.db).postVotes, postId, out.user.value.userId), up))) &&
      (resp.Ok? ==> f.db == old(f.db).(postVotes := Votes.Toggle(old(f.db).postVotes, postId, out.user.value.userId, up)))
    ensures !resp.Ok? ==> f.db == old(f.db)
  {
    if postId !in f.db.posts.rows {
      return BadRequest(PostNotFound);
    }
    if f.db.posts.rows[postId].isLocked {
      return Forbidden(PostLocked);
    }
    var out := f.Authorize(Policies.AnyUser);
    if !out.Passed() {
      return Rejected(out);
    }
    var userId := out.user.value.userId;
    var existing := Votes.FindByTargetAndUserId(f.db.postVotes, postId, userId);
    if txFails {
      return InternalError(DbFailure);
    }
    var votes;
    if existing.Some? && existing.value.up == up {
      votes := Votes.Delete(f.db.postVotes, postId, userId);
    } else if existing.Some? {
      votes := Votes.Update(f.db.postVotes, Votes.Vote(postId, userId, up));
    } else {
      votes := Votes.Create(f.db.postVotes, Votes.Vote(postId, userId, up)).value;
    }
    f.db := f.db.(postVotes := votes);
    resp := Ok(VoteReply(existing, up));
  }

  /**
   * `POST /vote/comment`: the comment must exist, and its post must not
   * be locked; a comment whose post is gone can still be voted on.
   */
  method VoteComment(f: Forum, commentId: int, up: bool, txFails: bool) returns (resp: Response)
    requires f.Valid()
    modifies f
    ensures f.Valid()
    ensures commentId !in old(f.db).comments.rows ==> resp == BadRequest(CommentNotFound) && f.cookie == old(f.cookie)
    ensures commentId in old(f.db).comments.rows ==>
      var postId := old(f.db).comments.rows[commentId].postId;
      var locked := postId in old(f.db).posts.rows && old(f.db).posts.rows[postId].isLocked;
      var out := old(f.Verdict(Policies.AnyUser));
      (locked ==> resp == Forbidden(PostLocked) && f.cookie == old(f.cookie)) &&
      (!locked ==>
        f.cookie == old(f.CookieAfter()) &&
        resp == (
          if !out.Passed() then Rejected(out)
          else if txFails then InternalError(DbFailure)
          else Ok(VoteReply(Votes.FindByTargetAndUserId(old(f.db).commentVotes, commentId, out.user.value.userId), up))) &&
        (resp.Ok? ==>
          f.db == old(f.db).(commentVotes := Votes.Toggle(old(f.db).commentVotes, commentId, out.user.value.userId, up))))
    ensures !resp.Ok? ==> f.db == old(f.db)
  {
    if commentId !in f.db.comments.rows {
      return BadRequest(CommentNotFound);
    }
    var postId := f.db.comments.rows[commentId].postId;
    if postId in f.db.posts.rows && f.db.posts.rows[postId].isLocked {
      return Forbidden(PostLocked);
    }
    var out := f.Authorize(Policies.AnyUser);
    if !out.Passed() {
      return Rejected(out);
    }
    var userId := out.user.value.userId;
    var existing := Votes.FindByTargetAndUserId(f.db.commentVotes, commentId, userId);
    if txFails {
      return InternalError(DbFailure);
    }
    var votes;
    if existing.Some? && existing.value.up == up {
      votes := Votes.Delete(f.db.commentVotes, commentId, userId);
    } else if existing.Some? {
      votes := Votes.Update(f.db.commentVotes, Votes.Vote(commentId, userId, up));
    } else {
      votes := Votes.Create(f.db.commentVotes, Votes.Vote(commentId, userId, up)).value;
    }
    f.db := f.db.(commentVotes := votes);
    resp := Ok(VoteReply(existing, up));
  }
}
