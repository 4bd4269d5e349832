// The handlers under src/comment/api_handlers: creating, editing and
// deleting comments.
module CommentHandlers {
  import opened Wrappers
  import Comments
  import Policies
  import opened Forum

  /** A parent id of 0 in the request means a top-level comment. */
  function ParentOf(parentCommentId: int): (r: Option<int>)
    ensures r.None? <==> parentCommentId == 0
    ensures r.Some? ==> r.value == parentCommentId
  {
    if parentCommentId == 0 then None else Some(parentCommentId)
  }

  /** `POST /create`: a signed-in user comments on an existing, unlocked post. */
  method CreateComment(f: Forum, postId: int, parentCommentId: int, body: string, txFails: bool)
    returns (resp: Response)
    requires f.Valid()
    modifies f
    ensures f.Valid() && f.cookie == old(f.CookieAfter())
    ensures var out := old(f.Verdict(Policies.AnyUser));
      resp == (
        if !out.Passed() then Rejected(out)
        else if postId !in old(f.db).posts.rows then BadRequest(PostNotFound)
        else if old(f.db).posts.rows[postId].isLocked then Forbidden(PostLocked)
        else if body == "" then BadRequest(EmptyBody)
        else if txFails then InternalError(DbFailure)
        else Ok(Done)) &&
      (resp.Ok? ==>
        f.db == old(f.db).(comments := Comments.Create(old(f.db).comments,
          Comments.CommentForm(postId, ParentOf(parentCommentId), out.user.value.userId, body))))
    ensures !resp.Ok? ==> f.db == old(f.db)
  {
    var out := f.Authorize(Policies.AnyUser);
    if !out.Passed() {
      return Rejected(out);
    }
    if postId !in f.db.posts.rows {
      return BadRequest(PostNotFound);
    }
    if f.db.posts.rows[postId].isLocked {
      return Forbidden(PostLocked);
    }
    if body == "" {
      return BadRequest(EmptyBody);
    }
    var form := Comments.CommentForm(postId, ParentOf(parentCommentId), out.user.value.userId, body);
    if txFails {
      return InternalError(DbFailure);
    }
    f.db := f.db.(comments := Comments.Create(f.db.comments, form));
    resp := Ok(Done);
  }

  /** `POST /edit`: the author replaces the body, which must not be empty. */
  method EditComment(f: Forum, commentId: int, newBody: string, txFails: bool) returns (resp: Response)
    requires f.Valid()
    modifies f
    ensures f.Valid() && f.cookie == old(f.CookieAfter())
    ensures var out := old(f.Verdict(Policies.AnyUser));
      resp == (
        if !out.Passed() then Rejected(out)
        else if commentId !in old(f.db).comments.rows then BadRequest(CommentNotFound)
        else if old(f.db).comments.rows[commentId].userId != out.user.value.userId then Forbidden(NotAuthor)
        else if newBody == "" then BadRequest(EmptyBody)
        else if txFails then InternalError(DbFailure)
        else Ok(Done))
    ensures f.db == if resp.Ok? then old(f.db).(comments := Comments.Update(old(f.db).comments, commentId, newBody)) else old(f.db)
  {
    var out := f.Authorize(Policies.AnyUser);
    if !out.Passed() {
      return Rejected(out);
    }
    var comment := Comments.FindByCommentId(f.db.comments, commentId);
    if comment.None? {
      return BadRequest(CommentNotFound);
    }
    if comment.value.userId != out.user.value.userId {
      return Forbidden(NotAuthor);
    }
    if newBody == "" {
      return BadRequest(EmptyBody);
    }
    if txFails {
      return InternalError(DbFailure);
    }
    f.db := f.db.(comments := Comments.Update(f.db.comments, commentId, newBody));
    resp := Ok(Done);
  }

  /** `POST /delete`: the author deletes their comment. */
  method DeleteComment(f: Forum, commentId: int, txFails: bool) returns (resp: Response)
    requires f.Valid()
    modifies f
    ensures f.Valid() && f.cookie == old(f.CookieAfter())
    ensures var out := old(f.Verdict(Policies.AnyUser));
      resp == (
        if !out.Passed() then Rejected(out)
        else if commentId !in old(f.db).comments.rows then BadRequest(CommentNotFound)
        else if old(f.db).comments.rows[commentId].userId != out.user.value.userId then Forbidden(NotAuthor)
        else if txFails then InternalError(DbFailure)
        else Ok(Done))
    ensures f.db == if resp.Ok? then old(f.db).(comments := Comments.Delete(old(f.db).comments, commentId)) else old(f.db)
  {
    var out := f.Authorize(Policies.AnyUser);
    if !out.Passed() {
      return Rejected(out);
    }
    var comment := Comments.FindByCommentId(f.db.comments, commentId);
    if comment.None? {
      return BadRequest(CommentNotFound);
    }
    if comment.value.userId != out.user.value.userId {
      return Forbidden(NotAuthor);
    }
    if txFails {
      return InternalError(DbFailure);
    }
    f.db := f.db.(comments := Comments.Delete(f.db.comments, commentId));
    resp := Ok(Done);
  }
}
