// The `comments` table (src/comment/model.rs), keyed by the serial `comment_id`.
module Comments {
  import opened Wrappers
  import Rows

  datatype Comment = Comment(
    commentId: int,
    postId: int,
    userId: int,
    parentCommentId: Option<int>,
    body: string,
    isEdited: bool)

  datatype CommentForm = CommentForm(
    postId: int,
    parentCommentId: Option<int>,
    userId: int,
    body: string)

  datatype Table = Table(rows: map<int, Comment>, next: int)
  {
    predicate Valid()
    {
      1 <= next && Rows.KeysBelow(rows, next) && forall k :: k in rows ==> rows[k].commentId == k
    }
  }

  /** `r` differs from `t` at most in the row `id`; the ids and the serial are the same. */
  predicate OnlyRowChanged(t: Table, r: Table, id: int)
  {
    r.next == t.next && r.rows.Keys == t.rows.Keys &&
    forall k :: k in t.rows && k != id ==> r.rows[k] == t.rows[k]
  }

  /**
   * `create`: with a parent the INSERT lists `parent_comment_id`; without
   * one the column is left out and stays NULL. The new row is unedited.
   */
  function Create(t: Table, form: CommentForm): (r: Table)
    requires t.Valid()
    ensures r.Valid() && r.next == t.next + 1 && t.next !in t.rows
    ensures r.rows.Keys == t.rows.Keys + {t.next}
    ensures forall k :: k in t.rows ==> r.rows[k] == t.rows[k]
    ensures var c := r.rows[t.next];
      c.postId == form.postId && c.userId == form.userId && c.body == form.body &&
      c.parentCommentId == form.parentCommentId && !c.isEdited
  {
    match form.parentCommentId
    case Some(parent) =>
      Table(t.rows[t.next := Comment(t.next, form.postId, form.userId, Some(parent), form.body, false)], t.next + 1)
    case None =>
      Table(t.rows[t.next := Comment(t.next, form.postId, form.userId, None, form.body, false)], t.next + 1)
  }

  /** `WHERE comment_id = $1`. */
  function FindByCommentId(t: Table, id: int): (r: Option<Comment>)
    requires t.Valid()
    ensures r.Some? <==> id in t.rows
    ensures r.Some? ==> r.value == t.rows[id] && r.value.commentId == id
  {
    if id in t.rows then Some(t.rows[id]) else None
  }

  /** `SET body = $2, is_edited = true WHERE comment_id = $1`. */
  function Update(t: Table, id: int, newBody: string): (r: Table)
    requires t.Valid()
    ensures r.Valid() && OnlyRowChanged(t, r, id)
    ensures id in t.rows ==> r.rows[id] == t.rows[id].(body := newBody, isEdited := true)
  {
    if id in t.rows then t.(rows := t.rows[id := t.rows[id].(body := newBody, isEdited := true)]) else t
  }

  /** `DELETE FROM comments WHERE comment_id = $1`. */
  function Delete(t: Table, id: int): (r: Table)
    requires t.Valid()
    ensures r.Valid() && r.next == t.next && r.rows.Keys == t.rows.Keys - {id}
    ensures forall k :: k in r.rows ==> r.rows[k] == t.rows[k]
  {
    t.(rows := t.rows - {id})
  }
}
