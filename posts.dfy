// The `posts` table (src/post/model.rs), keyed by the serial `post_id`.
module Posts {
  import opened Wrappers
  import Rows

  datatype Post = Post(
    postId: int,
    guildTag: string,
    userId: int,
    imageUrl: Option<string>,
    linkUrl: Option<string>,
    title: string,
    body: Option<string>,
    isLocked: bool,
    isEdited: bool)

  datatype PostForm = PostForm(
    guildTag: string,
    userId: int,
    imageUrl: Option<string>,
    linkUrl: Option<string>,
    title: string,
    body: Option<string>)

  datatype PostEditForm = PostEditForm(
    postId: int,
    newImageUrl: Option<string>,
    newLinkUrl: Option<string>,
    newTitle: string,
    newBody: Option<string>)

  datatype Table = Table(rows: map<int, Post>, next: int)
  {
    predicate Valid()
    {
      1 <= next && Rows.KeysBelow(rows, next) && forall k :: k in rows ==> rows[k].postId == k
    }
  }

  /** `r` differs from `t` at most in the row `id`; the ids and the serial are the same. */
  predicate OnlyRowChanged(t: Table, r: Table, id: int)
  {
    r.next == t.next && r.rows.Keys == t.rows.Keys &&
    forall k :: k in t.rows && k != id ==> r.rows[k] == t.rows[k]
  }

  /** `INSERT INTO posts (guild_tag, user_id, image_url, link_url, title, body)`; unlocked and unedited. */
  function Create(t: Table, form: PostForm): (r: Table)
    requires t.Valid()
    ensures r.Valid() && r.next == t.next + 1 && t.next !in t.rows
    ensures r.rows.Keys == t.rows.Keys + {t.next}
    ensures forall k :: k in t.rows ==> r.rows[k] == t.rows[k]
    ensures var p := r.rows[t.next];
      p.guildTag == form.guildTag && p.userId == form.userId && p.imageUrl == form.imageUrl &&
      p.linkUrl == form.linkUrl && p.title == form.title && p.body == form.body &&
      !p.isLocked && !p.isEdited
  {
    var p := Post(t.next, form.guildTag, form.userId, form.imageUrl, form.linkUrl, form.title, form.body, false, false);
    Table(t.rows[t.next := p], t.next + 1)
  }

  /** `WHERE post_id = $1`. */
  function FindByPostId(t: Table, id: int): (r: Option<Post>)
    requires t.Valid()
    ensures r.Some? <==> id in t.rows
    ensures r.Some? ==> r.value == t.rows[id] && r.value.postId == id
  {
    if id in t.rows then Some(t.rows[id]) else None
  }

  /**
   * `SET link_url, title, body, is_edited = true, image_url WHERE post_id`:
   * the guild, the author and the lock are left as they were.
   */
  function Update(t: Table, edits: PostEditForm): (r: Table)
    requires t.Valid()
    ensures r.Valid() && OnlyRowChanged(t, r, edits.postId)
    ensures edits.postId in t.rows ==> var p, q := t.rows[edits.postId], r.rows[edits.postId];
      q.linkUrl == edits.newLinkUrl && q.title == edits.newTitle && q.body == edits.newBody &&
      q.imageUrl == edits.newImageUrl && q.isEdited &&
      q.postId == p.postId && q.guildTag == p.guildTag && q.userId == p.userId && q.isLocked == p.isLocked
  {
    var id := edits.postId;
    if id in t.rows then
      var p := t.rows[id].(linkUrl := edits.newLinkUrl, title := edits.newTitle, body := edits.newBody,
                           isEdited := true, imageUrl := edits.newImageUrl);
      t.(rows := t.rows[id := p])
    else t
  }

  /** `SET is_locked = $2 WHERE post_id = $1`. */
  function UpdateLock(t: Table, id: int, locked: bool): (r: Table)
    requires t.Valid()
    ensures r.Valid() && OnlyRowChanged(t, r, id)
    ensures id in t.rows ==> r.rows[id] == t.rows[id].(isLocked := locked)
  {
    if id in t.rows then t.(rows := t.rows[id := t.rows[id].(isLocked := locked)]) else t
  }

  /** `DELETE FROM posts WHERE post_id = $1`. */
  function Delete(t: Table, id: int): (r: Table)
    requires t.Valid()
    ensures r.Valid() && r.next == t.next && r.rows.Keys == t.rows.Keys - {id}
    ensures forall k :: k in r.rows ==> r.rows[k] == t.rows[k]
  {
    t.(rows := t.rows - {id})
  }

  /** Locking twice is the same as locking once. */
  lemma UpdateLockIdempotent(t: Table, id: int)
    requires t.Valid()
    ensures UpdateLock(UpdateLock(t, id, true), id, true) == UpdateLock(t, id, true)
  {
  }
}
