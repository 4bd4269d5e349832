// The `post_votes` and `comment_votes` tables (src/post_vote/model.rs,
// src/comment_vote/model.rs). Both have the same shape: a vote `up` or down
// keyed by (voted-on id, user id), so one module models both.
module Votes {
  import opened Wrappers
  import Paging

  /** `PostVote { post_id, user_id, up }` or `CommentVote { comment_id, user_id, up }`. */
  datatype Vote = Vote(targetId: int, userId: int, up: bool)

  /** `up` of each vote, by (target id, user id). */
  datatype Table = Table(rows: map<(int, int), bool>)

  /** `INSERT (target_id, user_id, up)`; a pair that already voted violates the key and fails. */
  function Create(t: Table, v: Vote): (r: Option<Table>)
    ensures r.None? <==> (v.targetId, v.userId) in t.rows
    ensures r.Some? ==> r.value.rows == t.rows[(v.targetId, v.userId) := v.up]
  {
    if (v.targetId, v.userId) in t.rows then None else Some(Table(t.rows[(v.targetId, v.userId) := v.up]))
  }

  /** `SET up = $3 WHERE target_id = $1 AND user_id = $2`; no matching row changes nothing. */
  function Update(t: Table, v: Vote): (r: Table)
    ensures r.rows.Keys == t.rows.Keys
    ensures (v.targetId, v.userId) in t.rows ==> r.rows[(v.targetId, v.userId)] == v.up
    ensures forall k :: k in t.rows && k != (v.targetId, v.userId) ==> r.rows[k] == t.rows[k]
  {
    var key := (v.targetId, v.userId);
    if key in t.rows then Table(t.rows[key := v.up]) else t
  }

  /** `WHERE target_id = $1 AND user_id = $2`. */
  function FindByTargetAndUserId(t: Table, targetId: int, userId: int): (r: Option<Vote>)
    ensures r.Some? <==> (targetId, userId) in t.rows
    ensures r.Some? ==> r.value == Vote(targetId, userId, t.rows[(targetId, userId)])
  {
    if (targetId, userId) in t.rows then Some(Vote(targetId, userId, t.rows[(targetId, userId)])) else None
  }

  /** `WHERE target_id = $1`: every vote on that post or comment. */
  function FindAllByTargetId(t: Table, targetId: int): (r: set<Vote>)
    ensures forall v :: v in r <==> v.targetId == targetId && (targetId, v.userId) in t.rows && t.rows[(targetId, v.userId)] == v.up
  {
    set k | k in t.rows && k.0 == targetId :: Vote(k.0, k.1, t.rows[k])
  }

  /** `DELETE ... WHERE target_id = $1 AND user_id = $2`. */
  function Delete(t: Table, targetId: int, userId: int): (r: Table)
    ensures r.rows.Keys == t.rows.Keys - {(targetId, userId)}
    ensures forall k :: k in r.rows ==> r.rows[k] == t.rows[k]
  {
    Table(t.rows - {(targetId, userId)})
  }

  /**
   * What a vote request does to the table: voting the same way again
   * withdraws the vote, voting the other way flips it, and a first vote is
   * recorded. Every other user's and target's vote is left alone.
   */
  function Toggle(t: Table, targetId: int, userId: int, up: bool): (r: Table)
    ensures var key := (targetId, userId);
      (key in r.rows <==> !(key in t.rows && t.rows[key] == up)) &&
      (key in r.rows ==> r.rows[key] == up)
    ensures forall k :: k != (targetId, userId) ==> (k in r.rows <==> k in t.rows)
    ensures forall k :: k in r.rows && k != (targetId, userId) ==> r.rows[k] == t.rows[k]
  {
    match FindByTargetAndUserId(t, targetId, userId)
    case Some(v) => if v.up == up then Delete(t, targetId, userId) else Update(t, Vote(targetId, userId, up))
    case None => Create(t, Vote(targetId, userId, up)).value
  }

  /** Repeating a first vote, or repeating a withdrawal, gives the table back. */
  lemma {:induction false} ToggleTwice(t: Table, targetId: int, userId: int, up: bool)
    requires (targetId, userId) !in t.rows || t.rows[(targetId, userId)] == up
    ensures Toggle(Toggle(t, targetId, userId, up), targetId, userId, up) == t
  {
    var key := (targetId, userId);
    var r := Toggle(Toggle(t, targetId, userId, up), targetId, userId, up);
    assert r.rows.Keys == t.rows.Keys;
    assert forall k :: k in r.rows ==> r.rows[k] == t.rows[k];
  }

  /** After any vote request the user has at most one vote on the target, and it is in the requested direction. */
  lemma ToggleThenFind(t: Table, targetId: int, userId: int, up: bool)
    ensures var v := FindByTargetAndUserId(Toggle(t, targetId, userId, up), targetId, userId);
      v.None? || v.value == Vote(targetId, userId, up)
    ensures var v := FindByTargetAndUserId(Toggle(t, targetId, userId, up), targetId, userId);
      v.None? <==> FindByTargetAndUserId(t, targetId, userId) == Some(Vote(targetId, userId, up))
  {
  }

  /**
   * `listing` is the result of `WHERE user_id = $1` in the order the
   * database returns it (the query has no ORDER BY): each of the user's
   * votes exactly once.
   */
  predicate ListsVotesOf(listing: seq<Vote>, t: Table, userId: int)
  {
    (forall i, j :: 0 <= i < j < |listing| ==> listing[i] != listing[j]) &&
    (forall i :: 0 <= i < |listing| ==>
       (listing[i].userId == userId && (listing[i].targetId, userId) in t.rows &&
        t.rows[(listing[i].targetId, userId)] == listing[i].up)) &&
    (forall k :: k in t.rows && k.1 == userId ==> Vote(k.0, k.1, t.rows[k]) in listing)
  }

  /**
   * `find_all_by_user_id` as written: it binds the raw `page_number` as the
   * OFFSET, so page `p` starts at row `p`, not at row `(p - 1) * per_page`.
   */
  function FindAllByUserId(listing: seq<Vote>, perPage: int, page: int): (r: Option<seq<Vote>>)
    ensures r.None? <==> perPage < 0 || page < 0
    ensures r.Some? ==> |r.value| == Paging.PageSize(|listing|, perPage, page)
    ensures r.Some? ==> forall j :: 0 <= j < |r.value| ==> page + j < |listing| && r.value[j] == listing[page + j]
  {
    Paging.Page(listing, perPage, page)
  }

  /**
   * As written, page 1 and later never show the listing's first vote: the
   * raw OFFSET skips it on every page a caller can number from 1.
   */
  lemma RawOffsetNeverShowsFirstVote(listing: seq<Vote>, t: Table, userId: int, perPage: int, page: int)
    requires ListsVotesOf(listing, t, userId) && |listing| > 0 && page >= 1
    requires FindAllByUserId(listing, perPage, page).Some?
    ensures listing[0] !in FindAllByUserId(listing, perPage, page).value
  {
    var r := FindAllByUserId(listing, perPage, page).value;
    assert forall j :: 0 <= j < |r| ==> r[j] == listing[page + j] && listing[page + j] != listing[0];
  }

  /** The same query with the offset every other paged finder binds, `(page - 1) * per_page` in `i64`. */
  function FindAllByUserIdCorrected(listing: seq<Vote>, perPage: int, page: int): (r: Option<seq<Vote>>)
    ensures r.None? <==> perPage < 0 || Paging.Offset(perPage, page) < 0
    ensures r.Some? ==> |r.value| == Paging.PageSize(|listing|, perPage, Paging.Offset(perPage, page))
    ensures r.Some? ==> forall j :: 0 <= j < |r.value| ==>
      (Paging.Offset(perPage, page) + j < |listing| && r.value[j] == listing[Paging.Offset(perPage, page) + j])
  {
    Paging.NumberedPage(listing, perPage, page)
  }

  /**
   * As written, with three votes and two per page: page 1 skips the first
   * vote, and pages 1 and 2 both return the third.
   */
  lemma RawOffsetSkipsAndRepeats(a: Vote, b: Vote, c: Vote)
    ensures FindAllByUserId([a, b, c], 2, 1) == Some([b, c])
    ensures FindAllByUserId([a, b, c], 2, 2) == Some([c])
  {
    assert [a, b, c][1..3] == [b, c];
    assert [a, b, c][2..3] == [c];
  }

  /**
   * Corrected, page 1 starts at the user's first vote, and pages `1..n`
   * list every vote of the user in the table, in order, each once.
   */
  lemma {:induction false} CorrectedPagesListEverything(listing: seq<Vote>, t: Table, userId: int, perPage: int, n: nat)
    requires ListsVotesOf(listing, t, userId)
    requires perPage > 0 && n * perPage >= |listing|
    ensures Paging.FirstPages(listing, perPage, n) == listing
    ensures forall k :: k in t.rows && k.1 == userId ==> Vote(k.0, k.1, t.rows[k]) in Paging.FirstPages(listing, perPage, n)
    ensures FindAllByUserIdCorrected(listing, perPage, 1) == Some(listing[..Paging.Min(perPage, |listing|)])
  {
    Paging.AllPagesGiveEverything(listing, perPage, n);
    assert Paging.Offset(perPage, 1) == 0 by {
      assert Paging.WrapI64(0) == 0;
    }
  }

  /** A vote written by `Create` is found again; a deleted one is not. */
  lemma CreateDeleteFind(t: Table, v: Vote)
    requires (v.targetId, v.userId) !in t.rows
    ensures FindByTargetAndUserId(Create(t, v).value, v.targetId, v.userId) == Some(v)
    ensures FindByTargetAndUserId(Delete(t, v.targetId, v.userId), v.targetId, v.userId).None?
  {
  }
}
