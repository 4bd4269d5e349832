// The `reports` table (src/report/model.rs), keyed by the serial
// `report_id`. A report names either a post or a comment.
module Reports {
  import opened Wrappers
  import Rows
  import Paging

  datatype Report = Report(
    reportId: int,
    postId: Option<int>,
    commentId: Option<int>,
    reason: string,
    addressed: bool)

  /** The form's ids use 0 for "no target". */
  datatype ReportForm = ReportForm(postId: int, commentId: int, reason: string)

  datatype Table = Table(rows: map<int, Report>, next: int)
  {
    predicate Valid()
    {
      1 <= next && Rows.KeysBelow(rows, next) && forall k :: k in rows ==> rows[k].reportId == k
    }
  }

  /** `r` is `t` with one more row, `report`, under the next serial id. */
  predicate AddedRow(t: Table, r: Table, report: Report)
  {
    r.next == t.next + 1 && t.next !in t.rows && r.rows.Keys == t.rows.Keys + {t.next} &&
    r.rows[t.next] == report && forall k :: k in t.rows ==> r.rows[k] == t.rows[k]
  }

  /**
   * `create`: with `comment_id == 0` a post report, else with `post_id == 0`
   * a comment report; with both ids non-zero nothing is inserted and the
   * call still succeeds. `addressed` takes its false default.
   */
  function Create(t: Table, form: ReportForm): (r: Table)
    requires t.Valid()
    ensures r.Valid()
    ensures form.commentId == 0 ==> AddedRow(t, r, Report(t.next, Some(form.postId), None, form.reason, false))
    ensures form.commentId != 0 && form.postId == 0 ==>
      AddedRow(t, r, Report(t.next, None, Some(form.commentId), form.reason, false))
    ensures form.commentId != 0 && form.postId != 0 ==> r == t
  {
    if form.commentId == 0 then
      Table(t.rows[t.next := Report(t.next, Some(form.postId), None, form.reason, false)], t.next + 1)
    else if form.postId == 0 then
      Table(t.rows[t.next := Report(t.next, None, Some(form.commentId), form.reason, false)], t.next + 1)
    else t
  }

  /** Every inserted report names exactly one target, whenever the form names at most one. */
  lemma CreateNamesOneTarget(t: Table, form: ReportForm)
    requires t.Valid() && (form.postId == 0 || form.commentId == 0)
    ensures t.next in Create(t, form).rows
    ensures var report := Create(t, form).rows[t.next];
      report.postId.Some? != report.commentId.Some? && !report.addressed
  {
  }

  /** `WHERE report_id = $1`. */
  function FindByReportId(t: Table, id: int): (r: Option<Report>)
    ensures r.Some? <==> id in t.rows
    ensures r.Some? ==> r.value == t.rows[id]
  {
    if id in t.rows then Some(t.rows[id]) else None
  }

  /** `WHERE post_id = $1 ORDER BY report_id`, unpaged. */
  function OfPost(t: Table, postId: int): seq<Report>
  {
    Rows.Where(t.rows, (x: Report) => x.postId == Some(postId), t.next)
  }

  /**
   * `find_all_by_post_id`: the numbered page of the post's reports.
   * `None` is the database's error for a negative limit or offset.
   */
  function FindAllByPostId(t: Table, postId: int, perPage: int, page: int): (r: Option<seq<Report>>)
    requires t.Valid()
    ensures r == Paging.NumberedPage(OfPost(t, postId), perPage, page)
    ensures r.Some? ==> forall i :: 0 <= i < |r.value| ==>
      r.value[i].postId == Some(postId) && r.value[i].reportId in t.rows && t.rows[r.value[i].reportId] == r.value[i]
  {
    var all := OfPost(t, postId);
    assert forall i :: 0 <= i < |all| ==> all[i].reportId in t.rows && t.rows[all[i].reportId] == all[i] by {
      forall i | 0 <= i < |all| ensures all[i].reportId in t.rows && t.rows[all[i].reportId] == all[i] {
        Rows.WhereExact(t.rows, (x: Report) => x.postId == Some(postId), t.next, all[i]);
      }
    }
    Paging.NumberedPage(all, perPage, page)
  }

  /** The unpaged listing holds exactly the post's reports, in ascending id order. */
  lemma OfPostExact(t: Table, postId: int, x: Report)
    requires t.Valid()
    ensures x in OfPost(t, postId) <==> x.reportId in t.rows && t.rows[x.reportId] == x && x.postId == Some(postId)
    ensures forall i, j :: 0 <= i < j < |OfPost(t, postId)| ==>
      OfPost(t, postId)[i].reportId < OfPost(t, postId)[j].reportId
  {
    Rows.WhereExact(t.rows, (x: Report) => x.postId == Some(postId), t.next, x);
  }

  /** `UPDATE reports SET addressed = $2 WHERE report_id = $1`. */
  function UpdateAddressedStatus(t: Table, id: int, addressed: bool): (r: Table)
    requires t.Valid()
    ensures r.Valid() && r.next == t.next && r.rows.Keys == t.rows.Keys
    ensures forall k :: k in t.rows && k != id ==> r.rows[k] == t.rows[k]
    ensures id in t.rows ==> r.rows[id] == t.rows[id].(addressed := addressed)
  {
    if id in t.rows then t.(rows := t.rows[id := t.rows[id].(addressed := addressed)]) else t
  }
}
