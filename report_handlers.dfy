// The report handler under src/report/api_handlers.
module ReportHandlers {
  import opened Wrappers
  import Reports
  import Policies
  import opened Forum

  /**
   * `POST /create`: a signed-in user reports exactly one existing post
   * (`comment_id` 0) or comment (`post_id` 0) with a non-empty reason.
   */
  method CreateReport(f: Forum, form: Reports.ReportForm, txFails: bool) returns (resp: Response)
    requires f.Valid()
    modifies f
    ensures f.Valid()
    ensures form.reason == "" ==> resp == BadRequest(EmptyReason) && f.cookie == old(f.cookie)
    ensures form.reason != "" ==>
      var out := old(f.Verdict(Policies.AnyUser));
      f.cookie == old(f.CookieAfter()) &&
      resp == (
        if !out.Passed() then Rejected(out)
        else if form.postId == 0 && form.commentId == 0 then BadRequest(NoTarget)
        else if form.postId != 0 && form.commentId != 0 then BadRequest(TwoTargets)
        else if form.postId == 0 && form.commentId !in old(f.db).comments.rows then BadRequest(CommentNotFound)
        else if form.postId != 0 && form.postId !in old(f.db).posts.rows then BadRequest(PostNotFound)
        else if txFails then InternalError(DbFailure)
        else Ok(Done))
    ensures f.db == if resp.Ok? then old(f.db).(reports := Reports.Create(old(f.db).reports, form)) else old(f.db)
  {
    if form.reason == "" {
      return BadRequest(EmptyReason);
    }
    var out := f.Authorize(Policies.AnyUser);
    if !out.Passed() {
      return Rejected(out);
    }
    if form.postId == 0 && form.commentId == 0 {
      return BadRequest(NoTarget);
    }
    if form.postId != 0 && form.commentId != 0 {
      return BadRequest(TwoTargets);
    }
    if form.postId == 0 && form.commentId !in f.db.comments.rows {
      return BadRequest(CommentNotFound);
    }
    if form.postId != 0 && form.postId !in f.db.posts.rows {
      return BadRequest(PostNotFound);
    }
    if txFails {
      return InternalError(DbFailure);
    }
    f.db := f.db.(reports := Reports.Create(f.db.reports, form));
    resp := Ok(Done);
  }

  /** A report the handler accepts names exactly one target, the one the form names. */
  lemma AcceptedReportNamesItsTarget(t: Reports.Table, form: Reports.ReportForm)
    requires t.Valid() && (form.postId == 0) != (form.commentId == 0)
    ensures var report := Reports.Create(t, form).rows[t.next];
      (report.postId == Some(form.postId) <==> form.postId != 0) &&
      (report.commentId == Some(form.commentId) <==> form.commentId != 0) &&
      report.reason == form.reason && !report.addressed
  {
    Reports.CreateNamesOneTarget(t, form);
  }
}
