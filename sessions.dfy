// The `user_sessions` table (src/user_session/model.rs), keyed by the
// session token that the cookie carries.
module Sessions {
  import opened Wrappers

  datatype UserSession = UserSession(sessionId: string, userId: int)

  /** What `create` hands back to the login handler. */
  datatype UserSessionView = UserSessionView(sessionId: string, userId: int)

  datatype Table = Table(rows: map<string, UserSession>)
  {
    predicate Valid()
    {
      forall k :: k in rows ==> rows[k].sessionId == k
    }
  }

  /**
   * `INSERT INTO user_sessions (session_id, user_id)` with a freshly generated
   * token; a token already in the table violates the key and fails (`None`).
   */
  function Create(t: Table, token: string, userId: int): (r: Option<(Table, UserSessionView)>)
    requires t.Valid()
    ensures r.None? <==> token in t.rows
    ensures r.Some? ==> var (t', view) := r.value;
      t'.Valid() && view == UserSessionView(token, userId) &&
      t'.rows.Keys == t.rows.Keys + {token} && t'.rows[token] == UserSession(token, userId) &&
      forall k :: k in t.rows ==> t'.rows[k] == t.rows[k]
  {
    if token in t.rows then None
    else Some((Table(t.rows[token := UserSession(token, userId)]), UserSessionView(token, userId)))
  }

  /** `WHERE session_id = $1`. */
  function FindBySessionId(t: Table, token: string): (r: Option<UserSession>)
    ensures r.Some? <==> token in t.rows
    ensures r.Some? ==> r.value == t.rows[token]
    ensures t.Valid() && r.Some? ==> r.value.sessionId == token
  {
    if token in t.rows then Some(t.rows[token]) else None
  }

  /** `WHERE user_id = $1`: every session of the user and no other row. */
  function FindSessionsByUserId(t: Table, userId: int): (r: set<UserSession>)
    ensures forall s :: s in r <==> s in t.rows.Values && s.userId == userId
  {
    set k | k in t.rows && t.rows[k].userId == userId :: t.rows[k]
  }

  /** `DELETE FROM user_sessions WHERE session_id = $1`. */
  function Delete(t: Table, token: string): (r: Table)
    requires t.Valid()
    ensures r.Valid() && r.rows.Keys == t.rows.Keys - {token}
    ensures forall k :: k in r.rows ==> r.rows[k] == t.rows[k]
  {
    Table(t.rows - {token})
  }

  /**
   * Deleting one session leaves the user's other sessions: after `Delete`
   * the user's sessions are exactly the old ones minus the deleted row.
   */
  lemma DeleteKeepsOtherSessions(t: Table, token: string, userId: int)
    requires t.Valid()
    ensures FindSessionsByUserId(Delete(t, token), userId)
         == FindSessionsByUserId(t, userId) - (if token in t.rows then {t.rows[token]} else {})
  {
    var before := FindSessionsByUserId(t, userId);
    var after := FindSessionsByUserId(Delete(t, token), userId);
    var gone: set<UserSession> := if token in t.rows then {t.rows[token]} else {};
    forall s | s in after ensures s in before - gone {
      var k :| k in Delete(t, token).rows && Delete(t, token).rows[k] == s;
      assert k != token && s.sessionId == k;
    }
    forall s | s in before - gone ensures s in after {
      var k :| k in t.rows && t.rows[k] == s;
      assert k != token;
      assert k in Delete(t, token).rows;
    }
  }
}
