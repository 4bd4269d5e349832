// The `users` table and its queries (src/user/model.rs).
module Users {
  import opened Wrappers
  import Rows

  datatype User = User(
    userId: int,
    email: string,
    username: string,
    passwordHash: string,
    avatarUrl: Option<string>,
    isAdmin: bool,
    isVerified: bool,
    isBanned: bool)

  /** The public view: no id, no email, no password hash. */
  datatype UserView = UserView(
    username: string,
    avatarUrl: Option<string>,
    isAdmin: bool,
    isVerified: bool,
    isBanned: bool)

  /** Rows keyed by the serial `user_id`; `next` is the serial's next value. */
  datatype Table = Table(rows: map<int, User>, next: int)
  {
    predicate Valid()
    {
      1 <= next && Rows.KeysBelow(rows, next) && forall k :: k in rows ==> rows[k].userId == k
    }
  }

  /** `r` differs from `t` at most in the row `id`; the ids and the serial are the same. */
  predicate OnlyRowChanged(t: Table, r: Table, id: int)
  {
    r.next == t.next && r.rows.Keys == t.rows.Keys &&
    forall k :: k in t.rows && k != id ==> r.rows[k] == t.rows[k]
  }

  function ToSafeView(u: User): (v: UserView)
  {
    UserView(u.username, u.avatarUrl, u.isAdmin, u.isVerified, u.isBanned)
  }

  /** The public view is the same for two users who differ only in id, email and password hash. */
  lemma SafeViewHidesPrivateColumns(u: User, id: int, email: string, passwordHash: string)
    ensures ToSafeView(u.(userId := id, email := email, passwordHash := passwordHash)) == ToSafeView(u)
    ensures ToSafeView(u).username == u.username && ToSafeView(u).isBanned == u.isBanned
  {
  }

  /** bcrypt's `verify(..).unwrap_or(false)`: a verification error counts as a wrong password. */
  function VerifyPassword(verify: (string, string) -> Option<bool>, u: User, password: string): (ok: bool)
    ensures ok <==> verify(password, u.passwordHash) == Some(true)
  {
    match verify(password, u.passwordHash)
    case Some(b) => b
    case None => false
  }

  /** `INSERT INTO users (email, username, password_hash)`; the flags take their false defaults. */
  function Create(t: Table, email: string, username: string, passwordHash: string): (r: Table)
    requires t.Valid()
    ensures r.Valid() && r.next == t.next + 1
    ensures r.rows.Keys == t.rows.Keys + {t.next} && t.next !in t.rows
    ensures forall k :: k in t.rows ==> r.rows[k] == t.rows[k]
    ensures var u := r.rows[t.next];
      u.email == email && u.username == username && u.passwordHash == passwordHash &&
      u.avatarUrl.None? && !u.isAdmin && !u.isVerified && !u.isBanned
  {
    Table(t.rows[t.next := User(t.next, email, username, passwordHash, None, false, false, false)], t.next + 1)
  }

  /** `WHERE user_id = $1`. */
  function FindById(t: Table, id: int): (r: Option<User>)
    ensures r.Some? <==> id in t.rows
    ensures r.Some? ==> r.value == t.rows[id]
  {
    if id in t.rows then Some(t.rows[id]) else None
  }

  /** A `WHERE column = $1` lookup: the matching row with the lowest id. */
  function FindWhere(t: Table, p: User -> bool): (r: Option<User>)
    requires t.Valid()
    ensures r.Some? ==> r.value.userId in t.rows && t.rows[r.value.userId] == r.value && p(r.value)
    ensures r.Some? ==> forall k :: k in t.rows && k < r.value.userId ==> !p(t.rows[k])
    ensures r.None? <==> forall k :: k in t.rows ==> !p(t.rows[k])
  {
    match Rows.FindFirst(t.rows, p, 1, t.next)
    case Some(k) => Some(t.rows[k])
    case None => None
  }

  /** `find_by_username_sensitive`: the full row, password hash included. */
  function FindByUsernameSensitive(t: Table, username: string): (r: Option<User>)
    requires t.Valid()
    ensures r.Some? ==> r.value.username == username && r.value.userId in t.rows && t.rows[r.value.userId] == r.value
    ensures r.None? <==> forall k :: k in t.rows ==> t.rows[k].username != username
  {
    FindWhere(t, (u: User) => u.username == username)
  }

  /** `find_by_username`: only the public view. */
  function FindByUsername(t: Table, username: string): (r: Option<UserView>)
    requires t.Valid()
    ensures r.Some? <==> FindByUsernameSensitive(t, username).Some?
    ensures r.Some? ==> r.value == ToSafeView(FindByUsernameSensitive(t, username).value)
  {
    match FindByUsernameSensitive(t, username)
    case Some(u) => Some(ToSafeView(u))
    case None => None
  }

  /** `find_by_email`: the public view of the row with that email. */
  function FindByEmail(t: Table, email: string): (r: Option<UserView>)
    requires t.Valid()
    ensures r.None? <==> forall k :: k in t.rows ==> t.rows[k].email != email
    ensures r.Some? ==> exists k :: k in t.rows && t.rows[k].email == email && r.value == ToSafeView(t.rows[k])
  {
    match FindWhere(t, (u: User) => u.email == email)
    case Some(u) => Some(ToSafeView(u))
    case None => None
  }

  /** `UPDATE users SET <one column> WHERE user_id = $1`, with the row's new value given by `f`. */
  function UpdateRow(t: Table, id: int, f: User -> User): (r: Table)
    requires t.Valid()
    requires forall u: User :: f(u).userId == u.userId
    ensures r.Valid() && OnlyRowChanged(t, r, id)
    ensures id in t.rows ==> r.rows[id] == f(t.rows[id])
  {
    if id in t.rows then t.(rows := t.rows[id := f(t.rows[id])]) else t
  }

  function UpdateUsername(t: Table, id: int, username: string): (r: Table)
    requires t.Valid()
    ensures r.Valid() && OnlyRowChanged(t, r, id)
    ensures id in t.rows ==> r.rows[id] == t.rows[id].(username := username)
  {
    UpdateRow(t, id, (u: User) => u.(username := username))
  }

  function UpdateEmail(t: Table, id: int, email: string): (r: Table)
    requires t.Valid()
    ensures r.Valid() && OnlyRowChanged(t, r, id)
    ensures id in t.rows ==> r.rows[id] == t.rows[id].(email := email)
  {
    UpdateRow(t, id, (u: User) => u.(email := email))
  }

  /** Stores `hash(new_password)`, never the password itself. */
  function UpdatePassword(t: Table, id: int, hash: string -> string, newPassword: string): (r: Table)
    requires t.Valid()
    ensures r.Valid() && OnlyRowChanged(t, r, id)
    ensures id in t.rows ==> r.rows[id] == t.rows[id].(passwordHash := hash(newPassword))
  {
    UpdateRow(t, id, (u: User) => u.(passwordHash := hash(newPassword)))
  }

  /** `SET avatar_url = $2`: the new URL is a plain string, so the column becomes non-NULL. */
  function UpdateAvatarUrl(t: Table, id: int, avatarUrl: string): (r: Table)
    requires t.Valid()
    ensures r.Valid() && OnlyRowChanged(t, r, id)
    ensures id in t.rows ==> r.rows[id] == t.rows[id].(avatarUrl := Some(avatarUrl))
  {
    UpdateRow(t, id, (u: User) => u.(avatarUrl := Some(avatarUrl)))
  }

  function UpdateAdminStatus(t: Table, id: int, isAdmin: bool): (r: Table)
    requires t.Valid()
    ensures r.Valid() && OnlyRowChanged(t, r, id)
    ensures id in t.rows ==> r.rows[id] == t.rows[id].(isAdmin := isAdmin)
  {
    UpdateRow(t, id, (u: User) => u.(isAdmin := isAdmin))
  }

  function UpdateVerifiedStatus(t: Table, id: int, isVerified: bool): (r: Table)
    requires t.Valid()
    ensures r.Valid() && OnlyRowChanged(t, r, id)
    ensures id in t.rows ==> r.rows[id] == t.rows[id].(isVerified := isVerified)
  {
    UpdateRow(t, id, (u: User) => u.(isVerified := isVerified))
  }

  function UpdateBannedStatus(t: Table, id: int, isBanned: bool): (r: Table)
    requires t.Valid()
    ensures r.Valid() && OnlyRowChanged(t, r, id)
    ensures id in t.rows ==> r.rows[id] == t.rows[id].(isBanned := isBanned)
  {
    UpdateRow(t, id, (u: User) => u.(isBanned := isBanned))
  }

  /** `DELETE FROM users WHERE user_id = $1`. */
  function Delete(t: Table, id: int): (r: Table)
    requires t.Valid()
    ensures r.Valid() && r.next == t.next
    ensures r.rows.Keys == t.rows.Keys - {id}
    ensures forall k :: k in r.rows ==> r.rows[k] == t.rows[k]
  {
    t.(rows := t.rows - {id})
  }

  /**
   * A row written by `Create` is found again by its id, with the stored
   * values and default flags; its username always finds a row, and finds
   * the new one when no earlier user had that name.
   */
  lemma CreateThenFind(t: Table, email: string, username: string, passwordHash: string)
    requires t.Valid()
    ensures var r := Create(t, email, username, passwordHash);
      var u := User(t.next, email, username, passwordHash, None, false, false, false);
      FindById(r, t.next) == Some(u) &&
      FindByUsernameSensitive(r, username).Some? &&
      ((forall k :: k in t.rows ==> t.rows[k].username != username) ==> FindByUsernameSensitive(r, username) == Some(u))
  {
    var r := Create(t, email, username, passwordHash);
    assert r.rows[t.next].username == username;
    if forall k :: k in t.rows ==> t.rows[k].username != username {
      var found := FindByUsernameSensitive(r, username).value;
      assert found.userId == t.next;
    }
  }
}
