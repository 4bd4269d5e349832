// The `user_registrations` table (src/user_registration/model.rs): sign-ups
// waiting for their confirmation link, keyed by the serial `registration_id`.
module Registrations {
  import opened Wrappers
  import Text
  import Rows

  datatype UserRegistration = UserRegistration(
    registrationId: int,
    username: string,
    email: string,
    passwordHash: string,
    registrationHash: string)

  /** What `create` returns: the address to mail and the confirmation token. */
  datatype UserRegistrationView = UserRegistrationView(email: string, registrationHash: string)

  datatype UserRegistrationForm = UserRegistrationForm(
    email: string,
    username: string,
    password: string,
    confirmPassword: string)

  datatype Table = Table(rows: map<int, UserRegistration>, next: int)
  {
    predicate Valid()
    {
      1 <= next && Rows.KeysBelow(rows, next) && forall k :: k in rows ==> rows[k].registrationId == k
    }
  }

  /**
   * `create`: hashes the password, draws a 25-letter token from `CHARSET`,
   * inserts the row under the next serial id and returns email and token.
   */
  function Create(t: Table, form: UserRegistrationForm, hash: string -> string, draws: seq<int>)
    : (r: (Table, UserRegistrationView))
    requires t.Valid()
    requires |draws| == Text.TOKEN_LENGTH && Text.ValidDraws(draws)
    ensures var (t', view) := r;
      t'.Valid() && t'.next == t.next + 1 && t.next !in t.rows &&
      t'.rows.Keys == t.rows.Keys + {t.next} &&
      (forall k :: k in t.rows ==> t'.rows[k] == t.rows[k]) &&
      t'.rows[t.next] == UserRegistration(t.next, form.username, form.email, hash(form.password), view.registrationHash) &&
      view.email == form.email
    ensures |r.1.registrationHash| == Text.TOKEN_LENGTH
    ensures forall i :: 0 <= i < |r.1.registrationHash| ==> r.1.registrationHash[i] in Text.CHARSET
  {
    var token := Text.Token(draws);
    var row := UserRegistration(t.next, form.username, form.email, hash(form.password), token);
    (Table(t.rows[t.next := row], t.next + 1), UserRegistrationView(form.email, token))
  }

  /** A `WHERE column = $1` lookup: the matching row with the lowest id. */
  function FindWhere(t: Table, p: UserRegistration -> bool): (r: Option<UserRegistration>)
    requires t.Valid()
    ensures r.Some? ==> r.value.registrationId in t.rows && t.rows[r.value.registrationId] == r.value && p(r.value)
    ensures r.Some? ==> forall k :: k in t.rows && k < r.value.registrationId ==> !p(t.rows[k])
    ensures r.None? <==> forall k :: k in t.rows ==> !p(t.rows[k])
  {
    match Rows.FindFirst(t.rows, p, 1, t.next)
    case Some(k) => Some(t.rows[k])
    case None => None
  }

  function FindByEmail(t: Table, email: string): (r: Option<UserRegistration>)
    requires t.Valid()
    ensures r.Some? ==> (r.value.email == email &&
      r.value.registrationId in t.rows && t.rows[r.value.registrationId] == r.value)
    ensures r.None? <==> forall k :: k in t.rows ==> t.rows[k].email != email
  {
    FindWhere(t, (g: UserRegistration) => g.email == email)
  }

  function FindByUsername(t: Table, username: string): (r: Option<UserRegistration>)
    requires t.Valid()
    ensures r.Some? ==> (r.value.username == username &&
      r.value.registrationId in t.rows && t.rows[r.value.registrationId] == r.value)
    ensures r.None? <==> forall k :: k in t.rows ==> t.rows[k].username != username
  {
    FindWhere(t, (g: UserRegistration) => g.username == username)
  }

  function FindByHash(t: Table, registrationHash: string): (r: Option<UserRegistration>)
    requires t.Valid()
    ensures r.Some? ==> (r.value.registrationHash == registrationHash &&
      r.value.registrationId in t.rows && t.rows[r.value.registrationId] == r.value)
    ensures r.None? <==> forall k :: k in t.rows ==> t.rows[k].registrationHash != registrationHash
  {
    FindWhere(t, (g: UserRegistration) => g.registrationHash == registrationHash)
  }

  /** `DELETE FROM user_registrations WHERE registration_id = $1`. */
  function Delete(t: Table, registration: UserRegistration): (r: Table)
    requires t.Valid()
    ensures r.Valid() && r.next == t.next && r.rows.Keys == t.rows.Keys - {registration.registrationId}
    ensures forall k :: k in r.rows ==> r.rows[k] == t.rows[k]
  {
    t.(rows := t.rows - {registration.registrationId})
  }

  /** The token `Create` hands out finds the new registration, when no older row holds that token. */
  lemma {:induction false} CreateThenFindByHash(t: Table, form: UserRegistrationForm, hash: string -> string, draws: seq<int>)
    requires t.Valid()
    requires |draws| == Text.TOKEN_LENGTH && Text.ValidDraws(draws)
    requires FindByHash(t, Text.Token(draws)).None?
    ensures var (t', view) := Create(t, form, hash, draws);
      FindByHash(t', view.registrationHash) ==
        Some(UserRegistration(t.next, form.username, form.email, hash(form.password), view.registrationHash))
  {
    var (t', view) := Create(t, form, hash, draws);
    var found := FindByHash(t', view.registrationHash);
    assert t'.rows[t.next].registrationHash == view.registrationHash;
    assert found.Some?;
  }

  /** Once the confirmed registration is deleted its token no longer resolves, if it was the only holder. */
  lemma DeleteThenFindByHash(t: Table, registration: UserRegistration)
    requires t.Valid() && registration.registrationId in t.rows
    requires forall k :: k in t.rows && t.rows[k].registrationHash == registration.registrationHash ==>
      k == registration.registrationId
    ensures FindByHash(Delete(t, registration), registration.registrationHash).None?
  {
  }
}
