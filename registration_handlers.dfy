// The sign-up handlers under src/user_registration/api_handlers. Neither
// reads or writes the session cookie.
module RegistrationHandlers {
  import opened Wrappers
  import Text
  import Users
  import Registrations
  import Store
  import opened Forum

  /** `register`'s username rule, checked on the name as typed: alphanumeric, at most 15 bytes. */
  predicate UsernameAllowed(f: Forum, username: string)
    reads f
  {
    Text.AllAlphanumeric(username, f.prims.isAlphanumeric) && Text.ByteLen(username) <= 15
  }

  /** The form `register` stores: username and email lowercased. */
  function Lowered(f: Forum, form: Registrations.UserRegistrationForm): (r: Registrations.UserRegistrationForm)
    reads f
    ensures r.username == f.prims.lower(form.username) && r.email == f.prims.lower(form.email)
    ensures r.password == form.password && r.confirmPassword == form.confirmPassword
  {
    form.(username := f.prims.lower(form.username), email := f.prims.lower(form.email))
  }

  /**
   * What `register` answers for `form`, in the order it checks: matching
   * passwords, the username rule, then the username and the email against
   * both the users and the pending registrations.
   */
  function RegisterCheck(f: Forum, form: Registrations.UserRegistrationForm): (r: Option<Response>)
    reads f
    requires f.Valid()
    ensures r.None? <==>
      form.password == form.confirmPassword && UsernameAllowed(f, form.username) &&
      Users.FindByUsername(f.db.users, f.prims.lower(form.username)).None? &&
      Registrations.FindByUsername(f.db.registrations, f.prims.lower(form.username)).None? &&
      Users.FindByEmail(f.db.users, f.prims.lower(form.email)).None? &&
      Registrations.FindByEmail(f.db.registrations, f.prims.lower(form.email)).None?
    ensures r.Some? && form.password != form.confirmPassword ==> r.value == InternalError(PasswordMismatch)
    ensures r.Some? && form.password == form.confirmPassword && !UsernameAllowed(f, form.username) ==>
      r.value == NotAcceptable(BadUsername)
  {
    var lowered := Lowered(f, form);
    if form.password != form.confirmPassword then Some(InternalError(PasswordMismatch))
    else if !UsernameAllowed(f, form.username) then Some(NotAcceptable(BadUsername))
    else if Users.FindByUsername(f.db.users, lowered.username).Some? then Some(InternalError(UsernameTaken))
    else if Registrations.FindByUsername(f.db.registrations, lowered.username).Some? then Some(InternalError(UsernameRegistered))
    else if Users.FindByEmail(f.db.users, lowered.email).Some? then Some(InternalError(EmailTaken))
    else if Registrations.FindByEmail(f.db.registrations, lowered.email).Some? then Some(InternalError(EmailRegistered))
    else None
  }

  /**
   * `POST /register`: stores a pending registration with the bcrypt hash of
   * the password and a fresh token, and answers with the email and token.
   * `draws` are the random letters the token is made of.
   */
  method Register(f: Forum, form: Registrations.UserRegistrationForm, draws: seq<int>, txFails: bool)
    returns (resp: Response)
    requires f.Valid()
    requires |draws| == Text.TOKEN_LENGTH && Text.ValidDraws(draws)
    modifies f
    ensures f.Valid() && f.cookie == old(f.cookie)
    ensures old(RegisterCheck(f, form)).Some? ==> resp == old(RegisterCheck(f, form)).value
    ensures old(RegisterCheck(f, form)).None? ==>
      var (regs, view) := Registrations.Create(old(f.db).registrations, Lowered(f, form), f.prims.hash, draws);
      resp == (if txFails then InternalError(DbFailure) else Ok(Registered(view))) &&
      (resp.Ok? ==> f.db == old(f.db).(registrations := regs))
    ensures !resp.Ok? ==> f.db == old(f.db)
  {
    var check := RegisterCheck(f, form);
    if check.Some? {
      return check.value;
    }
    if txFails {
      return InternalError(DbFailure);
    }
    var (regs, view) := Registrations.Create(f.db.registrations, Lowered(f, form), f.prims.hash, draws);
    f.db := f.db.(registrations := regs);
    resp := Ok(Registered(view));
  }

  /** The database after a registration is confirmed: the user row exists and the registration is gone. */
  function Confirmed(db: Store.Db, registration: Registrations.UserRegistration): (r: Store.Db)
    requires db.Valid()
    ensures r.Valid()
    ensures r.users == Users.Create(db.users, registration.email, registration.username, registration.passwordHash)
    ensures r.registrations == Registrations.Delete(db.registrations, registration)
    ensures r.(users := db.users, registrations := db.registrations) == db
  {
    db.(users := Users.Create(db.users, registration.email, registration.username, registration.passwordHash),
        registrations := Registrations.Delete(db.registrations, registration))
  }

  /** `GET /confirmregistration/{registration_hash}`: turns the pending registration into a user. */
  method ConfirmRegistration(f: Forum, registrationHash: string, txFails: bool) returns (resp: Response)
    requires f.Valid()
    modifies f
    ensures f.Valid() && f.cookie == old(f.cookie)
    ensures var found := Registrations.FindByHash(old(f.db).registrations, registrationHash);
      resp == (
        if found.None? then InternalError(RegistrationNotFound)
        else if txFails then InternalError(DbFailure)
        else Ok(Done)) &&
      f.db == if resp.Ok? then Confirmed(old(f.db), found.value) else old(f.db)
  {
    var found := Registrations.FindByHash(f.db.registrations, registrationHash);
    if found.None? {
      return InternalError(RegistrationNotFound);
    }
    if txFails {
      return InternalError(DbFailure);
    }
    f.db := Confirmed(f.db, found.value);
    resp := Ok(Done);
  }

  /**
   * Signing up and then following the link: the token `register` hands out
   * confirms exactly that sign-up, the new user is found by its username with
   * the hashed password and default flags, and the token is spent.
   */
  lemma {:induction false} RegisterThenConfirm(db: Store.Db, form: Registrations.UserRegistrationForm,
                                               hash: string -> string, draws: seq<int>)
    requires db.Valid()
    requires |draws| == Text.TOKEN_LENGTH && Text.ValidDraws(draws)
    requires Registrations.FindByHash(db.registrations, Text.Token(draws)).None?
    requires Users.FindByUsernameSensitive(db.users, form.username).None?
    ensures var (regs, view) := Registrations.Create(db.registrations, form, hash, draws);
      var found := Registrations.FindByHash(regs, view.registrationHash);
      found.Some? &&
      var after := Confirmed(db.(registrations := regs), found.value);
      Users.FindByUsernameSensitive(after.users, form.username) ==
        Some(Users.User(db.users.next, form.email, form.username, hash(form.password), None, false, false, false)) &&
      Registrations.FindByHash(after.registrations, view.registrationHash).None?
  {
    var (regs, view) := Registrations.Create(db.registrations, form, hash, draws);
    Registrations.CreateThenFindByHash(db.registrations, form, hash, draws);
    var found := Registrations.FindByHash(regs, view.registrationHash);
    var row := found.value;
    assert row.registrationId == db.registrations.next;
    assert forall k :: k in regs.rows && regs.rows[k].registrationHash == row.registrationHash ==>
      k == row.registrationId;
    Registrations.DeleteThenFindByHash(regs, row);
    var after := Confirmed(db.(registrations := regs), row);
    var users := after.users;
    var u := Users.FindByUsernameSensitive(users, form.username);
    assert users.rows[db.users.next].username == form.username;
    assert u.Some?;
  }
}
