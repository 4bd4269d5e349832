// The password reset handlers under src/password_reset/api_handlers: request
// a reset, confirm the email address, set the new password. None of them
// reads the session cookie.
module ResetHandlers {
  import opened Wrappers
  import Text
  import Users
  import Resets
  import opened Forum

  /**
   * `POST /{username}`: records a reset for a user who is not banned. The
   * username is looked up as typed, without lowercasing; the token is not
   * part of the reply. `draws` are the random letters of the token.
   */
  method CreateReset(f: Forum, username: string, draws: seq<int>, txFails: bool) returns (resp: Response)
    requires f.Valid()
    requires |draws| == Text.TOKEN_LENGTH && Text.ValidDraws(draws)
    modifies f
    ensures f.Valid() && f.cookie == old(f.cookie)
    ensures var user := Users.FindByUsernameSensitive(old(f.db).users, username);
      resp == (
        if user.None? then BadRequest(UnknownUser)
        else if user.value.isBanned then BadRequest(UserBanned)
        else if txFails then InternalError(DbFailure)
        else Ok(Done)) &&
      f.db == if resp.Ok? then old(f.db).(resets := Resets.CreateReset(old(f.db).resets, user.value.userId, draws).0) else old(f.db)
  {
    var user := Users.FindByUsernameSensitive(f.db.users, username);
    if user.None? {
      return BadRequest(UnknownUser);
    }
    if user.value.isBanned {
      return BadRequest(UserBanned);
    }
    if txFails {
      return InternalError(DbFailure);
    }
    var (resets, _) := Resets.CreateReset(f.db.resets, user.value.userId, draws);
    f.db := f.db.(resets := resets);
    resp := Ok(Done);
  }

  /** `GET /verify/{reset_hash}`: marks every reset of the hash's user as verified. */
  method VerifyReset(f: Forum, resetHash: string, txFails: bool) returns (resp: Response)
    requires f.Valid()
    modifies f
    ensures f.Valid() && f.cookie == old(f.cookie)
    ensures var reset := Resets.FindResetByHash(old(f.db).resets, resetHash);
      resp == (
        if reset.None? then BadRequest(ResetNotFound)
        else if reset.value.verifiedEmail then BadRequest(ResetAlreadyVerified)
        else if txFails then InternalError(DbFailure)
        else Ok(Done)) &&
      f.db == if resp.Ok? then old(f.db).(resets := Resets.VerifyReset(old(f.db).resets, reset.value.userId)) else old(f.db)
  {
    var reset := Resets.FindResetByHash(f.db.resets, resetHash);
    if reset.None? {
      return BadRequest(ResetNotFound);
    }
    if reset.value.verifiedEmail {
      return BadRequest(ResetAlreadyVerified);
    }
    if txFails {
      return InternalError(DbFailure);
    }
    f.db := f.db.(resets := Resets.VerifyReset(f.db.resets, reset.value.userId));
    resp := Ok(Done);
  }

  /**
   * `POST /update/{reset_hash}`: with a verified reset, stores the bcrypt
   * hash of the new password and deletes every reset of that user, in one
   * transaction.
   */
  method ChangePassword(f: Forum, resetHash: string, newPassword: string, confirmNewPassword: string,
                        txFails: bool) returns (resp: Response)
    requires f.Valid()
    modifies f
    ensures f.Valid() && f.cookie == old(f.cookie)
    ensures var reset := Resets.FindResetByHash(old(f.db).resets, resetHash);
      resp == (
        if newPassword != confirmNewPassword then BadRequest(PasswordMismatch)
        else if reset.None? then BadRequest(ResetNotFound)
        else if !reset.value.verifiedEmail then BadRequest(ResetNotVerified)
        else if txFails then InternalError(DbFailure)
        else Ok(Done)) &&
      f.db == if resp.Ok? then
        old(f.db).(users := Users.UpdatePassword(old(f.db).users, reset.value.userId, f.prims.hash, newPassword),
                   resets := Resets.Delete(old(f.db).resets, reset.value.userId))
      else old(f.db)
  {
    if newPassword != confirmNewPassword {
      return BadRequest(PasswordMismatch);
    }
    var reset := Resets.FindResetByHash(f.db.resets, resetHash);
    if reset.None? {
      return BadRequest(ResetNotFound);
    }
    if !reset.value.verifiedEmail {
      return BadRequest(ResetNotVerified);
    }
    if txFails {
      return InternalError(DbFailure);
    }
    f.db := f.db.(users := Users.UpdatePassword(f.db.users, reset.value.userId, f.prims.hash, newPassword),
                  resets := Resets.Delete(f.db.resets, reset.value.userId));
    resp := Ok(Done);
  }

  /**
   * The whole reset flow on the resets table: a new token resolves to an
   * unverified reset, verifying it sets the flag on that same reset, and once
   * the password is changed the token resolves to nothing, so a link works once.
   */
  lemma {:induction false} ResetFlowIsSingleUse(t: Resets.Table, userId: int, draws: seq<int>)
    requires |draws| == Text.TOKEN_LENGTH && Text.ValidDraws(draws)
    requires Resets.FindResetByHash(t, Text.Token(draws)).None?
    ensures var (created, resetHash) := Resets.CreateReset(t, userId, draws);
      var verified := Resets.VerifyReset(created, userId);
      Resets.FindResetByHash(created, resetHash) == Some(Resets.PasswordReset(resetHash, userId, false)) &&
      Resets.FindResetByHash(verified, resetHash) == Some(Resets.PasswordReset(resetHash, userId, true)) &&
      Resets.FindResetByHash(Resets.Delete(verified, userId), resetHash).None?
  {
    var (created, resetHash) := Resets.CreateReset(t, userId, draws);
    Resets.CreateThenFind(t, userId, draws);
    Resets.VerifyThenFind(created, resetHash);
    var verified := Resets.VerifyReset(created, userId);
    assert forall i :: 0 <= i < |verified.rows| && verified.rows[i].resetHash == resetHash ==>
      verified.rows[i].userId == userId;
    Resets.DeleteRetiresHashes(verified, userId, resetHash);
  }
}
