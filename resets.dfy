// The `password_resets` table (src/password_reset/model.rs). It has no
// id column, so the rows are kept in insertion order.
module Resets {
  import opened Wrappers
  import Text
  import Rows

  datatype PasswordReset = PasswordReset(resetHash: string, userId: int, verifiedEmail: bool)

  datatype Table = Table(rows: seq<PasswordReset>)

  /** The rows with the given reset hash. */
  function HasHash(resetHash: string): PasswordReset -> bool
  {
    (p: PasswordReset) => p.resetHash == resetHash
  }

  /**
   * `create_reset`: a 25-letter token drawn from `CHARSET`, inserted as
   * `(reset_hash, user_id)` with `verified_email` at its false default,
   * and returned as the hash for the reset link.
   */
  function CreateReset(t: Table, userId: int, draws: seq<int>): (r: (Table, string))
    requires |draws| == Text.TOKEN_LENGTH && Text.ValidDraws(draws)
    ensures |r.1| == Text.TOKEN_LENGTH && forall i :: 0 <= i < |r.1| ==> r.1[i] in Text.CHARSET
    ensures r.0.rows == t.rows + [PasswordReset(r.1, userId, false)]
  {
    var resetHash := Text.Token(draws);
    (Table(t.rows + [PasswordReset(resetHash, userId, false)]), resetHash)
  }

  /** `DELETE FROM password_resets WHERE user_id = $1`: every reset of the user, and only those. */
  function Delete(t: Table, userId: int): (r: Table)
    ensures forall i :: 0 <= i < |r.rows| ==> r.rows[i] in t.rows && r.rows[i].userId != userId
    ensures forall i :: 0 <= i < |t.rows| && t.rows[i].userId != userId ==> t.rows[i] in r.rows
  {
    Table(Rows.Filter(t.rows, (p: PasswordReset) => p.userId != userId))
  }

  /** `WHERE reset_hash = $1`: the first row with that hash. */
  function FindResetByHash(t: Table, resetHash: string): (r: Option<PasswordReset>)
    ensures r.Some? ==> r.value in t.rows && r.value.resetHash == resetHash
    ensures r.None? <==> forall i :: 0 <= i < |t.rows| ==> t.rows[i].resetHash != resetHash
  {
    Rows.FirstWhere(t.rows, HasHash(resetHash))
  }

  /** `UPDATE password_resets SET verified_email = true WHERE user_id = $1`: every reset of the user. */
  function VerifyReset(t: Table, userId: int): (r: Table)
    ensures |r.rows| == |t.rows|
    ensures forall i :: 0 <= i < |t.rows| ==>
      r.rows[i].resetHash == t.rows[i].resetHash && r.rows[i].userId == t.rows[i].userId &&
      r.rows[i].verifiedEmail == (t.rows[i].verifiedEmail || t.rows[i].userId == userId)
  {
    Table(seq(|t.rows|, i requires 0 <= i < |t.rows| =>
      if t.rows[i].userId == userId then t.rows[i].(verifiedEmail := true) else t.rows[i]))
  }

  /**
   * Verifying the user a hash belongs to marks that very reset as verified:
   * the lookup by hash afterwards finds the same row with the flag set.
   */
  lemma {:induction false} VerifyThenFind(t: Table, resetHash: string)
    requires FindResetByHash(t, resetHash).Some?
    ensures var found := FindResetByHash(t, resetHash).value;
      FindResetByHash(VerifyReset(t, found.userId), resetHash) == Some(found.(verifiedEmail := true))
  {
    var found := FindResetByHash(t, resetHash).value;
    var r := VerifyReset(t, found.userId);
    Rows.IndexWhereAgrees(t.rows, r.rows, HasHash(resetHash));
  }

  /**
   * A reset is single use: once the user's resets are deleted, a hash
   * lookup never again yields a reset of that user, and a hash that only
   * that user held no longer resolves at all.
   */
  lemma DeleteRetiresHashes(t: Table, userId: int, resetHash: string)
    ensures var found := FindResetByHash(Delete(t, userId), resetHash);
      found.Some? ==> found.value.userId != userId
    ensures (forall i :: 0 <= i < |t.rows| && t.rows[i].resetHash == resetHash ==> t.rows[i].userId == userId) ==>
      FindResetByHash(Delete(t, userId), resetHash).None?
  {
    var d := Delete(t, userId);
    var found := FindResetByHash(d, resetHash);
    if found.Some? {
      var i :| 0 <= i < |d.rows| && d.rows[i] == found.value;
    }
  }

  /** A freshly created reset is found by its hash, unverified, when no older row has that hash. */
  lemma CreateThenFind(t: Table, userId: int, draws: seq<int>)
    requires |draws| == Text.TOKEN_LENGTH && Text.ValidDraws(draws)
    requires FindResetByHash(t, CreateReset(t, userId, draws).1).None?
    ensures var (t', resetHash) := CreateReset(t, userId, draws);
      FindResetByHash(t', resetHash) == Some(PasswordReset(resetHash, userId, false))
  {
    var (t', resetHash) := CreateReset(t, userId, draws);
    assert t'.rows[|t.rows|] == PasswordReset(resetHash, userId, false);
  }
}
