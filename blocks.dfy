// The `blocks` table (src/block/model.rs). It has no key column, so the
// rows are kept in insertion order.
module Blocks {
  import opened Wrappers
  import Rows

  datatype Block = Block(userId: int, blockedUserUsername: string)

  datatype Table = Table(rows: seq<Block>)

  /** `INSERT INTO blocks (user_id, blocked_user_username)`. */
  function Create(t: Table, userId: int, blockedUserUsername: string): (r: Table)
    ensures r.rows == t.rows + [Block(userId, blockedUserUsername)]
  {
    Table(t.rows + [Block(userId, blockedUserUsername)])
  }

  /** `WHERE user_id = $1`: every block row of the user, and no other row. */
  function FindAllByUser(t: Table, userId: int): (r: seq<Block>)
    ensures forall i :: 0 <= i < |r| ==> r[i] in t.rows && r[i].userId == userId
    ensures forall i :: 0 <= i < |t.rows| && t.rows[i].userId == userId ==> t.rows[i] in r
  {
    Rows.Filter(t.rows, (b: Block) => b.userId == userId)
  }

  /** `WHERE user_id = $1 AND blocked_user_username = $2`. */
  function FindByUserAndBlockedUserUsername(t: Table, userId: int, blockedUserUsername: string): (r: Option<Block>)
    ensures r.Some? <==> Block(userId, blockedUserUsername) in t.rows
    ensures r.Some? ==> r.value == Block(userId, blockedUserUsername)
  {
    var found := Rows.FirstWhere(t.rows, (b: Block) => b == Block(userId, blockedUserUsername));
    assert Block(userId, blockedUserUsername) in t.rows ==> found.Some?;
    found
  }

  /** `DELETE ... WHERE user_id = $1 AND blocked_user_username = $2`: every copy of that pair, nothing else. */
  function Delete(t: Table, userId: int, blockedUserUsername: string): (r: Table)
    ensures Block(userId, blockedUserUsername) !in r.rows
    ensures forall b :: b in r.rows <==> b in t.rows && b != Block(userId, blockedUserUsername)
  {
    var r := Table(Rows.Filter(t.rows, (b: Block) => b != Block(userId, blockedUserUsername)));
    assert forall b :: b in t.rows && b != Block(userId, blockedUserUsername) ==> b in r.rows by {
      forall b | b in t.rows && b != Block(userId, blockedUserUsername) ensures b in r.rows {
        var i :| 0 <= i < |t.rows| && t.rows[i] == b;
      }
    }
    r
  }

  /** Deleting a pair after creating it leaves exactly the pairs that were there, minus that pair. */
  lemma CreateThenDelete(t: Table, userId: int, name: string)
    ensures forall b :: b in Delete(Create(t, userId, name), userId, name).rows <==> b in t.rows && b != Block(userId, name)
  {
  }
}
