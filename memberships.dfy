// The `guild_memberships` table (src/guild_membership/model.rs), keyed by
// the serial `membership_id`.
module Memberships {
  import opened Wrappers
  import Rows
  import Paging

  datatype Membership = Membership(
    membershipId: int,
    userId: int,
    guildTag: string,
    isAdmin: bool,
    isModerator: bool,
    isBanned: bool)

  datatype Table = Table(rows: map<int, Membership>, next: int)
  {
    predicate Valid()
    {
      1 <= next && Rows.KeysBelow(rows, next) && forall k :: k in rows ==> rows[k].membershipId == k
    }
  }

  /** `r` differs from `t` at most in the row `id`; the ids and the serial are the same. */
  predicate OnlyRowChanged(t: Table, r: Table, id: int)
  {
    r.next == t.next && r.rows.Keys == t.rows.Keys &&
    forall k :: k in t.rows && k != id ==> r.rows[k] == t.rows[k]
  }

  /** `r` is `t` with one more row, `m`, under the next serial id. */
  predicate AddedRow(t: Table, r: Table, m: Membership)
  {
    r.next == t.next + 1 && t.next !in t.rows && r.rows.Keys == t.rows.Keys + {t.next} &&
    r.rows[t.next] == m && forall k :: k in t.rows ==> r.rows[k] == t.rows[k]
  }

  function Insert(t: Table, userId: int, tag: string, isAdmin: bool): (r: Table)
    requires t.Valid()
    ensures r.Valid() && AddedRow(t, r, Membership(t.next, userId, tag, isAdmin, false, false))
  {
    Table(t.rows[t.next := Membership(t.next, userId, tag, isAdmin, false, false)], t.next + 1)
  }

  /** `INSERT INTO guild_memberships (user_id, guild_tag)`: every flag takes its false default. */
  function Create(t: Table, userId: int, tag: string): (r: Table)
    requires t.Valid()
    ensures r.Valid() && AddedRow(t, r, Membership(t.next, userId, tag, false, false, false))
  {
    Insert(t, userId, tag, false)
  }

  /** `INSERT INTO guild_memberships (user_id, guild_tag, is_admin)` with `is_admin = true`. */
  function CreateAsAdmin(t: Table, userId: int, tag: string): (r: Table)
    requires t.Valid()
    ensures r.Valid() && AddedRow(t, r, Membership(t.next, userId, tag, true, false, false))
  {
    Insert(t, userId, tag, true)
  }

  /** `WHERE membership_id = $1`. */
  function FindByMembershipId(t: Table, id: int): (r: Option<Membership>)
    ensures r.Some? <==> id in t.rows
    ensures r.Some? ==> r.value == t.rows[id]
  {
    if id in t.rows then Some(t.rows[id]) else None
  }

  /** `WHERE user_id = $1 AND guild_tag = $2`: the matching row with the lowest id. */
  function FindByUserAndGuildTag(t: Table, userId: int, tag: string): (r: Option<Membership>)
    requires t.Valid()
    ensures r.Some? ==> r.value.userId == userId && r.value.guildTag == tag
    ensures r.Some? ==> r.value.membershipId in t.rows && t.rows[r.value.membershipId] == r.value
    ensures r.None? <==> forall k :: k in t.rows ==> !(t.rows[k].userId == userId && t.rows[k].guildTag == tag)
  {
    match Rows.FindFirst(t.rows, (m: Membership) => m.userId == userId && m.guildTag == tag, 1, t.next)
    case Some(k) => Some(t.rows[k])
    case None => None
  }

  function OfUser(t: Table, userId: int): seq<Membership>
  {
    Rows.Where(t.rows, (m: Membership) => m.userId == userId, t.next)
  }

  /**
   * `find_all_by_user_id`: with `results_per_page == 0`, every membership
   * of the user ordered by `membership_id`; otherwise the numbered page.
   * `None` is the database's error for a negative limit or offset.
   */
  function FindAllByUserId(t: Table, userId: int, perPage: int, page: int): (r: Option<seq<Membership>>)
    requires t.Valid()
    ensures perPage == 0 ==> r == Some(OfUser(t, userId))
    ensures perPage != 0 ==> r == Paging.NumberedPage(OfUser(t, userId), perPage, page)
  {
    if perPage == 0 then Some(OfUser(t, userId))
    else Paging.NumberedPage(OfUser(t, userId), perPage, page)
  }

  /** The unpaged listing holds exactly the user's memberships, in ascending id order. */
  lemma OfUserExact(t: Table, userId: int, m: Membership)
    requires t.Valid()
    ensures m in OfUser(t, userId) <==> m.membershipId in t.rows && t.rows[m.membershipId] == m && m.userId == userId
    ensures forall i, j :: 0 <= i < j < |OfUser(t, userId)| ==>
      OfUser(t, userId)[i].membershipId < OfUser(t, userId)[j].membershipId
  {
    Rows.WhereExact(t.rows, (m: Membership) => m.userId == userId, t.next, m);
  }

  /** `WHERE guild_tag = $1 ORDER BY membership_id`, unpaged. */
  function OfTag(t: Table, tag: string): seq<Membership>
  {
    Rows.Where(t.rows, (m: Membership) => m.guildTag == tag, t.next)
  }

  /**
   * `find_all_by_guild_tag`: the numbered page of the guild's memberships.
   * `None` is the database's error for a negative limit or offset.
   */
  function FindAllByGuildTag(t: Table, tag: string, perPage: int, page: int): (r: Option<seq<Membership>>)
    requires t.Valid()
    ensures r == Paging.NumberedPage(OfTag(t, tag), perPage, page)
    ensures r.Some? ==> forall i :: 0 <= i < |r.value| ==> r.value[i].guildTag == tag
  {
    Paging.NumberedPage(OfTag(t, tag), perPage, page)
  }

  /** The unpaged guild listing holds exactly the guild's memberships, in ascending id order. */
  lemma OfTagExact(t: Table, tag: string, m: Membership)
    requires t.Valid()
    ensures m in OfTag(t, tag) <==> m.membershipId in t.rows && t.rows[m.membershipId] == m && m.guildTag == tag
    ensures forall i, j :: 0 <= i < j < |OfTag(t, tag)| ==>
      OfTag(t, tag)[i].membershipId < OfTag(t, tag)[j].membershipId
  {
    Rows.WhereExact(t.rows, (m: Membership) => m.guildTag == tag, t.next, m);
  }

  /** `UPDATE guild_memberships SET <flag> WHERE membership_id = $1`, the new row given by `f`. */
  function UpdateRow(t: Table, id: int, f: Membership -> Membership): (r: Table)
    requires t.Valid()
    requires forall m: Membership :: f(m).membershipId == m.membershipId
    ensures r.Valid() && OnlyRowChanged(t, r, id)
    ensures id in t.rows ==> r.rows[id] == f(t.rows[id])
  {
    if id in t.rows then t.(rows := t.rows[id := f(t.rows[id])]) else t
  }

  function UpdateMembershipAdminStatus(t: Table, id: int, isAdmin: bool): (r: Table)
    requires t.Valid()
    ensures r.Valid() && OnlyRowChanged(t, r, id)
    ensures id in t.rows ==> r.rows[id] == t.rows[id].(isAdmin := isAdmin)
  {
    UpdateRow(t, id, (m: Membership) => m.(isAdmin := isAdmin))
  }

  function UpdateMembershipModStatus(t: Table, id: int, isModerator: bool): (r: Table)
    requires t.Valid()
    ensures r.Valid() && OnlyRowChanged(t, r, id)
    ensures id in t.rows ==> r.rows[id] == t.rows[id].(isModerator := isModerator)
  {
    UpdateRow(t, id, (m: Membership) => m.(isModerator := isModerator))
  }

  function UpdateMembershipBanStatus(t: Table, id: int, isBanned: bool): (r: Table)
    requires t.Valid()
    ensures r.Valid() && OnlyRowChanged(t, r, id)
    ensures id in t.rows ==> r.rows[id] == t.rows[id].(isBanned := isBanned)
  {
    UpdateRow(t, id, (m: Membership) => m.(isBanned := isBanned))
  }

  /** `DELETE FROM guild_memberships WHERE membership_id = $1`. */
  function Delete(t: Table, id: int): (r: Table)
    requires t.Valid()
    ensures r.Valid() && r.next == t.next && r.rows.Keys == t.rows.Keys - {id}
    ensures forall k :: k in r.rows ==> r.rows[k] == t.rows[k]
  {
    t.(rows := t.rows - {id})
  }

  /** A membership created by `Create` is what the (user, guild) lookup finds when none existed before. */
  lemma {:induction false} CreateThenFind(t: Table, userId: int, tag: string)
    requires t.Valid() && FindByUserAndGuildTag(t, userId, tag).None?
    ensures FindByUserAndGuildTag(Create(t, userId, tag), userId, tag)
         == Some(Membership(t.next, userId, tag, false, false, false))
  {
    var r := Create(t, userId, tag);
    var found := FindByUserAndGuildTag(r, userId, tag);
    assert r.rows[t.next].userId == userId && r.rows[t.next].guildTag == tag;
    assert found.Some?;
    assert found.value.membershipId == t.next;
  }

  /** After `Delete` of the (user, guild) row that the lookup found, when it was the only one, nothing is found. */
  lemma DeleteThenFind(t: Table, userId: int, tag: string)
    requires t.Valid() && FindByUserAndGuildTag(t, userId, tag).Some?
    requires forall k :: k in t.rows && t.rows[k].userId == userId && t.rows[k].guildTag == tag ==>
      k == FindByUserAndGuildTag(t, userId, tag).value.membershipId
    ensures FindByUserAndGuildTag(Delete(t, FindByUserAndGuildTag(t, userId, tag).value.membershipId), userId, tag).None?
  {
  }
}
