// The `guilds` table (src/guild/model.rs), keyed by `guild_tag`.
module Guilds {
  import opened Wrappers

  datatype Guild = Guild(
    guildTag: string,
    guildName: string,
    guildDescription: Option<string>,
    avatarUrl: Option<string>,
    bannerUrl: Option<string>,
    isBanned: bool)

  datatype Table = Table(rows: map<string, Guild>)
  {
    predicate Valid()
    {
      forall k :: k in rows ==> rows[k].guildTag == k
    }
  }

  /** `r` differs from `t` at most in the row `tag`, and holds the same tags. */
  predicate OnlyRowChanged(t: Table, r: Table, tag: string)
  {
    r.rows.Keys == t.rows.Keys && forall k :: k in t.rows && k != tag ==> r.rows[k] == t.rows[k]
  }

  /**
   * `INSERT INTO guilds (guild_tag, guild_name)`; the other columns take
   * their defaults (NULL, not banned). A tag already present violates the
   * key and fails (`None`).
   */
  function Create(t: Table, tag: string, name: string): (r: Option<Table>)
    requires t.Valid()
    ensures r.None? <==> tag in t.rows
    ensures r.Some? ==> r.value.Valid() && r.value.rows.Keys == t.rows.Keys + {tag}
    ensures r.Some? ==> forall k :: k in t.rows ==> r.value.rows[k] == t.rows[k]
    ensures r.Some? ==> r.value.rows[tag] == Guild(tag, name, None, None, None, false)
  {
    if tag in t.rows then None else Some(Table(t.rows[tag := Guild(tag, name, None, None, None, false)]))
  }

  /** `WHERE guild_tag = $1`. */
  function FindByGuildTag(t: Table, tag: string): (r: Option<Guild>)
    requires t.Valid()
    ensures r.Some? <==> tag in t.rows
    ensures r.Some? ==> r.value == t.rows[tag] && r.value.guildTag == tag
  {
    if tag in t.rows then Some(t.rows[tag]) else None
  }

  /** `UPDATE guilds SET <column> WHERE guild_tag = $1`, the row's new value given by `f`. */
  function UpdateRow(t: Table, tag: string, f: Guild -> Guild): (r: Table)
    requires t.Valid()
    requires forall g: Guild :: f(g).guildTag == g.guildTag
    ensures r.Valid() && OnlyRowChanged(t, r, tag)
    ensures tag in t.rows ==> r.rows[tag] == f(t.rows[tag])
  {
    if tag in t.rows then Table(t.rows[tag := f(t.rows[tag])]) else t
  }

  function UpdateGuildName(t: Table, tag: string, name: string): (r: Table)
    requires t.Valid()
    ensures r.Valid() && OnlyRowChanged(t, r, tag)
    ensures tag in t.rows ==> r.rows[tag] == t.rows[tag].(guildName := name)
  {
    UpdateRow(t, tag, (g: Guild) => g.(guildName := name))
  }

  /** `Some(d)` stores `d`; `None` runs the second statement, `SET guild_description = NULL`. */
  function UpdateGuildDescription(t: Table, tag: string, description: Option<string>): (r: Table)
    requires t.Valid()
    ensures r.Valid() && OnlyRowChanged(t, r, tag)
    ensures tag in t.rows ==> r.rows[tag] == t.rows[tag].(guildDescription := description)
  {
    match description
    case Some(d) => UpdateRow(t, tag, (g: Guild) => g.(guildDescription := Some(d)))
    case None => UpdateRow(t, tag, (g: Guild) => g.(guildDescription := None))
  }

  function UpdateGuildAvatar(t: Table, tag: string, avatarUrl: Option<string>): (r: Table)
    requires t.Valid()
    ensures r.Valid() && OnlyRowChanged(t, r, tag)
    ensures tag in t.rows ==> r.rows[tag] == t.rows[tag].(avatarUrl := avatarUrl)
  {
    match avatarUrl
    case Some(a) => UpdateRow(t, tag, (g: Guild) => g.(avatarUrl := Some(a)))
    case None => UpdateRow(t, tag, (g: Guild) => g.(avatarUrl := None))
  }

  function UpdateGuildBanner(t: Table, tag: string, bannerUrl: Option<string>): (r: Table)
    requires t.Valid()
    ensures r.Valid() && OnlyRowChanged(t, r, tag)
    ensures tag in t.rows ==> r.rows[tag] == t.rows[tag].(bannerUrl := bannerUrl)
  {
    match bannerUrl
    case Some(b) => UpdateRow(t, tag, (g: Guild) => g.(bannerUrl := Some(b)))
    case None => UpdateRow(t, tag, (g: Guild) => g.(bannerUrl := None))
  }

  function UpdateGuildBanStatus(t: Table, tag: string, isBanned: bool): (r: Table)
    requires t.Valid()
    ensures r.Valid() && OnlyRowChanged(t, r, tag)
    ensures tag in t.rows ==> r.rows[tag] == t.rows[tag].(isBanned := isBanned)
  {
    UpdateRow(t, tag, (g: Guild) => g.(isBanned := isBanned))
  }

  /** `DELETE FROM guilds WHERE guild_tag = $1`; a missing tag deletes nothing. */
  function Delete(t: Table, tag: string): (r: Table)
    requires t.Valid()
    ensures r.Valid() && r.rows.Keys == t.rows.Keys - {tag}
    ensures forall k :: k in r.rows ==> r.rows[k] == t.rows[k]
  {
    Table(t.rows - {tag})
  }
}
