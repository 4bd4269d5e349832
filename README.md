# rust-linkagg-backend, modelled in Dafny

A model of a Reddit-style forum backend (actix-web + sqlx over PostgreSQL).
Users sign up, confirm the registration link and log in with a session
cookie. They join guilds (communities), post, comment, vote, block other
users and report content. Guild moderators and admins moderate their guild,
and site admins ban, verify, promote and delete users.

The heart of the system is `src/utils/session_validation.rs`:
`validate_session` resolves the `session_id` cookie to a user and removes the
cookie when it names no session. Six policies (`policy_user`, `policy_self`,
`policy_admin`, `policy_guild_admin`, `policy_guild_member`,
`policy_guild_moderator_or_admin`) decide whether that user may act. Each
HTTP handler is a guard chain: input checks, a policy, existence and
ownership checks, then one transaction.

The model is in four layers:

- **Policies** (`policy.dfy`, `store.dfy`): the cookie check and the six
  policies as pure decision functions over lookup outcomes
  (`Found | Missing | Failed`). Every outcome is exactly one of
  pass-with-user or reject-with-reason.
- **Tables** (`users.dfy`, `sessions.dfy`, `guilds.dfy`, `memberships.dfy`,
  `posts.dfy`, `comments.dfy`, `votes.dfy`, `blocks.dfy`,
  `registrations.dfy`, `resets.dfy`, `reports.dfy`): each table is a value,
  keyed the way its SQL `WHERE` keys it. Each `model.rs` query is a
  function stating which row it reads or which rows it changes, and that
  nothing else changes.
- **Handlers** (`*_handlers.dfy`): the class `Forum.Forum` holds the
  database (`db`) and the request cookie (`cookie`). Each handler is a
  method that changes them in place. Its postcondition gives the response
  for every guard, in the source's order. It also states the new database
  on success and the unchanged database on every other path.
- **Listings** (`views.dfy`, `view_handlers.dfy`): the annotation loops
  that set `is_blocked`, `is_upvoted`, `is_downvoted` and `is_member` on a
  fetched page. They are methods with loop invariants, proved against
  page-level specification functions. Lemmas then say what each flag means
  in terms of the block, vote and membership tables.

Outside inputs become parameters:

- Lowercasing, `char::is_alphanumeric` and bcrypt `hash`/`verify` are
  abstract functions in `Text.Primitives`.
- The UUID of a new session is a `token` parameter.
- The random letters of registration and reset tokens are a `draws`
  parameter.
- A failing insert, update, delete or commit is a `txFails` flag. When it
  is set the handler answers `InternalError` with the database unchanged,
  which models the rollback.

Page numbers are `i64`, and the paged finders compute the offset
`(page_number - 1) * results_per_page` in `i64`. The model takes a release
build's wrap-around (`Paging.Offset`). A page whose offset wraps below zero
is a database error. A page whose offset wraps to a valid value returns
those rows: with 20 per page, page 2^62 + 1 returns page 1.

## Model

| member | source | states |
|---|---|---|
| Policies.ValidateSession | src/utils/session_validation.rs:9-45 | no cookie: no user and the cookie is kept; a token with no session row: no user and the cookie is dropped; otherwise the bound user if the user lookup finds one (banned or not), a failed lookup giving no user |
| Policies.PolicyUser | src/utils/session_validation.rs:47-72 | exactly one of pass/reject; passes iff a user resolves and is not site-banned, handing over that user; banned gives "You are banned", anonymous gives not allowed |
| Policies.PolicySelf | src/utils/session_validation.rs:74-104 | passes iff the user resolves, is not banned and has exactly the given username; banned rejects with SiteBanned, every other failure with NotAllowed |
| Policies.PolicyAdmin | src/utils/session_validation.rs:106-125 | passes iff the resolved user is a site admin, with no ban check |
| Policies.GuildGate | src/utils/session_validation.rs:127-270 | the shared shape of the guild policies: exactly one outcome, and a pass hands over the resolved user |
| Policies.PolicyGuildAdmin | src/utils/session_validation.rs:127-172 | anonymous rejects; site-banned rejects first; an unbanned site admin passes; anyone else passes iff their membership is found and is_admin, whatever its is_banned |
| Policies.PolicyGuildMember | src/utils/session_validation.rs:174-221 | as above, but an ordinary user passes iff a membership is found and is not guild-banned; a guild-banned one gets GuildBanned, a missing or failed lookup NotAllowed |
| Policies.PolicyGuildModeratorOrAdmin | src/utils/session_validation.rs:223-270 | as the admin policy, with is_admin or is_moderator required and is_banned ignored |
| Policies.Decide | src/utils/session_validation.rs:47-270 | dispatches a request's policy; exactly one outcome, and a pass never admits a site-banned user except under the site-admin policy |
| Policies.SiteBanPrecedence | src/utils/session_validation.rs:135-145 | every policy but policy_admin rejects a site-banned user with SiteBanned, whatever the membership |
| Policies.BannedSiteAdminPassesAdminPolicy | src/utils/session_validation.rs:110-115 | a banned site admin passes policy_admin |
| Policies.SiteAdminOverride | src/utils/session_validation.rs:182-191 | an unbanned site admin passes every guild policy, and the membership lookup does not affect the result |
| Policies.LookupErrorIsMissingRow | src/utils/session_validation.rs:205-209 | a failed membership lookup and a missing row give the same decision |
| Policies.SitePoliciesIgnoreMemberships | src/utils/session_validation.rs:47-125 | the user, self and admin policies do not depend on memberships |
| Policies.GuildAdminIsModerator | src/utils/session_validation.rs:127-270 | whoever passes the guild-admin policy passes the moderator-or-admin policy with the same outcome |
| Policies.GuildBanIgnoredByRolePolicies | src/utils/session_validation.rs:149-151 | a guild-banned admin membership passes the admin and moderator policies but is rejected by the member policy |
| Policies.BanReachableOnlyBySiteAdmin | src/guild/api_handlers/ban_user.rs:24-47 | a caller who passes the moderator policy and holds a plain membership is a site admin |
| Store.SessionLookup | src/user_session/model.rs:44-63 | the session lookup the policies see finds exactly the rows of the sessions table |
| Store.UserLookup | src/user/model.rs:123-144 | the user lookup finds exactly the rows of the users table |
| Store.MembershipLookup | src/guild_membership/model.rs:175-200 | the membership lookup is find_by_user_and_guild_tag on the request's guild |
| Store.Validate | src/utils/session_validation.rs:9-45 | on the database: the cookie is dropped iff it names no session; a user results iff the session's user exists, and it is that row |
| Store.CookieAfter | src/utils/session_validation.rs:32-36 | the cookie is removed iff it was present and names no session, otherwise kept |
| Store.Verdict | src/utils/session_validation.rs:47-270 | a policy's outcome on the database: exactly one outcome, and a pass hands over the cookie's user |
| Store.Caller | src/utils/session_validation.rs:47-270 | the user a passing policy hands over is the cookie's user |
| Forum.Rejected | src/guild/api_handlers/create_guild.rs:112-114 | a rejecting policy's response is returned as it is: Forbidden carrying the policy's reason |
| Forum.Forum.Verdict | src/utils/session_validation.rs:47-270 | the request's outcome for a policy is exactly one of pass or reject |
| Forum.Forum.CookieAfter | src/utils/session_validation.rs:32-36 | validate_session only ever removes the cookie, never changes it |
| Forum.Forum.Validate | src/user/api_handlers/login.rs:14-19 | running validate_session yields the cookie's user, removes a stale cookie and leaves the database unchanged |
| Forum.Forum.Authorize | src/utils/session_validation.rs:9-45 | running a policy yields its outcome, removes a stale cookie and leaves the database unchanged |
| Sessions.Create | src/user_session/model.rs:20-43 | inserts one row binding the token to the user and returns a view of exactly that pair; a token already in use fails and changes nothing |
| Sessions.FindBySessionId | src/user_session/model.rs:44-63 | the row with that session id, or None |
| Sessions.FindSessionsByUserId | src/user_session/model.rs:64-84 | every session of the user and no other |
| Sessions.Delete | src/user_session/model.rs:85-96 | removes that session id only |
| Sessions.DeleteKeepsOtherSessions | src/user_session/model.rs:85-96 | after a delete the user's sessions are the old ones minus the deleted row |
| Users.SafeViewHidesPrivateColumns | src/user/model.rs:145-154 | the public view does not depend on id, email or password hash, and keeps the username and flags |
| Users.VerifyPassword | src/user/model.rs:56-59 | true iff bcrypt verifies; a verification error is false, not an error |
| Users.Create | src/user/model.rs:60-77 | adds one row under the next serial id with the given email, username and hash and the false default flags; other rows are unchanged |
| Users.FindById | src/user/model.rs:123-144 | the full row with that id, or None |
| Users.FindByUsernameSensitive | src/user/model.rs:78-103 | a full row with that exact username, or None iff no row has it |
| Users.FindByUsername | src/user/model.rs:104-122 | the public view of the same row the sensitive finder returns |
| Users.FindByEmail | src/user/model.rs:155-173 | the public view of a row with that email, or None iff no row has it |
| Users.UpdateUsername | src/user/model.rs:174-193 | changes only the username of that row |
| Users.UpdateEmail | src/user/model.rs:194-213 | changes only the email of that row |
| Users.UpdatePassword | src/user/model.rs:214-234 | stores hash(new password) in that row only |
| Users.UpdateAvatarUrl | src/user/model.rs:235-254 | sets that row's avatar to the given (non-NULL) URL and changes nothing else |
| Users.UpdateAdminStatus | src/user/model.rs:255-274 | changes only is_admin of that row |
| Users.UpdateVerifiedStatus | src/user/model.rs:275-294 | changes only is_verified of that row |
| Users.UpdateBannedStatus | src/user/model.rs:295-314 | changes only is_banned of that row |
| Users.Delete | src/user/model.rs:315-326 | removes that id only |
| Users.CreateThenFind | src/user/model.rs:60-144 | the new id finds exactly the stored row with its defaults; its username always finds a row, and finds the new one when the name was not taken |
| Guilds.Create | src/guild/model.rs:27-39 | adds the guild with that tag and name and NULL settings; an existing tag fails with no change |
| Guilds.FindByGuildTag | src/guild/model.rs:40-61 | the row with that tag, or None |
| Guilds.UpdateGuildName | src/guild/model.rs:94-115 | changes only that guild's name |
| Guilds.UpdateGuildDescription | src/guild/model.rs:137-172 | sets that guild's description to the value, NULL for None, and nothing else |
| Guilds.UpdateGuildAvatar | src/guild/model.rs:173-208 | the same Some/NULL rule on the avatar column |
| Guilds.UpdateGuildBanner | src/guild/model.rs:209-244 | the same Some/NULL rule on the banner column |
| Guilds.UpdateGuildBanStatus | src/guild/model.rs:245-264 | changes only that guild's ban flag |
| Guilds.Delete | src/guild/model.rs:265-276 | removes that tag only; a missing tag removes nothing |
| Memberships.Create | src/guild_membership/model.rs:22-37 | adds one membership for (user, tag) with all three flags false |
| Memberships.CreateAsAdmin | src/guild_membership/model.rs:38-55 | the same with is_admin true |
| Memberships.FindByMembershipId | src/guild_membership/model.rs:56-78 | the row with that id, or None |
| Memberships.FindByUserAndGuildTag | src/guild_membership/model.rs:175-200 | a row matching both user and tag, or None iff no row matches |
| Memberships.FindAllByUserId | src/guild_membership/model.rs:79-139 | with 0 per page every membership of the user; otherwise the page at offset (page-1)*size |
| Memberships.OfUserExact | src/guild_membership/model.rs:79-139 | the unpaged listing holds exactly the user's rows, in ascending id order |
| Memberships.FindAllByGuildTag | src/guild_membership/model.rs:140-174 | the numbered page of the guild's memberships in id order, each with that tag |
| Memberships.OfTagExact | src/guild_membership/model.rs:146-153 | the unpaged guild listing holds exactly the stored memberships with that tag, in ascending id order |
| Memberships.UpdateMembershipAdminStatus | src/guild_membership/model.rs:201-220 | changes only is_admin of that membership |
| Memberships.UpdateMembershipModStatus | src/guild_membership/model.rs:221-240 | changes only is_moderator of that membership |
| Memberships.UpdateMembershipBanStatus | src/guild_membership/model.rs:241-260 | changes only is_banned of that membership |
| Memberships.Delete | src/guild_membership/model.rs:261-275 | removes that membership id only |
| Memberships.CreateThenFind | src/guild/api_handlers/join_guild.rs:44-63 | after joining, the (user, tag) lookup finds the new plain membership |
| Memberships.DeleteThenFind | src/guild/api_handlers/leave_guild.rs:32-45 | after leaving, the (user, tag) lookup finds nothing |
| Posts.Create | src/post/model.rs:39-55 | adds one post under the next id with the form's tag, author, URLs, title and body, unlocked and unedited |
| Posts.FindByPostId | src/post/model.rs:56-78 | the row with that id, or None |
| Posts.Update | src/post/model.rs:153-170 | sets URLs, title, body and is_edited; keeps tag, author and lock |
| Posts.UpdateLock | src/post/model.rs:171-188 | changes only is_locked of that post |
| Posts.Delete | src/post/model.rs:189-200 | removes that post only |
| Posts.UpdateLockIdempotent | src/post/api_handlers/lock_post.rs:29-45 | locking twice equals locking once |
| Comments.Create | src/comment/model.rs:25-61 | adds one comment under the next id with the given post, author, optional parent and body, unedited |
| Comments.FindByCommentId | src/comment/model.rs:62-81 | the row with that id, or None |
| Comments.Update | src/comment/model.rs:150-168 | sets only body and is_edited of that comment |
| Comments.Delete | src/comment/model.rs:169-180 | removes that comment only |
| Votes.Create | src/post_vote/model.rs:13-26 | inserts (target, user, up); an existing pair fails |
| Votes.Update | src/post_vote/model.rs:27-41 | changes only up of the (target, user) row |
| Votes.FindByTargetAndUserId | src/post_vote/model.rs:91-111 | the (target, user) vote, or None |
| Votes.FindAllByTargetId | src/post_vote/model.rs:42-61 | exactly the votes on that target |
| Votes.Delete | src/post_vote/model.rs:112-128 | removes only the (target, user) row |
| Votes.Toggle | src/post_vote/api_handlers/vote.rs:46-147 | after a vote request the pair has a vote iff it did not already have one in that direction, and then in that direction; every other vote is unchanged |
| Votes.ToggleTwice | src/post_vote/api_handlers/vote.rs:44-147 | from no vote or a same-direction vote, voting twice restores the table |
| Votes.ToggleThenFind | src/post_vote/api_handlers/vote.rs:46-147 | afterwards the pair holds at most one vote, in the requested direction, and none iff it was a same-direction vote before |
| Votes.FindAllByUserId | src/post_vote/model.rs:62-90 | as written, page p starts at row p, not row (p-1)*size; it fails iff a bound is negative, and otherwise holds exactly min(size, rows - p) rows from row p on |
| Votes.FindAllByUserIdCorrected | src/post_vote/model.rs:62-90 | page p is the rows from the i64 offset (p-1)*size, exactly as many as remain up to size |
| Votes.RawOffsetSkipsAndRepeats | src/post_vote/model.rs:62-80 | with three votes and two per page, the as-written page 1 skips the first vote and pages 1 and 2 both hold the third |
| Votes.CorrectedPagesListEverything | src/post_vote/model.rs:62-80 | corrected, page 1 starts at the first vote, and pages 1..n list every vote the user has in the table, once and in order |
| Votes.RawOffsetNeverShowsFirstVote | src/post_vote/model.rs:62-80 | as written, no page numbered from 1 ever shows the user's first vote |
| Votes.CreateDeleteFind | src/comment_vote/model.rs:13-137 | a created vote is found; a deleted one is not |
| Blocks.Create | src/block/model.rs:12-28 | appends the pair (user, blocked username) |
| Blocks.FindAllByUser | src/block/model.rs:29-46 | every block row of the user and no other |
| Blocks.FindByUserAndBlockedUserUsername | src/block/model.rs:47-66 | the pair, iff it is in the table |
| Blocks.Delete | src/block/model.rs:67-83 | removes exactly the rows matching both fields |
| Blocks.CreateThenDelete | src/block/model.rs:12-83 | block then unblock leaves the other rows and not the pair |
| Registrations.Create | src/user_registration/model.rs:33-73 | adds one row under the next id with hash(password) and a 25-letter token from A-Z/a-z; returns the email and the token |
| Registrations.FindByEmail | src/user_registration/model.rs:74-93 | the stored row with that email, or None iff none |
| Registrations.FindByUsername | src/user_registration/model.rs:94-116 | the stored row with that username, or None iff none |
| Registrations.FindByHash | src/user_registration/model.rs:117-138 | a row with that token, the lowest id, or None iff none |
| Registrations.Delete | src/user_registration/model.rs:139-153 | removes that registration only |
| Registrations.CreateThenFindByHash | src/user_registration/model.rs:33-138 | the returned token finds the new registration |
| Registrations.DeleteThenFindByHash | src/user_registration/model.rs:117-153 | once deleted, its token finds nothing |
| Resets.CreateReset | src/password_reset/model.rs:20-42 | appends (token, user, unverified) with a 25-letter token, and returns that token |
| Resets.Delete | src/password_reset/model.rs:43-54 | removes every reset of the user, and only those |
| Resets.FindResetByHash | src/password_reset/model.rs:55-73 | a reset with that hash, or None iff none |
| Resets.VerifyReset | src/password_reset/model.rs:74-86 | sets verified_email on every reset of the user, and nothing else |
| Resets.VerifyThenFind | src/password_reset/api_handlers/verify_reset.rs:10-27 | after verifying, the hash finds the same reset with the flag set, so a second verify is refused |
| Resets.DeleteRetiresHashes | src/password_reset/api_handlers/change_password.rs:27-45 | after the delete no lookup yields a reset of that user, and a hash only that user held resolves to nothing |
| Resets.CreateThenFind | src/password_reset/model.rs:20-73 | the new token finds the new unverified reset |
| Reports.Create | src/report/model.rs:103-131 | comment id 0: a post report; else post id 0: a comment report; both non-zero: nothing inserted |
| Reports.CreateNamesOneTarget | src/report/model.rs:103-131 | an inserted report names exactly one target |
| Reports.FindByReportId | src/report/model.rs:84-102 | the row with that id, or None |
| Reports.FindAllByPostId | src/report/model.rs:53-83 | the numbered page of that post's reports in id order, each a stored row of that post |
| Reports.OfPostExact | src/report/model.rs:59-65 | the unpaged listing holds exactly the stored reports of that post, in ascending id order (the query has no ORDER BY, so the order is the model's choice) |
| Reports.UpdateAddressedStatus | src/report/model.rs:132-149 | changes only addressed of that report |
| Text.ByteLen | src/post/api_handlers/create_post.rs:26-31 | str::len, the UTF-8 byte length, between the character count and four times it |
| Text.ByteLenOfAscii | src/guild/api_handlers/create_guild.rs:17-26 | for ASCII text the byte length is the character count |
| Text.NoneIfEmpty | src/post/api_handlers/create_post.rs:41-58 | an empty field becomes NULL, anything else is kept |
| Text.Token | src/user_registration/model.rs:42-52 | one CHARSET letter per draw |
| Paging.Page | src/view/model.rs:115-125 | LIMIT/OFFSET: fails iff a bound is negative, else exactly the rows from the offset, as many as remain up to the limit |
| Paging.WrapI64 | src/view/model.rs:122 | an i64 result wrapped into range modulo 2^64, unchanged when already in range |
| Paging.Offset | src/view/model.rs:122 | `(page_number - 1) * results_per_page` in i64: the plain product whenever no step overflows |
| Paging.OverflowingPageIsFirstPage | src/view/model.rs:122 | with 20 per page, pages 2^62+1 and -2^62+1 wrap to offset 0 and return page 1 |
| Paging.NumberedPage | src/guild_membership/model.rs:117-122 | fails iff the limit or the i64 offset (p-1)*size is negative; else exactly the rows from that offset, as many as remain up to size |
| Paging.NumberedPageWithoutOverflow | src/guild_membership/model.rs:117-122 | when no step of the i64 offset overflows, a numbered page is the plain LIMIT/OFFSET page at (p-1)*size |
| Paging.FirstPagesArePrefix | src/guild_membership/model.rs:117-122 | pages 1..n at offsets (k-1)*size give the first n*size rows with no gap or overlap |
| Paging.AllPagesGiveEverything | src/guild_membership/model.rs:117-122 | enough pages give every row |
| UserHandlers.Login | src/user/api_handlers/login.rs:8-120 | signed in: refused; unknown name (lowercased): refused; banned: Forbidden before the password; wrong password: refused; else one session for the user, cookie set; failed insert or cookie write: nothing changes |
| UserHandlers.Logout | src/user/api_handlers/logout.rs:6-53 | no cookie: already logged out; a token with no session: cookie removed, success; else only that session deleted and the cookie removed, or on failure nothing changes |
| UserHandlers.BlockUser | src/user/api_handlers/block_user.rs:9-99 | name lowercased, policy_user; unknown target, self-block or an existing pair: BadRequest; else one (caller, name) block added |
| UserHandlers.UnblockUser | src/user/api_handlers/unblock_user.rs:9-95 | name lowercased, policy_user; unknown target or no block: BadRequest; else exactly that pair removed |
| GuildHandlers.GuildFormCheck | src/guild/api_handlers/create_guild.rs:15-32 | passes iff the tag is alphanumeric and at most 15 bytes and the name at most 25 bytes, else NotAcceptable |
| GuildHandlers.AsciiGuildFormCheck | src/guild/api_handlers/create_guild.rs:17-26 | for ASCII input the 15- and 25-byte limits are 15 and 25 characters: such a tag and name pass iff the tag is alphanumeric and both fit |
| GuildHandlers.CreateGuild | src/guild/api_handlers/create_guild.rs:8-123 | form check, then policy_admin, then no guild with the lowercased tag; success adds the guild and an admin membership for the caller together |
| GuildHandlers.JoinGuild | src/guild/api_handlers/join_guild.rs:9-102 | policy_user; an existing membership is BadRequest before a missing guild is NotFound; else one plain membership added |
| GuildHandlers.LeaveGuild | src/guild/api_handlers/leave_guild.rs:8-85 | policy_user; no membership: BadRequest; admin membership: Forbidden; else exactly that membership deleted |
| GuildHandlers.BanUser | src/guild/api_handlers/ban_user.rs:15-106 | moderator policy; the caller's own membership is checked (missing, moderator or admin, already banned) and banned; the username is unused |
| GuildHandlers.RemoveModerator | src/guild/api_handlers/remove_moderator.rs:16-122 | guild-admin policy; unknown target NotFound; not a member or not a moderator BadRequest; else only that is_moderator cleared |
| GuildHandlers.RemoveGuild | src/guild/api_handlers/remove_guild.rs:8-59 | guild-admin policy; success deletes the lowercased tag with no existence check |
| GuildHandlers.ModRemovePost | src/guild/api_handlers/mod_remove_post.rs:14-89 | moderator policy on the request's tag; a missing post is BadRequest; else the post is deleted whatever its guild |
| GuildHandlers.ModRemoveComment | src/guild/api_handlers/mod_remove_comment.rs:14-89 | the same for a comment |
| GuildHandlers.UpdateGuildDescription | src/guild/api_handlers/update_guild_description.rs:14-78 | moderator policy on the lowercased tag; success stores the value as the description, NULL when empty |
| GuildHandlers.UpdateGuildAvatar | src/guild/api_handlers/update_guild_avatar.rs:14-78 | a caller who is not a guild moderator or admin gets the policy's Forbidden response; a failed statement or commit gives InternalServerError; otherwise Ok. As written, the URL (NULL when empty) goes into the description and the avatar column is untouched |
| GuildHandlers.UpdateGuildBanner | src/guild/api_handlers/update_guild_banner.rs:14-78 | a caller who is not a guild moderator or admin gets the policy's Forbidden response; a failed statement or commit gives InternalServerError; otherwise Ok. As written, the URL (NULL when empty) goes into the description and the banner column is untouched |
| GuildHandlers.UpdateGuildName | src/guild/api_handlers/update_guild_name.rs:14-76 | a caller who is not a guild moderator or admin gets the policy's Forbidden response; a failed statement or commit gives InternalServerError; otherwise Ok. As written, the name (NULL when empty) goes into the description and guild_name is untouched |
| PostHandlers.TitleCheck | src/post/api_handlers/create_post.rs:26-31 | passes iff the title is non-empty and at most 100 bytes; too long is checked first |
| PostHandlers.NewPostForm | src/post/api_handlers/create_post.rs:41-67 | empty URLs and body become NULL, the tag is lowercased, the caller is the author |
| PostHandlers.CreatePost | src/post/api_handlers/create_post.rs:19-129 | title check before auth; member policy on the tag as sent; the lowercased guild must exist; success adds exactly one post |
| PostHandlers.EditPost | src/post/api_handlers/edit_post.rs:18-122 | title check, policy_user, post exists, author only; success applies the update to that post |
| PostHandlers.DeletePost | src/post/api_handlers/delete_post.rs:14-83 | policy_user, post exists, author only; success deletes exactly that post |
| PostHandlers.LockPost | src/post/api_handlers/lock_post.rs:14-84 | post looked up before auth; moderator policy on the post's own guild; success sets is_locked |
| CommentHandlers.ParentOf | src/comment/api_handlers/create_comment.rs:39-44 | parent id 0 means none, anything else that parent, unchecked |
| CommentHandlers.CreateComment | src/comment/api_handlers/create_comment.rs:17-104 | policy_user first; missing post BadRequest; locked Forbidden; empty body BadRequest; success adds one comment by the caller |
| CommentHandlers.EditComment | src/comment/api_handlers/edit_comment.rs:15-89 | policy_user; missing comment; non-author Forbidden before the empty-body check; success updates that body |
| CommentHandlers.DeleteComment | src/comment/api_handlers/delete_comment.rs:14-84 | policy_user; missing comment; non-author Forbidden; success deletes exactly that comment |
| VoteHandlers.VoteReply | src/post_vote/api_handlers/vote.rs:46-147 | the reply is cast iff no vote existed, undone iff one in the same direction, updated iff one in the other |
| VoteHandlers.VotePost | src/post_vote/api_handlers/vote.rs:17-181 | missing post BadRequest and locked post Forbidden before the session; then policy_user; success toggles the caller's vote |
| VoteHandlers.VoteComment | src/comment_vote/api_handlers/vote.rs:18-196 | missing comment BadRequest; a locked post Forbidden, a missing post not; then policy_user; success toggles the caller's comment vote |
| SiteHandlers.Target | src/site/api_handlers/site_ban_user.rs:13-21 | the user row with the lowercased name, or None iff none |
| SiteHandlers.SiteBanUser | src/site/api_handlers/site_ban_user.rs:8-82 | policy_admin; unknown, admin or already-banned target BadRequest; success bans only that user |
| SiteHandlers.SiteUnbanUser | src/site/api_handlers/site_unban_user.rs:8-80 | policy_admin; unknown or unbanned target BadRequest; success unbans only that user |
| SiteHandlers.SiteMakeUserAdmin | src/site/api_handlers/site_make_user_admin.rs:8-82 | policy_admin; unknown, already admin or banned target BadRequest; success sets is_admin |
| SiteHandlers.SiteVerifyUser | src/site/api_handlers/site_verify_user.rs:8-82 | policy_admin; unknown, already verified or banned target BadRequest; success sets is_verified |
| SiteHandlers.SiteDeleteUser | src/site/api_handlers/site_delete_user.rs:8-70 | policy_admin; unknown target BadRequest; admin target Forbidden; success deletes that user |
| RegistrationHandlers.Lowered | src/user_registration/api_handlers/register.rs:35-40 | username and email lowercased, passwords unchanged |
| RegistrationHandlers.RegisterCheck | src/user_registration/api_handlers/register.rs:12-97 | passes iff the passwords match, the name is alphanumeric and at most 15 bytes, and the lowercased name and email are in neither users nor registrations; mismatch is reported first |
| RegistrationHandlers.Register | src/user_registration/api_handlers/register.rs:7-133 | a failed check is answered as checked; else one registration is added and its email and token returned; no user row |
| RegistrationHandlers.Confirmed | src/user_registration/api_handlers/confirm_registration.rs:16-40 | the user row is added and the registration removed, every other table unchanged |
| RegistrationHandlers.ConfirmRegistration | src/user_registration/api_handlers/confirm_registration.rs:8-96 | unknown token: error, no change; success moves the registration into users in one transaction |
| RegistrationHandlers.RegisterThenConfirm | src/user_registration/api_handlers/confirm_registration.rs:16-40 | the token register hands out confirms that sign-up: the user is found with the hashed password and default flags, and the token is spent |
| ResetHandlers.CreateReset | src/password_reset/api_handlers/create_reset.rs:7-49 | username as typed; unknown or banned user BadRequest; success adds one reset for the user |
| ResetHandlers.VerifyReset | src/password_reset/api_handlers/verify_reset.rs:6-52 | unknown hash, or already verified, BadRequest; success verifies every reset of the user |
| ResetHandlers.ChangePassword | src/password_reset/api_handlers/change_password.rs:7-87 | mismatch first, unknown hash, unverified reset; success stores the hash of the new password and deletes the user's resets together |
| ResetHandlers.ResetFlowIsSingleUse | src/password_reset/api_handlers/change_password.rs:27-45 | a new token resolves to an unverified reset, verifying sets the flag, and after the change it resolves to nothing |
| ReportHandlers.CreateReport | src/report/api_handlers/create_report.rs:9-135 | empty reason before auth; policy_user; no target or two targets BadRequest; the named comment or post must exist; success adds one report |
| ReportHandlers.AcceptedReportNamesItsTarget | src/report/api_handlers/create_report.rs:21-47 | an accepted report names exactly the one target of the form, with its reason, unaddressed |
| Listings.AllPosts | src/view/model.rs:110-151 | fails iff the i64 offset is negative, which without overflow means page below 1; else exactly the view's rows from (p-1)*20, as many as remain up to 20 |
| Listings.PostsByGuild | src/view/model.rs:65-109 | the same paging over the guild's posts in view order, each with that guild tag |
| Listings.PostsByUser | src/view/model.rs:152-196 | the same paging over the user's posts in view order, each by that username |
| Listings.CommentsByPost | src/view/model.rs:249-290 | the same paging over the post's comments in view order, each under that post |
| Listings.FilteredListingsExact | src/view/model.rs:65-290 | the guild, user and post listings hold exactly the view rows with that key |
| Listings.ShortGuilds | src/view/model.rs:384-412 | the same paging over the whole guild view |
| Listings.GuildByTag | src/view/model.rs:347-371 | a row with that tag, or None iff none |
| Listings.PersonalByUsername | src/view/model.rs:466-484 | a row with that username, or None iff none |
| Listings.VoteLookup | src/post_vote/model.rs:91-111 | a failing id lookup fails; any other is the table's (id, viewer) vote |
| Listings.AnnotatedPosts | src/view/api_handlers/get_all_posts.rs:28-66 | same length as the page, each post differing from its row at most in the three flags |
| Listings.AnnotatedComments | src/view/api_handlers/get_post_comments.rs:41-78 | the same for comments |
| Listings.MarkedGuilds | src/view/api_handlers/get_short_guild_details.rs:33-45 | same length, each guild differing from its row at most in is_member |
| Listings.MarkBlocked | src/view/api_handlers/get_all_posts.rs:30-39 | the flag ends set iff it was set or the name is in the block list |
| Listings.AnnotatePosts | src/view/api_handlers/get_all_posts.rs:28-66 | the loop's output is the annotated page |
| Listings.AnnotateComments | src/view/api_handlers/get_post_comments.rs:41-78 | the loop's output is the annotated page of comments |
| Listings.MarkMemberships | src/view/api_handlers/get_short_guild_details.rs:33-45 | the nested loop's output is the marked page of guilds |
| Listings.BlockedIffListed | src/block/model.rs:29-46 | a name is in the viewer's block list iff the viewer has a block row for it |
| Listings.AnnotatedPostMeaning | src/view/api_handlers/get_all_posts.rs:28-66 | from unset flags: blocked iff the viewer blocked the author; up/downvoted iff the viewer's vote row says so and its lookup did not fail; never both; other columns untouched |
| Listings.AnnotatedCommentMeaning | src/view/api_handlers/get_post_comments.rs:42-67 | the same for comments, with the vote read under the comment's post_id |
| Listings.NoBlockListBlocksNothing | src/view/api_handlers/get_user_posts.rs:35-63 | with an empty block list, is_blocked stays as the view gave it |
| Listings.MarkedGuildIffMember | src/view/api_handlers/get_short_guild_details.rs:23-45 | is_member iff the viewer has a membership row with that tag, banned or not; nothing else changes |
| ViewHandlers.GetAllPosts | src/view/api_handlers/get_all_posts.rs:10-102 | bad page: error; rejected viewer: the page as fetched; block list error: error; else the annotated page; database unchanged |
| ViewHandlers.GetPostsByGuild | src/view/api_handlers/get_posts_by_guild.rs:17-119 | the same for the lowercased guild's posts |
| ViewHandlers.GetPostComments | src/view/api_handlers/get_post_comments.rs:17-119 | the same for a post's comments, votes from the comment vote table |
| ViewHandlers.GetUserPosts | src/view/api_handlers/get_user_posts.rs:16-98 | the lowercased user's posts, annotated with votes only |
| ViewHandlers.GetShortGuildDetails | src/view/api_handlers/get_short_guild_details.rs:9-83 | rejected viewer: the page as fetched; membership error: error; else is_member marked from all the viewer's memberships |
| ViewHandlers.GetGuildDetails | src/view/api_handlers/get_guild_details.rs:15-70 | Ok iff the lowercased tag has a row, else BadRequest; is_member iff the guild-member policy passes |
| ViewHandlers.GuildPageMembership | src/view/api_handlers/get_guild_details.rs:21-55 | is_member: never for anonymous or site-banned callers, always for unbanned site admins, else iff an unbanned membership exists |
| ViewHandlers.GetUserPersonalInfo | src/view/api_handlers/get_user_personal_info.rs:8-40 | policy_self on the lowercased name; rejected: the policy response; else the row with that name or BadRequest |
| ViewHandlers.PersonalInfoOnlyForOwner | src/view/api_handlers/get_user_personal_info.rs:13-22 | only the signed-in, unbanned user of that name receives it |

## Left out

- Read errors inside handlers. Every `Err` arm of a handler's own `find_*` query answers InternalServerError and changes nothing. The model's handler reads are total, so those arms are absent. Read errors that change the answer are modelled: policy lookups (`Lookup.Failed`), the block list, the membership list and the vote lookups of the listings.
- The SQL views behind `src/view/model.rs` and their aggregate counts (votes, replies, members, posts). A listing handler takes the view's rows as a parameter, in query order. The model adds only the `WHERE`, `LIMIT 20` and `OFFSET`.
- `created_at` columns and `ORDER BY created_at` / `ORDER BY members`. There is no clock, and the order of a view is its order as given.
- `Guild::find_all`, `Guild::update_guild_tag`, `Report::find_all`, `Post::find_latest_posts_by_*`, `Comment::find_latest_comments_by_*`, `get_post_by_id`, `get_comment_by_id`, `get_comments_by_username` and `DetailedUserView`. None of the modelled handlers calls them.
- When two rows match a non-key `WHERE`, SQL returns either of them. The model returns the row with the lowest id. Likewise `find_all_by_post_id` on reports has no `ORDER BY`, and the model lists those rows in ascending id order.
- `char::is_alphanumeric`, `to_lowercase` and bcrypt are abstract functions. Their Unicode and cryptographic behaviour is not modelled.
- UUID and `rand` generation are parameters. Nothing shows that the values are unguessable or fresh, and a colliding token is handled as a failing insert.
- Concurrency: the check-then-insert races of vote, join, register and block are not modelled, and every handler runs atomically.
- Email delivery, logging, routing, JSON encoding and the texts of response bodies. Each response is modelled only by its status and a reason constructor.
- A `begin().await.unwrap()` panic is InternalError with the database unchanged. A rollback or commit that fails is the same `txFails` outcome as a failed statement. The exception is login, where the cookie is set before the commit (`CommitFailed`).
- ViewHandlers.GetGuildDetails: it is a function, so it does not capture the cookie removal `validate_session` performs. Forum.Forum.Authorize models that removal for every other handler.
- ViewHandlers.GetUserPersonalInfo: the same cookie removal is not captured, for the same reason.
- Debug builds: `(page_number - 1) * results_per_page` is modelled with the wrap-around of a release build (Paging.Offset). A build with overflow checks panics on those page numbers instead, and that panic is not modelled.
- Serial ids (`i32` in the source) and the `next` counters of the tables are unbounded integers. The model never runs out of ids, and it does not model the database error a full `SERIAL` would raise.
- Votes.Create: the vote tables are keyed by the (target, user) pair, so a second insert of the same pair fails. The insert in `src/post_vote/model.rs:13-26` is a plain `INSERT`, and no schema in the repository shows a unique key on that pair. The one-vote-per-pair key is therefore assumed. The vote handlers read the pair before inserting, so none of them reaches that case.
- Bookmarks, notifications, search and the site description model are not part of this model.

## Findings

| source | as written | input that shows it | evidently intended | confidence | as-written member | corrected member |
|---|---|---|---|---|---|---|
| src/post_vote/model.rs:62-80 (likewise src/comment_vote/model.rs:71-86) | `find_all_by_user_id` binds the raw `page_number` as OFFSET | three votes, 2 per page: page 1 returns votes 2-3 and page 2 returns vote 3 | OFFSET `(page_number - 1) * results_per_page`, as every other paged finder binds | medium, not executed | Votes.RawOffsetSkipsAndRepeats | Votes.CorrectedPagesListEverything |
