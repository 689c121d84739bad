# CampusOS: a verified model of its content engine, tenant routing and ingestion

CampusOS is a multi-tenant campus platform. These Dafny modules model the parts of it that hold the
most logic and prove what they promise.

- **Communities.** `CommentTree` and `Comments` hold comment trees (stored dotted paths, the walk
  that reads them back, replying, editing, deleting). `Feed` and `Cursors` hold keyset paging with
  its base64url cursors (`Base64Url`, `Utf8`, `CursorFormats`). `Votes`, `Karma` and `KarmaRebuild` hold
  votes, the tallies and ranks cached over them, and the capped karma the database moves with each
  vote. `Moderation`, `ModerationRuns` and `Pins` hold reports, automatic hiding, removal, approval
  and the order of pins. `Membership` and `Ownership` hold members, roles and owners. `Polls` holds
  polls. `Access` holds what the operations ask about a caller.
- **Tenant routing.** `Hosts`, `TenantRouting`, `Registry`, `TimetableUrl` (with `Percent`) and
  `Middleware` hold the link emitter, the request resolver, the registry and the three redirects
  composed.
- **Smaller algorithms.** `Recents` (capped merging), `WorkQueue` (workers over a shared cursor),
  `RateLimit` (fixed windows), `Crawl`, `Slugs`, `Normalize` and `Batch` (the timetable portal),
  `Chips` (the free window of a day), `Fees`.

`Wrappers`, `Text`, `Collections` and `Sums` are shared by all of them.

Tables are maps and sequences in the fields of a class, and each exported mutation is one method, run
as one transaction. Where a run of steps matters, a method is tied to a function on the table values
and the theorems are about every sequence of those functions. Clocks, random ids, query results whose
order the database may choose, and the answers of the permission functions are parameters.

Where the code and its own comments disagree, the model follows the code:

- `tenantOrigin` is documented as idempotent; it is not for slugs that look like a loopback address
  or hold a colon (`TenantRouting.OriginIdempotent` gives the exact condition).
- "The only owner cannot leave" fails for an owner who is banned, or not in good standing, since the
  guard asks for a permission such a person no longer has (`Ownership.LeaveKeepsAnOwner`).
- "Changing a vote and changing it back costs nothing" fails when the first change is clamped, as once
  the day's cap is spent (`Karma.SpentCapRun`), and when the cap has come down below what the day's
  ledger row held before it (`Karma.LoweredCapMakesUndoCost`). `Karma.ChangeAndBackIsFree` gives the
  exact condition the same day, `Karma.ChangeAndBackAnotherDay` on any other. A karma rebuild, said to
  differ by less than the cap, can be off by any amount (`KarmaRebuild.RebuildDriftHasNoBound`); it
  agrees when the clamp acts in neither (`KarmaRebuild.UnclampedRebuildAgrees`) or no vote was changed
  (`KarmaRebuild.UnchangedVotesRebuildExactly`), and stays within the cap as
  `KarmaRebuild.WithinTheCap` says.
- The pin cap can be passed by approving a removed pinned post (`ModerationRuns.ApprovalPastTheCap`,
  and a run of steps in `ModerationRuns.ApprovalLeavesTwoPins`), and past ten live pins some posts
  are on no page (`Feed.PinsBeyondTenAreNeverShown`, and a table in `CursorFormats.OnePinTooMany`).
- Nested classes defeat the free-window scan (`Chips.AnswerIsRightExactlyWhen` and the day in
  `Chips.NestedClassIsMissed`).
- A worker that meets an undefined item or a rejection takes no more items, so enough of them leave
  the tail undone (`WorkQueue.ReachesTheEnd` and the jobs in `WorkQueue.TailLeftUndone`).

## Model

| member | source | states |
|---|---|---|
| CommentTree.IsWithinIsPrefix | packages/modules/communities/src/domain/paths.ts:25-27 | the string test for "inside the subtree" holds exactly when the ancestor's ids along the path are a prefix of the candidate's, for all strings |
| CommentTree.DepthIsDots | packages/modules/communities/src/domain/paths.ts:10-17 | the depth stored with a comment is the number of dots in its stored path, in every threaded set of rows |
| CommentTree.AncestorRow | packages/modules/communities/src/comments.ts:161-187 | every prefix of a comment's path is the path of a row that exists: no reply ever hangs below nothing |
| CommentTree.ReplyKeepsThreads | packages/modules/communities/src/comments.ts:161-187 | a row placed under a parent of its post keeps all rows threaded (unique ids, path and depth extending the parent's) |
| CommentTree.ChildrenInOrder | packages/modules/communities/src/comments.ts:262-275 | siblings come out by the chosen key, rows with equal keys in the order the query returned them |
| CommentTree.WalkMembers | packages/modules/communities/src/comments.ts:320-331 | the walk below a comment visits exactly the rows strictly below it, by path |
| CommentTree.WalkShaped | packages/modules/communities/src/comments.ts:320-331 | the walk repeats nothing, keeps each subtree in one block with its root first, and keeps siblings in order |
| CommentTree.ReadTreeIsPreorder | packages/modules/communities/src/comments.ts:311-333 | the whole walk is a permutation of the post's rows, a preorder whose blocks are exactly the subtrees of the path test, siblings sorted |
| CommentTree.PermutedStaysThreaded | packages/modules/communities/src/comments.ts:308-309 | threaded rows are threaded in whatever order a query returns them |
| CommentTree.ParentsFirst | packages/modules/communities/src/comments.ts:311-333 | a parent always precedes its replies |
| CommentTree.WalkSamePlaces | packages/modules/communities/src/comments.ts:216-258 | edits and deletions move nothing: the tree read afterwards has the same rows in the same places |
| Comments.ReplyKeepsConsistent | packages/modules/communities/src/comments.ts:174-201 | adding a placed row and one to its post's count keeps ids unique, every post threaded and every cached comment count equal to the number of rows |
| Comments.EditKeepsConsistent | packages/modules/communities/src/comments.ts:216-258 | changing rows without moving them keeps all of that |
| Comments.Board.FindParent | packages/modules/communities/src/comments.ts:163-168 | a parent is found exactly when a row with that id is on the same post |
| Comments.Board.CreateComment | packages/modules/communities/src/comments.ts:107-213 | which refusal is given and when, in the order of the checks; on success one row is appended, placed under its parent within the depth cap, and one is added to the post's count; nothing changes on refusal |
| Comments.Board.EditComment | packages/modules/communities/src/comments.ts:216-239 | which refusal and when; otherwise that row alone gets the new text and the edit time, and the previous text is kept |
| Comments.Board.DeleteComment | packages/modules/communities/src/comments.ts:242-258 | only the author, idempotent; the row stays in its place, marked |
| Comments.AnonymousTellsNothing | packages/modules/communities/src/comments.ts:73-105 | what a third person sees of an anonymous comment does not depend on who wrote it |
| Comments.VisitChild | packages/modules/communities/src/comments.ts:323-330 | what visiting one child adds to the output, before the later children |
| Comments.TreeReader.Group | packages/modules/communities/src/comments.ts:311-317 | the map by parent holds each parent's replies, in row order |
| Comments.TreeReader.Walk | packages/modules/communities/src/comments.ts:320-331 | the recursive closure pushes exactly the views of the walk below its argument, and terminates |
| Comments.ReadTree | packages/modules/communities/src/comments.ts:277-334 | the list returned is the views of the whole walk in order |
| Comments.EveryPostCanBeRead | packages/modules/communities/src/comments.ts:277-334 | in every consistent state a post's rows, read in any order, give a sorted preorder of exactly those rows, as many as the post's cached count |
| Utf8.DecodeEncode | packages/modules/communities/src/feed.ts:65-71 | text survives the trip through its UTF-8 bytes (RFC 3629, section 3) |
| Utf8.EncodeDecode | packages/modules/communities/src/feed.ts:69-71 | well formed bytes are the bytes of the text they decode to: one form only |
| Utf8.BackFromText | packages/modules/communities/src/feed.ts:69-71 | any bytes turned into text, malformed ones into replacement characters, come back exactly when they were well formed |
| Utf8.LossShows | packages/modules/communities/src/feed.ts:69-71 | malformed bytes always leave a replacement character in the text |
| Base64Url.DecodeEncode | packages/modules/communities/src/feed.ts:65-71 | bytes survive the trip through base64url (RFC 4648, section 5) |
| Cursors.DecodeOfEncode | packages/modules/communities/src/feed.ts:65-76 | decoding an encoded cursor gives its parts back exactly when asked for as many as it holds and none is empty |
| Cursors.CursorsDiffer | packages/modules/communities/src/feed.ts:65-67 | different positions have different cursors |
| CursorFormats.IsoCarries | packages/modules/communities/src/feed.ts:91 | every moment a date can hold, written as toISOString does, is read back to the millisecond (ECMA-262, section 21.4.1; the civil calendar in both directions), without a bar |
| CursorFormats.NumericCarries | packages/modules/communities/src/feed.ts:125 | every rank, written as a numeric with seven places, is read back as itself, without a bar |
| CursorFormats.UuidCarries | packages/modules/communities/src/feed.ts:150 | every 128-bit id, written as a UUID, is read back as itself, without a bar |
| CursorFormats.CursorsCarryPosts | packages/modules/communities/src/feed.ts:79-155 | in every pageable sort all columns of a post's key survive its cursor, when its creation time is in whole milliseconds |
| CursorFormats.PagesShowTheList | packages/modules/communities/src/feed.ts:240-299 | so with the formats the cursors are written in, following them from the first page shows the whole filtered list |
| Feed.ContinuesIsLater | packages/modules/communities/src/feed.ts:79-155 | for each pageable sort, the continuation condition on a row's own key holds of exactly the rows the sort puts later |
| Feed.OrderedUnique | packages/modules/communities/src/feed.ts:291 | a set of posts has one order under a sort, so the query's order is determined |
| Feed.RestAfterPost | packages/modules/communities/src/feed.ts:279-293 | continuing after the n-th post still to show leaves exactly the posts behind it |
| Feed.CursorNamesPost | packages/modules/communities/src/feed.ts:79-155 | the cursor of a post whose columns survive their formats is never empty and decodes to exactly that post's key |
| Feed.PageTakesFront | packages/modules/communities/src/feed.ts:279-298 | a page is the front of what remains; it has a next cursor exactly when something is left, and that cursor's remainder is exactly what is left |
| Feed.ChaseShowsAll | packages/modules/communities/src/feed.ts:240-299 | following next cursors ends, and shows exactly what remained, in order, once each |
| Feed.ListingIsSorted | packages/modules/communities/src/feed.ts:279-292 | the filtered list holds each matching post once, in strictly descending key order |
| Feed.PagesDescend | packages/modules/communities/src/feed.ts:79-155 | whatever happens to the table between pages, the posts shown come in strictly descending order of their keys as read, all after the cursor the reading started from |
| Feed.NothingRepeats | packages/modules/communities/src/feed.ts:79-93 | while posts keep their sort keys, as under "new" they do, nothing is shown twice, whatever else arrives, goes or changes between pages |
| Feed.NothingDropped | packages/modules/communities/src/feed.ts:79-93 | a post listed all along with its key unchanged is shown by the time the pages end, whatever else arrives, goes or changes |
| Feed.ArrivalsNeverDisturb | packages/modules/communities/src/feed.ts:79-93 | under "new", posts that arrive ahead of the last one shown, and votes on old ones, leave the pages, counts aside, a prefix of the list as the first page saw it, and all of it once there were pages enough |
| Feed.RoundedTimeSkips | packages/modules/communities/src/feed.ts:87-91 | what a cursor that reads back an earlier moment than it was written for loses: the next page starts late, by exactly the posts still to show that were created since that moment, or at it with an id not below the last one shown |
| Feed.PinsBeyondTenAreNeverShown | packages/modules/communities/src/feed.ts:261-284 | every live pinned post of a community is reachable exactly when there are at most ten of them; the first page leads with the ten latest |
| Feed.FirstPinIsLost | packages/modules/communities/src/feed.ts:261-284 | tables of any number of live pins past ten on which the oldest pin is on no page |
| CursorFormats.OnePinTooMany | packages/modules/communities/src/feed.ts:261-284 | the table of eleven of them, with the cursors as they are written, in any sort |
| Hosts.LabelReadsBack | packages/core/src/tenant/registry.ts:21-30 | a label put in front of a base domain is read back as that label |
| Hosts.LabelHasNoSlash | packages/core/src/tenant/registry.ts:21-30 | a label read from a host without a slash has none |
| TenantRouting.TenantOrigin | apps/web/lib/tenant-routing.ts:73-95 | the stripping loop ends and the origin is the specified one, in each of the four cases |
| TenantRouting.OriginIdempotent | apps/web/lib/tenant-routing.ts:73-95 | asking again on the host already built gives the same origin exactly when the slug did not have to be put in front, or holds no colon and makes no loopback-looking host (the documentation promises it always) |
| TenantRouting.DoubledExactlyWhen | apps/web/lib/tenant-routing.ts:84-94 | an origin leads with its slug twice exactly when the slug holds a colon and the base already leads with it; without a colon, never |
| TenantRouting.Slug127IsNotIdempotent | apps/web/lib/tenant-routing.ts:45-48 | the slug 127 loses idempotence: its own origin counts as local |
| TenantRouting.OriginResolves | apps/web/lib/tenant-routing.ts:73-95 | the host of a tenant's origin resolves to that tenant exactly when the slug had to be put in front of the base and is not "www" |
| TenantRouting.LinksReachTheTenant | apps/web/lib/tenant-routing.ts:103-184 | a link built for a host and then routed on it reaches the page under the same `/u/{slug}` tree, on a tenant host by rewrite and elsewhere by path, the home page included |
| TenantRouting.MovedHostIsNotLegacy | apps/web/lib/tenant-routing.ts:164-177 | the host a legacy request is sent to is never legacy itself |
| TenantRouting.MovedHostKeepsTenant | apps/web/lib/tenant-routing.ts:164-177 | and names the same tenant unless it is the platform's own host |
| Registry.TenantRegistry.Load | packages/core/src/tenant/registry.ts:37-50 | loading succeeds exactly when every configuration is valid and no slug or alias repeats; then every key leads to its own tenant |
| Registry.OriginBelongsToTenant | packages/core/src/tenant/registry.ts:52-59 | a configured tenant's origin, under its slug or any alias, resolves back to that tenant |
| Percent.DecodeOfEncode | apps/web/lib/timetable-url.ts:26-36 | every component survives percent-encoding and decoding (RFC 3986, section 2.1) |
| Percent.EncodedIsOneSegment | apps/web/lib/timetable-url.ts:26-36 | an encoded component never splits a path and is empty only for the empty text |
| TimetableUrl.BuildTimetablePath | apps/web/lib/timetable-url.ts:26-36 | the path built is the base and the encoded levels that have their parents |
| TimetableUrl.ParseTimetableFilters | apps/web/lib/timetable-url.ts:44-58 | segments are accepted exactly when they are ordered prefix and value pairs with no empty value, and then select those values |
| TimetableUrl.ParseOfBuild | apps/web/lib/timetable-url.ts:26-58 | splitting, decoding and parsing a built path gives back the selection with orphan levels dropped |
| TimetableUrl.BuildOfParse | apps/web/lib/timetable-url.ts:26-58 | every accepted list of segments is exactly that of the path built from what it selects |
| Middleware.Handle | apps/web/middleware.ts:24-68 | 308 exactly when the plan redirects, the query kept; 301 only to the same host with the query gone into the path; another host only off the legacy root; otherwise the tenant header is the one host and path name, whatever the client sent |
| Middleware.HopsDescend | apps/web/middleware.ts:24-68 | each redirect leaves the legacy root for good, or shortens the path, or drops the query: the measure under which every chain ends |
| Middleware.StaysOnHost | apps/web/middleware.ts:28-45 | off the legacy root no redirect anywhere in the chain changes the host |
| Middleware.HostHopComesFirst | apps/web/middleware.ts:28-45 | a host redirect can only be the first of a chain |
| Middleware.QueryHopComesLast | apps/web/middleware.ts:47-57 | after the query has moved into the path nothing is redirected any more |
| Middleware.ChainEndsAtTenant | apps/web/middleware.ts:24-68 | on a tenant's host, current or legacy, every chain ends by serving the last path under that tenant's tree exactly once with the header naming it, and passes through exactly when that path is media; elsewhere it passes through with the tenant the path names |
| Middleware.FinalPathIsPage | apps/web/middleware.ts:24-68 | and that last path is the one first asked for, without its `/u/{slug}` and with a timetable query moved into it |
| Middleware.LinkReachesItsPage | apps/web/lib/tenant-routing.ts:103-184 | following every redirect, a link built on any host but another tenant's ends at its page, legacy hosts, media and the home page included |
| Middleware.HeaderIsNeverTheClients | apps/web/middleware.ts:9-14 | what the client sends as the tenant header changes nothing about the response at the end of the chain |
| Recents.IdentityIsKindAndKey | apps/web/lib/recents-local.ts:30-32 | the identity text tells kinds and keys apart |
| Recents.MergeRecents | apps/web/lib/recents-local.ts:35-45 | the nested loop over the map computes the merge of all lists in order |
| Recents.MergeKeepsNewest | apps/web/lib/recents-local.ts:34-45 | a merge is newest first, one entry an identity, at most twenty, all given; and for every time it holds as many identities viewed since then as there are, up to the cap |
| Recents.KeptIsNewestOfItsIdentity | apps/web/lib/recents-local.ts:41 | each entry kept is as new as any given one of its identity |
| Recents.NestedMergeSameTimes | apps/web/lib/recents-local.ts:34-45 | merging a merged list with more shows the same view times as merging everything at once, for all lists |
| Recents.NestedMergeExactlyWhen | apps/web/lib/recents-local.ts:34-45 | and the same list exactly when ties keep their places: of two entries with one view time, one of them shown, the one that entered the map of everything first also enters the nested merge's map first |
| Recents.NestedMergeIsMerge | apps/web/lib/recents-local.ts:34-45 | so always when no two of the entries held for different things tie |
| Recents.DroppedStaysOut | apps/web/lib/recents-local.ts:34-45 | an entry the cap dropped is never shown by a later merge unless its thing is viewed again |
| Recents.OrderDoesNotMatter | apps/web/lib/recents-local.ts:34-45 | when view times differ the order of the lists does not matter |
| Recents.EqualTimesCanReorder | apps/web/lib/recents-local.ts:41-44 | with an equal view time the nested merge can order two entries differently |
| Recents.LocalStorage.WriteLocalRecent | apps/web/lib/recents-local.ts:73-80 | the tenant's list becomes the merge of the new view and what was readable; nothing changes when storage refuses |
| Recents.StoreIsMostRecent | apps/web/lib/recents-local.ts:73-80 | after any run of views at increasing times the store is exactly the twenty most recently viewed things, newest first |
| Votes.VoteTables.VotePost | packages/modules/communities/src/votes.ts:53-129 | which refusal and when; the tallies answered are those of the new state, the history grows by the vote unless it was refused or changed nothing, and after every call tallies and ranking columns are a recount and re-ranking of the vote rows |
| Votes.VoteTables.VoteComment | packages/modules/communities/src/votes.ts:131-216 | the same for comments, whose lock is their post's and whose rank is the best score |
| Votes.VoteTables.Add | packages/modules/communities/src/posts.ts:281 | a new item starts with no votes and ranked as such |
| Votes.VotersRecast | packages/modules/communities/src/votes.ts:89-100 | who votes which way on which item after a row is inserted, changed or deleted |
| Votes.RecountedVoters | packages/modules/communities/src/votes.ts:43-51 | a recount of the item moves by exactly the difference the tallies are moved by |
| Votes.Recounted | packages/modules/communities/src/votes.ts:102-123 | moving one item's tallies by the difference leaves every item's tallies a recount and its ranks a ranking of them |
| Votes.RowIsLastVote | packages/modules/communities/src/votes.ts:77-100 | after any run of accepted votes a row holds the voter's last value, and there is none when that is zero |
| Votes.TalliesForgetOrder | packages/modules/communities/src/votes.ts:15-19 | runs that leave every voter's last value alike leave every tally alike, whatever their order |
| Karma.KarmaTables.Vote | packages/modules/communities/drizzle/0006_karma.sql:109-182 | the ledger row and the author's totals move by what the cap allows of the change, and by nothing for one's own work or no change |
| Karma.KarmaTables.Recompute | packages/modules/communities/drizzle/0006_karma.sql:217-279 | a rebuild is the replay of the rows from nothing, and counts those that moved karma |
| Karma.KarmaIsTheLedger | packages/modules/communities/drizzle/0006_karma.sql:30-39 | in every reachable state a person's karma is the sum of the ledger rows naming them |
| Karma.DailyCapHolds | packages/modules/communities/drizzle/0006_karma.sql:98-108 | under one cap, what one account gave another on one day never passes it either way, over every run |
| Karma.KarmaIsVotesLessSwallowed | packages/modules/communities/drizzle/0006_karma.sql:156-165 | over every run karma is what the votes asked for less what the cap swallowed |
| Karma.ChangeAndBackIsFree | packages/modules/communities/drizzle/0006_karma.sql:105-107 | a vote changed under one cap and changed back the same day under any later one leaves everyone's karma as it was exactly when the first change was not clamped and the ledger row it found is within the later cap (the comment says always) |
| Karma.ChangeAndBackAnotherDay | packages/modules/communities/drizzle/0006_karma.sql:98-107 | changed back on another day, under any cap, it leaves everyone's karma as it was exactly when the two changes go past their caps by the same amount in opposite ways, as when neither does |
| Karma.SpentCapMakesUndoCost | packages/modules/communities/drizzle/0006_karma.sql:105-107 | with the cap spent, an upvote taken back costs its author one point |
| Karma.SpentCapRun | packages/modules/communities/drizzle/0006_karma.sql:105-107 | a run of votes for every cap that spends it, after which an upvote and taking it back leave the author one point short |
| Karma.AppliedIsTowardsTheVote | packages/modules/communities/drizzle/0006_karma.sql:156 | karma moves the vote's way and by no more than the vote exactly when the ledger row is not past the cap |
| Karma.LoweredCapReversesAVote | packages/modules/communities/drizzle/0006_karma.sql:144-156 | a run of votes for every cap and every lower one: spend the cap, lower it, and one more upvote takes the difference away |
| Karma.LoweredCapMakesUndoCost | packages/modules/communities/drizzle/0006_karma.sql:105-107 | a run of votes for every lower cap: two points past it an upvote is turned down without being clamped, and turning it up again leaves the author two points short |
| Karma.AnonymousMovesNothingPublic | packages/modules/communities/drizzle/0006_karma.sql:169-173 | no run of votes on anonymous work moves anyone's public totals |
| Karma.KindsStayApart | packages/modules/communities/drizzle/0006_karma.sql:166-180 | votes on posts never move comment totals, nor the other way, over every run |
| Karma.SignedIsPublic | packages/modules/communities/drizzle/0006_karma.sql:166-180 | while everything voted on is signed the public totals are the private ones |
| KarmaRebuild.KarmaIsLiveVotesLessSwallowed | packages/modules/communities/drizzle/0006_karma.sql:217-279 | in every reachable state karma is the live votes on one's work less what the cap swallowed |
| KarmaRebuild.RebuildDrift | packages/modules/communities/drizzle/0006_karma.sql:212-216 | a rebuild and the running total differ by exactly what the clamp took in the one less what it took in the other |
| KarmaRebuild.DriftWithinKeptBack | packages/modules/communities/drizzle/0006_karma.sql:212-216 | and by no more than the points the clamp kept back in the two together |
| KarmaRebuild.UnclampedRebuildAgrees | packages/modules/communities/drizzle/0006_karma.sql:212-216 | when no step of the run and no step of its replay is clamped, the totals are equal for every author |
| KarmaRebuild.WithinTheCap | packages/modules/communities/drizzle/0006_karma.sql:212-216 | the two are within the cap when fewer points than that were kept back, and, where the clamp acted one way in the run and the other way or not at all in the replay, exactly then |
| KarmaRebuild.UnchangedVotesRebuildExactly | packages/modules/communities/drizzle/0006_karma.sql:212-216 | when nobody changes a vote and the cap stays, a rebuild in the order of casting gives the very book there was, however often the clamp acted |
| KarmaRebuild.ClampsCanCancel | packages/modules/communities/drizzle/0006_karma.sql:212-216 | a run whose clamp keeps one point back, and whose rebuild's does too, agree, so clamping alone does not make them differ |
| KarmaRebuild.RebuildAloneCanClamp | packages/modules/communities/drizzle/0006_karma.sql:212-216 | a run no step of which is clamped, whose rebuild is, and differs by one |
| KarmaRebuild.RebuildDriftHasNoBound | packages/modules/communities/drizzle/0006_karma.sql:212-216 | for every cap and every amount there is a history whose rebuild is off by that amount (the comment bounds it by the cap) |
| Moderation.Tables.ReportItem | packages/modules/communities/src/moderation.ts:61-179 | which refusal and when; otherwise the report goes in, and an item that is up and at the threshold comes down with one log line |
| Moderation.Tables.RemoveItem | packages/modules/communities/src/mod-actions.ts:120-159 | the item is down with its first reason, its open reports are answered as removed, and the log grows by one |
| Moderation.Tables.ApproveItem | packages/modules/communities/src/mod-actions.ts:162-189 | the item is up, its open reports are answered as approved, and the log says whether it was restored |
| Moderation.Tables.SetPinned | packages/modules/communities/src/mod-actions.ts:221-261 | pinned or unpinned as asked; a new pin is refused exactly at the cap of live pins |
| Moderation.Tables.MovePin | packages/modules/communities/src/mod-actions.ts:424-469 | the two neighbours' pin times are exchanged, an equal time gaining a millisecond on the way up; nothing moves at the ends |
| ModerationRuns.ReportSettles | packages/modules/communities/src/moderation.ts:138-177 | one report keeps every item under the threshold unless it is down, and pays for a hide with a threshold of reporters |
| ModerationRuns.RemoveSettles | packages/modules/communities/src/mod-actions.ts:130-149 | a removal keeps that |
| ModerationRuns.ApproveSettles | packages/modules/communities/src/mod-actions.ts:168-187 | an approval keeps that, and puts the item up |
| ModerationRuns.RunSettles | packages/modules/communities/src/mod-actions.ts:104-188 | it holds of every item after every run of posting, deleting, reporting, removing, approving and pinning |
| ModerationRuns.RemoveIsIdempotent | packages/modules/communities/src/mod-actions.ts:119-159 | removing again, by anyone, changes no item and no report, and the first reason stays |
| ModerationRuns.ApproveUndoesRemove | packages/modules/communities/src/mod-actions.ts:161-189 | approving what was just removed puts every item back as it was, reports staying answered as removed |
| ModerationRuns.HidingIsAmortised | packages/modules/communities/src/moderation.ts:153-177 | after every run an item that is up has fewer open reports than the threshold, and its automatic hides times the threshold never exceed the people who ever reported it |
| ModerationRuns.HidesAtTheThreshold | packages/modules/communities/src/moderation.ts:163-167 | in every reachable state a report hides an item exactly when it is up and this report is the threshold's |
| ModerationRuns.PinsStayNearTheCap | packages/modules/communities/src/mod-actions.ts:233-246 | over every run a community's live pins exceed the cap by at most the approvals that brought a pinned post back |
| ModerationRuns.ApprovalPastTheCap | packages/modules/communities/src/mod-actions.ts:172-176 | an approval takes a community past its cap exactly when it brings a pinned post back to a full one |
| ModerationRuns.ApprovalLeavesTwoPins | packages/modules/communities/src/mod-actions.ts:172-176 | a run that does: under a cap of one, pin a post, remove it, pin another, approve the first, and both are pinned |
| Pins.MoveIsOneStep | packages/modules/communities/src/mod-actions.ts:446-457 | a move shows as exactly one exchange of neighbours, unless it moves a post up past its equal while another equal stands right above |
| Pins.UpAlwaysPasses | packages/modules/communities/src/mod-actions.ts:453-455 | moving up lands above the post it passed in every order ties can be read in |
| Pins.OneOrder | packages/modules/communities/src/mod-actions.ts:445 | with different pin times the order read is determined |
| Pins.MoveKeepsTimes | packages/modules/communities/src/mod-actions.ts:423-457 | with different pin times the order read afterwards is the exchange, and the list of times is what it was |
| Pins.ThereAndBack | packages/modules/communities/src/mod-actions.ts:423-457 | up then down, or down then up, restores every post |
| Pins.TiedDownChangesNothing | packages/modules/communities/src/mod-actions.ts:453-457 | between equals a move down changes nothing though it answers that it moved |
| Membership.Register.CreateCommunity | packages/modules/communities/src/communities.ts:150-214 | which refusal and when; otherwise the community with one member, who owns it |
| Membership.Register.JoinCommunity | packages/modules/communities/src/communities.ts:256-329 | which refusal and when; a first or renewed membership adds one to the count and the member role |
| Membership.Register.LeaveCommunity | packages/modules/communities/src/communities.ts:332-366 | refused exactly to a member who may transfer the community while it has at most one owner; otherwise the seat is given up with all its roles |
| Membership.Register.SetCommunityRole | packages/modules/communities/src/communities.ts:417-473 | which refusal and when; otherwise exactly that role row is added or removed |
| Ownership.MembersWith | packages/modules/communities/src/communities.ts:321-326 | how the number of active members moves when one seat is taken or given up |
| Ownership.RunSound | packages/modules/communities/src/communities.ts:150-473 | after every run each count equals the memberships without an end, and roles are held only by members |
| Ownership.LeaveNeverClips | packages/modules/communities/src/communities.ts:360-363 | the clip of the count at zero never acts |
| Ownership.RejoinIsAPlainMember | packages/modules/communities/src/communities.ts:256-365 | leaving and joining again restores count and seat, and of the roles only the member's |
| Ownership.OwnerMayTransfer | packages/modules/communities/drizzle/0009_standing_lapse.sql:17-48 | an owner may transfer exactly when not banned and in good standing or allowed tenant wide |
| Ownership.LeaveKeepsAnOwner | packages/modules/communities/src/communities.ts:331-365 | an accepted leave leaves a community ownerless exactly when the leaver is its only owner and is banned, or not in good standing and not allowed tenant wide (the comment says the only owner cannot leave) |
| Ownership.RevokeKeepsAnOwner | packages/modules/communities/src/communities.ts:457-459 | granting and revoking never take the last owner |
| Ownership.EveryCommunityHasAnOwner | packages/modules/communities/src/communities.ts:150-473 | over every run without such a leave every community has an owner |
| Ownership.BannedFounderLeavesNobody | packages/modules/communities/src/communities.ts:349-352 | a founder who is banned and leaves leaves the community with no owner |
| WorkQueue.WorkerCount | packages/adapters/timetable-lgu/src/queue.ts:13 | at least one worker, no more than the limit or the items |
| WorkQueue.Pool.Take | packages/adapters/timetable-lgu/src/queue.ts:16-22 | taking the next index keeps workers, cursor, slots and started calls in agreement |
| WorkQueue.Pool.Settle | packages/adapters/timetable-lgu/src/queue.ts:22 | a settled call fills its own slot and its worker goes on, or its worker stops with the rejection |
| WorkQueue.TakeAgrees | packages/adapters/timetable-lgu/src/queue.ts:15-23 | every index taken while a worker is left keeps the number of stopped workers equal to the stoppers passed |
| WorkQueue.RestingAtReach | packages/adapters/timetable-lgu/src/queue.ts:15-26 | when nobody waits any more the cursor stands where this many workers get, whoever did what |
| WorkQueue.MapWithConcurrency | packages/adapters/timetable-lgu/src/queue.ts:6-28 | for every order in which waits end: it terminates, never has more than max(1, min(limit, n)) calls in flight, starts exactly the indices up to the reach, each once and in order, fills each slot with its own result, and fails exactly when one of those calls rejects |
| WorkQueue.NothingStops | packages/adapters/timetable-lgu/src/queue.ts:6-28 | with nothing undefined and nothing rejecting every index is done |
| WorkQueue.ReachesTheEnd | packages/adapters/timetable-lgu/src/queue.ts:18-22 | every index is reached exactly when before each of them fewer items stopped a worker than there are workers |
| WorkQueue.TailLeftUndone | packages/adapters/timetable-lgu/src/queue.ts:18-22 | with as many stoppers in front as workers, everything behind them is left undone |
| WorkQueue.UndefinedFirstItem | packages/adapters/timetable-lgu/src/queue.ts:18-19 | a list of any length that one worker leaves wholly undone, with nothing reported |
| WorkQueue.StartedOnce | packages/adapters/timetable-lgu/src/queue.ts:18-22 | the indices started are increasing, so each once, and are those with an item |
| RateLimit.Limiter.RateLimit | apps/web/lib/rate-limit.ts:8-17 | the call is admitted, and the window left behind, as specified |
| RateLimit.EveryWindowBounded | apps/web/lib/rate-limit.ts:8-17 | what an open window says of the calls admitted so far, over every run in time order |
| RateLimit.SlidingBound | apps/web/lib/rate-limit.ts:8-17 | any half-open interval of a window's length sees at most 2L - 1 admitted calls with a key |
| RateLimit.BoundIsReached | apps/web/lib/rate-limit.ts:8-17 | for every limit and every window of at least two milliseconds a burst reaches 2L - 1 |
| RateLimit.KeysApart | apps/web/lib/rate-limit.ts:6-16 | what a key has left is what its own calls alone would leave |
| RateLimit.QuietIsReadmitted | apps/web/lib/rate-limit.ts:10-13 | a key quiet for a window is let in again |
| Crawl.Crawler.CrawlDegree | packages/adapters/timetable-lgu/src/fetch.ts:68-109 | one degree: exactly the visits it offers, in order, or a block among them |
| Crawl.Crawler.CrawlSemester | packages/adapters/timetable-lgu/src/fetch.ts:57-110 | one semester, likewise |
| Crawl.CrawlPortal | packages/adapters/timetable-lgu/src/fetch.ts:48-113 | fails when the panel does or lists nothing, and otherwise exactly when something offered answers with a block; otherwise returns what was fetched and what was lost, in portal order |
| Crawl.OfferedIsVisited | packages/adapters/timetable-lgu/src/fetch.ts:57-109 | the timetables asked for are exactly the sections under dropdowns that opened, within the caps |
| Crawl.EveryVisitCounted | packages/adapters/timetable-lgu/src/fetch.ts:57-112 | unless blocked every visit is a section, an opened dropdown, one anomaly or one skip, and nothing else |
| Crawl.VisitLandsOnce | packages/adapters/timetable-lgu/src/fetch.ts:57-112 | what one visit adds, and that everything before and after it comes before and after |
| Crawl.FailedDropdown | packages/adapters/timetable-lgu/src/fetch.ts:61-87 | a dropdown that fails costs one anomaly and nothing below it is asked for |
| Slugs.SlugifyIsSlug | packages/adapters/timetable-lgu/src/normalize.ts:35-39 | whatever the title, its code is words of lower case letters and digits with single hyphens between |
| Slugs.SlugIsItsOwnCode | packages/adapters/timetable-lgu/src/normalize.ts:35-39 | exactly the slugs are their own codes, so making a code twice makes it once |
| Normalize.ParseTimetable | packages/adapters/timetable-lgu/src/normalize.ts:47-94 | the loop with its cursor yields the slot of each cell at its place on the grid |
| Normalize.ClockReadsBack | packages/adapters/timetable-lgu/src/normalize.ts:30-31 | a grid time passes the schema exactly between 00:00 and 99:59, and reads back as itself |
| Normalize.GridSlotSaysWhere | packages/adapters/timetable-lgu/src/normalize.ts:60-80 | a slot timed by the grid says exactly where its cell stands |
| Normalize.OwnTimesWin | packages/adapters/timetable-lgu/src/normalize.ts:69-80 | a cell with times of its own says those, wherever the grid puts it |
| Normalize.CellsInOrder | packages/adapters/timetable-lgu/src/normalize.ts:60-64 | with positive colspans each cell ends before any later one starts |
| Normalize.GridSlotsApart | packages/adapters/timetable-lgu/src/normalize.ts:60-92 | grid-timed slots of a row are in order, apart, and none before 08:00 |
| Batch.PutAllKeeps | packages/adapters/timetable-lgu/src/normalize.ts:98-101 | an insertion-ordered map lists each key once, exactly the keys put, and only values put |
| Batch.LastPutWins | packages/adapters/timetable-lgu/src/normalize.ts:122-123 | the last value put under a key is the one listed |
| Batch.NormalizeRecords | packages/adapters/timetable-lgu/src/normalize.ts:97-156 | the loops build the specified batch |
| Batch.BatchIsClosed | packages/adapters/timetable-lgu/src/normalize.ts:97-156 | every entry's term, section, course and teacher, and every section's program and term, are in the batch |
| Batch.BatchCounts | packages/adapters/timetable-lgu/src/normalize.ts:97-156 | an entry a slot, a section a section, an unknown an anomaly; each code and teacher listed once |
| Batch.SectionCodesTellApart | packages/adapters/timetable-lgu/src/normalize.ts:113 | section codes tell sections apart when degree and semester values hold no colon |
| Chips.FreeWindowToday | apps/web/lib/chips/signals.ts:175-192 | the loop finds the longest qualifying gap between neighbours in start order, the first on ties |
| Chips.AnswerIsRightExactlyWhen | apps/web/lib/chips/signals.ts:175-192 | for every day of well formed classes the answer is the longest free window, the earliest on ties, or none when nothing is free, exactly when the first longest qualifying gap between neighbours in start order, if there is one, starts after a class no earlier one outlasts |
| Chips.GapIsFreeExactlyWhen | apps/web/lib/chips/signals.ts:182-189 | a qualifying gap meets no class exactly when the class it starts after is not outlasted |
| Chips.WindowIsTheLongestFree | apps/web/lib/chips/signals.ts:172-192 | so when no class outlasts a later one the answer is right |
| Chips.DisjointEndInOrder | apps/web/lib/chips/signals.ts:172-192 | classes that do not overlap are such |
| Chips.NestedClassIsMissed | apps/web/lib/chips/signals.ts:182-189 | on a day with classes 09:00-17:00, 10:00-11:00 and 14:00-15:00 the scan answers 11:00 to 14:00, when the long class is on and nothing is free at all |
| Chips.GridTimesReadBack | apps/web/lib/chips/signals.ts:71-78 | a time written by the timetable grid is read back here as itself exactly when it lies within the day, and refused otherwise |
| Polls.PollTables.WritePollOptions | packages/modules/communities/src/polls.ts:52-61 | fresh options start at zero and every count stays its votes |
| Polls.PollTables.VotePoll | packages/modules/communities/src/polls.ts:112-151 | which refusal and when; otherwise the one vote is recorded, every option's count stays its vote rows, and the view answered is of the new state with the vote marked |
| Polls.TotalIsVoters | packages/modules/communities/src/polls.ts:85-97 | a poll's total is the number of people who voted in it |
| Polls.SharesNearHundred | packages/modules/communities/src/polls.ts:87-92 | whenever anyone voted, the n shares shown add up to within n halves of a hundred |
| Fees.FeeAndNetGrow | packages/core/src/payments/index.ts:85-93 | up to a full rate, fee and net are never negative and grow with the amount |
| Fees.SplittingSavesLessThanAPaisaEach | packages/core/src/payments/index.ts:85-88 | the fees of parts add up to at most the fee of the whole, and fall short by less than one paisa a part |

## Left out

- CommentTree.ReadTreeIsPreorder: takes the rows in the order the query returns them, which may be any; the collation of `order by path` is not modelled, so ties between equal keys follow that order whatever it is.
- Comments.Board.EditComment: the row that keeps the previous text also gets a time, from the database's own clock, which is not kept.
- Utf8.EncodeDecode: texts are sequences of code points, so lone surrogates, which JavaScript strings can hold and encodes as replacement characters, are not texts here.
- Comments.Board.CreateComment: the filter's verdict, notifications and the gate's answer are parameters, the body arrives trimmed, and a blank (empty text) parent id is taken as a missing one by the caller.
- Cursors.DecodeOfEncode: Node skips characters outside the base64url alphabet where the model answers that there is no cursor; no cursor the feed writes has any.
- Feed.CursorNamesPost: is about posts whose columns survive their formats, which `CursorFormats.CursorsCarryPosts` shows of the formats in use when creation times are in whole milliseconds. Posts written by the application have such times (packages/modules/communities/src/posts.ts:282); rows inserted with the column's own default, as scripts/demo/seed.ts:293 does, hold microseconds, and `Feed.RoundedTimeSkips` says what is lost for them.
- CursorFormats.IsoCarries: only texts as they are written are read; the other date, number and id texts that JavaScript and the database read occur only in cursors somebody made up.
- Feed.PageTakesFront: the window of "top" is fixed while paging, and the ordering among posts pinned at the same instant follows the rows.
- Feed.ArrivalsNeverDisturb: removals are covered by `Feed.NothingRepeats` and `Feed.NothingDropped` only; with them the pages are no longer a prefix of what the first one saw.
- Feed.ChaseShowsAll: the rising sort is not pageable and divides in floating point, so it is not modelled.
- TenantRouting.TenantOrigin: case folding is that of ASCII, the blank test covers ASCII blanks, and the clause comparing with `::1` can never hold because the host is cut at its first colon.
- Middleware.Handle: URL parsing (default ports, dot segments, host normalisation by the URL setter) and the matcher list are not modelled.
- Registry.TenantRegistry.Load: of the configuration schema only the slugs and aliases are modelled, with their length and shape; names, colours, domains and settings are not.
- Percent.DecodeOfEncode: texts are sequences of code points without surrogates, on which the encoder never throws.
- Recents.LocalStorage.WriteLocalRecent: the round trip through JSON is taken to be exact, and of the entry check only the relative link can fail.
- Votes.VoteTables.VotePost: the ranking formulas (logarithms, powers, the Wilson bound) are parameters of which only the values without votes are used; rates of recent votes are parameters.
- Karma.KarmaTables.Vote: the session's actor and tenant are parameters, one tenant is modelled, and integer columns do not overflow.
- KarmaRebuild.RebuildDrift: holds for every order of the rows, of which the rebuild's own order by creation time is one; the cap of the rebuild is one number.
- KarmaRebuild.WithinTheCap: where the clamp acts both ways within one run the condition is sufficient only, since what it kept back can cancel (`KarmaRebuild.ClampsCanCancel`).
- Moderation.Tables.ReportItem: notes and reasons of a report, the flag raised about people and notifications are not kept; the threshold is a parameter, and the results over runs take it as fixed.
- Moderation.Tables.MovePin: the order of the pins is what the query answered, ties in any order, and is a parameter.
- ModerationRuns.PinsStayNearTheCap: steps of a run do not include moving pins, which never changes which pins are live.
- Membership.Register.CreateCommunity: role definitions are taken to be present, as creating a community syncs them first; the permissions roles grant are those of the shipped definitions that these operations ask for.
- Membership.Register.JoinCommunity: whether the caller is banned covers here and tenant wide in one answer.
- WorkQueue.MapWithConcurrency: `fn` is a function of item and index; when one rejects, the caller sees the first rejection while other workers go on, and the model waits for them.
- RateLimit.Limiter.RateLimit: time is an integer of milliseconds, nondecreasing over a run; the choice of a client's key from proxy headers is not modelled.
- Crawl.CrawlPortal: the portal answers a request the same way throughout one crawl; HTML option lists are parsed outside the model.
- Normalize.ParseTimetable: cells and their texts are as read from the page; how a page becomes rows and how a time is found in a cell's text are not modelled. A negative colspan moves the grid back, which the ordering results exclude.
- Slugs.SlugifyIsSlug: letters outside ASCII are never lower case letters here; a few of them fold to ASCII in JavaScript.
- Chips.FreeWindowToday: times arrive without blanks around them.
- Chips.AnswerIsRightExactlyWhen: is about classes that end after they start; the code does not check it.
- Polls.SharesNearHundred: shares are rounded exactly from rationals; JavaScript divides in floating point first.
- Fees.FeeAndNetGrow: amounts are unbounded integers; above 2^53 the product in JavaScript is not exact.
- Row-level security, concurrent transactions and the views that mask authors are left out: each transaction is one step and sees the whole table.
- Bans, mutes, locks, crossposts, flairs, rules, saved items, search, notifications and settings are left out: thin branch tables over one row each.
- The identity module, sessions, payments beyond the fee, the course catalogue, rides, lost and found, the marketplace and all pages are left out.
