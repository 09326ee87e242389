# TLE handles cog: a verified model

TLE is a Discord bot for Codeforces communities. Its handles cog links
Discord members to Codeforces handles. It keeps each linked member's rank
role in line with their best rating, keeps a ledger of rating and rank
achievements, and posts the rank changes after every contest. This project
models the bookkeeping core of that cog in Dafny, together with two helpers
of the bot's entry point, and proves the properties the code promises.

Modules, one per part of the program:

- `Common` (common.dfy): option and result types, and member, guild and handle identifiers.
- `Codeforces` (codeforces.dfy): the table of rated ranks and the rating-to-rank lookup. Also the user and rating-change records the API returns.
- `Achievements` (achievements.dfy): the per-member achievement rule of `_check_and_update_achievements`, its loop over a guild, and the ledger class. It also covers seeding a record from a rating history.
- `RankRoles` (rank_roles.dfy): the role diff of `update_member_rank_role`, and the guild-wide `_update_ranks` pass over a `Guild` class whose member roles are a `map<MemberId, set<string>>`.
- `Sync` (sync.dfy): the `sync_achievements` command. Its loop rewrites the ledger and re-runs the role reconciliation.
- `Display` (display.dfy): rating colours, name truncation, the pages of the handle list and the `pretty` window. Also the lists of the rank-update post: rank changes and top increases.
- `Trusted` (trusted.dfy): the Trusted-eligibility rule and the `grandfather` command's counters.
- `Redirects` (redirects.dfy): the fixed/failed summary of `_fix_and_report`.
- `Bootstrap` (bootstrap.dfy): `strtobool` and `no_dm_check` from the entry point.

The Codeforces client (tle/util/codeforces_api.py) is not part of this model.
Its rank table `cf.RATED_RANKS` is a parameter `t: seq<Tier>`. `ValidTable`
says what the lemmas assume about it: non-empty, strictly increasing lower
bounds, and distinct titles. `rating2rank` is given the contract "the highest
rank whose lower bound is at most the rating, else Unrated". The model also
takes a user's `rank` field to be `rating2rank(user.rating)`, or Unrated when
the user has no rating (`UserRank`). That is what the client computes when it
builds a user record; the property belongs to tle/util/codeforces_api.py, so
the model assumes it rather than proves it.

Calls to the Codeforces API and to Discord become parameters:

- `cf.user.info` is a map from handles to users.
- `cf.user.rating` is a map from handles to histories, or an `Option` where its failure is handled.
- A member the bot may not edit (`discord.Forbidden`) is in the guild's `unmanageable` set.
- Other HTTP failures of a role edit are a `failing` set.
- `guild.get_member` is membership in the guild's member map.

Timestamps are integers: Unix seconds.

## Model

| member | source | states |
|---|---|---|
| Achievements.ChangeByHandle | tle/cogs/handles.py:405 | the batch map has exactly one key per handle occurring in the contest's changes |
| Achievements.ChangeByHandleLast | tle/cogs/handles.py:405 | a handle maps to its last change in the batch |
| Achievements.AssessFlags | tle/cogs/handles.py:1157-1181 | `is_new_max` iff nothing is stored or the rating beats the stored max; `is_new_rank` iff nothing is stored or the stored title is in the table and the new rank is strictly above it (an unknown stored title gives false); a record is written iff a flag is set |
| Achievements.AssessWritten | tle/cogs/handles.py:1183-1197 | the written max is max(stored, new), or the new rating when the stored max is 0 or absent; the rank title is replaced only on a new rank |
| Achievements.AssessNoRegress | tle/cogs/handles.py:1161-1192 | the stored max never decreases and a known rank index never decreases (for a non-negative rating or a non-zero stored max) |
| Achievements.AssessIdempotent | tle/cogs/handles.py:1161-1192 | seeing the same rating again sets no flag and writes nothing |
| Achievements.RunAnnouncements | tle/cogs/handles.py:1144-1209 | announcements are only appended, at most one per link; each is for a present linked member whose handle is in the batch, with news, at rating 1200 or more |
| Achievements.PassAnnouncements | tle/cogs/handles.py:1144-1211 | every announcement of a pass is announceable in that sense, and there are no more announcements than links |
| Achievements.EarnedBy | tle/cogs/handles.py:1148-1209 | the announcement one link earns: one exactly when the member is present, the handle is in the batch, the rating is 1200 or more and `Assess` of the stored record writes, with the figures `Assess` computes |
| Achievements.PassEarned | tle/cogs/handles.py:1144-1211 | with each member linked once, the loop's announcements are the earned ones in link order, each computed from the record stored before the pass |
| Achievements.EarnedExact | tle/cogs/handles.py:1144-1209 | with each member linked once, an announcement is earned iff some link earns it, and no member is announced twice |
| Achievements.PassAnnouncementsExact | tle/cogs/handles.py:1144-1211 | with each member linked once: an announcement is made exactly for a present linked member whose handle is in the batch, whose rating is at least 1200 and whose stored record `Assess` rewrites, carrying the old max, ranks and flags `Assess` computes; at most one per member |
| Achievements.RunFrame | tle/cogs/handles.py:1144-1197 | no record is removed; only records of present members of this guild linked to a handle in the batch can change |
| Achievements.RunMonotone | tle/cogs/handles.py:1161-1197 | with non-negative ratings a pass never lowers any stored max or rank |
| Achievements.PassReplay | tle/cogs/handles.py:1144-1211 | delivering the same batch again writes nothing and announces nothing |
| Achievements.HistoryMax | tle/cogs/handles.py:1646 | the maximum over a rating history: attained by some change and at least every change |
| Achievements.RanksAchieved | tle/cogs/handles.py:1648 | the rank of every change of the history, in order |
| Achievements.HighestOf | tle/cogs/handles.py:1651-1654 | the highest rank achieved is one of them and no lower than any |
| Achievements.HighestRankIsRankOfMax | tle/cogs/handles.py:1644-1660 | the highest rank of a history is the rank of its maximum rating |
| Achievements.SeedFromHistory | tle/cogs/handles.py:1644-1660 | the record seeded from a non-empty history holds its maximum, and the title of that maximum's rank |
| Achievements.SeedOnLink | tle/cogs/handles.py:544-569 | on linking, with a non-empty history: the history's seed when its maximum is non-zero, and nothing when it is 0; with the history missing or empty: exactly the record (handle, fallback max, title of the current rank), where the fallback max is the best rating, else the current rating, else 0; written exactly when that max is non-zero and the rank is rated |
| Achievements.AchievementStore.UpdateUserAchievement | tle/cogs/handles.py:1194-1197 | inserts or replaces exactly the record of (member, guild) |
| Achievements.AchievementStore.CheckAndUpdateAchievements | tle/cogs/handles.py:1134-1211 | the loop leaves the ledger and returns the announcements that the specification function `Pass` gives |
| Codeforces.RatingToRank | tle/cogs/handles.py:1150 | the highest rank whose lower bound is at most the rating; Unrated iff the rating is below every bound |
| Codeforces.HighestAtMost | tle/cogs/handles.py:1150 | the highest position below k whose bound is at most the rating |
| Codeforces.UserRank | tle/cogs/handles.py:558 | the rank of a user's current rating, Unrated for none |
| Codeforces.IndexFrom | tle/cogs/handles.py:1174-1175 | `list.index`: the first position with that title, None exactly when absent |
| Codeforces.IndexOfRankTitle | tle/cogs/handles.py:1166-1175 | a rated rank's title is found at its own position; Unrated is not found |
| Codeforces.RankMonotone | tle/cogs/handles.py:1150 | a higher rating never gets a lower rank |
| Codeforces.RankOfBound | tle/cogs/handles.py:1150 | each lower bound is rated its own rank |
| RankRoles.DiffConverges | tle/cogs/handles.py:502-519 | after the edits the member holds no rank role but the target, holds the target if any, has lost Purgatory for a target above Expert, and keeps every other role |
| RankRoles.DiffIdempotent | tle/cogs/handles.py:515-519 | a second call with the same target makes no remove and no add call |
| RankRoles.DiffNoOpIff | tle/cogs/handles.py:515-519 | no call is made iff no held role is in the removal set and the target is held |
| RankRoles.RoleTarget | tle/cogs/handles.py:968-977 | the target is a rank title |
| RankRoles.RoleTargetIsRankTitle | tle/cogs/handles.py:970-976 | against a well-formed rank table: a target exists iff the role rating (`maxRating`, or `rating` when `maxRating` is falsy) exists and reaches the lowest bound; the target is the title of the tier whose bound is at most that rating and whose next tier's bound is above it |
| RankRoles.RequiredRoles | tle/cogs/handles.py:948-955 | a title is required iff it is some user's target |
| RankRoles.CollectRequiredRoles | tle/cogs/handles.py:948-955 | the loop collects exactly the required roles |
| RankRoles.MemberStep | tle/cogs/handles.py:978-980 | one call keeps the member set; a failed pass stays failed |
| RankRoles.MembersRun | tle/cogs/handles.py:968-980 | the member loop keeps the member set; a failed pass stays failed |
| RankRoles.PresentLinks | tle/cogs/handles.py:935-940 | exactly the links whose member is in the guild |
| RankRoles.UpdateRanksSpec | tle/cogs/handles.py:934-980 | `_update_ranks` as a function: checks first, then the member loop; the member set is kept |
| RankRoles.MembersRunUpTo | tle/cogs/handles.py:968-980 | once the pairs up to a member went through without a refusal, that member ends with its own diff applied, whatever the later pairs do |
| RankRoles.MembersRunAt | tle/cogs/handles.py:968-980 | after a completed loop each visited member ends with its own diff applied to its starting roles |
| RankRoles.MembersRunConverges | tle/cogs/handles.py:968-980 | after a completed loop each visited member holds its target and no other rank role |
| RankRoles.MembersRunIdempotent | tle/cogs/handles.py:968-980 | running the loop again succeeds, changes nothing, and every edit is empty |
| RankRoles.PrepareFailures | tle/cogs/handles.py:938-966 | no present link gives NoHandlesSet, an unknown handle HandleNotFound, and missing roles exactly the needed-and-absent titles; none of these is Forbidden |
| RankRoles.PrepareSuccess | tle/cogs/handles.py:943-977 | when the checks pass there is one pair per present link, with the link's target, which is an existing role |
| RankRoles.UpdateRanksErrors | tle/cogs/handles.py:934-980 | both error cases (and an unknown handle) leave every member's roles unchanged; a Forbidden ends the pass at an unmanageable member; a completed pass made one edit per present link |
| RankRoles.UpdateRanksConverges | tle/cogs/handles.py:934-980 | after a successful pass each present linked member holds exactly the role of their best rating among rank roles; a second pass succeeds and edits nothing |
| RankRoles.ForbiddenIsUnmanageable | tle/cogs/handles.py:978-980 | the loop fails only with Forbidden, on an unmanageable member |
| RankRoles.Guild.UpdateMemberRankRole | tle/cogs/handles.py:502-519 | the member's roles become the diff applied to the old roles; Forbidden (roles unchanged) for an unmanageable member when an edit is needed |
| RankRoles.Guild.UpdateRanks | tle/cogs/handles.py:934-980 | the new roles and the outcome are those of `UpdateRanksSpec` on the old roles |
| RankRoles.Guild.RankAll | tle/cogs/handles.py:968-980 | the member loop ends in the state `MembersRun` gives |
| Sync.SyncRecord | tle/cogs/handles.py:1644-1676 | the record written is the seed of a non-empty history; with an empty history, a record exists iff `maxRating` is positive and rated, holding that max |
| Sync.SyncRecordConsistent | tle/cogs/handles.py:1644-1672 | every record the sync writes names the rank of its own maximum |
| Sync.SyncTarget | tle/cogs/handles.py:1681-1693 | the role assigned is the role target when the guild has that role, else none |
| Sync.SyncRoleEdit | tle/cogs/handles.py:1679-1702 | a present member is edited by the rank-role diff; a refusal happens only for an unmanageable member |
| Sync.RoleStep | tle/cogs/handles.py:1679-1702 | the role half changes only roles and `roles_updated`, by at most one |
| Sync.LedgerStep | tle/cogs/handles.py:1644-1676 | the ledger half counts the pair once, as synced or skipped |
| Sync.SyncStep | tle/cogs/handles.py:1633-1709 | one iteration keeps the member set; an abort is final |
| Sync.SyncRun | tle/cogs/handles.py:1629-1709 | the loop keeps the member set; an abort is final |
| Sync.HandleOf | tle/cogs/handles.py:1612 | the handle stored for a member, None iff the member has none |
| Sync.SyncRunCounts | tle/cogs/handles.py:1624-1716 | every pair is counted once as synced, skipped or failed; failed counts exactly the pairs whose API calls fail; roles are updated only for the others |
| Sync.SyncRunFrame | tle/cogs/handles.py:1657-1671 | only the ledger entries of this guild's listed members change |
| Sync.SyncRunRolesFrame | tle/cogs/handles.py:1679-1702 | a member not among the listed pairs keeps their role set |
| Sync.SyncRunConsistent | tle/cogs/handles.py:1644-1672 | a ledger whose entries name the rank of their maximum stays that way |
| Sync.SyncRunWrites | tle/cogs/handles.py:1644-1676 | over a whole run with each member listed once and no abort: every fetched member ends with the entry computed from their data, or keeps its old entry when none is computed |
| Sync.SyncStepWrites | tle/cogs/handles.py:1633-1702 | a fetched member ends with the computed entry and with the role diff applied when an edit is due; an abort names this member |
| Sync.SyncOutcomes | tle/cogs/handles.py:1610-1718 | no handle for a requested member, and an empty table, change nothing; a completed run counts each pair once |
| Sync.SyncAchievements | tle/cogs/handles.py:1598-1718 | the command leaves the ledger, the roles and the outcome that `SyncSpec` gives |
| Sync.SyncLoop | tle/cogs/handles.py:1629-1709 | the loop ends in the state `SyncRun` gives |
| Sync.SyncPair | tle/cogs/handles.py:1633-1709 | one pass of the loop body is one `SyncStep`: an API failure is counted, otherwise the ledger entry is written and the role reconciled |
| Sync.SyncLedger | tle/cogs/handles.py:1644-1676 | writes exactly the entry `SyncRecord` gives, if any |
| Sync.SyncMemberRole | tle/cogs/handles.py:1679-1702 | edits the roles exactly as `SyncRoleEdit` says |
| Display.InsertDesc | tle/cogs/handles.py:883-885 | insertion keeps the list sorted with non-increasing keys, adds one element, and adds nothing but it |
| Display.SortDesc | tle/cogs/handles.py:883-885 | the sorted list has non-increasing keys and the same length |
| Display.SortDescPermutes | tle/cogs/handles.py:883-885 | sorting is a permutation |
| Display.SortDescStable | tle/cogs/handles.py:1036-1038 | sorting is stable: the elements of each key keep their order |
| Display.RatingToColor | tle/cogs/handles.py:116-141 | black exactly for a missing rating |
| Display.Band | tle/cogs/handles.py:128-141 | the colour band is at most the number of boundaries |
| Display.ColorIdentifiesBand | tle/cogs/handles.py:116-141 | two ratings share a colour iff they lie in the same band between the boundaries 1200, 1400, 1600, 1900, 2100 and 2400 |
| Display.BandMonotone | tle/cogs/handles.py:128-141 | a higher rating is never in a lower band |
| Display.TruncateName | tle/cogs/handles.py:332-333 | at most 20 characters; short names unchanged; long ones are the first 19 and an ellipsis |
| Display.TruncateIdempotent | tle/cogs/handles.py:332-333 | truncating twice is truncating once |
| Display.Chunkify | tle/cogs/handles.py:320 | chunks of 15, only the last shorter and non-empty; no chunks exactly for no users |
| Display.ChunkifyFlatten | tle/cogs/handles.py:320 | the chunks concatenate back to the list |
| Display.ChunkRows | tle/cogs/handles.py:330-338 | the rows of one chunk, each numbered by `i + done` |
| Display.MakePages | tle/cogs/handles.py:319-343 | the pages concatenate to one row per user, numbered by position in the whole list; every page but the last has 15 rows |
| Display.PagesFollowChunks | tle/cogs/handles.py:319-343 | the pages follow `chunkify`: as many pages as chunks, each page as long as its chunk |
| Display.PrettyWindowSpec | tle/cogs/handles.py:897-920 | `max_page = ceil(n/10) - 1`; errors exactly for no rows and for an unlisted author without a page; a page is clamped to 0 or `max_page` with the notice; the neighbourhood starts at `max(0, author_idx - 4)` and shows the author; at most 10 rows |
| Display.KnownEntries | tle/cogs/handles.py:877-881 | at most one entry per link |
| Display.KnownEntriesExact | tle/cogs/handles.py:877-881 | an entry is listed iff its link's handle has a user record |
| Display.PresentEntries | tle/cogs/handles.py:888-891 | exactly the entries of present members |
| Display.PresentEntriesSorted | tle/cogs/handles.py:883-895 | dropping absent members keeps the rating order |
| Display.PrettyRows | tle/cogs/handles.py:877-895 | the rows are exactly the known (handle, rating) entries of members still in the guild, sorted by rating, highest first |
| Display.AuthorIndex | tle/cogs/handles.py:892-894 | the author's last row, None iff the author is not listed |
| Display.PageOfShows | tle/cogs/handles.py:892-920 | over sorted rows one image holds 1 to 10 of them in order, and the author when no page is given; a page is asked for exactly when the author has no row and none is given |
| Display.PrettyShows | tle/cogs/handles.py:855-920 | the image shows 1 to 10 rows in rating order, including the author when no page is given; a page is asked for exactly when the author is unlisted and none is given |
| Display.RankupCandidates | tle/cogs/handles.py:997-1001 | exactly the present, non-Purgatory linked members rated in the contest, with their change |
| Display.TopIncreases | tle/cogs/handles.py:1039-1043 | a prefix of at most 10, all with positive delta, stopping at the first non-positive one |
| Display.TopIncreasesBest | tle/cogs/handles.py:1036-1043 | over the delta-sorted list the selection is in non-increasing delta order and no left-out member has a larger delta; with fewer than 10 chosen every positive delta is chosen |
| Display.RankChanges | tle/cogs/handles.py:1016-1034 | only lines whose shown rank changed, at most one per candidate |
| Display.RankChangesExact | tle/cogs/handles.py:1016-1034 | the lines are exactly those of the candidates whose shown rank changed, in candidate order, each naming the candidate's member and handle, the rank shown before (Unrated for a first contest) and the rank of the new rating |
| Display.LinesAtExtend | tle/cogs/handles.py:1016-1034 | a candidate whose shown rank changed adds its own line at the end |
| Display.LinesAtSkip | tle/cogs/handles.py:1016-1034 | a candidate whose shown rank is unchanged adds no line |
| Display.DisplayableIffTitle | tle/cogs/handles.py:1011-1014 | two ratings display the same rank iff their rank titles are equal |
| Display.RankupLists | tle/cogs/handles.py:997-1038 | fails exactly with no candidate; the rank-change list is the rank-change lines of the candidates sorted by new rating; the increases list is sorted by delta over that same order |
| Display.TiesByNewRating | tle/cogs/handles.py:1008 | members with equal delta appear by new rating, highest first |
| Trusted.AnyQualifying | tle/cogs/handles.py:482-486 | eligible iff some change reached 1900 or more before 2024-09-11 00:00 UTC |
| Trusted.LateChangesIgnored | tle/cogs/handles.py:482-486 | changes at or after the cutoff never affect eligibility |
| Trusted.MaybeAddTrustedSpec | tle/cogs/handles.py:440-500 | the role only ever gains Trusted, and gains it exactly for a non-empty handle, a guild with the role, a member without it, a readable history that qualifies, and an editable member |
| Trusted.GrandStep | tle/cogs/handles.py:1528-1581 | a stopped pass stays stopped; the member set is kept |
| Trusted.GrandRun | tle/cogs/handles.py:1528-1581 | a stopped pass stays stopped; the member set is kept |
| Trusted.GrandfatherSpec | tle/cogs/handles.py:1487-1594 | the command as a function; the member set is kept |
| Trusted.GrandRunCounts | tle/cogs/handles.py:1515-1594 | processed = granted + skipped for Purgatory + skipped for join date + already Trusted + HTTP failures; every member processed unless stopped; no Purgatory skip without the role |
| Trusted.GrandRunOnlyAddsTrusted | tle/cogs/handles.py:1554-1567 | each member ends with the roles they had, possibly plus Trusted |
| Trusted.GrandRunGrantsEligible | tle/cogs/handles.py:1540-1567 | a member whose roles changed is on the roster, joined before 2025-04-21, lacked Trusted, was not in Purgatory (when the role exists), and was editable |
| Trusted.GrandRunGrantsAllDue | tle/cogs/handles.py:1528-1567 | unless the pass stops, every roster member who joined before 2025-04-21, held neither Trusted nor Purgatory (when the role exists) and is editable ends with Trusted |
| Trusted.GrandRunAdded | tle/cogs/handles.py:1559-1567 | with every roster member in the guild, `added` equals the number of members whose roles changed |
| Trusted.GrandRunStops | tle/cogs/handles.py:1568-1576 | the pass stops only at a roster member the bot may not edit |
| Trusted.Grandfather | tle/cogs/handles.py:1487-1594 | the method leaves the roles and reports the outcome that `GrandfatherSpec` gives |
| Redirects.PartitionCounts | tle/cogs/handles.py:736-744 | every entry is listed once, as fixed or as failed |
| Redirects.NoHandlesIffEmpty | tle/cogs/handles.py:746-748 | "No handles updated" exactly for an empty mapping |
| Redirects.FixedExact | tle/cogs/handles.py:738-744 | (old, new) is listed as fixed iff some entry of handle old resolved to handle new |
| Redirects.FailedExact | tle/cogs/handles.py:738-741 | a handle is listed as failed iff some entry of it did not resolve |
| Redirects.FixAndReport | tle/cogs/handles.py:736-756 | the loop builds the summary `ReportOf` gives |
| Bootstrap.Lower | tle/__main__.py:62 | lowers each character, keeping the length |
| Bootstrap.CaseVariantIffLower | tle/__main__.py:62 | a string spells a lower-case word in some letter case iff it lowers to that word |
| Bootstrap.StrToBoolSpec | tle/__main__.py:55-67 | true exactly for y/yes/t/true/on/1 in any case; false exactly for n/no/f/false/off/0 in any case; ValueError quoting the lowered value otherwise |
| Bootstrap.WordsDisjoint | tle/__main__.py:63-66 | no spelling is both true and false |
| Bootstrap.LowerIdempotent | tle/__main__.py:62 | lowering twice is lowering once |
| Bootstrap.StrToBoolCaseInsensitive | tle/__main__.py:62-67 | the result depends only on the lowered input |
| Bootstrap.StrToBoolExamples | tle/__main__.py:62-67 | "YES" is true, "Off" is false, "2" is an error |
| Bootstrap.NoDmCheck | tle/__main__.py:138-141 | true exactly when a guild is present; NoPrivateMessage exactly when it is not |

## Left out

- Image rendering (`get_gudgitters_image*`, `get_prettyhandles_image`, `_trim`), embeds, message texts and status edits: presentation only. `pretty` is modelled up to the rows it draws.
- The `rating_to_color` argument 'N/A' is folded into None. Colours are triples of integers.
- The Codeforces API and the user database: their answers are parameters, and the `user_achievement` table is the `AchievementStore` class. `cache_cf_user` calls are left out because they write a cache nothing here reads.
- tle/util/codeforces_api.py, tle/util/paginator.py and tle/constants.py are not part of this model. The rank table is a parameter. `paginator.chunkify` is assumed to slice consecutively. The Purgatory and Trusted role names are taken to be "Purgatory" and "Trusted". `rank.title_abbr` is not modelled.
- Concurrency: `asyncio.gather` over guilds, the listener lock, the `asyncio.sleep` pauses. Each guild's pass is modelled on its own.
- The call of `maybe_add_trusted_role` inside `update_member_rank_role` is a network side effect. It is not chained into the role diff. Its decision is `Trusted.MaybeAddTrusted` on its own.
- `_fix_and_report` calls `_set` for each fixed handle. That call (storing the handle and assigning the role) is not chained in, so `FixAndReport` models only the partition and the summary.
- The role-assignment tail of `_set` (lines 571-588), `refer`, `identify`, the gudgitters commands and `test_achievements` are left out: they are outside the bookkeeping modelled here.
- Other exceptions are out of scope unless listed. The model covers `HandleCogError` and the Codeforces API errors the code catches, plus the Discord exceptions it handles: `Forbidden` and `HTTPException`.
- `_update_ranks` calls `cf.user.info` and zips its answer with the members. The model assumes the answer lists the users in request order, one user per handle. A handle the API does not know raises, and the model represents this as `HandleNotFound`.
- Bootstrap.Lower: only ASCII letters are lowered. Python's `str.lower` also lowers other letters, but no other character lowers to a string made of an accepted word's letters (the Kelvin sign lowers to 'k', which no word contains; 'İ' lowers to 'i' plus a combining dot). So `StrToBool` accepts and rejects the same inputs as the source, and gives the same true or false. The error value is different: on an input with a non-ASCII letter that `str.lower` changes, the source quotes the fully lowered text ("Ä" gives 'ä', and 'İ' even changes the length), while the model's `InvalidTruthValue` keeps that letter unchanged.
- Achievements.AssessNoRegress and Achievements.RunMonotone: both assume a non-negative new rating (or a non-zero stored max). In the source a stored max of 0 is falsy, so a negative rating with a new rank would overwrite it with the lower rating. The real rank table gives a negative rating the lowest rank, so this cannot happen with Codeforces data.
- Achievements.PassReplay, Achievements.PassAnnouncementsExact and RankRoles.UpdateRanksConverges assume each member is linked once per guild. The user table guarantees this.
- Two places where the code goes beyond the comments:
  - The Trusted check runs inside `update_member_rank_role` for every target above Expert.
  - A `Forbidden` during `_update_ranks` ends the pass at that member. Members edited earlier keep their new roles; the model's `Forbidden` outcome records this.
