# Apex Arena leaderboard — a Dafny model

Apex Arena keeps its players in a durable table. It can also keep a score-ordered
cache beside it, a Redis sorted set named `leaderboard:global`. The admin
routes (`POST`, `PUT` and `DELETE /api/players`) validate a body, write
the table, and then mirror the new score into the sorted set. `GET
/api/leaderboard/top` reads the ids in rank order from the sorted set, loads
their rows from the table and keeps the sorted set's order. When there is no
cache, or the range is empty, it asks the table for its rows by score. A cache
client exists only when `REDIS_URL` carries a `redis://` or `rediss://` URL.
Two guards stand in front of the routes: a token check and an admin-role
check.

The browser side contributes:

- an in-memory toast store: a reducer over at most 20 toasts, a removal
  queue, an id counter and listeners;
- the players page's search, status filter, sort and rank badge;
- the admin form's defaults and achievement list;
- the admin page's statistics and request bodies;
- the mapping between URLs and pages.

The model has one module per source file, plus two helper modules:

| module | file | models |
|---|---|---|
| `Wrappers` | wrappers.dfy | `Option` and `Result` |
| `Text` | text.dfy | JavaScript `trim`, ASCII `toLowerCase`, `includes`, `replace`, `split(..).pop()`, `parseInt`, `toString` |
| `PlayerSchema` | player_schema.dfy | the player row, the body schema and the listing's sort parameter (`server/src/routes/players.ts`) |
| `Ranking` | ranking.dfy | the `/top` handler on given store answers (`server/src/routes/leaderboard.ts`) |
| `PlayerStore` | player_store.dfy | the table and the sorted set as one class, with create, update, delete and the ranked read |
| `RedisConfig` | redis_config.dfy | `server/src/redis.ts` |
| `Auth` | auth.dfy | `server/src/middleware/auth.ts` |
| `Toasts` | toasts.dfy | `src/components/ui/use-toast.tsx` |
| `PlayerList` | player_list.dfy | `src/pages/Players.tsx` |
| `PlayerForm` | player_form.dfy | `src/components/admin/PlayerForm.tsx` |
| `Admin` | admin.dfy | `src/pages/Admin.tsx` |
| `Pages`, `PageUrls` | pages.dfy, page_urls.dfy | `src/pages/index.tsx`, `src/utils/index.ts` |

The two external stores appear as values:

- The table is a `map<string, Player>`.
- The sorted set is a `map<string, int>`, from member to score.
- The orders the two stores hand back are parameters of the read:
  - `ranking` is the sorted set's descending order, constrained by `IsMirrorListing`.
  - `byScore` is the table's `total_score` order, constrained by `IsScoreListing`.
  - Ties may come in any order.

The central invariant is `PlayerStore.Consistent`:

- rows are keyed by their ids;
- every row satisfies the schema;
- usernames are unique;
- when a cache client exists, the sorted set holds exactly the table's ids with their scores.

Every mutation keeps this invariant. Under it, the cached read returns the
top rows by score. It has the same score sequence as the table's own read
(`Ranking.CachedMatchesFallback`).

The service class `PlayerStore.RankingService` separates the two halves of
the invariant:

- It starts from a seeded table and an empty sorted set, because the seed
  script writes only the table.
- It always keeps the table constraints.
- The sorted set is in step (`InStep`) only when there is no cache or nothing
  was seeded. A mutation keeps it in step once it is, and the top-rows
  promise of its read holds only then.

With players scoring 50, 80 and 65, the top two are the 80 and 65 players:
the read orders by score alone (`PlayerStore.ConsistentReadIsTop`).

Two more behaviours follow the code as written:

- **Empty-string dismiss.** A DISMISS with the empty string as id queues every
  toast for removal, because `if (toastId)` is false. It closes only the
  toasts whose id is empty, because the test there is `toastId === undefined`.
  `Toasts.DismissQueued` and `Toasts.Reduce` keep both halves. Ids from the
  counter are never empty.
- **Prisma negative `take`.** It returns the last rows; `Ranking.Take`
  models this.

## Model

| member | source | states |
|---|---|---|
| `Text.ParseInt` | server/src/routes/leaderboard.ts:11 | `parseInt(.., 10)` yields a number exactly when, after leading white space and an optional sign, at least one decimal digit follows |
| `Text.ParseIntOfNatToString` | server/src/routes/leaderboard.ts:11 | parsing the decimal text of a natural number gives that number back |
| `Text.ParseIntSkipsBlank` | server/src/routes/leaderboard.ts:11 | white space in front of the text does not change what is parsed |
| `Text.ParseIntOfText` | server/src/routes/leaderboard.ts:11 | after leading white space, leading zeros and the digits of `n`, any text not starting with a digit is ignored and the result is `n` |
| `Text.ParseIntOfSignedText` | server/src/routes/leaderboard.ts:11 | the same with a `-` or `+` sign in front of the digits; `-` negates the value |
| `Text.NatToStringInjective` | src/components/ui/use-toast.tsx:18-19 | different counter values have different decimal texts |
| `Text.TrimLower` | server/src/redis.ts:6-14 | trimming and lower-casing commute |
| `Text.RemoveFirst` | server/src/middleware/auth.ts:7 | `replace('Bearer ', '')` cuts out the first occurrence, keeping the text before and after it, and changes nothing when there is none |
| `Text.FirstOccurrence` | server/src/middleware/auth.ts:7 | the index found holds an occurrence and no earlier index does; none is found iff there is no occurrence |
| `Text.FirstOccurrenceAt` | server/src/middleware/auth.ts:7 | an occurrence with none before it is the one found |
| `Text.LastSegment` | src/pages/index.tsx:22 | `split('/').pop()` is the suffix after the last separator and holds no separator |
| `Text.FirstSegment` | src/pages/index.tsx:24 | `split('?')[0]` is the prefix before the first `?` and holds none |
| `Text.FirstSegmentWhole` | src/pages/index.tsx:24 | text without the separator is its own first segment |
| `PlayerSchema.ParseStatus` | server/src/routes/players.ts:17 | exactly the three status names are accepted, each naming its own status |
| `PlayerSchema.CheckInt` | server/src/routes/players.ts:13-16 | an optional number passes iff it is absent or an integer at or above the bound, and then it keeps its value |
| `PlayerSchema.CheckAvatar` | server/src/routes/players.ts:18-21 | the avatar passes iff absent, empty or a URL; an empty one becomes absent |
| `PlayerSchema.CheckStatus` | server/src/routes/players.ts:17 | a status passes iff absent or one of the three names, and then names its own status; an absent one is `active` for a full body and stays absent for a partial one |
| `PlayerSchema.Validate` | server/src/routes/players.ts:11-30 | a body is accepted iff every field rule holds (username required and non-empty unless partial); an accepted body keeps the username, country and `last_played` as sent, each number present exactly when sent and with its value, the status named by its text (active when a full body omits it, absent when a partial one does), and the avatar with an empty one made absent |
| `PlayerSchema.NewPlayer` | server/src/routes/players.ts:65-77 | the created row has the given id, the body's username, status, avatar and country, each number from the body or else its column default (0, 1, 0, 0), `last_played` only when non-empty, and satisfies every column constraint |
| `PlayerSchema.ApplyUpdate` | server/src/routes/players.ts:91-103 | the id stays; each field the body carries replaces the stored one and every other field is kept (`last_played` only when non-empty); a valid row stays valid |
| `PlayerSchema.ApplyUpdateLaws` | server/src/routes/players.ts:91-101 | an empty body changes nothing; applying the same body twice equals applying it once |
| `PlayerSchema.FullUpdateIsCreate` | server/src/routes/players.ts:65-75 | an update whose body carries every field gives exactly the row a create with that body stores under the same id |
| `PlayerSchema.CreatedRowCarriesBody` | server/src/routes/players.ts:11-30 | the row a create stores holds the posted values, and 0, 1, 0, 0 for numbers left out, active for a missing status, no `last_played` for a missing or empty one |
| `PlayerSchema.UpdatedRowCarriesBody` | server/src/routes/players.ts:89-103 | an update stores the posted value of exactly the fields the body carries and keeps every other field |
| `PlayerSchema.UuidIgnoresCase` | server/src/routes/players.ts:32 | the id test accepts the lower-cased form of an id exactly when it accepts the id |
| `PlayerSchema.LookupSortKey` | server/src/routes/players.ts:34-52 | a name is recognised iff it is one of the five sortable keys, and it maps to that key |
| `PlayerSchema.ParseSortRoundTrip` | server/src/routes/players.ts:45-56 | every allowed order is reached by its own `sort` parameter; a missing or empty parameter means `-created_at` |
| `PlayerSchema.ParseSortPolicy` | server/src/routes/players.ts:46-52 | descending iff the parameter starts with `-`; a known key is used as given, an unknown one falls back to `created_at` |
| `PlayerSchema.ParseSort` | server/src/routes/players.ts:46-52 | a missing or empty parameter is `created_at` descending; otherwise descending iff it starts with `-`; a parameter that is a known key's name gives that key, ascending |
| `Ranking.EffectiveLimit` | server/src/routes/leaderboard.ts:11 | a missing or empty `limit` is 100; a parsed limit is capped at 500; an unparsable one is `NaN` (`None`) |
| `Ranking.RangeCount` | server/src/routes/leaderboard.ts:15 | `ZREVRANGE 0 stop` returns `min(size, stop+1)` entries; a negative stop counts from the end |
| `Ranking.Flatten` | server/src/routes/leaderboard.ts:15-16 | the `WITHSCORES` reply alternates each member and its score |
| `Ranking.EvenPositions` | server/src/routes/leaderboard.ts:19-23 | the loop's result: exactly the reply's even positions, in order |
| `Ranking.EvenPositionsOfReply` | server/src/routes/leaderboard.ts:15-23 | the ids taken from a reply are exactly the ranking's members in rank order |
| `Ranking.Fetch` | server/src/routes/leaderboard.ts:27 | the hydration finds exactly the requested ids that have rows, with the table's rows |
| `Ranking.Present` | server/src/routes/leaderboard.ts:30 | the ids kept by `filter(Boolean)` are those found |
| `Ranking.PresentIsSubsequence` | server/src/routes/leaderboard.ts:29-30 | the ids kept are a subsequence of the ranked ids |
| `Ranking.ReorderDropsMissing` | server/src/routes/leaderboard.ts:29-30 | the reordered rows are the found rows, in ranked order, with missing ids dropped |
| `Ranking.Take` | server/src/routes/leaderboard.ts:36 | a non-negative `take` gives a prefix of the rows, a negative one a suffix, each of length `|take|` or the whole list when shorter |
| `Ranking.RankedReadBounded` | server/src/routes/leaderboard.ts:11-37 | with a limit of at least 1, the read succeeds and returns at most `min(limit, 500)` rows |
| `Ranking.ReadWithLimitBounded` | server/src/routes/leaderboard.ts:13-37 | either path returns at most `limit` rows when `limit >= 1` |
| `Ranking.CachedReadFollowsRanking` | server/src/routes/leaderboard.ts:13-31 | the cached path returns table rows in ranked order, dropping ids without a row |
| `Ranking.PresentFetch` | server/src/routes/leaderboard.ts:27-30 | filtering on the hydrated map keeps the same ids as filtering on the table |
| `Ranking.FallbackReadsTable` | server/src/routes/leaderboard.ts:35-37 | without a cache, or with an empty range, the read is the first `limit` rows by score: the top rows of the table |
| `Ranking.ListingPrefixIsTop` | server/src/routes/leaderboard.ts:36 | every prefix of a by-score listing holds distinct table rows, non-increasing, none below an omitted row |
| `Ranking.SyncedRankingIsListing` | server/src/routes/leaderboard.ts:15-30 | with the sorted set in step with the table, the rows of its members form a by-score listing of the whole table |
| `Ranking.SortedPermutationUnique` | server/src/routes/leaderboard.ts:36 | two non-increasing orderings of the same scores are equal |
| `Ranking.ListingsAgreeOnScores` | server/src/routes/leaderboard.ts:15-36 | any two by-score listings of a table have the same score sequence, whatever the tie order |
| `Ranking.CachedMatchesFallback` | server/src/routes/leaderboard.ts:13-37 | in a synced state both paths return the top `min(limit, size)` rows, with equal score sequences |
| `Ranking.CachedReadIsPrefix` | server/src/routes/leaderboard.ts:15-31 | with every ranked member in the table, the cached read is the first `limit` rows of the ranking |
| `Ranking.ZeroLimitReadsWholeRanking` | server/src/routes/leaderboard.ts:11-15 | as written, `?limit=0` asks for the range `0..-1` and returns every ranked row |
| `Ranking.ClampedLimit` | server/src/routes/leaderboard.ts:11 | the corrected limit is defined exactly when the original is, lies in 1..500, and equals the original when that is positive |
| `Ranking.CorrectedRankedRead` | server/src/routes/leaderboard.ts:11-37 | the corrected read fails exactly when the original does and never returns more than 500 rows |
| `Ranking.CorrectedReadAgrees` | server/src/routes/leaderboard.ts:11-37 | for every positive parsed limit the corrected read is the read as written |
| `PlayerStore.CreateOutcome` | server/src/routes/players.ts:62-85 | invalid body → `Invalid`; an id or username already taken → `Conflict` (table constraints); success iff the body is valid, the id is new and no other row holds the username, and then the new row is stored and, with a cache, its score is mirrored; a failure changes nothing |
| `PlayerStore.UpdateOutcome` | server/src/routes/players.ts:87-110 | a non-UUID id or an invalid body → `Invalid`; a missing row → `NotFound`; `Conflict` iff the new username is held by another row; success iff none of these, and then the row is updated and its new score mirrored; a failure changes nothing |
| `PlayerStore.DeleteOutcome` | server/src/routes/players.ts:112-126 | a non-UUID id → `Invalid`; a missing row → `NotFound`; otherwise the row leaves the table and, with a cache, the sorted set |
| `PlayerStore.DeleteStatus` | server/src/routes/players.ts:115-125 | 204 exactly on success, 404 exactly on a missing row |
| `PlayerStore.CreateKeepsConsistent` | server/src/routes/players.ts:77-82 | a create keeps the table valid, usernames unique and the sorted set in step |
| `PlayerStore.UpdateKeepsConsistent` | server/src/routes/players.ts:103-107 | an update keeps the same invariant |
| `PlayerStore.DeleteKeepsConsistent` | server/src/routes/players.ts:115-123 | a delete keeps the same invariant |
| `PlayerStore.MutationsAreLocal` | server/src/routes/players.ts:62-126 | no mutation touches another id's row or score |
| `PlayerStore.DeleteTwice` | server/src/routes/players.ts:112-126 | after a delete the id is gone from both stores; a second delete answers 404 and changes nothing |
| `PlayerStore.ReadRowsInTable` | server/src/routes/leaderboard.ts:27-37 | every row the read returns is the table's current row for its id |
| `PlayerStore.ConsistentReadIsTop` | server/src/routes/leaderboard.ts:10-38 | in a consistent state the read returns the top `min(limit, size)` rows by score |
| `PlayerStore.DeletedNeverRead` | server/src/routes/players.ts:116-123 | after a successful delete, no read returns the deleted player |
| `PlayerStore.UpdatedLeaderReadFirst` | server/src/routes/players.ts:103-107 | after an update makes a player the strict leader, the cached top-1 read is exactly that player's new row |
| `PlayerStore.LeaderFirst` | server/src/routes/leaderboard.ts:15 | a strict leader by score is first in the sorted set's order |
| `PlayerStore.ExtractIds` | server/src/routes/leaderboard.ts:19-23 | the loop collects exactly the reply's even positions |
| `PlayerStore.RankingService.constructor` | server/prisma/seed.ts:22-37 | the service starts from a seeded table that meets the table constraints and an empty sorted set; the sorted set is in step with the table iff there is no cache or nothing was seeded; the cache flag (server/src/redis.ts:4-19) is fixed for its lifetime |
| `PlayerStore.RankingService.Create` | server/src/routes/players.ts:62-85 | the new state and answer are those of `CreateOutcome`; the table constraints keep holding, and a sorted set in step with the table stays in step |
| `PlayerStore.RankingService.Update` | server/src/routes/players.ts:87-110 | the new state and answer are those of `UpdateOutcome`; the table constraints keep holding, and a sorted set in step with the table stays in step |
| `PlayerStore.RankingService.Delete` | server/src/routes/players.ts:112-126 | the new state and answer are those of `DeleteOutcome`; the table constraints keep holding, and a sorted set in step with the table stays in step |
| `PlayerStore.RankingService.TopRanked` | server/src/routes/leaderboard.ts:10-38 | the answer is the corrected ranked read: it fails only on an unparsable limit, holds at most 500 rows, and when the sorted set is in step with the table they are the top rows by score |
| `RedisConfig.Classify` | server/src/redis.ts:6-33 | a client exists iff the trimmed URL has the `redis`/`rediss` scheme in any case; it retries without limit and checks readiness; TLS without certificate checks iff `rediss`; no value or a blank one is "not set" |
| `RedisConfig.BlankUrlNoClient` | server/src/redis.ts:6-31 | a blank value behaves as a missing one |
| `RedisConfig.OtherSchemeNoClient` | server/src/redis.ts:26-29 | a non-blank value of another scheme is reported as invalid, with the trimmed value |
| `RedisConfig.ClassifyIgnoresCase` | server/src/redis.ts:8-14 | lower-casing the value changes neither the decision nor the options |
| `RedisConfig.TlsImpliesScheme` | server/src/redis.ts:8-14 | every TLS URL passes the scheme test |
| `Auth.ExtractToken` | server/src/middleware/auth.ts:6-7 | a non-empty cookie wins; otherwise the token is the header with its first `Bearer ` cut out; no token iff both are missing or empty |
| `Auth.BearerHeader` | server/src/middleware/auth.ts:6-7 | `Bearer <t>` yields `t` when there is no cookie |
| `Auth.HeaderWithoutBearer` | server/src/middleware/auth.ts:6-7 | a header without `Bearer ` anywhere is taken whole as the token |
| `Auth.HeaderCutsFirstBearer` | server/src/middleware/auth.ts:6-7 | `Bearer ` further into the header is cut out and the text on both sides kept |
| `Auth.CookieFirst` | server/src/middleware/auth.ts:6-7 | a non-empty cookie is used whatever the header says |
| `Auth.Authenticate` | server/src/middleware/auth.ts:5-21 | no token → 401 Unauthorized; a token that fails verification → 401 Invalid token; otherwise the verified payload is the user |
| `Auth.AdminCheck` | server/src/middleware/auth.ts:23-28 | passes iff the user's role is `admin`, else 403 Forbidden |
| `Auth.AdminChain` | server/src/routes/players.ts:62 | a request that fails the token check keeps its 401 and never gets 403; a verified user is admitted as itself iff its role is `admin`, else 403; 403 goes exactly to verified non-admins |
| `Auth.Exchange.RequireAuth` | server/src/middleware/auth.ts:5-21 | on success the user is attached and `next` runs once; otherwise the reply is set and `next` does not run |
| `Auth.Exchange.RequireAdmin` | server/src/middleware/auth.ts:23-28 | `next` runs once iff the role check passes, else the 403 reply is set |
| `Auth.RunAdminChain` | server/src/routes/players.ts:62 | the route body is reached iff the chained guards admit the request; otherwise the guard's reply is the answer |
| `Pages.LowerNameIsLower` | src/pages/index.tsx:26-28 | the lower-cased page names |
| `Pages.PageSegment` | src/pages/index.tsx:18-25 | the segment is the part before the first `?` of the part after the last `/`, once one trailing `/` is dropped; it holds neither `/` nor `?` |
| `Pages.FindPage` | src/pages/index.tsx:26-28 | finds a page whose name matches case-insensitively, or none when no page matches |
| `Pages.GetCurrentPage` | src/pages/index.tsx:17-30 | the page whose name matches the segment, otherwise Leaderboard |
| `Pages.GetCurrentPageMatches` | src/pages/index.tsx:17-30 | a segment naming a page in any case selects that page |
| `Pages.RootIsLeaderboard` | src/pages/index.tsx:17-30 | `/` and the empty path show the Leaderboard |
| `Pages.DoubleSlash` | src/pages/index.tsx:19-22 | only one trailing `/` is removed, so a path ending in `//` shows the Leaderboard |
| `Pages.TrailingSlash` | src/pages/index.tsx:19-21 | a single trailing `/` does not change the page |
| `PageUrls.CreatePageUrl` | src/utils/index.ts:2-9 | the URL starts with `/`; it is `/` iff the trimmed, lower-cased name is `leaderboard` or empty; otherwise it is `/` and the name as given |
| `PageUrls.PlainSegment` | src/pages/index.tsx:18-25 | a name without `/` or `?` is its own segment |
| `PageUrls.UrlRoundTrip` | src/utils/index.ts:2-9 | routing a built URL selects the same page as routing the bare name |
| `PageUrls.RootNameIsLeaderboard` | src/utils/index.ts:5-6 | names that build `/` route to the Leaderboard |
| `PageUrls.SlashSegment` | src/pages/index.tsx:22 | the segment of `/name` is `name` |
| `PageUrls.PageRoundTrip` | src/utils/index.ts:2-9 | every page's URL routes back to that page |
| `Toasts.WithoutKeeps` | src/components/ui/use-toast.tsx:121 | the filter keeps exactly the toasts with another id, each as often as before |
| `Toasts.WithoutAppend` | src/components/ui/use-toast.tsx:121 | the filter distributes over concatenation, so the kept toasts stay in their order |
| `Toasts.WithoutAbsent` | src/components/ui/use-toast.tsx:121 | with no toast carrying the id, the list is unchanged |
| `Toasts.Reduce` | src/components/ui/use-toast.tsx:84-127 | ADD puts the toast first and keeps at most 20, dropping from the tail; UPDATE and DISMISS keep the ids in order; no other action grows the list |
| `Toasts.DismissQueued` | src/components/ui/use-toast.tsx:104-105 | a non-empty id queues just that id; no id, or the empty one, queues every current toast's id |
| `Toasts.ReduceKeepsBound` | src/components/ui/use-toast.tsx:86-90 | no action takes the list past 20 |
| `Toasts.UpdateTouchesOnlyTarget` | src/components/ui/use-toast.tsx:92-98 | UPDATE merges the patch into the matching toasts and leaves the others, the length and the order unchanged |
| `Toasts.DismissClosesTarget` | src/components/ui/use-toast.tsx:100-113 | DISMISS closes the targeted toasts (all without an id) and changes nothing else |
| `Toasts.RemoveDeletesTarget` | src/components/ui/use-toast.tsx:115-122 | REMOVE deletes exactly the toasts with the id, keeping every other toast as often as before (the list unchanged when none has the id; `Toasts.WithoutAppend` gives the order), or all toasts without an id |
| `Toasts.DismissIdempotent` | src/components/ui/use-toast.tsx:100-113 | dismissing twice is dismissing once |
| `Toasts.Notifications` | src/components/ui/use-toast.tsx:136 | one notification per listener, in order, each with the new state |
| `Toasts.ToastStore.constructor` | src/components/ui/use-toast.tsx:130-132 | the store starts empty with the counter at 0 |
| `Toasts.ToastStore.GenId` | src/components/ui/use-toast.tsx:16-20 | the counter goes up by one and the id was never handed out before |
| `Toasts.ToastStore.AddToRemoveQueue` | src/components/ui/use-toast.tsx:65-74 | the id is queued; queuing an id twice queues it once |
| `Toasts.ToastStore.ClearFromRemoveQueue` | src/components/ui/use-toast.tsx:76-82 | the id leaves the queue, if it was there |
| `Toasts.ToastStore.Dispatch` | src/components/ui/use-toast.tsx:134-137 | the state becomes the reducer's result; a DISMISS first queues its ids; every listener is told the new state, in order; at most 20 toasts |
| `Toasts.ToastStore.Show` | src/components/ui/use-toast.tsx:141-168 | a fresh id, an open toast with it at the front, the queue unchanged, and every listener told the new state |
| `Toasts.ToastStore.UpdateOne` | src/components/ui/use-toast.tsx:144-148 | an UPDATE for the toast's own id; ids and queue unchanged; every listener told the new state |
| `Toasts.ToastStore.DismissOne` | src/components/ui/use-toast.tsx:150-153 | the toast is closed and (for a non-empty id) queued again after its timer is cancelled; every listener told the new state |
| `Toasts.ToastStore.TimerFires` | src/components/ui/use-toast.tsx:68-71 | the id leaves the queue, no toast with that id remains and the others stay; every listener told the new state |
| `Toasts.ToastStore.Subscribe` | src/components/ui/use-toast.tsx:173-174 | the listener is appended |
| `Toasts.ToastStore.Unsubscribe` | src/components/ui/use-toast.tsx:175-178 | the first registration of the listener is removed, or nothing when it is not registered |
| `PlayerList.KeepKeeps` | src/pages/Players.tsx:59-64 | the filter keeps exactly the matching players, each as often as before |
| `PlayerList.KeepAppend` | src/pages/Players.tsx:59-64 | the filter distributes over concatenation, so the kept players stay in their order |
| `PlayerList.SearchFilter` | src/pages/Players.tsx:57-65 | a blank term keeps everyone; otherwise a player is kept iff its non-empty username or country, lower-cased, contains the lower-cased, trimmed term |
| `PlayerList.ApplyStatusFilter` | src/pages/Players.tsx:68-70 | `all` keeps everyone; a status keeps exactly the players with it |
| `PlayerList.SearchIgnoresTermCase` | src/pages/Players.tsx:57-58 | the search gives the same result for a term and its lower-case form |
| `PlayerList.LexTotal` | src/pages/Players.tsx:78 | the string order is total |
| `PlayerList.LexTrans` | src/pages/Players.tsx:78 | the string order is transitive |
| `PlayerList.LexAntisymmetric` | src/pages/Players.tsx:78 | two strings each at most the other are equal |
| `PlayerList.Compare` | src/pages/Players.tsx:73-86 | by a number key, negative iff `a`'s value (0 when missing) is larger and 0 iff equal; by username, 0 iff equal and negative iff `a` comes first |
| `PlayerList.CompareAntisymmetric` | src/pages/Players.tsx:73-86 | swapping the players flips the comparator's sign |
| `PlayerList.CompareFlip` | src/pages/Players.tsx:73-86 | when `a` does not sort strictly before `b`, `b` may stand before `a` |
| `PlayerList.InOrderTrans` | src/pages/Players.tsx:73-86 | the comparator's order is transitive for every key |
| `PlayerList.SortedNonIncreasing` | src/pages/Players.tsx:75-82 | sorted by a numeric key means non-increasing, missing values counting as 0; by username, ascending |
| `PlayerList.Insert` | src/pages/Players.tsx:73-86 | inserting adds exactly one element and keeps a sorted list sorted |
| `PlayerList.SortBy` | src/pages/Players.tsx:73-86 | the sorted list is a permutation of its input and sorted by the comparator |
| `PlayerList.FilterAndSort` | src/pages/Players.tsx:53-89 | the shown list is sorted and is a permutation of the filtered list, and every shown player passes both filters |
| `PlayerList.FindIndex` | src/pages/Players.tsx:105 | `findIndex`: the first index with the id, or -1 iff there is none |
| `PlayerList.DisplayedRank` | src/pages/Players.tsx:222 | the badge is 1 + the first index in the loaded list holding the player's id, or 0 iff no entry has it |
| `PlayerList.ShownRankFromLoadedList` | src/pages/Players.tsx:222 | a shown player's badge is 1 + its first index in the loaded list, not its place in the filtered one |
| `PlayerForm.Initial` | src/components/admin/PlayerForm.tsx:58-75 | with no player the values are the defaults; otherwise each field is the player's value when present and the default when missing, and the status is the player's |
| `PlayerForm.InitialShowsPlayer` | src/components/admin/PlayerForm.tsx:60-73 | a player with every field present is shown exactly as it is |
| `PlayerForm.InitialFallsBackToDefaults` | src/components/admin/PlayerForm.tsx:38-50 | a player with no fields gets the defaults (level 1, zero counters, empty strings and list) |
| `PlayerForm.AddAchievement` | src/components/admin/PlayerForm.tsx:85-94 | the trimmed value is appended and the input cleared iff it is non-empty and new; otherwise nothing changes; no duplicates are introduced |
| `PlayerForm.RemoveAchievement` | src/components/admin/PlayerForm.tsx:96-101 | every copy of the value goes, all other entries stay with their counts |
| `PlayerForm.RemoveAbsent` | src/components/admin/PlayerForm.tsx:99 | removing a value not in the list changes nothing |
| `PlayerForm.RemoveAppend` | src/components/admin/PlayerForm.tsx:99 | removal distributes over concatenation |
| `PlayerForm.AddThenRemove` | src/components/admin/PlayerForm.tsx:85-101 | removing a value just added restores the list |
| `PlayerForm.ClampLevel` | src/components/admin/PlayerForm.tsx:172 | the level is at least 1, the entry itself when it is at least 1, and 1 for an unreadable entry |
| `PlayerForm.FormState.constructor` | src/components/admin/PlayerForm.tsx:77-78 | the form starts from the initial values and an empty input |
| `PlayerForm.FormState.AddAchievementClicked` | src/components/admin/PlayerForm.tsx:85-94 | the list and input become those of `AddAchievement`; no other field changes |
| `PlayerForm.FormState.RemoveAchievementClicked` | src/components/admin/PlayerForm.tsx:96-101 | the list becomes that of `RemoveAchievement`; no other field changes |
| `PlayerForm.FormState.LevelChanged` | src/components/admin/PlayerForm.tsx:172 | the level becomes the clamped entry, at least 1 |
| `Admin.SumAppend` | src/pages/Admin.tsx:133-134 | the sum over a concatenation is the sum of the sums |
| `Admin.SumLeftIsSum` | src/pages/Admin.tsx:133-134 | the left-to-right `reduce` adds up the same total as the reference sum |
| `Admin.CountActive` | src/pages/Admin.tsx:132 | the active count is at most the length, equal to it iff all are active, 0 iff none is |
| `Admin.CountActiveAppend` | src/pages/Admin.tsx:132 | the active count of a concatenation is the sum of the counts |
| `Admin.FilterCountsActive` | src/pages/Admin.tsx:132 | the length of the `status === "active"` filter is the active count |
| `Admin.GetStats` | src/pages/Admin.tsx:130-137 | total is the length; active is the number of active players; games and score are the sums with a missing value as 0 |
| `Admin.SumNonNegative` | src/pages/Admin.tsx:133-134 | sums of non-negative values are non-negative |
| `Admin.StatsOfConcat` | src/pages/Admin.tsx:130-137 | the statistics of two lists joined add up, field by field, active count included |
| `Admin.ToPlayerCreateKeepsFields` | src/pages/Admin.tsx:77-87 | the nine API fields pass through unchanged |
| `Admin.ToPlayerCreateDropsExtras` | src/pages/Admin.tsx:77-87 | the id, achievements and streaks never reach the body |
| `Admin.CreateFor` | src/pages/Admin.tsx:89-95 | the create body is the mapped form with `last_played` set to the click time, and nothing else changed |
| `Admin.UpdateFor` | src/pages/Admin.tsx:105-109 | no request iff there is no target id or it is empty; else an update of that id with the mapped body |
| `Admin.DeleteFor` | src/pages/Admin.tsx:119-122 | no request iff there is no target id or it is empty; else a delete of that id |

## Left out

- Prisma, ioredis and jsonwebtoken themselves. The table and the sorted set are maps. Their orderings are parameters. Token verification is a function parameter.
- The Prisma schema is not part of this model. These are assumed from the code and the form:
  - the column defaults: score 0, level 1, games 0;
  - a unique username;
  - a table-chosen id.
- The listing route's database `orderBy`: only the parsing of its `sort` parameter is modelled.
- Number coercion of request bodies. Values that cannot be read as a number are not modelled; bodies arrive as optional reals.
- Date and URL checks. `Date.parse`, `new Date(..)`, `z.string().url()` and the "now" timestamp of a create are parameters or plain strings.
- The error responses the server does not write itself. Validation errors and constraint conflicts are thrown and left to Express; the model gives them as `Invalid`/`Conflict` results and assigns no status code.
- Failures of the cache calls and retries. The code has no handler around them.
- Concurrency between requests. Every operation is one atomic step.
- The Redis connection's events and logging, and the console warnings.
- Toast timers. A queued id may later be removed by `TimerFires`; the delay is not modelled. The React hooks are left out; listeners are opaque handles.
- `Toasts.ToastStore.GenId`: the counter is unbounded; the `% Number.MAX_VALUE` wrap is not modelled.
- Floating point. Win rates, the `num` helper's parsing and non-integer form numbers are left out; form numbers are integers and an unreadable entry is `None`.
- `localeCompare`: modelled as code-unit lexicographic order, a total order.
- `toLowerCase`: changes ASCII letters only.
- `PlayerList.FilterAndSort`: the in-place `sort` of the copied array is modelled on values, as an insertion sort. The model does not capture aliasing or the engine's own algorithm.
- `PlayerList.SortBy`: the order among players with equal keys is not stated. JavaScript's `sort` is stable; the model promises only a sorted permutation.
- `PlayerStore.RankingService.TopRanked`: follows the corrected limit (`Ranking.ClampedLimit`), not the code as written. As written, a limit of 0 or below reads the whole ranking (`Ranking.ZeroLimitReadsWholeRanking`, `Ranking.RankedRead`).
- `PlayerStore.RankingService.TopRanked`: promises the top rows only while the sorted set is in step with the table. The seed script writes the table without touching the sorted set, so with a cache and a seeded table no such promise is made.
- `Ranking.RankedRead`: Redis takes the range stop as a signed 64-bit integer. A limit below -2^63 would be a Redis error; the model lets it count from the end like any negative stop.
- `Auth.HeaderCutsFirstBearer`: stated only for a prefix without the letter `B`. Other prefixes are covered by `Text.RemoveFirst`.
- The seed script's random values. `RankingService` takes any seeded table that meets the table constraints.
- Rendering, the HTTP clients, the auth routes and the other pages.

## Findings

| source | as written | input that shows it | evidently intended | confidence | as-written member | corrected member |
|---|---|---|---|---|---|---|
| server/src/routes/leaderboard.ts:11-15 | the limit is only capped from above, so 0 or a negative value reaches `ZREVRANGE 0 (limit-1)` with a negative stop, which counts from the end of the set | `GET /api/leaderboard/top?limit=0` with a cache holding 600 players returns all 600 rows, past the 500-row cap | at least one and at most 500 rows | not executed | `Ranking.ZeroLimitReadsWholeRanking` | `Ranking.CorrectedRankedRead` |
