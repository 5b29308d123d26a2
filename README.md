# Tech-vibes feed generator: a verified model of its post engine

The feed generator listens to the Bluesky firehose, keeps a table of matching posts, scores them
by engagement and serves them as a custom feed. This project models its engine over that one
`post` table:

- **Ingestion** (`Subscription`). A create is kept only if all of these hold: it is not a reply,
  it has no language list or one that includes "en", its lower-cased text contains a keyword, it
  contains no negative keyword, and fewer than 500 posts have been accepted so far. A commit first
  deletes the deleted uris. It then inserts a zero-score row per kept create, ignoring rows whose
  uri is already present. The settings are reloaded once more than 10 s have passed.
- **Tech-vibes algorithm** (`VibesAlgorithm`). This covers the Hacker News score
  likes / (hours + 2)², the refresh pass, the stale-post eviction, the link builder, and the
  feed handler. The refresh pass visits every row last scored more than six minutes ago, newest
  first, and rescores each one whose post fetch succeeds; a row whose fetch is rejected keeps its
  score. The eviction deletes rows older than a day and a half that score below 0.1. The feed
  handler serves positive-score rows best first, puts the pinned posts in front and returns a
  numeric cursor.
- **Vibes feed** (`Vibes`). This is the older handler: it rescores the fifty newest posts with
  their like count, in order, until a fetch is rejected, which fails the request before any
  query. Otherwise it serves posts newest first with a time cursor.

Shared pieces:

- `Store` holds the row, the table as a map from uri to row, and the table's SQL statements.
- `Ranking` is `WHERE … ORDER BY … LIMIT` as a top-k selection. Rows that tie on every ORDER BY
  column come out in an unspecified order.
- `Text` models JavaScript's `toLowerCase`, `includes`, `split`, integer-to-string and
  `parseInt`.

The upstream `getPostThread` call is a parameter `fetch: uri -> Option<PostView>`, where `None`
stands for a rejected call. Timestamps are integer milliseconds. Scores are reals.

Two properties of the paging are proved as lemmas:

- The tech-vibes handler orders by score but bounds the next page by `first_indexed`, so a row
  can be served again on the page its own cursor asks for (`RowCanReappearOnNextPage`).
- The vibes handler's cursor carries only a time. A post that shares its time with the last post
  of a full page, but did not fit on it, is never served by following the cursor
  (`TiedPostIsSkipped`).

## Model

| member | source | states |
|---|---|---|
| Text.ToLower | src/subscription.ts:38-39 | the lower-cased text has the same length, each character lower-cased, and no upper-case letter left |
| Text.ToLowerIdempotent | src/subscription.ts:38-39 | lower-casing lower-cased text changes nothing |
| Text.Contains | src/subscription.ts:38-39 | `includes` is true exactly when the word occurs at some position of the text |
| Text.UpperCaseNeverInLowered | src/subscription.ts:38 | a word with an upper-case letter never occurs in lower-cased text |
| Text.Split | src/algos/vibes-algorithm.ts:123 | `split` yields at least one part and no part contains the separator |
| Text.JoinSplit | src/algos/vibes-algorithm.ts:123 | joining the parts with the separator gives the string back |
| Text.SplitWithoutSeparator | src/algos/vibes-algorithm.ts:123 | a string without the separator splits into itself alone |
| Text.SplitAtFirst | src/algos/vibes-algorithm.ts:123 | splitting at the first separator gives the part before it, then the split of the rest |
| Text.LexLeqTotal | src/algos/vibes.ts:11 | the text order behind `ORDER BY cid` relates any two strings |
| Text.LexLeqTransitive | src/algos/vibes.ts:11 | the text order is transitive |
| Text.LexLeqAntisymmetric | src/algos/vibes.ts:11 | only equal strings sort no later than each other |
| Text.NatToString | src/algos/vibes-algorithm.ts:214 | the decimal text of a natural is a non-empty digit string, with a leading zero only for 0 |
| Text.IntToString | src/algos/vibes-algorithm.ts:214 | the decimal text of an integer is non-empty |
| Text.NatToStringValue | src/algos/vibes-algorithm.ts:214 | the digits of the decimal text have the value of the number |
| Text.LeadingDigits | src/algos/vibes-algorithm.ts:191 | `parseInt` reads the longest prefix of decimal digits |
| Text.TrimStart | src/algos/vibes-algorithm.ts:191 | `parseInt` skips exactly the leading JavaScript white space |
| Text.LeadingDigitsOfDigits | src/algos/vibes-algorithm.ts:191 | a digit string is read whole |
| Text.ParseIntOfDigits | src/algos/vibes-algorithm.ts:191 | `parseInt` of a digit string, with or without a leading minus, reads its value with that sign |
| Text.ParseIntOfIntToString | src/algos/vibes-algorithm.ts:190-191 | `parseInt` of an integer's decimal text gives the integer back |
| Store.InsertOrIgnore | src/subscription.ts:71-77 | insert-or-ignore adds exactly the new uris and leaves every existing row unchanged |
| Store.InsertOrIgnoreTakesFirst | src/subscription.ts:74-75 | a new uri gets the first row of the batch that carries it, so no uri appears twice |
| Store.InsertOrIgnoreKeepsConsistent | src/subscription.ts:71-77 | inserting rows with first_indexed <= last_scored keeps the table keyed by uri and consistent |
| Store.PostTable.DeleteWhereUriIn | src/subscription.ts:65-70 | `DELETE … WHERE uri IN` removes exactly the listed uris |
| Store.PostTable.InsertOrIgnoreRows | src/subscription.ts:71-77 | the table becomes the insert-or-ignore of the rows and stays consistent |
| Store.PostTable.UpsertScore | src/algos/vibes-algorithm.ts:88-101 | the upsert sets score and last_scored of an existing row and keeps its other columns, or inserts the row; it keeps the table consistent when the new last_scored is no earlier than the row's first_indexed |
| Ranking.SelectOrdered | src/algos/vibes-algorithm.ts:182-193 | `WHERE … ORDER BY … LIMIT` returns at most limit distinct eligible rows in order, and leaves an eligible row out only when the page is full and the row ranks no higher |
| Subscription.Admit | src/subscription.ts:35-51 | the count grows by one per kept create, never passes 500, nothing is kept once it is reached, and every kept create meets the keyword policy |
| Subscription.AdmitTakesFirstMatches | src/subscription.ts:35-51 | the filter keeps exactly the first (500 - count) creates that meet the keyword policy, in order |
| Subscription.NegativeKeywordVetoes | src/subscription.ts:39 | a negative keyword in the text rejects the create whatever keyword also occurs |
| Subscription.MatchIgnoresTextCase | src/subscription.ts:38-39 | two texts with the same lower-cased form get the same decision |
| Subscription.UpperCaseKeywordsNeverMatch | src/subscription.ts:38 | keywords that each hold an upper-case letter never match, because only the text is lower-cased |
| Subscription.NewRows | src/subscription.ts:52-63 | one row per kept create: its uri and cid, score 0, and first_indexed = last_scored = now |
| Subscription.CommitEffect | src/subscription.ts:65-77 | rows of uris that were not deleted are untouched; a deleted uri survives only if the commit re-creates it; every kept create's uri is present afterwards, so deletes run before inserts; every added row is a zero-score row of a kept create; nothing else appears |
| Subscription.CommitKeepsConsistent | src/subscription.ts:52-77 | a commit keeps the table consistent |
| Subscription.FirehoseSubscription.constructor | src/subscription.ts:10-16 | the counter starts at 0 and the policy and reload time come from the first load |
| Subscription.FirehoseSubscription.UpdateSettings | src/subscription.ts:18-23 | the policy becomes the loaded settings and the reload time becomes now |
| Subscription.FirehoseSubscription.FilterCreates | src/subscription.ts:35-51 | the filter callback keeps what `Admit` keeps and leaves the counter where `Admit` does |
| Subscription.FirehoseSubscription.HandleEvent | src/subscription.ts:25-78 | settings reload only after more than 10000 ms; a non-commit event changes nothing else; a commit leaves the counter and table that `Admit` and `ApplyCommit` describe |
| VibesAlgorithm.PowPositive | src/algos/vibes-algorithm.ts:51 | a power of a positive number is positive |
| VibesAlgorithm.PowMonotonic | src/algos/vibes-algorithm.ts:51 | a power is monotonic in a positive base |
| VibesAlgorithm.CalculateScore | src/algos/vibes-algorithm.ts:49-52 | for every age other than -2 h the score is positive exactly when the engagement is, and zero exactly when it is |
| VibesAlgorithm.ScoreTimesSquaredAge | src/algos/vibes-algorithm.ts:49-52 | the score times (age + 2)² gives back the engagement |
| VibesAlgorithm.ScoreNonIncreasingWithAge | src/algos/vibes-algorithm.ts:49-52 | for ages above -2 h, with fixed non-negative engagement, an older post never scores higher (below -2 h the square shrinks with age, so no such order holds there) |
| VibesAlgorithm.ScoreNonDecreasingWithEngagement | src/algos/vibes-algorithm.ts:49-52 | at a fixed age more engagement never scores lower |
| VibesAlgorithm.IndexedNoEarlierIsTotalPreorder | src/algos/vibes-algorithm.ts:63 | `ORDER BY first_indexed DESC` is a total preorder |
| VibesAlgorithm.Refreshed | src/algos/vibes-algorithm.ts:67-101 | no row is added or removed; uri, cid, first_indexed and mod never change; a due row with a successful fetch gets the engagement score of likes + reposts + mod and last_scored = now; every other row is unchanged |
| VibesAlgorithm.RefreshIdempotent | src/algos/vibes-algorithm.ts:57-63 | a second pass at the same instant changes nothing, because a rescored row is no longer due |
| VibesAlgorithm.RescoreVisited | src/algos/vibes-algorithm.ts:67-102 | the loop rescores each visited due row whose fetch succeeded, leaves a row whose fetch failed as it was, adds or removes no row, and keeps the table consistent |
| VibesAlgorithm.RefreshScores | src/algos/vibes-algorithm.ts:54-107 | visits exactly the rows last scored more than 360000 ms ago, newest first, and leaves the table `Refreshed` describes |
| VibesAlgorithm.WithoutStale | src/algos/vibes-algorithm.ts:109-120 | exactly the rows older than 129600000 ms with score below 0.1 are gone and the rest are untouched |
| VibesAlgorithm.EvictionNeedsAgeAndLowScore | src/algos/vibes-algorithm.ts:117-118 | a row that is recent enough or scores at least 0.1 survives unchanged |
| VibesAlgorithm.DeleteStalePosts | src/algos/vibes-algorithm.ts:109-120 | the table becomes `WithoutStale` of itself |
| VibesAlgorithm.UriToUrlOfPostUri | src/algos/vibes-algorithm.ts:122-127 | for `at://did/collection/rkey` the link is `https://bsky.app/profile/did/post/rkey` |
| VibesAlgorithm.UriToUrlWithoutSlash | src/algos/vibes-algorithm.ts:122-127 | a uri without "/" gives a link with "undefined" as the profile and the whole uri as the post |
| VibesAlgorithm.RanksAtLeastIsTotalPreorder | src/algos/vibes-algorithm.ts:186-187 | `ORDER BY score DESC, first_indexed DESC` is a total preorder |
| VibesAlgorithm.SelectionIsRankedPage | src/algos/vibes-algorithm.ts:182-193 | the rows of the selected keys form a ranked page |
| VibesAlgorithm.QueryPage | src/algos/vibes-algorithm.ts:182-193 | the page has at most limit distinct rows of the table, each with score > 0 and inside the cursor bound, best first; an eligible row is left out only when the page is full and it ranks no higher |
| VibesAlgorithm.NextCursor | src/algos/vibes-algorithm.ts:211-215 | no cursor exactly for an empty page; a cursor, read back with `parseInt`, bounds the next page below the last row's first_indexed |
| VibesAlgorithm.NextPageIsOlder | src/algos/vibes-algorithm.ts:190-191 | every row of the page a returned cursor asks for is strictly older than the last row served |
| VibesAlgorithm.RowCanReappearOnNextPage | src/algos/vibes-algorithm.ts:185-191 | an older row that scores higher than a newer one is served on a page and again on the page its cursor asks for |
| VibesAlgorithm.PrependPinned | src/algos/vibes-algorithm.ts:204-209 | the pinned posts come first in reverse configured order, then the feed unchanged |
| VibesAlgorithm.FeedGenerator.constructor | src/algos/vibes-algorithm.ts:18-19 | the pinned posts come from the settings and no timers are scheduled yet |
| VibesAlgorithm.FeedGenerator.Handler | src/algos/vibes-algorithm.ts:161-223 | the timers are marked scheduled, and the response is the pinned posts reversed, then the uris of a ranked page, with that page's cursor |
| Vibes.NewerFirstIsTotalPreorder | src/algos/vibes.ts:10-11 | `ORDER BY indexedAt DESC, cid DESC` is a total preorder |
| Vibes.NewerFirstTiesShareKey | src/algos/vibes.ts:10-11 | two posts tie under `ORDER BY indexedAt DESC, cid DESC` only when they have the same indexedAt and the same cid |
| Vibes.LikeScore | src/algos/vibes.ts:22 | the stored score is never negative (the definition takes the like count, or 0 when it is absent) |
| Vibes.SucceedingPrefix | src/algos/vibes.ts:16-21 | the loop rescores the posts before the first rejected fetch, all of whose fetches succeed |
| Vibes.SucceedingPrefixUnique | src/algos/vibes.ts:16-21 | that prefix is the only one that ends at a failed fetch or at the end of the batch |
| Vibes.WithLikeScoresEffect | src/algos/vibes.ts:22-35 | rescored posts get their like count and keep uri, cid and indexedAt; no post is added or removed; other posts are untouched |
| Vibes.WithLikeScoresIdempotent | src/algos/vibes.ts:22-35 | rescoring the same posts with the same answers again changes nothing |
| Vibes.WithLikeScoresStep | src/algos/vibes.ts:25-35 | one more upsert changes that post's score alone |
| Vibes.VibesTable.UpsertScore | src/algos/vibes.ts:25-35 | the upsert sets the score of an existing post and keeps its other columns, or inserts the post; it keeps every indexedAt a valid date when an inserted post has one |
| Vibes.RescoreInOrder | src/algos/vibes.ts:16-36 | the loop rescores the batch in order up to the first failed fetch and reports how many it rescored |
| Vibes.CalculateScores | src/algos/vibes.ts:5-37 | the batch is the fifty newest posts by indexedAt then cid, and the table is rescored up to the first failed fetch |
| Vibes.CursorTime | src/algos/vibes.ts:52-53 | no bound without a cursor; an error exactly when the cursor has no leading integer or names a time outside the valid date range; otherwise the parsed time |
| Vibes.SelectionIsNewestPage | src/algos/vibes.ts:45-56 | the posts of the selected keys form a newest-first page |
| Vibes.QueryPage | src/algos/vibes.ts:45-56 | the page has at most limit distinct posts of the table, each before the cursor time, newest first with ties by cid; a post is left out only when the page is full and it sorts no earlier |
| Vibes.NextCursor | src/algos/vibes.ts:66-70 | no cursor exactly for an empty page; a cursor reads back as the last post's time |
| Vibes.TiedPostIsSkipped | src/algos/vibes.ts:52-55 | a post left off a full page at the same time as its last post is on no page that cursor asks for |
| Vibes.TiedPostSkippedExample | src/algos/vibes.ts:66-70 | two posts at one instant with limit 1: the first page holds one and the next page is empty |
| Vibes.Handler | src/algos/vibes.ts:42-76 | the request rescores the newest fifty; a failed fetch fails it before the query; otherwise it answers with the cursor error or the page's uris and cursor |

## Left out

- Metrics: `incrementMetric` posts to New Relic over HTTPS. It is network I/O and has no effect on the table or the feed.
- Timers: the `setInterval` schedules of the refresh and eviction passes are not modelled. Only the `intervalsScheduled` flag is. The handler's un-awaited `refreshScores` call runs concurrently with the query and is modelled as the separate `RefreshScores` method.
- Concurrency: overlapping refresh passes, the subscription and the handlers interleaving on the table, and concurrent deletes between a SELECT and its upserts are not modelled. So an upsert never meets a missing row in the model, although `UpsertScore` states the insert branch.
- Upstream calls: `getPostThread` is the `fetch` parameter. It gives one fixed answer per uri during a pass.
- Clock: `Date.now()` is a `now` parameter. One reading per event or pass is assumed, although the subscription reads the clock again for each built row.
- Debug output: `logPosts`, `console.log`, `console.error` and the colour logger are not modelled.
- Settings reload mechanics: `require` caching is not modelled. The reloaded settings are a parameter; only the 10 s gating and the field replacement are modelled.
- Firehose plumbing: `FirehoseSubscriptionBase`, `getOpsByType` and `isCommit` are not part of this model. An event is given as its deletes and creates, or as "not a commit".
- Configuration and wiring: src/settings.ts (environment and JSON reads), the publishing script and the algorithm registry in src/algos/index.ts are not modelled.
- Floating point: scores are reals. IEEE rounding, `Infinity` and `NaN` results of `calculateScore` are not modelled.
- VibesAlgorithm.CalculateScore: requires an age other than -2 hours, where JavaScript divides by zero and returns `Infinity` or `NaN`. Every row the refresh pass scores has a non-negative age, because the table keeps first_indexed <= last_scored < now.
- VibesAlgorithm.CursorBoundOf: a cursor that is not a number makes `parseInt` return `NaN`. The model takes `first_indexed < NaN` to match no row, which is how SQLite treats the bound (it binds `NaN` as NULL). The database driver is not part of this model.
- Number precision: `parseInt` is exact in the model. JavaScript loses precision above 2^53 and prints numbers of 10^21 or more in exponent notation.
- Text.ToLower: lower-cases ASCII letters only. JavaScript's `toLowerCase` also folds other Unicode letters.
- Mod column: the subscription's insert does not set `mod`. The model takes 0, which is what `null` contributes to the engagement sum in JavaScript.
- Dates: in the vibes table `indexedAt` is integer milliseconds, not an ISO string. Comparing ISO strings in SQL agrees with comparing times only for years 0 to 9999; that difference is not modelled. The table invariant keeps every time inside the valid date range.
- Keyword matching: matching is the plain substring test the filter performs. Whole-word or punctuation-aware matching is not part of this code.
