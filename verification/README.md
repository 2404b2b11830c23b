# redis-action core in Dafny

This project models the Redis-backed core of the Go examples in
redis-action and proves properties of the model. It covers:

- the session registry and page cache of the shopping site
  (chapter01/login_cookie.go and chapter02/login_cookie.go): login
  tokens, recently viewed items, the popularity index, carts, the session
  reapers, the request cache and its cacheability test;
- the row cache scheduler (chapter02/login_cookie.go);
- article posting, voting and listing (chapter01/article.go);
- the marketplace (chapter04/trading_market.go);
- the recent and common logs (chapter05/log.go).

Redis is modelled as an immutable value, `Store.Store`. It has one
namespace per value type: strings, hashes, sorted sets, sets and lists.
It also holds a map of absolute expiry deadlines. Every command the code
issues is a pure function from store to store, sometimes with a reply.
Numbers are stored as decimal text through `Decimal.FormatInt`, and
`Decimal.ParseInt` reads them back; they round-trip
(`Decimal.ParseFormat`). Sorted sets are ordered by (score, member), with
members compared by code point (`Lex`). A member's rank is the number of
members ordered before it (`SortedSet.Rank`). ZRANGE (`SortedSet.Range`) and
ZREMRANGEBYRANK (`SortedSet.RemoveRange`) take a start and stop index
under Redis's rules, negative indices included. ZREVRANGE appears only
as the full listing `0 -1` (`SortedSet.Descending`).

The module layout is:

- `Wrappers`, `Lex`, `Decimal`, `SortedSet` and `Store` are the
  supporting vocabulary.
- `Keys` holds the key constants of common/consts.go.
- `Sessions`, `PageCache`, `RowCache`, `Articles`, `Market` and `Logs`
  model the source.

The code reads the clock, calls back into the web handler, queries the
database and formats the local time. Each of these is a parameter of the
model:

- `now` is the Unix time.
- `callback` renders a page.
- `render` gives a row's JSON text.
- `Clock` is a reading of the local clock: whole hours since the epoch
  and the text of the timestamp.

The code has loops that run until a flag or a deadline stops them. They
are modelled as follows:

- The reapers and the row scheduler are modelled as one pass of their
  loop.
- Sell and Purchase take the number of attempts their five-second
  deadline allows.
- LogCommon takes the clock readings of the passes its deadline allows.

## Model

| member | source | states |
|---|---|---|
| Sessions.CheckToken | chapter02/login_cookie.go:29-31 | a logged-in token answers its user; an unknown token answers "" |
| Sessions.UpdateTokenBehavior | chapter02/login_cookie.go:34-54 | a request writes only the login hash and the recency index; a request naming an item also writes that token's history and the popularity index |
| Sessions.UpdateTokenBehaviorBasic | chapter01/login_cookie.go:31-49 | the chapter 1 update writes only the login hash, the recency index and, for an item, the token's history |
| Sessions.UpdateLogsIn | chapter02/login_cookie.go:29-36 | after an update, CheckToken of the token answers the user it was updated with (both chapters) |
| Sessions.UpdateKeepsOtherLogins | chapter02/login_cookie.go:36 | an update leaves the user of every other token unchanged |
| Sessions.UpdateStampsRecent | chapter02/login_cookie.go:37-42 | the recency index maps the token to the request time and is otherwise unchanged |
| Sessions.UpdateRecordsView | chapter02/login_cookie.go:44-50 | the step HistoryBounded builds on: after the whole update, the token's history is ZADD of the item followed by ZREMRANGEBYRANK 0 -26 of the old history, untouched by the other writes |
| Sessions.HistoryBounded | chapter02/login_cookie.go:44-50 | the history keeps at most 25 entries and drops nothing while it has 25 or fewer; survivors keep their view times; only entries older than every survivor are dropped; the new item survives exactly when its rank plus 25 reaches the history's size |
| Sessions.NewestViewKept | chapter02/login_cookie.go:44-50 | an item viewed later than everything in the history is always kept |
| Sessions.UpdateCountsView | chapter02/login_cookie.go:51-52 | a view lowers the item's popularity score by exactly one, so more views rank earlier |
| Sessions.UpdateKeepsOtherCounts | chapter02/login_cookie.go:51-52 | no other item's popularity entry appears, disappears or moves |
| Sessions.UpdateChaptersAgree | chapter01/login_cookie.go:31-49 | the chapter 1 and chapter 2 updates give stores that differ at most in the popularity index |
| Sessions.BasicKeepsPopularity | chapter01/login_cookie.go:31-49 | the chapter 1 update never changes the popularity index |
| Sessions.Clean | chapter02/login_cookie.go:74-94 | one reaper pass changes nothing while the recency index holds at most LIMIT tokens; otherwise it changes only the login hash, the recency index and the evicted tokens' session keys |
| Sessions.OldestAreLowest | chapter02/login_cookie.go:79-85 | above the limit, ZRANGE recent 0 LIMIT-1 picks exactly LIMIT tokens, each seen before every token not picked |
| Sessions.CleanShrinksRecent | chapter02/login_cookie.go:92-93 | the recency index loses exactly the evicted tokens, so it shrinks by LIMIT |
| Sessions.CleanLogsOut | chapter02/login_cookie.go:92 | the login hash loses exactly the evicted tokens |
| Sessions.CleanEvictsOldestFirst | chapter02/login_cookie.go:85-93 | every evicted token was seen before every token that stays |
| Sessions.CleanDeletesSessions | chapter02/login_cookie.go:130-139 | an evicted token's history is deleted; in the full reaper its cart is deleted too |
| Sessions.CleanKeepsOtherLogins | chapter02/login_cookie.go:92-93 | a token that is not evicted keeps its user and its access time |
| Sessions.CleanKeepsOtherSessions | chapter02/login_cookie.go:130-139 | a token that is not evicted keeps its history and its cart |
| Sessions.CleanSessionKeepsCarts | chapter02/login_cookie.go:87-94 | CleanSession, unlike CleanFullSession, deletes no cart |
| Sessions.AddToCart | chapter02/login_cookie.go:102-110 | AddToCart writes no key but the session's cart |
| Sessions.AddToCartQuantities | chapter02/login_cookie.go:102-110 | a positive count sets exactly that item's quantity and keeps the other items; a count of at most 0 removes the cart, so every quantity reads 0 |
| PageCache.IsDynamic | chapter02/login_cookie.go:185-199 | the nested loops answer true exactly when some value of some query parameter contains an underscore |
| PageCache.CanCacheBasic | chapter01/login_cookie.go:146-155 | the chapter 1 test accepts exactly the requests whose first `item` value is not empty and none of whose query values contains '_' |
| PageCache.CanCacheMeans | chapter02/login_cookie.go:164-176 | a request is cacheable exactly when it names an item, is not dynamic, and the item is in the popularity index at a rank strictly between 0 and 10000 |
| PageCache.CanCacheNarrowsBasic | chapter02/login_cookie.go:164-176 | whatever chapter 2 caches, chapter 1 caches too; a page only chapter 1 caches is for an item missing from the popularity index, at rank 0, or ranked 10000 or later |
| PageCache.CacheRequest | chapter02/login_cookie.go:147-161 | only the request's cache key is written; an uncacheable request gets the callback's page; a live hit is returned unchanged; on a miss the caller gets "" and the page stays readable for 300 seconds |
| PageCache.CacheRequestBasic | chapter01/login_cookie.go:129-143 | the same promises for chapter 1: a request without an item or with a dynamic query goes to the callback; other requests are served from a live page, or on a miss stored for 300 seconds while "" is returned |
| PageCache.CacheStep | chapter02/login_cookie.go:147-161 | an uncacheable request gets the callback's page and writes nothing; a live cached page is returned and nothing is written |
| PageCache.CacheMissStores | chapter02/login_cookie.go:153-160 | on a miss the rendered page is readable under the request's key for 300 seconds, no other key changes, and the caller gets "" |
| PageCache.CachedPageExpires | chapter02/login_cookie.go:158 | more than 300 seconds later the stored page reads as missing |
| PageCache.CacheServesRepeat | chapter02/login_cookie.go:153-160 | a repeat request within 300 seconds is served the stored page without a write |
| PageCache.CanCacheFixedWidens | chapter02/login_cookie.go:173-175 | the corrected test accepts everything the written one does, and more only for the item at rank 0 |
| RowCache.ScheduleRowCache | chapter02/login_cookie.go:209-215 | the row is due at now + delay, and the delay table is left untouched |
| RowCache.Cancel | chapter02/login_cookie.go:231-235 | the row leaves the schedule, the delay table and the row cache |
| RowCache.Refresh | chapter02/login_cookie.go:238-245 | the row is due again at now + delay, the delay table is unchanged, and the cached copy holds the rendered JSON with no TTL |
| RowCache.CacheRowsStep | chapter02/login_cookie.go:220-245 | a pass is idle, and writes nothing, exactly when no row is due; otherwise it handles the earliest due row, cancelling it when its delay is at most 0 and refreshing it otherwise |
| RowCache.CancelForgetsRow | chapter02/login_cookie.go:228-235 | after a cancelling pass the handled row is gone from the schedule, the delay table and the cache |
| RowCache.RefreshReschedules | chapter02/login_cookie.go:238-245 | after a refreshing pass the row is due strictly later than now, and its cached copy is the rendered row with no TTL |
| RowCache.PassFrame | chapter02/login_cookie.go:220-245 | a pass writes only the schedule, the delay table and the handled row's cache key |
| Articles.PostArticleCounts | chapter01/article.go:33-34 | the new id is the counter's next value in decimal, and the counter holds that value afterwards |
| Articles.FirstPostsNumbered | chapter01/chapter01_test.go:37-44 | from a fresh counter, the first two posts get ids "1" and "2" |
| Articles.SuccessivePostsDistinct | chapter01/article.go:34 | two successive posts never get the same id, whatever integer the counter held |
| Articles.PostArticleRecords | chapter01/article.go:36-62 | the article is scored by its posting time in both the score and time sets; its author is its first voter; its voter set expires a week later |
| Articles.PostArticleDescribes | chapter01/article.go:43-51 | the article hash holds id, title, link, poster, time and votes "0" |
| Articles.PublishHashes | chapter01/article.go:43-51 | posting writes no hash but the new article's |
| Articles.PublishSets | chapter01/article.go:36-39 | posting writes no set but the new article's voter set |
| Articles.PostArticleElsewhere | chapter01/article.go:33-65 | posting leaves every other article's hash, scores and voters alone |
| Articles.Vote | chapter01/article.go:67-94 | an up-vote or down-vote after the window has closed, or from a user already in the voter set, leaves the store unchanged |
| Articles.VoteClosed | chapter01/article.go:68-73 | a vote more than a week after posting changes nothing |
| Articles.VoteOnMissingArticle | chapter01/article.go:68-73 | an article that was never posted counts as posted at time 0, so voting on it is closed after the first week |
| Articles.VoteRepeated | chapter01/article.go:75-78 | a user already in the voter set cannot vote again, in either direction |
| Articles.AuthorCannotVote | chapter01/article.go:38 | an author cannot vote on their own article |
| Articles.UpThenDown | chapter01/article.go:82-94 | a down-vote after an up-vote by the same user changes nothing |
| Articles.PostArticleConsistent | chapter01/article.go:44-62 | a new article's score equals its posting time plus 432 per net vote, with 0 votes |
| Articles.TallyCounts | chapter01/article.go:75-78 | a first vote moves the vote count by one and the score by 432, keeps the posting time, and keeps the article consistent |
| Articles.VoteKeepsConsistent | chapter01/article.go:67-94 | every vote keeps score = time + 432 × votes |
| Articles.VoteRecorded | chapter01/article.go:75-78 | an open first vote adds the voter and moves only that article's score |
| Articles.VoteCounted | chapter01/article.go:77 | an open first vote on a consistent article changes its vote count by exactly one |
| Articles.TallyFrame | chapter01/article.go:76-77 | tallying touches neither the voter set nor the posting times |
| Articles.GetArticles | chapter01/article.go:96-108 | the listing has one entry per scored article |
| Articles.GetArticlesOrder | chapter01/article.go:97-105 | the listing names every scored article exactly once, in descending (score, id) order |
| Articles.TopArticleListedFirst | chapter01/article.go:97-105 | the article ahead of all others in score order comes first |
| Articles.PairListed | chapter01/article.go:97-105 | with two scored articles the listing has two entries, the higher score first |
| Articles.TwoVotesConsistent | chapter01/chapter01_test.go:49-50 | two first up-votes keep the article consistent |
| Articles.TwoVotesCount | chapter01/chapter01_test.go:49-55 | two first up-votes from different users add 2 to the vote count |
| Articles.TwoVotesScore | chapter01/chapter01_test.go:49-50 | two first up-votes raise the score by 2 × 432 and change no other score |
| Articles.ScoreAfterSecond | chapter01/article.go:75-76 | a second voter's up-vote adds 432 on top of the first |
| Articles.TwoPosts | chapter01/chapter01_test.go:37-47 | two posts into an empty store, each at its own time, give ids "1" and "2", each scored at its posting time |
| Articles.UpVotedListedFirst | chapter01/chapter01_test.go:49-55 | when "2" is ahead of "1" by less than two votes' worth, two up-votes on "1" put it first with votes "2" |
| Articles.PostVoteListScenario | chapter01/chapter01_test.go:37-58 | the repository's chapter 1 scenario holds when the second post comes less than 864 seconds after the first and the votes fall within the first article's week: ids "1" and "2", two listed articles, then "1" listed first with votes "2" |
| Market.SellAttempt | chapter04/trading_market.go:28-43 | an attempt succeeds exactly when the seller's bag holds the goods; a failed attempt writes nothing |
| Market.Sell | chapter04/trading_market.go:20-53 | Sell succeeds exactly when some attempt fits before the deadline and the bag holds the goods; a failed Sell changes nothing |
| Market.SellLists | chapter04/trading_market.go:20-53 | selling held goods lists them at the price, removes them from the bag, and writes nothing else |
| Market.SellWithoutGoods | chapter04/trading_market.go:20-53 | selling goods not held fails after every retry and changes nothing |
| Market.PurchaseAttempt | chapter04/trading_market.go:63-71 | a buyer whose funds do not exceed the price is refused and nothing changes |
| Market.CannotAfford | chapter04/trading_market.go:55-82 | a refused first attempt ends the purchase with false and nothing changed |
| Market.PayAdds | chapter04/trading_market.go:65-66 | HINCRBY adds the amount to the funds and leaves them in canonical form |
| Market.PayElsewhere | chapter04/trading_market.go:65-66 | paying one user leaves every other user's hash alone |
| Market.PurchaseTransfers | chapter04/trading_market.go:63-69 | a successful attempt between two users moves the price from the buyer to the seller, bags the goods and delists them |
| Market.PurchaseConservesFunds | chapter04/trading_market.go:65-66 | the two users' combined funds are unchanged by a successful attempt |
| Market.SelfPurchaseKeepsFunds | chapter04/trading_market.go:65-66 | buying one's own listing leaves one's funds unchanged |
| Market.AttemptSettles | chapter04/trading_market.go:63-69 | after a successful attempt the listing is gone, both funds are canonical, and the buyer still has positive funds |
| Market.RetryChangesNothing | chapter04/trading_market.go:60-83 | once settled, a further attempt pays 0, succeeds and changes nothing |
| Market.RetriesChangeNothing | chapter04/trading_market.go:60-85 | any number of further attempts change nothing and end with true |
| Market.PurchaseIsFirstAttempt | chapter04/trading_market.go:55-86 | between two users, Purchase has the effect and the answer of its first attempt |
| Logs.DefaultIsInfo | chapter05/log.go:20-22 | a message with no severity goes to the same keys as an "INFO" message |
| Logs.LogKeysDistinct | chapter05/log.go:24-46 | the recent list, the count set, its start key and its last key are four different keys |
| Logs.LogRecent | chapter05/log.go:24-32 | the stamped message is pushed onto the front of the list, and the rest of the list is kept |
| Logs.LogRecentFrame | chapter05/log.go:31-32 | LogRecent writes nothing but its own list |
| Logs.RotatedMovesSet | chapter05/log.go:60-62 | on rotation the count set moves to `:last`, counting starts empty, and the hour is recorded |
| Logs.StartedRecordsHour | chapter05/log.go:63-64 | with no hour recorded, the hour is recorded and neither set is touched |
| Logs.KeptChangesNothing | chapter05/log.go:60-65 | a recorded hour that is not earlier than the current one writes nothing, across the 23 to 0 wrap too |
| Logs.PassRecordsHour | chapter05/log.go:54-65 | after a pass the recorded hour reads back as the pass's hour, unless the set was kept |
| Logs.PassCounts | chapter05/log.go:60-66 | each pass counts the message once; right after a rotation its count is exactly 1 |
| Logs.PassPushesRecent | chapter05/log.go:67 | each pass also pushes the stamped message onto the recent list |
| Logs.SameHourKeeps | chapter05/log.go:54-65 | a second pass in the same non-zero hour keeps the current set |

## Left out

- Concurrency is not modelled. Other clients' writes are absent, as is the effect of WATCH. Each attempt is a pipeline under WATCH with no EXEC, so a conflict never aborts an attempt. A failed attempt therefore changes nothing, and Sell and Purchase take a count of attempts instead of a deadline.
- Each loop that runs until the QUIT flag (CleanSession, CleanFullSession and CacheRows) is modelled as one pass. Sleeping, the decrement of FLAG and RescaleViewed are left out. RescaleViewed is also left out because it halves scores in floating point.
- LIMIT is not defined in the files modelled. It is the parameter `limit`.
- Floating-point scores, prices, funds and delays are modelled as integers. `Purchase` truncates the price with `int64(price)`, which integers make exact.
- Expiry is kept as absolute deadlines and read by GET only. Reads of sets do not consult expiry, so the voter set's one-week TTL does not affect voting; voting is closed by the posting time instead.
- Redis deletes a collection when it becomes empty, but the model keeps an empty entry. For example, ZREM of the last listing leaves `Market` in `zsets` with an empty set. Contracts that depend on this:
  - Market.DeliverMovesGoods and Market.SettleMovesGoods ensure that `Keys.Market in ….zsets`.
  - Market.PurchaseTransfers ensures the same.
  - Market.DeliverAgain requires it.
  - The predicate Market.Settled includes it, so Market.AttemptSettles, Market.RetryChangesNothing, Market.RetriesChangeNothing and Market.AfterSettled carry it too.
  In Redis the market key would be gone after the last listing is removed, and a further ZREM would change nothing. The conclusion that retries change nothing holds either way.
- WRONGTYPE errors are not modelled. ScheduleRowCache's HSET on the sorted-set key "schedule" lands in a separate hash namespace here; Redis would reject it. Either way, "delay" is never written.
- Parsing the request URL is not modelled. The request is given with its query already parsed into a map from name to values. `extractItemId`'s `Get` is the first value.
- hashRequest (MD5) is left out because nothing calls it.
- GetDataFromDB and json.Marshal are the `render` parameter. A failing Marshal's `log.Fatalf` is left out.
- Logging through logrus is left out.
- The text of `time.Now().Local().String()` is the `stamp` parameter.
- Lines 187-227 of chapter01/login_cookie.go do not compile against the client type, so they are not modelled. The chapter02 versions are.
- AddRemoveGroups and GetGroupArticle in chapter01/article.go panic unconditionally, and Reset empties the whole database with FLUSHDB. All three are outside the modelled operations.
- INCR and HINCRBY are unbounded here. Redis rejects an increment that overflows a signed 64-bit integer.
- RowCache.CacheRowsStep reads a delay with `Decimal.ParseInt`, not `strconv.ParseFloat`. Delay texts such as "1.5", "1e3" or "+5" therefore read as 0 and the row is cancelled, while the program refreshes it. Only delays written in canonical integer form are modelled faithfully.
- strconv.Atoi and Redis's integer parsing differ in small ways: Atoi accepts a leading '+', and so on. `Decimal.ParseInt` accepts an optional '-' followed by digits.
- LogRecent calls Exec on the pipeline it is handed inside LogCommon's pipeline. That sends RENAME, SET, ZINCRBY and LPUSH together, and the model runs them in that order within the same pass.
- A RENAME of a missing count set fails in Redis. That failure does not stop the other commands of the pass, and its error only goes to the log. The model's RENAME of a missing key is a no-op, which agrees with the program.

## Findings

| source | as written | input that shows it | evidently intended | confidence | as-written member | corrected member |
|---|---|---|---|---|---|---|
| chapter02/login_cookie.go:156-160 | on a cache miss the page is rendered and stored, but the empty pre-read content is returned | empty store, a cacheable request, a callback that renders "page": the caller gets "" | return the rendered page | not executed | PageCache.CacheMissReturnsEmpty | PageCache.CacheFixedTransparent |
| chapter02/login_cookie.go:173-175 | `rank != 0` rejects a missing item, but also the most viewed item, which holds rank 0 | popularity index {"1": -5} and query item=1: not cacheable | accept an item present in the index with rank < 10000 | not executed | PageCache.CanCacheRefusesTop | PageCache.CanCacheFixedMeans |
| chapter02/login_cookie.go:214 | the delay is written to the hash "schedule" instead of "delay", so CacheRows reads delay 0 | ScheduleRowCache("row1", 5) at time 100, then a pass at 105: the row is cancelled | record the delay under "delay", so the row is refreshed | not executed | RowCache.ScheduledRowCancelled | RowCache.ScheduledRowRefreshed |
| chapter04/trading_market.go:63-64 | a missing listing reads as price 0, so any buyer with positive funds gets the goods for free | bob has funds 5; Purchase("alice", "bob", "sword") with no listing: true, the sword lands in bob's bag, funds stay 5 | refuse a purchase whose listing is missing | not executed | Market.MissingListingIsFree | Market.CheckedPurchasePaysListedPrice |
| chapter05/log.go:54-60 | rotation compares hours of the day, so once 23 is recorded no later hour is ever greater and the set is never rotated again (a recorded 0 also reads as "no start") | a pass at 23:00, then a pass at 05:00 the next day: the old set is kept | compare absolute hours | not executed | Logs.RotationStopsAtMidnight | Logs.FixedRotatesEachHour |
| chapter05/log.go:50-83 | the retry loop has no exit after a successful transaction, so the message is counted once per pass until the deadline | two passes in the same hour, starting from count 0: the count is 2 | return after the first successful pass | not executed | Logs.LoopCountsTwice | Logs.FixedCountsOnce |
| chapter05/log.go:31-32 | LRANGE only reads, so the recent list is never trimmed to 100 | a list of 100 entries grows to 101 | LTRIM 0 99 after the push | not executed | Logs.RecentNeverTrimmed | Logs.LogRecentFixed |
