/**
 * The session registry of chapter02/login_cookie.go: the token -> user
 * hash `login`, the recency index `recent` (token -> last access time),
 * each token's viewed history `viewed:<token>` (item -> view time, capped
 * at 25), the global popularity index `viewed` (item -> minus its view
 * count), and per-session carts `cart:<session>`. The reaper loops are cut
 * to one iteration each; the limit they compare against is a parameter.
 */
module Sessions {
  import opened Store
  import SortedSet
  import Decimal
  import Keys

  /** Length of the viewed history kept per token. */
  const HistoryCap := 25

  function ViewedKey(token: string): Key
  {
    Keys.ViewedPre + token
  }

  function CartKey(session: string): Key
  {
    Keys.CartPre + session
  }

  function ViewedKeys(tokens: set<string>): set<Key>
  {
    set t | t in tokens :: ViewedKey(t)
  }

  function CartKeys(tokens: set<string>): set<Key>
  {
    set t | t in tokens :: CartKey(t)
  }

  /** Keys built from different prefixes, or from one prefix and different suffixes, differ. */
  lemma KeysDistinct(token: string)
    ensures ViewedKey(token) != Keys.Login && ViewedKey(token) != Keys.Recent
    ensures ViewedKey(token) != Keys.Viewed
    ensures CartKey(token) != Keys.Login && CartKey(token) != Keys.Recent
  {
    assert CartKey(token)[0] == 'c';
  }

  lemma ViewedNotCart(u: string, t: string)
    ensures ViewedKey(u) != CartKey(t)
  {
    assert ViewedKey(u)[0] == 'v' && CartKey(t)[0] == 'c';
  }

  /** CheckToken: the user a token is logged in as, or "" for an unknown token. */
  function CheckToken(s: Store, token: string): (r: string)
    ensures token in HashOf(s, Keys.Login) ==> r == HashOf(s, Keys.Login)[token]
    ensures token !in HashOf(s, Keys.Login) ==> r == ""
  {
    HGet(s, Keys.Login, token)
  }

  /** The history after recording `item` at `now`, before it is trimmed. */
  function Recorded(s: Store, token: string, item: string, now: int): ZSet
  {
    ZSetOf(s, ViewedKey(token))[item := now]
  }

  /** HSET login, ZADD recent: the part of an update that always runs. */
  function Touch(s: Store, token: string, user: string, now: int): Store
  {
    ZAdd(HSet(s, Keys.Login, token, user), Keys.Recent, token, now)
  }

  /** ZADD viewed:<token> item now, then ZREMRANGEBYRANK viewed:<token> 0 -26. */
  function RecordView(s: Store, token: string, item: string, now: int): Store
  {
    var t := ZAdd(s, ViewedKey(token), item, now);
    ZRemRangeByRank(t, ViewedKey(token), 0, -(HistoryCap + 1))
  }

  /**
   * UpdateTokenBehavior of chapter01: log the token in as `user`, stamp it
   * with `now`, and for a non-empty item record the view in the token's
   * history. Only those keys change.
   */
  function UpdateTokenBehaviorBasic(s: Store, token: string, user: string, item: string, now: int): (r: Store)
    ensures item == "" ==> SameOutside(s, r, {Keys.Login, Keys.Recent})
    ensures item != "" ==> SameOutside(s, r, {Keys.Login, Keys.Recent, ViewedKey(token)})
  {
    var t := Touch(s, token, user, now);
    if item == "" then t else RecordView(t, token, item, now)
  }

  /**
   * UpdateTokenBehavior of chapter02: the chapter01 update, then for a
   * non-empty item ZINCRBY viewed -1 item, so that more views mean a lower
   * score and an earlier rank. Only those keys change.
   */
  function UpdateTokenBehavior(s: Store, token: string, user: string, item: string, now: int): (r: Store)
    ensures item == "" ==> SameOutside(s, r, {Keys.Login, Keys.Recent})
    ensures item != "" ==> SameOutside(s, r, {Keys.Login, Keys.Recent, ViewedKey(token), Keys.Viewed})
  {
    var t := UpdateTokenBehaviorBasic(s, token, user, item, now);
    if item == "" then t else ZIncrBy(t, Keys.Viewed, item, -1)
  }

  /** After an update the token is logged in as `user`, in both chapters. */
  lemma UpdateLogsIn(s: Store, token: string, user: string, item: string, now: int)
    ensures CheckToken(UpdateTokenBehavior(s, token, user, item, now), token) == user
    ensures CheckToken(UpdateTokenBehaviorBasic(s, token, user, item, now), token) == user
  {
  }

  /** An update leaves every other token's user as it was. */
  lemma UpdateKeepsOtherLogins(s: Store, token: string, user: string, item: string, now: int, other: string)
    requires other != token
    ensures CheckToken(UpdateTokenBehavior(s, token, user, item, now), other) == CheckToken(s, other)
    ensures CheckToken(UpdateTokenBehaviorBasic(s, token, user, item, now), other) == CheckToken(s, other)
  {
  }

  /** After an update `recent` maps the token to `now` and is otherwise as before. */
  lemma UpdateStampsRecent(s: Store, token: string, user: string, item: string, now: int)
    ensures ZSetOf(UpdateTokenBehavior(s, token, user, item, now), Keys.Recent) == ZSetOf(s, Keys.Recent)[token := now]
    ensures ZSetOf(UpdateTokenBehaviorBasic(s, token, user, item, now), Keys.Recent) == ZSetOf(s, Keys.Recent)[token := now]
  {
    KeysDistinct(token);
  }

  /** The history after an update is the old one plus the item, trimmed by ZREMRANGEBYRANK 0 -26. */
  lemma UpdateRecordsView(s: Store, token: string, user: string, item: string, now: int)
    requires item != ""
    ensures ZSetOf(UpdateTokenBehavior(s, token, user, item, now), ViewedKey(token))
         == SortedSet.RemoveRange(Recorded(s, token, item, now), 0, -(HistoryCap + 1))
  {
    KeysDistinct(token);
  }

  /**
   * What an update with a non-empty item does to the token's history: at
   * most 25 entries remain, nothing is dropped while there are 25 or
   * fewer, survivors keep their view times, only the oldest entries are
   * dropped, and the new item survives exactly when fewer than 25 entries
   * come after it (it always does when `now` is the latest time).
   */
  lemma HistoryBounded(s: Store, token: string, user: string, item: string, now: int)
    requires item != ""
    ensures var h := Recorded(s, token, item, now);
            var h' := ZSetOf(UpdateTokenBehavior(s, token, user, item, now), ViewedKey(token));
            && |h'| == (if |h| <= HistoryCap then |h| else HistoryCap)
            && (|h| <= HistoryCap ==> h' == h)
            && h'.Keys <= h.Keys
            && (forall m | m in h' :: h'[m] == h[m])
            && (forall a, b | a in h && a !in h' && b in h' :: SortedSet.Precedes(h, a, b))
            && (item in h' <==> SortedSet.Rank(h, item) + HistoryCap >= |h|)
  {
    var h := Recorded(s, token, item, now);
    UpdateRecordsView(s, token, user, item, now);
    SortedSet.KeepHighestMembers(h, HistoryCap);
    SortedSet.KeepHighestSize(h, HistoryCap);
    SortedSet.KeepHighestOrder(h, HistoryCap);
  }

  /** The item just viewed is kept when `now` is later than every earlier view in the history. */
  lemma NewestViewKept(s: Store, token: string, user: string, item: string, now: int)
    requires item != ""
    requires forall m | m in ZSetOf(s, ViewedKey(token)) :: ZSetOf(s, ViewedKey(token))[m] < now
    ensures item in ZSetOf(UpdateTokenBehavior(s, token, user, item, now), ViewedKey(token))
  {
    UpdateRecordsView(s, token, user, item, now);
    SortedSet.NewestKept(ZSetOf(s, ViewedKey(token)), item, now, HistoryCap);
  }

  /** The chapter02 update counts the view: the item's popularity score goes down by exactly one. */
  lemma UpdateCountsView(s: Store, token: string, user: string, item: string, now: int)
    requires item != ""
    ensures var r := UpdateTokenBehavior(s, token, user, item, now);
            item in ZSetOf(r, Keys.Viewed) && ZScore(r, Keys.Viewed, item) == ZScore(s, Keys.Viewed, item) - 1
  {
    KeysDistinct(token);
  }

  /** ... and no other item's popularity moves. */
  lemma UpdateKeepsOtherCounts(s: Store, token: string, user: string, item: string, now: int, m: string)
    requires m != item
    ensures var r := UpdateTokenBehavior(s, token, user, item, now);
            && (m in ZSetOf(r, Keys.Viewed) <==> m in ZSetOf(s, Keys.Viewed))
            && ZScore(r, Keys.Viewed, m) == ZScore(s, Keys.Viewed, m)
  {
    KeysDistinct(token);
  }

  /** The two chapters' updates differ only in the popularity index. */
  lemma UpdateChaptersAgree(s: Store, token: string, user: string, item: string, now: int)
    ensures SameOutside(UpdateTokenBehaviorBasic(s, token, user, item, now),
                        UpdateTokenBehavior(s, token, user, item, now), {Keys.Viewed})
  {
  }

  /** Chapter01 never touches the popularity index. */
  lemma BasicKeepsPopularity(s: Store, token: string, user: string, item: string, now: int)
    ensures ZSetOf(UpdateTokenBehaviorBasic(s, token, user, item, now), Keys.Viewed) == ZSetOf(s, Keys.Viewed)
  {
    KeysDistinct(token);
  }

  // ------------------------------------------------------------- cleanup

  /** The keys a cleanup deletes along with the given tokens. */
  function SessionKeys(tokens: set<string>, full: bool): set<Key>
  {
    ViewedKeys(tokens) + (if full then CartKeys(tokens) else {})
  }

  lemma SessionKeysAvoidIndexes(tokens: set<string>, full: bool)
    ensures Keys.Login !in SessionKeys(tokens, full) && Keys.Recent !in SessionKeys(tokens, full)
  {
    forall t | t in tokens
      ensures ViewedKey(t) != Keys.Login && ViewedKey(t) != Keys.Recent
      ensures CartKey(t) != Keys.Login && CartKey(t) != Keys.Recent
    {
      KeysDistinct(t);
    }
  }

  /** A token outside `tokens` has neither of its keys among their session keys. */
  lemma SessionKeysOfOthers(tokens: set<string>, full: bool, t: string)
    requires t !in tokens
    ensures ViewedKey(t) !in SessionKeys(tokens, full) && CartKey(t) !in SessionKeys(tokens, full)
  {
    forall u | u in tokens
      ensures ViewedKey(u) != ViewedKey(t) && CartKey(u) != CartKey(t)
      ensures ViewedKey(u) != CartKey(t) && CartKey(u) != ViewedKey(t)
    {
      if ViewedKey(u) == ViewedKey(t) {
        PrefixInjective(Keys.ViewedPre, u, t);
      }
      if CartKey(u) == CartKey(t) {
        PrefixInjective(Keys.CartPre, u, t);
      }
      ViewedNotCart(u, t);
      ViewedNotCart(t, u);
    }
  }

  /**
   * The tokens one cleanup iteration evicts: nothing while `recent` holds
   * at most `limit` tokens, otherwise ZRANGE recent 0 endIndex-1.
   */
  function Oldest(s: Store, limit: nat): set<string>
  {
    var size := |ZSetOf(s, Keys.Recent)|;
    if size <= limit then {}
    else
      var endIndex := if size < limit then size else limit;
      SortedSet.Range(ZSetOf(s, Keys.Recent), 0, endIndex - 1)
  }

  /**
   * One iteration of CleanSession (`full` false) or CleanFullSession
   * (`full` true): HDEL login, ZREM recent and DEL the session keys of the
   * oldest tokens. Only those keys change, and nothing does while `recent`
   * holds at most `limit` tokens.
   */
  function Clean(s: Store, limit: nat, full: bool): (r: Store)
    ensures |ZSetOf(s, Keys.Recent)| <= limit ==> r == s
    ensures SameOutside(s, r, {Keys.Login, Keys.Recent} + SessionKeys(Oldest(s, limit), full))
  {
    if |ZSetOf(s, Keys.Recent)| <= limit then s
    else
      var tokens := Oldest(s, limit);
      Del(ZRem(HDel(s, Keys.Login, tokens), Keys.Recent, tokens), SessionKeys(tokens, full))
  }

  /** Above the limit, ZRANGE recent 0 limit-1 names exactly the `limit` least recently seen tokens. */
  lemma OldestAreLowest(s: Store, limit: nat)
    requires 0 < limit < |ZSetOf(s, Keys.Recent)|
    ensures var z := ZSetOf(s, Keys.Recent);
            && Oldest(s, limit) == SortedSet.Window(z, 0, limit)
            && |Oldest(s, limit)| == limit && Oldest(s, limit) <= z.Keys
            && |z - Oldest(s, limit)| == |z| - limit
            && forall a, b | a in Oldest(s, limit) && b in z && b !in Oldest(s, limit) :: SortedSet.Precedes(z, a, b)
  {
    SortedSet.Lowest(ZSetOf(s, Keys.Recent), limit);
  }

  /** A cleanup removes exactly the evicted tokens from `recent`, so above the limit it shrinks by `limit`. */
  lemma CleanShrinksRecent(s: Store, limit: nat, full: bool)
    requires 0 < limit < |ZSetOf(s, Keys.Recent)|
    ensures ZSetOf(Clean(s, limit, full), Keys.Recent) == ZSetOf(s, Keys.Recent) - Oldest(s, limit)
    ensures |ZSetOf(Clean(s, limit, full), Keys.Recent)| == |ZSetOf(s, Keys.Recent)| - limit
  {
    OldestAreLowest(s, limit);
    SessionKeysAvoidIndexes(Oldest(s, limit), full);
  }

  /** A cleanup logs the evicted tokens out and nobody else. */
  lemma CleanLogsOut(s: Store, limit: nat, full: bool)
    ensures HashOf(Clean(s, limit, full), Keys.Login) == HashOf(s, Keys.Login) - Oldest(s, limit)
  {
    if |ZSetOf(s, Keys.Recent)| <= limit {
      assert Oldest(s, limit) == {};
      assert HashOf(s, Keys.Login) - {} == HashOf(s, Keys.Login);
    } else {
      SessionKeysAvoidIndexes(Oldest(s, limit), full);
    }
  }

  /** Every evicted token was seen before every token that stays. */
  lemma CleanEvictsOldestFirst(s: Store, limit: nat, full: bool)
    requires 0 < limit < |ZSetOf(s, Keys.Recent)|
    ensures forall a, b | a in Oldest(s, limit) && b in ZSetOf(Clean(s, limit, full), Keys.Recent) ::
              SortedSet.Precedes(ZSetOf(s, Keys.Recent), a, b)
  {
    OldestAreLowest(s, limit);
    CleanShrinksRecent(s, limit, full);
  }

  /** An evicted token's history is deleted, and in the full variant its cart too. */
  lemma CleanDeletesSessions(s: Store, limit: nat, full: bool, t: string)
    requires t in Oldest(s, limit)
    ensures !Exists(Clean(s, limit, full), ViewedKey(t))
    ensures full ==> !Exists(Clean(s, limit, full), CartKey(t))
  {
    assert ViewedKey(t) in SessionKeys(Oldest(s, limit), full);
    assert full ==> CartKey(t) in SessionKeys(Oldest(s, limit), full);
  }

  /** A token that is not evicted keeps its login and its access time. */
  lemma CleanKeepsOtherLogins(s: Store, limit: nat, full: bool, t: string)
    requires t !in Oldest(s, limit)
    ensures CheckToken(Clean(s, limit, full), t) == CheckToken(s, t)
    ensures t in ZSetOf(Clean(s, limit, full), Keys.Recent) <==> t in ZSetOf(s, Keys.Recent)
    ensures ZScore(Clean(s, limit, full), Keys.Recent, t) == ZScore(s, Keys.Recent, t)
  {
    SessionKeysAvoidIndexes(Oldest(s, limit), full);
  }

  /** ... and its history and cart. */
  lemma CleanKeepsOtherSessions(s: Store, limit: nat, full: bool, t: string)
    requires t !in Oldest(s, limit)
    ensures ZSetOf(Clean(s, limit, full), ViewedKey(t)) == ZSetOf(s, ViewedKey(t))
    ensures HashOf(Clean(s, limit, full), CartKey(t)) == HashOf(s, CartKey(t))
  {
    KeysDistinct(t);
    SessionKeysOfOthers(Oldest(s, limit), full, t);
  }

  /** CleanSession, unlike CleanFullSession, leaves every cart alone. */
  lemma CleanSessionKeepsCarts(s: Store, limit: nat, session: string)
    ensures HashOf(Clean(s, limit, false), CartKey(session)) == HashOf(s, CartKey(session))
  {
    KeysDistinct(session);
    forall u | u in Oldest(s, limit)
      ensures ViewedKey(u) != CartKey(session)
    {
      ViewedNotCart(u, session);
    }
  }

  // ---------------------------------------------------------------- cart

  /** The quantity of `item` in a cart, 0 when absent. */
  function CartQuantity(s: Store, session: string, item: string): int
  {
    Decimal.ParseOrZero(HGet(s, CartKey(session), item))
  }

  /** AddToCart: a count of at most 0 deletes the whole cart, a positive count sets that item. */
  function AddToCart(s: Store, session: string, item: string, count: int): (r: Store)
    ensures SameOutside(s, r, {CartKey(session)})
  {
    if count <= 0 then Del(s, {CartKey(session)})
    else HSet(s, CartKey(session), item, Decimal.FormatInt(count))
  }

  /**
   * After AddToCart with a positive count the cart holds exactly `count`
   * of `item` and every other item as before; with a count of at most 0
   * the cart is gone and every quantity reads 0.
   */
  lemma AddToCartQuantities(s: Store, session: string, item: string, count: int)
    ensures var r := AddToCart(s, session, item, count);
            && (count > 0 ==> CartQuantity(r, session, item) == count &&
                              item in HashOf(r, CartKey(session)) &&
                              forall i | i != item :: HGet(r, CartKey(session), i) == HGet(s, CartKey(session), i))
            && (count <= 0 ==> !Exists(r, CartKey(session)) &&
                               forall i :: CartQuantity(r, session, i) == 0)
  {
    Decimal.ParseFormat(count);
    if count <= 0 {
      var r := AddToCart(s, session, item, count);
      assert !Exists(r, CartKey(session));
      forall i
        ensures CartQuantity(r, session, i) == 0
      {
        assert HGet(r, CartKey(session), i) == "";
      }
    }
  }
}
