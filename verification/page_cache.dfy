/**
 * The request cache of chapter01/login_cookie.go and
 * chapter02/login_cookie.go. A request is described by its text `req`
 * (which names the cache key) and by its query string after parsing, a
 * map from parameter name to the values given for it, in order.
 */
module PageCache {
  import opened Wrappers
  import opened Store
  import SortedSet
  import Keys

  type Query = map<string, seq<string>>

  /** Seconds a cached page lives. */
  const PageTtl := 300

  /** Only items ranked below this in the popularity index are cached (chapter02). */
  const CacheRankBound := 10000

  function PageKey(req: string): Key
  {
    Keys.ReqCachePre + req
  }

  /** extractItemId: the first value of the `item` parameter, or "" when there is none. */
  function ItemId(q: Query): string
  {
    if "item" in q && |q["item"]| > 0 then q["item"][0] else ""
  }

  /** A query is dynamic when some value of some parameter contains an underscore. */
  predicate Dynamic(q: Query)
  {
    exists k | k in q :: exists v | v in q[k] :: '_' in v
  }

  /** isDynamic: the nested loops over every parameter and every value. */
  method IsDynamic(q: Query) returns (b: bool)
    ensures b <==> Dynamic(q)
  {
    var pending := q.Keys;
    while pending != {}
      invariant pending <= q.Keys
      invariant forall k | k in q && k !in pending :: forall v | v in q[k] :: '_' !in v
      decreases |pending|
    {
      var k :| k in pending;
      var values := q[k];
      var i := 0;
      while i < |values|
        invariant 0 <= i <= |values|
        invariant forall j | 0 <= j < i :: '_' !in values[j]
      {
        if '_' in values[i] {
          return true;
        }
        i := i + 1;
      }
      pending := pending - {k};
    }
    return false;
  }

  /**
   * CanCache of chapter02: an item page that is not dynamic and whose item
   * has popularity rank r with r != 0 and r < 10000. A missing member
   * reads as rank 0.
   */
  function CanCache(s: Store, q: Query): bool
  {
    var id := ItemId(q);
    if id == "" || Dynamic(q) then false
    else
      var rank := ZRank(s, Keys.Viewed, id);
      rank != 0 && rank < CacheRankBound
  }

  /**
   * CanCache of chapter01: every item page that is not dynamic, that is,
   * one whose first `item` value is not empty and none of whose values
   * contains an underscore.
   */
  function CanCacheBasic(q: Query): (r: bool)
    ensures r <==> "item" in q && |q["item"]| > 0 && q["item"][0] != "" &&
                   forall k | k in q :: forall v | v in q[k] :: '_' !in v
  {
    ItemId(q) != "" && !Dynamic(q)
  }

  /**
   * CanCache in terms of the popularity order: the item must be present
   * and be neither the most viewed item nor outside the first 10000.
   */
  lemma CanCacheMeans(s: Store, q: Query)
    ensures CanCache(s, q) <==>
              && CanCacheBasic(q)
              && ItemId(q) in ZSetOf(s, Keys.Viewed)
              && 0 < SortedSet.Rank(ZSetOf(s, Keys.Viewed), ItemId(q)) < CacheRankBound
  {
  }

  /**
   * The cache step both chapters share once the cacheability decision is
   * made: uncacheable requests go straight to the callback; otherwise a
   * live cached page is returned, and on a miss the callback's page is
   * stored for 300 seconds while the empty pre-read content is returned.
   */
  function CacheStep(s: Store, req: string, cacheable: bool, now: int, callback: string -> string): (r: Reply<string>)
    ensures !cacheable ==> r == Reply(s, callback(req))
    ensures cacheable && GetLive(s, PageKey(req), now) != "" ==> r == Reply(s, GetLive(s, PageKey(req), now))
  {
    if !cacheable then Reply(s, callback(req))
    else
      var key := PageKey(req);
      var content := GetLive(s, key, now);
      if content == "" then Reply(Set(s, key, callback(req), Some(now + PageTtl)), content)
      else Reply(s, content)
  }

  /**
   * CacheRequest of chapter02: a request that may not be cached is handed
   * to the callback; one that may is served from a live cached page, or on
   * a miss has its page stored for 300 seconds while "" is returned. Only
   * the request's own cache key is ever written.
   */
  function CacheRequest(s: Store, req: string, q: Query, now: int, callback: string -> string): (r: Reply<string>)
    ensures SameOutside(s, r.store, {PageKey(req)})
    ensures !CanCache(s, q) ==> r == Reply(s, callback(req))
    ensures CanCache(s, q) && GetLive(s, PageKey(req), now) != "" ==> r == Reply(s, GetLive(s, PageKey(req), now))
    ensures CanCache(s, q) && GetLive(s, PageKey(req), now) == "" ==>
              r.value == "" && GetLive(r.store, PageKey(req), now + PageTtl) == callback(req)
  {
    if CanCache(s, q) && GetLive(s, PageKey(req), now) == "" then
      CacheMissStores(s, req, true, now, callback, now + PageTtl);
      CacheStep(s, req, true, now, callback)
    else CacheStep(s, req, CanCache(s, q), now, callback)
  }

  /**
   * CacheRequest of chapter01: the same, with every non-dynamic item page
   * cacheable.
   */
  function CacheRequestBasic(s: Store, req: string, q: Query, now: int, callback: string -> string): (r: Reply<string>)
    ensures SameOutside(s, r.store, {PageKey(req)})
    ensures (ItemId(q) == "" || Dynamic(q)) ==> r == Reply(s, callback(req))
    ensures CanCacheBasic(q) && GetLive(s, PageKey(req), now) != "" ==> r == Reply(s, GetLive(s, PageKey(req), now))
    ensures CanCacheBasic(q) && GetLive(s, PageKey(req), now) == "" ==>
              r.value == "" && GetLive(r.store, PageKey(req), now + PageTtl) == callback(req)
  {
    if CanCacheBasic(q) && GetLive(s, PageKey(req), now) == "" then
      CacheMissStores(s, req, true, now, callback, now + PageTtl);
      CacheStep(s, req, true, now, callback)
    else CacheStep(s, req, CanCacheBasic(q), now, callback)
  }

  /**
   * Chapter02's test only narrows chapter01's: whatever it caches chapter01
   * caches too, and a page only chapter01 caches is for an item missing
   * from the popularity index or ranked 0 or from 10000 on.
   */
  lemma CanCacheNarrowsBasic(s: Store, q: Query)
    ensures CanCache(s, q) ==> CanCacheBasic(q)
    ensures CanCacheBasic(q) && !CanCache(s, q) ==>
              ItemId(q) !in ZSetOf(s, Keys.Viewed) || ZRank(s, Keys.Viewed, ItemId(q)) == 0 ||
              ZRank(s, Keys.Viewed, ItemId(q)) >= CacheRankBound
  {
  }

  /**
   * On a miss the callback's page is stored under reqcache:<req>, readable
   * until 300 seconds from now, no other key changes, and the caller gets
   * the empty pre-read content.
   */
  lemma CacheMissStores(s: Store, req: string, cacheable: bool, now: int, callback: string -> string, later: int)
    requires cacheable && GetLive(s, PageKey(req), now) == ""
    requires now <= later <= now + PageTtl
    ensures var r := CacheStep(s, req, cacheable, now, callback);
            && r.value == ""
            && GetLive(r.store, PageKey(req), later) == callback(req)
            && SameOutside(s, r.store, {PageKey(req)})
  {
  }

  /** A stored page expires: more than 300 seconds later it reads as missing again. */
  lemma CachedPageExpires(s: Store, req: string, cacheable: bool, now: int, callback: string -> string, later: int)
    requires cacheable && GetLive(s, PageKey(req), now) == ""
    requires later > now + PageTtl
    ensures GetLive(CacheStep(s, req, cacheable, now, callback).store, PageKey(req), later) == ""
  {
  }

  /**
   * A second cacheable request within the time-to-live is served from the
   * cache: it returns the page the first one rendered, when that page is
   * not empty, and writes nothing.
   */
  lemma CacheServesRepeat(s: Store, req: string, now: int, callback: string -> string, later: int)
    requires GetLive(s, PageKey(req), now) == "" && callback(req) != ""
    requires now <= later <= now + PageTtl
    ensures var first := CacheStep(s, req, true, now, callback);
            var second := CacheStep(first.store, req, true, later, callback);
            second == Reply(first.store, callback(req))
  {
    CacheMissStores(s, req, true, now, callback, later);
  }

  /**
   * As written, a cacheable request that misses returns "" rather than the
   * page it just rendered: with an empty store and a callback that renders
   * "page", the caller receives "".
   */
  lemma CacheMissReturnsEmpty()
    ensures CacheStep(Empty, "/item?item=1", true, 0, _ => "page").value == ""
  {
  }

  /** The evidently intended step: on a miss the rendered page is returned as well as stored. */
  function CacheStepFixed(s: Store, req: string, cacheable: bool, now: int, callback: string -> string): (r: Reply<string>)
    ensures r.store == CacheStep(s, req, cacheable, now, callback).store
  {
    if !cacheable then Reply(s, callback(req))
    else
      var key := PageKey(req);
      var content := GetLive(s, key, now);
      if content == "" then
        var page := callback(req);
        Reply(Set(s, key, page, Some(now + PageTtl)), page)
      else Reply(s, content)
  }

  /**
   * The corrected cache is transparent: as long as whatever it holds for
   * the request was rendered by the same callback, the caller always gets
   * exactly the callback's page, cached or not.
   */
  lemma CacheFixedTransparent(s: Store, req: string, cacheable: bool, now: int, callback: string -> string)
    requires GetLive(s, PageKey(req), now) in {"", callback(req)}
    ensures CacheStepFixed(s, req, cacheable, now, callback).value == callback(req)
  {
  }

  /**
   * As written, CanCache refuses the most viewed item: it holds rank 0,
   * which the `rank != 0` test (meant to reject a missing item) also
   * rejects.
   */
  lemma CanCacheRefusesTop()
    ensures var s := ZAdd(Empty, Keys.Viewed, "1", -5);
            var q: Query := map["item" := ["1"]];
            && ZRank(s, Keys.Viewed, "1") == 0
            && "1" in ZSetOf(s, Keys.Viewed)
            && !CanCache(s, q)
  {
    var s := ZAdd(Empty, Keys.Viewed, "1", -5);
    var z := ZSetOf(s, Keys.Viewed);
    assert z == map["1" := -5];
    assert SortedSet.Below(z, "1") == {};
    var q: Query := map["item" := ["1"]];
    assert !Dynamic(q);
  }

  /** The evidently intended test: the item is present and among the first 10000 ranks. */
  function CanCacheFixed(s: Store, q: Query): bool
  {
    var id := ItemId(q);
    id != "" && !Dynamic(q) && id in ZSetOf(s, Keys.Viewed) && ZRank(s, Keys.Viewed, id) < CacheRankBound
  }

  /**
   * The corrected test caches exactly the pages of the 10000 most viewed
   * items: an item is accepted precisely when fewer than 10000 items were
   * viewed more often (or as often and sort before it).
   */
  lemma CanCacheFixedMeans(s: Store, q: Query)
    ensures CanCacheFixed(s, q) <==>
              && CanCacheBasic(q)
              && ItemId(q) in ZSetOf(s, Keys.Viewed)
              && |SortedSet.Below(ZSetOf(s, Keys.Viewed), ItemId(q))| < CacheRankBound
  {
  }

  /** The corrected test accepts everything the written one does, and also the most viewed item. */
  lemma CanCacheFixedWidens(s: Store, q: Query)
    ensures CanCache(s, q) ==> CanCacheFixed(s, q)
    ensures CanCacheFixed(s, q) && !CanCache(s, q) ==> ZRank(s, Keys.Viewed, ItemId(q)) == 0
  {
  }

  /** CacheRequest with both corrections. */
  function CacheRequestFixed(s: Store, req: string, q: Query, now: int, callback: string -> string): Reply<string>
  {
    CacheStepFixed(s, req, CanCacheFixed(s, q), now, callback)
  }
}
