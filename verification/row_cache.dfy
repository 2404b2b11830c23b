/**
 * The row cache scheduler of chapter02/login_cookie.go: ScheduleRowCache
 * records when a row is next due, and each pass of CacheRows takes the
 * earliest due row and either refreshes its cached copy or, when its
 * delay is not positive, stops caching it.
 */
module RowCache {
  import opened Wrappers
  import opened Store
  import SortedSet
  import Decimal
  import Keys

  function RowKey(row: string): Key
  {
    Keys.RowCachePre + row
  }

  lemma RowKeyDistinct(row: string)
    ensures RowKey(row) != Keys.Schedule && RowKey(row) != Keys.Delay
  {
    assert RowKey(row)[0] == 'r';
  }

  /** The delay recorded for a row; a missing or unreadable entry reads as 0. */
  function DelayOf(s: Store, row: string): int
  {
    Decimal.ParseOrZero(HGet(s, Keys.Delay, row))
  }

  /**
   * ScheduleRowCache as written: the row is scheduled `delay` seconds from
   * now, and the delay goes into a hash under the key "schedule", the key
   * the schedule itself lives under, instead of under "delay".
   */
  function ScheduleRowCache(s: Store, row: string, delay: int, now: int): (r: Store)
    ensures ZSetOf(r, Keys.Schedule) == ZSetOf(s, Keys.Schedule)[row := now + delay]
    ensures HashOf(r, Keys.Delay) == HashOf(s, Keys.Delay)
  {
    HSet(ZAdd(s, Keys.Schedule, row, now + delay), Keys.Schedule, row, Decimal.FormatInt(delay))
  }

  /** ScheduleRowCache as evidently intended: the delay is recorded under "delay". */
  function ScheduleRowCacheFixed(s: Store, row: string, delay: int, now: int): (r: Store)
    ensures ZSetOf(r, Keys.Schedule) == ZSetOf(s, Keys.Schedule)[row := now + delay]
    ensures DelayOf(r, row) == delay
  {
    Decimal.ParseFormat(delay);
    HSet(ZAdd(s, Keys.Schedule, row, now + delay), Keys.Delay, row, Decimal.FormatInt(delay))
  }

  /** What one pass of CacheRows did. */
  datatype Poll = Idle | Cancelled(row: string) | Refreshed(row: string)

  /** Some scheduled row is due at `now`. */
  predicate SomethingDue(s: Store, now: int)
  {
    exists row | row in ZSetOf(s, Keys.Schedule) :: ZSetOf(s, Keys.Schedule)[row] <= now
  }

  /** The `delay <= 0` branch: the row is dropped from the schedule, the delay table and the cache. */
  function Cancel(s: Store, row: string): (r: Store)
    ensures ZSetOf(r, Keys.Schedule) == ZSetOf(s, Keys.Schedule) - {row}
    ensures row !in HashOf(r, Keys.Delay)
    ensures !Exists(r, RowKey(row))
  {
    RowKeyDistinct(row);
    Del(HDel(ZRem(s, Keys.Schedule, {row}), Keys.Delay, {row}), {RowKey(row)})
  }

  /** The positive-delay branch: the row is due again at now + delay and its fresh JSON is cached. */
  function Refresh(s: Store, row: string, now: int, delay: int, json: string): (r: Store)
    ensures ZSetOf(r, Keys.Schedule) == ZSetOf(s, Keys.Schedule)[row := now + delay]
    ensures HashOf(r, Keys.Delay) == HashOf(s, Keys.Delay)
    ensures StringOf(r, RowKey(row)) == json && RowKey(row) !in r.expiry
  {
    var t := ZAdd(s, Keys.Schedule, row, now + delay);
    RowKeyDistinct(row);
    SetElsewhere(t, RowKey(row), json, None, Keys.Schedule);
    SetElsewhere(t, RowKey(row), json, None, Keys.Delay);
    Set(t, RowKey(row), json, None)
  }

  /**
   * One pass of the CacheRows loop. `render` is the row's JSON text as
   * fetched from the database. With nothing due the pass only sleeps.
   */
  function CacheRowsStep(s: Store, now: int, render: string -> string): (r: Reply<Poll>)
    ensures r.value.Idle? <==> !SomethingDue(s, now)
    ensures r.value.Idle? ==> r.store == s
    ensures !r.value.Idle? ==>
              var z := ZSetOf(s, Keys.Schedule);
              && r.value.row in z && z[r.value.row] <= now
              && forall x | x in z :: z[r.value.row] <= z[x]
    ensures r.value.Cancelled? ==> DelayOf(s, r.value.row) <= 0 && r.store == Cancel(s, r.value.row)
    ensures r.value.Refreshed? ==>
              && DelayOf(s, r.value.row) > 0
              && r.store == Refresh(s, r.value.row, now, DelayOf(s, r.value.row), render(r.value.row))
  {
    var z := ZSetOf(s, Keys.Schedule);
    if |z| == 0 then Reply(s, Idle)
    else
      var row := SortedSet.First(z);
      if z[row] > now then Reply(s, Idle)
      else
        var delay := DelayOf(s, row);
        if delay <= 0 then Reply(Cancel(s, row), Cancelled(row))
        else Reply(Refresh(s, row, now, delay, render(row)), Refreshed(row))
  }

  /** A cancelled row leaves the schedule, its delay entry and its cached copy. */
  lemma CancelForgetsRow(s: Store, now: int, render: string -> string)
    requires CacheRowsStep(s, now, render).value.Cancelled?
    ensures var r := CacheRowsStep(s, now, render);
            var row := r.value.row;
            && ZSetOf(r.store, Keys.Schedule) == ZSetOf(s, Keys.Schedule) - {row}
            && row !in HashOf(r.store, Keys.Delay)
            && !Exists(r.store, RowKey(row))
  {
  }

  /**
   * A refreshed row is due again `delay` seconds from now, the delay table
   * is left as it was, and its cached copy holds the freshly rendered row
   * with no time-to-live.
   */
  lemma RefreshReschedules(s: Store, now: int, render: string -> string)
    requires CacheRowsStep(s, now, render).value.Refreshed?
    ensures var r := CacheRowsStep(s, now, render);
            var row := r.value.row;
            && ZSetOf(r.store, Keys.Schedule) == ZSetOf(s, Keys.Schedule)[row := now + DelayOf(s, row)]
            && ZSetOf(r.store, Keys.Schedule)[row] > now
            && HashOf(r.store, Keys.Delay) == HashOf(s, Keys.Delay)
            && StringOf(r.store, RowKey(row)) == render(row)
            && RowKey(row) !in r.store.expiry
  {
  }

  /** A pass touches only the schedule, the delay table and the cached copy of the row it handled. */
  lemma PassFrame(s: Store, now: int, render: string -> string)
    requires !CacheRowsStep(s, now, render).value.Idle?
    ensures var r := CacheRowsStep(s, now, render);
            SameOutside(s, r.store, {Keys.Schedule, Keys.Delay, RowKey(r.value.row)})
  {
  }

  /**
   * As written, a row scheduled with a positive delay into an otherwise
   * empty schedule is cancelled at its first due pass: no delay was ever
   * recorded for it, so it reads as 0.
   */
  lemma ScheduledRowCancelled()
    ensures var s := ScheduleRowCache(Empty, "row1", 5, 100);
            CacheRowsStep(s, 105, _ => "\"1111\"").value == Cancelled("row1")
  {
    var s := ScheduleRowCache(Empty, "row1", 5, 100);
    var z := ZSetOf(s, Keys.Schedule);
    assert z == map["row1" := 105];
    assert z.Keys == {"row1"};
    assert SortedSet.First(z) == "row1";
    assert HGet(s, Keys.Delay, "row1") == "";
  }

  /**
   * With the corrected scheduling, a row scheduled with a positive delay
   * and due before every other row is refreshed, not cancelled, at its
   * first due pass.
   */
  lemma ScheduledRowRefreshed(s: Store, row: string, delay: int, now: int, later: int, render: string -> string)
    requires delay > 0 && now + delay <= later
    requires forall x | x in ZSetOf(s, Keys.Schedule) && x != row :: ZSetOf(s, Keys.Schedule)[x] > now + delay
    ensures CacheRowsStep(ScheduleRowCacheFixed(s, row, delay, now), later, render).value == Refreshed(row)
  {
    var t := ScheduleRowCacheFixed(s, row, delay, now);
    var z := ZSetOf(t, Keys.Schedule);
    forall x | x in z && x != row
      ensures SortedSet.Precedes(z, row, x)
    {
    }
    SortedSet.FirstUnique(z, row);
  }
}
