/**
 * The logs of chapter05/log.go. LogRecent pushes a time-stamped message
 * onto the list `recent-log-list:<name>:<severity>`. LogCommon counts a
 * message in the sorted set `frequency-log-zset:<name>:<severity>`, keeps
 * the hour that set was started in under `<set>:start`, and when a later
 * hour begins moves the set aside to `<set>:last` so that counting starts
 * afresh.
 */
module Logs {
  import opened Wrappers
  import opened Store
  import Decimal
  import Keys

  const DefaultSeverity := "INFO"

  /** How many recent messages the list is meant to keep. */
  const RecentLimit := 100

  /** The severity a message is logged under: an empty one means "INFO". */
  function Severity(severity: string): string
  {
    if severity == "" then DefaultSeverity else severity
  }

  function RecentKey(name: string, severity: string): Key
  {
    Keys.RecentLogListPre + name + ":" + Severity(severity)
  }

  function CommonKey(name: string, severity: string): Key
  {
    Keys.FrequencyLogZSetPre + name + ":" + Severity(severity)
  }

  function StartKey(name: string, severity: string): Key
  {
    CommonKey(name, severity) + ":start"
  }

  function LastKey(name: string, severity: string): Key
  {
    CommonKey(name, severity) + ":last"
  }

  /** A message logged without a severity lands exactly where an "INFO" message does. */
  lemma DefaultIsInfo(name: string)
    ensures RecentKey(name, "") == RecentKey(name, DefaultSeverity)
    ensures CommonKey(name, "") == CommonKey(name, DefaultSeverity)
    ensures StartKey(name, "") == StartKey(name, DefaultSeverity)
  {
  }

  /** The four keys of one log are pairwise different. */
  lemma LogKeysDistinct(name: string, severity: string)
    ensures RecentKey(name, severity) !in {CommonKey(name, severity), StartKey(name, severity), LastKey(name, severity)}
    ensures CommonKey(name, severity) != StartKey(name, severity)
    ensures CommonKey(name, severity) != LastKey(name, severity)
    ensures StartKey(name, severity) != LastKey(name, severity)
  {
    var c := CommonKey(name, severity);
    assert RecentKey(name, severity)[0] == 'r';
    assert c[0] == 'f' && StartKey(name, severity)[0] == 'f' && LastKey(name, severity)[0] == 'f';
    assert StartKey(name, severity)[|c| + 1] == 's';
    assert LastKey(name, severity)[|c| + 1] == 'l';
  }

  // ------------------------------------------------------------ LogRecent

  /** A list entry: the timestamp, a dash, the message. */
  function Entry(stamp: string, message: string): string
  {
    stamp + "-" + message
  }

  /**
   * LogRecent as written: the entry is pushed to the front of the list.
   * The read of the first 100 entries that follows changes nothing, so
   * the list is never shortened.
   */
  function LogRecent(s: Store, name: string, message: string, severity: string, stamp: string): (r: Store)
    ensures ListOf(r, RecentKey(name, severity)) == [Entry(stamp, message)] + ListOf(s, RecentKey(name, severity))
  {
    LPush(s, RecentKey(name, severity), Entry(stamp, message))
  }

  /** LogRecent writes nothing but its own list. */
  lemma LogRecentFrame(s: Store, name: string, message: string, severity: string, stamp: string)
    ensures SameOutside(s, LogRecent(s, name, message, severity, stamp), {RecentKey(name, severity)})
  {
  }

  /** As written, every message lengthens the list: a list of 100 entries grows to 101. */
  lemma RecentNeverTrimmed(s: Store, name: string, message: string, severity: string, stamp: string)
    requires |ListOf(s, RecentKey(name, severity))| >= RecentLimit
    ensures |ListOf(LogRecent(s, name, message, severity, stamp), RecentKey(name, severity))| > RecentLimit
  {
  }

  /** LogRecent as evidently intended: push, then trim the list to its 100 newest entries. */
  function LogRecentFixed(s: Store, name: string, message: string, severity: string, stamp: string): (r: Store)
    ensures var before := ListOf(s, RecentKey(name, severity));
            var after := ListOf(r, RecentKey(name, severity));
            && |after| <= RecentLimit
            && |after| == (if |before| < RecentLimit then |before| + 1 else RecentLimit)
            && after[0] == Entry(stamp, message)
            && forall i | 0 < i < |after| :: after[i] == before[i - 1]
  {
    var pushed := LogRecent(s, name, message, severity, stamp);
    LTrim(pushed, RecentKey(name, severity), RecentLimit)
  }

  // ------------------------------------------------------------ LogCommon

  /** The hour the current set was started in; missing or unreadable text reads as 0. */
  function Existing(s: Store, name: string, severity: string): int
  {
    Decimal.ParseOrZero(StringOf(s, StartKey(name, severity)))
  }

  /** The three outcomes of the hour check. */
  datatype Rotation = Rotated | Started | Kept

  /**
   * A recorded hour that is set and earlier than the current one starts a
   * new set; no recorded hour (0) just records the current one; anything
   * else keeps the current set.
   */
  function RotationOf(existing: int, hour: int): Rotation
  {
    if existing != 0 && existing < hour then Rotated
    else if existing == 0 then Started
    else Kept
  }

  /** The hour check and what each outcome writes. */
  function Rotate(s: Store, name: string, severity: string, hour: int): Store
  {
    var start := Decimal.FormatInt(hour);
    match RotationOf(Existing(s, name, severity), hour)
    case Rotated => Set(Rename(s, CommonKey(name, severity), LastKey(name, severity)), StartKey(name, severity), start, None)
    case Started => Set(s, StartKey(name, severity), start, None)
    case Kept => s
  }

  /**
   * One transaction of LogCommon at the given hour: the hour check, then
   * the message's count goes up by one and the message is pushed onto
   * the recent list.
   */
  function LogCommonPass(s: Store, name: string, message: string, severity: string, hour: int, stamp: string): Store
  {
    var t := Rotate(s, name, severity, hour);
    LogRecent(ZIncrBy(t, CommonKey(name, severity), message, 1), name, message, severity, stamp)
  }

  /** A moment of the local clock: whole hours since the epoch, and the text of the timestamp. */
  datatype Clock = Clock(hours: nat, stamp: string)

  /** `Hour()` of the local time: the hour of the day. */
  function HourOfDay(c: Clock): (h: nat)
    ensures h < 24
  {
    c.hours % 24
  }

  /**
   * LogCommon as written: the loop runs one transaction per pass until
   * its deadline, with no exit after a transaction that went through;
   * `passes` are the clock readings of the passes the deadline allows.
   */
  function LogCommon(s: Store, name: string, message: string, severity: string, passes: seq<Clock>): Store
    decreases |passes|
  {
    if passes == [] then s
    else
      var t := LogCommonPass(s, name, message, severity, HourOfDay(passes[0]), passes[0].stamp);
      LogCommon(t, name, message, severity, passes[1..])
  }

  /** LogCommon as evidently intended: one transaction, stamped with the absolute hour. */
  function LogCommonFixed(s: Store, name: string, message: string, severity: string, passes: seq<Clock>): Store
  {
    if passes == [] then s
    else LogCommonPass(s, name, message, severity, passes[0].hours, passes[0].stamp)
  }

  // --------------------------------------------------- the hour check

  /** On rotation the current set moves to `:last`, leaving no current set, and the hour is recorded. */
  lemma RotatedMovesSet(s: Store, name: string, severity: string, hour: int)
    requires RotationOf(Existing(s, name, severity), hour) == Rotated
    requires Exists(s, CommonKey(name, severity))
    ensures var r := Rotate(s, name, severity, hour);
            && ZSetOf(r, LastKey(name, severity)) == ZSetOf(s, CommonKey(name, severity))
            && ZSetOf(r, CommonKey(name, severity)) == map[]
            && StringOf(r, StartKey(name, severity)) == Decimal.FormatInt(hour)
  {
    LogKeysDistinct(name, severity);
    var renamed := Rename(s, CommonKey(name, severity), LastKey(name, severity));
    SetElsewhere(renamed, StartKey(name, severity), Decimal.FormatInt(hour), None, LastKey(name, severity));
    SetElsewhere(renamed, StartKey(name, severity), Decimal.FormatInt(hour), None, CommonKey(name, severity));
  }

  /** With no hour recorded, the hour is recorded and both sets are left alone. */
  lemma StartedRecordsHour(s: Store, name: string, severity: string, hour: int)
    requires RotationOf(Existing(s, name, severity), hour) == Started
    ensures var r := Rotate(s, name, severity, hour);
            && ZSetOf(r, CommonKey(name, severity)) == ZSetOf(s, CommonKey(name, severity))
            && ZSetOf(r, LastKey(name, severity)) == ZSetOf(s, LastKey(name, severity))
            && StringOf(r, StartKey(name, severity)) == Decimal.FormatInt(hour)
  {
    LogKeysDistinct(name, severity);
    SetElsewhere(s, StartKey(name, severity), Decimal.FormatInt(hour), None, LastKey(name, severity));
    SetElsewhere(s, StartKey(name, severity), Decimal.FormatInt(hour), None, CommonKey(name, severity));
  }

  /** A recorded hour that is not earlier than the current one changes nothing, the 23 to 0 wrap included. */
  lemma KeptChangesNothing(s: Store, name: string, severity: string, hour: int)
    requires Existing(s, name, severity) != 0 && Existing(s, name, severity) >= hour
    ensures RotationOf(Existing(s, name, severity), hour) == Kept
    ensures Rotate(s, name, severity, hour) == s
  {
  }

  /** After a pass the recorded hour reads back as the pass's hour, unless the set was kept. */
  lemma PassRecordsHour(s: Store, name: string, message: string, severity: string, hour: int, stamp: string)
    ensures var e := Existing(s, name, severity);
            var r := LogCommonPass(s, name, message, severity, hour, stamp);
            Existing(r, name, severity) == if RotationOf(e, hour) == Kept then e else hour
  {
    LogKeysDistinct(name, severity);
    var t := Rotate(s, name, severity, hour);
    assert StringOf(t, StartKey(name, severity)) == if RotationOf(Existing(s, name, severity), hour) == Kept
                                                    then StringOf(s, StartKey(name, severity)) else Decimal.FormatInt(hour);
    Decimal.ParseFormat(hour);
    var u := ZIncrBy(t, CommonKey(name, severity), message, 1);
    assert StringOf(u, StartKey(name, severity)) == StringOf(t, StartKey(name, severity));
    LogRecentFrame(u, name, message, severity, stamp);
    assert At(u, StartKey(name, severity)) == At(LogRecent(u, name, message, severity, stamp), StartKey(name, severity));
  }

  // ------------------------------------------------------ the counting

  /**
   * Every pass counts the message once in the current set; right after a
   * rotation it is the set's only count, so it stands at exactly 1.
   */
  lemma PassCounts(s: Store, name: string, message: string, severity: string, hour: int, stamp: string)
    ensures var rotated := RotationOf(Existing(s, name, severity), hour) == Rotated && Exists(s, CommonKey(name, severity));
            var r := LogCommonPass(s, name, message, severity, hour, stamp);
            ZScore(r, CommonKey(name, severity), message) == (if rotated then 0 else ZScore(s, CommonKey(name, severity), message)) + 1
  {
    var t := Rotate(s, name, severity, hour);
    var e := Existing(s, name, severity);
    if RotationOf(e, hour) == Rotated && Exists(s, CommonKey(name, severity)) {
      RotatedMovesSet(s, name, severity, hour);
    } else if RotationOf(e, hour) == Rotated {
      LogKeysDistinct(name, severity);
      SetElsewhere(s, StartKey(name, severity), Decimal.FormatInt(hour), None, CommonKey(name, severity));
    } else if RotationOf(e, hour) == Started {
      StartedRecordsHour(s, name, severity, hour);
    }
    assert ZScore(t, CommonKey(name, severity), message) ==
           if RotationOf(e, hour) == Rotated && Exists(s, CommonKey(name, severity)) then 0 else ZScore(s, CommonKey(name, severity), message);
  }

  /** Every pass also pushes the stamped message onto the recent list. */
  lemma PassPushesRecent(s: Store, name: string, message: string, severity: string, hour: int, stamp: string)
    ensures var r := LogCommonPass(s, name, message, severity, hour, stamp);
            ListOf(r, RecentKey(name, severity)) == [Entry(stamp, message)] + ListOf(s, RecentKey(name, severity))
  {
    LogKeysDistinct(name, severity);
    var t := Rotate(s, name, severity, hour);
    assert ListOf(t, RecentKey(name, severity)) == ListOf(s, RecentKey(name, severity));
  }

  /** A second pass in the same hour keeps the set the first one wrote to, as long as the hour is not 0. */
  lemma SameHourKeeps(s: Store, name: string, message: string, severity: string, hour: int, stamp: string)
    requires hour != 0
    ensures var r := LogCommonPass(s, name, message, severity, hour, stamp);
            RotationOf(Existing(r, name, severity), hour) == Kept
  {
    PassRecordsHour(s, name, message, severity, hour, stamp);
  }

  // --------------------------------------------------------- findings

  /**
   * As written, rotation stops at midnight: once 23 is recorded, a pass
   * at 05:00 the next day keeps adding to the old set, and so does every
   * later pass, since no hour of the day exceeds 23.
   */
  lemma RotationStopsAtMidnight(s: Store, name: string, message: string, severity: string, first: Clock, later: Clock)
    requires HourOfDay(first) == 23
    ensures var r := LogCommon(s, name, message, severity, [first]);
            RotationOf(Existing(r, name, severity), HourOfDay(later)) == Kept
  {
    var r := LogCommonPass(s, name, message, severity, 23, first.stamp);
    PassRecordsHour(s, name, message, severity, 23, first.stamp);
    assert Existing(r, name, severity) >= 23;
    assert LogCommon(s, name, message, severity, [first]) == LogCommon(r, name, message, severity, []);
  }

  /** With absolute hours, a pass in any later hour than a recorded one starts a new set. */
  lemma FixedRotatesEachHour(s: Store, name: string, message: string, severity: string, first: Clock, later: Clock)
    requires 0 < first.hours < later.hours
    requires Existing(s, name, severity) <= first.hours
    ensures var r := LogCommonFixed(s, name, message, severity, [first]);
            RotationOf(Existing(r, name, severity), later.hours) == Rotated
  {
    PassRecordsHour(s, name, message, severity, first.hours, first.stamp);
  }

  /** As written, a deadline that allows two passes counts one message twice. */
  lemma LoopCountsTwice(s: Store, name: string, message: string, severity: string, c: Clock)
    requires HourOfDay(c) != 0 && ZScore(s, CommonKey(name, severity), message) == 0
    requires RotationOf(Existing(s, name, severity), HourOfDay(c)) != Rotated
    ensures ZScore(LogCommon(s, name, message, severity, [c, c]), CommonKey(name, severity), message) == 2
  {
    var t := LogCommonPass(s, name, message, severity, HourOfDay(c), c.stamp);
    PassCounts(s, name, message, severity, HourOfDay(c), c.stamp);
    SameHourKeeps(s, name, message, severity, HourOfDay(c), c.stamp);
    PassCounts(t, name, message, severity, HourOfDay(c), c.stamp);
    var u := LogCommonPass(t, name, message, severity, HourOfDay(c), c.stamp);
    assert [c, c][1..] == [c];
    assert LogCommon(t, name, message, severity, [c]) == LogCommon(u, name, message, severity, []);
  }

  /** The corrected loop counts a message once, however many passes the deadline would allow. */
  lemma FixedCountsOnce(s: Store, name: string, message: string, severity: string, passes: seq<Clock>)
    requires passes != []
    requires RotationOf(Existing(s, name, severity), passes[0].hours) != Rotated
    ensures ZScore(LogCommonFixed(s, name, message, severity, passes), CommonKey(name, severity), message)
            == ZScore(s, CommonKey(name, severity), message) + 1
  {
    PassCounts(s, name, message, severity, passes[0].hours, passes[0].stamp);
  }
}
