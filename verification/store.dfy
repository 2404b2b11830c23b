/**
 * The Redis keyspace as one immutable value. Each value type has its own
 * namespace; a command that replaces a value outright (SET, DEL, RENAME)
 * clears the key in every namespace, while a collection command works in
 * its own. A collection emptied by a removal keeps an empty entry, which
 * every read treats exactly like a missing key. Reads of missing keys,
 * fields and members return Go's zero value
 * (`""`, `0`), which is what `.Val()` yields when go-redis reports a miss.
 */
module Store {
  import opened Wrappers
  import Decimal
  import SortedSet

  type Key = string
  type Hash = map<string, string>
  type ZSet = SortedSet.ZSet

  datatype Store = Store(
    strings: map<Key, string>,
    hashes: map<Key, Hash>,
    zsets: map<Key, ZSet>,
    sets: map<Key, set<string>>,
    lists: map<Key, seq<string>>,
    /** Absolute deadline of every key written with a time-to-live. */
    expiry: map<Key, int>)

  /** The store after an operation, with the operation's return value. */
  datatype Reply<T> = Reply(store: Store, value: T)

  const Empty := Store(map[], map[], map[], map[], map[], map[])

  function Lookup<V>(m: map<Key, V>, k: Key): Option<V>
  {
    if k in m then Some(m[k]) else None
  }

  /** Everything the store holds under one key, across all namespaces. */
  datatype Slot = Slot(
    str: Option<string>, hash: Option<Hash>, zset: Option<ZSet>,
    members: Option<set<string>>, list: Option<seq<string>>, deadline: Option<int>)

  function At(s: Store, k: Key): Slot
  {
    Slot(Lookup(s.strings, k), Lookup(s.hashes, k), Lookup(s.zsets, k),
         Lookup(s.sets, k), Lookup(s.lists, k), Lookup(s.expiry, k))
  }

  /** `s` and `t` agree on every key outside `ks`. */
  ghost predicate SameOutside(s: Store, t: Store, ks: set<Key>)
  {
    forall k {:trigger At(t, k)} :: k !in ks ==> At(s, k) == At(t, k)
  }

  /** A second write to the same entry of a map overrides the first. */
  lemma UpdateTwice<V>(m: map<string, V>, k: string, a: V, b: V)
    ensures m[k := a][k := b] == m[k := b]
  {
  }

  /** Keys built from one prefix and different suffixes differ. */
  lemma PrefixInjective(p: string, a: string, b: string)
    requires p + a == p + b
    ensures a == b
  {
    assert a == (p + a)[|p|..];
    assert b == (p + b)[|p|..];
  }

  predicate Exists(s: Store, k: Key)
  {
    k in s.strings || k in s.hashes || k in s.zsets || k in s.sets || k in s.lists
  }

  // ---------------------------------------------------------------- reads

  /** GET, ignoring time-to-live. */
  function StringOf(s: Store, k: Key): string
  {
    if k in s.strings then s.strings[k] else ""
  }

  /** GET at time `now`: a key past its deadline reads as missing. */
  function GetLive(s: Store, k: Key, now: int): string
  {
    if k in s.expiry && s.expiry[k] < now then "" else StringOf(s, k)
  }

  function HashOf(s: Store, k: Key): Hash
  {
    if k in s.hashes then s.hashes[k] else map[]
  }

  function HGet(s: Store, k: Key, f: string): string
  {
    var h := HashOf(s, k);
    if f in h then h[f] else ""
  }

  function ZSetOf(s: Store, k: Key): ZSet
  {
    if k in s.zsets then s.zsets[k] else map[]
  }

  function ZScore(s: Store, k: Key, m: string): int
  {
    var z := ZSetOf(s, k);
    if m in z then z[m] else 0
  }

  function ZRank(s: Store, k: Key, m: string): nat
  {
    var z := ZSetOf(s, k);
    if m in z then SortedSet.Rank(z, m) else 0
  }

  function SetOf(s: Store, k: Key): set<string>
  {
    if k in s.sets then s.sets[k] else {}
  }

  function ListOf(s: Store, k: Key): seq<string>
  {
    if k in s.lists then s.lists[k] else []
  }

  // ------------------------------------------------- collection plumbing

  function WithHash(s: Store, k: Key, h: Hash): (r: Store)
    ensures HashOf(r, k) == h
    ensures r.strings == s.strings && r.zsets == s.zsets && r.sets == s.sets && r.lists == s.lists
  {
    s.(hashes := s.hashes[k := h])
  }

  function WithZSet(s: Store, k: Key, z: ZSet): (r: Store)
    ensures ZSetOf(r, k) == z
    ensures r.strings == s.strings && r.hashes == s.hashes && r.sets == s.sets && r.lists == s.lists
  {
    s.(zsets := s.zsets[k := z])
  }

  function WithSet(s: Store, k: Key, m: set<string>): (r: Store)
    ensures SetOf(r, k) == m
    ensures r.strings == s.strings && r.hashes == s.hashes && r.zsets == s.zsets && r.lists == s.lists
  {
    s.(sets := s.sets[k := m])
  }

  // --------------------------------------------------------------- hashes

  function HSet(s: Store, k: Key, f: string, v: string): (r: Store)
    ensures HashOf(r, k) == HashOf(s, k)[f := v]
  {
    WithHash(s, k, HashOf(s, k)[f := v])
  }

  /** HSET with several field-value pairs at once. */
  function HSetAll(s: Store, k: Key, fields: Hash): (r: Store)
    ensures HashOf(r, k) == HashOf(s, k) + fields
  {
    WithHash(s, k, HashOf(s, k) + fields)
  }

  function HDel(s: Store, k: Key, fs: set<string>): (r: Store)
    ensures HashOf(r, k) == HashOf(s, k) - fs
  {
    WithHash(s, k, HashOf(s, k) - fs)
  }

  /**
   * HINCRBY: a missing field counts as 0; a field that is not an integer
   * makes the command fail (`false`) and leaves the store as it was.
   */
  function HIncrBy(s: Store, k: Key, f: string, d: int): (r: Reply<bool>)
    ensures r.store.strings == s.strings && r.store.zsets == s.zsets && r.store.sets == s.sets
  {
    var cur := FieldInt(s, k, f);
    if cur.None? then Reply(s, false)
    else Reply(HSet(s, k, f, Decimal.FormatInt(cur.value + d)), true)
  }

  /** The integer a hash field holds for HINCRBY: 0 when missing, nothing when not an integer. */
  function FieldInt(s: Store, k: Key, f: string): Option<int>
  {
    if f in HashOf(s, k) then Decimal.ParseInt(HGet(s, k, f)) else Some(0)
  }

  lemma HIncrByEffect(s: Store, k: Key, f: string, d: int)
    ensures var r := HIncrBy(s, k, f, d);
            && (r.value <==> (f !in HashOf(s, k) || Decimal.ParseInt(HGet(s, k, f)).Some?))
            && (r.value ==>
                  HashOf(r.store, k) == HashOf(s, k)[f := Decimal.FormatInt(Decimal.ParseOrZero(HGet(s, k, f)) + d)])
            && (!r.value ==> r.store == s)
  {
  }

  /** HINCRBY leaves every other hash as it was. */
  lemma HIncrByElsewhere(s: Store, k: Key, f: string, d: int, k': Key)
    requires k' != k
    ensures HashOf(HIncrBy(s, k, f, d).store, k') == HashOf(s, k')
  {
  }

  // ---------------------------------------------------------- sorted sets

  function ZAdd(s: Store, k: Key, m: string, score: int): (r: Store)
    ensures ZSetOf(r, k) == ZSetOf(s, k)[m := score]
  {
    WithZSet(s, k, ZSetOf(s, k)[m := score])
  }

  /** ZINCRBY: a missing member starts from 0. */
  function ZIncrBy(s: Store, k: Key, m: string, d: int): (r: Store)
    ensures ZSetOf(r, k) == ZSetOf(s, k)[m := ZScore(s, k, m) + d]
  {
    ZAdd(s, k, m, ZScore(s, k, m) + d)
  }

  function ZRem(s: Store, k: Key, ms: set<string>): (r: Store)
    ensures ZSetOf(r, k) == ZSetOf(s, k) - ms
  {
    WithZSet(s, k, ZSetOf(s, k) - ms)
  }

  function ZRemRangeByRank(s: Store, k: Key, start: int, stop: int): (r: Store)
    ensures ZSetOf(r, k) == SortedSet.RemoveRange(ZSetOf(s, k), start, stop)
  {
    WithZSet(s, k, SortedSet.RemoveRange(ZSetOf(s, k), start, stop))
  }

  // ----------------------------------------------------------------- sets

  /** SADD of one member; the value says whether it was new. */
  function SAdd(s: Store, k: Key, m: string): (r: Reply<bool>)
    ensures SetOf(r.store, k) == SetOf(s, k) + {m}
    ensures r.value <==> m !in SetOf(s, k)
    ensures !r.value ==> r.store == s
  {
    if m in SetOf(s, k) then Reply(s, false)
    else Reply(WithSet(s, k, SetOf(s, k) + {m}), true)
  }

  function SRem(s: Store, k: Key, m: string): (r: Store)
    ensures SetOf(r, k) == SetOf(s, k) - {m}
  {
    WithSet(s, k, SetOf(s, k) - {m})
  }

  // ---------------------------------------------------------------- lists

  function LPush(s: Store, k: Key, v: string): (r: Store)
    ensures ListOf(r, k) == [v] + ListOf(s, k)
  {
    s.(lists := s.lists[k := [v] + ListOf(s, k)])
  }

  /** LTRIM k 0 n-1: keeps the first `n` elements. */
  function LTrim(s: Store, k: Key, n: nat): (r: Store)
    ensures |ListOf(r, k)| == if |ListOf(s, k)| < n then |ListOf(s, k)| else n
    ensures forall i | 0 <= i < |ListOf(r, k)| :: ListOf(r, k)[i] == ListOf(s, k)[i]
  {
    var l := ListOf(s, k);
    s.(lists := s.lists[k := if |l| < n then l else l[..n]])
  }

  // ------------------------------------------------------- whole keys

  /** DEL of several keys, whatever they hold. */
  function Del(s: Store, ks: set<Key>): (r: Store)
    ensures forall k | k in ks :: !Exists(r, k) && k !in r.expiry
    ensures SameOutside(s, r, ks)
  {
    Store(s.strings - ks, s.hashes - ks, s.zsets - ks, s.sets - ks, s.lists - ks, s.expiry - ks)
  }

  /** SET key value, with an optional absolute deadline (no deadline clears any old one). */
  function Set(s: Store, k: Key, v: string, deadline: Option<int>): (r: Store)
    ensures StringOf(r, k) == v && k in r.strings
    ensures deadline.Some? ==> k in r.expiry && r.expiry[k] == deadline.value
    ensures deadline.None? ==> k !in r.expiry
  {
    var t := Del(s, {k});
    var t' := t.(strings := t.strings[k := v]);
    match deadline
    case Some(d) => t'.(expiry := t'.expiry[k := d])
    case None => t'
  }

  /** SET leaves every other key as it was. */
  lemma SetElsewhere(s: Store, k: Key, v: string, deadline: Option<int>, k': Key)
    requires k' != k
    ensures ZSetOf(Set(s, k, v, deadline), k') == ZSetOf(s, k')
    ensures HashOf(Set(s, k, v, deadline), k') == HashOf(s, k')
  {
  }

  /**
   * INCR: a missing key counts as 0; a value that is not an integer makes
   * the command fail (`None`). The time-to-live, if any, is kept.
   */
  function Incr(s: Store, k: Key): (r: Reply<Option<int>>)
    ensures k !in s.strings ==> r.value == Some(1)
    ensures k in s.strings ==> r.value == (match Decimal.ParseInt(s.strings[k])
                                            case Some(v) => Some(v + 1)
                                            case None => None)
    ensures r.value.Some? ==> StringOf(r.store, k) == Decimal.FormatInt(r.value.value)
    ensures r.value.None? ==> r.store == s
    ensures r.store.hashes == s.hashes && r.store.zsets == s.zsets && r.store.sets == s.sets
  {
    var cur := if k in s.strings then Decimal.ParseInt(s.strings[k]) else Some(0);
    match cur
    case Some(v) =>
      Reply(s.(strings := s.strings[k := Decimal.FormatInt(v + 1)]), Some(v + 1))
    case None => Reply(s, None)
  }

  /** EXPIRE: sets the deadline of an existing key; a missing key is left alone. */
  function Expire(s: Store, k: Key, deadline: int): (r: Store)
    ensures Exists(s, k) ==> k in r.expiry && r.expiry[k] == deadline
    ensures !Exists(s, k) ==> r == s
    ensures r.strings == s.strings && r.hashes == s.hashes && r.zsets == s.zsets
    ensures r.sets == s.sets && r.lists == s.lists
  {
    if Exists(s, k) then s.(expiry := s.expiry[k := deadline]) else s
  }

  function Move<V>(m: map<Key, V>, src: Key, dst: Key): map<Key, V>
  {
    if src in m then (m - {src, dst})[dst := m[src]] else m - {dst}
  }

  /**
   * RENAME src dst: the value and deadline of `src` replace whatever `dst`
   * held. A missing `src` is an error and changes nothing.
   */
  function Rename(s: Store, src: Key, dst: Key): (r: Store)
    ensures !Exists(s, src) ==> r == s
    ensures Exists(s, src) && src != dst ==> ZSetOf(r, dst) == ZSetOf(s, src) && !Exists(r, src)
    ensures SameOutside(s, r, {src, dst})
  {
    if !Exists(s, src) || src == dst then s
    else Store(Move(s.strings, src, dst), Move(s.hashes, src, dst), Move(s.zsets, src, dst),
               Move(s.sets, src, dst), Move(s.lists, src, dst), Move(s.expiry, src, dst))
  }
}
