/**
 * Sorted sets as Redis keeps them: a map from member to score, ordered
 * ascending by (score, member). A member's rank is the number of members
 * ordered before it, so ranks run 0 .. |z|-1 with no gaps and no repeats.
 */
module SortedSet {
  import Lex

  type ZSet = map<string, int>

  /** `a` comes before `b` in ZRANGE order. */
  predicate Precedes(z: ZSet, a: string, b: string)
    requires a in z && b in z
  {
    z[a] < z[b] || (z[a] == z[b] && Lex.Less(a, b))
  }

  function Below(z: ZSet, m: string): set<string>
    requires m in z
  {
    set x | x in z && Precedes(z, x, m)
  }

  function Rank(z: ZSet, m: string): nat
    requires m in z
  {
    |Below(z, m)|
  }

  /** The ranks of the members of `ms`. */
  function Ranks(z: ZSet, ms: set<string>): set<int>
  {
    set m | m in ms && m in z :: Rank(z, m) as int
  }

  /** The members whose rank lies in the half-open window [lo, hi). */
  function Window(z: ZSet, lo: int, hi: int): set<string>
  {
    set m | m in z && lo <= Rank(z, m) < hi
  }

  lemma SubsetSize<T>(a: set<T>, b: set<T>)
    requires a <= b
    ensures |a| <= |b|
    ensures a < b ==> |a| < |b|
  {
    var d := b - a;
    assert b == a + d;
    assert a * d == {};
    if a < b {
      var x :| x in b && x !in a;
      assert x in d;
    }
  }

  lemma DifferenceSize<T>(a: set<T>, b: set<T>)
    requires b <= a
    ensures |a - b| == |a| - |b|
  {
    var d := a - b;
    assert a == d + b;
    assert d * b == {};
  }

  lemma PrecedesIrreflexive(z: ZSet, a: string)
    requires a in z
    ensures !Precedes(z, a, a)
  {
    Lex.Irreflexive(a);
  }

  lemma PrecedesAsymmetric(z: ZSet, a: string, b: string)
    requires a in z && b in z && Precedes(z, a, b)
    ensures !Precedes(z, b, a)
  {
    if z[a] == z[b] {
      Lex.Asymmetric(a, b);
    }
  }

  lemma PrecedesTransitive(z: ZSet, a: string, b: string, c: string)
    requires a in z && b in z && c in z
    requires Precedes(z, a, b) && Precedes(z, b, c)
    ensures Precedes(z, a, c)
  {
    if z[a] == z[b] && z[b] == z[c] {
      Lex.Transitive(a, b, c);
    }
  }

  lemma PrecedesTotal(z: ZSet, a: string, b: string)
    requires a in z && b in z && a != b
    ensures Precedes(z, a, b) || Precedes(z, b, a)
  {
    Lex.Total(a, b);
  }

  lemma RankBound(z: ZSet, m: string)
    requires m in z
    ensures Rank(z, m) < |z|
  {
    PrecedesIrreflexive(z, m);
    assert Below(z, m) < z.Keys;
    SubsetSize(Below(z, m), z.Keys);
  }

  /** Rank follows the order: an earlier member has a strictly smaller rank. */
  lemma RankMonotone(z: ZSet, a: string, b: string)
    requires a in z && b in z && Precedes(z, a, b)
    ensures Rank(z, a) < Rank(z, b)
  {
    forall x | x in Below(z, a)
      ensures x in Below(z, b)
    {
      PrecedesTransitive(z, x, a, b);
    }
    PrecedesIrreflexive(z, a);
    assert a in Below(z, b) - Below(z, a);
    SubsetSize(Below(z, a), Below(z, b));
  }

  /** Comparing ranks is comparing positions in the order. */
  lemma RankOrder(z: ZSet, a: string, b: string)
    requires a in z && b in z
    ensures Rank(z, a) < Rank(z, b) <==> Precedes(z, a, b)
    ensures Rank(z, a) == Rank(z, b) <==> a == b
  {
    if Precedes(z, a, b) {
      RankMonotone(z, a, b);
    } else if a != b {
      PrecedesTotal(z, a, b);
      RankMonotone(z, b, a);
    }
  }

  lemma RankInjective(z: ZSet)
    ensures forall a, b | a in z && b in z && Rank(z, a) == Rank(z, b) :: a == b
  {
    forall a, b | a in z && b in z && Rank(z, a) == Rank(z, b)
      ensures a == b
    {
      RankOrder(z, a, b);
    }
  }

  /** A set of naturals below n has at most n elements. */
  lemma {:induction false} BoundedSize(ns: set<int>, n: nat)
    requires forall x | x in ns :: 0 <= x < n
    ensures |ns| <= n
    decreases n
  {
    if n > 0 {
      var rest := ns - {n - 1};
      BoundedSize(rest, n - 1);
      assert ns <= rest + {n - 1};
      SubsetSize(ns, rest + {n - 1});
    } else {
      assert forall x :: x !in ns;
    }
  }

  /** A set of n naturals below n holds every one of them. */
  lemma {:induction false} FullSet(ns: set<int>, n: nat)
    requires forall x | x in ns :: 0 <= x < n
    requires |ns| == n
    ensures forall r | 0 <= r < n :: r in ns
    decreases n
  {
    if n > 0 {
      var rest := ns - {n - 1};
      if n - 1 in ns {
        assert |rest| == n - 1;
        FullSet(rest, n - 1);
        forall r | 0 <= r < n
          ensures r in ns
        {
          if r < n - 1 {
            assert r in rest;
          }
        }
      } else {
        assert rest == ns;
        BoundedSize(ns, n - 1);
        assert false;
      }
    }
  }

  /** Distinct members have distinct ranks, so a set of members has as many ranks as members. */
  lemma {:induction false} RanksSize(z: ZSet, ms: set<string>)
    requires ms <= z.Keys
    ensures |Ranks(z, ms)| == |ms|
    decreases ms
  {
    if ms != {} {
      var x :| x in ms;
      var rest := ms - {x};
      assert Ranks(z, ms) == Ranks(z, rest) + {Rank(z, x) as int};
      forall y | y in rest
        ensures Rank(z, y) != Rank(z, x)
      {
        RankOrder(z, x, y);
      }
      assert Rank(z, x) as int !in Ranks(z, rest);
      RanksSize(z, rest);
    } else {
      assert Ranks(z, ms) == {};
    }
  }

  /** Every rank 0 .. |z|-1 belongs to some member. */
  lemma RanksOnto(z: ZSet)
    ensures forall r | 0 <= r < |z| :: r in Ranks(z, z.Keys)
  {
    forall m | m in z
      ensures Rank(z, m) < |z|
    {
      RankBound(z, m);
    }
    RanksSize(z, z.Keys);
    assert |z.Keys| == |z|;
    FullSet(Ranks(z, z.Keys), |z|);
  }

  lemma RankTaken(z: ZSet, r: int)
    requires 0 <= r < |z|
    ensures exists m :: m in z && Rank(z, m) == r
  {
    RanksOnto(z);
    assert r in Ranks(z, z.Keys);
  }

  /** The member at rank `r`. */
  function MemberAt(z: ZSet, r: int): (m: string)
    requires 0 <= r < |z|
    ensures m in z && Rank(z, m) == r
  {
    RankTaken(z, r);
    RankInjective(z);
    var m :| m in z && Rank(z, m) == r; m
  }

  /** ZRANGE key 0 0 on a non-empty set: the member every other member comes after. */
  function First(z: ZSet): (m: string)
    requires |z| > 0
    ensures m in z && Rank(z, m) == 0
    ensures forall x | x in z && x != m :: Precedes(z, m, x)
  {
    var m := MemberAt(z, 0);
    FirstPrecedes(z, m);
    m
  }

  lemma FirstPrecedes(z: ZSet, m: string)
    requires m in z && Rank(z, m) == 0
    ensures forall x | x in z && x != m :: Precedes(z, m, x)
  {
    forall x | x in z && x != m
      ensures Precedes(z, m, x)
    {
      RankOrder(z, m, x);
    }
  }

  /** A member that comes before every other member is the first one. */
  lemma FirstUnique(z: ZSet, m: string)
    requires m in z
    requires forall x | x in z && x != m :: Precedes(z, m, x)
    ensures First(z) == m
  {
    var f := First(z);
    if f != m {
      PrecedesAsymmetric(z, m, f);
    }
  }

  /** The k lowest ranks belong to exactly k members. */
  lemma {:induction false} PrefixSize(z: ZSet, k: int)
    requires 0 <= k <= |z|
    ensures |Window(z, 0, k)| == k
    decreases k
  {
    if k > 0 {
      var m := MemberAt(z, k - 1);
      RankInjective(z);
      assert Window(z, 0, k) == Window(z, 0, k - 1) + {m};
      PrefixSize(z, k - 1);
    } else {
      assert Window(z, 0, k) == {};
    }
  }

  /** A window of ranks [lo, hi) inside 0 .. |z| holds exactly hi - lo members. */
  lemma WindowSize(z: ZSet, lo: int, hi: int)
    requires 0 <= lo <= hi <= |z|
    ensures |Window(z, lo, hi)| == hi - lo
  {
    var top := Window(z, 0, hi);
    var low := Window(z, 0, lo);
    assert Window(z, lo, hi) == top - low;
    assert top == (top - low) + low;
    assert (top - low) * low == {};
    PrefixSize(z, hi);
    PrefixSize(z, lo);
  }

  /**
   * Redis's reading of a (start, stop) rank range, both ends inclusive and
   * negative ends counted from the top, as the half-open window [lo, hi).
   * Shared by ZRANGE and ZREMRANGEBYRANK.
   */
  function RankWindow(n: nat, start: int, stop: int): (w: (int, int))
    ensures 0 <= w.0 <= w.1 <= n
  {
    var a := if start < 0 then start + n else start;
    var b := if stop < 0 then stop + n else stop;
    var a' := if a < 0 then 0 else a;
    if a' > b || a' >= n then (0, 0)
    else (a', if b >= n then n else b + 1)
  }

  /** ZRANGE key start stop, as the set of members it returns. */
  function Range(z: ZSet, start: int, stop: int): set<string>
  {
    var w := RankWindow(|z|, start, stop);
    Window(z, w.0, w.1)
  }

  /** ZREMRANGEBYRANK key start stop. */
  function RemoveRange(z: ZSet, start: int, stop: int): ZSet
  {
    z - Range(z, start, stop)
  }

  /**
   * ZREVRANGE key 0 -1: every member once, highest (score, member) first.
   */
  function Descending(z: ZSet): (r: seq<string>)
    ensures |r| == |z|
    ensures forall i | 0 <= i < |r| :: r[i] in z && Rank(z, r[i]) == |z| - 1 - i
  {
    seq(|z|, i requires 0 <= i < |z| => MemberAt(z, |z| - 1 - i))
  }

  lemma DescendingOrder(z: ZSet)
    ensures forall i, j | 0 <= i < j < |z| :: Precedes(z, Descending(z)[j], Descending(z)[i])
    ensures forall m | m in z :: exists i :: 0 <= i < |z| && Descending(z)[i] == m
  {
    var d := Descending(z);
    forall i, j | 0 <= i < j < |z|
      ensures Precedes(z, d[j], d[i])
    {
      RankOrder(z, d[j], d[i]);
    }
    forall m | m in z
      ensures exists i :: 0 <= i < |z| && d[i] == m
    {
      RankBound(z, m);
      var i := |z| - 1 - Rank(z, m);
      RankOrder(z, d[i], m);
    }
  }

  /** The ranks ZREMRANGEBYRANK key 0 -(n+1) removes: all but the top n. */
  lemma AllButTop(z: ZSet, n: nat)
    ensures Range(z, 0, -(n + 1)) == (if |z| <= n then {} else Window(z, 0, |z| - n))
  {
    var w := RankWindow(|z|, 0, -(n + 1));
    if |z| <= n {
      assert w.0 == w.1;
      assert Window(z, w.0, w.1) == {};
    } else {
      assert w == (0, |z| - n);
    }
  }

  /** ZREMRANGEBYRANK key 0 -(n+1) keeps exactly the members among the n highest ranks. */
  lemma KeepHighestMembers(z: ZSet, n: nat)
    ensures forall m :: m in RemoveRange(z, 0, -(n + 1)) <==> m in z && Rank(z, m) + n >= |z|
  {
    AllButTop(z, n);
  }

  /** ... so with more than n members exactly n survive, and with at most n nothing is removed. */
  lemma KeepHighestSize(z: ZSet, n: nat)
    ensures |RemoveRange(z, 0, -(n + 1))| == (if |z| <= n then |z| else n)
    ensures |z| <= n ==> RemoveRange(z, 0, -(n + 1)) == z
  {
    if |z| <= n {
      KeepAllWhenSmall(z, n);
    } else {
      KeepTopWhenLarge(z, n);
    }
  }

  lemma KeepAllWhenSmall(z: ZSet, n: nat)
    requires |z| <= n
    ensures RemoveRange(z, 0, -(n + 1)) == z
  {
    AllButTop(z, n);
    assert Range(z, 0, -(n + 1)) == {};
  }

  lemma KeepTopWhenLarge(z: ZSet, n: nat)
    requires |z| > n
    ensures |RemoveRange(z, 0, -(n + 1))| == n
  {
    var gone := Window(z, 0, |z| - n);
    AllButTop(z, n);
    assert RemoveRange(z, 0, -(n + 1)) == z - gone;
    WindowSize(z, 0, |z| - n);
    RemoveSize(z, gone);
  }

  /** Removing `gone`, all of whose members are present, shrinks a sorted set by |gone|. */
  lemma RemoveSize(z: ZSet, gone: set<string>)
    requires gone <= z.Keys
    ensures |z - gone| == |z| - |gone|
  {
    var r := z - gone;
    assert r.Keys == z.Keys - gone;
    DifferenceSize(z.Keys, gone);
    assert |r| == |r.Keys|;
    assert |z| == |z.Keys|;
  }

  /** ... and every member removed comes before every member kept. */
  lemma KeepHighestOrder(z: ZSet, n: nat)
    ensures forall a, b | a in z && a !in RemoveRange(z, 0, -(n + 1)) && b in RemoveRange(z, 0, -(n + 1)) ::
              Precedes(z, a, b)
  {
    var r := RemoveRange(z, 0, -(n + 1));
    KeepHighestMembers(z, n);
    forall a, b | a in z && a !in r && b in r
      ensures Precedes(z, a, b)
    {
      RankOrder(z, a, b);
    }
  }

  /**
   * ZRANGE key 0 k-1 on a set larger than k: exactly the k lowest members,
   * each of which comes before every member outside the window.
   */
  lemma Lowest(z: ZSet, k: nat)
    requires 0 < k < |z|
    ensures Range(z, 0, k - 1) == Window(z, 0, k)
    ensures |Window(z, 0, k)| == k && Window(z, 0, k) <= z.Keys
    ensures |z - Window(z, 0, k)| == |z| - k
    ensures forall a, b | a in Window(z, 0, k) && b in z && b !in Window(z, 0, k) :: Precedes(z, a, b)
  {
    var w := Window(z, 0, k);
    assert RankWindow(|z|, 0, k - 1) == (0, k);
    PrefixSize(z, k);
    var r := z - w;
    assert r.Keys == z.Keys - w;
    DifferenceSize(z.Keys, w);
    assert |r| == |r.Keys|;
    assert |z| == |z.Keys|;
    forall a, b | a in w && b in z && b !in w
      ensures Precedes(z, a, b)
    {
      RankOrder(z, a, b);
    }
  }

  /** A member that every other member precedes has the top rank. */
  lemma TopRank(z: ZSet, m: string)
    requires m in z
    requires forall x | x in z && x != m :: Precedes(z, x, m)
    ensures Rank(z, m) == |z| - 1
  {
    assert Below(z, m) == z.Keys - {m} by {
      PrecedesIrreflexive(z, m);
    }
    DifferenceSize(z.Keys, {m});
    assert |z| == |z.Keys|;
  }

  /** A member added with a score above every other is among the n highest, so trimming keeps it. */
  lemma NewestKept(z: ZSet, m: string, score: int, n: nat)
    requires n > 0
    requires forall x | x in z :: z[x] < score
    ensures m in RemoveRange(z[m := score], 0, -(n + 1))
  {
    var h := z[m := score];
    forall x | x in h && x != m
      ensures Precedes(h, x, m)
    {
    }
    TopRank(h, m);
    KeepHighestMembers(h, n);
  }
}
