/**
 * Article voting of chapter01/article.go. Each article has a hash
 * `article-hash-set:<id>` of its attributes, a voter set `voted-set:<id>`
 * that expires a week after posting, and an entry in two sorted sets:
 * `time` (posting time) and `score` (posting time plus 432 per net vote).
 * Ids come from the counter `article-id`.
 */
module Articles {
  import opened Wrappers
  import opened Store
  import SortedSet
  import Decimal
  import Keys

  const VotesField := "votes"

  function VotedKey(id: string): Key
  {
    Keys.VotedSetPre + id
  }

  function ArticleKey(id: string): Key
  {
    Keys.ArticleHashPre + id
  }

  // ------------------------------------------------------------- posting

  /** The value of the id counter: 0 before the first post, nothing when it is not an integer. */
  function Counter(s: Store): Option<int>
  {
    if Keys.ArticleId in s.strings then Decimal.ParseInt(s.strings[Keys.ArticleId]) else Some(0)
  }

  /** INCR of the id counter, as text; a failed INCR reads as 0. */
  function NextId(s: Store): Reply<string>
  {
    var n := Incr(s, Keys.ArticleId);
    Reply(n.store, Decimal.FormatInt(n.value.GetOr(0)))
  }

  /** The attribute hash of a new article; `votes` starts at "0". */
  function ArticleFields(id: string, title: string, link: string, author: string, now: int): Hash
  {
    map["id" := id, "title" := title, "link" := link, "poster" := author,
        "time" := Decimal.FormatInt(now), "votes" := "0"]
  }

  /** Everything PostArticle writes once the id is known. */
  function Publish(s: Store, id: string, author: string, title: string, link: string, now: int): Store
  {
    var voted := SAdd(s, VotedKey(id), author).store;
    var expiring := Expire(voted, VotedKey(id), now + Keys.OneWeekInSeconds);
    var described := HSetAll(expiring, ArticleKey(id), ArticleFields(id, title, link, author, now));
    ZAdd(ZAdd(described, Keys.Score, id, now), Keys.Time, id, now)
  }

  /** PostArticle: returns the new article's id. */
  function PostArticle(s: Store, author: string, title: string, link: string, now: int): Reply<string>
  {
    var n := NextId(s);
    Reply(Publish(n.store, n.value, author, title, link, now), n.value)
  }

  /** Ids are handed out in sequence: the counter's next value, which the counter then holds. */
  lemma PostArticleCounts(s: Store, author: string, title: string, link: string, now: int)
    requires Counter(s).Some?
    ensures var r := PostArticle(s, author, title, link, now);
            && r.value == Decimal.FormatInt(Counter(s).value + 1)
            && Counter(r.store) == Some(Counter(s).value + 1)
  {
    var n := NextId(s);
    Decimal.ParseFormat(Counter(s).value + 1);
    assert Publish(n.store, n.value, author, title, link, now).strings == n.store.strings;
  }

  /** From a fresh counter the first two posts get ids "1" and "2". */
  lemma FirstPostsNumbered(s: Store, a1: string, t1: string, l1: string, n1: int, a2: string, t2: string, l2: string, n2: int)
    requires Keys.ArticleId !in s.strings
    ensures var first := PostArticle(s, a1, t1, l1, n1);
            var second := PostArticle(first.store, a2, t2, l2, n2);
            first.value == "1" && second.value == "2"
  {
    var first := PostArticle(s, a1, t1, l1, n1);
    PostArticleCounts(s, a1, t1, l1, n1);
    PostArticleCounts(first.store, a2, t2, l2, n2);
    Decimal.FormatSmall();
  }

  /** Two successive posts never share an id, whatever number the counter started from. */
  lemma SuccessivePostsDistinct(s: Store, a1: string, t1: string, l1: string, n1: int, a2: string, t2: string, l2: string, n2: int)
    requires Counter(s).Some?
    ensures var first := PostArticle(s, a1, t1, l1, n1);
            var second := PostArticle(first.store, a2, t2, l2, n2);
            first.value != second.value
  {
    var first := PostArticle(s, a1, t1, l1, n1);
    var c := Counter(s).value;
    PostArticleCounts(s, a1, t1, l1, n1);
    PostArticleCounts(first.store, a2, t2, l2, n2);
    if first.value == PostArticle(first.store, a2, t2, l2, n2).value {
      Decimal.FormatInjective(c + 1, c + 2);
    }
  }

  /**
   * A posted article is ranked by its posting time in both sorted sets,
   * its author counts as having voted, and the voter set expires a week
   * after posting.
   */
  lemma PostArticleRecords(s: Store, author: string, title: string, link: string, now: int)
    ensures var r := PostArticle(s, author, title, link, now);
            && ZSetOf(r.store, Keys.Score) == ZSetOf(s, Keys.Score)[r.value := now]
            && ZSetOf(r.store, Keys.Time) == ZSetOf(s, Keys.Time)[r.value := now]
            && SetOf(r.store, VotedKey(r.value)) == SetOf(s, VotedKey(r.value)) + {author}
            && r.store.expiry[VotedKey(r.value)] == now + Keys.OneWeekInSeconds
  {
  }

  /** The new article's hash holds its attributes, with no votes. */
  lemma PostArticleDescribes(s: Store, author: string, title: string, link: string, now: int)
    ensures var r := PostArticle(s, author, title, link, now);
            HashOf(r.store, ArticleKey(r.value)) == HashOf(s, ArticleKey(r.value)) + ArticleFields(r.value, title, link, author, now)
  {
    var n := NextId(s);
    assert HashOf(n.store, ArticleKey(n.value)) == HashOf(s, ArticleKey(n.value));
  }

  /** Publishing touches no hash but the article's own. */
  lemma PublishHashes(s: Store, id: string, author: string, title: string, link: string, now: int, k: Key)
    requires k != ArticleKey(id)
    ensures HashOf(Publish(s, id, author, title, link, now), k) == HashOf(s, k)
  {
    var voted := SAdd(s, VotedKey(id), author).store;
    var expiring := Expire(voted, VotedKey(id), now + Keys.OneWeekInSeconds);
    assert HashOf(expiring, k) == HashOf(s, k);
  }

  /** Publishing touches no set but the article's voters. */
  lemma PublishSets(s: Store, id: string, author: string, title: string, link: string, now: int, k: Key)
    requires k != VotedKey(id)
    ensures SetOf(Publish(s, id, author, title, link, now), k) == SetOf(s, k)
  {
    var voted := SAdd(s, VotedKey(id), author).store;
    assert SetOf(voted, k) == SetOf(s, k);
  }

  /** Posting leaves every other article's hash, scores and voters alone. */
  lemma PostArticleElsewhere(s: Store, author: string, title: string, link: string, now: int, id: string)
    requires id != PostArticle(s, author, title, link, now).value
    ensures var r := PostArticle(s, author, title, link, now);
            && HashOf(r.store, ArticleKey(id)) == HashOf(s, ArticleKey(id))
            && ZScore(r.store, Keys.Score, id) == ZScore(s, Keys.Score, id)
            && ZScore(r.store, Keys.Time, id) == ZScore(s, Keys.Time, id)
            && SetOf(r.store, VotedKey(id)) == SetOf(s, VotedKey(id))
  {
    var n := NextId(s);
    if ArticleKey(id) == ArticleKey(n.value) {
      PrefixInjective(Keys.ArticleHashPre, id, n.value);
    }
    if VotedKey(id) == VotedKey(n.value) {
      PrefixInjective(Keys.VotedSetPre, id, n.value);
    }
    PublishHashes(n.store, n.value, author, title, link, now, ArticleKey(id));
    PublishSets(n.store, n.value, author, title, link, now, VotedKey(id));
    PostArticleRecords(s, author, title, link, now);
  }

  // --------------------------------------------------------------- voting

  /** The signed weight of one vote. */
  function Weight(up: bool): int
  {
    if up then Keys.VotedScore else -Keys.VotedScore
  }

  /** Voting is open until a week after the posting time; a missing article counts as posted at 0. */
  predicate VotingOpen(s: Store, id: string, now: int)
  {
    now <= ZScore(s, Keys.Time, id) + Keys.OneWeekInSeconds
  }

  /** The effect of a first vote: the score moves by 432 and the vote count by one. */
  function Tally(s: Store, id: string, up: bool): Store
  {
    var t := ZIncrBy(s, Keys.Score, id, Weight(up));
    HIncrBy(t, ArticleKey(id), VotesField, if up then 1 else -1).store
  }

  /**
   * ArticleUpVote (`up`) and ArticleDownVote: once the voting window has
   * closed, or once the user has voted on the article in either
   * direction, nothing happens.
   */
  function Vote(s: Store, id: string, user: string, now: int, up: bool): (r: Store)
    ensures !VotingOpen(s, id, now) || user in SetOf(s, VotedKey(id)) ==> r == s
  {
    if !VotingOpen(s, id, now) then s
    else
      var added := SAdd(s, VotedKey(id), user);
      if !added.value then s else Tally(added.store, id, up)
  }

  function ArticleUpVote(s: Store, id: string, user: string, now: int): Store
  {
    Vote(s, id, user, now, true)
  }

  function ArticleDownVote(s: Store, id: string, user: string, now: int): Store
  {
    Vote(s, id, user, now, false)
  }

  /** A vote after the window closes changes nothing. */
  lemma VoteClosed(s: Store, id: string, user: string, now: int, up: bool)
    requires !VotingOpen(s, id, now)
    ensures Vote(s, id, user, now, up) == s
  {
  }

  /** An article that was never posted has its window closed a week after time 0. */
  lemma VoteOnMissingArticle(s: Store, id: string, user: string, now: int, up: bool)
    requires id !in ZSetOf(s, Keys.Time) && now > Keys.OneWeekInSeconds
    ensures Vote(s, id, user, now, up) == s
  {
  }

  /** A user who has voted, in either direction, cannot vote again. */
  lemma VoteRepeated(s: Store, id: string, user: string, now: int, up: bool)
    requires user in SetOf(s, VotedKey(id))
    ensures Vote(s, id, user, now, up) == s
  {
  }

  /** The author of an article is recorded as a voter when posting, so cannot vote on it. */
  lemma AuthorCannotVote(s: Store, author: string, title: string, link: string, now: int, later: int, up: bool)
    ensures var r := PostArticle(s, author, title, link, now);
            Vote(r.store, r.value, author, later, up) == r.store
  {
    PostArticleRecords(s, author, title, link, now);
  }

  /** An up-vote followed by a down-vote from the same user counts only the up-vote. */
  lemma UpThenDown(s: Store, id: string, user: string, now: int, later: int)
    requires VotingOpen(s, id, now)
    ensures var t := ArticleUpVote(s, id, user, now);
            ArticleDownVote(t, id, user, later) == t
  {
    var t := ArticleUpVote(s, id, user, now);
    assert user in SetOf(t, VotedKey(id)) by {
      if user !in SetOf(s, VotedKey(id)) {
        VoteRecorded(s, id, user, now, true);
      }
    }
  }

  /**
   * The article's bookkeeping agrees: its score is its posting time plus
   * 432 per net vote, and the vote count is stored in canonical form.
   */
  predicate Consistent(s: Store, id: string)
  {
    var votes := HGet(s, ArticleKey(id), VotesField);
    && VotesField in HashOf(s, ArticleKey(id))
    && votes == Decimal.FormatInt(Decimal.ParseOrZero(votes))
    && ZScore(s, Keys.Score, id) == ZScore(s, Keys.Time, id) + Keys.VotedScore * Decimal.ParseOrZero(votes)
  }

  function VoteCount(s: Store, id: string): int
  {
    Decimal.ParseOrZero(HGet(s, ArticleKey(id), VotesField))
  }

  /** Posting makes the new article consistent. */
  lemma PostArticleConsistent(s: Store, author: string, title: string, link: string, now: int)
    ensures var r := PostArticle(s, author, title, link, now);
            Consistent(r.store, r.value) && VoteCount(r.store, r.value) == 0
  {
    PostArticleDescribes(s, author, title, link, now);
    PostArticleRecords(s, author, title, link, now);
    Decimal.FormatSmall();
    Decimal.ParseFormat(0);
  }

  /** A first vote on a consistent article moves the count by one and the score by 432. */
  lemma TallyCounts(s: Store, id: string, up: bool)
    requires Consistent(s, id)
    ensures VoteCount(Tally(s, id, up), id) == VoteCount(s, id) + (if up then 1 else -1)
    ensures ZScore(Tally(s, id, up), Keys.Score, id) == ZScore(s, Keys.Score, id) + Weight(up)
    ensures ZScore(Tally(s, id, up), Keys.Time, id) == ZScore(s, Keys.Time, id)
    ensures Consistent(Tally(s, id, up), id)
  {
    var t := ZIncrBy(s, Keys.Score, id, Weight(up));
    var d := if up then 1 else -1;
    Decimal.ParseFormat(VoteCount(s, id));
    HIncrByEffect(t, ArticleKey(id), VotesField, d);
    Decimal.ParseFormat(VoteCount(s, id) + d);
  }

  /** Every vote keeps a consistent article consistent. */
  lemma VoteKeepsConsistent(s: Store, id: string, user: string, now: int, up: bool)
    requires Consistent(s, id)
    ensures Consistent(Vote(s, id, user, now, up), id)
  {
    if VotingOpen(s, id, now) {
      var added := SAdd(s, VotedKey(id), user);
      if added.value {
        TallyCounts(added.store, id, up);
      }
    }
  }

  /** A vote from a new voter within the window is recorded: the voter joins the set and the score moves. */
  lemma VoteRecorded(s: Store, id: string, user: string, now: int, up: bool)
    requires VotingOpen(s, id, now) && user !in SetOf(s, VotedKey(id))
    ensures var r := Vote(s, id, user, now, up);
            && SetOf(r, VotedKey(id)) == SetOf(s, VotedKey(id)) + {user}
            && ZSetOf(r, Keys.Score) == ZSetOf(s, Keys.Score)[id := ZScore(s, Keys.Score, id) + Weight(up)]
            && ZSetOf(r, Keys.Time) == ZSetOf(s, Keys.Time)
  {
    TallyFrame(SAdd(s, VotedKey(id), user).store, id, up);
  }

  /** ... and counted. */
  lemma VoteCounted(s: Store, id: string, user: string, now: int, up: bool)
    requires Consistent(s, id) && VotingOpen(s, id, now) && user !in SetOf(s, VotedKey(id))
    ensures VoteCount(Vote(s, id, user, now, up), id) == VoteCount(s, id) + (if up then 1 else -1)
  {
    TallyCounts(SAdd(s, VotedKey(id), user).store, id, up);
  }

  /** A first vote touches neither the voter set nor the posting times. */
  lemma TallyFrame(s: Store, id: string, up: bool)
    ensures SetOf(Tally(s, id, up), VotedKey(id)) == SetOf(s, VotedKey(id))
    ensures ZSetOf(Tally(s, id, up), Keys.Time) == ZSetOf(s, Keys.Time)
    ensures ZSetOf(Tally(s, id, up), Keys.Score) == ZSetOf(s, Keys.Score)[id := ZScore(s, Keys.Score, id) + Weight(up)]
  {
  }

  // -------------------------------------------------------------- listing

  /** GetArticles: every article's hash, highest score first. */
  function GetArticles(s: Store): (r: seq<Hash>)
    ensures |r| == |ZSetOf(s, Keys.Score)|
  {
    var order := SortedSet.Descending(ZSetOf(s, Keys.Score));
    seq(|order|, i requires 0 <= i < |order| => HashOf(s, ArticleKey(order[i])))
  }

  /**
   * The listing names every scored article exactly once, in descending
   * (score, id) order.
   */
  lemma GetArticlesOrder(s: Store)
    ensures var z := ZSetOf(s, Keys.Score);
            var order := SortedSet.Descending(z);
            && (forall i | 0 <= i < |order| :: GetArticles(s)[i] == HashOf(s, ArticleKey(order[i])))
            && (forall i, j | 0 <= i < j < |order| :: SortedSet.Precedes(z, order[j], order[i]))
            && (forall id | id in z :: exists i :: 0 <= i < |order| && order[i] == id)
  {
    SortedSet.DescendingOrder(ZSetOf(s, Keys.Score));
  }

  /** The article ahead of every other in score order is listed first. */
  lemma TopArticleListedFirst(s: Store, id: string)
    requires id in ZSetOf(s, Keys.Score)
    requires forall x | x in ZSetOf(s, Keys.Score) && x != id :: SortedSet.Precedes(ZSetOf(s, Keys.Score), x, id)
    ensures GetArticles(s)[0] == HashOf(s, ArticleKey(id))
  {
    var z := ZSetOf(s, Keys.Score);
    var order := SortedSet.Descending(z);
    SortedSet.TopRank(z, id);
    SortedSet.RankInjective(z);
    assert order[0] == id;
  }

  /** With two scored articles, the listing has two entries, the higher score first. */
  lemma PairListed(s: Store, hi: string, lo: string)
    requires ZSetOf(s, Keys.Score).Keys == {hi, lo} && hi != lo
    ensures |GetArticles(s)| == 2
    ensures ZScore(s, Keys.Score, lo) < ZScore(s, Keys.Score, hi) ==> GetArticles(s)[0] == HashOf(s, ArticleKey(hi))
  {
    var z := ZSetOf(s, Keys.Score);
    assert |z.Keys| == 2;
    if ZScore(s, Keys.Score, lo) < ZScore(s, Keys.Score, hi) {
      assert SortedSet.Precedes(z, lo, hi);
      TopArticleListedFirst(s, hi);
    }
  }

  /** Two first votes from different new voters while voting is open: the article stays consistent. */
  lemma TwoVotesConsistent(s: Store, id: string, v1: string, v2: string, later: int)
    requires Consistent(s, id) && VotingOpen(s, id, later)
    requires v1 !in SetOf(s, VotedKey(id)) && v2 !in SetOf(s, VotedKey(id)) && v1 != v2
    ensures Consistent(ArticleUpVote(ArticleUpVote(s, id, v1, later), id, v2, later), id)
  {
    var t := ArticleUpVote(s, id, v1, later);
    VoteKeepsConsistent(s, id, v1, later, true);
    VoteKeepsConsistent(t, id, v2, later, true);
  }

  /** ... both are counted ... */
  lemma TwoVotesCount(s: Store, id: string, v1: string, v2: string, later: int)
    requires Consistent(s, id) && VotingOpen(s, id, later)
    requires v1 !in SetOf(s, VotedKey(id)) && v2 !in SetOf(s, VotedKey(id)) && v1 != v2
    ensures VoteCount(ArticleUpVote(ArticleUpVote(s, id, v1, later), id, v2, later), id) == VoteCount(s, id) + 2
  {
    var t := ArticleUpVote(s, id, v1, later);
    VoteRecorded(s, id, v1, later, true);
    VoteCounted(s, id, v1, later, true);
    VoteKeepsConsistent(s, id, v1, later, true);
    VoteCounted(t, id, v2, later, true);
  }

  /** ... and the score rises by twice 432. */
  lemma TwoVotesScore(s: Store, id: string, v1: string, v2: string, later: int)
    requires VotingOpen(s, id, later)
    requires v1 !in SetOf(s, VotedKey(id)) && v2 !in SetOf(s, VotedKey(id)) && v1 != v2
    ensures ZSetOf(ArticleUpVote(ArticleUpVote(s, id, v1, later), id, v2, later), Keys.Score)
            == ZSetOf(s, Keys.Score)[id := ZScore(s, Keys.Score, id) + 2 * Keys.VotedScore]
  {
    var t := ArticleUpVote(s, id, v1, later);
    VoteRecorded(s, id, v1, later, true);
    ScoreAfterSecond(t, id, v2, later, ZSetOf(s, Keys.Score), ZScore(s, Keys.Score, id) + Keys.VotedScore);
  }

  lemma ScoreAfterSecond(t: Store, id: string, v2: string, later: int, z: SortedSet.ZSet, once: int)
    requires VotingOpen(t, id, later) && v2 !in SetOf(t, VotedKey(id))
    requires ZSetOf(t, Keys.Score) == z[id := once]
    ensures ZSetOf(ArticleUpVote(t, id, v2, later), Keys.Score) == z[id := once + Keys.VotedScore]
  {
    VoteRecorded(t, id, v2, later, true);
    UpdateTwice(z, id, once, once + Keys.VotedScore);
  }

  /** Two posts into an empty store: ids "1" and "2", each scored at its own posting time. */
  lemma TwoPosts(a1: string, t1: string, l1: string, n1: int, a2: string, t2: string, l2: string, n2: int)
    ensures var p1 := PostArticle(Empty, a1, t1, l1, n1);
            var p2 := PostArticle(p1.store, a2, t2, l2, n2);
            && p1.value == "1" && p2.value == "2"
            && ZSetOf(p2.store, Keys.Score).Keys == {"1", "2"}
            && ZScore(p2.store, Keys.Score, "1") == n1 && ZScore(p2.store, Keys.Score, "2") == n2
            && Consistent(p2.store, "1") && VoteCount(p2.store, "1") == 0
            && ZScore(p2.store, Keys.Time, "1") == n1
            && SetOf(p2.store, VotedKey("1")) == {a1}
  {
    var p1 := PostArticle(Empty, a1, t1, l1, n1);
    FirstPostsNumbered(Empty, a1, t1, l1, n1, a2, t2, l2, n2);
    PostArticleRecords(Empty, a1, t1, l1, n1);
    PostArticleConsistent(Empty, a1, t1, l1, n1);
    PostArticleRecords(p1.store, a2, t2, l2, n2);
    PostArticleElsewhere(p1.store, a2, t2, l2, n2, "1");
  }

  /**
   * Two new voters up-voting article "1" while voting is open, with only
   * articles "1" and "2" scored and "2" ahead of "1" by less than two
   * votes' worth: the listing then has "1" first, with two votes.
   */
  lemma UpVotedListedFirst(s: Store, v1: string, v2: string, later: int)
    requires ZSetOf(s, Keys.Score).Keys == {"1", "2"}
    requires ZScore(s, Keys.Score, "2") < ZScore(s, Keys.Score, "1") + 2 * Keys.VotedScore
    requires Consistent(s, "1") && VoteCount(s, "1") == 0 && VotingOpen(s, "1", later)
    requires v1 !in SetOf(s, VotedKey("1")) && v2 !in SetOf(s, VotedKey("1")) && v1 != v2
    ensures var voted := ArticleUpVote(ArticleUpVote(s, "1", v1, later), "1", v2, later);
            && |GetArticles(voted)| == 2
            && VotesField in GetArticles(voted)[0]
            && GetArticles(voted)[0][VotesField] == "2"
  {
    TwoVotesConsistent(s, "1", v1, v2, later);
    TwoVotesCount(s, "1", v1, v2, later);
    TwoVotesScore(s, "1", v1, v2, later);
    var voted := ArticleUpVote(ArticleUpVote(s, "1", v1, later), "1", v2, later);
    PairListed(voted, "1", "2");
    Decimal.FormatSmall();
  }

  /**
   * The repository's own chapter 1 scenario: two articles are posted, the
   * second no earlier than the first and less than two votes' worth of
   * seconds after it; the listing holds both, and after two users up-vote
   * the first one within its voting week it is listed first with two
   * votes.
   */
  lemma PostVoteListScenario(a1: string, t1: string, l1: string, a2: string, t2: string, l2: string,
                             v1: string, v2: string, n1: int, n2: int, later: int)
    requires v1 != a1 && v2 != a1 && v1 != v2
    requires n1 <= n2 < n1 + 2 * Keys.VotedScore
    requires n2 <= later <= n1 + Keys.OneWeekInSeconds
    ensures var p1 := PostArticle(Empty, a1, t1, l1, n1);
            var p2 := PostArticle(p1.store, a2, t2, l2, n2);
            var voted := ArticleUpVote(ArticleUpVote(p2.store, "1", v1, later), "1", v2, later);
            && p1.value == "1" && p2.value == "2"
            && |GetArticles(p2.store)| == 2
            && |GetArticles(voted)| == 2
            && VotesField in GetArticles(voted)[0]
            && GetArticles(voted)[0][VotesField] == "2"
  {
    var p1 := PostArticle(Empty, a1, t1, l1, n1);
    var p2 := PostArticle(p1.store, a2, t2, l2, n2);
    TwoPosts(a1, t1, l1, n1, a2, t2, l2, n2);
    PairListed(p2.store, "1", "2");
    UpVotedListedFirst(p2.store, v1, v2, later);
  }
}
