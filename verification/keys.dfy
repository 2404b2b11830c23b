/** Key names and constants shared by every component (common/consts.go). */
module Keys {

  // Article voting
  const ArticleId := "article-id"
  const VotedSetPre := "voted-set:"
  const ArticleHashPre := "article-hash-set:"
  const Score := "score"
  const Time := "time"
  const OneWeekInSeconds := 60 * 60 * 24 * 7
  const VotedScore := 432

  // Sessions, carts, page and row caches
  const Login := "login"
  const Recent := "recent"
  const ViewedPre := "viewed:"
  const Viewed := "viewed"
  const CartPre := "cart:"
  const ReqCachePre := "reqcache:"
  const Schedule := "schedule"
  const Delay := "delay"
  const RowCachePre := "row-req:"

  // Marketplace
  const Market := "Market"
  const UserPre := "user:"
  const UserBagPre := "user-bag:"

  // Logs
  const RecentLogListPre := "recent-log-list:"
  const FrequencyLogZSetPre := "frequency-log-zset:"
}
