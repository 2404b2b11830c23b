/**
 * The marketplace of chapter04/trading_market.go. Each user has a hash
 * `user:<name>` whose field `funds` holds their money and an inventory
 * set `user-bag:<name>`; the sorted set `Market` lists goods for sale as
 * members `<seller>:<goods>` scored by price.
 *
 * Both operations retry until a deadline five seconds away. Without a
 * concurrent writer a failed attempt changes nothing, so the deadline is
 * modelled as the number of attempts that fit before it, `attempts`.
 */
module Market {
  import opened Store
  import Decimal
  import Keys

  const FundsField := "funds"

  function Listing(seller: string, goods: string): string
  {
    seller + ":" + goods
  }

  function UserKey(user: string): Key
  {
    Keys.UserPre + user
  }

  function BagKey(user: string): Key
  {
    Keys.UserBagPre + user
  }

  /** A user's funds; a missing or unreadable field reads as 0. */
  function Funds(s: Store, user: string): int
  {
    Decimal.ParseOrZero(HGet(s, UserKey(user), FundsField))
  }

  lemma KeysDistinct(a: string, b: string)
    ensures UserKey(a) != BagKey(b)
    ensures UserKey(a) != Keys.Market && BagKey(a) != Keys.Market
    ensures a != b ==> UserKey(a) != UserKey(b)
  {
    assert UserKey(a)[4] == ':' && BagKey(b)[4] == '-';
    assert UserKey(a)[0] == 'u' && BagKey(a)[0] == 'u';
    if UserKey(a) == UserKey(b) {
      PrefixInjective(Keys.UserPre, a, b);
    }
  }

  // ------------------------------------------------------------------ Sell

  /** One attempt of Sell: the goods move from the seller's bag to the market at `price`. */
  function SellAttempt(s: Store, user: string, goods: string, price: int): (r: Reply<bool>)
    ensures r.value <==> goods in SetOf(s, BagKey(user))
    ensures !r.value ==> r.store == s
  {
    if goods in SetOf(s, BagKey(user)) then
      Reply(SRem(ZAdd(s, Keys.Market, Listing(user, goods), price), BagKey(user), goods), true)
    else Reply(s, false)
  }

  /**
   * Sell: attempts repeat until one succeeds or the deadline passes. It
   * succeeds exactly when some attempt fits before the deadline and the
   * seller holds the goods, and a failed Sell changes nothing.
   */
  function Sell(s: Store, user: string, goods: string, price: int, attempts: nat): (r: Reply<bool>)
    ensures r.value <==> attempts > 0 && goods in SetOf(s, BagKey(user))
    ensures !r.value ==> r.store == s
    decreases attempts
  {
    if attempts == 0 then Reply(s, false)
    else
      var a := SellAttempt(s, user, goods, price);
      if a.value then a else Sell(a.store, user, goods, price, attempts - 1)
  }

  /** Selling goods the seller holds lists them at the asking price and takes them out of the bag. */
  lemma SellLists(s: Store, user: string, goods: string, price: int, attempts: nat)
    requires attempts > 0 && goods in SetOf(s, BagKey(user))
    ensures var r := Sell(s, user, goods, price, attempts);
            && r.value
            && ZSetOf(r.store, Keys.Market) == ZSetOf(s, Keys.Market)[Listing(user, goods) := price]
            && SetOf(r.store, BagKey(user)) == SetOf(s, BagKey(user)) - {goods}
            && SameOutside(s, r.store, {Keys.Market, BagKey(user)})
  {
    KeysDistinct(user, user);
  }

  /** Selling goods the seller does not hold fails however often it is retried, and changes nothing. */
  lemma {:induction false} SellWithoutGoods(s: Store, user: string, goods: string, price: int, attempts: nat)
    requires goods !in SetOf(s, BagKey(user))
    ensures Sell(s, user, goods, price, attempts) == Reply(s, false)
    decreases attempts
  {
    if attempts > 0 {
      SellWithoutGoods(s, user, goods, price, attempts - 1);
    }
  }

  // -------------------------------------------------------------- Purchase

  /** HINCRBY of a user's funds. */
  function Pay(s: Store, user: string, amount: int): Reply<bool>
  {
    HIncrBy(s, UserKey(user), FundsField, amount)
  }

  /** The buyer gets the goods and the listing leaves the market. */
  function Deliver(s: Store, seller: string, buyer: string, goods: string): Store
  {
    ZRem(SAdd(s, BagKey(buyer), goods).store, Keys.Market, {Listing(seller, goods)})
  }

  /**
   * The pipeline of a purchase at `price`: pay the seller, charge the
   * buyer, bag the goods, delist them. Each command is applied; the
   * pipeline fails if either HINCRBY met a funds field that is not an
   * integer.
   */
  function Settle(s: Store, seller: string, buyer: string, goods: string, price: int): Reply<bool>
  {
    var paid := Pay(s, seller, price);
    var charged := Pay(paid.store, buyer, -price);
    Reply(Deliver(charged.store, seller, buyer, goods), paid.value && charged.value)
  }

  /**
   * One attempt of Purchase. The price is the listing's score, 0 when the
   * listing is missing; the buyer must have strictly more funds than that.
   */
  function PurchaseAttempt(s: Store, seller: string, buyer: string, goods: string): (r: Reply<bool>)
    ensures Funds(s, buyer) <= ZScore(s, Keys.Market, Listing(seller, goods)) ==> r == Reply(s, false)
  {
    var price := ZScore(s, Keys.Market, Listing(seller, goods));
    if Funds(s, buyer) > price then Settle(s, seller, buyer, goods, price)
    else Reply(s, false)
  }

  /**
   * Purchase as written: a failed attempt returns false at once, but a
   * successful one does not end the loop; attempts continue until the
   * deadline, after which the result is true.
   */
  function Purchase(s: Store, seller: string, buyer: string, goods: string, attempts: nat): Reply<bool>
    decreases attempts, 0
  {
    if attempts == 0 then Reply(s, true)
    else AfterAttempt(PurchaseAttempt(s, seller, buyer, goods), seller, buyer, goods, attempts - 1)
  }

  /** The rest of the loop once an attempt has answered `a`, with `attempts` more to go. */
  function AfterAttempt(a: Reply<bool>, seller: string, buyer: string, goods: string, attempts: nat): Reply<bool>
    decreases attempts, 1
  {
    if !a.value then a else Purchase(a.store, seller, buyer, goods, attempts)
  }

  /** A buyer who cannot afford the listing's price is refused and nothing changes. */
  lemma CannotAfford(s: Store, seller: string, buyer: string, goods: string, attempts: nat)
    requires attempts > 0
    requires Funds(s, buyer) <= ZScore(s, Keys.Market, Listing(seller, goods))
    ensures Purchase(s, seller, buyer, goods, attempts) == Reply(s, false)
  {
  }

  /** A funds field written by HINCRBY: present and in canonical decimal form. */
  predicate Canonical(s: Store, user: string)
  {
    var h := HashOf(s, UserKey(user));
    FundsField in h && h[FundsField] == Decimal.FormatInt(Funds(s, user))
  }

  /** Funds and their canonical form depend on the user's hash alone. */
  lemma SameHashSameFunds(a: Store, b: Store, user: string)
    requires HashOf(a, UserKey(user)) == HashOf(b, UserKey(user))
    ensures Funds(a, user) == Funds(b, user)
    ensures Canonical(a, user) <==> Canonical(b, user)
  {
    assert HGet(a, UserKey(user), FundsField) == HGet(b, UserKey(user), FundsField);
  }

  /** A successful HINCRBY of a user's funds by `d` adds `d` and leaves the field canonical. */
  lemma PayAdds(s: Store, user: string, d: int)
    requires Pay(s, user, d).value
    ensures Funds(Pay(s, user, d).store, user) == Funds(s, user) + d
    ensures Canonical(Pay(s, user, d).store, user)
  {
    HIncrByEffect(s, UserKey(user), FundsField, d);
    Decimal.ParseFormat(Funds(s, user) + d);
  }

  /** ... and leaves every other user's hash exactly as it was. */
  lemma PayElsewhere(s: Store, user: string, d: int, other: string)
    requires other != user
    ensures HashOf(Pay(s, user, d).store, UserKey(other)) == HashOf(s, UserKey(other))
  {
    KeysDistinct(other, user);
    HIncrByElsewhere(s, UserKey(user), FundsField, d, UserKey(other));
  }

  /** Adding 0 to a canonical funds field succeeds and rewrites what is there. */
  lemma PayNothing(s: Store, user: string)
    requires Canonical(s, user)
    ensures Pay(s, user, 0) == Reply(s, true)
  {
    var h := HashOf(s, UserKey(user));
    Decimal.ParseFormat(Funds(s, user));
    HIncrByEffect(s, UserKey(user), FundsField, 0);
    assert h[FundsField := Decimal.FormatInt(Funds(s, user))] == h;
  }

  /** Delivery touches only the bag and the market, never a funds hash. */
  lemma DeliverKeepsFunds(s: Store, seller: string, buyer: string, goods: string, user: string)
    ensures HashOf(Deliver(s, seller, buyer, goods), UserKey(user)) == HashOf(s, UserKey(user))
  {
  }

  lemma DeliverMovesGoods(s: Store, seller: string, buyer: string, goods: string)
    ensures var r := Deliver(s, seller, buyer, goods);
            && goods in SetOf(r, BagKey(buyer))
            && Keys.Market in r.zsets && Listing(seller, goods) !in ZSetOf(r, Keys.Market)
  {
    KeysDistinct(buyer, buyer);
  }

  /** Delivering goods already delivered changes nothing. */
  lemma DeliverAgain(s: Store, seller: string, buyer: string, goods: string)
    requires goods in SetOf(s, BagKey(buyer))
    requires Keys.Market in s.zsets && Listing(seller, goods) !in ZSetOf(s, Keys.Market)
    ensures Deliver(s, seller, buyer, goods) == s
  {
    assert ZSetOf(s, Keys.Market) - {Listing(seller, goods)} == ZSetOf(s, Keys.Market);
  }

  /** A successful pipeline between two users pays the seller the price. */
  lemma SettlePaysSeller(s: Store, seller: string, buyer: string, goods: string, price: int)
    requires seller != buyer && Settle(s, seller, buyer, goods, price).value
    ensures var r := Settle(s, seller, buyer, goods, price).store;
            Funds(r, seller) == Funds(s, seller) + price && Canonical(r, seller)
  {
    var paid := Pay(s, seller, price).store;
    var charged := Pay(paid, buyer, -price).store;
    PayAdds(s, seller, price);
    PayElsewhere(paid, buyer, -price, seller);
    SameHashSameFunds(paid, charged, seller);
    DeliverKeepsFunds(charged, seller, buyer, goods, seller);
    SameHashSameFunds(charged, Deliver(charged, seller, buyer, goods), seller);
  }

  /** A successful pipeline between two users charges the buyer the price. */
  lemma SettleChargesBuyer(s: Store, seller: string, buyer: string, goods: string, price: int)
    requires seller != buyer && Settle(s, seller, buyer, goods, price).value
    ensures var r := Settle(s, seller, buyer, goods, price).store;
            Funds(r, buyer) == Funds(s, buyer) - price && Canonical(r, buyer)
  {
    var paid := Pay(s, seller, price).store;
    var charged := Pay(paid, buyer, -price).store;
    PayElsewhere(s, seller, price, buyer);
    SameHashSameFunds(s, paid, buyer);
    PayAdds(paid, buyer, -price);
    DeliverKeepsFunds(charged, seller, buyer, goods, buyer);
    SameHashSameFunds(charged, Deliver(charged, seller, buyer, goods), buyer);
  }

  /** Every pipeline bags the goods and delists them. */
  lemma SettleMovesGoods(s: Store, seller: string, buyer: string, goods: string, price: int)
    ensures var r := Settle(s, seller, buyer, goods, price).store;
            && goods in SetOf(r, BagKey(buyer))
            && Keys.Market in r.zsets && Listing(seller, goods) !in ZSetOf(r, Keys.Market)
  {
    var charged := Pay(Pay(s, seller, price).store, buyer, -price).store;
    DeliverMovesGoods(charged, seller, buyer, goods);
  }

  /**
   * A successful attempt between two different users moves the price from
   * the buyer's funds to the seller's, puts the goods in the buyer's bag
   * and takes the listing off the market.
   */
  lemma PurchaseTransfers(s: Store, seller: string, buyer: string, goods: string)
    requires seller != buyer
    requires PurchaseAttempt(s, seller, buyer, goods).value
    ensures var price := ZScore(s, Keys.Market, Listing(seller, goods));
            var r := PurchaseAttempt(s, seller, buyer, goods).store;
            && Funds(r, seller) == Funds(s, seller) + price
            && Funds(r, buyer) == Funds(s, buyer) - price
            && Canonical(r, seller) && Canonical(r, buyer)
            && goods in SetOf(r, BagKey(buyer))
            && Keys.Market in r.zsets && Listing(seller, goods) !in ZSetOf(r, Keys.Market)
  {
    var price := ZScore(s, Keys.Market, Listing(seller, goods));
    SettlePaysSeller(s, seller, buyer, goods, price);
    SettleChargesBuyer(s, seller, buyer, goods, price);
    SettleMovesGoods(s, seller, buyer, goods, price);
  }

  /** Money is neither created nor destroyed by a successful attempt between two users. */
  lemma PurchaseConservesFunds(s: Store, seller: string, buyer: string, goods: string)
    requires seller != buyer
    requires PurchaseAttempt(s, seller, buyer, goods).value
    ensures var r := PurchaseAttempt(s, seller, buyer, goods).store;
            Funds(r, seller) + Funds(r, buyer) == Funds(s, seller) + Funds(s, buyer)
  {
    PurchaseTransfers(s, seller, buyer, goods);
  }

  /** Buying one's own listing leaves one's funds where they were. */
  lemma SelfPurchaseKeepsFunds(s: Store, user: string, goods: string)
    requires PurchaseAttempt(s, user, user, goods).value
    ensures Funds(PurchaseAttempt(s, user, user, goods).store, user) == Funds(s, user)
  {
    var price := ZScore(s, Keys.Market, Listing(user, goods));
    var paid := Pay(s, user, price).store;
    var charged := Pay(paid, user, -price).store;
    PayAdds(s, user, price);
    PayAdds(paid, user, -price);
    DeliverKeepsFunds(charged, user, user, goods, user);
    SameHashSameFunds(charged, Deliver(charged, user, user, goods), user);
  }

  /** The state a successful purchase between two users leaves behind. */
  predicate Settled(t: Store, seller: string, buyer: string, goods: string)
  {
    && Keys.Market in t.zsets && Listing(seller, goods) !in ZSetOf(t, Keys.Market)
    && Canonical(t, seller) && Canonical(t, buyer) && Funds(t, buyer) > 0
    && goods in SetOf(t, BagKey(buyer))
  }

  /** A successful attempt between two users leaves the settled state: the buyer keeps positive funds. */
  lemma AttemptSettles(s: Store, seller: string, buyer: string, goods: string)
    requires seller != buyer
    requires PurchaseAttempt(s, seller, buyer, goods).value
    ensures Settled(PurchaseAttempt(s, seller, buyer, goods).store, seller, buyer, goods)
  {
    PurchaseTransfers(s, seller, buyer, goods);
  }

  /**
   * Once settled, a further attempt pays 0 (the listing is gone), which the
   * buyer's positive funds cover, and rewrites what is already there: it
   * succeeds and changes nothing.
   */
  lemma RetryChangesNothing(t: Store, seller: string, buyer: string, goods: string)
    requires seller != buyer && Settled(t, seller, buyer, goods)
    ensures PurchaseAttempt(t, seller, buyer, goods) == Reply(t, true)
  {
    assert ZScore(t, Keys.Market, Listing(seller, goods)) == 0;
    PayNothing(t, seller);
    PayNothing(t, buyer);
    DeliverAgain(t, seller, buyer, goods);
  }

  lemma {:induction false} RetriesChangeNothing(t: Store, seller: string, buyer: string, goods: string, attempts: nat)
    requires seller != buyer && Settled(t, seller, buyer, goods)
    ensures Purchase(t, seller, buyer, goods, attempts) == Reply(t, true)
    decreases attempts
  {
    if attempts > 0 {
      RetryChangesNothing(t, seller, buyer, goods);
      RetriesChangeNothing(t, seller, buyer, goods, attempts - 1);
    }
  }

  /** After a successful attempt that left the settled state, the remaining attempts change nothing. */
  lemma AfterSettled(a: Reply<bool>, seller: string, buyer: string, goods: string, attempts: nat)
    requires seller != buyer && a.value && Settled(a.store, seller, buyer, goods)
    ensures AfterAttempt(a, seller, buyer, goods, attempts) == a
  {
    RetriesChangeNothing(a.store, seller, buyer, goods, attempts);
    assert a == Reply(a.store, true);
  }

  /**
   * Between two users, the retries after a successful attempt change
   * nothing: the whole of Purchase has the effect and the answer of its
   * first attempt.
   */
  lemma PurchaseIsFirstAttempt(s: Store, seller: string, buyer: string, goods: string, attempts: nat)
    requires seller != buyer && attempts > 0
    ensures Purchase(s, seller, buyer, goods, attempts) == PurchaseAttempt(s, seller, buyer, goods)
  {
    var a := PurchaseAttempt(s, seller, buyer, goods);
    if a.value {
      AttemptSettles(s, seller, buyer, goods);
      AfterSettled(a, seller, buyer, goods, attempts - 1);
    }
  }

  /**
   * As written, buying goods that were never listed costs nothing: the
   * missing listing reads as price 0, which any buyer with positive funds
   * can afford, and the goods land in the buyer's bag.
   */
  lemma MissingListingIsFree()
    ensures var s := HSet(Empty, UserKey("bob"), FundsField, "5");
            var r := Purchase(s, "alice", "bob", "sword", 1);
            && Listing("alice", "sword") !in ZSetOf(s, Keys.Market)
            && r.value
            && "sword" in SetOf(r.store, BagKey("bob"))
            && Funds(r.store, "bob") == 5
  {
    var s := HSet(Empty, UserKey("bob"), FundsField, "5");
    KeysDistinct("alice", "bob");
    KeysDistinct("bob", "bob");
    Decimal.ParseFormat(5);
    assert Decimal.FormatInt(5) == "5";
    assert Funds(s, "bob") == 5;
    PurchaseTransfers(s, "alice", "bob", "sword");
  }

  /**
   * Purchase as evidently intended: a missing listing is refused, and the
   * first successful attempt ends the purchase.
   */
  function PurchaseChecked(s: Store, seller: string, buyer: string, goods: string): (r: Reply<bool>)
    ensures Listing(seller, goods) !in ZSetOf(s, Keys.Market) ==> r == Reply(s, false)
    ensures r.value ==> Listing(seller, goods) in ZSetOf(s, Keys.Market)
  {
    if Listing(seller, goods) !in ZSetOf(s, Keys.Market) then Reply(s, false)
    else PurchaseAttempt(s, seller, buyer, goods)
  }

  /**
   * With the check in place goods change hands only at their listed price:
   * a successful purchase between two users takes the listed price from
   * the buyer and gives it to the seller.
   */
  lemma CheckedPurchasePaysListedPrice(s: Store, seller: string, buyer: string, goods: string)
    requires seller != buyer
    requires PurchaseChecked(s, seller, buyer, goods).value
    ensures var z := ZSetOf(s, Keys.Market);
            var r := PurchaseChecked(s, seller, buyer, goods).store;
            && Listing(seller, goods) in z
            && Funds(r, buyer) == Funds(s, buyer) - z[Listing(seller, goods)]
            && Funds(r, seller) == Funds(s, seller) + z[Listing(seller, goods)]
            && goods in SetOf(r, BagKey(buyer))
  {
    PurchaseTransfers(s, seller, buyer, goods);
  }
}
