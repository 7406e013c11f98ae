/**
 * MatchingEngine: routes each accepted request. A NEW MARKET order sweeps
 * the opposite side of the book; every other request goes into the book,
 * after which crossed best prices are matched away.
 */
module MatchingEngines {
  import opened Wrappers
  import opened Orders
  import opened OrderLevels
  import opened OrderBooks

  /** What the engine did with one request. */
  datatype EngineOutcome =
      /** A limit order or a cancel went into the book, with the book's report. */
    | Booked(outcome: BookOutcome)
      /**
       * A market order swept the opposite side: the order as it ends up, and
       * whether it was filled completely (false: that side ran out).
       */
    | Swept(order: Order, complete: bool)

  /** The page a market order in this direction trades against: a SELL meets the bids, a BUY the asks. */
  function OppositePage(direction: Side): (page: PageType)
    ensures page == Bid <==> direction == Sell
  {
    if direction == Sell then Bid else Ask
  }

  /** The page a request in this direction rests in. */
  function OwnPage(direction: Side): (page: PageType)
    ensures page != OppositePage(direction)
  {
    if direction == Buy then Bid else Ask
  }

  /** A crossed pair of sides has a level on each side. */
  lemma CrossedNotEmpty(bids: map<int, seq<Order>>, asks: map<int, seq<Order>>)
    requires PricesCross(bids.Keys, asks.Keys)
    ensures bids.Keys != {} && asks.Keys != {}
  {
  }

  /** A level of a valid page view shows a positive quantity. */
  lemma LevelShows(m: map<int, seq<Order>>, p: int)
    requires LevelsValid(m) && p in m
    ensures SumDisplay(m[p]) > 0
  {
    assert AllLive(m[p]) by {
      forall o | o in m[p] ensures Live(o) {
        assert Resting(o);
      }
    }
    SumDisplayPositive(m[p]);
  }

  /**
   * What `check_limit_order_match`, run as a loop, does to the two sides:
   * while some bid price is at or above some ask price, the best bid level
   * and the best ask level each trade the smaller of their displayed
   * quantities.
   */
  ghost function ResolveCross(bids: map<int, seq<Order>>, asks: map<int, seq<Order>>)
    : (map<int, seq<Order>>, map<int, seq<Order>>)
    requires LevelsValid(bids) && LevelsValid(asks)
    decreases Volume(bids)
  {
    if !PricesCross(bids.Keys, asks.Keys) then (bids, asks)
    else
      CrossedNotEmpty(bids, asks);
      var b, a := BestPrice(Bid, bids.Keys), BestPrice(Ask, asks.Keys);
      LevelShows(bids, b);
      LevelShows(asks, a);
      var m := Min(SumDisplay(bids[b]), SumDisplay(asks[a]));
      MatchKeepsLevels(bids, b, m);
      MatchKeepsLevels(asks, a, m);
      VolumeNonNegative(bids);
      ResolveCross(MatchAt(bids, b, m), MatchAt(asks, a, m))
  }

  /**
   * What `on_new_market_order` does to the page it sweeps and to the
   * order's filled quantity, for an order that has `filled` and still wants
   * `wanted`: the best level trades the smaller of its displayed quantity
   * and what is still wanted, until nothing is wanted or the page is empty.
   * Gives the page left and the order's final filled quantity.
   */
  ghost function Sweep(pageType: PageType, m: map<int, seq<Order>>, wanted: nat, filled: int)
    : (map<int, seq<Order>>, int)
    requires LevelsValid(m)
    decreases wanted
  {
    if wanted == 0 || m == map[] then (m, filled)
    else
      SomeLevel(m);
      var p := BestPrice(pageType, m.Keys);
      LevelShows(m, p);
      var q := Min(SumDisplay(m[p]), wanted);
      MatchKeepsLevels(m, p, q);
      Sweep(pageType, MatchAt(m, p, q), wanted - q, filled + q)
  }

  /**
   * Cross resolution leaves the sides valid and uncrossed, never adds a
   * price, takes the same quantity from both sides, and leaves sides that
   * were not crossed as they were.
   */
  lemma {:induction false} ResolveCrossSettles(bids: map<int, seq<Order>>, asks: map<int, seq<Order>>)
    requires LevelsValid(bids) && LevelsValid(asks)
    ensures var r := ResolveCross(bids, asks);
      && LevelsValid(r.0) && LevelsValid(r.1)
      && !PricesCross(r.0.Keys, r.1.Keys)
      && r.0.Keys <= bids.Keys && r.1.Keys <= asks.Keys
      && 0 <= Volume(bids) - Volume(r.0) == Volume(asks) - Volume(r.1)
      && (!PricesCross(bids.Keys, asks.Keys) ==> r == (bids, asks))
    decreases Volume(bids)
  {
    if PricesCross(bids.Keys, asks.Keys) {
      CrossedNotEmpty(bids, asks);
      var b, a := BestPrice(Bid, bids.Keys), BestPrice(Ask, asks.Keys);
      LevelShows(bids, b);
      LevelShows(asks, a);
      var m := Min(SumDisplay(bids[b]), SumDisplay(asks[a]));
      MatchKeepsLevels(bids, b, m);
      MatchKeepsLevels(asks, a, m);
      VolumeNonNegative(bids);
      ResolveCrossSettles(MatchAt(bids, b, m), MatchAt(asks, a, m));
    }
  }

  /**
   * The sweep leaves the page valid, never adds a price, trades at most what
   * is wanted, trades less only by emptying the page, and takes from the
   * page exactly what it trades.
   */
  lemma {:induction false} SweepTakes(pageType: PageType, m: map<int, seq<Order>>, wanted: nat, filled: int)
    requires LevelsValid(m)
    ensures var r := Sweep(pageType, m, wanted, filled);
      && LevelsValid(r.0) && r.0.Keys <= m.Keys
      && filled <= r.1 <= filled + wanted
      && (r.1 < filled + wanted ==> r.0 == map[])
      && Volume(m) - Volume(r.0) == r.1 - filled
    decreases wanted
  {
    if wanted != 0 && m != map[] {
      SomeLevel(m);
      var p := BestPrice(pageType, m.Keys);
      LevelShows(m, p);
      var q := Min(SumDisplay(m[p]), wanted);
      MatchKeepsLevels(m, p, q);
      SweepTakes(pageType, MatchAt(m, p, q), wanted - q, filled + q);
    }
  }

  /** One round of cross resolution, at whichever best prices a caller holds. */
  lemma ResolveCrossStep(bids: map<int, seq<Order>>, asks: map<int, seq<Order>>, b: int, a: int)
    requires LevelsValid(bids) && LevelsValid(asks) && PricesCross(bids.Keys, asks.Keys)
    requires IsBest(Bid, b, bids.Keys) && IsBest(Ask, a, asks.Keys)
    ensures var m := Min(SumDisplay(bids[b]), SumDisplay(asks[a]));
      && 0 < m
      && LevelsValid(MatchAt(bids, b, m)) && LevelsValid(MatchAt(asks, a, m))
      && ResolveCross(bids, asks) == ResolveCross(MatchAt(bids, b, m), MatchAt(asks, a, m))
  {
    CrossedNotEmpty(bids, asks);
    BestUnique(Bid, b, BestPrice(Bid, bids.Keys), bids.Keys);
    BestUnique(Ask, a, BestPrice(Ask, asks.Keys), asks.Keys);
    LevelShows(bids, b);
    LevelShows(asks, a);
    var m := Min(SumDisplay(bids[b]), SumDisplay(asks[a]));
    MatchKeepsLevels(bids, b, m);
    MatchKeepsLevels(asks, a, m);
  }

  /** One pass of the sweep, at whichever best price a caller holds. */
  lemma SweepStep(pageType: PageType, m: map<int, seq<Order>>, p: int, wanted: nat, filled: int, q: nat,
                  next: map<int, seq<Order>>)
    requires LevelsValid(m) && wanted > 0 && IsBest(pageType, p, m.Keys)
    requires q == Min(SumDisplay(m[p]), wanted) && next == MatchAt(m, p, q)
    ensures 0 < q <= wanted && LevelsValid(next)
    ensures Sweep(pageType, m, wanted, filled) == Sweep(pageType, next, wanted - q, filled + q)
  {
    assert m != map[] by { assert p in m; }
    BestUnique(pageType, p, BestPrice(pageType, m.Keys), m.Keys);
    LevelShows(m, p);
    MatchKeepsLevels(m, p, q);
  }

  /** An order as creation leaves it, showing its whole quantity at once. */
  predicate Plain(o: Order, price: int, quantity: int)
  {
    Accepted(o) && o.price == price && o.totalQuantity == quantity && o.disclosedQuantity == quantity
  }

  /**
   * A limit BUY of 10 at 100 meets a limit SELL of 5 at 99: one round trades
   * 5, the ask level is gone, and the buyer rests at 100 with 5 filled and 5
   * shown.
   */
  lemma CrossPartialFill(buy: Order, sell: Order)
    requires Plain(buy, 100, 10) && Plain(sell, 99, 5)
    ensures ResolveCross(map[100 := [buy]], map[99 := [sell]]) == (map[100 := [Fill(buy, 5)]], map[])
    ensures Fill(buy, 5).filledQuantity == 5 && Fill(buy, 5).displayQuantity == 5
  {
    var bids, asks := map[100 := [buy]], map[99 := [sell]];
    assert LevelsValid(bids) && LevelsValid(asks);
    assert PricesCross(bids.Keys, asks.Keys) by { assert 100 in bids.Keys && 99 in asks.Keys; }
    assert IsBest(Bid, 100, bids.Keys) && IsBest(Ask, 99, asks.Keys);
    assert SumDisplay([buy]) == 10 && SumDisplay([sell]) == 5;
    ResolveCrossStep(bids, asks, 100, 99);
    var rested := Fill(buy, 5);
    assert MatchAt(bids, 100, 5) == map[100 := [rested]] by {
      assert Distribute([buy], 5) == [rested];
      assert Stays(rested);
      assert Survivors([rested]) == [rested] && Replenished([rested]) == [];
    }
    assert MatchAt(asks, 99, 5) == map[] by {
      assert Distribute([sell], 5) == [Fill(sell, 5)];
      assert Survivors([Fill(sell, 5)]) == [] && Replenished([Fill(sell, 5)]) == [];
    }
  }

  /**
   * An iceberg BUY of 100 showing 20 at 100 meets a SELL of 20 at 100: the
   * seller is filled and gone, and the buyer, 20 filled, shows a fresh slice
   * of 20 with 80 still to trade.
   */
  lemma CrossReplenishesIceberg(buy: Order, sell: Order)
    requires Accepted(buy) && buy.price == 100 && buy.totalQuantity == 100 && buy.disclosedQuantity == 20
    requires Plain(sell, 100, 20)
    ensures ResolveCross(map[100 := [buy]], map[100 := [sell]]) == (map[100 := [Release(Fill(buy, 20))]], map[])
    ensures var b := Release(Fill(buy, 20));
      b.filledQuantity == 20 && b.displayQuantity == 20 && Remaining(b) == 80
  {
    var bids, asks := map[100 := [buy]], map[100 := [sell]];
    assert LevelsValid(bids) && LevelsValid(asks);
    assert PricesCross(bids.Keys, asks.Keys) by { assert 100 in bids.Keys && 100 in asks.Keys; }
    assert IsBest(Bid, 100, bids.Keys) && IsBest(Ask, 100, asks.Keys);
    assert SumDisplay([buy]) == 20 && SumDisplay([sell]) == 20;
    ResolveCrossStep(bids, asks, 100, 100);
    var filled := Fill(buy, 20);
    assert Distribute([buy], 20) == [filled];
    assert Survivors([filled]) == [] && Replenished([filled]) == [Release(filled)];
    assert MatchAt(bids, 100, 20) == map[100 := [Release(filled)]];
    assert Distribute([sell], 20) == [Fill(sell, 20)];
    assert Survivors([Fill(sell, 20)]) == [] && Replenished([Fill(sell, 20)]) == [];
    assert MatchAt(asks, 100, 20) == map[];
  }

  /**
   * A market SELL of 15 against bids of 10 at 100 and 10 at 99 takes all of
   * 100, which is removed, then 5 at 99, which stays with 5 shown.
   */
  lemma SweepTwoLevels(high: Order, low: Order)
    requires Plain(high, 100, 10) && Plain(low, 99, 10)
    ensures Sweep(OppositePage(Sell), map[100 := [high], 99 := [low]], 15, 0) == (map[99 := [Fill(low, 5)]], 15)
    ensures Fill(low, 5).displayQuantity == 5
  {
    var m := map[100 := [high], 99 := [low]];
    assert LevelsValid(m);
    assert IsBest(Bid, 100, m.Keys);
    assert SumDisplay([high]) == 10;
    var m1 := map[99 := [low]];
    assert Distribute([high], 10) == [Fill(high, 10)];
    assert Survivors([Fill(high, 10)]) == [] && Replenished([Fill(high, 10)]) == [];
    assert MatchAt(m, 100, 10) == m1;
    SweepStep(Bid, m, 100, 15, 0, 10, m1);
    assert IsBest(Bid, 99, m1.Keys);
    assert SumDisplay([low]) == 10;
    assert Distribute([low], 5) == [Fill(low, 5)];
    assert Survivors([Fill(low, 5)]) == [Fill(low, 5)] && Replenished([Fill(low, 5)]) == [];
    assert MatchAt(m1, 99, 5) == map[99 := [Fill(low, 5)]];
    SweepStep(Bid, m1, 99, 5, 10, 5, map[99 := [Fill(low, 5)]]);
  }

  /** A market BUY of 50 against 30 offered in all takes the 30 and empties the ask side. */
  lemma SweepRunsOut(a: Order, b: Order)
    requires Plain(a, 101, 10) && Plain(b, 102, 20)
    ensures Sweep(OppositePage(Buy), map[101 := [a], 102 := [b]], 50, 0) == (map[], 30)
  {
    var m := map[101 := [a], 102 := [b]];
    assert LevelsValid(m);
    assert IsBest(Ask, 101, m.Keys);
    assert SumDisplay([a]) == 10;
    var m1 := map[102 := [b]];
    assert Distribute([a], 10) == [Fill(a, 10)];
    assert Survivors([Fill(a, 10)]) == [] && Replenished([Fill(a, 10)]) == [];
    assert MatchAt(m, 101, 10) == m1;
    SweepStep(Ask, m, 101, 50, 0, 10, m1);
    assert IsBest(Ask, 102, m1.Keys);
    assert SumDisplay([b]) == 20;
    assert Distribute([b], 20) == [Fill(b, 20)];
    assert Survivors([Fill(b, 20)]) == [] && Replenished([Fill(b, 20)]) == [];
    assert MatchAt(m1, 102, 20) == map[];
    SweepStep(Ask, m1, 102, 40, 10, 20, map[]);
  }

  /** Where sweeping the page on behalf of the order ends: the page left and the order's final filled quantity. */
  ghost function SweepFor(pageType: PageType, m: map<int, seq<Order>>, order: Order): (map<int, seq<Order>>, int)
    requires LevelsValid(m) && order.filledQuantity <= order.totalQuantity
  {
    Sweep(pageType, m, order.totalQuantity - order.filledQuantity, order.filledQuantity)
  }

  /** One pass of the sweep for an order that records what it traded. */
  lemma SweepForStep(pageType: PageType, m: map<int, seq<Order>>, p: int, order: Order, q: nat,
                     next: map<int, seq<Order>>, result: Order)
    requires LevelsValid(m) && 0 <= order.filledQuantity < order.totalQuantity && IsBest(pageType, p, m.Keys)
    requires q == Min(SumDisplay(m[p]), order.totalQuantity - order.filledQuantity) && next == MatchAt(m, p, q)
    requires result.totalQuantity == order.totalQuantity && result.filledQuantity == order.filledQuantity + q
    ensures LevelsValid(next) && result.filledQuantity <= result.totalQuantity
    ensures SweepFor(pageType, next, result) == SweepFor(pageType, m, order)
  {
    SweepStep(pageType, m, p, order.totalQuantity - order.filledQuantity, order.filledQuantity, q, next);
  }

  /**
   * The page a market order sweeps as written: the direction is compared
   * with "Sell", while orders carry "BUY" or "SELL".
   */
  function OppositePageAsWritten(direction: string): PageType
  {
    if direction == "Sell" then Bid else Ask
  }

  /** As written, a market SELL sweeps the asks, its own side; the corrected test sends it to the bids. */
  lemma AsWrittenSellSweepsAsks()
    ensures "SELL" in DirectionChoices
    ensures OppositePageAsWritten("SELL") == OppositePage(Buy) == Ask
    ensures OppositePage(Sell) == Bid
  {
  }

  /**
   * One pass of the sweep as written, against a best level showing
   * bestQuantity: the quantity asked for is always the disclosed slice.
   */
  function SweepStepAsWritten(o: Order, bestQuantity: int): Order
  {
    var r := Fill(o, Min(bestQuantity, o.disclosedQuantity));
    if ReleaseNeeded(r) then Release(r) else r
  }

  /**
   * As written, an iceberg market order of 10 showing 4, against a deep
   * level, is filled 4, 4 and then 4 again: 12 traded, more than its total,
   * and it is still not filled, so the loop goes on.
   */
  lemma AsWrittenSweepOverfills(o: Order)
    requires Accepted(o) && o.totalQuantity == 10 && o.disclosedQuantity == 4
    ensures var third := SweepStepAsWritten(SweepStepAsWritten(SweepStepAsWritten(o, 100), 100), 100);
      && third.filledQuantity == 12 > third.totalQuantity
      && !IsFilled(third)
  {
    var first := SweepStepAsWritten(o, 100);
    assert first.filledQuantity == 4 && first.displayQuantity == 4;
    var second := SweepStepAsWritten(first, 100);
    assert second.filledQuantity == 8 && second.displayQuantity == 2;
  }

  class MatchingEngine {
    const instrumentName: string
    const orderbook: OrderBook

    /** Between two requests the book is well formed and not crossed. */
    ghost predicate Valid()
      reads this, orderbook.bidOrderPage, orderbook.askOrderPage, orderbook.Repr()
    {
      orderbook.Valid() && !orderbook.Crossed()
    }

    ghost function BidVolume(): int
      reads this, orderbook, orderbook.bidOrderPage
    {
      orderbook.bidOrderPage.PageVolume()
    }

    ghost function AskVolume(): int
      reads this, orderbook, orderbook.askOrderPage
    {
      orderbook.askOrderPage.PageVolume()
    }

    /** `MatchingEngine.__init__`: an empty book for the instrument. */
    constructor (instrumentName: string)
      ensures Valid() && fresh(orderbook.Repr())
      ensures this.instrumentName == instrumentName
      ensures orderbook.bidOrderPage.Contents == map[] && orderbook.askOrderPage.Contents == map[]
    {
      this.instrumentName := instrumentName;
      orderbook := new OrderBook();
    }

    /**
     * `check_limit_order_match`: while the best bid is at or above the best
     * ask, both best levels trade the smaller of their displayed quantities.
     * The sides end as `ResolveCross` of the sides it started from, so the
     * book is not crossed; both sides lost the same quantity and no price
     * was added; a book that was not crossed is left as it was.
     */
    method CheckLimitOrderMatch()
      requires orderbook.Valid()
      modifies orderbook.Repr()
      ensures orderbook.Valid() && orderbook.Repr() == old(orderbook.Repr())
      ensures !orderbook.Crossed()
      ensures 0 <= old(BidVolume()) - BidVolume() == old(AskVolume()) - AskVolume()
      ensures orderbook.bidOrderPage.Contents.Keys <= old(orderbook.bidOrderPage.Contents.Keys)
      ensures orderbook.askOrderPage.Contents.Keys <= old(orderbook.askOrderPage.Contents.Keys)
      ensures !old(orderbook.Crossed()) ==>
        && orderbook.bidOrderPage.Contents == old(orderbook.bidOrderPage.Contents)
        && orderbook.askOrderPage.Contents == old(orderbook.askOrderPage.Contents)
      ensures (orderbook.bidOrderPage.Contents, orderbook.askOrderPage.Contents)
        == ResolveCross(old(orderbook.bidOrderPage.Contents), old(orderbook.askOrderPage.Contents))
    {
      ghost var target := ResolveCross(orderbook.bidOrderPage.Contents, orderbook.askOrderPage.Contents);
      ResolveCrossSettles(orderbook.bidOrderPage.Contents, orderbook.askOrderPage.Contents);
      while orderbook.Crossed()
        invariant orderbook.Valid() && orderbook.Repr() == old(orderbook.Repr())
        invariant ResolveCross(orderbook.bidOrderPage.Contents, orderbook.askOrderPage.Contents) == target
        decreases BidVolume()
      {
        ghost var bids, asks := orderbook.bidOrderPage.Contents, orderbook.askOrderPage.Contents;
        ghost var bid, ask := orderbook.GetBestQuotes(Bid).value, orderbook.GetBestQuotes(Ask).value;
        ResolveCrossStep(bids, asks, bid.price, ask.price);
        VolumeNonNegative(bids);
        MatchBest();
      }
    }

    /**
     * One round of `check_limit_order_match` on a crossed book: the best bid
     * level and the best ask level each trade the smaller of their displayed
     * quantities, so both sides lose that same positive quantity.
     */
    method MatchBest()
      requires orderbook.Valid() && orderbook.Crossed()
      modifies orderbook.Repr()
      ensures orderbook.Valid() && orderbook.Repr() == old(orderbook.Repr())
      ensures var bid, ask := old(orderbook.GetBestQuotes(Bid)).value, old(orderbook.GetBestQuotes(Ask)).value;
        var m := Min(bid.quantity, ask.quantity);
        && 0 < m
        && orderbook.bidOrderPage.Contents == MatchAt(old(orderbook.bidOrderPage.Contents), bid.price, m)
        && orderbook.askOrderPage.Contents == MatchAt(old(orderbook.askOrderPage.Contents), ask.price, m)
        && BidVolume() == old(BidVolume()) - m
        && AskVolume() == old(AskVolume()) - m
      ensures orderbook.bidOrderPage.Contents.Keys <= old(orderbook.bidOrderPage.Contents.Keys)
      ensures orderbook.askOrderPage.Contents.Keys <= old(orderbook.askOrderPage.Contents.Keys)
    {
      var bid := orderbook.GetBestQuotes(Bid);
      var ask := orderbook.GetBestQuotes(Ask);
      var matchedQuantity := Min(bid.value.quantity, ask.value.quantity);
      ghost var asks := orderbook.askOrderPage.Contents;
      orderbook.OnOrderMatch(Bid, matchedQuantity);
      ghost var askNow := orderbook.GetBestQuotes(Ask);
      BestUnique(Ask, askNow.value.price, ask.value.price, asks.Keys);
      orderbook.OnOrderMatch(Ask, matchedQuantity);
    }

    /**
     * One pass of the sweep: the best level of the side trades the smaller of
     * its displayed quantity and what the order still wants. Returns what was
     * traded, which is 0 exactly when the side is empty.
     */
    method TakeBest(side: PageType, wanted: int) returns (matched: int, ghost price: int)
      requires orderbook.Valid() && wanted > 0
      modifies orderbook.Repr()
      ensures orderbook.Valid() && orderbook.Repr() == old(orderbook.Repr())
      ensures matched == 0 <==> old(orderbook.Page(side).Contents) == map[]
      ensures matched == 0 ==> orderbook.Page(side).Contents == old(orderbook.Page(side).Contents)
      ensures 0 <= matched <= wanted
      ensures matched > 0 ==>
        && matched == Min(old(orderbook.GetBestQuotes(side)).value.quantity, wanted)
        && orderbook.Page(side).Contents ==
          MatchAt(old(orderbook.Page(side).Contents), old(orderbook.GetBestQuotes(side)).value.price, matched)
      ensures matched > 0 ==>
        && price == old(orderbook.GetBestQuotes(side)).value.price
        && IsBest(side, price, old(orderbook.Page(side).Contents.Keys))
        && matched == Min(SumDisplay(old(orderbook.Page(side).Contents)[price]), wanted)
      ensures old(orderbook.Page(side).PageVolume()) - orderbook.Page(side).PageVolume() == matched
      ensures orderbook.Page(side).Contents.Keys <= old(orderbook.Page(side).Contents.Keys)
      ensures side == Bid ==> orderbook.askOrderPage.Contents == old(orderbook.askOrderPage.Contents)
      ensures side == Ask ==> orderbook.bidOrderPage.Contents == old(orderbook.bidOrderPage.Contents)
    {
      var best := orderbook.GetBestQuotes(side);
      if best.None? {
        return 0, 0;
      }
      matched, price := Min(best.value.quantity, wanted), best.value.price;
      orderbook.OnOrderMatch(side, matched);
    }

    /**
     * `on_new_market_order`: the order takes the opposite side's best level
     * again and again, each time for what it still lacks, until it is filled
     * or that side is empty. The opposite side and the order's filled
     * quantity end as `Sweep` says. The order's own side is untouched, the
     * opposite side lost exactly what the order gained, and no price was
     * added there.
     */
    method OnNewMarketOrder(order: Order) returns (result: Order, complete: bool)
      requires Valid() && Accepted(order)
      modifies orderbook.Repr()
      ensures Valid() && orderbook.Repr() == old(orderbook.Repr())
      ensures result == order.(filledQuantity := result.filledQuantity, displayQuantity := result.displayQuantity)
      ensures 0 <= result.filledQuantity <= result.totalQuantity
      ensures complete <==> IsFilled(result)
      ensures !complete ==> orderbook.Page(OppositePage(order.direction)).Contents == map[]
      ensures old(orderbook.Page(OppositePage(order.direction)).PageVolume())
        - orderbook.Page(OppositePage(order.direction)).PageVolume() == result.filledQuantity
      ensures orderbook.Page(OppositePage(order.direction)).Contents.Keys
        <= old(orderbook.Page(OppositePage(order.direction)).Contents.Keys)
      ensures orderbook.Page(OwnPage(order.direction)).Contents == old(orderbook.Page(OwnPage(order.direction)).Contents)
      ensures (orderbook.Page(OppositePage(order.direction)).Contents, result.filledQuantity)
        == Sweep(OppositePage(order.direction), old(orderbook.Page(OppositePage(order.direction)).Contents),
                 order.totalQuantity, 0)
    {
      var opposite := OppositePage(order.direction);
      ghost var own0 := orderbook.Page(OwnPage(order.direction)).Contents;
      ghost var bids0, asks0 := orderbook.bidOrderPage.Contents.Keys, orderbook.askOrderPage.Contents.Keys;
      ghost var m0 := orderbook.Page(opposite).Contents;
      ghost var swept := Sweep(opposite, m0, order.totalQuantity, 0);
      result, complete := order, true;
      while !IsFilled(result)
        invariant complete
        invariant orderbook.Valid() && orderbook.Repr() == old(orderbook.Repr())
        invariant result == order.(filledQuantity := result.filledQuantity, displayQuantity := result.displayQuantity)
        invariant 0 <= result.filledQuantity <= result.totalQuantity
        invariant orderbook.Page(OwnPage(order.direction)).Contents == own0
        invariant SweepFor(opposite, orderbook.Page(opposite).Contents, result) == swept
        decreases result.totalQuantity - result.filledQuantity
      {
        var matchedQuantity;
        result, matchedQuantity := SweepPass(opposite, result);
        if matchedQuantity == 0 {
          complete := false;
          break;
        }
      }
      SweepTakes(opposite, m0, order.totalQuantity, 0);
      UncrossedStaysUncrossed(bids0, asks0, orderbook.bidOrderPage.Contents.Keys, orderbook.askOrderPage.Contents.Keys);
    }

    /**
     * One pass of the loop of `on_new_market_order` for an order not yet
     * filled: the side's best level trades the smaller of its displayed
     * quantity and what the order still lacks (and only that level changes,
     * as `MatchAt` says), the order records the fill
     * and, once its display is used up, shows a fresh slice. Nothing trades
     * exactly when the side is empty. Sweeping on from the state after the
     * pass ends where sweeping from the state before it would.
     */
    method SweepPass(side: PageType, order: Order) returns (result: Order, matched: int)
      requires orderbook.Valid() && 0 <= order.filledQuantity < order.totalQuantity
      modifies orderbook.Repr()
      ensures orderbook.Valid() && orderbook.Repr() == old(orderbook.Repr())
      ensures matched == 0 <==> old(orderbook.Page(side).Contents) == map[]
      ensures matched == 0 ==> result == order && orderbook.Page(side).Contents == old(orderbook.Page(side).Contents)
      ensures result == order.(filledQuantity := result.filledQuantity, displayQuantity := result.displayQuantity)
      ensures 0 <= matched && result.filledQuantity == order.filledQuantity + matched <= order.totalQuantity
      ensures matched > 0 ==>
        && matched == Min(old(orderbook.GetBestQuotes(side)).value.quantity, order.totalQuantity - order.filledQuantity)
        && orderbook.Page(side).Contents ==
          MatchAt(old(orderbook.Page(side).Contents), old(orderbook.GetBestQuotes(side)).value.price, matched)
      ensures matched > 0 ==>
        result == (if ReleaseNeeded(Fill(order, matched)) then Release(Fill(order, matched)) else Fill(order, matched))
      ensures side == Bid ==> orderbook.askOrderPage.Contents == old(orderbook.askOrderPage.Contents)
      ensures side == Ask ==> orderbook.bidOrderPage.Contents == old(orderbook.bidOrderPage.Contents)
      ensures SweepFor(side, orderbook.Page(side).Contents, result) == SweepFor(side, old(orderbook.Page(side).Contents), order)
    {
      var quantity := order.totalQuantity - order.filledQuantity;
      ghost var before := orderbook.Page(side).Contents;
      ghost var price;
      matched, price := TakeBest(side, quantity);
      if matched == 0 {
        assert orderbook.Page(side).Contents == before;
        return order, 0;
      }
      result := RecordFill(order, matched);
      SweepForStep(side, before, price, order, matched, orderbook.Page(side).Contents, result);
    }

    /**
     * The incoming order's side of one pass: it records the fill and, once its
     * display is used up, shows a fresh slice. A fill within what the order
     * still lacks keeps it within its total.
     */
    method RecordFill(order: Order, matched: int) returns (result: Order)
      requires 0 < matched <= order.totalQuantity - order.filledQuantity
      ensures result == (if ReleaseNeeded(Fill(order, matched)) then Release(Fill(order, matched)) else Fill(order, matched))
      ensures result == order.(filledQuantity := result.filledQuantity, displayQuantity := result.displayQuantity)
      ensures result.filledQuantity == order.filledQuantity + matched <= order.totalQuantity
    {
      result := Fill(order, matched);
      if ReleaseNeeded(result) {
        result := Release(result);
      }
    }

    /**
     * `MatchingEngine.on_new_order`: a NEW MARKET order sweeps the opposite
     * side; any other request goes into the book by its direction, after
     * which crossed prices are matched away. A sweep leaves the order's own
     * side alone and the opposite side as `Sweep` leaves it; a booked request
     * leaves the sides as `ResolveCross` leaves the book with the request
     * applied. The engine stays well formed and the book is never left
     * crossed.
     */
    method OnNewOrder(incoming: Incoming) returns (outcome: EngineOutcome)
      requires Valid()
      requires incoming.New? ==> Accepted(incoming.order)
      modifies orderbook.Repr()
      ensures Valid() && fresh(orderbook.Repr() - old(orderbook.Repr()))
      ensures outcome.Swept? <==> incoming.New? && incoming.order.orderType == Market
      ensures outcome.Swept? ==>
        && outcome.order == incoming.order.(filledQuantity := outcome.order.filledQuantity,
                                            displayQuantity := outcome.order.displayQuantity)
        && (outcome.complete <==> IsFilled(outcome.order))
        && old(orderbook.Page(OppositePage(incoming.order.direction)).PageVolume())
          - orderbook.Page(OppositePage(incoming.order.direction)).PageVolume() == outcome.order.filledQuantity
      ensures outcome.Swept? ==>
        && orderbook.Page(OwnPage(incoming.order.direction)).Contents
          == old(orderbook.Page(OwnPage(incoming.order.direction)).Contents)
        && (orderbook.Page(OppositePage(incoming.order.direction)).Contents, outcome.order.filledQuantity)
          == Sweep(OppositePage(incoming.order.direction),
                   old(orderbook.Page(OppositePage(incoming.order.direction)).Contents), incoming.order.totalQuantity, 0)
      ensures outcome.Booked? ==>
        var own := OwnPage(Direction(incoming));
        var booked := ApplyToPage(old(orderbook.Page(own).Contents), incoming);
        && outcome.outcome == booked.1
        && LevelsValid(booked.0)
        && (own == Bid ==>
              (orderbook.bidOrderPage.Contents, orderbook.askOrderPage.Contents)
              == ResolveCross(booked.0, old(orderbook.askOrderPage.Contents)))
        && (own == Ask ==>
              (orderbook.bidOrderPage.Contents, orderbook.askOrderPage.Contents)
              == ResolveCross(old(orderbook.bidOrderPage.Contents), booked.0))
        && (own == Bid ==> 0 <= Volume(booked.0) - BidVolume() == old(AskVolume()) - AskVolume())
        && (own == Ask ==> 0 <= Volume(booked.0) - AskVolume() == old(BidVolume()) - BidVolume())
    {
      if incoming.New? && incoming.order.orderType == Market {
        var order, complete := OnNewMarketOrder(incoming.order);
        outcome := Swept(order, complete);
      } else {
        var booked := orderbook.OnNewOrder(incoming);
        CheckLimitOrderMatch();
        outcome := Booked(booked);
      }
    }
  }
}
