/**
 * OrderPage and OrderBook: one side of the book as a map from price to
 * OrderLevel with a cached best price, and the two sides together.
 *
 * Each page keeps a ghost view `Contents` (price to queue of orders); the
 * pure functions InsertOrder, CancelAt and MatchAt say what a request or a
 * fill does to that view, and the methods are proved against them.
 */
module OrderBooks {
  import opened Wrappers
  import opened Orders
  import opened OrderLevels

  datatype PageType = Bid | Ask

  /** Price and displayed quantity of a page's best level (`get_best_level_info`). */
  datatype Quote = Quote(price: int, quantity: int)

  /** What a request routed to a page did. */
  datatype BookOutcome =
    | Inserted
      /** The level existed; found tells whether the id was in it. An unknown id changes nothing. */
    | Cancelled(found: bool)
      /** No level at the cancel's price: nothing changed. */
    | NoLevelAtPrice
      /** The cancel request named no price: nothing changed. */
    | NoPrice

  /** For bids a higher price is better, for asks a lower one. */
  predicate AtLeastAsGood(pageType: PageType, a: int, b: int)
  {
    match pageType
    case Bid => a >= b
    case Ask => a <= b
  }

  /** p is the best of the prices: the maximum for a bid page, the minimum for an ask page. */
  predicate IsBest(pageType: PageType, p: int, prices: set<int>)
  {
    p in prices && forall k | k in prices :: AtLeastAsGood(pageType, p, k)
  }

  /** The cached best price is absent exactly when there are no prices, and otherwise the best one. */
  predicate BestOf(pageType: PageType, best: Option<int>, prices: set<int>)
  {
    if prices == {} then best.None? else best.Some? && IsBest(pageType, best.value, prices)
  }

  lemma EmptyIfNoPrice(prices: set<int>)
    requires forall p :: p !in prices
    ensures prices == {}
  {
    var none: set<int> := {};
    assert forall p :: p in prices <==> p in none;
    assert prices == none;
  }

  lemma SomePrice(prices: set<int>)
    requires prices != {}
    ensures exists p :: p in prices
  {
    if forall p :: p !in prices {
      EmptyIfNoPrice(prices);
      assert false;
    }
  }

  lemma EmptyIfNoLevel(m: map<int, seq<Order>>)
    requires m.Keys == {}
    ensures m == map[]
  {
    var none: map<int, seq<Order>> := map[];
    assert forall p :: p in m <==> p in none;
    assert m == none;
  }

  lemma SomeLevel(m: map<int, seq<Order>>)
    requires m != map[]
    ensures exists p :: p in m
  {
    if m.Keys == {} {
      EmptyIfNoLevel(m);
      assert false;
    }
    SomePrice(m.Keys);
  }

  /** `(min if page_type == 'ASK' else max)(order_level_dict)` */
  method ExtremePrice(pageType: PageType, prices: set<int>) returns (best: int)
    requires prices != {}
    ensures IsBest(pageType, best, prices)
    ensures best == BestPrice(pageType, prices)
  {
    SomePrice(prices);
    best :| best in prices;
    var rest := prices - {best};
    while rest != {}
      invariant rest <= prices && best in prices
      invariant forall k | k in prices - rest :: AtLeastAsGood(pageType, best, k)
      decreases rest
    {
      SomePrice(rest);
      var k :| k in rest;
      ghost var done := prices - rest;
      if !AtLeastAsGood(pageType, best, k) {
        best := k;
      }
      rest := rest - {k};
      assert prices - rest == done + {k};
    }
    BestUnique(pageType, best, BestPrice(pageType, prices), prices);
  }

  /** The best price of a set of prices is unique. */
  lemma BestUnique(pageType: PageType, a: int, b: int, prices: set<int>)
    requires IsBest(pageType, a, prices) && IsBest(pageType, b, prices)
    ensures a == b
  {
    assert AtLeastAsGood(pageType, a, b) && AtLeastAsGood(pageType, b, a);
  }

  /** Every non-empty set of prices has a best one. */
  lemma {:induction false} BestExists(pageType: PageType, prices: set<int>)
    requires prices != {}
    ensures exists p :: IsBest(pageType, p, prices)
    decreases prices
  {
    SomePrice(prices);
    var x :| x in prices;
    if prices - {x} == {} {
      BestOfOne(pageType, x, prices);
    } else {
      BestExists(pageType, prices - {x});
      var r :| IsBest(pageType, r, prices - {x});
      BestOfOneMore(pageType, x, r, prices);
    }
  }

  /** The best of a non-empty set of prices: the maximum for bids, the minimum for asks. */
  ghost function BestPrice(pageType: PageType, prices: set<int>): (p: int)
    requires prices != {}
    ensures IsBest(pageType, p, prices)
  {
    BestExists(pageType, prices);
    var p :| IsBest(pageType, p, prices);
    p
  }

  lemma BestOfOne(pageType: PageType, x: int, prices: set<int>)
    requires x in prices && prices - {x} == {}
    ensures IsBest(pageType, x, prices)
  {
    forall k | k in prices ensures k == x {
      assert k !in prices - {x};
    }
  }

  /** The better of one price and the best of the others is the best of all. */
  lemma BestOfOneMore(pageType: PageType, x: int, r: int, prices: set<int>)
    requires x in prices && IsBest(pageType, r, prices - {x})
    ensures IsBest(pageType, if AtLeastAsGood(pageType, x, r) then x else r, prices)
  {
    forall k | k in prices
      ensures AtLeastAsGood(pageType, if AtLeastAsGood(pageType, x, r) then x else r, k)
    {
      if k != x {
        assert k in prices - {x};
      }
    }
  }

  /** Some bid price is at or above some ask price. */
  ghost predicate PricesCross(bids: set<int>, asks: set<int>)
  {
    exists b, a | b in bids && a in asks :: b >= a
  }

  /** Sides that only lose prices cannot become crossed. */
  lemma UncrossedStaysUncrossed(bids: set<int>, asks: set<int>, bids': set<int>, asks': set<int>)
    requires !PricesCross(bids, asks) && bids' <= bids && asks' <= asks
    ensures !PricesCross(bids', asks')
  {
  }

  /** Every level of a page view holds at least one order, all resting at that level's price. */
  ghost predicate LevelsValid(m: map<int, seq<Order>>)
  {
    forall p | p in m :: m[p] != [] && AllResting(m[p]) && AllAt(m[p], p)
  }

  /** Quantity still to trade over all levels of a page. */
  ghost function Volume(m: map<int, seq<Order>>): int
    decreases |m|
  {
    if m == map[] then 0
    else
      SomeLevel(m);
      var p :| p in m;
      assert |m - {p}| < |m| by { assert (m - {p}).Keys == m.Keys - {p}; }
      SumRemaining(m[p]) + Volume(m - {p})
  }

  lemma {:induction false} VolumeRemove(m: map<int, seq<Order>>, p: int)
    requires p in m
    ensures Volume(m) == SumRemaining(m[p]) + Volume(m - {p})
    decreases |m|
  {
    var q :| q in m && Volume(m) == SumRemaining(m[q]) + Volume(m - {q});
    if q != p {
      assert (m - {q}).Keys == m.Keys - {q} && (m - {p}).Keys == m.Keys - {p};
      VolumeRemove(m - {q}, p);
      VolumeRemove(m - {p}, q);
      assert m - {q} - {p} == m - {p} - {q};
    }
  }

  /** Replacing the queue at one price changes the volume by that queue alone. */
  lemma VolumeUpdate(m: map<int, seq<Order>>, p: int, s: seq<Order>)
    ensures Volume(m[p := s]) == Volume(m) - (if p in m then SumRemaining(m[p]) else 0) + SumRemaining(s)
  {
    VolumeRemove(m[p := s], p);
    if p in m {
      VolumeRemove(m, p);
      assert m[p := s] - {p} == m - {p};
    } else {
      assert m[p := s] - {p} == m;
    }
  }

  lemma {:induction false} VolumeNonNegative(m: map<int, seq<Order>>)
    requires LevelsValid(m)
    ensures Volume(m) >= 0
    decreases |m|
  {
    if m != map[] {
      SomeLevel(m);
      var p :| p in m;
      VolumeRemove(m, p);
      assert LevelsValid(m - {p});
      assert |m - {p}| < |m| by { assert (m - {p}).Keys == m.Keys - {p}; }
      VolumeNonNegative(m - {p});
      SumDisplayPositive(m[p]);
    }
  }

  /** A NEW order joins the tail of the level at its price, which is created when absent. */
  function InsertOrder(m: map<int, seq<Order>>, order: Order): map<int, seq<Order>>
  {
    m[order.price := (if order.price in m then m[order.price] else []) + [order]]
  }

  /** A cancel at a price with a level removes the order; a level left empty is removed. */
  function CancelAt(m: map<int, seq<Order>>, price: int, orderId: int): map<int, seq<Order>>
    requires price in m
  {
    var rest := RemoveOrder(m[price], orderId);
    if rest == [] then m - {price} else m[price := rest]
  }

  /** A fill of q at the level at price; a level left empty is removed (`on_order_match`). */
  function MatchAt(m: map<int, seq<Order>>, price: int, q: nat): map<int, seq<Order>>
    requires price in m
  {
    var rest := Cleanup(Distribute(m[price], q));
    if rest == [] then m - {price} else m[price := rest]
  }

  /** A request handed to a page (`OrderPage.on_new_order`), and what it reports. */
  function ApplyToPage(m: map<int, seq<Order>>, incoming: Incoming): (map<int, seq<Order>>, BookOutcome)
  {
    match incoming
    case New(order) => (InsertOrder(m, order), Inserted)
    case Cancel(c) =>
      if c.price.None? then (m, NoPrice)
      else if c.price.value !in m then (m, NoLevelAtPrice)
      else (CancelAt(m, c.price.value, c.orderId), Cancelled(FindOrder(m[c.price.value], c.orderId).Some?))
  }

  /** Inserting keeps every level valid and adds at most the order's price. */
  lemma InsertKeepsLevels(m: map<int, seq<Order>>, order: Order)
    requires LevelsValid(m) && Resting(order)
    ensures LevelsValid(InsertOrder(m, order))
    ensures InsertOrder(m, order).Keys == m.Keys + {order.price}
  {
    var old_level := if order.price in m then m[order.price] else [];
    assert forall o | o in old_level + [order] :: o in old_level || o == order;
  }

  /**
   * The order appears exactly once more at its price than before, as the
   * last entry of that level, and the volume grows by its quantity.
   */
  lemma InsertAppendsOnce(m: map<int, seq<Order>>, order: Order)
    ensures var level := InsertOrder(m, order)[order.price];
      && level[|level| - 1] == order
      && multiset(level)[order] == (if order.price in m then multiset(m[order.price])[order] else 0) + 1
    ensures Volume(InsertOrder(m, order)) == Volume(m) + Remaining(order)
  {
    var old_level := if order.price in m then m[order.price] else [];
    var level := old_level + [order];
    assert multiset(level) == multiset(old_level) + multiset{order};
    VolumeUpdate(m, order.price, level);
    SumConcat(old_level, [order]);
    assert SumRemaining([order]) == Remaining(order);
  }

  /** A cancel keeps every level valid, never adds a price, and lowers the volume by the removed order. */
  lemma CancelKeepsLevels(m: map<int, seq<Order>>, price: int, orderId: int)
    requires LevelsValid(m) && price in m
    ensures LevelsValid(CancelAt(m, price, orderId))
    ensures CancelAt(m, price, orderId).Keys <= m.Keys
    ensures FindOrder(m[price], orderId).None? ==> CancelAt(m, price, orderId) == m
    ensures Volume(CancelAt(m, price, orderId)) == Volume(m) -
      (match FindOrder(m[price], orderId) case None => 0 case Some(k) => Remaining(m[price][k]))
  {
    var s := m[price];
    var rest := RemoveOrder(s, orderId);
    match FindOrder(s, orderId) {
      case None =>
        assert rest == s;
        assert m[price := s] == m;
      case Some(k) =>
        RemoveOrderKeepsOthers(s, orderId);
        SumRemoveAt(s, k);
        assert forall o | o in rest :: o in s;
    }
    VolumeUpdate(m, price, rest);
    if rest == [] {
      VolumeRemove(m, price);
      assert SumRemaining(rest) == 0;
    }
  }

  /**
   * A fill at a level keeps every level valid, never adds a price, and lowers
   * the volume by min(q, the level's displayed quantity).
   */
  lemma MatchKeepsLevels(m: map<int, seq<Order>>, price: int, q: nat)
    requires LevelsValid(m) && price in m
    ensures LevelsValid(MatchAt(m, price, q))
    ensures MatchAt(m, price, q).Keys <= m.Keys
    ensures Volume(MatchAt(m, price, q)) == Volume(m) - Min(q, SumDisplay(m[price]))
  {
    var s := m[price];
    assert AllLive(s);
    var d := Distribute(s, q);
    DistributeAllocates(s, q);
    DistributeSums(s, q);
    CleanupRests(d);
    var rest := Cleanup(d);
    assert AllAt(rest, price) by {
      forall o | o in rest ensures o.price == price {
        CleanupFrom(d, o);
        if o in d {
          var i :| 0 <= i < |d| && d[i] == o;
          assert s[i] in s;
        } else {
          var x :| x in d && o == Release(x);
          var i :| 0 <= i < |d| && d[i] == x;
          assert s[i] in s;
        }
      }
    }
    VolumeUpdate(m, price, rest);
    if rest == [] {
      VolumeRemove(m, price);
    }
  }

  /** Every order after the cleanup pass is an order of the queue, or one of them with a fresh slice. */
  lemma {:induction false} CleanupFrom(s: seq<Order>, o: Order)
    requires o in Cleanup(s)
    ensures o in s || exists x | x in s :: o == Release(x)
  {
    SurvivorsFrom(s);
    assert o in Survivors(s) || o in Replenished(s);
  }

  lemma {:induction false} SurvivorsFrom(s: seq<Order>)
    ensures forall o | o in Survivors(s) :: o in s
    ensures forall o | o in Replenished(s) :: exists x | x in s :: o == Release(x)
  {
    if s != [] {
      var init := s[..|s| - 1];
      SurvivorsFrom(init);
      assert forall o | o in init :: o in s;
      assert s[|s| - 1] in s;
    }
  }

  /**
   * Submitting a NEW order and then cancelling it by id at its price, before
   * any fill, gives back the page as it was (the level is removed if the
   * order was alone at that price).
   */
  lemma SubmitThenCancel(m: map<int, seq<Order>>, order: Order)
    requires forall p | p in m :: forall o | o in m[p] :: o.orderId != order.orderId
    requires order.price in m ==> m[order.price] != []
    ensures CancelAt(InsertOrder(m, order), order.price, order.orderId) == m
  {
    var old_level := if order.price in m then m[order.price] else [];
    var level := old_level + [order];
    assert forall j | 0 <= j < |old_level| :: old_level[j] in old_level;
    assert FindOrder(old_level, order.orderId).None?;
    FindOrderAppended(old_level, order);
    if order.price in m {
      assert InsertOrder(m, order)[order.price := old_level] == m;
    } else {
      assert InsertOrder(m, order) - {order.price} == m;
    }
  }

  /**
   * The NEW branch of `OrderPage.on_new_order` as written: a price without a
   * level gets a level holding the order, and the order is then appended to
   * the level at its price in every case.
   */
  function InsertOrderAsWritten(m: map<int, seq<Order>>, order: Order): map<int, seq<Order>>
  {
    var level := if order.price in m then m[order.price] else [order];
    m[order.price := level + [order]]
  }

  /**
   * As written, an order opening a level sits in it twice, and cancelling it
   * leaves a copy behind; the corrected insertion gives back the empty page.
   */
  lemma AsWrittenFirstOrderTwice(order: Order)
    ensures InsertOrderAsWritten(map[], order)[order.price] == [order, order]
    ensures CancelAt(InsertOrderAsWritten(map[], order), order.price, order.orderId) == map[order.price := [order]]
    ensures CancelAt(InsertOrder(map[], order), order.price, order.orderId) == map[]
  {
    var p := order.price;
    var twice := InsertOrderAsWritten(map[], order);
    assert [order] + [order] == [order, order];
    assert twice == map[p := [order, order]];
    assert RemoveOrder([order, order], order.orderId) == [order] by {
      assert FindOrder([order, order], order.orderId) == Some(0);
    }
    assert RemoveOrder([order], order.orderId) == [] by {
      assert FindOrder([order], order.orderId) == Some(0);
    }
    assert InsertOrder(map[], order) == map[p := [order]];
    assert map[p := [order]] - {p} == map[];
  }

  /**
   * `OrderPage`: one side of the book. `order_level_dict` maps each price to
   * its level and `best_price_level` caches the best price.
   */
  class OrderPage {
    const pageType: PageType
    var orderLevelDict: map<int, OrderLevel>
    var bestPriceLevel: Option<int>
    ghost var Contents: map<int, seq<Order>>
    ghost var Repr: set<object>

    /** Each price has its own valid level, holding exactly the view's queue for that price. */
    ghost predicate LevelsAgree()
      reads this`orderLevelDict, this`Contents, this`Repr, Repr - {this}
    {
      && this in Repr
      && orderLevelDict.Keys == Contents.Keys
      && (forall p | p in orderLevelDict ::
            && orderLevelDict[p] in Repr
            && orderLevelDict[p].Valid()
            && orderLevelDict[p].price == p
            && orderLevelDict[p].orders == Contents[p])
      && (forall p, q | p in orderLevelDict && q in orderLevelDict && p != q ::
            orderLevelDict[p] != orderLevelDict[q])
      && LevelsValid(Contents)
    }

    ghost predicate Valid()
      reads this, Repr
    {
      LevelsAgree() && BestOf(pageType, bestPriceLevel, Contents.Keys)
    }

    ghost function PageVolume(): int
      reads this
    {
      Volume(Contents)
    }

    /** `OrderPage.__init__` */
    constructor (pageType: PageType)
      ensures Valid() && fresh(Repr)
      ensures this.pageType == pageType && Contents == map[]
    {
      this.pageType := pageType;
      orderLevelDict := map[];
      bestPriceLevel := None;
      Contents := map[];
      Repr := {this};
    }

    /** `_update_best_level`: the best price is recomputed from the prices present. */
    method UpdateBestLevel()
      modifies this`bestPriceLevel
      ensures BestOf(pageType, bestPriceLevel, orderLevelDict.Keys)
    {
      if orderLevelDict.Keys == {} {
        bestPriceLevel := None;
      } else {
        var best := ExtremePrice(pageType, orderLevelDict.Keys);
        bestPriceLevel := Some(best);
      }
    }

    /** `get_best_level_info`: the best price with its level's combined quantity, or nothing on an empty page. */
    function GetBestLevelInfo(): (r: Option<Quote>)
      reads this, Repr
      requires Valid()
      ensures r.None? <==> Contents == map[]
      ensures r.Some? ==> IsBest(pageType, r.value.price, Contents.Keys)
      ensures r.Some? ==>
        r.value.price in Contents && r.value.quantity == SumDisplay(Contents[r.value.price]) && r.value.quantity > 0
    {
      match bestPriceLevel
      case None => None
      case Some(p) =>
        SumDisplayPositive(Contents[p]);
        Some(Quote(p, orderLevelDict[p].combinedQuantity))
    }

    /** `_add_order_level`: a new level holding the order. */
    method AddOrderLevel(price: int, order: Order)
      requires Resting(order) && order.price == price
      modifies this`orderLevelDict, this`Repr
      ensures price in orderLevelDict && fresh(orderLevelDict[price])
      ensures orderLevelDict == old(orderLevelDict)[price := orderLevelDict[price]]
      ensures orderLevelDict[price].Valid() && orderLevelDict[price].price == price
      ensures orderLevelDict[price].orders == [order]
      ensures Repr == old(Repr) + {orderLevelDict[price]}
    {
      var level := new OrderLevel(order);
      orderLevelDict := orderLevelDict[price := level];
      Repr := Repr + {level};
    }

    /** `_delete_order_level`: the level at the price leaves the page. */
    method DeleteOrderLevel(price: int)
      modifies this`orderLevelDict
      ensures orderLevelDict == old(orderLevelDict) - {price}
    {
      orderLevelDict := orderLevelDict - {price};
    }

    /** A NEW order at a price without a level opens one that holds just this order. */
    method OpenLevel(order: Order)
      requires LevelsAgree() && Resting(order) && order.price !in Contents
      modifies this`orderLevelDict, this`Repr, this`Contents
      ensures LevelsAgree() && fresh(Repr - old(Repr))
      ensures Contents == InsertOrder(old(Contents), order)
    {
      InsertKeepsLevels(Contents, order);
      AddOrderLevel(order.price, order);
      Contents := InsertOrder(Contents, order);
    }

    /** A NEW order at a price with a level joins the tail of that level. */
    method JoinLevel(order: Order)
      requires LevelsAgree() && Resting(order) && order.price in Contents
      modifies Repr - {this}, this`Contents
      ensures LevelsAgree() && Repr == old(Repr)
      ensures Contents == InsertOrder(old(Contents), order)
    {
      InsertKeepsLevels(Contents, order);
      var level := orderLevelDict[order.price];
      level.AddOrder(order);
      Contents := InsertOrder(Contents, order);
    }

    /**
     * The CANCEL branch of `on_new_order` at a price with a level: the order
     * leaves the level, a level left empty is removed.
     */
    method CancelIn(price: int, orderId: int) returns (found: bool)
      requires LevelsAgree() && price in Contents
      modifies Repr - {this}, this`orderLevelDict, this`Contents
      ensures LevelsAgree() && Repr == old(Repr)
      ensures Contents == CancelAt(old(Contents), price, orderId)
      ensures found == FindOrder(old(Contents)[price], orderId).Some?
    {
      CancelKeepsLevels(Contents, price, orderId);
      var level := orderLevelDict[price];
      found := level.DeleteOrder(orderId);
      Contents := CancelAt(Contents, price, orderId);
      if level.IsEmpty() {
        DeleteOrderLevel(price);
      }
    }

    /**
     * `on_new_order`: a NEW order joins the level at its price (a new level
     * when there is none); a CANCEL removes the order from the level at its
     * price and fails when there is no such level. A level left empty is
     * removed and the best price is recomputed.
     */
    method OnNewOrder(incoming: Incoming) returns (outcome: BookOutcome)
      requires Valid()
      requires incoming.New? ==> Resting(incoming.order)
      modifies Repr
      ensures Valid() && fresh(Repr - old(Repr))
      ensures (Contents, outcome) == ApplyToPage(old(Contents), incoming)
    {
      match incoming {
        case New(order) =>
          if order.price !in orderLevelDict {
            OpenLevel(order);
          } else {
            JoinLevel(order);
          }
          UpdateBestLevel();
          outcome := Inserted;
        case Cancel(c) =>
          if c.price.None? {
            return NoPrice;
          }
          if c.price.value !in orderLevelDict {
            return NoLevelAtPrice;
          }
          var found := CancelIn(c.price.value, c.orderId);
          UpdateBestLevel();
          outcome := Cancelled(found);
      }
    }

    /**
     * `on_order_match`: the best level takes the fill; if it is left empty it
     * is removed; the best price is recomputed. The page's volume drops by
     * min(quantity, the best level's displayed quantity).
     */
    method OnOrderMatch(quantity: nat)
      requires Valid() && Contents != map[]
      modifies Repr
      ensures Valid() && Repr == old(Repr)
      ensures old(bestPriceLevel).Some?
      ensures Contents == MatchAt(old(Contents), old(bestPriceLevel).value, quantity)
      ensures Contents.Keys <= old(Contents).Keys
      ensures PageVolume() == old(PageVolume()) - Min(quantity, old(GetBestLevelInfo()).value.quantity)
    {
      MatchKeepsLevels(Contents, bestPriceLevel.value, quantity);
      FillLevel(bestPriceLevel.value, quantity);
      UpdateBestLevel();
    }

    /** The level at the price takes the fill; a level left empty is removed. */
    method FillLevel(price: int, quantity: nat)
      requires LevelsAgree() && price in Contents
      modifies Repr - {this}, this`orderLevelDict, this`Contents
      ensures LevelsAgree() && Repr == old(Repr)
      ensures Contents == MatchAt(old(Contents), price, quantity)
    {
      MatchKeepsLevels(Contents, price, quantity);
      var level := orderLevelDict[price];
      level.FillQuantity(quantity);
      Contents := MatchAt(Contents, price, quantity);
      if level.IsEmpty() {
        DeleteOrderLevel(price);
      }
    }
  }

  /** `OrderBook`: the bid page and the ask page of one instrument. */
  class OrderBook {
    const bidOrderPage: OrderPage
    const askOrderPage: OrderPage

    /** The objects the book's state lives in: the two pages' footprints. */
    ghost function Repr(): set<object>
      reads bidOrderPage, askOrderPage
    {
      bidOrderPage.Repr + askOrderPage.Repr
    }

    ghost predicate Valid()
      reads bidOrderPage, askOrderPage, Repr()
    {
      && bidOrderPage in bidOrderPage.Repr && askOrderPage in askOrderPage.Repr
      && bidOrderPage.Repr !! askOrderPage.Repr
      && bidOrderPage.pageType == Bid && askOrderPage.pageType == Ask
      && bidOrderPage.Valid() && askOrderPage.Valid()
    }

    /** The page a quote type names. */
    function Page(quoteType: PageType): (page: OrderPage)
      ensures page == if quoteType == Bid then bidOrderPage else askOrderPage
    {
      if quoteType == Bid then bidOrderPage else askOrderPage
    }

    /** `OrderBook.__init__` followed by `initialize_orderbook`. */
    constructor ()
      ensures Valid() && fresh(Repr())
      ensures bidOrderPage.Contents == map[] && askOrderPage.Contents == map[]
    {
      bidOrderPage := new OrderPage(Bid);
      askOrderPage := new OrderPage(Ask);
    }

    /**
     * The best bid is at or above the best ask: exactly when some bid price
     * is at or above some ask price.
     */
    predicate Crossed()
      reads bidOrderPage, askOrderPage, Repr()
      requires Valid()
      ensures Crossed() <==> PricesCross(bidOrderPage.Contents.Keys, askOrderPage.Contents.Keys)
    {
      var bid, ask := GetBestQuotes(Bid), GetBestQuotes(Ask);
      assert PricesCross(bidOrderPage.Contents.Keys, askOrderPage.Contents.Keys) ==>
        bid.Some? && ask.Some? && bid.value.price >= ask.value.price;
      bid.Some? && ask.Some? && bid.value.price >= ask.value.price
    }

    /**
     * `OrderBook.on_new_order`: a BUY request goes to the bid page, a SELL
     * request to the ask page; the other page is untouched.
     */
    method OnNewOrder(incoming: Incoming) returns (outcome: BookOutcome)
      requires Valid()
      requires incoming.New? ==> Resting(incoming.order)
      modifies Repr()
      ensures Valid() && fresh(Repr() - old(Repr()))
      ensures Direction(incoming) == Buy ==>
        && (bidOrderPage.Contents, outcome) == ApplyToPage(old(bidOrderPage.Contents), incoming)
        && askOrderPage.Contents == old(askOrderPage.Contents)
      ensures Direction(incoming) == Sell ==>
        && (askOrderPage.Contents, outcome) == ApplyToPage(old(askOrderPage.Contents), incoming)
        && bidOrderPage.Contents == old(bidOrderPage.Contents)
    {
      if Direction(incoming) == Buy {
        outcome := bidOrderPage.OnNewOrder(incoming);
      } else {
        outcome := askOrderPage.OnNewOrder(incoming);
      }
    }

    /**
     * `get_best_qoutes`: the named page's best price and its displayed
     * quantity, or nothing when that page is empty.
     */
    function GetBestQuotes(quoteType: PageType): (r: Option<Quote>)
      reads bidOrderPage, askOrderPage, Repr()
      requires Valid()
      ensures r.None? <==> Page(quoteType).Contents == map[]
      ensures r.Some? ==> IsBest(quoteType, r.value.price, Page(quoteType).Contents.Keys)
      ensures r.Some? ==> r.value.quantity == SumDisplay(Page(quoteType).Contents[r.value.price]) > 0
    {
      Page(quoteType).GetBestLevelInfo()
    }

    /** `on_order_match` on the named page; the other page is untouched. */
    method OnOrderMatch(quoteType: PageType, quantity: nat)
      requires Valid() && Page(quoteType).Contents != map[]
      modifies Repr()
      ensures Valid() && Repr() == old(Repr())
      ensures Page(quoteType).Contents.Keys <= old(Page(quoteType).Contents.Keys)
      ensures Page(quoteType).Contents ==
        MatchAt(old(Page(quoteType).Contents), old(GetBestQuotes(quoteType)).value.price, quantity)
      ensures Page(quoteType).PageVolume() ==
        old(Page(quoteType).PageVolume()) - Min(quantity, old(GetBestQuotes(quoteType)).value.quantity)
      ensures quoteType == Bid ==> askOrderPage.Contents == old(askOrderPage.Contents)
      ensures quoteType == Ask ==> bidOrderPage.Contents == old(bidOrderPage.Contents)
    {
      if quoteType == Bid {
        bidOrderPage.OnOrderMatch(quantity);
      } else {
        askOrderPage.OnOrderMatch(quantity);
      }
    }
  }
}
