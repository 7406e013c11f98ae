/**
 * OrderLevel: the FIFO queue of resting orders at one price of one side,
 * with its aggregate counters, and the specification functions that say
 * what a fill does to the queue.
 */
module OrderLevels {
  import opened Wrappers
  import opened Orders

  /** Sum of the displayed quantities: what `combined_quantity` must equal. */
  function SumDisplay(s: seq<Order>): int
  {
    if s == [] then 0 else s[0].displayQuantity + SumDisplay(s[1..])
  }

  /** Sum of the quantities still to trade over a queue. */
  function SumRemaining(s: seq<Order>): int
  {
    if s == [] then 0 else Remaining(s[0]) + SumRemaining(s[1..])
  }

  predicate AllLive(s: seq<Order>)
  {
    forall o | o in s :: Live(o)
  }

  predicate AllResting(s: seq<Order>)
  {
    forall o | o in s :: Resting(o)
  }

  predicate AllAt(s: seq<Order>, price: int)
  {
    forall o {:trigger o in s} | o in s :: o.price == price
  }

  lemma AllLiveTail(s: seq<Order>)
    requires s != []
    ensures AllLive(s) ==> AllLive(s[1..])
    ensures AllResting(s) ==> AllResting(s[1..])
  {
    assert forall o | o in s[1..] :: o in s;
  }

  lemma {:induction false} SumConcat(a: seq<Order>, b: seq<Order>)
    ensures SumDisplay(a + b) == SumDisplay(a) + SumDisplay(b)
    ensures SumRemaining(a + b) == SumRemaining(a) + SumRemaining(b)
  {
    if a != [] {
      assert (a + b)[1..] == a[1..] + b;
      SumConcat(a[1..], b);
    } else {
      assert a + b == b;
    }
  }

  /** Replacing the order at index i changes the sums by the difference of that order alone. */
  lemma SumUpdate(s: seq<Order>, i: int, o: Order)
    requires 0 <= i < |s|
    ensures SumDisplay(s[i := o]) == SumDisplay(s) - s[i].displayQuantity + o.displayQuantity
    ensures SumRemaining(s[i := o]) == SumRemaining(s) - Remaining(s[i]) + Remaining(o)
  {
    assert s == s[..i] + ([s[i]] + s[i + 1..]);
    assert s[i := o] == s[..i] + ([o] + s[i + 1..]);
    SumConcat(s[..i], [s[i]] + s[i + 1..]);
    SumConcat(s[..i], [o] + s[i + 1..]);
    SumConcat([s[i]], s[i + 1..]);
    SumConcat([o], s[i + 1..]);
  }

  /** Removing the order at index i lowers the sums by that order's share. */
  lemma SumRemoveAt(s: seq<Order>, i: int)
    requires 0 <= i < |s|
    ensures SumDisplay(s[..i] + s[i + 1..]) == SumDisplay(s) - s[i].displayQuantity
    ensures SumRemaining(s[..i] + s[i + 1..]) == SumRemaining(s) - Remaining(s[i])
  {
    assert s == s[..i] + s[i..];
    assert s[i..][1..] == s[i + 1..];
    SumConcat(s[..i], s[i..]);
    SumConcat(s[..i], s[i + 1..]);
  }

  /** A queue of resting orders shows a positive quantity exactly when it is not empty. */
  lemma {:induction false} SumDisplayPositive(s: seq<Order>)
    requires AllLive(s)
    ensures SumDisplay(s) >= 0 && SumRemaining(s) >= 0
    ensures AllResting(s) ==> (SumDisplay(s) > 0 <==> s != [])
  {
    if s != [] {
      assert s[0] in s;
      AllLiveTail(s);
      SumDisplayPositive(s[1..]);
    }
  }

  /** `fill_quantity`, first step: head first, each order takes min(remaining request, its display). */
  function Distribute(s: seq<Order>, q: nat): (r: seq<Order>)
    ensures |r| == |s|
    decreases |s|
  {
    if s == [] || q == 0 then s
    else
      var a := Min(q, s[0].displayQuantity);
      [Fill(s[0], a)] + Distribute(s[1..], q - a)
  }

  /** Unfolding Distribute once on a non-empty queue and a positive request. */
  lemma DistributeUnfold(s: seq<Order>, q: nat)
    requires s != [] && q > 0
    ensures Min(q, s[0].displayQuantity) <= q
    ensures Distribute(s, q) ==
      [Fill(s[0], Min(q, s[0].displayQuantity))] + Distribute(s[1..], q - Min(q, s[0].displayQuantity))
  {
  }

  /**
   * Every order keeps its identity and takes a share between 0 and its
   * display, and the orders stay live.
   */
  lemma {:induction false} DistributeAllocates(s: seq<Order>, q: nat)
    requires AllLive(s)
    ensures AllLive(Distribute(s, q))
    ensures forall i | 0 <= i < |s| ::
      && 0 <= Distribute(s, q)[i].displayQuantity <= s[i].displayQuantity
      && Distribute(s, q)[i] == Fill(s[i], s[i].displayQuantity - Distribute(s, q)[i].displayQuantity)
  {
    if s != [] && q != 0 {
      var a := Min(q, s[0].displayQuantity);
      var rest := Distribute(s[1..], q - a);
      assert s[0] in s;
      AllLiveTail(s);
      DistributeAllocates(s[1..], q - a);
      FillKeepsBounds(s[0], a);
      var d := Distribute(s, q);
      assert d == [Fill(s[0], a)] + rest;
      forall i | 0 <= i < |s|
        ensures 0 <= d[i].displayQuantity <= s[i].displayQuantity
        ensures d[i] == Fill(s[i], s[i].displayQuantity - d[i].displayQuantity)
      {
        if i > 0 {
          assert d[i] == rest[i - 1] && s[i] == s[1..][i - 1];
        }
      }
      assert AllLive(d) by {
        forall o | o in d ensures Live(o) {
          if o != d[0] {
            assert o in rest;
          }
        }
      }
    } else {
      assert Distribute(s, q) == s;
      forall i | 0 <= i < |s| ensures 0 <= s[i].displayQuantity && s[i] == Fill(s[i], 0) {
        assert s[i] in s;
      }
    }
  }

  /** The queue shows min(q, shown) less, and has exactly that much less to trade. */
  lemma {:induction false} DistributeSums(s: seq<Order>, q: nat)
    requires AllLive(s)
    ensures SumDisplay(Distribute(s, q)) == SumDisplay(s) - Min(q, SumDisplay(s))
    ensures SumRemaining(Distribute(s, q)) == SumRemaining(s) - Min(q, SumDisplay(s))
  {
    if s != [] && q != 0 {
      var a := Min(q, s[0].displayQuantity);
      var rest := Distribute(s[1..], q - a);
      assert Live(s[0]) by { assert s[0] in s; }
      AllLiveTail(s);
      DistributeSums(s[1..], q - a);
      SumDisplayPositive(s[1..]);
      var d := Distribute(s, q);
      assert d[1..] == rest;
      assert SumDisplay(d) == s[0].displayQuantity - a + SumDisplay(rest);
      assert SumRemaining(d) == Remaining(s[0]) - a + SumRemaining(rest);
      assert SumDisplay(s) == s[0].displayQuantity + SumDisplay(s[1..]);
      assert SumRemaining(s) == Remaining(s[0]) + SumRemaining(s[1..]);
      if q <= s[0].displayQuantity {
        assert a == q && Min(q, SumDisplay(s)) == q;
        assert rest == s[1..];
      } else {
        assert a == s[0].displayQuantity;
        assert Min(q, SumDisplay(s)) == a + Min(q - a, SumDisplay(s[1..]));
      }
    } else if s == [] {
      assert Distribute(s, q) == s;
    } else {
      SumDisplayPositive(s);
      assert Distribute(s, q) == s;
    }
  }

  /**
   * One step of the allocation loop: after the first i orders of s have
   * their share and `remaining` is left, giving order i its share extends
   * the allocated prefix by one.
   */
  lemma DistributeStep(s: seq<Order>, q: nat, cur: seq<Order>, i: int, remaining: nat)
    requires 0 <= i < |s| == |cur|
    requires cur[i..] == s[i..]
    requires cur[..i] + Distribute(s[i..], remaining) == Distribute(s, q)
    requires i > 0 ==> remaining > 0
    requires cur[i].displayQuantity >= 0
    ensures Min(remaining, cur[i].displayQuantity) <= remaining
    ensures
      var a := Min(remaining, cur[i].displayQuantity);
      var next := cur[i := Fill(cur[i], a)];
      && next[i + 1..] == s[i + 1..]
      && next[..i + 1] + Distribute(s[i + 1..], remaining - a) == Distribute(s, q)
  {
    var a := Min(remaining, cur[i].displayQuantity);
    var next := cur[i := Fill(cur[i], a)];
    assert cur[i] == s[i];
    assert s[i..][1..] == s[i + 1..];
    assert next[..i + 1] == cur[..i] + [Fill(cur[i], a)];
    assert next[i + 1..] == cur[i + 1..];
    var rest := Distribute(s[i + 1..], remaining - a);
    if remaining > 0 {
      DistributeUnfold(s[i..], remaining);
      calc {
        Distribute(s, q);
        cur[..i] + Distribute(s[i..], remaining);
        cur[..i] + ([Fill(cur[i], a)] + rest);
        (cur[..i] + [Fill(cur[i], a)]) + rest;
        next[..i + 1] + rest;
      }
    } else {
      assert i == 0 && a == 0 && next == cur;
      assert Distribute(s, q) == s;
      assert rest == s[1..];
      assert next[..1] + rest == s;
    }
  }

  /** Once nothing remains to hand out, the queue is the finished allocation. */
  lemma DistributeDone(s: seq<Order>, q: nat, cur: seq<Order>, i: int)
    requires 0 <= i <= |s| == |cur|
    requires cur[i..] == s[i..]
    requires cur[..i] + Distribute(s[i..], 0) == Distribute(s, q)
    ensures cur == Distribute(s, q)
  {
    assert cur == cur[..i] + cur[i..];
  }

  /** Giving order i a fill of at most its display keeps the queue live and lowers the display sum by the fill. */
  lemma FillAt(s: seq<Order>, i: int, a: int, price: int)
    requires 0 <= i < |s| && AllLive(s) && AllAt(s, price)
    requires 0 <= a <= s[i].displayQuantity
    ensures AllLive(s[i := Fill(s[i], a)]) && AllAt(s[i := Fill(s[i], a)], price)
    ensures SumDisplay(s[i := Fill(s[i], a)]) == SumDisplay(s) - a
  {
    assert s[i] in s;
    FillKeepsBounds(s[i], a);
    SumUpdate(s, i, Fill(s[i], a));
    UpdateKeepsLive(s, i, Fill(s[i], a), price);
  }

  /** Dropping order i keeps the queue live and at its price, and lowers the display sum by its display. */
  lemma DropAt(s: seq<Order>, i: int, price: int)
    requires 0 <= i < |s| && AllLive(s) && AllAt(s, price)
    ensures AllLive(s[..i] + s[i + 1..]) && AllAt(s[..i] + s[i + 1..], price)
    ensures SumDisplay(s[..i] + s[i + 1..]) == SumDisplay(s) - s[i].displayQuantity
  {
    SumRemoveAt(s, i);
    assert forall o | o in s[..i] + s[i + 1..] :: o in s[..i] || o in s[i + 1..];
    assert forall o | o in s[..i] :: o in s;
    assert forall o | o in s[i + 1..] :: o in s;
  }

  /** Appending a live order at the price keeps the queue live and adds its display to the sum. */
  lemma AppendAt(s: seq<Order>, o: Order, price: int)
    requires AllLive(s) && AllAt(s, price) && Live(o) && o.price == price
    ensures AllLive(s + [o]) && AllAt(s + [o], price)
    ensures SumDisplay(s + [o]) == SumDisplay(s) + o.displayQuantity
  {
    SumConcat(s, [o]);
    assert SumDisplay([o]) == o.displayQuantity;
    assert forall x | x in s + [o] :: x in s || x == o;
  }

  /** Replacing one order by a live order at the same price keeps a queue live and at its price. */
  lemma UpdateKeepsLive(s: seq<Order>, i: int, o: Order, price: int)
    requires 0 <= i < |s| && AllLive(s) && AllAt(s, price)
    requires Live(o) && o.price == price
    ensures AllLive(s[i := o]) && AllAt(s[i := o], price)
  {
    forall x | x in s[i := o] ensures Live(x) && x.price == price {
      if x != o {
        var k :| 0 <= k < |s| && s[i := o][k] == x;
        assert k != i && s[k] == x && s[k] in s;
      }
    }
  }

  /** Head first: an order receives something only once every order ahead of it shows nothing. */
  lemma {:induction false} DistributeHeadFirst(s: seq<Order>, q: nat, i: int, j: int)
    requires AllLive(s)
    requires 0 <= i < j < |s|
    requires Distribute(s, q)[j] != s[j]
    ensures Distribute(s, q)[i].displayQuantity == 0
  {
    var a := Min(q, s[0].displayQuantity);
    var d := Distribute(s, q);
    assert s != [] && q != 0;
    DistributeUnfold(s, q);
    assert d[j] == Distribute(s[1..], q - a)[j - 1] && s[1..][j - 1] == s[j];
    assert q - a != 0;
    if i > 0 {
      DistributeHeadFirst(s[1..], q - a, i - 1, j - 1);
    }
  }

  /** An order that stays where it is after a fill. */
  predicate Stays(o: Order)
  {
    !IsFilled(o) && !ReleaseNeeded(o)
  }

  /** An order whose slice ran out but which still has quantity to trade. */
  predicate Requeued(o: Order)
  {
    !IsFilled(o) && ReleaseNeeded(o)
  }

  /** The orders kept in place by the cleanup pass, in their original order. */
  function Survivors(s: seq<Order>): seq<Order>
  {
    if s == [] then []
    else Survivors(s[..|s| - 1]) + (if Stays(s[|s| - 1]) then [s[|s| - 1]] else [])
  }

  /** The exhausted iceberg orders, each with a fresh slice, in their original order. */
  function Replenished(s: seq<Order>): seq<Order>
  {
    if s == [] then []
    else Replenished(s[..|s| - 1]) + (if Requeued(s[|s| - 1]) then [Release(s[|s| - 1])] else [])
  }

  /** `_on_fill`: filled orders leave, replenished ones go to the tail. */
  function Cleanup(s: seq<Order>): seq<Order>
  {
    Survivors(s) + Replenished(s)
  }

  lemma SurvivorsSnoc(s: seq<Order>, j: int)
    requires 0 <= j < |s|
    ensures Survivors(s[..j + 1]) == Survivors(s[..j]) + (if Stays(s[j]) then [s[j]] else [])
    ensures Replenished(s[..j + 1]) == Replenished(s[..j]) + (if Requeued(s[j]) then [Release(s[j])] else [])
  {
    assert s[..j + 1][..j] == s[..j];
  }

  /** The queue the cleanup pass holds after it has looked at the first j orders of s. */
  function Partial(s: seq<Order>, j: int): seq<Order>
    requires 0 <= j <= |s|
  {
    Survivors(s[..j]) + s[j..] + Replenished(s[..j])
  }

  /** One step of the cleanup pass, in each of its three cases. */
  lemma CleanupStep(s: seq<Order>, j: int)
    requires 0 <= j < |s|
    ensures var cur, idx := Partial(s, j), |Survivors(s[..j])|;
      && idx < |cur| && cur[idx] == s[j]
      && (IsFilled(s[j]) ==>
            cur[..idx] + cur[idx + 1..] == Partial(s, j + 1) && |Survivors(s[..j + 1])| == idx)
      && (Requeued(s[j]) ==>
            cur[..idx] + cur[idx + 1..] + [Release(s[j])] == Partial(s, j + 1)
            && |Survivors(s[..j + 1])| == idx)
      && (Stays(s[j]) ==> cur == Partial(s, j + 1) && |Survivors(s[..j + 1])| == idx + 1)
  {
    SurvivorsSnoc(s, j);
    var surv, repl := Survivors(s[..j]), Replenished(s[..j]);
    var tail := s[j + 1..] + repl;
    var cur := Partial(s, j);
    assert cur == surv + [s[j]] + tail by {
      assert s[j..] == [s[j]] + s[j + 1..];
    }
    SplitAround(surv, s[j], tail);
    if IsFilled(s[j]) {
      assert Partial(s, j + 1) == surv + tail;
    } else if Requeued(s[j]) {
      assert Partial(s, j + 1) == surv + tail + [Release(s[j])];
    } else {
      assert Partial(s, j + 1) == surv + [s[j]] + tail;
    }
  }

  /** The pieces of a sequence split around one element. */
  lemma SplitAround(a: seq<Order>, x: Order, b: seq<Order>)
    ensures var c := a + [x] + b;
      |a| < |c| && c[|a|] == x && c[..|a|] == a && c[|a| + 1..] == b
  {
    var c := a + [x] + b;
    assert c[..|a|] == a;
    assert c[|a| + 1..] == b;
  }

  /**
   * After the cleanup pass every order is resting again: none is filled and
   * every one shows a positive slice. The quantity still to trade is unchanged.
   */
  lemma {:induction false} CleanupRests(s: seq<Order>)
    requires AllLive(s)
    ensures AllResting(Survivors(s)) && AllResting(Replenished(s))
    ensures AllResting(Cleanup(s))
    ensures forall o | o in Cleanup(s) :: !IsFilled(o)
    ensures SumRemaining(Cleanup(s)) == SumRemaining(s)
  {
    CleanupPartsRest(s);
    RestingConcat(Survivors(s), Replenished(s));
    CleanupKeepsRemaining(s);
    SumConcat(Survivors(s), Replenished(s));
  }

  lemma RestingConcat(a: seq<Order>, b: seq<Order>)
    requires AllResting(a) && AllResting(b)
    ensures AllResting(a + b)
  {
    assert forall o | o in a + b :: o in a || o in b;
  }

  /** Both parts of the cleanup pass hold only resting orders. */
  lemma {:induction false} CleanupPartsRest(s: seq<Order>)
    requires AllLive(s)
    ensures AllResting(Survivors(s)) && AllResting(Replenished(s))
  {
    if s != [] {
      var init, x := s[..|s| - 1], s[|s| - 1];
      assert x in s && forall o | o in init :: o in s;
      CleanupPartsRest(init);
      if Requeued(x) {
        ReleaseMakesResting(x);
        RestingConcat(Replenished(init), [Release(x)]);
      }
      if Stays(x) {
        RestingConcat(Survivors(init), [x]);
      }
    }
  }

  /** The cleanup pass keeps the quantity still to trade: filled orders have none, replenished ones keep theirs. */
  lemma {:induction false} CleanupKeepsRemaining(s: seq<Order>)
    requires AllLive(s)
    ensures SumRemaining(Survivors(s)) + SumRemaining(Replenished(s)) == SumRemaining(s)
  {
    if s != [] {
      var init, x := s[..|s| - 1], s[|s| - 1];
      assert s == init + [x];
      assert x in s && forall o | o in init :: o in s;
      CleanupKeepsRemaining(init);
      SumConcat(init, [x]);
      SumConcat(Survivors(init), if Stays(x) then [x] else []);
      SumConcat(Replenished(init), if Requeued(x) then [Release(x)] else []);
      if IsFilled(x) {
        FilledShowsNothing(x);
      }
    }
  }

  /** Position of the first order with the given id. */
  function FindOrder(s: seq<Order>, orderId: int): (r: Option<nat>)
    ensures r.Some? ==> r.value < |s| && s[r.value].orderId == orderId
    ensures r.Some? ==> forall j | 0 <= j < r.value :: s[j].orderId != orderId
    ensures r.None? ==> forall j | 0 <= j < |s| :: s[j].orderId != orderId
  {
    if s == [] then None
    else if s[0].orderId == orderId then Some(0)
    else
      match FindOrder(s[1..], orderId)
      case None => None
      case Some(k) => Some(k + 1)
  }

  /** The queue without the first order carrying the id; unchanged when there is none. */
  function RemoveOrder(s: seq<Order>, orderId: int): seq<Order>
  {
    match FindOrder(s, orderId)
    case None => s
    case Some(k) => s[..k] + s[k + 1..]
  }

  /** An order appended behind a queue that lacks its id is found at the tail. */
  lemma {:induction false} FindOrderAppended(s: seq<Order>, order: Order)
    requires FindOrder(s, order.orderId).None?
    ensures FindOrder(s + [order], order.orderId) == Some(|s|)
    ensures RemoveOrder(s + [order], order.orderId) == s
  {
    if s != [] {
      assert (s + [order])[1..] == s[1..] + [order];
      FindOrderAppended(s[1..], order);
    }
    assert (s + [order])[..|s|] + (s + [order])[|s| + 1..] == s;
  }

  /** Where the scan of `delete_order` stands: still looking at an index, or stopped at the match. */
  datatype ScanState = Scanning(idx: nat) | Matched(idx: nat)

  /**
   * The scan loop of `delete_order` as written, run for a number of passes:
   * a pass that finds the id stops there, and a pass that does not leaves
   * the index where it was.
   */
  function ScanAsWritten(s: seq<Order>, orderId: int, idx: nat, passes: nat): ScanState
    requires idx < |s|
    decreases passes
  {
    if passes == 0 then Scanning(idx)
    else if s[idx].orderId == orderId then Matched(idx)
    else ScanAsWritten(s, orderId, idx, passes - 1)
  }

  /** As written, a level whose head carries another id keeps the scan at index 0 however many passes run. */
  lemma {:induction false} AsWrittenDeleteNeverEnds(s: seq<Order>, orderId: int, passes: nat)
    requires s != [] && s[0].orderId != orderId
    ensures ScanAsWritten(s, orderId, 0, passes) == Scanning(0)
    decreases passes
  {
    if passes > 0 {
      AsWrittenDeleteNeverEnds(s, orderId, passes - 1);
    }
  }

  /**
   * Removing an order keeps every other order, in the same relative order,
   * and keeps a queue of resting orders resting.
   */
  lemma RemoveOrderKeepsOthers(s: seq<Order>, orderId: int)
    requires FindOrder(s, orderId).Some?
    ensures |RemoveOrder(s, orderId)| == |s| - 1
    ensures forall i | 0 <= i < FindOrder(s, orderId).value :: RemoveOrder(s, orderId)[i] == s[i]
    ensures forall i | FindOrder(s, orderId).value <= i < |s| - 1 :: RemoveOrder(s, orderId)[i] == s[i + 1]
    ensures AllResting(s) ==> AllResting(RemoveOrder(s, orderId))
  {
    var k := FindOrder(s, orderId).value;
    var r := RemoveOrder(s, orderId);
    assert forall i | k <= i < |s| - 1 :: r[i] == s[i + 1];
  }

  /**
   * One price level: `order_list` in arrival order (except for replenished
   * icebergs, which go to the tail), `combined_quantity` and
   * `number_of_orders`.
   */
  class OrderLevel {
    var orders: seq<Order>
    const price: int
    var combinedQuantity: int
    var numberOfOrders: int

    /** The counters agree with the queue, and every order belongs at this price. */
    ghost predicate Counted()
      reads this
    {
      && combinedQuantity == SumDisplay(orders)
      && numberOfOrders == |orders|
      && AllLive(orders)
      && AllAt(orders, price)
    }

    /** Between operations every order rests: not filled, a positive slice on display. */
    ghost predicate Valid()
      reads this
    {
      Counted() && AllResting(orders)
    }

    /** `OrderLevel.__init__`: a level is created holding its first order. */
    constructor (order: Order)
      requires Resting(order)
      ensures Valid()
      ensures orders == [order] && price == order.price
      ensures combinedQuantity == order.displayQuantity && numberOfOrders == 1
    {
      orders := [order];
      price := order.price;
      combinedQuantity := order.displayQuantity;
      numberOfOrders := 1;
      assert SumDisplay([order]) == order.displayQuantity;
    }

    /** `_update_quantity` */
    method UpdateQuantity(updatedQuantity: int)
      modifies this`combinedQuantity
      ensures combinedQuantity == old(combinedQuantity) + updatedQuantity
    {
      combinedQuantity := combinedQuantity + updatedQuantity;
    }

    /** `add_order`: the order joins the tail; the counters grow by its display and by one. */
    method AddOrder(order: Order)
      requires Valid() && Resting(order) && order.price == price
      modifies this
      ensures Valid()
      ensures orders == old(orders) + [order]
      ensures combinedQuantity == old(combinedQuantity) + order.displayQuantity
      ensures numberOfOrders == old(numberOfOrders) + 1
    {
      SumConcat(orders, [order]);
      assert SumDisplay([order]) == order.displayQuantity;
      orders := orders + [order];
      numberOfOrders := numberOfOrders + 1;
      UpdateQuantity(order.displayQuantity);
    }

    /**
     * `delete_order`: scan from the head for the id; remove the first match
     * and take its display off the counter. An unknown id changes nothing.
     */
    method DeleteOrder(orderId: int) returns (found: bool)
      requires Valid()
      modifies this
      ensures Valid()
      ensures found <==> FindOrder(old(orders), orderId).Some?
      ensures orders == RemoveOrder(old(orders), orderId)
      ensures found ==>
        combinedQuantity == old(combinedQuantity) - old(orders)[FindOrder(old(orders), orderId).value].displayQuantity
      ensures !found ==> combinedQuantity == old(combinedQuantity)
      ensures SumRemaining(orders) == old(SumRemaining(orders)) -
        (if found then Remaining(old(orders)[FindOrder(old(orders), orderId).value]) else 0)
    {
      var idx := 0;
      var orderListLength := |orders|;
      found := false;
      while idx < orderListLength
        invariant 0 <= idx <= orderListLength == |orders|
        invariant orders == old(orders) && combinedQuantity == old(combinedQuantity)
        invariant numberOfOrders == old(numberOfOrders)
        invariant forall j | 0 <= j < idx :: orders[j].orderId != orderId
      {
        if orders[idx].orderId == orderId {
          found := true;
          SumRemoveAt(orders, idx);
          DropAt(orders, idx, price);
          assert forall o | o in orders[..idx] + orders[idx + 1..] :: o in orders;
          assert FindOrder(orders, orderId) == Some(idx);
          UpdateQuantity(-orders[idx].displayQuantity);
          orders := orders[..idx] + orders[idx + 1..];
          numberOfOrders := numberOfOrders - 1;
          break;
        }
        idx := idx + 1;
      }
    }

    /**
     * `fill_quantity`: hand out the request head first, lowering the counter
     * by every allocation, then run the cleanup pass. The quantity still to
     * trade at the level drops by min(request, combined quantity).
     */
    method FillQuantity(quantityToMatch: nat)
      requires Valid()
      modifies this
      ensures Valid()
      ensures orders == Cleanup(Distribute(old(orders), quantityToMatch))
      ensures SumRemaining(orders) == old(SumRemaining(orders)) - Min(quantityToMatch, old(combinedQuantity))
    {
      ghost var s := orders;
      var remaining: nat := quantityToMatch;
      var i := 0;
      while i < |orders|
        invariant 0 <= i <= |orders| == |s|
        invariant orders[i..] == s[i..]
        invariant orders[..i] + Distribute(s[i..], remaining) == Distribute(s, quantityToMatch)
        invariant i > 0 ==> remaining > 0
        invariant Counted()
      {
        assert orders[i] in orders;
        DistributeStep(s, quantityToMatch, orders, i, remaining);
        var fillQuantity := Min(remaining, orders[i].displayQuantity);
        remaining := remaining - fillQuantity;
        FillOrderAt(i, fillQuantity);
        if remaining == 0 {
          DistributeDone(s, quantityToMatch, orders, i + 1);
          break;
        }
        i := i + 1;
      }
      assert orders == Distribute(s, quantityToMatch) by {
        if i == |s| {
          DistributeDone(s, quantityToMatch, orders, i);
        }
      }
      ghost var distributed := orders;
      OnFill();
      DistributeSums(s, quantityToMatch);
      CleanupRests(distributed);
    }

    /**
     * `_on_fill`: walk the queue once; a filled order is dropped, an order
     * whose slice is used up gets a fresh one and moves to the tail (its new
     * slice is added to the counter), any other order is left in place.
     */
    method OnFill()
      requires Counted()
      modifies this
      ensures Valid()
      ensures orders == Cleanup(old(orders))
    {
      var orderListLength := |orders|;
      var idx := 0;
      ghost var s := orders;
      ghost var j := 0;
      while idx < orderListLength
        invariant 0 <= j <= |s|
        invariant orders == Partial(s, j)
        invariant idx == |Survivors(s[..j])|
        invariant orderListLength == idx + (|s| - j)
        invariant Counted()
        invariant AllLive(s)
        decreases orderListLength - idx
      {
        CleanupStep(s, j);
        var order := orders[idx];
        assert order in orders;
        if IsFilled(order) {
          FilledShowsNothing(order);
          PopOrder(idx);
          orderListLength := orderListLength - 1;
        } else if ReleaseNeeded(order) {
          RequeueOrder(idx);
          orderListLength := orderListLength - 1;
        } else {
          idx := idx + 1;
        }
        j := j + 1;
      }
      assert s[..|s|] == s;
      CleanupRests(s);
    }

    /** The order at idx trades q of its display, and the counter drops by q. */
    method FillOrderAt(idx: int, q: int)
      requires Counted() && 0 <= idx < |orders| && 0 <= q <= orders[idx].displayQuantity
      modifies this`orders, this`combinedQuantity
      ensures orders == old(orders[idx := Fill(orders[idx], q)])
      ensures Counted()
    {
      FillAt(orders, idx, q, price);
      orders := orders[idx := Fill(orders[idx], q)];
      UpdateQuantity(-q);
    }

    /** A filled order, which shows nothing, leaves the queue. */
    method PopOrder(idx: int)
      requires Counted() && 0 <= idx < |orders| && orders[idx].displayQuantity == 0
      modifies this`orders, this`numberOfOrders
      ensures orders == old(orders[..idx] + orders[idx + 1..])
      ensures Counted()
    {
      DropAt(orders, idx, price);
      orders := orders[..idx] + orders[idx + 1..];
      numberOfOrders := numberOfOrders - 1;
    }

    /**
     * An iceberg order whose slice ran out leaves its place, gets a fresh
     * slice and joins the tail; the slice is added to the counter.
     */
    method RequeueOrder(idx: int)
      requires Counted() && 0 <= idx < |orders|
      requires ReleaseNeeded(orders[idx]) && !IsFilled(orders[idx])
      modifies this`orders, this`combinedQuantity
      ensures orders == old(orders[..idx] + orders[idx + 1..]) + [Release(old(orders[idx]))]
      ensures Counted()
    {
      var order := orders[idx];
      assert order in orders;
      ReleaseMakesResting(order);
      DropAt(orders, idx, price);
      orders := orders[..idx] + orders[idx + 1..];
      order := Release(order);
      AppendAt(orders, order, price);
      orders := orders + [order];
      UpdateQuantity(order.displayQuantity);
    }

    /** `is_empty` */
    predicate IsEmpty()
      reads this
      requires Valid()
      ensures IsEmpty() <==> numberOfOrders == 0
      ensures IsEmpty() <==> combinedQuantity == 0
    {
      SumDisplayPositive(orders);
      orders == []
    }
  }
}
