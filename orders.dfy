/**
 * Orders: the request records handed to the matching engine and the
 * per-order quantity bookkeeping (`NewOrder`, `CancelOrder`).
 *
 * An order request arrives as a dictionary of named fields. Creating an
 * order checks that every required field is present with the right kind of
 * value, then (for a new order) checks ranges and choices and sets the
 * displayed quantity to the disclosed slice.
 */
module Orders {
  import opened Wrappers

  datatype Side = Buy | Sell

  datatype OrderType = Limit | Market

  /** A field value of a request. Prices are integer ticks. */
  datatype Value = IntVal(i: int) | FloatVal(ticks: int) | StrVal(s: string)

  datatype Kind = IntKind | FloatKind | StrKind

  datatype FieldSpec = FieldSpec(key: string, kind: Kind)

  type Request = map<string, Value>

  datatype OrderError =
    | MissingField(key: string)
    | WrongType(key: string)
    | DisclosedExceedsTotal
    | InvalidChoice(field: string)
    | NotPositive(field: string)

  /** Fields every order request carries (`Order.order_request_contents`). */
  const OrderFields: seq<FieldSpec> :=
    [FieldSpec("client_id", IntKind), FieldSpec("custom_id", StrKind)]

  /** Fields of a new order request (`NewOrder.order_request_contents`). */
  const NewOrderFields: seq<FieldSpec> :=
    [ FieldSpec("order_type", StrKind), FieldSpec("direction", StrKind),
      FieldSpec("instrument_name", StrKind), FieldSpec("price", FloatKind),
      FieldSpec("total_quantity", IntKind), FieldSpec("disclosed_quantity", IntKind) ]

  /** Fields of a cancel request (`CancelOrder.order_request_contents`). */
  const CancelOrderFields: seq<FieldSpec> :=
    [FieldSpec("order_id", IntKind), FieldSpec("direction", StrKind)]

  const OrderTypeChoices: seq<string> := ["LIMIT", "MARKET"]
  const DirectionChoices: seq<string> := ["BUY", "SELL"]

  predicate HasKind(v: Value, k: Kind)
  {
    match k
    case IntKind => v.IntVal?
    case FloatKind => v.FloatVal?
    case StrKind => v.StrVal?
  }

  /** The field is present in the request and holds a value of its declared kind. */
  predicate FieldOk(request: Request, f: FieldSpec)
  {
    f.key in request && HasKind(request[f.key], f.kind)
  }

  predicate FieldsOk(request: Request, fields: seq<FieldSpec>)
  {
    forall i | 0 <= i < |fields| :: FieldOk(request, fields[i])
  }

  /** The error raised for a field that is not FieldOk. */
  function FieldError(request: Request, f: FieldSpec): OrderError
  {
    if f.key in request then WrongType(f.key) else MissingField(f.key)
  }

  lemma FieldsOkConcat(request: Request, a: seq<FieldSpec>, b: seq<FieldSpec>)
    ensures FieldsOk(request, a + b) <==> FieldsOk(request, a) && FieldsOk(request, b)
  {
    if FieldsOk(request, a) && FieldsOk(request, b) {
      forall i | 0 <= i < |a + b| ensures FieldOk(request, (a + b)[i]) {
        if i >= |a| {
          assert (a + b)[i] == b[i - |a|];
        }
      }
    }
    if FieldsOk(request, a + b) {
      forall i | 0 <= i < |a| ensures FieldOk(request, a[i]) {
        assert (a + b)[i] == a[i];
      }
      forall i | 0 <= i < |b| ensures FieldOk(request, b[i]) {
        assert (a + b)[|a| + i] == b[i];
      }
    }
  }

  /**
   * `Order._verify_and_set_order_request`: walks the declared fields in
   * order and stops at the first one that is missing or of the wrong kind.
   */
  method VerifyOrderRequest(request: Request, fields: seq<FieldSpec>) returns (err: Option<OrderError>)
    ensures err.None? <==> FieldsOk(request, fields)
    ensures err.Some? ==>
      exists i | 0 <= i < |fields| ::
        && !FieldOk(request, fields[i])
        && err.value == FieldError(request, fields[i])
        && FieldsOk(request, fields[..i])
  {
    for i := 0 to |fields|
      invariant FieldsOk(request, fields[..i])
    {
      var f := fields[i];
      if f.key in request {
        if !HasKind(request[f.key], f.kind) {
          assert !FieldOk(request, fields[i]);
          return Some(WrongType(f.key));
        }
      } else {
        assert !FieldOk(request, fields[i]);
        return Some(MissingField(f.key));
      }
      assert fields[..i + 1] == fields[..i] + [f];
      FieldsOkConcat(request, fields[..i], [f]);
    }
    assert fields[..|fields|] == fields;
    return None;
  }

  /** A new order: its request fields plus the fill bookkeeping. */
  datatype Order = Order(
    orderId: int,
    clientId: int,
    customId: string,
    arrivalTime: int,
    orderType: OrderType,
    direction: Side,
    instrumentName: string,
    price: int,
    totalQuantity: int,
    disclosedQuantity: int,
    filledQuantity: int,
    displayQuantity: int)

  /** A request to cancel a resting order. The price is optional in the request. */
  datatype CancelOrder = CancelOrder(
    orderId: int,
    clientId: int,
    customId: string,
    arrivalTime: int,
    direction: Side,
    price: Option<int>)

  /** What the engine receives: the `order_purpose` of the request selects the variant. */
  datatype Incoming = New(order: Order) | Cancel(cancel: CancelOrder)

  function Direction(incoming: Incoming): Side
  {
    match incoming
    case New(o) => o.direction
    case Cancel(c) => c.direction
  }

  /** The quantity bounds an order keeps from creation on. */
  predicate WellFormed(o: Order)
  {
    && 0 < o.disclosedQuantity <= o.totalQuantity
    && 0 <= o.filledQuantity <= o.totalQuantity
    && 0 <= o.displayQuantity <= o.disclosedQuantity
    && o.filledQuantity + o.displayQuantity <= o.totalQuantity
  }

  /** An order as creation leaves it: nothing filled, the first slice on display. */
  predicate Accepted(o: Order)
  {
    && 0 < o.disclosedQuantity <= o.totalQuantity
    && o.price > 0
    && o.filledQuantity == 0
    && o.displayQuantity == o.disclosedQuantity
  }

  /** An order that may rest in a level between two operations. */
  predicate Resting(o: Order)
  {
    WellFormed(o) && o.displayQuantity > 0
  }

  /** An order inside a level while a fill is being applied: an empty display means something traded. */
  predicate Live(o: Order)
  {
    WellFormed(o) && (o.displayQuantity == 0 ==> o.filledQuantity > 0)
  }

  /** Remaining quantity to trade. */
  function Remaining(o: Order): int
  {
    o.totalQuantity - o.filledQuantity
  }

  /** `_update_filled_quantity`: q more units traded, taken off the display. */
  function Fill(o: Order, q: int): (r: Order)
    ensures r == o.(filledQuantity := r.filledQuantity, displayQuantity := r.displayQuantity)
    ensures r.filledQuantity + r.displayQuantity == o.filledQuantity + o.displayQuantity
    ensures Remaining(r) == Remaining(o) - q
  {
    o.(filledQuantity := o.filledQuantity + q, displayQuantity := o.displayQuantity - q)
  }

  /** `_release_quantity`: put a fresh slice on display. */
  function Release(o: Order): (r: Order)
    ensures r == o.(displayQuantity := r.displayQuantity)
    ensures r.displayQuantity <= r.disclosedQuantity
    ensures r.filledQuantity + r.displayQuantity <= r.totalQuantity
    ensures r.displayQuantity == r.disclosedQuantity || r.displayQuantity == Remaining(r)
    ensures o.filledQuantity < o.totalQuantity && o.disclosedQuantity > 0 ==> r.displayQuantity > 0
  {
    o.(displayQuantity := Min(o.totalQuantity - o.filledQuantity, o.disclosedQuantity))
  }

  /** `_is_filled` */
  predicate IsFilled(o: Order)
    ensures WellFormed(o) && IsFilled(o) ==> o.displayQuantity == 0
  {
    o.filledQuantity == o.totalQuantity
  }

  /** `_quantity_release_needed` */
  predicate ReleaseNeeded(o: Order)
    ensures WellFormed(o) && ReleaseNeeded(o) ==> Live(o) && !Resting(o)
  {
    o.displayQuantity == 0 && o.filledQuantity != 0
  }

  /**
   * A fill of at most the displayed quantity keeps the bounds, moves exactly
   * q from display to filled, and leaves the remaining quantity lowered by q.
   */
  lemma FillKeepsBounds(o: Order, q: int)
    requires Live(o) && 0 <= q <= o.displayQuantity
    ensures Live(Fill(o, q))
    ensures Fill(o, q).filledQuantity + Fill(o, q).displayQuantity == o.filledQuantity + o.displayQuantity
    ensures Remaining(Fill(o, q)) == Remaining(o) - q
    ensures Fill(o, q).filledQuantity == o.filledQuantity + q && Fill(o, q).displayQuantity == o.displayQuantity - q
    ensures q > 0 ==> Fill(o, q).filledQuantity > 0
  {
  }

  /** A well-formed order that is filled shows nothing and needs no more slices of its own. */
  lemma FilledShowsNothing(o: Order)
    requires WellFormed(o) && IsFilled(o)
    ensures o.displayQuantity == 0 && ReleaseNeeded(o) && Remaining(o) == 0
  {
  }

  /** Releasing a live order that is not filled makes it resting again, and keeps its remaining quantity. */
  lemma ReleaseMakesResting(o: Order)
    requires Live(o) && !IsFilled(o)
    ensures Resting(Release(o)) && Remaining(Release(o)) == Remaining(o)
    ensures Release(o).filledQuantity == o.filledQuantity
  {
  }

  /** The typed fields of a new order request that passed the field checks. */
  datatype NewOrderRequest = NewOrderRequest(
    clientId: int,
    customId: string,
    orderType: string,
    direction: string,
    instrumentName: string,
    price: int,
    totalQuantity: int,
    disclosedQuantity: int)

  /** Every field a new order request must carry: the common ones, then its own. */
  const NewOrderRequired: seq<FieldSpec> := OrderFields + NewOrderFields

  /** Every field a cancel request must carry. */
  const CancelOrderRequired: seq<FieldSpec> := OrderFields + CancelOrderFields

  function ReadNewOrderRequest(request: Request): NewOrderRequest
    requires FieldsOk(request, NewOrderRequired)
  {
    assert FieldOk(request, NewOrderRequired[0]) && FieldOk(request, NewOrderRequired[1]);
    assert FieldOk(request, NewOrderRequired[2]) && FieldOk(request, NewOrderRequired[3]);
    assert FieldOk(request, NewOrderRequired[4]) && FieldOk(request, NewOrderRequired[5]);
    assert FieldOk(request, NewOrderRequired[6]) && FieldOk(request, NewOrderRequired[7]);
    NewOrderRequest(
      request["client_id"].i, request["custom_id"].s,
      request["order_type"].s, request["direction"].s, request["instrument_name"].s,
      request["price"].ticks, request["total_quantity"].i, request["disclosed_quantity"].i)
  }

  /**
   * `NewOrder._verify_and_set_custom_attributes`: the slice may not exceed the
   * total, the order type and direction must be known choices, and price and
   * quantities must be positive; checked in that order.
   */
  function CustomAttributesError(req: NewOrderRequest): (e: Option<OrderError>)
    ensures e.None? <==>
      && req.disclosedQuantity <= req.totalQuantity
      && req.orderType in OrderTypeChoices
      && req.direction in DirectionChoices
      && req.price > 0 && req.totalQuantity > 0 && req.disclosedQuantity > 0
    ensures req.disclosedQuantity > req.totalQuantity ==> e == Some(DisclosedExceedsTotal)
    ensures req.disclosedQuantity <= req.totalQuantity && req.orderType !in OrderTypeChoices ==>
      e == Some(InvalidChoice("order_type"))
    ensures e.Some? && e.value.NotPositive? ==>
      req.orderType in OrderTypeChoices && req.direction in DirectionChoices
  {
    if req.disclosedQuantity > req.totalQuantity then Some(DisclosedExceedsTotal)
    else if req.orderType !in OrderTypeChoices then Some(InvalidChoice("order_type"))
    else if req.direction !in DirectionChoices then Some(InvalidChoice("direction"))
    else if req.price <= 0 then Some(NotPositive("price"))
    else if req.totalQuantity <= 0 then Some(NotPositive("total_quantity"))
    else if req.disclosedQuantity <= 0 then Some(NotPositive("disclosed_quantity"))
    else None
  }

  /** The order a checked request becomes: nothing filled, the disclosed slice on display. */
  function ToOrder(req: NewOrderRequest, orderId: int, arrivalTime: int): (o: Order)
    requires CustomAttributesError(req).None?
    ensures Accepted(o) && WellFormed(o) && Resting(o)
    ensures o.orderId == orderId && o.arrivalTime == arrivalTime
    ensures o.price == req.price && o.totalQuantity == req.totalQuantity
    ensures o.disclosedQuantity == req.disclosedQuantity
    ensures (o.direction == Buy <==> req.direction == "BUY") && (o.orderType == Market <==> req.orderType == "MARKET")
  {
    Order(
      orderId, req.clientId, req.customId, arrivalTime,
      if req.orderType == "LIMIT" then Limit else Market,
      if req.direction == "BUY" then Buy else Sell,
      req.instrumentName, req.price, req.totalQuantity, req.disclosedQuantity,
      0, req.disclosedQuantity)
  }

  /**
   * `NewOrder.__init__`: the common and the new-order fields are checked
   * before anything is read from the request, then the custom checks run.
   * The order id and the arrival time are supplied by the caller.
   */
  method CreateNewOrder(request: Request, orderId: int, arrivalTime: int) returns (r: Result<Order, OrderError>)
    ensures r.Ok? <==>
      FieldsOk(request, NewOrderRequired) && CustomAttributesError(ReadNewOrderRequest(request)).None?
    ensures r.Ok? ==> Accepted(r.value) && r.value == ToOrder(ReadNewOrderRequest(request), orderId, arrivalTime)
    ensures !FieldsOk(request, NewOrderRequired) ==> r.Err? && (r.error.MissingField? || r.error.WrongType?)
    ensures !FieldsOk(request, OrderFields) ==>
      r.Err? && exists i | 0 <= i < |OrderFields| :: r.error == FieldError(request, OrderFields[i])
    ensures FieldsOk(request, NewOrderRequired) && r.Err? ==>
      Some(r.error) == CustomAttributesError(ReadNewOrderRequest(request))
  {
    FieldsOkConcat(request, OrderFields, NewOrderFields);
    var err := VerifyOrderRequest(request, OrderFields);
    if err.Some? {
      return Err(err.value);
    }
    err := VerifyOrderRequest(request, NewOrderFields);
    if err.Some? {
      return Err(err.value);
    }
    var req := ReadNewOrderRequest(request);
    var custom := CustomAttributesError(req);
    if custom.Some? {
      return Err(custom.value);
    }
    return Ok(ToOrder(req, orderId, arrivalTime));
  }

  /** The price a cancel request names, if any: an integer price compares equal to the same float price. */
  function CancelPrice(request: Request): Option<int>
  {
    if "price" !in request then None
    else match request["price"]
      case IntVal(i) => Some(i)
      case FloatVal(t) => Some(t)
      case StrVal(_) => None
  }

  /**
   * `CancelOrder.__init__`: only the field checks apply. The direction is
   * not checked against the choices; any direction other than "BUY" is
   * routed to the ask side.
   */
  method CreateCancelOrder(request: Request, arrivalTime: int) returns (r: Result<CancelOrder, OrderError>)
    ensures r.Ok? <==> FieldsOk(request, CancelOrderRequired)
    ensures r.Err? ==> r.error.MissingField? || r.error.WrongType?
    ensures r.Ok? ==>
      && "order_id" in request && request["order_id"] == IntVal(r.value.orderId)
      && "direction" in request && request["direction"].StrVal?
      && (r.value.direction == Buy <==> request["direction"].s == "BUY")
      && r.value.price == CancelPrice(request)
      && r.value.arrivalTime == arrivalTime
  {
    FieldsOkConcat(request, OrderFields, CancelOrderFields);
    var err := VerifyOrderRequest(request, OrderFields);
    if err.Some? {
      return Err(err.value);
    }
    err := VerifyOrderRequest(request, CancelOrderFields);
    if err.Some? {
      return Err(err.value);
    }
    assert FieldOk(request, CancelOrderRequired[0]) && FieldOk(request, CancelOrderRequired[1]);
    assert FieldOk(request, CancelOrderRequired[2]) && FieldOk(request, CancelOrderRequired[3]);
    var direction := if request["direction"].s == "BUY" then Buy else Sell;
    return Ok(CancelOrder(
      request["order_id"].i, request["client_id"].i, request["custom_id"].s,
      arrivalTime, direction, CancelPrice(request)));
  }

  /**
   * The fields the two verification calls of `NewOrder.__init__` and of
   * `CancelOrder.__init__` check as written: both calls read
   * `self.order_request_contents`, which is the subclass's list, so the
   * common list is never consulted.
   */
  function CheckedFieldsAsWritten(subclassFields: seq<FieldSpec>): seq<FieldSpec>
  {
    subclassFields + subclassFields
  }

  /** A request with no client_id or custom_id passes the checks as written, and is rejected by the corrected list. */
  lemma AsWrittenAcceptsMissingClientId()
    ensures
      var request := map[
        "order_type" := StrVal("LIMIT"), "direction" := StrVal("BUY"),
        "instrument_name" := StrVal("X"), "price" := FloatVal(100),
        "total_quantity" := IntVal(10), "disclosed_quantity" := IntVal(10)];
      && FieldsOk(request, CheckedFieldsAsWritten(NewOrderFields))
      && !FieldsOk(request, NewOrderRequired)
  {
    var request := map[
      "order_type" := StrVal("LIMIT"), "direction" := StrVal("BUY"),
      "instrument_name" := StrVal("X"), "price" := FloatVal(100),
      "total_quantity" := IntVal(10), "disclosed_quantity" := IntVal(10)];
    FieldsOkConcat(request, NewOrderFields, NewOrderFields);
    assert FieldOk(request, NewOrderFields[0]) && FieldOk(request, NewOrderFields[1]);
    assert FieldOk(request, NewOrderFields[2]) && FieldOk(request, NewOrderFields[3]);
    assert FieldOk(request, NewOrderFields[4]) && FieldOk(request, NewOrderFields[5]);
    assert !FieldOk(request, NewOrderRequired[0]);
  }

  /** The same holds for a cancel: a request with only an id, a direction and a price passes the checks as written. */
  lemma AsWrittenCancelAcceptsMissingClientId()
    ensures
      var request := map["order_id" := IntVal(7), "direction" := StrVal("BUY"), "price" := FloatVal(100)];
      && FieldsOk(request, CheckedFieldsAsWritten(CancelOrderFields))
      && !FieldsOk(request, CancelOrderRequired)
  {
    var request := map["order_id" := IntVal(7), "direction" := StrVal("BUY"), "price" := FloatVal(100)];
    FieldsOkConcat(request, CancelOrderFields, CancelOrderFields);
    assert FieldOk(request, CancelOrderFields[0]) && FieldOk(request, CancelOrderFields[1]);
    assert !FieldOk(request, CancelOrderRequired[0]);
  }
}
