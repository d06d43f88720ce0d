/**
 * `POST /api/orders`: field and human-verification checks, the cart parse,
 * the order id, the all-or-nothing stock engine over the catalog, the
 * best-effort pickup-slot decrement and the INSERT of the order row, in the
 * handler's order. Each step that fails answers at once; the steps already
 * done stay done.
 */
module Orders {
  import opened Text
  import opened Cart
  import opened Products
  import opened StockEngine
  import opened CatalogStore
  import PickupDates
  import opened OrderIds
  import opened OrderLedger

  /** The `cart` form field: missing (or empty), not JSON, parsed items one of which is
      `null` (reading its `id` throws), or the parsed items (an array, or the values of
      an object; any other JSON value gives no items). */
  datatype CartField = NoCart | Unparsable | HasNullItem | Items(lines: seq<CartLine>)

  /** The multipart form of an order; "" stands for a missing field. */
  datatype OrderRequest = OrderRequest(
    name: string,
    email: string,
    phone: string,
    deliveryDate: string,
    address: string,
    instagram: string,
    notes: string,
    cart: CartField,
    sliderOk: string,
    hasPaymentProof: bool)

  datatype SubmitOutcome =
    | MissingFields                  // 400
    | FailedVerification             // 400: the slider was not completed
    | InvalidCart                    // 400
    | OutOfStock(error: StockError)  // 400
    | SaveFailed                     // 500: the INSERT failed
    | ServerError                    // 500: an exception in the handler
    | Accepted(orderId: string)

  /** The first validation step: every required field and the payment proof present. */
  predicate HasRequiredFields(q: OrderRequest): (ok: bool)
    ensures ok ==> q.hasPaymentProof && (q.cart.Items? || q.cart.Unparsable? || q.cart.HasNullItem?)
    ensures q.name == "" || q.email == "" || q.phone == "" || q.deliveryDate == "" ==> !ok
  {
    q.name != "" && q.email != "" && q.phone != "" && q.deliveryDate != "" && !q.cart.NoCart? && q.hasPaymentProof
  }

  /** The order row written for an accepted request: the name, email and phone are
      stored trimmed, a missing address becomes "Store Pickup", the notes and the date
      are stored as sent, and the status starts as "pending". */
  function RowFor(q: OrderRequest, orderId: string, lines: seq<CartLine>): (r: OrderRow)
    ensures r.id == orderId && r.cartItems == lines && r.status == "pending"
    ensures r.customerName == Trim(q.name) && r.customerEmail == Trim(q.email) && r.customerPhone == Trim(q.phone)
    ensures q.address != "" ==> r.customerAddress == Trim(q.address)
    ensures q.instagram != "" ==> r.customerInstagram == Trim(q.instagram)
    ensures Trimmed(r.customerName) && Trimmed(r.customerEmail) && Trimmed(r.customerPhone)
    ensures Trimmed(r.customerAddress) && Trimmed(r.customerInstagram)
    ensures q.address == "" ==> r.customerAddress == "Store Pickup"
    ensures q.instagram == "" ==> r.customerInstagram == ""
    ensures r.customerNotes == q.notes && r.deliveryDate == q.deliveryDate
  {
    var pickup := "Store Pickup";
    assert pickup[0] == 'S' && pickup[|pickup| - 1] == 'p';
    OrderRow(
      orderId,
      Trim(q.name),
      Trim(q.email),
      Trim(q.phone),
      if q.address != "" then Trim(q.address) else pickup,
      if q.instagram != "" then Trim(q.instagram) else "",
      q.notes,
      q.deliveryDate,
      lines,
      "pending")
  }

  /** The steps after the stock engine accepted the cart: one slot off the chosen date
      (a failure does not fail the order), then the INSERT of the order row. */
  method RecordOrder(calendar: PickupDates.Calendar, ledger: Ledger, q: OrderRequest, lines: seq<CartLine>,
                     name: string, orderId: string, slotWriteOk: bool, storageFails: bool)
    returns (r: SubmitOutcome)
    requires orderId == NextOrderId(ledger.Ids(), name)
    modifies calendar, ledger
    ensures calendar.pickup == (if slotWriteOk then PickupDates.AfterOrder(old(calendar.pickup), q.deliveryDate)
                                else old(calendar.pickup))
    ensures r == SaveFailed <==> storageFails || orderId in old(ledger.Ids())
    ensures r != SaveFailed ==> r == Accepted(orderId) && ledger.orders == old(ledger.orders) + [RowFor(q, orderId, lines)]
    ensures r == SaveFailed ==> ledger.orders == old(ledger.orders)
    ensures old(calendar.Valid()) ==> calendar.Valid()
    ensures old(ledger.Valid()) ==> ledger.Valid()
    ensures old(ledger.Generated()) ==> ledger.Generated()
  {
    calendar.TakeSlot(q.deliveryDate, slotWriteOk);
    var saved := ledger.Insert(RowFor(q, orderId, lines), Prefix(name), storageFails);
    if !saved {
      return SaveFailed;
    }
    r := Accepted(orderId);
  }

  /** The handler. `slotWriteOk` is whether the dates file write succeeds (its failure
      is swallowed), `storageFails` whether the INSERT fails for a reason other than
      the primary key. */
  method SubmitOrder(catalog: Catalog, calendar: PickupDates.Calendar, ledger: Ledger, q: OrderRequest,
                     slotWriteOk: bool, storageFails: bool) returns (r: SubmitOutcome)
    modifies catalog, calendar, ledger
    ensures !HasRequiredFields(q) ==> r == MissingFields
    ensures HasRequiredFields(q) && q.sliderOk != "1" ==> r == FailedVerification
    ensures HasRequiredFields(q) && q.sliderOk == "1" && q.cart.Unparsable? ==> r == InvalidCart
    ensures HasRequiredFields(q) && q.sliderOk == "1" && q.cart.HasNullItem? ==> r == ServerError
    ensures r.MissingFields? || r.FailedVerification? || r.InvalidCart? || r.ServerError? || r.OutOfStock? ==>
      catalog.products == old(catalog.products) && calendar.pickup == old(calendar.pickup)
      && ledger.orders == old(ledger.orders)
    ensures HasRequiredFields(q) && q.sliderOk == "1" && q.cart.Items? ==>
      var lines := q.cart.lines;
      match FirstShortage(old(catalog.products), KeyOrder(lines), RequestedMap(lines))
      case Some(e) => r == OutOfStock(e)
      case None =>
        var id := NextOrderId(old(ledger.Ids()), Trim(q.name));
        && catalog.products == Decremented(old(catalog.products), KeyOrder(lines), RequestedMap(lines))
        && calendar.pickup == (if slotWriteOk then PickupDates.AfterOrder(old(calendar.pickup), q.deliveryDate)
                               else old(calendar.pickup))
        && (r == SaveFailed <==> storageFails || id in old(ledger.Ids()))
        && (r != SaveFailed ==> r == Accepted(id) && ledger.orders == old(ledger.orders) + [RowFor(q, id, lines)])
        && (r == SaveFailed ==> ledger.orders == old(ledger.orders))
    ensures old(catalog.Valid()) ==> catalog.Valid()
    ensures old(calendar.Valid()) ==> calendar.Valid()
    ensures old(ledger.Valid()) ==> ledger.Valid()
    ensures old(ledger.Generated()) ==> ledger.Generated()
    ensures old(ledger.Generated()) && old(|ledger.orders|) < 999 && !storageFails ==> !r.SaveFailed?
  {
    if !HasRequiredFields(q) {
      return MissingFields;
    }
    if q.sliderOk != "1" {
      return FailedVerification;
    }
    if q.cart.Unparsable? {
      return InvalidCart;
    }
    var name := Trim(q.name);
    var orderId := ledger.GenerateOrderId(name);
    if old(ledger.Generated()) && |ledger.orders| < 999 {
      LedgerNextIdFresh(ledger, name);
    }
    if q.cart.HasNullItem? {
      // The aggregation reads `item.id` of a null item, before anything is written.
      return ServerError;
    }
    r := PlaceOrder(catalog, calendar, ledger, q, q.cart.lines, name, orderId, slotWriteOk, storageFails);
  }

  /** A well-formed cart: the stock engine validates and decrements, and only when it
      accepts is a slot taken and the row inserted. */
  method PlaceOrder(catalog: Catalog, calendar: PickupDates.Calendar, ledger: Ledger, q: OrderRequest,
                    lines: seq<CartLine>, name: string, orderId: string, slotWriteOk: bool, storageFails: bool)
    returns (r: SubmitOutcome)
    requires orderId == NextOrderId(ledger.Ids(), name)
    modifies catalog, calendar, ledger
    ensures match FirstShortage(old(catalog.products), KeyOrder(lines), RequestedMap(lines))
      case Some(e) =>
        && r == OutOfStock(e)
        && catalog.products == old(catalog.products) && calendar.pickup == old(calendar.pickup)
        && ledger.orders == old(ledger.orders)
      case None =>
        && catalog.products == Decremented(old(catalog.products), KeyOrder(lines), RequestedMap(lines))
        && calendar.pickup == (if slotWriteOk then PickupDates.AfterOrder(old(calendar.pickup), q.deliveryDate)
                               else old(calendar.pickup))
        && (r == SaveFailed <==> storageFails || orderId in old(ledger.Ids()))
        && (r != SaveFailed ==> r == Accepted(orderId) && ledger.orders == old(ledger.orders) + [RowFor(q, orderId, lines)])
        && (r == SaveFailed ==> ledger.orders == old(ledger.orders))
    ensures old(catalog.Valid()) ==> catalog.Valid()
    ensures old(calendar.Valid()) ==> calendar.Valid()
    ensures old(ledger.Valid()) ==> ledger.Valid()
    ensures old(ledger.Generated()) ==> ledger.Generated()
  {
    // Stock: validate every requested id, then decrement, against one catalog read.
    var keys, requested := Aggregate(lines);
    var stock := catalog.ApplyRequested(keys, requested);
    if stock.Rejected? {
      return OutOfStock(stock.error);
    }
    r := RecordOrder(calendar, ledger, q, lines, name, orderId, slotWriteOk, storageFails);
  }
}
