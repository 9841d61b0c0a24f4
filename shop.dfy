/** The stored products, orders and status history, and the operations that change them:
    the stock methods of `Product`, `Order.save` with its pre- and post-save hooks, the
    soft delete of a row, and order creation through the API serializer. */
module Shop {
  import opened Common
  import opened SoftDelete
  import opened RequestContext
  import opened Products
  import opened Orders

  /** `products` with the stock of `id` replaced. */
  function WithStock(products: map<ProductId, Product>, id: ProductId, stock: int): map<ProductId, Product>
    requires id in products
  {
    products[id := products[id].(stockQuantity := stock)]
  }

  /** An update of `stock_quantity` to `stock`, under the `stock_quantity >= 0` check
      constraint: it succeeds and writes exactly that column, or fails and writes nothing. */
  predicate StockWritten(before: map<ProductId, Product>, after: map<ProductId, Product>, id: ProductId, stock: int, ok: bool)
    requires id in before
  {
    (ok <==> stock >= 0) && after == (if ok then WithStock(before, id, stock) else before)
  }

  /** Why the order serializer rejects its input. */
  datatype OrderFieldError = ProductDoesNotExist | InvalidQuantity | InvalidStatus

  /** The field errors of an order write: the product must be found by the default
      manager (so it must be live), the quantity at least 1, the status one of the choices. */
  function OrderFieldErrors(products: map<ProductId, Product>, product: ProductId, quantity: int, status: int)
    : (errors: set<OrderFieldError>)
    ensures ProductDoesNotExist !in errors <==> product in products && IsLive(products[product].deleteStatus)
    ensures InvalidQuantity !in errors <==> quantity >= 1
    ensures InvalidStatus !in errors <==> IsStatusChoice(status)
  {
    (if product in products && IsLive(products[product].deleteStatus) then {} else {ProductDoesNotExist}) +
    (if quantity >= 1 then {} else {InvalidQuantity}) +
    (if IsStatusChoice(status) then {} else {InvalidStatus})
  }

  /** What creating an order of `quantity` does against a stock of `stock`: the first
      update needs `quantity` in stock, the second (the post-save hook) needs it again. */
  function CreateResult(stock: int, quantity: int): CreateOutcome {
    if stock < quantity then NotEnoughStock
    else if stock - quantity - quantity < 0 then StockConstraint
    else Created
  }

  /** An order is created exactly when the stock covers twice its quantity. */
  lemma CreateNeedsTwice(stock: int, quantity: int)
    ensures CreateResult(stock, quantity) == NotEnoughStock <==> stock < quantity
    ensures CreateResult(stock, quantity) == StockConstraint <==> quantity <= stock < 2 * quantity
    ensures CreateResult(stock, quantity) == Created <==> quantity <= stock && 2 * quantity <= stock
  {
  }

  datatype CreateOutcome =
    | Created
    | Invalid(errors: set<OrderFieldError>)
    /** "Not enough stock." */
    | NotEnoughStock
    /** The check constraint failed inside the transaction, which was rolled back. */
    | StockConstraint

  /** An `Order` instance in memory, with the state the hooks keep on it. */
  class OrderInstance {
    const id: OrderId
    var code: string
    var product: ProductId
    var quantity: int
    var status: int
    var statusChangedAt: Option<Time>
    var deleteStatus: int
    /** `_state.adding`: not yet saved. */
    var adding: bool
    /** `_old_status`, written by the pre-save hook. */
    var oldStatus: Option<int>

    /** A new, unsaved order with the given fields and every other field at its default. */
    constructor (id: OrderId, product: ProductId, quantity: int, status: int)
      ensures this.id == id && this.product == product && this.quantity == quantity && this.status == status
      ensures code == "" && statusChangedAt == None && deleteStatus == NOT_DELETED
      ensures adding && oldStatus == None
    {
      this.id := id;
      this.product := product;
      this.quantity := quantity;
      this.status := status;
      code := "";
      statusChangedAt := None;
      deleteStatus := NOT_DELETED;
      adding := true;
      oldStatus := None;
    }

    /** `Order.save` up to the row write: the code is generated when empty; then
        `track_order_status_change` captures the status stored before this save and
        `update_status_timestamp` stamps the order when it is new or its status moved. */
    method PrepareForSave(stored: map<OrderId, OrderRow>, hex: string, now: Time)
      requires IsUuidHex(hex)
      modifies this
      ensures product == old(product) && quantity == old(quantity) && status == old(status)
      ensures deleteStatus == old(deleteStatus) && adding == old(adding)
      ensures code == (if old(code) == "" then OrderCode(hex) else old(code))
      ensures oldStatus == OldStatus(stored, id, adding)
      ensures statusChangedAt == Stamp(adding, oldStatus, status, old(statusChangedAt), now)
    {
      if code == "" {
        code := OrderCode(hex);
      }
      // track_order_status_change
      if adding {
        oldStatus := None;
      } else if id in stored && IsLive(stored[id].deleteStatus) {
        oldStatus := Some(stored[id].status);
      } else {
        oldStatus := None;
      }
      // update_status_timestamp
      if adding {
        statusChangedAt := Some(now);
      } else if oldStatus != Some(status) {
        statusChangedAt := Some(now);
      }
    }

    /** The row a save writes. */
    function Row(): OrderRow
      reads this
    {
      OrderRow(code, product, quantity, status, statusChangedAt, deleteStatus)
    }
  }

  class Store {
    /** Every product row, deleted or not. */
    var products: map<ProductId, Product>
    /** Every order row, deleted or not. */
    var orders: map<OrderId, OrderRow>
    /** The `order_status_history` rows in the order they were written. */
    var history: seq<HistoryEntry>

    /** The check constraint on stock, and every foreign key resolves. */
    ghost predicate Valid()
      reads this
    {
      (forall p :: p in products ==> products[p].stockQuantity >= 0) &&
      (forall o :: o in orders ==> orders[o].product in products) &&
      (forall i :: 0 <= i < |history| ==> history[i].order in orders)
    }

    constructor ()
      ensures Valid() && products == map[] && orders == map[] && history == []
    {
      products := map[];
      orders := map[];
      history := [];
    }

    /** `decrease_stock`: subtracts `quantity` from the stored stock (deleted products
        included), subject to the check constraint. */
    method DecreaseStock(id: ProductId, quantity: int) returns (ok: bool)
      requires Valid() && id in products
      modifies this
      ensures Valid() && orders == old(orders) && history == old(history)
      ensures StockWritten(old(products), products, id, old(products)[id].stockQuantity - quantity, ok)
    {
      var stock := products[id].stockQuantity - quantity;
      if stock < 0 {
        return false;
      }
      products := WithStock(products, id, stock);
      ok := true;
    }

    /** `increase_stock`: adds `quantity` to the stored stock, subject to the check
        constraint. */
    method IncreaseStock(id: ProductId, quantity: int) returns (ok: bool)
      requires Valid() && id in products
      modifies this
      ensures Valid() && orders == old(orders) && history == old(history)
      ensures StockWritten(old(products), products, id, old(products)[id].stockQuantity + quantity, ok)
    {
      var stock := products[id].stockQuantity + quantity;
      if stock < 0 {
        return false;
      }
      products := WithStock(products, id, stock);
      ok := true;
    }

    /** `delete` on a product: only its flag changes and the row stays stored. */
    method DeleteProduct(id: ProductId)
      requires Valid() && id in products
      modifies this
      ensures Valid() && orders == old(orders) && history == old(history)
      ensures id in products && !IsLive(products[id].deleteStatus)
      ensures products == old(products)[id := old(products)[id].(deleteStatus := DELETED)]
    {
      products := products[id := products[id].(deleteStatus := DELETED)];
    }

    /** `update_stock_on_order`, given whether the save inserted the row: at most one
        stock update, chosen by the stock rule. */
    method ApplyStockRule(created: bool, prior: Option<int>, status: int, product: ProductId, quantity: int)
      returns (ok: bool)
      requires Valid() && product in products
      modifies this
      ensures Valid() && orders == old(orders) && history == old(history)
      ensures StockWritten(old(products), products, product,
                old(products)[product].stockQuantity + StockDelta(StockRule(created, prior, status), quantity), ok)
    {
      ok := true;
      if prior == Some(status) {
        assert products == WithStock(products, product, products[product].stockQuantity);
        return;
      }
      if created || (prior != Some(PENDING) && status == PENDING) {
        ok := DecreaseStock(product, quantity);
      } else if status == CANCELLED && prior != Some(CANCELLED) {
        ok := IncreaseStock(product, quantity);
      } else {
        assert products == WithStock(products, product, products[product].stockQuantity);
      }
    }

    /** `create_order_status_history`: one row when the status moved, with its
        attribution; none otherwise. */
    method RecordHistory(id: OrderId, prior: Option<int>, status: int, current: Option<Request>, now: Time)
      requires Valid() && id in orders
      modifies this
      ensures Valid() && products == old(products) && orders == old(orders)
      ensures history == old(history) + HistoryFor(id, prior, status, Attribute(current), now)
    {
      if prior == Some(status) {
        return;
      }
      // the attribution of the change, from the current request
      var who := Attribute(current);
      history := history + [HistoryEntry(id, prior, status, who.changedBy, who.source, who.ipAddress, now)];
    }

    /** `Order.save` with its hooks, in order: the code is generated when empty; the old
        status is captured and the status timestamp set; the row is written; the history row
        is appended; the stock rule is applied. A failing stock update raises after the row
        and the history row were written (`ok` false, nothing rolled back). */
    method SaveOrder(inst: OrderInstance, current: Option<Request>, hex: string, now: Time) returns (ok: bool)
      requires Valid() && inst.product in products && IsUuidHex(hex)
      requires inst.adding ==> inst.id !in orders
      modifies this, inst
      ensures Valid()
      ensures inst.product == old(inst.product) && inst.quantity == old(inst.quantity)
      ensures inst.status == old(inst.status) && inst.deleteStatus == old(inst.deleteStatus)
      ensures !inst.adding
      ensures inst.code == (if old(inst.code) == "" then OrderCode(hex) else old(inst.code))
      ensures inst.oldStatus == OldStatus(old(orders), inst.id, old(inst.adding))
      ensures inst.statusChangedAt ==
                Stamp(old(inst.adding), inst.oldStatus, inst.status, old(inst.statusChangedAt), now)
      ensures orders == old(orders)[inst.id := inst.Row()]
      ensures history == old(history) + HistoryFor(inst.id, inst.oldStatus, inst.status, Attribute(current), now)
      ensures StockWritten(old(products), products, inst.product,
                old(products)[inst.product].stockQuantity +
                StockDelta(StockRule(inst.id !in old(orders), inst.oldStatus, inst.status), inst.quantity), ok)
    {
      inst.PrepareForSave(orders, hex, now);
      var id, prior, status, product, quantity := inst.id, inst.oldStatus, inst.status, inst.product, inst.quantity;
      var created := id !in orders;
      orders := orders[id := inst.Row()];
      inst.adding := false;
      RecordHistory(id, prior, status, current, now);
      ok := ApplyStockRule(created, prior, status, product, quantity);
    }

    /** `delete` on an order: the flag is set and the order saved, hooks included. The row
        stays stored. Deleting a live stored order leaves history and stock alone; deleting
        one whose stored row is already deleted records a change from no status. */
    method DeleteOrder(inst: OrderInstance, current: Option<Request>, hex: string, now: Time) returns (ok: bool)
      requires Valid() && inst.product in products && IsUuidHex(hex)
      requires inst.adding ==> inst.id !in orders
      modifies this, inst
      ensures Valid()
      ensures inst.deleteStatus == DELETED && inst.status == old(inst.status)
      ensures inst.product == old(inst.product) && inst.quantity == old(inst.quantity)
      ensures !inst.adding
      ensures inst.code == (if old(inst.code) == "" then OrderCode(hex) else old(inst.code))
      ensures inst.oldStatus == OldStatus(old(orders), inst.id, old(inst.adding))
      ensures inst.statusChangedAt ==
                Stamp(old(inst.adding), inst.oldStatus, inst.status, old(inst.statusChangedAt), now)
      ensures inst.id in orders && orders == old(orders)[inst.id := inst.Row()]
      ensures !IsLive(orders[inst.id].deleteStatus)
      ensures history == old(history) + HistoryFor(inst.id, inst.oldStatus, inst.status, Attribute(current), now)
      ensures StockWritten(old(products), products, inst.product,
                old(products)[inst.product].stockQuantity +
                StockDelta(StockRule(inst.id !in old(orders), inst.oldStatus, inst.status), inst.quantity), ok)
      ensures !old(inst.adding) && inst.id in old(orders) && IsLive(old(orders)[inst.id].deleteStatus) &&
              old(orders)[inst.id].status == inst.status ==>
                ok && history == old(history) && products == old(products) &&
                inst.statusChangedAt == old(inst.statusChangedAt)
      ensures !old(inst.adding) && inst.id in old(orders) && !IsLive(old(orders)[inst.id].deleteStatus) ==>
                |history| == |old(history)| + 1 && history[|old(history)|].oldStatus == None
    {
      inst.deleteStatus := DELETED;
      ok := SaveOrder(inst, current, hex, now);
    }

    /** `Order.objects.create`: a new order saved with its hooks. Its row is stamped and
        coded, its creation is recorded with no old status, and its quantity is taken from
        the product whatever the status; a failing stock update leaves the row and the
        history row written. */
    method InsertOrder(id: OrderId, product: ProductId, quantity: int, status: int,
                       current: Option<Request>, hex: string, now: Time)
      returns (ok: bool)
      requires Valid() && id !in orders && product in products && IsUuidHex(hex)
      modifies this
      ensures Valid()
      ensures orders == old(orders)[id := OrderRow(OrderCode(hex), product, quantity, status, Some(now), NOT_DELETED)]
      ensures history == old(history) + HistoryFor(id, None, status, Attribute(current), now)
      ensures StockWritten(old(products), products, product, old(products)[product].stockQuantity - quantity, ok)
    {
      var inst := new OrderInstance(id, product, quantity, status);
      ok := SaveOrder(inst, current, hex, now);
      assert inst.oldStatus == None && StockRule(true, None, status) == Decrease;
    }

    /** The conditional update of `OrderSerializer.create`: through the default manager,
        take `quantity` from the product only if it is live and has at least that much. */
    method TakeIfAvailable(product: ProductId, quantity: int) returns (updated: bool)
      requires Valid()
      modifies this
      ensures Valid() && orders == old(orders) && history == old(history)
      ensures updated <==> product in old(products) && IsLive(old(products)[product].deleteStatus) &&
                           old(products)[product].stockQuantity >= quantity
      ensures !updated ==> products == old(products)
      ensures updated ==> products == WithStock(old(products), product, old(products)[product].stockQuantity - quantity)
    {
      if product in products && IsLive(products[product].deleteStatus) && products[product].stockQuantity >= quantity {
        products := WithStock(products, product, products[product].stockQuantity - quantity);
        return true;
      }
      return false;
    }

    /** The body of `OrderSerializer.create`'s transaction: take the quantity if the
        product has that much, then create the order, whose post-save hook takes the
        quantity again. When the second take breaks the stock constraint, the order row and
        its history row are already written; the caller's transaction undoes them. */
    method TakeThenInsert(id: OrderId, product: ProductId, quantity: int, status: int,
                          current: Option<Request>, hex: string, now: Time)
      returns (outcome: CreateOutcome)
      requires Valid() && id !in orders && IsUuidHex(hex)
      requires product in products && IsLive(products[product].deleteStatus)
      modifies this
      ensures Valid()
      ensures outcome == CreateResult(old(products)[product].stockQuantity, quantity)
      ensures outcome == NotEnoughStock ==>
                products == old(products) && orders == old(orders) && history == old(history)
      ensures outcome == Created ==>
                products == WithStock(old(products), product, old(products)[product].stockQuantity - 2 * quantity) &&
                orders == old(orders)[id := OrderRow(OrderCode(hex), product, quantity, status, Some(now), NOT_DELETED)] &&
                history == old(history) + HistoryFor(id, None, status, Attribute(current), now)
    {
      var updated := TakeIfAvailable(product, quantity);
      if !updated {
        return NotEnoughStock;
      }
      ghost var taken := products;
      var ok := InsertOrder(id, product, quantity, status, current, hex, now);
      if !ok {
        return StockConstraint;
      }
      TakenTwice(old(products), taken, products, product, quantity);
      return Created;
    }

    /** `OrderSerializer.create` on validated data, inside `transaction.atomic()`: a
        failure of either step leaves everything as it was. */
    method CreateValidated(id: OrderId, product: ProductId, quantity: int, status: int,
                           current: Option<Request>, hex: string, now: Time)
      returns (outcome: CreateOutcome)
      requires Valid() && id !in orders && IsUuidHex(hex)
      requires product in products && IsLive(products[product].deleteStatus)
      modifies this
      ensures Valid()
      ensures outcome == CreateResult(old(products)[product].stockQuantity, quantity)
      ensures outcome != Created ==>
                products == old(products) && orders == old(orders) && history == old(history)
      ensures outcome == Created ==>
                products == WithStock(old(products), product, old(products)[product].stockQuantity - 2 * quantity) &&
                orders == old(orders)[id := OrderRow(OrderCode(hex), product, quantity, status, Some(now), NOT_DELETED)] &&
                history == old(history) + HistoryFor(id, None, status, Attribute(current), now)
    {
      // the state the transaction returns to
      var savedProducts, savedOrders, savedHistory := products, orders, history;
      outcome := TakeThenInsert(id, product, quantity, status, current, hex, now);
      if outcome != Created {
        products, orders, history := savedProducts, savedOrders, savedHistory;
      }
    }

    /** An order write through the API: field validation, then `create` on the validated
        data. Invalid input changes nothing. */
    method CreateOrder(id: OrderId, product: ProductId, quantity: int, status: int,
                       current: Option<Request>, hex: string, now: Time)
      returns (outcome: CreateOutcome)
      requires Valid() && id !in orders && IsUuidHex(hex)
      modifies this
      ensures Valid()
      ensures OrderFieldErrors(old(products), product, quantity, status) != {} ==>
                outcome == Invalid(OrderFieldErrors(old(products), product, quantity, status)) &&
                products == old(products) && orders == old(orders) && history == old(history)
      ensures OrderFieldErrors(old(products), product, quantity, status) == {} ==>
                var stock := old(products)[product].stockQuantity;
                (outcome == NotEnoughStock <==> stock < quantity) &&
                (outcome == StockConstraint <==> quantity <= stock < 2 * quantity) &&
                (outcome == Created <==> 2 * quantity <= stock)
      ensures outcome == Created ==>
                product in old(products) &&
                products == WithStock(old(products), product, old(products)[product].stockQuantity - 2 * quantity) &&
                orders == old(orders)[id := OrderRow(OrderCode(hex), product, quantity, status, Some(now), NOT_DELETED)] &&
                history == old(history) + HistoryFor(id, None, status, Attribute(current), now)
    {
      var errors := OrderFieldErrors(products, product, quantity, status);
      if errors != {} {
        return Invalid(errors);
      }
      outcome := CreateValidated(id, product, quantity, status, current, hex, now);
      CreateNeedsTwice(old(products)[product].stockQuantity, quantity);
    }
  }

  /** Taking `quantity` from one product twice takes twice as much. */
  lemma TakenTwice(before: map<ProductId, Product>, taken: map<ProductId, Product>, after: map<ProductId, Product>,
                   id: ProductId, quantity: int)
    requires id in before && taken == WithStock(before, id, before[id].stockQuantity - quantity)
    requires after == WithStock(taken, id, taken[id].stockQuantity - quantity)
    ensures after == WithStock(before, id, before[id].stockQuantity - 2 * quantity)
  {
    assert after == before[id := before[id].(stockQuantity := before[id].stockQuantity - 2 * quantity)];
  }
}
