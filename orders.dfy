/** Orders and their status history: the status constants, the order code, and the rules
    the save hooks apply (prior status, timestamp, history row, stock adjustment). */
module Orders {
  import opened Common
  import opened SoftDelete
  import opened RequestContext
  import Products

  type OrderId = nat
  /** A clock reading (`timezone.now()`). */
  type Time = int

  const PENDING: int := 0
  const CONFIRMED: int := 10
  const PROCESSING: int := 20
  const SHIPPED: int := 30
  const DELIVERED: int := 40
  const CANCELLED: int := 50

  predicate IsStatusChoice(status: int) {
    status == PENDING || status == CONFIRMED || status == PROCESSING ||
    status == SHIPPED || status == DELIVERED || status == CANCELLED
  }

  /** A stored order row. */
  datatype OrderRow = OrderRow(
    code: string, product: Products.ProductId, quantity: int, status: int,
    statusChangedAt: Option<Time>, deleteStatus: int)

  datatype ChangeSource = Api | Admin | System

  /** An `order_status_history` row. */
  datatype HistoryEntry = HistoryEntry(
    order: OrderId, oldStatus: Option<int>, newStatus: int, changedBy: Option<string>,
    source: ChangeSource, ipAddress: Option<string>, createdAt: Time)

  // ---------------------------------------------------------------------------------
  // Order code

  predicate IsLowerHex(c: char) {
    '0' <= c <= '9' || 'a' <= c <= 'f'
  }

  predicate IsUpperHex(c: char) {
    '0' <= c <= '9' || 'A' <= c <= 'F'
  }

  /** What `uuid4().hex` yields: 32 lower-case hexadecimal digits. */
  predicate IsUuidHex(hex: string) {
    |hex| == 32 && forall i :: 0 <= i < |hex| ==> IsLowerHex(hex[i])
  }

  /** `str.upper()` on one hexadecimal digit. */
  function UpperHex(c: char): (u: char)
    requires IsLowerHex(c)
    ensures IsUpperHex(u)
    ensures '0' <= c <= '9' ==> u == c
  {
    if 'a' <= c <= 'f' then (c as int - 32) as char else c
  }

  /** The generated `order_code`: "ORD-" and the first ten digits, upper-cased. */
  function OrderCode(hex: string): (code: string)
    requires IsUuidHex(hex)
    ensures |code| == 14 && code[..4] == "ORD-"
    ensures forall i :: 4 <= i < 14 ==> IsUpperHex(code[i])
  {
    "ORD-" + seq(10, i requires 0 <= i < 10 => UpperHex(hex[i]))
  }

  /** Two codes agree exactly when the digits they were made from agree. */
  lemma OrderCodeInjective(h1: string, h2: string)
    requires IsUuidHex(h1) && IsUuidHex(h2)
    ensures OrderCode(h1) == OrderCode(h2) <==> h1[..10] == h2[..10]
  {
    if OrderCode(h1) == OrderCode(h2) {
      forall i | 0 <= i < 10 ensures h1[i] == h2[i] {
        assert OrderCode(h1)[4 + i] == OrderCode(h2)[4 + i];
      }
    }
  }

  // ---------------------------------------------------------------------------------
  // The pre-save hooks

  /** `track_order_status_change`: None for a new order; otherwise the status stored
      before this save, as the default manager sees it (a deleted row is not found). */
  function OldStatus(stored: map<OrderId, OrderRow>, id: OrderId, adding: bool): (prior: Option<int>)
    ensures adding ==> prior.None?
    ensures !adding && id in stored && IsLive(stored[id].deleteStatus) ==> prior == Some(stored[id].status)
    ensures (id !in stored || !IsLive(stored[id].deleteStatus)) ==> prior.None?
  {
    if adding then None
    else if id in stored && IsLive(stored[id].deleteStatus) then Some(stored[id].status)
    else None
  }

  /** `update_status_timestamp`: stamped on creation and whenever the status moves. */
  function Stamp(adding: bool, prior: Option<int>, status: int, previous: Option<Time>, now: Time): (t: Option<Time>)
    ensures t == Some(now) || t == previous
    ensures prior == Some(status) && !adding ==> t == previous
    ensures adding || prior != Some(status) ==> t == Some(now)
  {
    if adding || prior != Some(status) then Some(now) else previous
  }

  // ---------------------------------------------------------------------------------
  // The post-save hooks

  /** Who made a change, as `create_order_status_history` records it. */
  datatype Attribution = Attribution(changedBy: Option<string>, source: ChangeSource, ipAddress: Option<string>)

  /** The `ip_address` column stores an empty address as NULL. */
  function StoredIp(ip: Option<string>): Option<string> {
    if ip == Some("") then None else ip
  }

  /** `create_order_status_history`'s attribution of a change to the current request. */
  function Attribute(current: Option<Request>): Attribution {
    match current
    case None => Attribution(None, System, None)
    case Some(request) =>
      Attribution(
        if request.user.authenticated then Some(request.user.username) else None,
        if request.appName == Some("admin") then Admin else Api,
        StoredIp(ClientIp(request)))
  }

  /** How a change is attributed: no request means the system, with no actor and no
      address; a request means admin exactly when its URL resolved into the `admin`
      application, api otherwise; the user only when authenticated; the client address,
      an empty one stored as None. */
  lemma AttributeCases(current: Option<Request>)
    ensures current.None? ==> Attribute(current) == Attribution(None, System, None)
    ensures current.Some? ==> Attribute(current).source != System
    ensures current.Some? ==> (Attribute(current).source == Admin <==> current.value.appName == Some("admin"))
    ensures current.Some? ==> (Attribute(current).changedBy.Some? <==> current.value.user.authenticated)
    ensures current.Some? && Attribute(current).changedBy.Some? ==> Attribute(current).changedBy.value == current.value.user.username
    ensures current.Some? ==> Attribute(current).ipAddress == StoredIp(ClientIp(current.value))
  {
  }

  /** The rows `create_order_status_history` appends for one save, attributed to `who`:
      none when the status did not change, else one with the prior and new status. */
  function HistoryFor(id: OrderId, prior: Option<int>, status: int, who: Attribution, now: Time): (h: seq<HistoryEntry>)
    ensures |h| <= 1 && (|h| == 1 <==> prior != Some(status))
    ensures |h| == 1 ==> (h[0].order == id && h[0].oldStatus == prior && h[0].newStatus == status &&
                          Attribution(h[0].changedBy, h[0].source, h[0].ipAddress) == who &&
                          h[0].createdAt == now)
  {
    if prior == Some(status) then []
    else [HistoryEntry(id, prior, status, who.changedBy, who.source, who.ipAddress, now)]
  }

  datatype StockEffect = Decrease | Increase | NoChange

  /** `update_stock_on_order`: nothing when the status did not change; otherwise take the
      quantity on creation or on a move into Pending from elsewhere, else give it back on a
      move into Cancelled from elsewhere. At most one adjustment per save. */
  function StockRule(created: bool, prior: Option<int>, status: int): StockEffect {
    if prior == Some(status) then NoChange
    else if created || (prior != Some(PENDING) && status == PENDING) then Decrease
    else if status == CANCELLED && prior != Some(CANCELLED) then Increase
    else NoChange
  }

  function StockDelta(effect: StockEffect, quantity: int): int {
    match effect
    case Decrease => -quantity
    case Increase => quantity
    case NoChange => 0
  }

  /** What the rule does, case by case. */
  lemma StockRuleCases(created: bool, prior: Option<int>, status: int)
    ensures prior == Some(status) ==> StockRule(created, prior, status) == NoChange
    ensures created && prior.None? ==> StockRule(created, prior, status) == Decrease
    ensures !created && prior != Some(PENDING) && status == PENDING ==>
              StockRule(created, prior, status) == Decrease
    ensures !created && prior != Some(CANCELLED) && status == CANCELLED ==>
              StockRule(created, prior, status) == Increase
    ensures !created && status != PENDING && status != CANCELLED ==>
              StockRule(created, prior, status) == NoChange
  {
  }

  // ---------------------------------------------------------------------------------
  // One order's life

  /** The stock change of the saves after creation, starting from status `prev` and moving
      through `later` (the stored row live throughout). */
  function MovesChange(quantity: int, prev: int, later: seq<int>): int
    decreases |later|
  {
    if later == [] then 0
    else StockDelta(StockRule(false, Some(prev), later[0]), quantity) + MovesChange(quantity, later[0], later[1..])
  }

  /** The net stock change of an order created with status `first`, then saved with each
      status of `later` in turn. */
  function NetStockChange(quantity: int, first: int, later: seq<int>): int {
    StockDelta(StockRule(true, None, first), quantity) + MovesChange(quantity, first, later)
  }

  function LastStatus(prev: int, later: seq<int>): int {
    if later == [] then prev else later[|later| - 1]
  }

  /** A life that never moves back into Pending and never leaves Cancelled. */
  predicate Forward(prev: int, later: seq<int>)
    decreases |later|
  {
    later == [] ||
    ((later[0] == PENDING ==> prev == PENDING) && (prev == CANCELLED ==> later[0] == CANCELLED) &&
     Forward(later[0], later[1..]))
  }

  /** Once Cancelled, a forward life ends Cancelled. */
  lemma {:induction false} CancelledStays(later: seq<int>)
    requires Forward(CANCELLED, later)
    ensures LastStatus(CANCELLED, later) == CANCELLED
    decreases |later|
  {
    if later != [] {
      CancelledStays(later[1..]);
      assert LastStatus(later[0], later[1..]) == LastStatus(CANCELLED, later);
    }
  }

  lemma {:induction false} MovesBalance(quantity: int, prev: int, later: seq<int>)
    requires Forward(prev, later)
    ensures MovesChange(quantity, prev, later) ==
              (if prev != CANCELLED && LastStatus(prev, later) == CANCELLED then quantity else 0)
    decreases |later|
  {
    if later != [] {
      MovesBalance(quantity, later[0], later[1..]);
      assert LastStatus(later[0], later[1..]) == LastStatus(prev, later);
      if later[0] == CANCELLED {
        CancelledStays(later[1..]);
      }
    }
  }

  /** Stock balances over a forward life that does not start Cancelled: the quantity is
      taken once and given back exactly when the order ends Cancelled. */
  lemma StockBalance(quantity: int, first: int, later: seq<int>)
    requires first != CANCELLED && Forward(first, later)
    ensures NetStockChange(quantity, first, later) ==
              (if LastStatus(first, later) == CANCELLED then 0 else -quantity)
  {
    MovesBalance(quantity, first, later);
  }

  /** An order created as Cancelled takes the quantity and, as long as it stays Cancelled,
      never gives it back. Moving it out of Cancelled and back gives the quantity back. */
  lemma CancelledAtCreationKeepsStock(quantity: int, later: seq<int>)
    requires Forward(CANCELLED, later)
    ensures NetStockChange(quantity, CANCELLED, later) == -quantity
    ensures NetStockChange(quantity, CANCELLED, [CONFIRMED, CANCELLED]) == 0
  {
    MovesBalance(quantity, CANCELLED, later);
    assert [CONFIRMED, CANCELLED][1..] == [CANCELLED];
    assert MovesChange(quantity, CONFIRMED, [CANCELLED]) == quantity;
    assert MovesChange(quantity, CANCELLED, [CONFIRMED, CANCELLED]) == quantity;
  }

  /** Moving back into Pending takes the quantity a second time. */
  lemma ReturnToPendingTakesAgain(quantity: int)
    ensures NetStockChange(quantity, PENDING, [CONFIRMED, PENDING]) == -2 * quantity
    ensures NetStockChange(quantity, PENDING, [CONFIRMED, PENDING, CANCELLED]) == -quantity
  {
    assert [CONFIRMED, PENDING][1..] == [PENDING];
    assert [CONFIRMED, PENDING, CANCELLED][1..] == [PENDING, CANCELLED];
    assert [PENDING, CANCELLED][1..] == [CANCELLED];
    assert MovesChange(quantity, PENDING, [CANCELLED]) == quantity + MovesChange(quantity, CANCELLED, []);
    assert MovesChange(quantity, CONFIRMED, [PENDING]) == -quantity + MovesChange(quantity, PENDING, []);
    assert MovesChange(quantity, CONFIRMED, [PENDING, CANCELLED]) == -quantity + quantity;
    assert MovesChange(quantity, PENDING, [CONFIRMED, PENDING]) == -quantity;
    assert MovesChange(quantity, PENDING, [CONFIRMED, PENDING, CANCELLED]) == 0;
  }

  // ---------------------------------------------------------------------------------
  // Timeline

  function Reversed<T>(s: seq<T>): (r: seq<T>)
    ensures |r| == |s| && forall i :: 0 <= i < |s| ==> r[i] == s[|s| - 1 - i]
  {
    if s == [] then [] else [s[|s| - 1]] + Reversed(s[..|s| - 1])
  }

  /** An order's history, newest first (rows are appended in time order). */
  function Timeline(history: seq<HistoryEntry>, id: OrderId): seq<HistoryEntry> {
    Reversed(Select(history, ForOrder(id)))
  }

  /** The rows of one order (`order.status_history`). */
  function ForOrder(id: OrderId): HistoryEntry -> bool {
    (e: HistoryEntry) => e.order == id
  }

  /** Creating an order and then confirming it leaves two rows for it, newest first: the
      confirmation (from Pending), then the creation (from no status). */
  lemma CreateThenConfirm(history: seq<HistoryEntry>, id: OrderId, c1: Attribution, c2: Attribution, t1: Time, t2: Time)
    requires forall e :: e in history ==> e.order != id
    ensures var created, confirmed := HistoryFor(id, None, PENDING, c1, t1), HistoryFor(id, Some(PENDING), CONFIRMED, c2, t2);
      |created| == |confirmed| == 1 && Timeline(history + created + confirmed, id) == confirmed + created
  {
    var keep := ForOrder(id);
    var c := HistoryFor(id, None, PENDING, c1, t1)[0];
    var d := HistoryFor(id, Some(PENDING), CONFIRMED, c2, t2)[0];
    assert HistoryFor(id, None, PENDING, c1, t1) == [c];
    assert HistoryFor(id, Some(PENDING), CONFIRMED, c2, t2) == [d];
    assert keep(c) && keep(d);
    SelectTwoNew(history, c, d, keep);
    assert Reversed([c, d]) == [d, c];
  }

  /** Filtering a sequence none of whose rows pass, then two that do. */
  lemma SelectTwoNew(s: seq<HistoryEntry>, c: HistoryEntry, d: HistoryEntry, keep: HistoryEntry -> bool)
    requires forall e :: e in s ==> !keep(e)
    requires keep(c) && keep(d)
    ensures Select(s + [c] + [d], keep) == [c, d]
  {
    NoneSelected(s, keep);
    SelectSnoc(s, c, keep);
    SelectSnoc(s + [c], d, keep);
  }

  lemma {:induction false} NoneSelected(s: seq<HistoryEntry>, keep: HistoryEntry -> bool)
    requires forall e :: e in s ==> !keep(e)
    ensures Select(s, keep) == []
  {
    if s != [] {
      NoneSelected(s[..|s| - 1], keep);
    }
  }
}
