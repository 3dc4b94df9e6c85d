/**
 * The order service (Service/OrderService.cs): the order total, the status
 * guards of confirmation and payment, and the operations that read an order
 * from the store, change it and hand it back.
 */
module Service {
  import opened Models
  import opened Repository

  // ---------------------------------------------------------------------------
  // Rounding
  // ---------------------------------------------------------------------------

  function Abs(x: int): nat {
    if x < 0 then -x else x
  }

  /**
   * `n / d` rounded to the nearest integer, a tie going to the even
   * neighbour: the default midpoint rule of Math.Round on a decimal.
   */
  function RoundHalfEven(n: int, d: int): (r: int)
    requires d > 0
    ensures 2 * Abs(n - r * d) <= d
    ensures 2 * Abs(n - r * d) == d ==> r % 2 == 0
  {
    var q, m := n / d, n % d;
    assert n - q * d == m;
    assert n - (q + 1) * d == m - d;
    if 2 * m < d then q
    else if 2 * m > d then q + 1
    else if q % 2 == 0 then q
    else q + 1
  }

  /** Multiplying by a positive unit keeps integers at least one unit apart. */
  lemma MulGap(a: int, b: int, d: int)
    requires a < b && d > 0
    ensures a * d + d <= b * d
    ensures b >= a + 2 ==> a * d + 2 * d <= b * d
  {
    var k := b - a;
    assert b * d == a * d + k * d;
    assert (k - 1) * d >= 0;
    assert k * d == (k - 1) * d + d;
    if k >= 2 {
      assert (k - 2) * d >= 0;
      assert k * d == (k - 2) * d + 2 * d;
    }
  }

  /** The two properties of RoundHalfEven's contract determine its result. */
  lemma RoundUnique(n: int, d: int, r: int)
    requires d > 0
    requires 2 * Abs(n - r * d) <= d
    requires 2 * Abs(n - r * d) == d ==> r % 2 == 0
    ensures r == RoundHalfEven(n, d)
  {
    var s := RoundHalfEven(n, d);
    if r < s {
      MulGap(r, s, d);
    } else if s < r {
      MulGap(s, r, d);
    }
  }

  /** Shifting the numerator by an even number of whole units shifts the rounded value by that number. */
  lemma RoundShift(n: int, d: int, k: int)
    requires d > 0 && k % 2 == 0
    ensures RoundHalfEven(n + k * d, d) == RoundHalfEven(n, d) + k
  {
    var r := RoundHalfEven(n, d);
    assert (r + k) * d == r * d + k * d;
    assert r % 2 == 0 ==> (r + k) % 2 == 0 by {
      if r % 2 == 0 {
        assert r + k == 2 * (r / 2 + k / 2);
      }
    }
    RoundUnique(n + k * d, d, r + k);
  }

  /** A whole multiple of the unit rounds to itself. */
  lemma RoundExact(k: int, d: int)
    requires d > 0
    ensures RoundHalfEven(k * d, d) == k
  {
    assert k * d - k * d == 0;
    RoundUnique(k * d, d, k);
  }

  // ---------------------------------------------------------------------------
  // Totals
  // ---------------------------------------------------------------------------

  /**
   * Exact line amounts are counted in ten-thousandths of a cent: a price has
   * two decimal places and (1 - percent / 100) four, so their product is
   * exact at this scale.
   */
  const SCALE: int := 10000

  /** The discount percent a line uses; an absent one counts as zero. */
  function DiscountOf(item: OrderItem): Hundredths {
    match item.productDiscountPercent
    case None => 0
    case Some(p) => p
  }

  /** The exact amount of a line, quantity × price × (1 − percent / 100), in ten-thousandths of a cent. */
  function LineAmount(item: OrderItem): int {
    item.quantity * item.productPrice * (SCALE - DiscountOf(item))
  }

  /** The exact sum of the line amounts, accumulated in list order. */
  function ExactSum(items: seq<OrderItem>): int {
    if items == [] then 0 else ExactSum(items[..|items| - 1]) + LineAmount(items[|items| - 1])
  }

  /** The order total in cents: the exact sum rounded half-to-even to two decimal places. */
  function TotalOf(items: seq<OrderItem>): (r: Money)
    ensures 2 * Abs(ExactSum(items) - r * SCALE) <= SCALE
  {
    RoundHalfEven(ExactSum(items), SCALE)
  }

  lemma {:induction false} ExactSumConcat(s: seq<OrderItem>, t: seq<OrderItem>)
    ensures ExactSum(s + t) == ExactSum(s) + ExactSum(t)
    decreases |t|
  {
    if t == [] {
      assert s + t == s;
    } else {
      var init := t[..|t| - 1];
      assert (s + t)[..|s + t| - 1] == s + init;
      ExactSumConcat(s, init);
    }
  }

  /** Two lists whose lines agree on quantity, price and discount, position by position. */
  predicate SamePricing(s: seq<OrderItem>, t: seq<OrderItem>) {
    |s| == |t| &&
    forall i :: 0 <= i < |s| ==>
      && s[i].quantity == t[i].quantity
      && s[i].productPrice == t[i].productPrice
      && s[i].productDiscountPercent == t[i].productDiscountPercent
  }

  /** The total depends only on the pricing of the lines, not on ids, owners or names. */
  lemma {:induction false} TotalSamePricing(s: seq<OrderItem>, t: seq<OrderItem>)
    requires SamePricing(s, t)
    ensures ExactSum(s) == ExactSum(t) && TotalOf(s) == TotalOf(t)
    decreases |s|
  {
    if s != [] {
      var k := |s| - 1;
      assert SamePricing(s[..k], t[..k]);
      TotalSamePricing(s[..k], t[..k]);
      assert LineAmount(s[k]) == LineAmount(t[k]);
    }
  }

  /** Stamping an owner and assigning row ids leave the pricing of every line as it was. */
  lemma CommitKeepsPricing(s: seq<OrderItem>, orderId: int, next: int)
    ensures SamePricing(AssignIds(Stamped(s, orderId), next), s)
    ensures TotalOf(AssignIds(Stamped(s, orderId), next)) == TotalOf(s)
  {
    var r := AssignIds(Stamped(s, orderId), next);
    forall i | 0 <= i < |s|
      ensures r[i].quantity == s[i].quantity && r[i].productPrice == s[i].productPrice
      ensures r[i].productDiscountPercent == s[i].productDiscountPercent
    {
    }
    TotalSamePricing(r, s);
  }

  /** A list with no lines totals zero; an absent discount prices a line like a zero discount. */
  lemma TotalBasics(item: OrderItem)
    ensures TotalOf([]) == 0
    ensures LineAmount(item.(productDiscountPercent := None)) == LineAmount(item.(productDiscountPercent := Some(0)))
  {
    RoundExact(0, SCALE);
  }

  /** When the exact sum is a whole number of cents, the total is that sum, with no rounding. */
  lemma TotalWholeCents(items: seq<OrderItem>)
    requires ExactSum(items) % SCALE == 0
    ensures TotalOf(items) * SCALE == ExactSum(items)
  {
    var k := ExactSum(items) / SCALE;
    assert ExactSum(items) == k * SCALE;
    RoundExact(k, SCALE);
  }

  /** Two lines at 450.00 with 0% and one at 300.00 with 10% total 1170.00. */
  lemma TotalMultipleItems()
    ensures TotalOf([OrderItem(0, 0, 1, "A", 45000, Some(0), 2), OrderItem(0, 0, 2, "B", 30000, Some(1000), 1)]) == 117000
  {
    var s := [OrderItem(0, 0, 1, "A", 45000, Some(0), 2), OrderItem(0, 0, 2, "B", 30000, Some(1000), 1)];
    assert s[..1][..0] == [];
    assert ExactSum(s) == 117000 * SCALE;
    RoundExact(117000, SCALE);
  }

  /** Two lines at 100.00 with 10% total 180.00. */
  lemma TotalDiscountedLine()
    ensures TotalOf([OrderItem(0, 0, 1, "A", 10000, Some(1000), 2)]) == 18000
  {
    var t := [OrderItem(0, 0, 1, "A", 10000, Some(1000), 2)];
    assert t[..0] == [];
    assert ExactSum(t) == 18000 * SCALE;
    RoundExact(18000, SCALE);
  }

  // ---------------------------------------------------------------------------
  // Fixed stand-ins for the catalog and member services
  // ---------------------------------------------------------------------------

  /** The message of the repository's rejected update, as `AddOrderItem`'s catch-all re-wraps it. */
  const WRAPPED_UPDATE_CONSTRAINT: string := "Service error: Update failed due to database constraint"

  /** The price every added line gets: 300.00. */
  const STUB_PRICE: Money := 30000

  /** The member balance every payment reports: 250.00. */
  const STUB_BALANCE: Money := 25000

  function DigitChar(d: int): char
    requires 0 <= d < 10
  {
    "0123456789"[d]
  }

  function NatToString(n: nat): string
    decreases n
  {
    if n < 10 then [DigitChar(n)] else NatToString(n / 10) + [DigitChar(n % 10)]
  }

  /** The decimal text of an integer, as string interpolation writes it. */
  function IntToString(n: int): string {
    if n < 0 then "-" + NatToString(-n) else NatToString(n)
  }

  /** The line AddOrderItem builds: not yet persisted, named "Product <id>", at 300.00 with a 0% discount. */
  function StubItem(orderId: int, productId: int, quantity: int): OrderItem {
    OrderItem(0, orderId, productId, "Product " + IntToString(productId), STUB_PRICE, Some(0), quantity)
  }

  /** Adding a stub line raises the total by exactly quantity × 300.00. */
  lemma StubTotal(items: seq<OrderItem>, orderId: int, productId: int, quantity: int)
    ensures TotalOf(items + [StubItem(orderId, productId, quantity)]) == TotalOf(items) + quantity * STUB_PRICE
  {
    var k := StubLine(orderId, productId, quantity);
    var n := ExactSum(items);
    assert ExactSum(items + [StubItem(orderId, productId, quantity)]) == n + k * SCALE;
    RoundShift(n, SCALE, k);
  }

  /** The stub line's exact amount is an even number of whole cents, quantity × 300.00. */
  lemma StubLine(orderId: int, productId: int, quantity: int) returns (k: int)
    ensures k == quantity * STUB_PRICE && k % 2 == 0
    ensures LineAmount(StubItem(orderId, productId, quantity)) == k * SCALE
  {
    var h := quantity * 15000;
    k := 2 * h;
    assert k == quantity * STUB_PRICE;
    var item := StubItem(orderId, productId, quantity);
    assert item.quantity == quantity && item.productPrice == STUB_PRICE && DiscountOf(item) == 0;
  }

  // ---------------------------------------------------------------------------
  // The status lifecycle
  // ---------------------------------------------------------------------------

  /** Position in the lifecycle IN_ORDER, CONFIRMED, PAID; any other status ranks below all three. */
  function Rank(status: string): int {
    if status == IN_ORDER then 0
    else if status == CONFIRMED then 1
    else if status == PAID then 2
    else -1
  }

  /**
   * Confirmation of an order read from the store: refused for an order that
   * is already confirmed or paid; otherwise the status becomes CONFIRMED and
   * the confirmation flag and time are set, nothing else changing.
   */
  function Confirm(o: Order, now: Timestamp): (r: Result<Order>)
    ensures r.Failure? <==> o.status == CONFIRMED || o.status == PAID
    ensures r.Failure? ==> r.error == InvalidState("Order is already confirmed or paid")
    ensures r.Success? ==>
      && r.value.status == CONFIRMED && r.value.confirmed == Some(true) && r.value.confirmedAt == Some(now)
      && r.value.(status := o.status, confirmed := o.confirmed, confirmedAt := o.confirmedAt) == o
      && Rank(o.status) < Rank(r.value.status)
  {
    if o.status == CONFIRMED || o.status == PAID then
      Failure(InvalidState("Order is already confirmed or paid"))
    else
      Success(o.(status := CONFIRMED, confirmed := Some(true), confirmedAt := Some(now)))
  }

  /**
   * Payment of an order read from the store: refused unless it is CONFIRMED,
   * with a message that tells a paid order from an unconfirmed one; otherwise
   * the status becomes PAID, the whole total is recorded as points used, and
   * the payment method, member card, balance, flag and time are set.
   */
  function Pay(o: Order, paymentMethod: string, memberCardNo: Option<string>, now: Timestamp): (r: Result<Order>)
    ensures r.Failure? <==> o.status != CONFIRMED
    ensures o.status == PAID ==> r == Failure(InvalidState("Order is already paid"))
    ensures o.status != PAID && o.status != CONFIRMED ==> r == Failure(InvalidState("Order must be confirmed before payment"))
    ensures r.Success? ==>
      && r.value.status == PAID && r.value.paid == Some(true) && r.value.paidAt == Some(now)
      && r.value.paymentMethod == Some(paymentMethod) && r.value.memberCardNo == memberCardNo
      && r.value.pointsUsed == Some(o.total) && r.value.memberNewBalance == Some(STUB_BALANCE)
      && r.value.(status := o.status, paymentMethod := o.paymentMethod, pointsUsed := o.pointsUsed,
                  memberNewBalance := o.memberNewBalance, paidAt := o.paidAt, paid := o.paid,
                  memberCardNo := o.memberCardNo) == o
      && Rank(o.status) < Rank(r.value.status)
  {
    if o.status == PAID then
      Failure(InvalidState("Order is already paid"))
    else if o.status != CONFIRMED then
      Failure(InvalidState("Order must be confirmed before payment"))
    else
      Success(o.(status := PAID, paymentMethod := Some(paymentMethod), pointsUsed := Some(o.total),
                 memberNewBalance := Some(STUB_BALANCE), paidAt := Some(now), paid := Some(true),
                 memberCardNo := memberCardNo))
  }

  /**
   * The guarded lifecycle: a new order can be confirmed and then paid; a
   * paid order can be neither confirmed nor paid again, and a second
   * confirmation is refused.
   */
  lemma Lifecycle(o: Order, t1: Timestamp, t2: Timestamp, pm: string, card: Option<string>)
    requires o.status == IN_ORDER
    ensures Confirm(o, t1).Success? && Pay(Confirm(o, t1).value, pm, card, t2).Success?
    ensures var paid := Pay(Confirm(o, t1).value, pm, card, t2).value;
      && paid.status == PAID && paid.pointsUsed == Some(o.total)
      && Confirm(paid, t2).Failure? && Pay(paid, pm, card, t2).Failure?
    ensures Confirm(Confirm(o, t1).value, t2).Failure?
  {
  }

  /** No pair of guarded transitions leaves the lifecycle rank where it was or lowers it. */
  lemma GuardedStepsAdvance(o: Order, now: Timestamp, pm: string, card: Option<string>)
    ensures Confirm(o, now).Success? ==> Rank(Confirm(o, now).value.status) > Rank(o.status)
    ensures Pay(o, pm, card, now).Success? ==> Rank(Pay(o, pm, card, now).value.status) == 2
  {
  }

  // ---------------------------------------------------------------------------
  // Re-saving an order read from the store
  // ---------------------------------------------------------------------------

  /** Handing a stored order back with its own item list and changed header fields changes only the header. */
  lemma ResaveOutcome(id: int, o: Order, before: map<int, Order>, nextOrderId: int, next: int,
                      r: Result<Order>, after: map<int, Order>, next': int)
    requires StoreValid(before, nextOrderId, next) && id in before
    requires o.orderId == id && o.items == before[id].items
    requires Saved(id, o.(items := Reconciled(o.items, id, o.items)), before, next, r, after, next')
    ensures r == Success(o) && after == before[id := o] && next' == next
  {
    var e := o.items;
    StoredCommittable(before, nextOrderId, next, id);
    ReconcileExtension(e, id, []);
    assert e + [] == e && Stamped([], id) == [];
    assert Reconciled(e, id, e) == e;
    AssignIdsNoZero(e, next);
    assert o.(items := e) == o;
  }

  /**
   * Handing a stored order back with one unsaved line appended stores that
   * line under the next item id when no stored row holds that id, and is
   * rejected, changing nothing, when one does.
   */
  lemma AppendOutcome(id: int, o: Order, item: OrderItem, before: map<int, Order>, nextOrderId: int, next: int,
                      r: Result<Order>, after: map<int, Order>, next': int)
    requires StoreValid(before, nextOrderId, next) && id in before
    requires o.orderId == id && o.items == before[id].items && item.orderItemId == 0 && item.orderId == id
    requires var o' := o.(items := o.items + [item]);
      Saved(id, o'.(items := Reconciled(o.items, id, o'.items)), before, next, r, after, next')
    ensures var row := item.(orderItemId := next);
      if Unused(before, next) then
        && r == Success(o.(items := o.items + [row]))
        && after == before[id := r.value] && next' == next + 1
      else
        r == Failure(Constraint) && after == before && next' == next
  {
    var e, row := o.items, item.(orderItemId := next);
    ReconcileExtension(e, id, [item]);
    assert Stamped([item], id) == [item];
    AssignIdsAppend(e, item, next);
    assert AssignIds(Reconciled(e, id, e + [item]), next) == e + [row];
    if Unused(before, next) {
      StoredCommittable(before, nextOrderId, next, id);
      CommittableAppend(e, row, before, id);
    } else {
      HeldIdRejected(e, row, before, id);
    }
  }

  /** A row whose id some stored row holds cannot be committed after the order's own rows. */
  lemma HeldIdRejected(e: seq<OrderItem>, row: OrderItem, before: map<int, Order>, id: int)
    requires id in before && e == before[id].items && !Unused(before, row.orderItemId)
    ensures !Committable(e + [row], before, id)
  {
    var s := e + [row];
    var k :| k in before && row.orderItemId in Ids(before[k].items);
    assert s[|e|] == row && row.orderItemId in Ids(s);
    if k == id {
      var x :| x in e && x.orderItemId == row.orderItemId;
      var i :| 0 <= i < |e| && e[i] == x;
      assert s[i] == x;
    }
  }

  /** A row whose id no stored row holds can be committed after rows that are committable. */
  lemma CommittableAppend(e: seq<OrderItem>, row: OrderItem, before: map<int, Order>, id: int)
    requires Committable(e, before, id) && 0 < row.orderItemId && Unused(before, row.orderItemId)
    requires id in before && e == before[id].items
    ensures Committable(e + [row], before, id)
  {
    var s := e + [row];
    forall i, j | 0 <= i < j < |s| ensures s[i].orderItemId != s[j].orderItemId {
      if j == |e| {
        assert e[i] in e;
      }
    }
    forall k | k in before && k != id ensures Ids(s) !! Ids(before[k].items) {
      assert Ids(s) == Ids(e) + {row.orderItemId};
    }
  }

  /** In a store whose rows all came from the sequence the next value is unused, and storing one more row under it keeps that so. */
  lemma IssuedAppend(before: map<int, Order>, next: int, id: int, o: Order, row: OrderItem)
    requires IdsIssued(before, next) && id in before
    requires o.items == before[id].items + [row] && row.orderItemId == next
    ensures Unused(before, next)
    ensures IdsIssued(before[id := o], next + 1)
  {
    forall k | k in before ensures next !in Ids(before[k].items) {
      assert forall x :: x in before[k].items ==> x.orderItemId < next;
    }
    var after := before[id := o];
    forall k, x | k in after && x in after[k].items ensures x.orderItemId < next + 1 {
      if k == id && x != row {
        assert x in before[id].items;
      }
    }
  }

  // ---------------------------------------------------------------------------
  // The service
  // ---------------------------------------------------------------------------

  class OrderService {
    const repository: OrderRepository

    constructor (repository: OrderRepository)
      ensures this.repository == repository
    {
      this.repository := repository;
    }

    /** The rounded total of a list of lines; a missing list is refused. */
    method CalculateTotal(items: Option<seq<OrderItem>>) returns (r: Result<Money>)
      ensures items.None? ==> r == Failure(ArgumentNull("items"))
      ensures items.Some? ==> r == Success(TotalOf(items.value))
    {
      if items.None? {
        return Failure(ArgumentNull("items"));
      }
      var list := items.value;
      var total := 0;
      var i := 0;
      while i < |list|
        invariant 0 <= i <= |list|
        invariant total == ExactSum(list[..i])
      {
        var item := list[i];
        var discountPercent := match item.productDiscountPercent case Some(p) => p case None => 0;
        var itemTotal := item.quantity * item.productPrice * (SCALE - discountPercent);
        assert list[..i + 1][..i] == list[..i];
        total := total + itemTotal;
        i := i + 1;
      }
      assert list[..i] == list;
      r := Success(RoundHalfEven(total, SCALE));
    }

    /** Stores a new order with status IN_ORDER and its total computed from its lines. */
    method CreateOrder(order: Order) returns (r: Result<Order>)
      requires repository.Valid()
      modifies repository
      ensures repository.Valid()
      ensures repository.nextOrderId == old(repository.nextOrderId) + 1
      ensures var id := old(repository.nextOrderId);
        var o := order.(orderId := id, status := IN_ORDER, total := TotalOf(order.items), items := Stamped(order.items, id));
        Saved(id, o, old(repository.orders), old(repository.nextItemId), r, repository.orders, repository.nextItemId)
      ensures r.Success? ==> r.value.status == IN_ORDER && r.value.total == TotalOf(r.value.items)
      ensures (forall x :: x in order.items ==> x.orderItemId == 0) && IdsIssued(old(repository.orders), old(repository.nextItemId)) ==>
        r.Success? && IdsIssued(repository.orders, repository.nextItemId)
    {
      var total := CalculateTotal(Some(order.items));
      var o := order.(status := IN_ORDER, total := total.value);
      ghost var id, next := repository.nextOrderId, repository.nextItemId;
      r := repository.CreateOrder(o);
      CommitKeepsPricing(order.items, id, next);
    }

    /** The stored order with the given id, or NotFound. */
    method GetOrderById(orderId: int) returns (r: Result<Order>)
      ensures orderId in repository.orders ==> r == Success(repository.orders[orderId])
      ensures orderId !in repository.orders ==> r == Failure(NotFound)
    {
      r := repository.GetOrderById(orderId);
    }

    /** Every stored order with the given status, in id order. */
    method GetOrdersByStatus(status: string) returns (r: seq<Order>)
      requires repository.Valid()
      ensures forall o :: o in r <==> o.orderId in repository.orders && repository.orders[o.orderId] == o && o.status == status
      ensures forall i, j :: 0 <= i < j < |r| ==> r[i].orderId < r[j].orderId
    {
      r := repository.GetOrdersByStatus(status);
    }

    /** Sets the status of a stored order to any text at all, without a lifecycle check. */
    method UpdateOrderStatus(orderId: int, newStatus: string) returns (r: Result<Order>)
      requires repository.Valid()
      modifies repository
      ensures repository.Valid()
      ensures repository.nextOrderId == old(repository.nextOrderId) && repository.nextItemId == old(repository.nextItemId)
      ensures orderId !in old(repository.orders) ==> r == Failure(NotFound) && repository.orders == old(repository.orders)
      ensures orderId in old(repository.orders) ==>
        && r == Success(old(repository.orders)[orderId].(status := newStatus))
        && repository.orders == old(repository.orders)[orderId := r.value]
    {
      var got := repository.GetOrderById(orderId);
      if got.Failure? {
        return got;
      }
      var order := got.value.(status := newStatus);
      ghost var before, nextOrderId, next := repository.orders, repository.nextOrderId, repository.nextItemId;
      r := repository.UpdateOrder(order);
      ResaveOutcome(orderId, order, before, nextOrderId, next, r, repository.orders, repository.nextItemId);
    }

    /**
     * Appends a line for the product, with fixed stand-in details, to a stored
     * order, recomputes its total and saves it. There is no status check: a
     * paid order also takes the line.
     */
    method AddOrderItem(orderId: int, productId: int, quantity: int) returns (r: Result<Order>)
      requires repository.Valid()
      modifies repository
      ensures repository.Valid()
      ensures repository.nextOrderId == old(repository.nextOrderId)
      ensures orderId !in old(repository.orders) ==>
        r == Failure(NotFound) && repository.orders == old(repository.orders) && repository.nextItemId == old(repository.nextItemId)
      ensures orderId in old(repository.orders) && Unused(old(repository.orders), old(repository.nextItemId)) ==>
        var o := old(repository.orders)[orderId];
        var item := StubItem(orderId, productId, quantity);
        && r == Success(o.(items := o.items + [item.(orderItemId := old(repository.nextItemId))],
                           total := TotalOf(o.items + [item])))
        && repository.orders == old(repository.orders)[orderId := r.value]
        && repository.nextItemId == old(repository.nextItemId) + 1
        && r.value.total == TotalOf(o.items) + quantity * STUB_PRICE
      ensures orderId in old(repository.orders) && !Unused(old(repository.orders), old(repository.nextItemId)) ==>
        && r == Failure(ServiceError(WRAPPED_UPDATE_CONSTRAINT))
        && repository.orders == old(repository.orders) && repository.nextItemId == old(repository.nextItemId)
      ensures IdsIssued(old(repository.orders), old(repository.nextItemId)) ==>
        Unused(old(repository.orders), old(repository.nextItemId)) && IdsIssued(repository.orders, repository.nextItemId)
    {
      var got := repository.GetOrderById(orderId);
      if got.Failure? {
        return got;
      }
      var order := got.value;
      var newItem := StubItem(orderId, productId, quantity);
      var items := order.items + [newItem];
      var total := CalculateTotal(Some(items));
      order := order.(items := items, total := total.value);
      ghost var stored, before, nextOrderId, next := got.value.(total := total.value), repository.orders, repository.nextOrderId, repository.nextItemId;
      r := repository.UpdateOrder(order);
      AppendOutcome(orderId, stored, newItem, before, nextOrderId, next, r, repository.orders, repository.nextItemId);
      if r == Failure(Constraint) {
        // The service's catch-all re-wraps the repository's constraint error.
        r := Failure(ServiceError(WRAPPED_UPDATE_CONSTRAINT));
      }
      if IdsIssued(before, next) {
        var row := newItem.(orderItemId := next);
        IssuedAppend(before, next, orderId, stored.(items := stored.items + [row]), row);
      }
      StubTotal(got.value.items, orderId, productId, quantity);
    }

    /** Confirms a stored order at time `now`, refusing one that is already confirmed or paid. */
    method ConfirmOrder(orderId: int, now: Timestamp) returns (r: Result<Order>)
      requires repository.Valid()
      modifies repository
      ensures repository.Valid()
      ensures repository.nextOrderId == old(repository.nextOrderId) && repository.nextItemId == old(repository.nextItemId)
      ensures orderId !in old(repository.orders) ==> r == Failure(NotFound)
      ensures orderId in old(repository.orders) ==> r == Confirm(old(repository.orders)[orderId], now)
      ensures r.Success? ==> repository.orders == old(repository.orders)[orderId := r.value]
      ensures r.Failure? ==> repository.orders == old(repository.orders)
    {
      var got := repository.GetOrderById(orderId);
      if got.Failure? {
        return got;
      }
      var c := Confirm(got.value, now);
      if c.Failure? {
        return c;
      }
      var order := c.value;
      ghost var before, nextOrderId, next := repository.orders, repository.nextOrderId, repository.nextItemId;
      r := repository.UpdateOrder(order);
      ResaveOutcome(orderId, order, before, nextOrderId, next, r, repository.orders, repository.nextItemId);
    }

    /**
     * Pays a stored, confirmed order at time `now` with the whole total as
     * points. The point transaction id is accepted and not used.
     */
    method PayOrder(orderId: int, paymentMethod: string, memberCardNo: Option<string>, pointTransactionId: Option<string>, now: Timestamp)
      returns (r: Result<Order>)
      requires repository.Valid()
      modifies repository
      ensures repository.Valid()
      ensures repository.nextOrderId == old(repository.nextOrderId) && repository.nextItemId == old(repository.nextItemId)
      ensures orderId !in old(repository.orders) ==> r == Failure(NotFound)
      ensures orderId in old(repository.orders) ==> r == Pay(old(repository.orders)[orderId], paymentMethod, memberCardNo, now)
      ensures r.Success? ==> repository.orders == old(repository.orders)[orderId := r.value]
      ensures r.Failure? ==> repository.orders == old(repository.orders)
    {
      var got := repository.GetOrderById(orderId);
      if got.Failure? {
        return got;
      }
      var p := Pay(got.value, paymentMethod, memberCardNo, now);
      if p.Failure? {
        return p;
      }
      var order := p.value;
      ghost var before, nextOrderId, next := repository.orders, repository.nextOrderId, repository.nextItemId;
      r := repository.UpdateOrder(order);
      ResaveOutcome(orderId, order, before, nextOrderId, next, r, repository.orders, repository.nextItemId);
    }
  }
}
