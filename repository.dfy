/**
 * The order store (Repository/OrderRepository.cs): a table of orders keyed by
 * id, each owning its line items, with create, get-by-id, list-by-status,
 * update and delete, and the reconciliation that merges a caller's item list
 * into the persisted one by item id.
 */
module Repository {
  import opened Models

  // ---------------------------------------------------------------------------
  // Item lists
  // ---------------------------------------------------------------------------

  /** The ids that occur in a list of items. */
  function Ids(s: seq<OrderItem>): set<int> {
    set x | x in s :: x.orderItemId
  }

  /** Every id is positive and no two items share one: what the primary key of a persisted row list guarantees. */
  predicate PositiveDistinctIds(s: seq<OrderItem>) {
    && (forall i :: 0 <= i < |s| ==> s[i].orderItemId > 0)
    && (forall i, j :: 0 <= i < j < |s| ==> s[i].orderItemId != s[j].orderItemId)
  }

  /** Every item of the list carries the given owning order id. */
  predicate OwnedBy(s: seq<OrderItem>, orderId: int) {
    forall x :: x in s ==> x.orderId == orderId
  }

  /** The list with every item's owning order id set to `orderId`. */
  function Stamped(s: seq<OrderItem>, orderId: int): (r: seq<OrderItem>)
    ensures |r| == |s| && OwnedBy(r, orderId)
    ensures forall i :: 0 <= i < |s| ==> r[i] == s[i].(orderId := orderId)
  {
    seq(|s|, i requires 0 <= i < |s| => s[i].(orderId := orderId))
  }

  /** The first position of `id` in `s`. */
  function IndexOfId(s: seq<OrderItem>, id: int): (k: int)
    requires id in Ids(s)
    ensures 0 <= k < |s| && s[k].orderItemId == id
    ensures forall j :: 0 <= j < k ==> s[j].orderItemId != id
  {
    if s[0].orderItemId == id then 0
    else
      assert id in Ids(s[1..]) by {
        var x :| x in s && x.orderItemId == id;
        var i :| 0 <= i < |s| && s[i] == x;
        assert i != 0 && s[1..][i - 1] == x;
      }
      1 + IndexOfId(s[1..], id)
  }

  // ---------------------------------------------------------------------------
  // Reconciliation, stated as a two-set diff
  // ---------------------------------------------------------------------------

  /** A caller item is matched when its id is positive and some persisted item has it. */
  predicate Matches(existing: seq<OrderItem>, n: OrderItem) {
    n.orderItemId > 0 && n.orderItemId in Ids(existing)
  }

  /** The persisted row `e` with its mutable fields taken from `n`; its id and owning order stay. */
  function Overwrite(e: OrderItem, n: OrderItem): OrderItem {
    e.(productId := n.productId, productName := n.productName, productPrice := n.productPrice,
       productDiscountPercent := n.productDiscountPercent, quantity := n.quantity)
  }

  /** The persisted items whose id occurs in the caller's list, in their order. */
  function Kept(existing: seq<OrderItem>, newItems: seq<OrderItem>): seq<OrderItem>
  {
    if existing == [] then []
    else
      var last := existing[|existing| - 1];
      Kept(existing[..|existing| - 1], newItems) + (if last.orderItemId in Ids(newItems) then [last] else [])
  }

  /** The last item of `p` that has the id `id`. */
  function LastWithId(p: seq<OrderItem>, id: int): (r: OrderItem)
    requires id in Ids(p)
    ensures r in p && r.orderItemId == id
  {
    var last := p[|p| - 1];
    if last.orderItemId == id then last
    else
      assert id in Ids(p[..|p| - 1]) by {
        var x :| x in p && x.orderItemId == id;
        var i :| 0 <= i < |p| && p[i] == x;
        assert i < |p| - 1 && p[..|p| - 1][i] == x;
      }
      LastWithId(p[..|p| - 1], id)
  }

  /** A kept row after the caller items `p` have been applied: the last one with its id overwrites it. */
  function Refresh(e: OrderItem, p: seq<OrderItem>): OrderItem {
    if e.orderItemId > 0 && e.orderItemId in Ids(p) then Overwrite(e, LastWithId(p, e.orderItemId)) else e
  }

  function RefreshAll(kept: seq<OrderItem>, p: seq<OrderItem>): (r: seq<OrderItem>)
    ensures |r| == |kept|
    ensures forall i :: 0 <= i < |kept| ==> r[i] == Refresh(kept[i], p)
  {
    seq(|kept|, i requires 0 <= i < |kept| => Refresh(kept[i], p))
  }

  /** The caller items that match no persisted row, owned by `orderId`, in the caller's order. */
  function Appended(existing: seq<OrderItem>, orderId: int, p: seq<OrderItem>): seq<OrderItem>
  {
    if p == [] then []
    else
      var last := p[|p| - 1];
      Appended(existing, orderId, p[..|p| - 1]) + (if Matches(existing, last) then [] else [last.(orderId := orderId)])
  }

  /**
   * The item list of order `orderId` after reconciling the persisted list
   * `existing` with the caller's list `newItems`: the rows whose id the caller
   * still lists, each refreshed from the caller's item with its id, followed
   * by the caller's unmatched items.
   */
  function Reconciled(existing: seq<OrderItem>, orderId: int, newItems: seq<OrderItem>): seq<OrderItem>
  {
    RefreshAll(Kept(existing, newItems), newItems) + Appended(existing, orderId, newItems)
  }

  // ---------------------------------------------------------------------------
  // Facts about the pieces
  // ---------------------------------------------------------------------------

  lemma {:induction false} KeptMembers(existing: seq<OrderItem>, newItems: seq<OrderItem>)
    ensures forall x :: x in Kept(existing, newItems) <==> x in existing && x.orderItemId in Ids(newItems)
    ensures |Kept(existing, newItems)| <= |existing|
    ensures PositiveDistinctIds(existing) ==> PositiveDistinctIds(Kept(existing, newItems))
    decreases |existing|
  {
    if existing != [] {
      var init, last := existing[..|existing| - 1], existing[|existing| - 1];
      assert existing == init + [last];
      KeptMembers(init, newItems);
      if PositiveDistinctIds(existing) {
        assert PositiveDistinctIds(init);
        assert forall x :: x in init ==> x.orderItemId != last.orderItemId by {
          forall x | x in init ensures x.orderItemId != last.orderItemId {
            var i :| 0 <= i < |init| && init[i] == x;
            assert existing[i] == x;
          }
        }
      }
    }
  }

  lemma {:induction false} AppendedMembers(existing: seq<OrderItem>, orderId: int, p: seq<OrderItem>)
    ensures forall x :: x in Appended(existing, orderId, p) ==>
      x.orderId == orderId && !Matches(existing, x) && x.orderItemId in Ids(p)
    ensures forall n :: n in p && !Matches(existing, n) ==> n.(orderId := orderId) in Appended(existing, orderId, p)
    decreases |p|
  {
    if p != [] {
      var init, last := p[..|p| - 1], p[|p| - 1];
      assert p == init + [last];
      AppendedMembers(existing, orderId, init);
    }
  }

  lemma {:induction false} AppendedConcat(existing: seq<OrderItem>, orderId: int, p: seq<OrderItem>, q: seq<OrderItem>)
    ensures Appended(existing, orderId, p + q) == Appended(existing, orderId, p) + Appended(existing, orderId, q)
    decreases |q|
  {
    if q == [] {
      assert p + q == p;
    } else {
      var init := q[..|q| - 1];
      assert (p + q)[..|p + q| - 1] == p + init;
      AppendedConcat(existing, orderId, p, init);
    }
  }

  /** When the list ends with `n`, the last item with `n`'s id is `n`; for any other id the prefix decides. */
  lemma LastWithIdSnoc(p: seq<OrderItem>, n: OrderItem, id: int)
    ensures id in Ids(p + [n]) <==> id in Ids(p) || id == n.orderItemId
    ensures id == n.orderItemId ==> LastWithId(p + [n], id) == n
    ensures id != n.orderItemId && id in Ids(p) ==> LastWithId(p + [n], id) == LastWithId(p, id)
  {
    assert (p + [n])[..|p|] == p;
  }

  /** The effect of one more caller item on the kept rows. */
  lemma RefreshSnoc(kept: seq<OrderItem>, p: seq<OrderItem>, n: OrderItem, k: int)
    requires forall i :: 0 <= i < |kept| ==> kept[i].orderItemId > 0
    requires -1 <= k < |kept|
    requires k >= 0 ==> kept[k].orderItemId == n.orderItemId
    requires forall i :: 0 <= i < |kept| && i != k ==> kept[i].orderItemId != n.orderItemId
    ensures k < 0 ==> RefreshAll(kept, p + [n]) == RefreshAll(kept, p)
    ensures k >= 0 ==> RefreshAll(kept, p + [n]) == RefreshAll(kept, p)[k := Overwrite(RefreshAll(kept, p)[k], n)]
  {
    forall i | 0 <= i < |kept|
      ensures Refresh(kept[i], p + [n]) == if i == k then Overwrite(Refresh(kept[i], p), n) else Refresh(kept[i], p)
    {
      LastWithIdSnoc(p, n, kept[i].orderItemId);
    }
  }

  // ---------------------------------------------------------------------------
  // What reconciliation guarantees
  // ---------------------------------------------------------------------------

  /**
   * The ids of the reconciled list are exactly the ids of the caller's list:
   * no persisted row whose id the caller dropped survives, and every id the
   * caller lists is present.
   */
  lemma ReconciledIds(existing: seq<OrderItem>, orderId: int, newItems: seq<OrderItem>)
    ensures Ids(Reconciled(existing, orderId, newItems)) == Ids(newItems)
  {
    var kept := Kept(existing, newItems);
    var r := Reconciled(existing, orderId, newItems);
    KeptMembers(existing, newItems);
    AppendedMembers(existing, orderId, newItems);
    assert Ids(RefreshAll(kept, newItems)) == Ids(kept) by {
      forall id | id in Ids(kept) ensures id in Ids(RefreshAll(kept, newItems)) {
        var x :| x in kept && x.orderItemId == id;
        var i :| 0 <= i < |kept| && kept[i] == x;
        assert RefreshAll(kept, newItems)[i].orderItemId == id;
      }
    }
    forall id | id in Ids(newItems) ensures id in Ids(r) {
      var n :| n in newItems && n.orderItemId == id;
      if Matches(existing, n) {
        var e :| e in existing && e.orderItemId == id;
        assert e in kept;
      } else {
        assert n.(orderId := orderId) in r;
      }
    }
  }

  /**
   * A persisted row whose positive id the caller lists keeps its id and owner,
   * occurs exactly once, and takes its mutable fields from the caller's last
   * item with that id.
   */
  lemma {:induction false} ReconciledKeepsIdentity(existing: seq<OrderItem>, orderId: int, newItems: seq<OrderItem>, e: OrderItem)
    requires PositiveDistinctIds(existing)
    requires e in existing && e.orderItemId in Ids(newItems)
    ensures var r := Reconciled(existing, orderId, newItems);
      exists k :: 0 <= k < |r| && r[k] == Overwrite(e, LastWithId(newItems, e.orderItemId))
        && forall j :: 0 <= j < |r| && j != k ==> r[j].orderItemId != e.orderItemId
  {
    var kept := Kept(existing, newItems);
    var r := Reconciled(existing, orderId, newItems);
    KeptMembers(existing, newItems);
    AppendedMembers(existing, orderId, newItems);
    var k :| 0 <= k < |kept| && kept[k] == e;
    assert r[k] == Overwrite(e, LastWithId(newItems, e.orderItemId));
    forall j | 0 <= j < |r| && j != k ensures r[j].orderItemId != e.orderItemId {
      if j < |kept| {
        assert r[j].orderItemId == kept[j].orderItemId;
      } else {
        assert r[j] in Appended(existing, orderId, newItems);
        assert e.orderItemId in Ids(existing);
      }
    }
  }

  /** Every caller item that matches no persisted row is appended, owned by the order. */
  lemma ReconciledAppendsUnmatched(existing: seq<OrderItem>, orderId: int, newItems: seq<OrderItem>)
    ensures forall n :: n in newItems && !Matches(existing, n) ==> n.(orderId := orderId) in Reconciled(existing, orderId, newItems)
    ensures OwnedBy(existing, orderId) ==> OwnedBy(Reconciled(existing, orderId, newItems), orderId)
  {
    KeptMembers(existing, newItems);
    AppendedMembers(existing, orderId, newItems);
    var kept := Kept(existing, newItems);
    if OwnedBy(existing, orderId) {
      forall x | x in Reconciled(existing, orderId, newItems) ensures x.orderId == orderId {
        var i :| 0 <= i < |Reconciled(existing, orderId, newItems)| && Reconciled(existing, orderId, newItems)[i] == x;
        if i < |kept| {
          assert kept[i] in existing;
        }
      }
    }
  }

  /**
   * Reconciliation is idempotent: applying the same list of persisted
   * (positive, distinct) ids a second time changes nothing.
   */
  lemma ReconcileIdempotent(existing: seq<OrderItem>, orderId: int, newItems: seq<OrderItem>)
    requires PositiveDistinctIds(newItems)
    ensures var once := Reconciled(existing, orderId, newItems);
      Reconciled(once, orderId, newItems) == once
  {
    var once := Reconciled(existing, orderId, newItems);
    var kept := Kept(existing, newItems);
    ReconciledIds(existing, orderId, newItems);
    KeptAll(once, newItems);
    forall i | 0 <= i < |once| ensures Refresh(once[i], newItems) == once[i] {
      if i < |kept| {
        RefreshTwice(kept[i], newItems);
      } else {
        assert once[i] in Appended(existing, orderId, newItems);
        AppendedRowStable(existing, orderId, newItems, once[i]);
      }
    }
    assert RefreshAll(once, newItems) == once;
    forall n | n in newItems ensures Matches(once, n) {
      assert n.orderItemId in Ids(newItems);
    }
    AppendedEmpty(once, orderId, newItems);
  }

  /**
   * Idempotence fails for a list holding a new line: once the first write
   * has committed it under `next`, sending the same list again deletes that
   * row (no caller item carries its id) and inserts the line afresh under
   * `next + 1`.
   */
  lemma ReconcileNewLineTwice(b: OrderItem, orderId: int, next: int)
    requires b.orderItemId == 0 && 0 < next
    ensures var first := AssignIds(Reconciled([], orderId, [b]), next);
      && first == [b.(orderId := orderId, orderItemId := next)]
      && AssignIds(Reconciled(first, orderId, [b]), next + 1) == [b.(orderId := orderId, orderItemId := next + 1)]
      && AssignIds(Reconciled(first, orderId, [b]), next + 1) != first
  {
    var stamped := b.(orderId := orderId);
    var first := [b.(orderId := orderId, orderItemId := next)];
    assert [b][..0] == [] && [stamped][..0] == [];
    assert Appended([], orderId, [b]) == [stamped];
    assert Reconciled([], orderId, [b]) == [stamped];
    assert AssignIds([stamped], next) == first;
    assert Ids([b]) == {0};
    assert first[..0] == [];
    assert Kept(first, [b]) == [];
    assert Appended(first, orderId, [b]) == [stamped];
    assert Reconciled(first, orderId, [b]) == [stamped];
  }

  /** Refreshing a row twice from the same caller items is refreshing it once. */
  lemma RefreshTwice(e: OrderItem, p: seq<OrderItem>)
    ensures Refresh(Refresh(e, p), p) == Refresh(e, p)
  {
  }

  /** An appended row already carries the fields of the caller item with its id. */
  lemma AppendedRowStable(existing: seq<OrderItem>, orderId: int, newItems: seq<OrderItem>, a: OrderItem)
    requires PositiveDistinctIds(newItems)
    requires a in Appended(existing, orderId, newItems)
    ensures Refresh(a, newItems) == a
  {
    AppendedIsStampedCaller(existing, orderId, newItems, a);
    var m :| m in newItems && a == m.(orderId := orderId);
    assert m.orderItemId in Ids(newItems);
    UniqueId(newItems, m, LastWithId(newItems, a.orderItemId));
    var i :| 0 <= i < |newItems| && newItems[i] == m;
  }

  lemma KeptAll(existing: seq<OrderItem>, newItems: seq<OrderItem>)
    requires Ids(existing) <= Ids(newItems)
    ensures Kept(existing, newItems) == existing
    decreases |existing|
  {
    if existing != [] {
      var init := existing[..|existing| - 1];
      assert existing == init + [existing[|existing| - 1]];
      assert Ids(init) <= Ids(existing);
      KeptAll(init, newItems);
    }
  }

  /** Nothing is appended when every caller item matches a persisted row. */
  lemma AppendedEmpty(existing: seq<OrderItem>, orderId: int, p: seq<OrderItem>)
    requires forall n :: n in p ==> Matches(existing, n)
    ensures Appended(existing, orderId, p) == []
    decreases |p|
  {
    if p != [] {
      assert forall n :: n in p[..|p| - 1] ==> n in p;
      AppendedEmpty(existing, orderId, p[..|p| - 1]);
    }
  }

  lemma AppendedIsStampedCaller(existing: seq<OrderItem>, orderId: int, p: seq<OrderItem>, a: OrderItem)
    requires a in Appended(existing, orderId, p)
    ensures exists m :: m in p && a == m.(orderId := orderId)
    decreases |p|
  {
    var init, last := p[..|p| - 1], p[|p| - 1];
    if a in Appended(existing, orderId, init) {
      AppendedIsStampedCaller(existing, orderId, init, a);
      var m :| m in init && a == m.(orderId := orderId);
      assert m in p;
    } else {
      assert a == last.(orderId := orderId);
    }
  }

  lemma UniqueId(s: seq<OrderItem>, a: OrderItem, b: OrderItem)
    requires PositiveDistinctIds(s) && a in s && b in s && a.orderItemId == b.orderItemId
    ensures a == b
  {
    var i :| 0 <= i < |s| && s[i] == a;
    var j :| 0 <= j < |s| && s[j] == b;
    assert i == j;
  }

  /**
   * Re-saving a persisted list extended by unmatched new items keeps every
   * persisted row as it is and appends the new ones, owned by the order.
   */
  lemma ReconcileExtension(existing: seq<OrderItem>, orderId: int, added: seq<OrderItem>)
    requires PositiveDistinctIds(existing)
    requires forall a :: a in added ==> !Matches(existing, a)
    ensures Reconciled(existing, orderId, existing + added) == existing + Stamped(added, orderId)
  {
    ExtensionKept(existing, added);
    ExtensionAppended(existing, orderId, added);
  }

  /** Every persisted row is kept, unchanged, when the persisted list is extended by unmatched items. */
  lemma ExtensionKept(existing: seq<OrderItem>, added: seq<OrderItem>)
    requires PositiveDistinctIds(existing)
    requires forall a :: a in added ==> !Matches(existing, a)
    ensures RefreshAll(Kept(existing, existing + added), existing + added) == existing
  {
    var all := existing + added;
    assert Ids(existing) <= Ids(all) by {
      forall id | id in Ids(existing) ensures id in Ids(all) {
        var x :| x in existing && x.orderItemId == id;
        assert x in all;
      }
    }
    KeptAll(existing, all);
    forall i | 0 <= i < |existing| ensures Refresh(existing[i], all) == existing[i] {
      ExtensionRowStable(existing, added, existing[i]);
    }
    assert RefreshAll(existing, all) == existing;
  }

  /** A persisted row is its own last occurrence in the persisted list extended by unmatched items. */
  lemma ExtensionRowStable(existing: seq<OrderItem>, added: seq<OrderItem>, e: OrderItem)
    requires PositiveDistinctIds(existing)
    requires forall a :: a in added ==> !Matches(existing, a)
    requires e in existing
    ensures Refresh(e, existing + added) == e
  {
    var i :| 0 <= i < |existing| && existing[i] == e;
    assert e.orderItemId in Ids(existing);
    assert e.orderItemId in Ids(existing + added) by {
      assert e in existing + added;
    }
    var n := LastWithId(existing + added, e.orderItemId);
    if n in added {
      assert Matches(existing, n);
    } else {
      UniqueId(existing, n, e);
    }
  }

  /** Only the unmatched extension is appended, stamped with the order id. */
  lemma ExtensionAppended(existing: seq<OrderItem>, orderId: int, added: seq<OrderItem>)
    requires PositiveDistinctIds(existing)
    requires forall a :: a in added ==> !Matches(existing, a)
    ensures Appended(existing, orderId, existing + added) == Stamped(added, orderId)
  {
    forall n | n in existing ensures Matches(existing, n) {
      var i :| 0 <= i < |existing| && existing[i] == n;
    }
    AppendedEmpty(existing, orderId, existing);
    AppendedConcat(existing, orderId, existing, added);
    AppendedUnmatched(existing, orderId, added);
  }

  lemma {:induction false} AppendedUnmatched(existing: seq<OrderItem>, orderId: int, p: seq<OrderItem>)
    requires forall a :: a in p ==> !Matches(existing, a)
    ensures Appended(existing, orderId, p) == Stamped(p, orderId)
    decreases |p|
  {
    if p != [] {
      var init, last := p[..|p| - 1], p[|p| - 1];
      assert forall a :: a in init ==> a in p;
      AppendedUnmatched(existing, orderId, init);
      assert !Matches(existing, last);
      assert Appended(existing, orderId, p) == Stamped(init, orderId) + [last.(orderId := orderId)];
      assert Stamped(p, orderId) == Stamped(init, orderId) + [last.(orderId := orderId)];
    }
  }

  // ---------------------------------------------------------------------------
  // Commit: the database assigns ids to new rows and enforces the primary key
  // ---------------------------------------------------------------------------

  function ZeroCount(s: seq<OrderItem>): nat {
    if s == [] then 0 else (if s[0].orderItemId == 0 then 1 else 0) + ZeroCount(s[1..])
  }

  /** Counting new rows over a non-empty prefix counts the head, then the rest of the prefix. */
  lemma ZeroCountPrefixes(s: seq<OrderItem>)
    requires s != []
    ensures forall i :: 1 <= i <= |s| ==>
      ZeroCount(s[..i]) == (if s[0].orderItemId == 0 then 1 else 0) + ZeroCount(s[1..][..i - 1])
  {
    forall i | 1 <= i <= |s|
      ensures ZeroCount(s[..i]) == (if s[0].orderItemId == 0 then 1 else 0) + ZeroCount(s[1..][..i - 1])
    {
      assert s[..i][1..] == s[1..][..i - 1];
    }
  }

  /**
   * The list as the database stores it: each item with id 0 receives the next
   * value of the identity sequence, starting at `next`, in list order; an
   * item that carries an id keeps it.
   */
  function AssignIds(s: seq<OrderItem>, next: int): (r: seq<OrderItem>)
    ensures |r| == |s|
    ensures forall i :: 0 <= i < |s| && s[i].orderItemId != 0 ==> r[i] == s[i]
    ensures forall i :: 0 <= i < |s| && s[i].orderItemId == 0 ==>
      r[i] == s[i].(orderItemId := next + ZeroCount(s[..i]))
  {
    if s == [] then []
    else
      var rest := AssignIds(s[1..], if s[0].orderItemId == 0 then next + 1 else next);
      ZeroCountPrefixes(s);
      [if s[0].orderItemId == 0 then s[0].(orderItemId := next) else s[0]] + rest
  }

  /** No stored order other than `id` holds an id of `rows`. */
  predicate FreeIds(rows: seq<OrderItem>, before: map<int, Order>, id: int) {
    forall k :: k in before && k != id ==> Ids(rows) !! Ids(before[k].items)
  }

  /**
   * Order `id` can be committed with these rows: `PK_order_item` holds over
   * the whole table, i.e. the rows' ids are distinct and no other stored
   * order holds one of them, and each id is positive.
   */
  predicate Committable(rows: seq<OrderItem>, before: map<int, Order>, id: int) {
    PositiveDistinctIds(rows) && FreeIds(rows, before, id)
  }

  /** Every stored row carries an id the identity sequence has already issued. */
  ghost predicate IdsIssued(orders: map<int, Order>, nextItemId: int) {
    forall k, x :: k in orders && x in orders[k].items ==> x.orderItemId < nextItemId
  }

  /** No stored row holds `itemId`. */
  ghost predicate Unused(orders: map<int, Order>, itemId: int) {
    forall k :: k in orders ==> itemId !in Ids(orders[k].items)
  }

  lemma {:induction false} AssignIdsAppend(s: seq<OrderItem>, n: OrderItem, next: int)
    requires forall x :: x in s ==> x.orderItemId != 0
    requires n.orderItemId == 0
    ensures AssignIds(s + [n], next) == s + [n.(orderItemId := next)]
    ensures ZeroCount(s + [n]) == 1
    decreases |s|
  {
    if s == [] {
    } else {
      assert (s + [n])[1..] == s[1..] + [n];
      assert forall x :: x in s[1..] ==> x in s;
      AssignIdsAppend(s[1..], n, next);
    }
  }

  /** Assigning ids leaves the owning order of every row as it was. */
  lemma AssignIdsOwned(s: seq<OrderItem>, next: int, orderId: int)
    requires OwnedBy(s, orderId)
    ensures OwnedBy(AssignIds(s, next), orderId)
  {
    var r := AssignIds(s, next);
    forall x | x in r ensures x.orderId == orderId {
      var i :| 0 <= i < |r| && r[i] == x;
      assert s[i] in s;
    }
  }

  lemma {:induction false} AssignIdsNoZero(s: seq<OrderItem>, next: int)
    requires forall x :: x in s ==> x.orderItemId != 0
    ensures AssignIds(s, next) == s && ZeroCount(s) == 0
    decreases |s|
  {
    if s != [] {
      assert forall x :: x in s[1..] ==> x in s;
      AssignIdsNoZero(s[1..], next);
    }
  }

  /** In a list of new rows only, the row at position `i` receives `next + i`. */
  lemma {:induction false} ZeroCountAllNew(s: seq<OrderItem>)
    requires forall x :: x in s ==> x.orderItemId == 0
    ensures ZeroCount(s) == |s|
    decreases |s|
  {
    if s != [] {
      assert s[0] in s;
      assert forall x :: x in s[1..] ==> x in s;
      ZeroCountAllNew(s[1..]);
    }
  }

  /** New rows receive the ids `next`, `next + 1`, … in list order. */
  lemma AssignIdsAllNew(s: seq<OrderItem>, next: int)
    requires forall x :: x in s ==> x.orderItemId == 0
    ensures ZeroCount(s) == |s|
    ensures forall i :: 0 <= i < |s| ==> AssignIds(s, next)[i] == s[i].(orderItemId := next + i)
  {
    ZeroCountAllNew(s);
    forall i | 0 <= i < |s| ensures AssignIds(s, next)[i] == s[i].(orderItemId := next + i) {
      assert s[i] in s;
      assert forall x :: x in s[..i] ==> x in s;
      ZeroCountAllNew(s[..i]);
    }
  }

  /**
   * When every stored row came from the identity sequence, a list of new
   * rows can always be committed, and afterwards every stored row still
   * came from the sequence.
   */
  lemma NewRowsCommit(s: seq<OrderItem>, next: int, before: map<int, Order>, id: int, o: Order)
    requires forall x :: x in s ==> x.orderItemId == 0
    requires 0 < next && IdsIssued(before, next)
    requires o.items == AssignIds(s, next)
    ensures Committable(o.items, before, id)
    ensures IdsIssued(before[id := o], next + ZeroCount(s))
  {
    var r := AssignIds(s, next);
    AssignIdsAllNew(s, next);
    forall k | k in before && k != id ensures Ids(r) !! Ids(before[k].items) {
      forall x | x in r ensures x.orderItemId !in Ids(before[k].items) {
        var i :| 0 <= i < |r| && r[i] == x;
        assert x.orderItemId == next + i;
      }
    }
    var after := before[id := o];
    forall k, x | k in after && x in after[k].items ensures x.orderItemId < next + ZeroCount(s) {
      if k == id {
        var i :| 0 <= i < |r| && r[i] == x;
      }
    }
  }

  // ---------------------------------------------------------------------------
  // The store
  // ---------------------------------------------------------------------------

  /** A stored order is keyed by its own id and owns rows with positive, distinct ids. */
  predicate WellFormed(o: Order, id: int) {
    o.orderId == id && OwnedBy(o.items, id) && PositiveDistinctIds(o.items)
  }

  /**
   * The store invariant: positive order keys below the order sequence, each
   * order well formed, and no item id held by two orders (with the per-order
   * distinctness, `PK_order_item` over the whole table).
   */
  ghost predicate StoreValid(orders: map<int, Order>, nextOrderId: int, nextItemId: int) {
    && 0 < nextOrderId && 0 < nextItemId
    && (forall id :: id in orders ==> 0 < id < nextOrderId && WellFormed(orders[id], id))
    && (forall i, j :: i in orders && j in orders && i != j ==> Ids(orders[i].items) !! Ids(orders[j].items))
  }

  /** Storing a well-formed order whose ids no other order holds, under a key below the (advanced) sequences, keeps the store valid. */
  lemma StorePut(orders: map<int, Order>, nextOrderId: int, nextItemId: int, id: int, o: Order, nextOrderId': int, nextItemId': int)
    requires StoreValid(orders, nextOrderId, nextItemId)
    requires nextOrderId <= nextOrderId' && nextItemId <= nextItemId'
    requires 0 < id < nextOrderId' && WellFormed(o, id) && FreeIds(o.items, orders, id)
    ensures StoreValid(orders[id := o], nextOrderId', nextItemId')
  {
    var after := orders[id := o];
    forall i, j | i in after && j in after && i != j ensures Ids(after[i].items) !! Ids(after[j].items) {
      if j == id {
        assert Ids(o.items) !! Ids(orders[i].items);
      }
    }
  }

  /** The rows a valid store holds for an order can be committed again for that order. */
  lemma StoredCommittable(orders: map<int, Order>, nextOrderId: int, nextItemId: int, id: int)
    requires StoreValid(orders, nextOrderId, nextItemId) && id in orders
    ensures Committable(orders[id].items, orders, id)
  {
  }

  /** Copying every header field of `order` onto the stored row leaves the row equal to `order` with the stored items. */
  lemma HeaderCopy(stored: Order, order: Order)
    requires stored.orderId == order.orderId
    ensures stored.(
      total := order.total, status := order.status, memberCardNo := order.memberCardNo,
      createdAt := order.createdAt, confirmed := order.confirmed, confirmedAt := order.confirmedAt,
      paymentMethod := order.paymentMethod, pointsUsed := order.pointsUsed,
      memberNewBalance := order.memberNewBalance, paidAt := order.paidAt, paid := order.paid)
      == order.(items := stored.items)
  {
  }

  /**
   * The outcome of committing the order row `o` under key `id` to the table
   * `before` with item sequence at `nextItemId`: either every new item row
   * receives an id and the row is stored under `id`, or the primary key
   * breaks and the table and the sequence stay as they were.
   */
  ghost predicate Saved(id: int, o: Order, before: map<int, Order>, nextItemId: int,
                        r: Result<Order>, after: map<int, Order>, nextItemId': int)
  {
    var rows := AssignIds(o.items, nextItemId);
    if Committable(rows, before, id) then
      && r == Success(o.(items := rows))
      && after == before[id := r.value]
      && nextItemId' == nextItemId + ZeroCount(o.items)
    else
      r == Failure(Constraint) && after == before && nextItemId' == nextItemId
  }

  class OrderRepository {
    /** The order table, keyed by order id; each order holds its item rows. */
    var orders: map<int, Order>
    /** The next values of the order and item identity sequences. */
    var nextOrderId: int
    var nextItemId: int

    ghost predicate Valid()
      reads this
    {
      StoreValid(orders, nextOrderId, nextItemId)
    }

    constructor ()
      ensures Valid() && orders == map[] && nextOrderId == 1 && nextItemId == 1 && IdsIssued(orders, nextItemId)
    {
      orders := map[];
      nextOrderId := 1;
      nextItemId := 1;
    }

    /**
     * Stores a new order under a fresh id; its items are inserted with it,
     * owned by it, and new rows receive ids. The database rejects the insert
     * when the item rows break the primary key.
     */
    method CreateOrder(order: Order) returns (r: Result<Order>)
      requires Valid()
      modifies this
      ensures Valid()
      ensures old(nextOrderId) > 0 && old(nextOrderId) !in old(orders)
      ensures nextOrderId == old(nextOrderId) + 1
      ensures var id := old(nextOrderId);
        Saved(id, order.(orderId := id, items := Stamped(order.items, id)), old(orders), old(nextItemId), r, orders, nextItemId)
      ensures (forall x :: x in order.items ==> x.orderItemId == 0) && IdsIssued(old(orders), old(nextItemId)) ==>
        r.Success? && IdsIssued(orders, nextItemId)
    {
      // The order's identity value is drawn first; a rejected insert does not give it back.
      var id := nextOrderId;
      nextOrderId := nextOrderId + 1;
      ghost var before, next := orders, nextItemId;
      var o := order.(orderId := id, items := Stamped(order.items, id));
      r := SaveOrder(id, o);
      if (forall x :: x in order.items ==> x.orderItemId == 0) && IdsIssued(before, next) {
        forall x | x in o.items ensures x.orderItemId == 0 {
          var i :| 0 <= i < |o.items| && o.items[i] == x;
          assert order.items[i] in order.items;
        }
        NewRowsCommit(o.items, next, before, id, o.(items := AssignIds(o.items, next)));
      }
    }

    /** The order with the given id, with all its items, or NotFound. */
    method GetOrderById(orderId: int) returns (r: Result<Order>)
      ensures orderId in orders ==> r == Success(orders[orderId])
      ensures orderId !in orders ==> r == Failure(NotFound)
    {
      if orderId !in orders {
        return Failure(NotFound);
      }
      r := Success(orders[orderId]);
    }

    /** Every stored order whose status equals `status`, each once; none is a normal, empty result. */
    method GetOrdersByStatus(status: string) returns (r: seq<Order>)
      requires Valid()
      ensures forall o :: o in r <==> o.orderId in orders && orders[o.orderId] == o && o.status == status
      ensures forall i, j :: 0 <= i < j < |r| ==> r[i].orderId < r[j].orderId
    {
      // Every key lies below the order sequence, so walking the ids in order visits every row once.
      r := [];
      var id := 1;
      while id < nextOrderId
        invariant 1 <= id <= nextOrderId
        invariant forall i :: 0 <= i < |r| ==>
          r[i].orderId in orders && r[i].orderId < id && orders[r[i].orderId] == r[i] && r[i].status == status
        invariant forall k :: k in orders && k < id && orders[k].status == status ==> orders[k] in r
        invariant forall i, j :: 0 <= i < j < |r| ==> r[i].orderId < r[j].orderId
      {
        if id in orders && orders[id].status == status {
          r := r + [orders[id]];
        }
        id := id + 1;
      }
    }

    /**
     * Overwrites every header field of the stored order with the caller's,
     * keeps its id, reconciles its items with the caller's list and commits
     * both together. Fails with NotFound, changing nothing, for an unknown id.
     */
    method UpdateOrder(order: Order) returns (r: Result<Order>)
      requires Valid()
      modifies this
      ensures Valid()
      ensures nextOrderId == old(nextOrderId)
      ensures order.orderId !in old(orders) ==>
        r == Failure(NotFound) && orders == old(orders) && nextItemId == old(nextItemId)
      ensures order.orderId in old(orders) ==>
        var id := order.orderId;
        Saved(id, order.(items := Reconciled(old(orders)[id].items, id, order.items)),
              old(orders), old(nextItemId), r, orders, nextItemId)
    {
      if order.orderId !in orders {
        return Failure(NotFound);
      }
      var id := order.orderId;
      var existingOrder := orders[id];
      HeaderCopy(existingOrder, order);
      existingOrder := existingOrder.(
        total := order.total,
        status := order.status,
        memberCardNo := order.memberCardNo,
        createdAt := order.createdAt,
        confirmed := order.confirmed,
        confirmedAt := order.confirmedAt,
        paymentMethod := order.paymentMethod,
        pointsUsed := order.pointsUsed,
        memberNewBalance := order.memberNewBalance,
        paidAt := order.paidAt,
        paid := order.paid);
      // The stored row is the one keyed by `id`, so its own id is `id`.
      var items := UpdateOrderItems(orders[id].items, id, order.items);
      ReconciledAppendsUnmatched(orders[id].items, id, order.items);
      existingOrder := existingOrder.(items := items);
      assert existingOrder == order.(items := items);
      r := SaveOrder(id, existingOrder);
    }

    /**
     * Commits one tracked order row with its items: the database gives every
     * new item row (id 0) the next identity value and then enforces the
     * primary key, rejecting the whole write when it breaks.
     */
    method SaveOrder(id: int, o: Order) returns (r: Result<Order>)
      requires Valid() && 0 < id < nextOrderId
      requires o.orderId == id && OwnedBy(o.items, id)
      modifies this
      ensures Valid()
      ensures nextOrderId == old(nextOrderId)
      ensures Saved(id, o, old(orders), old(nextItemId), r, orders, nextItemId)
    {
      var rows := AssignIds(o.items, nextItemId);
      var next := nextItemId + ZeroCount(o.items);
      if !Committable(rows, orders, id) {
        return Failure(Constraint);
      }
      AssignIdsOwned(o.items, nextItemId, id);
      var saved := o.(items := rows);
      StorePut(orders, nextOrderId, nextItemId, id, saved, nextOrderId, next);
      orders := orders[id := saved];
      nextItemId := next;
      r := Success(saved);
    }

    /**
     * Merges the caller's item list into the persisted one, working on
     * snapshots of both: drops the rows whose id the caller no longer lists,
     * then walks the caller's list, overwriting the matched row in place or
     * appending the item with its owning order id set.
     */
    static method UpdateOrderItems(existingItems: seq<OrderItem>, orderId: int, newItems: seq<OrderItem>)
      returns (items: seq<OrderItem>)
      requires PositiveDistinctIds(existingItems)
      ensures items == Reconciled(existingItems, orderId, newItems)
    {
      var existingItemsList := existingItems;
      var newItemsList := newItems;

      // Removal: a row survives only if some caller item has its id.
      items := [];
      var i := 0;
      while i < |existingItemsList|
        invariant 0 <= i <= |existingItemsList|
        invariant items == Kept(existingItemsList[..i], newItemsList)
      {
        var item := existingItemsList[i];
        assert existingItemsList[..i + 1] == existingItemsList[..i] + [item];
        if item.orderItemId in Ids(newItemsList) {
          items := items + [item];
        }
        i := i + 1;
      }
      assert existingItemsList[..i] == existingItemsList;
      ghost var kept := items;
      assert RefreshAll(kept, newItemsList[..0]) == kept;

      // Add or update.
      var j := 0;
      while j < |newItemsList|
        invariant 0 <= j <= |newItemsList|
        invariant items == RefreshAll(kept, newItemsList[..j]) + Appended(existingItemsList, orderId, newItemsList[..j])
      {
        var newItem := newItemsList[j];
        if Matches(existingItemsList, newItem) {
          // The matched row is the same row in the live list: overwrite it there.
          UpsertMatched(existingItemsList, orderId, newItemsList, kept, j, items);
          var at := IndexOfId(items, newItem.orderItemId);
          items := items[at := Overwrite(items[at], newItem)];
        } else {
          UpsertUnmatched(existingItemsList, orderId, newItemsList, kept, j, items);
          items := items + [newItem.(orderId := orderId)];
        }
        j := j + 1;
      }
      assert newItemsList[..j] == newItemsList;
    }

    /** Removes the order and, with it, all of its items. Fails with NotFound, changing nothing, for an unknown id. */
    method DeleteOrder(orderId: int) returns (r: Result<()>)
      requires Valid()
      modifies this
      ensures Valid()
      ensures orderId in old(orders) ==> r == Success(()) && orders == old(orders) - {orderId}
      ensures orderId !in old(orders) ==> r == Failure(NotFound) && orders == old(orders)
      ensures orderId !in orders
      ensures nextOrderId == old(nextOrderId) && nextItemId == old(nextItemId)
    {
      if orderId !in orders {
        return Failure(NotFound);
      }
      orders := orders - {orderId};
      r := Success(());
    }
  }

  /** Appending one caller item to the list seen so far appends at most its stamped copy. */
  lemma AppendedSnoc(existing: seq<OrderItem>, orderId: int, p: seq<OrderItem>, n: OrderItem)
    ensures Appended(existing, orderId, p + [n]) ==
      Appended(existing, orderId, p) + (if Matches(existing, n) then [] else [n.(orderId := orderId)])
  {
    assert (p + [n])[..|p|] == p;
  }

  /** `k` is the first position of `id` in `s`. */
  lemma IndexOfIdAt(s: seq<OrderItem>, id: int, k: int)
    requires 0 <= k < |s| && s[k].orderItemId == id
    requires forall m :: 0 <= m < k ==> s[m].orderItemId != id
    ensures id in Ids(s) && IndexOfId(s, id) == k
  {
    assert s[k] in s;
  }

  /** A step of the add-or-update walk for a caller item that matches a persisted row: that row is overwritten in place. */
  lemma UpsertMatched(existing: seq<OrderItem>, orderId: int, newItems: seq<OrderItem>, kept: seq<OrderItem>, j: int, items: seq<OrderItem>)
    requires PositiveDistinctIds(existing) && kept == Kept(existing, newItems) && 0 <= j < |newItems|
    requires items == RefreshAll(kept, newItems[..j]) + Appended(existing, orderId, newItems[..j])
    requires Matches(existing, newItems[j])
    ensures newItems[j].orderItemId in Ids(items)
    ensures var at := IndexOfId(items, newItems[j].orderItemId);
      items[at := Overwrite(items[at], newItems[j])] ==
        RefreshAll(kept, newItems[..j + 1]) + Appended(existing, orderId, newItems[..j + 1])
  {
    var n, done := newItems[j], newItems[..j];
    assert newItems[..j + 1] == done + [n];
    var refreshed, appended := RefreshAll(kept, done), Appended(existing, orderId, done);
    var k := MatchedRow(existing, newItems, kept, n);
    IndexOfIdAt(items, n.orderItemId, k);
    AppendedSnoc(existing, orderId, done, n);
    RefreshSnoc(kept, done, n, k);
    UpdateInPrefix(refreshed, appended, k, Overwrite(refreshed[k], n));
  }

  lemma UpdateInPrefix(a: seq<OrderItem>, b: seq<OrderItem>, k: int, x: OrderItem)
    requires 0 <= k < |a|
    ensures (a + b)[k] == a[k] && (a + b)[k := x] == a[k := x] + b
  {
  }

  /** A step of the add-or-update walk for an unmatched caller item: its stamped copy is appended. */
  lemma UpsertUnmatched(existing: seq<OrderItem>, orderId: int, newItems: seq<OrderItem>, kept: seq<OrderItem>, j: int, items: seq<OrderItem>)
    requires PositiveDistinctIds(existing) && kept == Kept(existing, newItems) && 0 <= j < |newItems|
    requires items == RefreshAll(kept, newItems[..j]) + Appended(existing, orderId, newItems[..j])
    requires !Matches(existing, newItems[j])
    ensures items + [newItems[j].(orderId := orderId)] ==
      RefreshAll(kept, newItems[..j + 1]) + Appended(existing, orderId, newItems[..j + 1])
  {
    var n, done := newItems[j], newItems[..j];
    assert newItems[..j + 1] == done + [n];
    KeptMembers(existing, newItems);
    forall m | 0 <= m < |kept| ensures kept[m].orderItemId > 0 && kept[m].orderItemId != n.orderItemId {
      assert kept[m] in existing;
    }
    RefreshSnoc(kept, done, n, -1);
    AppendedSnoc(existing, orderId, done, n);
  }

  /** The matched caller item has exactly one kept row with its id. */
  lemma MatchedRow(existing: seq<OrderItem>, newItems: seq<OrderItem>, kept: seq<OrderItem>, n: OrderItem)
    returns (k: int)
    requires PositiveDistinctIds(existing) && kept == Kept(existing, newItems)
    requires n in newItems && Matches(existing, n)
    ensures 0 <= k < |kept| && kept[k].orderItemId == n.orderItemId
    ensures forall i :: 0 <= i < |kept| && i != k ==> kept[i].orderItemId != n.orderItemId
    ensures forall i :: 0 <= i < |kept| ==> kept[i].orderItemId > 0
  {
    KeptMembers(existing, newItems);
    var e :| e in existing && e.orderItemId == n.orderItemId;
    assert e in kept;
    k :| 0 <= k < |kept| && kept[k] == e;
  }

}
