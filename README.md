# Order management back end, modelled in Dafny

This project models the core of a small coffee-shop order back end written in
C#: the order store with its item reconciliation, the order service that
computes totals and drives the status lifecycle `IN_ORDER → CONFIRMED → PAID`,
and the catalog listing that prices campaign products.

- `models.dfy` (module `Models`): the entities `Order`, `OrderItem`,
  `Product`, `Category` as datatypes; `Option`, `Result` and an `Error` kind
  (`NotFound`, `InvalidState(message)`, `Constraint`, `ArgumentNull(param)`,
  `ServiceError(message)`)
  in place of the source's exceptions. Money is an integer count of
  hundredths (the `decimal(10,2)` columns), a discount percent an integer
  count of hundredths of a percent (the `decimal(5,2)` column), and a C#
  `int` is the newtype `Int32`.
- `repository.dfy` (module `Repository`): the class `OrderRepository`, a table
  of orders keyed by id plus the two identity sequences (order ids and item
  ids). Each operation is a method; each state-changing one has `modifies` and states the new table.
  The reconciliation `UpdateOrderItems` is a method with the source's two
  loops over snapshots, proved equal to the closed form `Reconciled` (kept
  rows refreshed from the caller, then the caller's unmatched items). The
  lemmas beside it state what reconciliation promises. Committing a write is
  modelled explicitly (`AssignIds`, `Committable`, the predicate `Saved`):
  new rows (id 0) receive the next item ids in list order, a row that
  carries an id keeps it, and a write is rejected with `Constraint`, leaving
  the table unchanged, when its rows' ids are not distinct or a row of
  another order already holds one of them (the key `PK_order_item` spans
  the whole item table). The sequence does not skip ids that explicit
  inserts took, so a generated id can collide too; `IdsIssued` names the
  stores in which every row came from the sequence, where that cannot
  happen.
- `service.dfy` (module `Service`): the exact order total and its
  half-to-even rounding to cents, the confirmation and payment guards as
  functions `Confirm` and `Pay`, and the class `OrderService`, whose methods
  fetch an order from the repository, change it and hand it back. Creating
  an order stores the caller's items with the total computed from them.
- `product_service.dfy` (module `ProductService`): the campaign price in
  32-bit `int` arithmetic with truncating division, the three catalog
  queries as sequence functions (active products, products of a category,
  categories sorted by display order) and the listing that projects them to
  DTOs. Under a category filter the listing includes inactive products.

## Model

| member | source | states |
|---|---|---|
| Repository.KeptMembers | Repository/OrderRepository.cs:301-312 | a persisted row survives the removal pass exactly when the caller's list has its id; no row is invented; ids stay positive and distinct |
| Repository.AppendedMembers | Repository/OrderRepository.cs:329-334 | every appended item is an unmatched caller item owned by the order, and every unmatched caller item is appended |
| Repository.ReconciledIds | Repository/OrderRepository.cs:301-336 | after reconciliation the item ids are exactly the caller's ids: no dropped row remains, no listed id is missing |
| Repository.ReconciledKeepsIdentity | Repository/OrderRepository.cs:315-328 | a persisted row matched by a positive id occurs exactly once, keeps its id and owner, and takes product, name, price, discount and quantity from the caller's item |
| Repository.ReconciledAppendsUnmatched | Repository/OrderRepository.cs:329-334 | every caller item with id 0 or an unknown id is appended with the owning order id; the result is owned by the order |
| Repository.ReconcileIdempotent | Repository/OrderRepository.cs:297-336 | reconciling twice with the same list of positive distinct ids is reconciling once |
| Repository.ReconcileNewLineTwice | Repository/OrderRepository.cs:305-334 | re-sending a list that holds a new line after its first commit deletes the committed row and inserts the line again under the next id, so the stored list differs |
| Repository.ReconcileExtension | Repository/OrderRepository.cs:297-336 | handing back the persisted list extended by new items keeps every persisted row unchanged and appends the new ones |
| Repository.KeptAll | Repository/OrderRepository.cs:305-312 | nothing is removed when the caller lists every persisted id |
| Repository.AppendedEmpty | Repository/OrderRepository.cs:315-334 | nothing is appended when every caller item matches a persisted row |
| Repository.AppendedUnmatched | Repository/OrderRepository.cs:329-334 | when no caller item matches, all of them are appended in order, stamped |
| Repository.AssignIds | Repository/OrderRepository.cs:48-51 | on commit, the rows with id 0 get `next`, `next + 1`, … in list order (the number of new rows before them added to `next`) and keep all other fields; rows that carry an id are unchanged |
| Repository.AssignIdsAllNew | Repository/OrderRepository.cs:48-51 | in a list of new rows only, the row at position i gets `next + i`, so the ids are distinct and all new rows are counted |
| Repository.NewRowsCommit | Repository/OrderRepository.cs:46-52 | when every stored row came from the sequence, a list of new rows with the sequence at a positive value is always committable, and afterwards every stored row still came from the sequence |
| Repository.StoredCommittable | Repository/OrderRepository.cs:243-245 | the rows a valid store holds for an order pass the key check when that order is saved again |
| Repository.AssignIdsAppend | Repository/OrderRepository.cs:243-245 | committing one new row after persisted rows gives it exactly the next identity value |
| Repository.AssignIdsNoZero | Repository/OrderRepository.cs:243-245 | committing rows that all have ids changes none of them and uses no identity value |
| Repository.StorePut | Repository/OrderRepository.cs:48-51 | storing a well-formed order whose item ids no other order holds keeps the table invariant: positive keys below the order sequence, rows owned by their order, item ids positive and distinct across the whole item table |
| Repository.HeaderCopy | Repository/OrderRepository.cs:230-240 | copying the eleven header fields makes the stored row equal to the caller's order except for its items |
| Repository.OrderRepository.CreateOrder | Repository/OrderRepository.cs:46-52 | the order is stored under a fresh positive id with the caller's header and items, items owned by it and new rows given ids; or the insert breaks the key and nothing is stored; an order of new items only is always stored when every stored row came from the sequence |
| Repository.OrderRepository.GetOrderById | Repository/OrderRepository.cs:101-112 | the stored order with all its items, or NotFound for an unknown id |
| Repository.OrderRepository.GetOrdersByStatus | Repository/OrderRepository.cs:159-168 | exactly the stored orders whose status equals the argument, each once; an empty result is a normal return |
| Repository.OrderRepository.UpdateOrder | Repository/OrderRepository.cs:217-246 | for a known id: header overwritten by the caller's, id kept, items reconciled and committed; for an unknown id: NotFound, with the table and the item sequence unchanged |
| Repository.OrderRepository.SaveOrder | Repository/OrderRepository.cs:243-246 | committing an order row stores it with ids assigned to its new rows when its item ids are distinct and no other order holds one; otherwise the write is rejected with `Constraint` and nothing changes |
| Repository.OrderRepository.UpdateOrderItems | Repository/OrderRepository.cs:297-336 | the removal loop and the add-or-update loop over snapshots produce exactly `Reconciled` of the persisted and the caller's lists |
| Repository.OrderRepository.DeleteOrder | Repository/OrderRepository.cs:354-366 | a known order is removed with all its items and a later lookup fails; an unknown id fails with NotFound and changes nothing; neither identity sequence moves, so a deleted id is never handed out again |
| Service.RoundHalfEven | Service/OrderService.cs:161 | the result is within half a unit of the exact quotient, and on a tie it is even (Math.Round to even) |
| Service.RoundUnique | Service/OrderService.cs:161 | those two properties determine the rounded value |
| Service.RoundShift | Service/OrderService.cs:161 | adding an even number of whole units to the exact value adds that number to the rounded one |
| Service.RoundExact | Service/OrderService.cs:161 | a whole number of cents is not changed by rounding |
| Service.TotalOf | Service/OrderService.cs:152-161 | the total is within half a cent of the exact sum of quantity × price × (1 − discount/100) |
| Service.ExactSumConcat | Service/OrderService.cs:154-159 | the exact sum over a concatenation is the sum of the parts |
| Service.TotalSamePricing | Service/OrderService.cs:152-161 | the total depends only on each line's quantity, price and discount, not on ids, owners or names |
| Service.CommitKeepsPricing | Service/OrderService.cs:27-30 | stamping the owner and assigning row ids do not change the total computed before the insert |
| Service.TotalBasics | Service/OrderService.cs:154-157 | the empty list totals 0; an absent discount prices a line like a zero discount |
| Service.TotalWholeCents | Service/OrderService.cs:161 | when the exact sum is whole cents the total equals it |
| Service.TotalMultipleItems | Test/Unit/OrderManagement/OrderServiceTests.cs:300-332 | 2 × 450.00 at 0% plus 1 × 300.00 at 10% totals 1170.00 |
| Service.TotalDiscountedLine | Test/Unit/OrderManagement/OrderServiceTests.cs:85-129 | 2 × 100.00 at 10% totals 180.00 |
| Service.StubTotal | Service/OrderService.cs:171-186 | adding the stand-in line raises the total by exactly quantity × 300.00 |
| Service.Confirm | Service/OrderService.cs:219-226 | refused with "Order is already confirmed or paid" exactly when the status is CONFIRMED or PAID; otherwise status CONFIRMED, flag and time set, nothing else changed |
| Service.Pay | Service/OrderService.cs:263-283 | refused exactly when the status is not CONFIRMED, with "already paid" for PAID and "must be confirmed" otherwise; on success status PAID, method, card (even when absent), points = total, balance 250.00, flag and time set, nothing else changed |
| Service.Lifecycle | Service/OrderService.cs:219-283 | a new order can be confirmed then paid; a paid order can be neither confirmed nor paid again; a second confirmation is refused |
| Service.GuardedStepsAdvance | Service/OrderService.cs:219-283 | every successful confirmation or payment moves the order forward in the lifecycle |
| Service.ResaveOutcome | Repository/OrderRepository.cs:230-245 | handing a stored order back with its own items and changed header stores exactly that order and uses no item id |
| Service.AppendOutcome | Service/OrderService.cs:185-188 | handing a stored order back with one new line stores that line under the next item id after all existing lines when no stored row holds that id, and is rejected with `Constraint`, changing nothing, when one does |
| Service.IssuedAppend | Service/OrderService.cs:185-188 | when every stored row came from the sequence, the next item id is unused, and storing one more row under it keeps every row issued |
| Service.OrderService.CalculateTotal | Service/OrderService.cs:145-162 | a missing list is refused with an argument error; otherwise the accumulator loop returns `TotalOf` of the list |
| Service.OrderService.CreateOrder | Service/OrderService.cs:23-31 | the stored order has status IN_ORDER and a total equal to the total of its stored items; an order of new items only is always stored when every stored row came from the sequence |
| Service.OrderService.GetOrderById | Service/OrderService.cs:55-60 | passes the repository's lookup through |
| Service.OrderService.GetOrdersByStatus | Service/OrderService.cs:84-89 | passes the repository's status query through |
| Service.OrderService.UpdateOrderStatus | Service/OrderService.cs:109-117 | sets the status to exactly the given text with no lifecycle check and changes nothing else; NotFound for an unknown id |
| Service.OrderService.AddOrderItem | Service/OrderService.cs:164-210 | with no status check, keeps all lines and appends one stand-in line under the next item id, with the total recomputed (the total of the old lines + quantity × 300.00); when a stored row already holds that id the write is rejected, nothing changes, and the repository's constraint error comes back re-wrapped by the catch-all as `ServiceError("Service error: Update failed due to database constraint")`; that cannot happen while every stored row came from the sequence |
| Service.OrderService.ConfirmOrder | Service/OrderService.cs:213-229 | the result is `Confirm` of the stored order; on refusal nothing is written |
| Service.OrderService.PayOrder | Service/OrderService.cs:257-286 | the result is `Pay` of the stored order; on refusal nothing is written |
| ProductService.Wrap32 | Service/ProductService.cs:123 | the result is congruent to the exact value modulo 2^32 and equal to it when it fits an `int` |
| ProductService.Div100 | Service/ProductService.cs:123 | integer division by 100 truncates toward zero, for negative dividends too |
| ProductService.DiscountedPrice | Service/ProductService.cs:116-124 | zero discount gives the price; for prices up to 21,474,836 and percents 0..100 the result is between 0 and the price and is price × (100 − percent) / 100 rounded down |
| ProductService.DiscountExamples | Test/Unit/Product/ProductServiceTests.cs:267-279 | 300 at 10% gives 270; 500 at 0% gives 500 |
| ProductService.DiscountWraps | Service/ProductService.cs:123 | 30,000,000 at 10% overflows the `int` product and gives −15,949,672 |
| ProductService.ActiveProducts | Repository/ProductRepository.cs:148-151 | exactly the active products of the table |
| ProductService.ProductsByCategory | Repository/ProductRepository.cs:97-100 | exactly the products of the category, active or not |
| ProductService.ActiveKeepsOrder | Repository/ProductRepository.cs:148-151 | the active filter keeps table order |
| ProductService.CategoryKeepsOrder | Repository/ProductRepository.cs:97-100 | the category filter keeps table order |
| ProductService.InsertByDisplayOrder | Repository/CategoryRepository.cs:46-48 | inserting into a list sorted by display order keeps it sorted and adds exactly that category |
| ProductService.CategoriesByDisplayOrder | Repository/CategoryRepository.cs:46-48 | the result is sorted by display order and a permutation of the table |
| ProductService.GetProductsWithCategories | Service/ProductService.cs:59-103 | no more products than the table; as many categories as the table has, sorted by display order (that each table category is among them is `ListedCategories`) |
| ProductService.ListedProducts | Service/ProductService.cs:64-87 | one DTO per product of the chosen query, in its order, copying the product's fields with its campaign price; with a category id the query yields that category's products whether active or not, without one the active products |
| ProductService.ListingKeepsOrder | Service/ProductService.cs:77-87 | the listing of a concatenated table is the concatenation of the listings |
| ProductService.ListedCategories | Service/ProductService.cs:74-95 | the categories do not depend on the products or the filter, and every category of the table is listed |
| ProductService.EmptyCatalog | Test/Unit/Product/ProductServiceTests.cs:289-325 | no products gives an empty product list while the categories are still all there |
| ProductService.InactiveListedByCategory | Service/ProductService.cs:64-71 | an inactive product is listed under its category but not in the unfiltered listing, and its discount applies without the campaign flag |

## Left out

- HTTP controllers (status-code mapping, exception-chain walking), dependency-injection wiring, CORS, Swagger and the EF Core schema configuration are transport and set-up code. Three schema facts are carried over: cascade delete of items with their order (`DeleteOrder`), the table-wide primary key `PK_order_item` (`StoreValid`, `Committable`) and the identity sequences of both tables (`AssignIds`, `Saved`, `CreateOrder`).
- Column limits are not modelled: `status` is `varchar(16)`, `member_card_no` and `payment_method` hold at most 20 characters, `product_name` 255, and money and percent columns are `numeric(10,2)` and `numeric(5,2)`. A write that exceeds one is rejected by the database with the repository's constraint error; in the model it succeeds.
- Service.OrderService.UpdateOrderStatus: promises success for any text, while a status longer than 16 characters (for example "AWAITING_KITCHEN_PICKUP") is rejected by the column limit in the source.
- Service.OrderService.PayOrder: promises success for a confirmed order, while a member card number or payment method longer than 20 characters is rejected by the column limit in the source.
- Connection, socket, timeout and unexpected errors, their logging and the re-wrapping of exceptions are not modelled: the error kind has no transient or unexpected case, and every operation is assumed to reach the database.
- Concurrency: each command is one sequential read-modify-write; the lost update between concurrent confirm and pay calls is not modelled.
- Clocks: `DateTime.UtcNow` is the parameter `now`.
- The product and member-service lookups are the constants the source uses (price 300.00, discount 0, name "Product <id>", new balance 250.00).
- The point transaction id of `PayOrder` is accepted and, as in the source, not used.
- `decimal` is modelled exactly; its 28-digit precision limit and overflow are not.
- Service.OrderService.AddOrderItem: the service's order and the repository's tracked row are one object in the source, so the new line is also appended a second time to the in-memory list that is returned (it is persisted once). The model works on values and returns the stored order, with the line once. Its error re-wrapping is modelled (`ServiceError`); read from the code, that means the controller's 400 mapping of a constraint error (Controllers/OrderController.cs:145) cannot apply to this operation, since the catch-all turns the repository's `InvalidOperationException` into a plain `Exception` first.
- Repository.OrderRepository.UpdateOrder: a caller item with a positive id that belongs to no persisted row of the order is appended as the source does and committed as a row carrying that id, rejected with `Constraint` when another order's row holds it. The change tracker treats an added item whose generated key is already set as an existing row to update instead; that outcome (moving the row, or a failed update when no row has the id) is not modelled.
- Repository.OrderRepository.SaveOrder: an explicit negative item id is rejected with `Constraint`, while the identity column would store it; the model keeps stored ids positive. Identity values drawn by a write that is then rejected are not consumed in the model; the item sequence stays where it was.
- `CreateOrder` ignores any order id the caller sets and always draws a fresh one; an identity value drawn for a rejected insert is not reused, as with a database sequence.
- Order items are never a null list inside an order; only `CalculateTotal` takes an optional list, which is where the source checks for null.
- The created and updated timestamps of products and categories, and the recipe of a product, play no part in the listing and are carried only as plain fields (`recipeId`) or left out.
- SQL gives no order to the product queries; the model returns products in table order. Categories with equal display order come out in table order, one of the orders the database may return.
- `GetOrdersByStatus` returns orders in id order; the source's query fixes no order.
- The items of an order come back in list order (kept rows first, then appended ones); loading them with the order fixes no order in the source.
- Repository.ReconcileIdempotent: idempotence is stated only for lists whose ids are all positive and distinct; for a list holding a new line (id 0) it fails, since the second write deletes the row the first committed and re-inserts the line under a new id (`ReconcileNewLineTwice`).
- Status stays a string with three named constants, since `UpdateOrderStatus` performs no lifecycle check; only the 16-character column limit, not modelled, restricts it.
- DiscountedPrice: the bound 0 ≤ result ≤ price is proved only for prices up to 21,474,836, because beyond that the source's 32-bit product wraps (`DiscountWraps` shows a negative result).
