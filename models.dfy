/**
 * The entities of the order back end (Models/Order.cs, Models/OrderItem.cs,
 * Models/Product.cs, Models/Category.cs) as values, with the result and error
 * types that replace the source's exception chains.
 *
 * Monetary amounts are C# `decimal` columns with two decimal places; here they
 * are integers counting hundredths (cents). A discount percent is a
 * `decimal(5,2)` column; here it is an integer counting hundredths of a percent,
 * so 10.00% is 1000.
 */
module Models {

  datatype Option<+T> = None | Some(value: T)

  /** The error kinds the repository and the services surface to their callers. */
  datatype Error =
    | NotFound                      // EntityNotFoundException
    | InvalidState(message: string) // InvalidOperationException raised by a status guard
    | Constraint                    // the database rejected the write
    | ArgumentNull(param: string)   // ArgumentNullException
    | ServiceError(message: string) // a plain Exception from a service's catch-all, wrapping the cause's message

  datatype Result<+T> = Success(value: T) | Failure(error: Error)

  /** Hundredths of the currency unit: 1170.00 is 117000. */
  type Money = int

  /** Hundredths of a percent: 10.00% is 1000. */
  type Hundredths = int

  /** A point in time; the model takes it as a parameter instead of reading a clock. */
  type Timestamp = int

  const IN_ORDER: string := "IN_ORDER"
  const CONFIRMED: string := "CONFIRMED"
  const PAID: string := "PAID"

  /**
   * A line item. The name, price and discount are snapshots taken when the
   * item was added. An id of 0 means "not yet persisted".
   */
  datatype OrderItem = OrderItem(
    orderItemId: int,
    orderId: int,
    productId: int,
    productName: string,
    productPrice: Money,
    productDiscountPercent: Option<Hundredths>,
    quantity: int)

  /** The order aggregate: header fields and the items it owns. */
  datatype Order = Order(
    orderId: int,
    createdAt: Option<Timestamp>,
    memberCardNo: Option<string>,
    total: Money,
    status: string,
    confirmed: Option<bool>,
    confirmedAt: Option<Timestamp>,
    paymentMethod: Option<string>,
    pointsUsed: Option<Money>,
    memberNewBalance: Option<Money>,
    paidAt: Option<Timestamp>,
    paid: Option<bool>,
    items: seq<OrderItem>)

  /** A C# `int`: a 32-bit two's-complement integer. */
  newtype Int32 = x: int | -0x8000_0000 <= x < 0x8000_0000

  /** A catalog product; its price is a whole number, its discount a whole percent. */
  datatype Product = Product(
    productId: int,
    productName: string,
    recipeId: int,
    categoryId: int,
    price: Int32,
    isCampaign: bool,
    campaignDiscountPercent: Int32,
    isActive: bool)

  datatype Category = Category(
    categoryId: int,
    categoryName: string,
    displayOrder: int)
}
