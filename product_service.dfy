/**
 * The catalog listing (Service/ProductService.cs): the campaign price of a
 * product and the listing of products with all categories. The three catalog
 * queries the listing runs (Repository/ProductRepository.cs,
 * Repository/CategoryRepository.cs) are functions over the table contents.
 */
module ProductService {
  import opened Models

  // ---------------------------------------------------------------------------
  // 32-bit integer arithmetic
  // ---------------------------------------------------------------------------

  const TWO_32: int := 0x1_0000_0000

  /** The largest price whose product with 100 still fits in an `int`. */
  const MAX_SAFE_PRICE: int := 21474836

  /** The value unchecked C# `int` arithmetic leaves for the exact result `x`: `x` modulo 2^32, read as signed. */
  function Wrap32(x: int): (r: Int32)
    ensures (x - r as int) % TWO_32 == 0
    ensures -0x8000_0000 <= x < 0x8000_0000 ==> r as int == x
  {
    var m := (x + 0x8000_0000) % TWO_32;
    assert x - (m - 0x8000_0000) == ((x + 0x8000_0000) / TWO_32) * TWO_32;
    (m - 0x8000_0000) as Int32
  }

  /** C# integer division by 100: the quotient truncated toward zero. */
  function Div100(a: int): (q: int)
    ensures a >= 0 ==> 0 <= q * 100 <= a < q * 100 + 100
    ensures a < 0 ==> q * 100 - 100 < a <= q * 100 <= 0
  {
    if a >= 0 then a / 100 else -((-a) / 100)
  }

  // ---------------------------------------------------------------------------
  // Campaign price
  // ---------------------------------------------------------------------------

  /**
   * The price after a campaign discount of `discountPercent` percent: the
   * price itself for a zero discount, otherwise price × (100 − percent) / 100
   * in `int` arithmetic, the division truncating.
   */
  function DiscountedPrice(price: Int32, discountPercent: Int32): (r: Int32)
    ensures discountPercent == 0 ==> r == price
    ensures 0 <= price as int <= MAX_SAFE_PRICE && 0 <= discountPercent <= 100 ==>
      && 0 <= r <= price
      && r as int * 100 <= price as int * (100 - discountPercent as int) < r as int * 100 + 100
  {
    if discountPercent == 0 then price
    else
      var factor := Wrap32(100 - discountPercent as int);
      var product := Wrap32(price as int * factor as int);
      var q := Div100(product as int);
      assert -0x8000_0000 <= q < 0x8000_0000 by {
        if product >= 0 {
          assert q * 100 <= product as int;
        } else {
          assert q * 100 - 100 < product as int;
        }
      }
      SafeRange(price, discountPercent);
      q as Int32
  }

  /** Within the safe range neither the factor nor the product wraps, and the product is at most 100 × price. */
  lemma SafeRange(price: Int32, discountPercent: Int32)
    ensures 0 <= price as int <= MAX_SAFE_PRICE && 0 <= discountPercent <= 100 ==>
      && Wrap32(100 - discountPercent as int) as int == 100 - discountPercent as int
      && 0 <= price as int * (100 - discountPercent as int) <= price as int * 100 < 0x8000_0000
      && Wrap32(price as int * (100 - discountPercent as int)) as int == price as int * (100 - discountPercent as int)
  {
    if 0 <= price as int <= MAX_SAFE_PRICE && 0 <= discountPercent <= 100 {
      var p, f := price as int, 100 - discountPercent as int;
      assert 0 <= p * f;
      assert p * f <= p * 100 by {
        assert p * 100 - p * f == p * (100 - f);
      }
    }
  }

  /** 300 at 10% costs 270; 500 at 0% costs 500. */
  lemma DiscountExamples()
    ensures DiscountedPrice(300, 10) == 270
    ensures DiscountedPrice(500, 0) == 500
  {
    assert Wrap32(90) == 90 && Wrap32(300 * 90) == 27000;
  }

  /** Beyond the safe range the product wraps: 30,000,000 at 10% comes out negative. */
  lemma DiscountWraps()
    ensures DiscountedPrice(30000000, 10) == -15949672
  {
    assert Wrap32(90) == 90;
    assert Wrap32(30000000 * 90) as int == 2700000000 - TWO_32;
  }

  // ---------------------------------------------------------------------------
  // Catalog queries
  // ---------------------------------------------------------------------------

  /** The active products of the table, in table order. */
  function ActiveProducts(table: seq<Product>): (r: seq<Product>)
    ensures forall p :: p in r <==> p in table && p.isActive
    ensures |r| <= |table|
  {
    if table == [] then []
    else
      var last := table[|table| - 1];
      ActiveProducts(table[..|table| - 1]) + (if last.isActive then [last] else [])
  }

  /** The products of the table in category `categoryId`, active or not, in table order. */
  function ProductsByCategory(table: seq<Product>, categoryId: int): (r: seq<Product>)
    ensures forall p :: p in r <==> p in table && p.categoryId == categoryId
    ensures |r| <= |table|
  {
    if table == [] then []
    else
      var last := table[|table| - 1];
      ProductsByCategory(table[..|table| - 1], categoryId) + (if last.categoryId == categoryId then [last] else [])
  }

  /** The active-products filter keeps the table order: filtering a concatenation concatenates the filtered parts. */
  lemma {:induction false} ActiveKeepsOrder(s: seq<Product>, t: seq<Product>)
    ensures ActiveProducts(s + t) == ActiveProducts(s) + ActiveProducts(t)
    decreases |t|
  {
    if t == [] {
      assert s + t == s;
    } else {
      var init := t[..|t| - 1];
      assert (s + t)[..|s + t| - 1] == s + init;
      ActiveKeepsOrder(s, init);
    }
  }

  /** The category filter keeps the table order. */
  lemma {:induction false} CategoryKeepsOrder(s: seq<Product>, t: seq<Product>, categoryId: int)
    ensures ProductsByCategory(s + t, categoryId) == ProductsByCategory(s, categoryId) + ProductsByCategory(t, categoryId)
    decreases |t|
  {
    if t == [] {
      assert s + t == s;
    } else {
      var init := t[..|t| - 1];
      assert (s + t)[..|s + t| - 1] == s + init;
      CategoryKeepsOrder(s, init, categoryId);
    }
  }

  predicate SortedByDisplayOrder(s: seq<Category>) {
    forall i, j :: 0 <= i < j < |s| ==> s[i].displayOrder <= s[j].displayOrder
  }

  /** `c` placed into the sorted list before the first category that does not come before it. */
  function InsertByDisplayOrder(c: Category, s: seq<Category>): (r: seq<Category>)
    requires SortedByDisplayOrder(s)
    ensures SortedByDisplayOrder(r)
    ensures forall x :: x in r <==> x == c || x in s
    ensures multiset(r) == multiset(s) + multiset{c}
  {
    if s == [] then [c]
    else if c.displayOrder <= s[0].displayOrder then [c] + s
    else
      var rest := InsertByDisplayOrder(c, s[1..]);
      SortedCons(s[0], rest, c, s[1..]);
      assert s == [s[0]] + s[1..];
      [s[0]] + rest
  }

  /** A category no later than every member of a sorted list may head it. */
  lemma SortedCons(head: Category, rest: seq<Category>, c: Category, tail: seq<Category>)
    requires SortedByDisplayOrder(rest) && SortedByDisplayOrder([head] + tail)
    requires head.displayOrder < c.displayOrder
    requires forall x :: x in rest ==> x == c || x in tail
    ensures SortedByDisplayOrder([head] + rest)
  {
    forall j | 0 <= j < |rest| ensures head.displayOrder <= rest[j].displayOrder {
      assert rest[j] in rest;
      if rest[j] != c {
        var k :| 0 <= k < |tail| && tail[k] == rest[j];
        assert ([head] + tail)[0] == head && ([head] + tail)[k + 1] == rest[j];
      }
    }
  }

  /** All categories of the table, ordered by display order. */
  function CategoriesByDisplayOrder(table: seq<Category>): (r: seq<Category>)
    ensures SortedByDisplayOrder(r)
    ensures multiset(r) == multiset(table)
  {
    if table == [] then []
    else
      assert table == [table[0]] + table[1..];
      InsertByDisplayOrder(table[0], CategoriesByDisplayOrder(table[1..]))
  }

  // ---------------------------------------------------------------------------
  // The listing
  // ---------------------------------------------------------------------------

  datatype ProductDto = ProductDto(
    productId: int,
    productName: string,
    price: Int32,
    isCampaign: bool,
    campaignDiscountPercent: Int32,
    discountedPrice: Int32,
    categoryId: int,
    isActive: bool)

  datatype CategoryDto = CategoryDto(categoryId: int, categoryName: string, displayOrder: int)

  datatype ProductsWithCategoriesResponse = ProductsWithCategoriesResponse(
    products: seq<ProductDto>,
    categories: seq<CategoryDto>)

  function ToProductDto(p: Product): ProductDto {
    ProductDto(p.productId, p.productName, p.price, p.isCampaign, p.campaignDiscountPercent,
               DiscountedPrice(p.price, p.campaignDiscountPercent), p.categoryId, p.isActive)
  }

  function ToCategoryDto(c: Category): CategoryDto {
    CategoryDto(c.categoryId, c.categoryName, c.displayOrder)
  }

  /** The products a listing shows: the category's products when one is given, else the active ones. */
  function SelectedProducts(productTable: seq<Product>, categoryId: Option<int>): seq<Product> {
    if categoryId.Some? then ProductsByCategory(productTable, categoryId.value) else ActiveProducts(productTable)
  }

  function ProductDtos(products: seq<Product>): seq<ProductDto> {
    seq(|products|, i requires 0 <= i < |products| => ToProductDto(products[i]))
  }

  /**
   * The listing: one DTO per selected product, in the order the query
   * returns them, and one DTO per category of the whole table, in display
   * order.
   */
  function GetProductsWithCategories(productTable: seq<Product>, categoryTable: seq<Category>, categoryId: Option<int>)
    : (r: ProductsWithCategoriesResponse)
    ensures |r.products| <= |productTable|
    ensures |r.categories| == |categoryTable|
    ensures forall i, j :: 0 <= i < j < |r.categories| ==> r.categories[i].displayOrder <= r.categories[j].displayOrder
  {
    var categories := CategoriesByDisplayOrder(categoryTable);
    assert |categories| == |multiset(categories)| == |categoryTable|;
    ProductsWithCategoriesResponse(
      ProductDtos(SelectedProducts(productTable, categoryId)),
      seq(|categories|, i requires 0 <= i < |categories| => ToCategoryDto(categories[i])))
  }

  /** Whether a product passes the listing's filter. */
  predicate Listed(p: Product, categoryId: Option<int>) {
    if categoryId.Some? then p.categoryId == categoryId.value else p.isActive
  }

  /**
   * Which products are listed: the query's result, one DTO each and in its
   * order, and that result holds, with a category id, every product of that
   * category whether active or not, and without one every active product,
   * and nothing else. Each DTO's discounted price is its product's campaign
   * price.
   */
  lemma ListedProducts(productTable: seq<Product>, categoryTable: seq<Category>, categoryId: Option<int>)
    ensures var r := GetProductsWithCategories(productTable, categoryTable, categoryId);
      var selected := SelectedProducts(productTable, categoryId);
      && |r.products| == |selected|
      && (forall i :: 0 <= i < |selected| ==> r.products[i] == ToProductDto(selected[i]))
      && (forall p :: p in selected <==> p in productTable && Listed(p, categoryId))
      && (forall i :: 0 <= i < |r.products| ==>
            r.products[i].discountedPrice == DiscountedPrice(r.products[i].price, r.products[i].campaignDiscountPercent))
  {
  }

  /** The listing keeps the table order: listing a concatenation concatenates the listings. */
  lemma ListingKeepsOrder(s: seq<Product>, t: seq<Product>, categoryTable: seq<Category>, categoryId: Option<int>)
    ensures GetProductsWithCategories(s + t, categoryTable, categoryId).products
         == GetProductsWithCategories(s, categoryTable, categoryId).products
          + GetProductsWithCategories(t, categoryTable, categoryId).products
  {
    if categoryId.Some? {
      CategoryKeepsOrder(s, t, categoryId.value);
    } else {
      ActiveKeepsOrder(s, t);
    }
    DtosConcat(SelectedProducts(s, categoryId), SelectedProducts(t, categoryId));
  }

  lemma DtosConcat(a: seq<Product>, b: seq<Product>)
    ensures ProductDtos(a + b) == ProductDtos(a) + ProductDtos(b)
  {
    var l, r := ProductDtos(a + b), ProductDtos(a) + ProductDtos(b);
    assert |l| == |r|;
    forall i | 0 <= i < |l| ensures l[i] == r[i] {
      if i < |a| {
        assert (a + b)[i] == a[i];
      } else {
        assert (a + b)[i] == b[i - |a|];
      }
    }
  }

  /**
   * The categories do not depend on the products or the filter: the listing
   * always shows every category of the table.
   */
  lemma ListedCategories(p1: seq<Product>, p2: seq<Product>, categoryTable: seq<Category>, a: Option<int>, b: Option<int>)
    ensures var cs := GetProductsWithCategories(p1, categoryTable, a).categories;
      && cs == GetProductsWithCategories(p2, categoryTable, b).categories
      && (forall c :: c in categoryTable ==> ToCategoryDto(c) in cs)
  {
    var cs := GetProductsWithCategories(p1, categoryTable, a).categories;
    var sorted := CategoriesByDisplayOrder(categoryTable);
    forall c | c in categoryTable ensures ToCategoryDto(c) in cs {
      assert c in multiset(sorted);
      var i :| 0 <= i < |sorted| && sorted[i] == c;
      assert cs[i] == ToCategoryDto(c);
    }
  }

  /** With no products the listing is empty, and the categories are still all there. */
  lemma EmptyCatalog(categoryTable: seq<Category>, categoryId: Option<int>)
    ensures var r := GetProductsWithCategories([], categoryTable, categoryId);
      r.products == [] && |r.categories| == |categoryTable|
  {
  }

  /**
   * The two branches are not symmetric: an inactive product is listed under
   * its category but not in the unfiltered listing, and a discount applies
   * whether or not the campaign flag is set.
   */
  lemma InactiveListedByCategory()
    ensures var p := Product(1, "Latte", 1, 7, 300, false, 10, false);
      && ToProductDto(p) in GetProductsWithCategories([p], [], Some(7)).products
      && GetProductsWithCategories([p], [], None).products == []
      && ToProductDto(p).discountedPrice == 270
  {
    var p := Product(1, "Latte", 1, 7, 300, false, 10, false);
    assert [p][..0] == [];
    assert ProductsByCategory([p], 7) == [p];
    assert ProductDtos([p])[0] == ToProductDto(p);
    DiscountExamples();
  }
}
