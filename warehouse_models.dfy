/**
  The warehouse domain entities (05/homework_warehouse_management/domain/models.py):
  a `Product`, checked when it is built, and an `Order` holding a list of
  products. Prices are Python floats, modelled as exact reals.
*/
module WarehouseModels {
  import opened Base

  /** The fields of a product dataclass. */
  datatype ProductRecord = ProductRecord(id: Option<int>, name: string, quantity: int, price: real)

  /** What `Product.__post_init__` lets through: a name, and no negative quantity or price. */
  predicate WellFormed(p: ProductRecord)
  {
    p.name != [] && p.quantity >= 0 && p.price >= 0.0
  }

  /** Every `Product` that exists passed `__post_init__`. */
  type Product = p: ProductRecord | WellFormed(p) witness ProductRecord(None, "product", 0, 0.0)

  /** `Product(id, name, quantity, price)`: the checks of `__post_init__`, in their order. */
  function NewProduct(id: Option<int>, name: string, quantity: int, price: real): (r: Result<Product, Exception>)
    ensures r.Success? <==> WellFormed(ProductRecord(id, name, quantity, price))
    ensures r.Success? ==> r.value == ProductRecord(id, name, quantity, price)
    ensures name == [] ==> r == Failure(ValueError("name is required"))
    ensures name != [] && quantity < 0 ==> r == Failure(ValueError("quantity must be non-negative"))
    ensures name != [] && quantity >= 0 && price < 0.0 ==> r == Failure(ValueError("price must be non-negative"))
  {
    if name == [] then Failure(ValueError("name is required"))
    else if quantity < 0 then Failure(ValueError("quantity must be non-negative"))
    else if price < 0.0 then Failure(ValueError("price must be non-negative"))
    else Success(ProductRecord(id, name, quantity, price))
  }

  /**
    The total of the products' prices. The recursion groups the additions from
    the right, while `sum` adds left to right; with exact reals the order makes
    no difference.
  */
  function SumPrices(products: seq<Product>): (r: real)
    ensures r >= 0.0
    ensures products == [] ==> r == 0.0
  {
    if products == [] then 0.0 else products[0].price + SumPrices(products[1..])
  }

  /** Appending a product adds exactly its price to the sum. */
  lemma {:induction false} SumPricesAppend(products: seq<Product>, p: Product)
    ensures SumPrices(products + [p]) == SumPrices(products) + p.price
  {
    if products != [] {
      assert (products + [p])[1..] == products[1..] + [p];
      SumPricesAppend(products[1..], p);
    }
  }

  /** Each product's price is at most the total. */
  lemma {:induction false} PriceBelowTotal(products: seq<Product>, i: int)
    requires 0 <= i < |products|
    ensures products[i].price <= SumPrices(products)
  {
    if i > 0 {
      PriceBelowTotal(products[1..], i - 1);
    }
  }

  /** An `Order`: an id set by the repository and a list of products that `add_product` grows. */
  class Order {
    var id: Option<int>
    var products: seq<Product>

    /** `Order(id)`: the product list defaults to empty. */
    constructor Empty(id: Option<int>)
      ensures this.id == id && products == []
    {
      this.id := id;
      products := [];
    }

    /** `Order(id, products)`. */
    constructor (id: Option<int>, products: seq<Product>)
      ensures this.id == id && this.products == products
    {
      this.id := id;
      this.products := products;
    }

    /** `add_product`: the product goes last; the id and earlier products stay. */
    method AddProduct(p: Product)
      modifies this
      ensures products == old(products) + [p] && id == old(id)
      ensures TotalPrice() == old(TotalPrice()) + p.price
    {
      products := products + [p];
      SumPricesAppend(old(products), p);
    }

    /** `total_price`: the sum of the product prices, never negative and no less than any one of them. */
    function TotalPrice(): (r: real)
      reads this
      ensures r >= 0.0 && (products == [] ==> r == 0.0)
      ensures forall i :: 0 <= i < |products| ==> products[i].price <= r
    {
      var total := SumPrices(products);
      assert forall i :: 0 <= i < |products| ==> products[i].price <= total by {
        forall i | 0 <= i < |products| ensures products[i].price <= total {
          PriceBelowTotal(products, i);
        }
      }
      total
    }
  }
}
