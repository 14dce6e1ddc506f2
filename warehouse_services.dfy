/**
  The warehouse service (05/homework_warehouse_management/domain/services.py)
  over the in-memory repositories its tests use
  (05/homework_warehouse_management/tests/test_domain/test_services.py),
  which number what they store 1, 2, 3, ... in the order it is added.
*/
module WarehouseServices {
  import opened Base
  import opened WarehouseModels

  /** `InMemoryProductRepository`: the stored products and the next id to give out. */
  class ProductRepository {
    var items: seq<Product>
    var nextId: int

    /** The ids are 1, 2, 3, ... in insertion order, and the next one follows them. */
    predicate Numbered()
      reads this
    {
      nextId == |items| + 1 && forall i :: 0 <= i < |items| ==> items[i].id == Some(i + 1)
    }

    constructor ()
      ensures items == [] && nextId == 1 && Numbered()
    {
      items := [];
      nextId := 1;
    }

    /** `add`: the product gets the next id and is stored last; that id is used up. */
    method Add(p: Product) returns (r: Product)
      modifies this
      ensures r == p.(id := Some(old(nextId)))
      ensures items == old(items) + [r] && nextId == old(nextId) + 1
      ensures old(Numbered()) ==> Numbered()
    {
      r := p.(id := Some(nextId));
      nextId := nextId + 1;
      items := items + [r];
    }

    /**
      `get`: the first stored product with that id; `next` on an exhausted
      generator raises StopIteration. In a numbered repository, id `k` is the
      k-th product added.
    */
    method Get(productId: int) returns (r: Result<Product, Exception>)
      ensures r.Success? <==> exists i :: 0 <= i < |items| && items[i].id == Some(productId)
      ensures r.Success? ==> exists i :: 0 <= i < |items| && items[i] == r.value && items[i].id == Some(productId)
                                         && forall j :: 0 <= j < i ==> items[j].id != Some(productId)
      ensures r.Failure? ==> r.error == StopIteration
      ensures Numbered() && 1 <= productId <= |items| ==> r == Success(items[productId - 1])
    {
      var i := 0;
      while i < |items|
        invariant 0 <= i <= |items|
        invariant forall j :: 0 <= j < i ==> items[j].id != Some(productId)
      {
        if items[i].id == Some(productId) {
          return Success(items[i]);
        }
        i := i + 1;
      }
      return Failure(StopIteration);
    }

    /** `list`: a copy of the stored products, in insertion order. */
    method List() returns (r: seq<Product>)
      ensures r == items
    {
      r := items;
    }
  }

  /** `InMemoryOrderRepository`: the stored orders and the next id to give out. */
  class OrderRepository {
    var items: seq<Order>
    var nextId: int

    /** The ids are 1, 2, 3, ... in insertion order, and the next one follows them. */
    predicate Numbered()
      reads this, items
    {
      nextId == |items| + 1 && forall i :: 0 <= i < |items| ==> items[i].id == Some(i + 1)
    }

    constructor ()
      ensures items == [] && nextId == 1 && Numbered()
    {
      items := [];
      nextId := 1;
    }

    /**
      `add`: the order object gets the next id and is stored last. Adding an
      order that is not stored yet keeps the numbering.
    */
    method Add(order: Order) returns (r: Order)
      modifies this, order
      ensures r == order && order.id == Some(old(nextId)) && order.products == old(order.products)
      ensures items == old(items) + [order] && nextId == old(nextId) + 1
      ensures old(Numbered()) && order !in old(items) ==> Numbered()
    {
      order.id := Some(nextId);
      nextId := nextId + 1;
      items := items + [order];
      r := order;
    }

    /** `get`: the first stored order with that id, or StopIteration. */
    method Get(orderId: int) returns (r: Result<Order, Exception>)
      ensures r.Success? <==> exists i :: 0 <= i < |items| && items[i].id == Some(orderId)
      ensures r.Success? ==> exists i :: 0 <= i < |items| && items[i] == r.value && items[i].id == Some(orderId)
                                         && forall j :: 0 <= j < i ==> items[j].id != Some(orderId)
      ensures r.Failure? ==> r.error == StopIteration
      ensures Numbered() && 1 <= orderId <= |items| ==> r == Success(items[orderId - 1])
    {
      var i := 0;
      while i < |items|
        invariant 0 <= i <= |items|
        invariant forall j :: 0 <= j < i ==> items[j].id != Some(orderId)
      {
        if items[i].id == Some(orderId) {
          return Success(items[i]);
        }
        i := i + 1;
      }
      return Failure(StopIteration);
    }

    /** `list`: a copy of the stored orders, in insertion order. */
    method List() returns (r: seq<Order>)
      ensures r == items
    {
      r := items;
    }
  }

  /** `WarehouseService`: the product and order repositories it stores into. */
  class WarehouseService {
    const productRepo: ProductRepository
    const orderRepo: OrderRepository

    constructor (productRepo: ProductRepository, orderRepo: OrderRepository)
      ensures this.productRepo == productRepo && this.orderRepo == orderRepo
    {
      this.productRepo := productRepo;
      this.orderRepo := orderRepo;
    }

    /**
      `create_product`: an invalid product raises before the repository is
      touched; a valid one is stored and comes back with the repository's id.
    */
    method CreateProduct(name: string, quantity: int, price: real) returns (r: Result<Product, Exception>)
      modifies productRepo
      ensures NewProduct(None, name, quantity, price).Failure? ==>
                r == NewProduct(None, name, quantity, price) && unchanged(productRepo)
      ensures NewProduct(None, name, quantity, price).Success? ==>
                && r == Success(ProductRecord(Some(old(productRepo.nextId)), name, quantity, price))
                && productRepo.items == old(productRepo.items) + [r.value]
                && productRepo.nextId == old(productRepo.nextId) + 1
      ensures old(productRepo.Numbered()) ==> productRepo.Numbered()
    {
      var made := NewProduct(None, name, quantity, price);
      if made.Failure? {
        return made;
      }
      var stored := productRepo.Add(made.value);
      return Success(stored);
    }

    /**
      `create_order`: an empty list raises ValueError and the order repository
      is not touched; otherwise a new order holding exactly those products is
      stored and returned with the repository's id.
    */
    method CreateOrder(products: seq<Product>) returns (r: Result<Order, Exception>)
      modifies orderRepo
      ensures products == [] ==> r == Failure(ValueError("order must contain products")) && unchanged(orderRepo)
      ensures products != [] ==>
                && r.Success? && fresh(r.value)
                && r.value.products == products && r.value.id == Some(old(orderRepo.nextId))
                && orderRepo.items == old(orderRepo.items) + [r.value]
                && orderRepo.nextId == old(orderRepo.nextId) + 1
      ensures old(orderRepo.Numbered()) ==> orderRepo.Numbered()
    {
      if products == [] {
        return Failure(ValueError("order must contain products"));
      }
      var order := new Order(None, products);
      var stored := orderRepo.Add(order);
      return Success(stored);
    }
  }

  /**
    A fresh service numbers the first product 1; an order of that product is
    numbered 1 and holds the very product stored.
  */
  method ProductThenOrder(name: string, quantity: int, price: real) returns (product: Result<Product, Exception>, order: Option<Order>)
    ensures product.Success? <==> NewProduct(None, name, quantity, price).Success?
    ensures product.Success? ==> product.value.id == Some(1)
    ensures product.Success? ==> order.Some? && order.value.id == Some(1) && order.value.products == [product.value]
    ensures product.Failure? ==> order.None?
  {
    var products := new ProductRepository();
    var orders := new OrderRepository();
    var service := new WarehouseService(products, orders);
    product := service.CreateProduct(name, quantity, price);
    if product.Failure? {
      return product, None;
    }
    var placed := service.CreateOrder([product.value]);
    order := Some(placed.value);
  }
}
