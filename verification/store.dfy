/**
 * The store the route handlers work on, with the handlers that change it:
 * placing an order, and creating, updating and deleting products. Tables
 * are a product map keyed by id, an order sequence in insertion order and
 * a user map keyed by id; ids are handed out by counters, and `clock`
 * stamps every row created and only ever moves forward.
 */
module Backend {
  import opened Domain
  import opened OrderRoutes
  import opened ProductRoutes

  /** The fields of a product to create. */
  datatype NewProduct = NewProduct(
    name: string,
    description: string,
    price: int,
    stock: int,
    category: string,
    imageUrl: string)

  /** A write to a product row that does not exist makes the store fail, answered with 500. */
  datatype UpdateResponse = Updated(product: Product) | UpdateFailed
  {
    function Code(): int
    {
      match this
      case Updated(_) => 200
      case UpdateFailed => 500
    }
  }

  datatype DeleteResponse = Deleted | DeleteFailed
  {
    function Code(): int
    {
      match this
      case Deleted => 200
      case DeleteFailed => 500
    }
  }

  /**
   * Every product is stored under its own id, below the next id to hand
   * out, and was created before `clock`; no two share a creation time.
   */
  ghost predicate CatalogValid(products: map<int, Product>, nextId: int, clock: nat)
  {
    && (forall k :: k in products ==>
          products[k].id == k && 1 <= k < nextId && products[k].createdAt < clock)
    && (forall j, k :: j in products && k in products && j != k ==>
          products[j].createdAt != products[k].createdAt)
  }

  /**
   * Every order's id is below the next id to hand out, its creation time
   * below `clock` and its total the sum over its lines; ids and creation
   * times increase along the table.
   */
  ghost predicate OrderLogValid(orders: seq<Order>, nextId: int, clock: nat)
  {
    && (forall i :: 0 <= i < |orders| ==>
          1 <= orders[i].id < nextId && orders[i].createdAt < clock
          && orders[i].total == Total(orders[i].items))
    && (forall i, j :: 0 <= i < j < |orders| ==>
          orders[i].id < orders[j].id && orders[i].createdAt < orders[j].createdAt)
  }

  /** Every account is stored under its own id. */
  ghost predicate UsersKeyed(users: map<int, User>)
  {
    forall k :: k in users ==> users[k].id == k
  }

  /** Taking stock off products keeps the catalog well formed, and so does a later clock. */
  lemma DecrementedKeepsCatalog(products: map<int, Product>, items: seq<LineRequest>, nextId: int, clock: nat, later: nat)
    requires CatalogValid(products, nextId, clock) && clock <= later
    ensures CatalogValid(Decremented(products, items), nextId, later)
  {
    var r := Decremented(products, items);
    forall k | k in r ensures r[k].id == k && 1 <= k < nextId && r[k].createdAt < later {
      assert r[k] == products[k].(stock := r[k].stock);
    }
    forall j, k | j in r && k in r && j != k ensures r[j].createdAt != r[k].createdAt {
      assert r[j] == products[j].(stock := r[j].stock);
      assert r[k] == products[k].(stock := r[k].stock);
    }
  }

  /** Appending an order stamped with the next id and the clock keeps the table well formed. */
  lemma AppendKeepsOrderLog(orders: seq<Order>, order: Order, nextId: int, clock: nat)
    requires OrderLogValid(orders, nextId, clock) && 1 <= nextId
    requires order.id == nextId && order.createdAt == clock && order.total == Total(order.items)
    ensures OrderLogValid(orders + [order], nextId + 1, clock + 1)
  {
    var s := orders + [order];
    forall i | 0 <= i < |s|
      ensures 1 <= s[i].id < nextId + 1 && s[i].createdAt < clock + 1 && s[i].total == Total(s[i].items)
    {
      if i < |orders| {
        assert s[i] == orders[i];
      }
    }
    forall i, j | 0 <= i < j < |s| ensures s[i].id < s[j].id && s[i].createdAt < s[j].createdAt {
      if j < |orders| {
        assert s[i] == orders[i] && s[j] == orders[j];
      } else {
        assert s[i] == orders[i];
      }
    }
  }

  /**
   * In a well-formed order table every stored order is fetched by its own
   * id: its owner and any administrator get it back, anyone else is denied.
   */
  lemma StoredOrderFetch(orders: seq<Order>, nextId: int, clock: nat, who: Requester, i: int)
    requires OrderLogValid(orders, nextId, clock) && 0 <= i < |orders|
    ensures GetOrder(orders, who, orders[i].id) == if CanSee(who, orders[i]) then Found(orders[i]) else AccessDenied
  {
    assert UniqueIds(orders);
    FetchStoredOrder(orders, who, i);
  }

  /** The decrements for one more line are those for the lines before it, then that line's. */
  lemma DecrementedStep(products: map<int, Product>, items: seq<LineRequest>, i: nat)
    requires i < |items|
    ensures Decremented(products, items[..i + 1]) == Decrement(Decremented(products, items[..i]), items[i])
  {
    assert items[..i + 1][..i] == items[..i];
  }

  class Store {
    var products: map<int, Product>
    var orders: seq<Order>
    var users: map<int, User>
    var clock: nat
    var nextProductId: int
    var nextOrderId: int

    /**
     * Rows are keyed by their own id; ids and timestamps were handed out by
     * the counters, so they are below them and increase along the order
     * table; every stored order's total is the sum over its lines.
     */
    ghost predicate Valid()
      reads this
    {
      && 1 <= nextProductId && 1 <= nextOrderId
      && CatalogValid(products, nextProductId, clock)
      && OrderLogValid(orders, nextOrderId, clock)
      && UsersKeyed(users)
    }

    /** An empty catalog and order table beside the given accounts. */
    constructor (accounts: map<int, User>)
      requires forall k :: k in accounts ==> accounts[k].id == k
      ensures Valid()
      ensures products == map[] && orders == [] && users == accounts
    {
      products := map[];
      orders := [];
      users := accounts;
      clock := 0;
      nextProductId := 1;
      nextOrderId := 1;
    }

    /**
     * Places an order for `who`. A missing or empty item list is refused;
     * otherwise the lines are checked against the catalog as it stands, and
     * only when every line passes is one PENDING order appended and each
     * line's quantity taken off its product's stock. Any refusal leaves the
     * store as it was.
     */
    method PlaceOrder(who: Requester, items: Option<seq<LineRequest>>) returns (r: PlaceResponse)
      requires Valid()
      modifies this
      ensures Valid()
      ensures users == old(users) && nextProductId == old(nextProductId) && clock >= old(clock)
      ensures (items.None? || items.value == []) ==> r == EmptyItems
      ensures !r.Created? ==>
        products == old(products) && orders == old(orders) && clock == old(clock) && nextOrderId == old(nextOrderId)
      ensures items.Some? && items.value != [] ==>
        match Check(old(products), items.value)
        case Missing(pid) => r == PlaceResponse.ProductNotFound(pid)
        case ShortOfStock(pid) => r == InsufficientStock(pid)
        case Checked(lines) =>
          && r == Created(Order(old(nextOrderId), who.userId, Total(lines), PENDING, old(clock), lines))
          && orders == old(orders) + [r.order]
          && products == Decremented(old(products), items.value)
          && clock == old(clock) + 1
          && nextOrderId == old(nextOrderId) + 1
    {
      if items.None? || |items.value| == 0 {
        return EmptyItems;
      }
      var lines := items.value;
      var outcome, total := ValidateItems(products, lines);
      match outcome {
        case Missing(pid) =>
          return PlaceResponse.ProductNotFound(pid);
        case ShortOfStock(pid) =>
          return InsufficientStock(pid);
        case Checked(orderItems) =>
          r := Commit(who, lines, orderItems, total);
      }
    }

    /**
     * The write half of placing an order, done as one transaction once every
     * line has passed: the order row with its lines is appended, then each
     * line's quantity is taken off its product in request order.
     */
    method Commit(who: Requester, lines: seq<LineRequest>, orderItems: seq<OrderItem>, total: int)
      returns (r: PlaceResponse)
      requires Valid()
      requires Check(products, lines) == Checked(orderItems) && total == Total(orderItems)
      modifies this
      ensures Valid()
      ensures r == Created(Order(old(nextOrderId), who.userId, total, PENDING, old(clock), orderItems))
      ensures orders == old(orders) + [r.order]
      ensures products == Decremented(old(products), lines)
      ensures clock == old(clock) + 1 && nextOrderId == old(nextOrderId) + 1
      ensures users == old(users) && nextProductId == old(nextProductId)
    {
      var order := Order(nextOrderId, who.userId, total, PENDING, clock, orderItems);
      AppendKeepsOrderLog(orders, order, nextOrderId, clock);
      orders := orders + [order];
      nextOrderId := nextOrderId + 1;
      clock := clock + 1;
      DecrementedKeepsCatalog(products, lines, nextProductId, old(clock), clock);
      TakeStock(lines);
      r := Created(order);
    }

    /** Takes each line's quantity off its product, one line at a time in request order. */
    method TakeStock(lines: seq<LineRequest>)
      modifies this
      ensures products == Decremented(old(products), lines)
      ensures orders == old(orders) && users == old(users) && clock == old(clock)
      ensures nextProductId == old(nextProductId) && nextOrderId == old(nextOrderId)
    {
      var i := 0;
      while i < |lines|
        invariant 0 <= i <= |lines|
        invariant products == Decremented(old(products), lines[..i])
        invariant orders == old(orders) && users == old(users) && clock == old(clock)
        invariant nextProductId == old(nextProductId) && nextOrderId == old(nextOrderId)
      {
        DecrementedStep(old(products), lines, i);
        products := Decrement(products, lines[i]);
        i := i + 1;
      }
      assert lines[..i] == lines;
    }

    /** Adds one product with the given fields under a fresh id; no other row changes. */
    method CreateProduct(data: NewProduct) returns (p: Product)
      requires Valid()
      modifies this
      ensures Valid()
      ensures p == Product(old(nextProductId), data.name, data.description, data.price, data.stock,
                           data.category, data.imageUrl, old(clock))
      ensures p.id !in old(products)
      ensures products == old(products)[p.id := p]
      ensures orders == old(orders) && users == old(users) && nextOrderId == old(nextOrderId)
      ensures clock == old(clock) + 1 && nextProductId == old(nextProductId) + 1
    {
      p := Product(nextProductId, data.name, data.description, data.price, data.stock,
                   data.category, data.imageUrl, clock);
      products := products[p.id := p];
      nextProductId := nextProductId + 1;
      clock := clock + 1;
    }

    /**
     * Applies a partial update to the product with the given id; an id with
     * no product makes the store fail and nothing changes.
     */
    method UpdateProduct(id: int, body: UpdateBody) returns (r: UpdateResponse)
      requires Valid()
      modifies this
      ensures Valid()
      ensures id in old(products) ==>
        r == Updated(ApplyUpdate(old(products)[id], body)) && products == old(products)[id := r.product]
      ensures id !in old(products) ==> r == UpdateFailed && products == old(products)
      ensures orders == old(orders) && users == old(users) && clock == old(clock)
      ensures nextProductId == old(nextProductId) && nextOrderId == old(nextOrderId)
    {
      if id !in products {
        return UpdateFailed;
      }
      var updated := ApplyUpdate(products[id], body);
      products := products[id := updated];
      r := Updated(updated);
    }

    /**
     * Removes the product with the given id and nothing else; an id with no
     * product makes the store fail and nothing changes.
     */
    method DeleteProduct(id: int) returns (r: DeleteResponse)
      requires Valid()
      modifies this
      ensures Valid()
      ensures id in old(products) ==> r == Deleted && products == old(products) - {id}
      ensures id !in old(products) ==> r == DeleteFailed && products == old(products)
      ensures orders == old(orders) && users == old(users) && clock == old(clock)
      ensures nextProductId == old(nextProductId) && nextOrderId == old(nextOrderId)
    {
      if id !in products {
        return DeleteFailed;
      }
      products := products - {id};
      r := Deleted;
    }
  }
}
