/**
 * The order routes: placing an order (inventory check, total, price
 * snapshots, stock decrement) and the two read-only queries over the
 * stored orders. The state change itself lives in `Backend.Store`; this
 * module holds the pure definitions that specify it.
 */
module OrderRoutes {
  import opened Domain
  import opened Recency

  /** One requested line of an order, as the client sends it. */
  datatype LineRequest = LineRequest(productId: int, quantity: int)

  /** The outcome of the inventory check over all requested lines. */
  datatype CheckResult =
    | Checked(lines: seq<OrderItem>)
    | Missing(productId: int)
    | ShortOfStock(productId: int)

  /** What placing an order answers, with the HTTP status the handler sends. */
  datatype PlaceResponse =
    | Created(order: Order)
    | EmptyItems
    | ProductNotFound(productId: int)
    | InsufficientStock(productId: int)
  {
    function Code(): int
    {
      match this
      case Created(_) => 201
      case EmptyItems => 400
      case ProductNotFound(_) => 404
      case InsufficientStock(_) => 400
    }
  }

  /** What fetching one order answers. */
  datatype OrderLookup = Found(order: Order) | OrderNotFound | AccessDenied
  {
    function Code(): int
    {
      match this
      case Found(_) => 200
      case OrderNotFound => 404
      case AccessDenied => 403
    }
  }

  // ---------------------------------------------------------------------
  // Inventory check

  /** A line passes when its product exists and has at least the requested stock. */
  predicate LineOk(products: map<int, Product>, item: LineRequest)
  {
    item.productId in products && products[item.productId].stock >= item.quantity
  }

  /** The order item recorded for a line: the product's current price is copied into it. */
  function Snapshot(products: map<int, Product>, item: LineRequest): OrderItem
    requires item.productId in products
  {
    OrderItem(item.productId, item.quantity, products[item.productId].price)
  }

  /** Line `i` is the first one that does not pass. */
  ghost predicate FirstFailure(products: map<int, Product>, items: seq<LineRequest>, i: int)
  {
    && 0 <= i < |items|
    && !LineOk(products, items[i])
    && forall j :: 0 <= j < i ==> LineOk(products, items[j])
  }

  /**
   * Checks the lines in request order against the catalog as it is before
   * the order; the first missing product or short line decides the outcome.
   */
  function Check(products: map<int, Product>, items: seq<LineRequest>): CheckResult
    decreases |items|
  {
    if items == [] then Checked([])
    else
      match Check(products, items[..|items| - 1])
      case Checked(lines) =>
        var item := items[|items| - 1];
        if item.productId !in products then Missing(item.productId)
        else if products[item.productId].stock < item.quantity then ShortOfStock(item.productId)
        else Checked(lines + [Snapshot(products, item)])
      case failure => failure
  }

  /**
   * What the check decides: the order passes exactly when every line
   * passes, and then it carries one snapshot per line in request order;
   * otherwise it names the first failing line's product and why it failed.
   */
  lemma {:induction false} CheckMeaning(products: map<int, Product>, items: seq<LineRequest>)
    ensures var r := Check(products, items);
      && (r.Checked? <==> forall i :: 0 <= i < |items| ==> LineOk(products, items[i]))
      && (r.Checked? ==>
            && |r.lines| == |items|
            && forall i :: 0 <= i < |items| ==>
                 items[i].productId in products && r.lines[i] == Snapshot(products, items[i]))
      && (r.Missing? ==>
            exists i :: FirstFailure(products, items, i) && items[i].productId == r.productId
                        && r.productId !in products)
      && (r.ShortOfStock? ==>
            exists i :: FirstFailure(products, items, i) && items[i].productId == r.productId
                        && r.productId in products && products[r.productId].stock < items[i].quantity)
    decreases |items|
  {
    if items != [] {
      var init := items[..|items| - 1];
      CheckMeaning(products, init);
      assert forall i :: 0 <= i < |init| ==> init[i] == items[i];
      if !Check(products, init).Checked? {
        assert forall i :: FirstFailure(products, init, i) ==> FirstFailure(products, items, i);
      }
    }
  }

  /** Once a prefix of the lines fails, the whole request fails the same way. */
  lemma {:induction false} CheckFailurePersists(products: map<int, Product>, items: seq<LineRequest>, n: nat)
    requires n <= |items| && !Check(products, items[..n]).Checked?
    ensures Check(products, items) == Check(products, items[..n])
    decreases |items| - n
  {
    if n < |items| {
      assert items[..n + 1][..n] == items[..n];
      CheckFailurePersists(products, items, n + 1);
    } else {
      assert items[..n] == items;
    }
  }

  /** Checking one more line after a passing prefix decides by that line alone. */
  lemma CheckExtend(products: map<int, Product>, items: seq<LineRequest>, i: nat, lines: seq<OrderItem>)
    requires i < |items| && Check(products, items[..i]) == Checked(lines)
    ensures Check(products, items[..i + 1]) ==
      if items[i].productId !in products then Missing(items[i].productId)
      else if products[items[i].productId].stock < items[i].quantity then ShortOfStock(items[i].productId)
      else Checked(lines + [Snapshot(products, items[i])])
  {
    assert items[..i + 1][..i] == items[..i];
  }

  /** Adding a line adds its price times quantity to the total. */
  lemma TotalAppend(lines: seq<OrderItem>, line: OrderItem)
    ensures Total(lines + [line]) == Total(lines) + line.price * line.quantity
  {
    assert (lines + [line])[..|lines|] == lines;
  }

  /**
   * The validation loop of the handler: it reads each line's product,
   * stops at the first failure, and otherwise accumulates the total and
   * the order items with their price snapshots.
   */
  method ValidateItems(products: map<int, Product>, items: seq<LineRequest>)
    returns (outcome: CheckResult, total: int)
    ensures outcome == Check(products, items)
    ensures outcome.Checked? ==> total == Total(outcome.lines)
  {
    var lines: seq<OrderItem> := [];
    total := 0;
    var i := 0;
    while i < |items|
      invariant 0 <= i <= |items|
      invariant Check(products, items[..i]) == Checked(lines)
      invariant total == Total(lines)
    {
      var item := items[i];
      CheckExtend(products, items, i, lines);
      if item.productId !in products {
        outcome := Missing(item.productId);
        CheckFailurePersists(products, items, i + 1);
        return;
      }
      var product := products[item.productId];
      if product.stock < item.quantity {
        outcome := ShortOfStock(item.productId);
        CheckFailurePersists(products, items, i + 1);
        return;
      }
      var line := OrderItem(item.productId, item.quantity, product.price);
      TotalAppend(lines, line);
      total := total + product.price * item.quantity;
      lines := lines + [line];
      i := i + 1;
    }
    assert items[..i] == items;
    outcome := Checked(lines);
  }

  // ---------------------------------------------------------------------
  // Stock decrement

  /** Takes one line's quantity off its product's stock; nothing else changes. */
  function Decrement(products: map<int, Product>, item: LineRequest): map<int, Product>
  {
    if item.productId in products then
      products[item.productId := products[item.productId].(stock := products[item.productId].stock - item.quantity)]
    else products
  }

  /** The catalog after the per-line decrements, applied in request order. */
  function Decremented(products: map<int, Product>, items: seq<LineRequest>): (r: map<int, Product>)
    ensures r.Keys == products.Keys
    ensures forall k :: k in products ==> r[k] == products[k].(stock := r[k].stock)
    decreases |items|
  {
    if items == [] then products
    else Decrement(Decremented(products, items[..|items| - 1]), items[|items| - 1])
  }

  /** The summed quantity of all lines naming product `pid`. */
  function QuantityOf(items: seq<LineRequest>, pid: int): int
    decreases |items|
  {
    if items == [] then 0
    else
      QuantityOf(items[..|items| - 1], pid)
      + (if items[|items| - 1].productId == pid then items[|items| - 1].quantity else 0)
  }

  /** Each product loses exactly the summed quantity of the lines that name it. */
  lemma {:induction false} DecrementedStock(products: map<int, Product>, items: seq<LineRequest>, pid: int)
    requires pid in products
    ensures Decremented(products, items)[pid].stock == products[pid].stock - QuantityOf(items, pid)
    decreases |items|
  {
    if items != [] {
      DecrementedStock(products, items[..|items| - 1], pid);
    }
  }

  /** A product that no line names keeps its whole record. */
  lemma {:induction false} UnnamedProductUntouched(products: map<int, Product>, items: seq<LineRequest>, pid: int)
    requires pid in products
    requires forall i :: 0 <= i < |items| ==> items[i].productId != pid
    ensures Decremented(products, items)[pid] == products[pid]
    decreases |items|
  {
    if items != [] {
      UnnamedProductUntouched(products, items[..|items| - 1], pid);
    }
  }

  /** No product is named by two lines. */
  predicate DistinctProducts(items: seq<LineRequest>)
  {
    forall i, j :: 0 <= i < j < |items| ==> items[i].productId != items[j].productId
  }

  /** With distinct products, a product's summed quantity is that of its one line, or 0. */
  lemma {:induction false} QuantityOfDistinct(items: seq<LineRequest>, pid: int)
    requires DistinctProducts(items)
    ensures (forall i :: 0 <= i < |items| ==> items[i].productId != pid) ==> QuantityOf(items, pid) == 0
    ensures forall i :: 0 <= i < |items| && items[i].productId == pid ==> QuantityOf(items, pid) == items[i].quantity
    decreases |items|
  {
    if items != [] {
      QuantityOfDistinct(items[..|items| - 1], pid);
    }
  }

  /**
   * When no product is named twice, an order that passes the check leaves
   * no stock negative: each line was checked against the stock it takes from.
   */
  lemma NoOversellWhenDistinct(products: map<int, Product>, items: seq<LineRequest>)
    requires forall k :: k in products ==> products[k].stock >= 0
    requires DistinctProducts(items)
    requires Check(products, items).Checked?
    ensures forall k :: k in Decremented(products, items) ==> Decremented(products, items)[k].stock >= 0
  {
    CheckMeaning(products, items);
    forall k | k in Decremented(products, items)
      ensures Decremented(products, items)[k].stock >= 0
    {
      DecrementedStock(products, items, k);
      QuantityOfDistinct(items, k);
      if i :| 0 <= i < |items| && items[i].productId == k {
        assert LineOk(products, items[i]);
      }
    }
  }

  /**
   * Every line is checked against the stock before the order, so two lines
   * for the same product can together take more than there is: one unit in
   * stock, two lines of one unit each, and the order passes with stock -1.
   */
  lemma RepeatedLinesCanOversell()
    ensures var products := map[7 := Product(7, "Mug", "", 450, 1, "Home", "", 0)];
            var items := [LineRequest(7, 1), LineRequest(7, 1)];
            Check(products, items).Checked? && Decremented(products, items)[7].stock == -1
  {
    var products := map[7 := Product(7, "Mug", "", 450, 1, "Home", "", 0)];
    var items := [LineRequest(7, 1), LineRequest(7, 1)];
    assert items[..1] == [LineRequest(7, 1)];
    assert items[..1][..0] == [];
    DecrementedStock(products, items, 7);
  }

  /**
   * The quantity's sign is never checked: a negative quantity passes the
   * check, raises the stock and makes the order's total negative.
   */
  lemma NegativeQuantityRestocks()
    ensures var products := map[7 := Product(7, "Mug", "", 450, 0, "Home", "", 0)];
            var items := [LineRequest(7, -3)];
            && Check(products, items) == Checked([OrderItem(7, -3, 450)])
            && Total(Check(products, items).lines) == -1350
            && Decremented(products, items)[7].stock == 3
  {
    var items := [LineRequest(7, -3)];
    assert items[..0] == [];
    assert [OrderItem(7, -3, 450)][..0] == [];
  }

  // ---------------------------------------------------------------------
  // Queries

  /** Administrators see every order; anyone else only their own. */
  predicate CanSee(who: Requester, o: Order)
  {
    IsAdmin(who) || o.userId == who.userId
  }

  /**
   * The order list: the orders the requester may see, each as often as it is
   * stored, newest first.
   */
  function ListOrders(orders: seq<Order>, who: Requester): (r: seq<Order>)
    ensures forall o :: multiset(r)[o] == if CanSee(who, o) then multiset(orders)[o] else 0
    ensures forall o :: o in r <==> o in orders && CanSee(who, o)
    ensures NewestFirst(r, OrderStamp)
  {
    var visible := if IsAdmin(who) then orders else OrdersOf(orders, who.userId);
    SortNewestFirst(visible, OrderStamp)
  }

  /** The stored order with the given id, the first one if there were several. */
  function FindOrder(orders: seq<Order>, id: int): (r: Option<Order>)
    ensures r.None? <==> forall o :: o in orders ==> o.id != id
    ensures r.Some? ==> r.value in orders && r.value.id == id
  {
    if orders == [] then None
    else if orders[0].id == id then Some(orders[0])
    else FindOrder(orders[1..], id)
  }

  /**
   * Fetching one order: a missing id is answered 404 before ownership is
   * looked at; an existing order is refused with 403 unless the requester
   * owns it or is an administrator.
   */
  function GetOrder(orders: seq<Order>, who: Requester, id: int): (r: OrderLookup)
    ensures r.OrderNotFound? <==> forall o :: o in orders ==> o.id != id
    ensures r.Found? ==> r.order in orders && r.order.id == id && CanSee(who, r.order)
    ensures r.AccessDenied? ==>
      exists o :: o in orders && o.id == id && !IsAdmin(who) && o.userId != who.userId
    ensures IsAdmin(who) ==> !r.AccessDenied?
  {
    match FindOrder(orders, id)
    case None => OrderNotFound
    case Some(o) => if !IsAdmin(who) && o.userId != who.userId then AccessDenied else Found(o)
  }

  /** Order ids are unique, as the store's id sequence guarantees. */
  ghost predicate UniqueIds(orders: seq<Order>)
  {
    forall i, j :: 0 <= i < j < |orders| ==> orders[i].id != orders[j].id
  }

  /**
   * With unique ids, fetching a stored order gives it to its owner and to
   * administrators, and refuses everyone else.
   */
  lemma {:induction false} FetchStoredOrder(orders: seq<Order>, who: Requester, i: int)
    requires UniqueIds(orders) && 0 <= i < |orders|
    ensures GetOrder(orders, who, orders[i].id) == if CanSee(who, orders[i]) then Found(orders[i]) else AccessDenied
    decreases |orders|
  {
    if i > 0 {
      assert orders[0].id != orders[i].id;
      FetchStoredOrder(orders[1..], who, i - 1);
      assert orders[1..][i - 1] == orders[i];
    }
  }
}
