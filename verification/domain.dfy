/**
 * The entities of the shop backend, as values. Money is held in integer
 * minor units (the backend itself computes with floating point), and every
 * `createdAt` is a tick of the store's clock.
 */
module Domain {

  datatype Option<+T> = None | Some(value: T)

  /** The role carried by an authenticated request: anything but ADMIN is an ordinary user. */
  datatype Role = Admin | Customer

  /** What the authentication layer vouches for: the caller's user id and role. */
  datatype Requester = Requester(userId: int, role: Role)

  predicate IsAdmin(who: Requester) {
    who.role == Admin
  }

  datatype Product = Product(
    id: int,
    name: string,
    description: string,
    price: int,
    stock: int,
    category: string,
    imageUrl: string,
    createdAt: nat)

  /** One line of a placed order; `price` is the product's price when the order was placed. */
  datatype OrderItem = OrderItem(productId: int, quantity: int, price: int)

  /** The status every order is created with. */
  const PENDING: string := "PENDING"

  datatype Order = Order(
    id: int,
    userId: int,
    total: int,
    status: string,
    createdAt: nat,
    items: seq<OrderItem>)

  /** A stored user account; `passwordHash` must never leave the store. */
  datatype User = User(
    id: int,
    email: string,
    name: string,
    passwordHash: string,
    role: Role,
    createdAt: nat)

  /** The order's monetary value: the sum of price times quantity over its lines. */
  function Total(lines: seq<OrderItem>): int
  {
    if lines == [] then 0
    else Total(lines[..|lines| - 1]) + lines[|lines| - 1].price * lines[|lines| - 1].quantity
  }

  /** The timestamp listings sort orders by. */
  function OrderStamp(o: Order): int
  {
    o.createdAt
  }

  /** The orders placed by user `uid`, each as often as it occurs in `orders`, in store order. */
  function OrdersOf(orders: seq<Order>, uid: int): (r: seq<Order>)
    ensures forall o :: multiset(r)[o] == if o.userId == uid then multiset(orders)[o] else 0
    ensures forall o :: o in r <==> o in orders && o.userId == uid
  {
    if orders == [] then []
    else
      assert orders == [orders[0]] + orders[1..];
      (if orders[0].userId == uid then [orders[0]] else []) + OrdersOf(orders[1..], uid)
  }
}
