/**
 * The user route: reading one user's profile. The requester must be that
 * user or an administrator; the answer is a projection of the account that
 * leaves the password hash out and carries at most the five newest orders.
 */
module UserRoutes {
  import opened Domain
  import opened Recency

  /** How many of the user's orders a profile shows. */
  const RECENT_ORDERS: nat := 5

  /** The fields of an account that a profile exposes. */
  datatype UserView = UserView(
    id: int,
    email: string,
    name: string,
    role: Role,
    createdAt: nat,
    orders: seq<Order>)

  /** What reading a profile answers. */
  datatype ProfileLookup = Profile(view: UserView) | ProfileForbidden | UserNotFound
  {
    function Code(): int
    {
      match this
      case Profile(_) => 200
      case ProfileForbidden => 403
      case UserNotFound => 404
    }
  }

  /** A user may read their own profile; an administrator may read any. */
  predicate MayReadProfile(who: Requester, id: int)
  {
    who.userId == id || IsAdmin(who)
  }

  /** What a prefix of the user's orders sorted newest first keeps of them. */
  lemma NewestPrefix(orders: seq<Order>, uid: int, sorted: seq<Order>, n: nat)
    requires multiset(sorted) == multiset(OrdersOf(orders, uid))
    requires NewestFirst(sorted, OrderStamp) && n <= |sorted|
    ensures |sorted| == |OrdersOf(orders, uid)|
    ensures multiset(sorted[..n]) <= multiset(OrdersOf(orders, uid))
    ensures forall o :: o in sorted[..n] ==> o in orders && o.userId == uid
    ensures NewestFirst(sorted[..n], OrderStamp)
    ensures forall o, o' :: o in sorted[..n] && o' in orders && o'.userId == uid && o' !in sorted[..n] ==>
              o'.createdAt <= o.createdAt
  {
    SameMembers(sorted, OrdersOf(orders, uid));
    PrefixSubMultiset(sorted, n);
    NewestPrefixOf(sorted, OrderStamp, n);
    forall o, o' | o in sorted[..n] && o' in orders && o'.userId == uid && o' !in sorted[..n]
      ensures o'.createdAt <= o.createdAt
    {
      PrefixIsNewest(sorted, OrderStamp, n, o, o');
    }
  }

  /**
   * The user's newest orders, at most five: all of them when there are
   * fewer, and no order left out is newer than one shown.
   */
  function RecentOrders(orders: seq<Order>, uid: int): (r: seq<Order>)
    ensures |r| == if |OrdersOf(orders, uid)| < RECENT_ORDERS then |OrdersOf(orders, uid)| else RECENT_ORDERS
    ensures multiset(r) <= multiset(OrdersOf(orders, uid))
    ensures forall o :: o in r ==> o in orders && o.userId == uid
    ensures NewestFirst(r, OrderStamp)
    ensures forall o, o' :: o in r && o' in orders && o'.userId == uid && o' !in r ==> o'.createdAt <= o.createdAt
  {
    var sorted := SortNewestFirst(OrdersOf(orders, uid), OrderStamp);
    var n := if |sorted| < RECENT_ORDERS then |sorted| else RECENT_ORDERS;
    NewestPrefix(orders, uid, sorted, n);
    sorted[..n]
  }

  /** The profile as exposed: every account field but the password hash, and the recent orders. */
  function Project(u: User, orders: seq<Order>): UserView
  {
    UserView(u.id, u.email, u.name, u.role, u.createdAt, RecentOrders(orders, u.id))
  }

  /**
   * Reading a profile: refused with 403 before any lookup unless the
   * requester is that user or an administrator; 404 when no such user
   * exists; otherwise the projection of the account.
   */
  function GetUser(users: map<int, User>, orders: seq<Order>, who: Requester, id: int): (r: ProfileLookup)
    ensures r.ProfileForbidden? <==> !MayReadProfile(who, id)
    ensures r.UserNotFound? <==> MayReadProfile(who, id) && id !in users
    ensures r.Profile? ==>
      && id in users
      && r.view.id == users[id].id
      && r.view.email == users[id].email
      && r.view.name == users[id].name
      && r.view.role == users[id].role
      && r.view.createdAt == users[id].createdAt
      && r.view.orders == RecentOrders(orders, users[id].id)
      && |r.view.orders| == (if |OrdersOf(orders, users[id].id)| < RECENT_ORDERS
                             then |OrdersOf(orders, users[id].id)| else RECENT_ORDERS)
      && multiset(r.view.orders) <= multiset(OrdersOf(orders, users[id].id))
      && (forall o :: o in r.view.orders ==> o in orders && o.userId == users[id].id)
      && NewestFirst(r.view.orders, OrderStamp)
      && (forall o, o' ::
            o in r.view.orders && o' in orders && o'.userId == users[id].id && o' !in r.view.orders ==>
              o'.createdAt <= o.createdAt)
  {
    if !MayReadProfile(who, id) then ProfileForbidden
    else if id !in users then UserNotFound
    else Profile(Project(users[id], orders))
  }

  /**
   * The password hash never reaches the answer: two stores that differ only
   * in that user's hash give the same answer.
   */
  lemma ProfileHidesPasswordHash(users: map<int, User>, orders: seq<Order>, who: Requester, id: int, hash: string)
    requires id in users
    ensures GetUser(users[id := users[id].(passwordHash := hash)], orders, who, id) == GetUser(users, orders, who, id)
  {
  }
}
