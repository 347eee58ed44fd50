/**
 * The product routes: the filtered, newest-first, paginated listing, the
 * lookup by id, and the pure part of the partial update. Creating,
 * updating and deleting change the catalog and live in `Backend.Store`.
 */
module ProductRoutes {
  import opened Domain
  import opened Recency

  /** The page shown when the query names none. */
  const DEFAULT_PAGE: int := 1
  /** The page size used when the query names none. */
  const DEFAULT_LIMIT: int := 10

  /**
   * The listing's query parameters. A filter parameter that was not sent is
   * `None`; so is a price bound sent empty. Page and limit are `None` only
   * when not sent, and then take their defaults.
   */
  datatype ProductQuery = ProductQuery(
    search: Option<string>,
    category: Option<string>,
    minPrice: Option<int>,
    maxPrice: Option<int>,
    page: Option<int>,
    limit: Option<int>)

  /** The filter handed to the store: only the conditions the query switched on. */
  datatype Where = Where(
    search: Option<string>,
    category: Option<string>,
    minPrice: Option<int>,
    maxPrice: Option<int>)

  /** One page of the listing with its pagination block. */
  datatype ProductPage = ProductPage(products: seq<Product>, total: nat, page: int, pages: nat)

  /** What fetching one product answers. */
  datatype ProductLookup = ProductFound(product: Product) | ProductNotFound
  {
    function Code(): int
    {
      match this
      case ProductFound(_) => 200
      case ProductNotFound => 404
    }
  }

  /** The fields a partial update may carry; `None` is a field the body leaves out. */
  datatype UpdateBody = UpdateBody(
    name: Option<string>,
    description: Option<string>,
    price: Option<int>,
    stock: Option<int>,
    category: Option<string>,
    imageUrl: Option<string>)

  // ---------------------------------------------------------------------
  // Case-insensitive substring search

  /** Folds an ASCII upper-case letter to lower case. */
  function Lower(c: char): char
  {
    if 'A' <= c <= 'Z' then (c as int + 32) as char else c
  }

  /**
   * The text with every ASCII capital folded to its lower-case letter: no
   * capital is left and every other character stays where it was.
   */
  function Lowered(s: string): (r: string)
    ensures |r| == |s|
    ensures forall i :: 0 <= i < |r| ==> !('A' <= r[i] <= 'Z')
    ensures forall i :: 0 <= i < |s| && !('A' <= s[i] <= 'Z') ==> r[i] == s[i]
    ensures forall i :: 0 <= i < |s| && 'A' <= s[i] <= 'Z' ==> r[i] as int == s[i] as int + 32
  {
    seq(|s|, i requires 0 <= i < |s| => Lower(s[i]))
  }

  /** `needle` occurs in `hay` starting at position `i`. */
  ghost predicate OccursAt(hay: string, needle: string, i: int)
  {
    0 <= i && i + |needle| <= |hay| && hay[i..i + |needle|] == needle
  }

  /** `needle` occurs somewhere in `hay`. */
  function Contains(hay: string, needle: string): (r: bool)
    ensures r <==> exists i :: OccursAt(hay, needle, i)
    decreases |hay|
  {
    if needle <= hay then
      assert OccursAt(hay, needle, 0);
      true
    else if hay == [] then false
    else
      var rest := Contains(hay[1..], needle);
      assert forall i :: OccursAt(hay, needle, i) ==> i > 0 && OccursAt(hay[1..], needle, i - 1);
      assert forall j :: OccursAt(hay[1..], needle, j) ==> OccursAt(hay, needle, j + 1);
      rest
  }

  /** `needle` occurs in `hay` once both are folded to lower case. */
  predicate ContainsIgnoringCase(hay: string, needle: string)
  {
    Contains(Lowered(hay), Lowered(needle))
  }

  /** Two texts that differ at most in the case of ASCII letters. */
  ghost predicate SameIgnoringCase(a: string, b: string)
  {
    |a| == |b| && forall i :: 0 <= i < |a| ==> Lower(a[i]) == Lower(b[i])
  }

  /**
   * The search ignores case: changing the case of letters in the field or
   * in the search text never changes whether it is found.
   */
  lemma SearchIgnoresCase(hay: string, hay2: string, needle: string, needle2: string)
    requires SameIgnoringCase(hay, hay2) && SameIgnoringCase(needle, needle2)
    ensures ContainsIgnoringCase(hay, needle) == ContainsIgnoringCase(hay2, needle2)
  {
    assert Lowered(hay) == Lowered(hay2);
    assert Lowered(needle) == Lowered(needle2);
  }

  /** A search text that occurs in the field as written is found. */
  lemma ExactOccurrenceFound(hay: string, needle: string, i: int)
    requires OccursAt(hay, needle, i)
    ensures ContainsIgnoringCase(hay, needle)
  {
    assert hay[i..i + |needle|] == needle;
    assert Lowered(hay)[i..i + |needle|] == Lowered(needle);
    assert OccursAt(Lowered(hay), Lowered(needle), i);
  }

  // ---------------------------------------------------------------------
  // The filter

  /** A query string counts only when it is non-empty. */
  predicate Truthy(s: Option<string>)
  {
    s.Some? && s.value != ""
  }

  /** Builds the filter condition by condition, as the handler does. */
  function BuildWhere(q: ProductQuery): Where
  {
    var search := if Truthy(q.search) then q.search else None;
    var category := if Truthy(q.category) then q.category else None;
    Where(search, category, q.minPrice, q.maxPrice)
  }

  /** A product satisfies every condition the filter holds. */
  predicate Matches(p: Product, w: Where)
  {
    && (w.search.Some? ==>
          ContainsIgnoringCase(p.name, w.search.value) || ContainsIgnoringCase(p.description, w.search.value))
    && (w.category.Some? ==> p.category == w.category.value)
    && (w.minPrice.Some? ==> p.price >= w.minPrice.value)
    && (w.maxPrice.Some? ==> p.price <= w.maxPrice.value)
  }

  // ---------------------------------------------------------------------
  // The listing

  function ProductStamp(p: Product): int
  {
    p.createdAt
  }

  /** `k` is the least of `ids`. */
  predicate IsLeast(k: int, ids: set<int>)
  {
    k in ids && forall j :: j in ids ==> k <= j
  }

  /** A set of ids that holds `x` has a least element. */
  lemma {:induction false} LeastIdExists(ids: set<int>, x: int)
    requires x in ids
    ensures exists k :: IsLeast(k, ids)
    decreases ids
  {
    var rest := ids - {x};
    if y :| y in rest {
      LeastIdExists(rest, y);
      var m :| IsLeast(m, rest);
      var k := if x < m then x else m;
      forall j | j in ids ensures k <= j {
        if j != x { assert j in rest; }
      }
      assert IsLeast(k, ids);
    } else {
      forall j | j in ids ensures x <= j {
        assert j !in rest;
      }
      assert IsLeast(x, ids);
    }
  }

  /** The ids of a set in ascending order, each once. */
  function IdsAscending(ids: set<int>): (r: seq<int>)
    ensures |r| == |ids|
    ensures forall k :: k in r <==> k in ids
    decreases ids
  {
    if y :| y in ids then
      LeastIdExists(ids, y);
      var k :| IsLeast(k, ids);
      [k] + IdsAscending(ids - {k})
    else []
  }

  /** The ids of the products that satisfy the filter. */
  function MatchingIds(products: map<int, Product>, w: Where): set<int>
  {
    set k | k in products && Matches(products[k], w)
  }

  /** The products stored under the given ids, in the same order. */
  function ProductsAt(products: map<int, Product>, ids: seq<int>): (r: seq<Product>)
    requires forall i :: 0 <= i < |ids| ==> ids[i] in products
    ensures |r| == |ids|
    ensures forall i :: 0 <= i < |ids| ==> r[i] == products[ids[i]]
  {
    if ids == [] then [] else [products[ids[0]]] + ProductsAt(products, ids[1..])
  }

  /** Looking up every matching id finds exactly the stored products that satisfy the filter. */
  lemma MatchingLookup(products: map<int, Product>, w: Where, ids: seq<int>)
    requires forall i :: 0 <= i < |ids| ==> ids[i] in MatchingIds(products, w)
    requires forall k :: k in MatchingIds(products, w) ==> k in ids
    ensures forall i :: 0 <= i < |ids| ==> ids[i] in products
    ensures forall k :: k in products && Matches(products[k], w) ==> products[k] in ProductsAt(products, ids)
    ensures forall p :: p in ProductsAt(products, ids) ==> p in products.Values && Matches(p, w)
  {
    var found := ProductsAt(products, ids);
    forall k | k in products && Matches(products[k], w) ensures products[k] in found {
      assert k in MatchingIds(products, w);
      var i :| 0 <= i < |ids| && ids[i] == k;
      assert found[i] == products[k];
    }
    forall p | p in found ensures p in products.Values && Matches(p, w) {
      var i :| 0 <= i < |found| && found[i] == p;
      assert ids[i] in ids;
      assert ids[i] in MatchingIds(products, w);
      assert products[ids[i]] == p;
    }
  }

  /**
   * Every product that satisfies the filter, each once, newest first: the
   * sequence that the listing's pages are cut from.
   */
  function Matching(products: map<int, Product>, w: Where): (r: seq<Product>)
    ensures |r| == |MatchingIds(products, w)|
    ensures forall k :: k in products && Matches(products[k], w) ==> products[k] in r
    ensures forall p :: p in r ==> p in products.Values && Matches(p, w)
    ensures NewestFirst(r, ProductStamp)
  {
    var ids := IdsAscending(MatchingIds(products, w));
    forall i | 0 <= i < |ids| ensures ids[i] in MatchingIds(products, w) {
      assert ids[i] in ids;
    }
    MatchingLookup(products, w, ids);
    var found := ProductsAt(products, ids);
    var sorted := SortNewestFirst(found, ProductStamp);
    assert |sorted| == |multiset(sorted)| == |multiset(found)| == |found|;
    assert forall p :: p in sorted <==> p in multiset(sorted);
    sorted
  }

  /** Number of pages of `limit` items needed for `total` items: the ceiling of their quotient. */
  function PageCount(total: nat, limit: int): (r: nat)
    requires limit > 0
    ensures (r - 1) * limit < total <= r * limit
  {
    var r := (total + limit - 1) / limit;
    assert total + limit - 1 == r * limit + (total + limit - 1) % limit;
    r
  }

  /** The `take` items that follow the first `skip` ones, or fewer at the end. */
  function Window<T>(s: seq<T>, skip: nat, take: nat): (r: seq<T>)
    ensures |r| <= take
    ensures |r| == if skip >= |s| then 0 else if skip + take <= |s| then take else |s| - skip
    ensures forall i :: 0 <= i < |r| ==> r[i] == s[skip + i]
  {
    if skip >= |s| then []
    else if skip + take <= |s| then s[skip..skip + take]
    else s[skip..]
  }

  /** A window of a newest-first sequence is newest first and holds only its elements. */
  lemma WindowOfNewestFirst<T>(s: seq<T>, stamp: T -> int, skip: nat, take: nat)
    requires NewestFirst(s, stamp)
    ensures NewestFirst(Window(s, skip, take), stamp)
    ensures forall x :: x in Window(s, skip, take) ==> x in s
  {
    var w := Window(s, skip, take);
    forall i, j | 0 <= i < j < |w| ensures stamp(w[i]) >= stamp(w[j]) {
      assert w[i] == s[skip + i] && w[j] == s[skip + j];
    }
    forall x | x in w ensures x in s {
      var i :| 0 <= i < |w| && w[i] == x;
      assert s[skip + i] == x;
    }
  }

  function PageOf(q: ProductQuery): int
  {
    if q.page.Some? then q.page.value else DEFAULT_PAGE
  }

  function LimitOf(q: ProductQuery): int
  {
    if q.limit.Some? then q.limit.value else DEFAULT_LIMIT
  }

  /** How many matches come before the requested page. */
  function SkipOf(q: ProductQuery): (r: nat)
    requires WellFormedQuery(q)
    ensures r == (PageOf(q) - 1) * LimitOf(q)
  {
    var page, limit := PageOf(q), LimitOf(q);
    assert (page - 1) * limit >= 0;
    (page - 1) * limit
  }

  /** Page numbers start at 1 and page sizes are positive. */
  predicate WellFormedQuery(q: ProductQuery)
  {
    (q.page.Some? ==> q.page.value >= 1) && (q.limit.Some? ==> q.limit.value > 0)
  }

  /**
   * The listing: the products matching the filter, newest first, with
   * `skip = (page - 1) * limit` and at most `limit` of them on the page;
   * `total` counts every match and `pages` is the ceiling of total / limit.
   */
  function ListProducts(products: map<int, Product>, q: ProductQuery): (r: ProductPage)
    requires WellFormedQuery(q)
    ensures forall p :: p in r.products ==> p in products.Values && Matches(p, BuildWhere(q))
    ensures NewestFirst(r.products, ProductStamp)
    ensures |r.products| <= LimitOf(q)
    ensures r.products == Window(Matching(products, BuildWhere(q)), SkipOf(q), LimitOf(q))
    ensures r.total == |MatchingIds(products, BuildWhere(q))|
    ensures r.page == PageOf(q)
    ensures (r.pages - 1) * LimitOf(q) < r.total <= r.pages * LimitOf(q)
  {
    var all := Matching(products, BuildWhere(q));
    WindowOfNewestFirst(all, ProductStamp, SkipOf(q), LimitOf(q));
    ProductPage(Window(all, SkipOf(q), LimitOf(q)), |all|, PageOf(q), PageCount(|all|, LimitOf(q)))
  }

  /**
   * Every listed product satisfies each condition the query switched on:
   * a non-empty search text occurs in its name or description ignoring
   * case, a non-empty category is its category, and the price bounds hold
   * inclusively.
   */
  lemma ListedProductsMatchQuery(products: map<int, Product>, q: ProductQuery, p: Product)
    requires WellFormedQuery(q)
    requires p in ListProducts(products, q).products
    ensures p in products.Values
    ensures Truthy(q.search) ==>
      ContainsIgnoringCase(p.name, q.search.value) || ContainsIgnoringCase(p.description, q.search.value)
    ensures Truthy(q.category) ==> p.category == q.category.value
    ensures q.minPrice.Some? ==> q.minPrice.value <= p.price
    ensures q.maxPrice.Some? ==> p.price <= q.maxPrice.value
  {
  }

  /**
   * The pages cover the matches: the product at position `j` of the
   * newest-first matches is on page `j / limit + 1`, which is within the
   * page count, at position `j % limit`.
   */
  lemma PageCovers<T>(all: seq<T>, limit: int, j: int)
    requires limit > 0 && 0 <= j < |all|
    ensures 1 <= j / limit + 1 <= PageCount(|all|, limit)
    ensures var w := Window(all, (j / limit) * limit, limit);
            j % limit < |w| && w[j % limit] == all[j]
  {
    PositionOnPage(j, limit, |all|);
    var w := Window(all, (j / limit) * limit, limit);
    assert w[j % limit] == all[(j / limit) * limit + j % limit];
  }

  /** Position `j` below `total` lies on page `j / limit + 1`, within the page count, at offset `j % limit`. */
  lemma PositionOnPage(j: nat, limit: int, total: nat)
    requires limit > 0 && j < total
    ensures 0 <= j / limit < PageCount(total, limit)
    ensures (j / limit) * limit + j % limit == j && 0 <= j % limit < limit
  {
    var q, m := j / limit, j % limit;
    assert j == q * limit + m && 0 <= m < limit;
    var pages := PageCount(total, limit);
    assert q * limit < pages * limit;
    ScaledBelow(q, pages, limit);
  }

  /** Scaling by a positive factor keeps a strict order. */
  lemma ScaledBelow(a: int, b: int, c: int)
    requires c > 0 && a * c < b * c
    ensures a < b
  {
    assert (b - a) * c == b * c - a * c;
  }

  /** Fetching one product: the product under that id, or 404. */
  function GetProduct(products: map<int, Product>, id: int): (r: ProductLookup)
    ensures r.ProductNotFound? <==> id !in products
    ensures r.ProductFound? ==> r.product == products[id]
  {
    if id in products then ProductFound(products[id]) else ProductNotFound
  }

  // ---------------------------------------------------------------------
  // Partial update

  /** A number in the body counts only when it is present and not zero. */
  predicate TruthyNumber(n: Option<int>)
  {
    n.Some? && n.value != 0
  }

  /** The product after a partial update, field by field as the handler passes them on. */
  function ApplyUpdate(p: Product, b: UpdateBody): Product
  {
    Product(
      p.id,
      if b.name.Some? then b.name.value else p.name,
      if b.description.Some? then b.description.value else p.description,
      if TruthyNumber(b.price) then b.price.value else p.price,
      if TruthyNumber(b.stock) then b.stock.value else p.stock,
      if b.category.Some? then b.category.value else p.category,
      if b.imageUrl.Some? then b.imageUrl.value else p.imageUrl,
      p.createdAt)
  }

  /**
   * What a partial update promises: a field the body leaves out keeps its
   * value, price and stock also keep theirs when the body gives 0, a field
   * the body does give takes that value, and the id and creation time
   * never change.
   */
  lemma UpdateKeepsUnsentFields(p: Product, b: UpdateBody)
    ensures var r := ApplyUpdate(p, b);
      && r.id == p.id && r.createdAt == p.createdAt
      && (b.name.None? ==> r.name == p.name)
      && (b.description.None? ==> r.description == p.description)
      && (b.category.None? ==> r.category == p.category)
      && (b.imageUrl.None? ==> r.imageUrl == p.imageUrl)
      && (b.price.None? || b.price == Some(0) ==> r.price == p.price)
      && (b.stock.None? || b.stock == Some(0) ==> r.stock == p.stock)
    ensures var r := ApplyUpdate(p, b);
      && (b.name.Some? ==> r.name == b.name.value)
      && (b.description.Some? ==> r.description == b.description.value)
      && (b.category.Some? ==> r.category == b.category.value)
      && (b.imageUrl.Some? ==> r.imageUrl == b.imageUrl.value)
      && (b.price.Some? && b.price.value != 0 ==> r.price == b.price.value)
      && (b.stock.Some? && b.stock.value != 0 ==> r.stock == b.stock.value)
  {
  }

  /** A body that sets nothing, or sets only price and stock to 0, leaves the product as it was. */
  lemma ZeroOrAbsentUpdateKeepsProduct(p: Product, price: Option<int>, stock: Option<int>)
    requires !TruthyNumber(price) && !TruthyNumber(stock)
    ensures ApplyUpdate(p, UpdateBody(None, None, price, stock, None, None)) == p
  {
  }

  /** Applying the same update twice gives the same product as applying it once. */
  lemma UpdateIdempotent(p: Product, b: UpdateBody)
    ensures ApplyUpdate(ApplyUpdate(p, b), b) == ApplyUpdate(p, b)
  {
  }
}
