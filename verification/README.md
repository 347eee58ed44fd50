# Store back end: orders, catalog and profiles

This project models the route handlers of a small e-commerce back end and
proves properties about them. The back end serves orders, a product
catalog and user profiles over a relational store. In the model, the
store's tables are Dafny values:

- a product map keyed by id;
- an order sequence in insertion order;
- a user map keyed by id.

A single clock stamps every row that is created and only ever moves
forward.

- `Domain` (`domain.dfy`) holds the entities and the helpers shared by the
  handlers:
  - products, order items, orders, users and the authenticated requester;
  - an order's total;
  - the user filter on the order table.
- `Recency` (`recency.dfy`) is the newest-first ordering that listings use.
  It is an insertion sort proved to return a permutation of its input,
  ordered by creation time, newest first.
- `OrderRoutes` (`orders.dfy`) models order placement and the order
  queries.
  - Validation checks each requested line in request order. It stops at
    the first unknown product (404) or the first line whose quantity
    exceeds the product's stock (400). Otherwise it snapshots each
    product's price into the order line and accumulates the total.
  - Two behaviours of the handler are kept as written:
    - Every line is checked against the stock as it was before the order.
      The decrements happen afterwards, one line at a time. Two lines
      naming the same product are therefore not added together, and the
      stock can go negative: `RepeatedLinesCanOversell` exhibits this.
    - A quantity's sign is never checked, so a negative quantity passes and
      adds stock back: `NegativeQuantityRestocks` exhibits this.
  - The queries are pure functions of the order table:
    - listing shows an administrator every order and anyone else their
      own, newest first;
    - fetching one order answers 404 before it checks ownership (403).
- `ProductRoutes` (`products.dfy`) models the catalog listing and the
  single-product lookup.
  - The listing's filter has four optional parts:
    - a case-insensitive search on name or description;
    - an exact category;
    - inclusive minimum and maximum prices.
  - Search and category count only when the text is non-empty.
  - The matches are ordered newest first and cut into a page with
    `skip = (page - 1) * limit` and `take = limit`.
  - The pagination block counts every match and reports
    `pages = ceil(total / limit)`.
  - The defaults are page 1 and limit 10.
  - The pure part of the partial update is here too: a field left out of
    the body keeps its value, and so do a price or stock of 0.
- `UserRoutes` (`users.dfy`) models the profile read. Only the user or an
  administrator may read a profile (403 otherwise, before any lookup), and
  a missing user answers 404. The answer exposes id, email, name, role,
  creation time and the user's five newest orders, and never the password
  hash.
- `Backend` (`store.dfy`) is the class `Store` that holds the tables and
  the handlers that change them. Its invariant `Valid` says:
  - each row is keyed by its own id;
  - ids and timestamps come from counters;
  - ids and timestamps increase along the order table;
  - each stored order's total is the sum over its lines.

  Its handlers:
  - `PlaceOrder` validates an order, then runs `Commit`, the all-or-nothing
    write. `Commit` appends one PENDING order and takes each line's
    quantity off its product in a loop.
  - `CreateProduct`, `UpdateProduct` and `DeleteProduct` change the product
    map and nothing else.
  - Updating or deleting an id with no product fails the store write,
    answered with 500, and changes nothing.

Status codes are carried by each answer's `Code()`: 201, 400, 404, 403,
200 and 500 as the handlers send them.

## Model

| member | source | states |
|---|---|---|
| Domain.OrdersOf | routes/orders.js:89-91 | an order is kept, as often as it occurs, exactly when it belongs to the given user |
| Recency.SortNewestFirst | routes/orders.js:109 | the result is a permutation of the input, ordered by creation time, newest first |
| Recency.PrefixIsNewest | routes/users.js:26-27 | in a newest-first sequence, nothing left out of a prefix is newer than something in it |
| OrderRoutes.CheckMeaning | routes/orders.js:20-38 | the order passes exactly when every line names an existing product with stock at least the quantity. On success there is one line per request, in request order, carrying the product id, the quantity and the price read. On failure the answer names the first failing line and its reason (missing product, or short of stock) |
| OrderRoutes.CheckFailurePersists | routes/orders.js:20-31 | once a prefix of the request fails, the whole request fails with the same answer, so the later lines cannot change a refusal |
| OrderRoutes.ValidateItems | routes/orders.js:17-39 | the validation loop stops at the first failing line with the answer the check gives; on success its running total is the sum of price × quantity over the snapshotted lines |
| OrderRoutes.TotalAppend | routes/orders.js:33 | adding a line adds its price × quantity to the total |
| OrderRoutes.Decremented | routes/orders.js:63-72 | the per-line decrements keep every product id and change nothing but stock |
| OrderRoutes.DecrementedStock | routes/orders.js:63-72 | each product's stock afterwards is its stock before minus the summed quantity of the lines naming it |
| OrderRoutes.UnnamedProductUntouched | routes/orders.js:63-72 | a product that no line names keeps its whole record |
| OrderRoutes.QuantityOfDistinct | routes/orders.js:63-72 | with distinct product ids, a product's summed quantity is that of its one line, or 0 |
| OrderRoutes.NoOversellWhenDistinct | routes/orders.js:29-72 | when stocks are non-negative, ids are distinct and the order passes, no stock goes negative |
| OrderRoutes.RepeatedLinesCanOversell | routes/orders.js:29-72 | two lines of 1 for a product with stock 1 both pass the check, and the stock ends at -1 |
| OrderRoutes.NegativeQuantityRestocks | routes/orders.js:29-72 | a line with quantity -3 passes at stock 0; the order totals -3 × price and the stock rises to 3 |
| OrderRoutes.ListOrders | routes/orders.js:87-110 | an order is listed, as often as stored, exactly when the requester is an administrator or owns it; the list is newest first |
| OrderRoutes.FindOrder | routes/orders.js:121-141 | no result exactly when no stored order has that id; a result is a stored order with that id |
| OrderRoutes.GetOrder | routes/orders.js:139-148 | 404 exactly when no order has that id. Found means a stored order with that id that the requester may see (administrator or owner). 403 means such an order exists but the requester is neither administrator nor owner. An administrator is never refused |
| OrderRoutes.FetchStoredOrder | routes/orders.js:139-148 | with unique ids, fetching a stored order by its id returns it to its owner or an administrator and refuses anyone else |
| ProductRoutes.Lowered | routes/products.js:16-17 | folding keeps the length, leaves no ASCII capital, turns each capital into its lower-case letter and keeps every other character |
| ProductRoutes.SearchIgnoresCase | routes/products.js:16-17 | changing the case of letters in the field or in the search text never changes whether the search finds it |
| ProductRoutes.ExactOccurrenceFound | routes/products.js:16-17 | a search text that occurs in the field as written is found |
| ProductRoutes.Contains | routes/products.js:16-17 | true exactly when the text occurs somewhere in the field |
| ProductRoutes.Matching | routes/products.js:33-40 | one entry per matching product id. Every product that matches is listed, and every listed product is in the catalog and matches. The list is newest first |
| ProductRoutes.PageCount | routes/products.js:48 | the page count is the ceiling of total / limit: `(pages - 1) * limit < total <= pages * limit` |
| ProductRoutes.Window | routes/products.js:36-37 | the page holds at most `take` items; they are the items from position `skip` on, in order |
| ProductRoutes.WindowOfNewestFirst | routes/products.js:34-39 | a page cut from a newest-first list is itself newest first |
| ProductRoutes.SkipOf | routes/products.js:31 | the offset is `(page - 1) * limit`, with the defaults page 1 and limit 10 |
| ProductRoutes.ListProducts | routes/products.js:8-50 | The page is the slice `[skip, skip + limit)` of the matching products sorted newest first; it holds at most `limit` products, each in the catalog and matching the filter. `total` counts every match and `page` echoes the query. `pages` is the ceiling of total / limit |
| ProductRoutes.ListedProductsMatchQuery | routes/products.js:14-29 | every listed product satisfies each condition the query switched on. A non-empty search occurs in name or description, ignoring case. A non-empty category is equal. The price bounds hold inclusively |
| ProductRoutes.PageCovers | routes/products.js:31-48 | every match appears on some page within the page count, at the position that page's offset predicts |
| ProductRoutes.GetProduct | routes/products.js:59-65 | 404 exactly when no product has that id; otherwise that product |
| ProductRoutes.UpdateKeepsUnsentFields | routes/products.js:98-110 | a field the body leaves out keeps its value, and so do price and stock when they are 0. A field the body gives takes that value. Id and creation time never change |
| ProductRoutes.ZeroOrAbsentUpdateKeepsProduct | routes/products.js:105-106 | a body that sets nothing, or only price and stock to 0, leaves the product as it was |
| ProductRoutes.UpdateIdempotent | routes/products.js:100-110 | applying the same update twice gives the same product as applying it once |
| UserRoutes.NewestPrefix | routes/users.js:25-27 | a prefix of the user's orders sorted newest first takes no order more often than the user has it, holds only that user's stored orders, is newest first, and nothing of theirs left out is newer |
| UserRoutes.RecentOrders | routes/users.js:25-30 | the user's five newest orders, or all of them when there are fewer: a sub-multiset of that user's orders (so no order is repeated beyond how often it is stored), newest first, and no order of theirs left out is newer than one shown |
| UserRoutes.GetUser | routes/users.js:8-39 | 403 exactly when the requester is neither that user nor an administrator; 404 exactly when access is allowed and the user is missing. Otherwise the account's id, email, name, role and creation time, and as orders exactly that user's recent orders: min(5, n) of their n orders, a sub-multiset of them, newest first, with none left out newer than one shown |
| UserRoutes.ProfileHidesPasswordHash | routes/users.js:19-31 | two stores that differ only in the user's password hash give the same answer |
| Backend.AppendKeepsOrderLog | routes/orders.js:44-52 | appending an order stamped with the next id and the clock keeps ids and timestamps increasing and totals equal to the line sums |
| Backend.DecrementedKeepsCatalog | routes/orders.js:63-72 | taking stock off products keeps every product under its own id with its creation time, so the catalog stays well formed |
| Backend.StoredOrderFetch | routes/orders.js:139-148 | in a well-formed store every order is fetched by its id: its owner and administrators get it, everyone else gets 403 |
| Backend.Store.PlaceOrder | routes/orders.js:8-77 | A missing or empty item list answers 400 and changes nothing. The first unknown product answers 404 and the first short line 400, and neither changes anything. Otherwise exactly one PENDING order is appended, with the requester as owner, the snapshotted lines and their total. Each named product loses its lines' quantities. The store invariant is kept |
| Backend.Store.Commit | routes/orders.js:42-75 | the transaction appends the order with the next id and the current time, then takes each line's quantity off its product in request order; users are untouched and the invariant is kept |
| Backend.Store.TakeStock | routes/orders.js:63-72 | the decrement loop leaves the catalog exactly as the per-line decrements in request order describe, and changes no other table |
| Backend.Store.CreateProduct | routes/products.js:74-89 | one product with the given fields is added under an id that was free; no other product, order or user changes |
| Backend.Store.UpdateProduct | routes/products.js:96-112 | an existing product is replaced by its partial update and no other row changes; a missing id fails with 500 and nothing changes |
| Backend.Store.DeleteProduct | routes/products.js:119-125 | an existing product is removed and nothing else; a missing id fails with 500 and nothing changes |

## Left out

- Money: prices and totals are integers in minor units. The handlers compute with `parseFloat` in floating point, and that rounding is not modelled.
- Number parsing: query and path parameters are taken as typed integers. `parseInt`/`parseFloat` of malformed text, and the resulting `NaN`, are not modelled.
- ProductRoutes.ListProducts: requires page ≥ 1 and limit > 0. With a page below 1 the handler would pass a negative `skip` to the store, and with limit 0 it would divide by zero in the page count. Neither case is modelled.
- Listing query: an empty `minPrice` or `maxPrice` is modelled as absent. A price bound is therefore applied whenever one is given, including 0, because the text "0" is non-empty.
- ProductRoutes.Contains: case folding covers ASCII letters only. The database's case-insensitive mode depends on its collation.
- Update body: price and stock are integers, so 0 is the only value treated as "not sent". A body carrying them as strings, where "0" would count as sent, is not modelled.
- OrderRoutes.CheckMeaning: a refusal for short stock carries the product id, where the handler's message names the product by name.
- Included relations (each order line's product, the order's user summary, the orders' items inside a profile) are modelled as ids and stored values. The product snapshot returned inside a new order is not modelled.
- Store failures other than a write to a missing product row (lost connections, constraint violations, the handlers' generic 500 path) are not modelled.
- Deleting a product that order lines still reference: the database schema (`prisma/schema.prisma`) is not part of this model, so referential actions are not modelled.
- Product creation takes every field as given. Missing or ill-typed fields that the store would reject are not modelled.
- Authentication and the administrator gate (`verifyToken`, `isAdmin`) are not modelled. The requester's id and role are inputs, and the product write handlers are modelled as already past the administrator check.
- Concurrency: handlers run one at a time. The window between an order's validation and its decrements under concurrent requests is not modelled.
- Timestamps come from the store's own clock, so no two rows share a creation time. The order the database gives to equal timestamps is not modelled.
- Server start-up, CORS and signal handling (`index.js`), the seeding script (`prisma/seed.js`) and password hashing (`utils/password.js`) are not part of this model.
