# Product catalogue of stable-isr, in Dafny

stable-isr is a demonstration of page caching and on-demand revalidation in a
web framework. The only logic the repository implements itself is its mock
data layer, `lib/data.ts`: a module-level array `productsDB` of six `Product`
records and five operations on it — `getAllProducts`, `getProductById`,
`getProductsByCategory`, `getCategories` and `updateProduct`. This project
models that data layer and proves what each operation returns and how the
table changes.

- `catalog.dfy`, module `Catalog`: the `Product` record (price in integer
  cents), `ProductUpdate` for `Partial<Product>` (each field optional; an absent
  field keeps the old value), the seeded table, and the operations as functions
  of the table contents. These include `find`, `findIndex`, `filter` and
  insertion-ordered `Set` de-duplication. `Positions` and `IndexOf` are
  reference definitions: the rows a category filter must keep, and where a
  value first appears. `Update` gives the table after `updateProduct` together
  with the value it returns.
- `products_db.dfy`, module `ProductsDB`: class `ProductTable`, whose `const
  rows: array<Product>` is `productsDB`. The array reference never changes and
  its elements are overwritten in place. The four read operations are methods
  without a `modifies` clause, so Dafny checks that they leave the table
  unchanged. `UpdateProduct` does the `findIndex` and overwrites one element of
  the array. It is proved to produce exactly the table and result that
  `Catalog.Update` describes.

The clock (`new Date().toISOString()`) is a `now: Timestamp` parameter of
each operation. The constructor's `now` stands for the module-load time that
stamps the seeded rows.

## Model

| member | source | states |
|---|---|---|
| `Catalog.ApplyUpdate` | lib/data.ts:112-116 | each field of the new record comes from the update when supplied and from the old record otherwise; `lastUpdated` is always the new timestamp, even when the update supplies one |
| `Catalog.ApplyUpdateIdempotent` | lib/data.ts:112-116 | merging the same partial update twice at the same time gives the same record as merging it once |
| `Catalog.ApplyUpdateCombine` | lib/data.ts:112-116 | two successive merges equal one merge of `{ ...u1, ...u2 }` at the later time: later keys win |
| `Catalog.ApplyNoChanges` | lib/data.ts:112-116 | merging the empty update `{}` changes only `lastUpdated` |
| `Catalog.FindIndex` | lib/data.ts:109 | `findIndex` gives -1 exactly when no row has the id; otherwise it gives the first index whose row has the id |
| `Catalog.Find` | lib/data.ts:83 | `find` gives nothing exactly when no row has the id; otherwise it gives the row at the first index with that id |
| `Catalog.FirstWithIdUnique` | lib/data.ts:83 | at most one index is the first match for an id |
| `Catalog.FindAgreesWithFindIndex` | lib/data.ts:83 | `find` returns the row at the index `findIndex` reports, and nothing when it reports -1 |
| `Catalog.Positions` | lib/data.ts:95 | the reference selection for a category: strictly increasing indices, each of a row in the category, and every row in the category is among them |
| `Catalog.PositionsStep` | lib/data.ts:95 | extending the table by one row extends the reference selection by that row's index exactly when the row is in the category |
| `Catalog.InCategory` | lib/data.ts:94-95 | `filter` keeps exactly the rows at `Positions`, in stored order |
| `Catalog.IndexOf` | lib/data.ts:103 | the first index of a value, or -1 exactly when it is absent; no earlier index holds it |
| `Catalog.IndexOfAppend` | lib/data.ts:103 | appending to a list does not move the first occurrence of a value already present |
| `Catalog.Distinct` | lib/data.ts:103 | `Array.from(new Set(xs))` keeps values in insertion order, each once: it is no longer than `xs` and, for non-empty `xs`, starts with `xs[0]` (the full characterisation is `DistinctSpec`) |
| `Catalog.DistinctSnoc` | lib/data.ts:103 | `Array.from(new Set(xs))` takes the values one at a time and appends a value only when it is not already present |
| `Catalog.DistinctSpec` | lib/data.ts:103 | `Array.from(new Set(xs))` has no duplicates, holds exactly the values of `xs`, and lists them in order of first appearance |
| `Catalog.CategoryList` | lib/data.ts:103 | `productsDB.map(p => p.category)` has one entry per row, holding that row's category |
| `Catalog.PositionsByCategoryList` | lib/data.ts:94-95 | which rows the category filter keeps depends only on the rows' categories |
| `Catalog.AllProducts` | lib/data.ts:72-79 | one record per stored row, in stored order, equal to the stored row except that `lastUpdated` is the fetch time |
| `Catalog.ProductById` | lib/data.ts:81-90 | null exactly when no row has the id; otherwise the first row with the id, with only `lastUpdated` replaced |
| `Catalog.ProductsByCategory` | lib/data.ts:92-100 | exactly the rows in the category, in stored order, each with only `lastUpdated` replaced |
| `Catalog.Categories` | lib/data.ts:102-104 | every category present in the table exactly once, and no other value, in order of first appearance |
| `Catalog.Seed` | lib/data.ts:12-67 | the six seeded rows field for field (price in cents), each stamped with the load time; their ids are pairwise different |
| `Catalog.SeedCategories` | lib/data.ts:12-67 | on the seeded table the categories are Electronics, Accessories, Audio |
| `Catalog.ProductByIdInAllProducts` | lib/data.ts:81-90 | the id lookup returns the element of `getAllProducts` at the first matching index, or null when `findIndex` gives -1 |
| `Catalog.ByCategoryIsFilteredAll` | lib/data.ts:92-100 | the category query equals filtering the output of `getAllProducts` by that category |
| `Catalog.ListedIffNonEmpty` | lib/data.ts:92-104 | a category is listed by `getCategories` exactly when the category query returns at least one row |
| `Catalog.Update` | lib/data.ts:107-119 | with no row matching the id: the result is null and the table is unchanged; otherwise only the element at the first matching index is rewritten with the merged record, the length is kept, and the returned value is that new element |
| `Catalog.UpdateThenRead` | lib/data.ts:107-119 | after a successful update whose id field is absent or equal to the looked-up id, looking the id up returns the updated row, restamped with the time of the read |
| `Catalog.UpdateIdempotent` | lib/data.ts:107-119 | repeating an update whose id field is absent or equal to the looked-up id, at the same time, leaves the table as the first update left it |
| `Catalog.UpdateKeepsCategories` | lib/data.ts:102-119 | an update that does not supply a category leaves `getCategories` unchanged |
| `ProductsDB.ProductTable.constructor` | lib/data.ts:12-67 | the table starts as a fresh array holding the six seeded rows |
| `ProductsDB.ProductTable.GetAllProducts` | lib/data.ts:72-79 | reads the array and modifies nothing; returns each stored row, in order, with `lastUpdated` set to the fetch time |
| `ProductsDB.ProductTable.GetProductById` | lib/data.ts:81-90 | modifies nothing; returns null exactly when no stored row has the id, else the first such row restamped |
| `ProductsDB.ProductTable.GetProductsByCategory` | lib/data.ts:92-100 | modifies nothing; returns exactly the stored rows in the category, in order, restamped |
| `ProductsDB.ProductTable.GetCategories` | lib/data.ts:102-104 | modifies nothing; returns exactly `Catalog.Categories` of the stored rows: each stored category once, in order of first appearance (so `SeedCategories` and `UpdateKeepsCategories` apply to the table) |
| `ProductsDB.ProductTable.UpdateProduct` | lib/data.ts:107-119 | overwrites in place only the array element `Catalog.Update` rewrites, and returns what it returns: null and no change when the id is missing |

## Left out

- The simulated network latency (`delay`, `setTimeout`) and the `async`/`Promise` wrapping. Each async operation reads or writes the table in one synchronous step after its delay; `getCategories` is synchronous, has no delay and reads the table at once. So a run of overlapping calls corresponds to the model's calls taken in the order those steps happen, not the order the calls were made (a `getAllProducts` started shortly before an `updateProduct` can see the update, because its delay is longer).
- The clock: `new Date().toISOString()` is an opaque `Timestamp` parameter.
- `Catalog.AllProducts`: one timestamp stamps every row of a call. The source calls `new Date()` once per row, so rows fetched across a millisecond tick can carry different times. The same holds for `Catalog.ProductsByCategory` and for the six seeded rows.
- `Catalog.Seed`: `price` and `stock` are JavaScript numbers (floating point). `price` is held as integer cents and `stock` as an integer, because no operation does arithmetic on either or inspects them.
- `Catalog.ApplyUpdate`: a `Partial<Product>` key that is present but holds `undefined` overwrites the field with `undefined` in the source. The model treats every supplied field as a real value. Keys that are not fields of `Product` (allowed by TypeScript when the argument is not an object literal) are copied into the stored row by the spread; `ProductUpdate` cannot hold them, so the model does not capture them.
- `ProductsDB.ProductTable.UpdateProduct`: the source returns the stored object itself, so a caller that mutates it changes the table. The model returns a value and does not capture this aliasing.
- The server actions in app/actions/revalidate.ts, the pages, and next.config.ts: they call the data layer (`updateProductStock` calls `updateProduct` with a stock-only update and branches on a null result; the pages call the read operations), call the framework's cache functions (`revalidateTag`, `revalidatePath`) and render UI. Only the data layer is modelled; the framework's cache functions are not part of this model.
- Tag-based cache invalidation and stale-while-revalidate: the framework runtime carries them out, and the repository does not implement them.
