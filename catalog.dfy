/** The mock product catalogue of lib/data.ts, as values.

    The table is a sequence of `Product` records. Every read operation is a
    function of that sequence (and of the fetch timestamp), so none of them can
    change it; the in-place update is described here by `Update`, which gives
    the new table and the returned record, and is carried out on an array by
    `ProductsDB.ProductTable.UpdateProduct`.
 */
module Catalog {

  datatype Option<T> = None | Some(value: T)

  /** An ISO-8601 date string; the model never looks inside it. */
  type Timestamp = string

  /** One row of the table. The price is held in integer cents. */
  datatype Product = Product(
    id: string,
    name: string,
    description: string,
    priceCents: int,
    stock: int,
    category: string,
    lastUpdated: Timestamp)

  /** `Partial<Product>`: `None` means the key is absent from the update object. */
  datatype ProductUpdate = ProductUpdate(
    id: Option<string>,
    name: Option<string>,
    description: Option<string>,
    priceCents: Option<int>,
    stock: Option<int>,
    category: Option<string>,
    lastUpdated: Option<Timestamp>)

  /** The empty update object `{}`. */
  const NoChanges := ProductUpdate(None, None, None, None, None, None, None)

  function Or<T>(o: Option<T>, fallback: T): (r: T) {
    if o.Some? then o.value else fallback
  }

  /** `{ ...p, ...u, lastUpdated: now }`: each field comes from the update when it
      is supplied and from the old record otherwise, except the timestamp, which
      is always the new one. */
  function ApplyUpdate(p: Product, u: ProductUpdate, now: Timestamp): (r: Product)
    ensures r.id == (if u.id.Some? then u.id.value else p.id)
    ensures r.name == (if u.name.Some? then u.name.value else p.name)
    ensures r.description == (if u.description.Some? then u.description.value else p.description)
    ensures r.priceCents == (if u.priceCents.Some? then u.priceCents.value else p.priceCents)
    ensures r.stock == (if u.stock.Some? then u.stock.value else p.stock)
    ensures r.category == (if u.category.Some? then u.category.value else p.category)
    ensures r.lastUpdated == now
  {
    Product(Or(u.id, p.id), Or(u.name, p.name), Or(u.description, p.description),
            Or(u.priceCents, p.priceCents), Or(u.stock, p.stock),
            Or(u.category, p.category), now)
  }

  /** `{ ...u1, ...u2 }`: the keys of the later object win. */
  function Combine(u1: ProductUpdate, u2: ProductUpdate): (u: ProductUpdate) {
    ProductUpdate(
      if u2.id.Some? then u2.id else u1.id,
      if u2.name.Some? then u2.name else u1.name,
      if u2.description.Some? then u2.description else u1.description,
      if u2.priceCents.Some? then u2.priceCents else u1.priceCents,
      if u2.stock.Some? then u2.stock else u1.stock,
      if u2.category.Some? then u2.category else u1.category,
      if u2.lastUpdated.Some? then u2.lastUpdated else u1.lastUpdated)
  }

  // The seeded descriptions, named so that the verifier only spells them out
  // where a proof looks at them.
  const KeyboardText: string := "A comfortable keyboard designed for long typing sessions with split layout."
  const MouseText: string := "Precision wireless mouse with customizable buttons and long battery life."
  const HubText: string := "7-in-1 USB-C hub with HDMI, USB 3.0, SD card reader, and more."
  const StandText: string := "Adjustable aluminum laptop stand for better posture and cooling."
  const HeadphonesText: string := "Premium over-ear headphones with active noise cancellation."
  const WebcamText: string := "1080p webcam with auto-focus and built-in microphone."

  /** The seeded table; every row carries the module-load timestamp `now`. The
      ids are pairwise different, so each id names one row. */
  function Seed(now: Timestamp): (db: seq<Product>)
    ensures |db| == 6
    ensures forall i :: 0 <= i < |db| ==> db[i].lastUpdated == now
    ensures forall i, j :: 0 <= i < j < |db| ==> db[i].id != db[j].id
  {
    [ Product("1", "Ergonomic Keyboard", KeyboardText,
              12999, 15, "Electronics", now),
      Product("2", "Wireless Mouse", MouseText,
              4999, 32, "Electronics", now),
      Product("3", "USB-C Hub", HubText,
              5999, 8, "Accessories", now),
      Product("4", "Laptop Stand", StandText,
              3999, 24, "Accessories", now),
      Product("5", "Noise-Cancelling Headphones", HeadphonesText,
              29999, 12, "Audio", now),
      Product("6", "Webcam HD", WebcamText,
              7999, 18, "Electronics", now) ]
  }

  // ---------------------------------------------------------------------------
  // Lookup by id: `find` and `findIndex`
  // ---------------------------------------------------------------------------

  /** `k` is the first index whose record has the given id. */
  ghost predicate FirstWithId(db: seq<Product>, id: string, k: int) {
    0 <= k < |db| && db[k].id == id && forall j :: 0 <= j < k ==> db[j].id != id
  }

  /** `db.findIndex(p => p.id === id)`: the first matching index, or -1. */
  function FindIndex(db: seq<Product>, id: string): (r: int)
    ensures -1 <= r < |db|
    ensures r == -1 <==> forall i :: 0 <= i < |db| ==> db[i].id != id
    ensures r != -1 ==> FirstWithId(db, id, r)
  {
    if db == [] then -1
    else if db[0].id == id then 0
    else
      var k := FindIndex(db[1..], id);
      if k == -1 then -1 else k + 1
  }

  /** `db.find(p => p.id === id)`: the first matching record, or nothing. */
  function Find(db: seq<Product>, id: string): (r: Option<Product>)
    ensures r.None? <==> forall i :: 0 <= i < |db| ==> db[i].id != id
    ensures r.Some? ==> exists k :: FirstWithId(db, id, k) && r.value == db[k]
  {
    if db == [] then None
    else if db[0].id == id then Some(db[0])
    else
      var r := Find(db[1..], id);
      assert r.Some? ==> exists k :: FirstWithId(db, id, k) && r.value == db[k] by {
        if r.Some? {
          var k :| FirstWithId(db[1..], id, k) && r.value == db[1..][k];
          assert FirstWithId(db, id, k + 1);
        }
      }
      r
  }

  /** Only one index can be the first match. */
  lemma FirstWithIdUnique(db: seq<Product>, id: string, k: int, l: int)
    requires FirstWithId(db, id, k) && FirstWithId(db, id, l)
    ensures k == l
  {
  }

  /** `find` returns the record at the index `findIndex` reports. */
  lemma FindAgreesWithFindIndex(db: seq<Product>, id: string)
    ensures Find(db, id) == if FindIndex(db, id) == -1 then None else Some(db[FindIndex(db, id)])
  {
    var r, k := Find(db, id), FindIndex(db, id);
    if r.Some? {
      var m :| FirstWithId(db, id, m) && r.value == db[m];
      FirstWithIdUnique(db, id, k, m);
    }
  }

  // ---------------------------------------------------------------------------
  // Filtering by category
  // ---------------------------------------------------------------------------

  /** `ps` lists, in increasing order, exactly the indices of the rows of `db`
      in category `c`. */
  ghost predicate CategoryPositions(db: seq<Product>, c: string, ps: seq<nat>) {
    && (forall k :: 0 <= k < |ps| ==> ps[k] < |db| && db[ps[k]].category == c)
    && (forall k, l :: 0 <= k < l < |ps| ==> ps[k] < ps[l])
    && (forall i :: 0 <= i < |db| && db[i].category == c ==> i in ps)
  }

  /** The indices of the rows in category `c`: the reference for what `filter`
      must keep. */
  function Positions(db: seq<Product>, c: string): (ps: seq<nat>)
    ensures CategoryPositions(db, c, ps)
  {
    if db == [] then []
    else
      var ps := Positions(db[..|db| - 1], c);
      PositionsStep(db, c, ps);
      ps + (if db[|db| - 1].category == c then [|db| - 1] else [])
  }

  /** The inductive step of `Positions`: one more row at the end. */
  lemma PositionsStep(db: seq<Product>, c: string, ps: seq<nat>)
    requires db != [] && CategoryPositions(db[..|db| - 1], c, ps)
    ensures CategoryPositions(db, c, ps + (if db[|db| - 1].category == c then [|db| - 1] else []))
  {
    var n := |db| - 1;
    forall k | 0 <= k < |ps| ensures ps[k] < n && db[ps[k]] == db[..n][ps[k]] { }
    forall i | 0 <= i < n && db[i].category == c ensures i in ps {
      assert db[..n][i] == db[i];
    }
  }

  /** `db.filter(p => p.category === c)`. */
  function InCategory(db: seq<Product>, c: string): (r: seq<Product>)
    ensures |r| == |Positions(db, c)|
    ensures forall k :: 0 <= k < |r| ==> r[k] == db[Positions(db, c)[k]]
  {
    if db == [] then []
    else
      var r := InCategory(db[..|db| - 1], c);
      InCategoryStep(db, c, r);
      r + (if db[|db| - 1].category == c then [db[|db| - 1]] else [])
  }

  /** The inductive step of `InCategory`: one more row at the end. */
  lemma InCategoryStep(db: seq<Product>, c: string, r: seq<Product>)
    requires db != []
    requires |r| == |Positions(db[..|db| - 1], c)|
    requires forall k :: 0 <= k < |r| ==> r[k] == db[..|db| - 1][Positions(db[..|db| - 1], c)[k]]
    ensures var r' := r + (if db[|db| - 1].category == c then [db[|db| - 1]] else []);
      |r'| == |Positions(db, c)| && forall k :: 0 <= k < |r'| ==> r'[k] == db[Positions(db, c)[k]]
  {
    var n := |db| - 1;
    var ps := Positions(db[..n], c);
    assert Positions(db, c) == ps + (if db[n].category == c then [n] else []);
    forall k | 0 <= k < |r| ensures r[k] == db[ps[k]] {
      assert db[..n][ps[k]] == db[ps[k]];
    }
  }

  // ---------------------------------------------------------------------------
  // Distinct categories: `Array.from(new Set(xs))`
  // ---------------------------------------------------------------------------

  /** The first index of `x` in `xs`, or -1. */
  function IndexOf<T(==)>(xs: seq<T>, x: T): (r: int)
    ensures -1 <= r < |xs|
    ensures r == -1 <==> x !in xs
    ensures r != -1 ==> xs[r] == x && x !in xs[..r]
  {
    if xs == [] then -1
    else if xs[0] == x then 0
    else
      var k := IndexOf(xs[1..], x);
      assert k != -1 ==> xs[1..][..k] == xs[1..k + 1];
      if k == -1 then -1 else k + 1
  }

  /** Appending an element does not move the first occurrence of one already present. */
  lemma {:induction false} IndexOfAppend<T>(xs: seq<T>, y: T, x: T)
    requires x in xs
    ensures IndexOf(xs + [y], x) == IndexOf(xs, x)
  {
    if xs[0] != x {
      assert (xs + [y])[1..] == xs[1..] + [y];
      IndexOfAppend(xs[1..], y, x);
    }
  }

  /** The elements of `xs` in order of first appearance, each once: a `Set`
      receives them one by one and keeps insertion order. */
  function Distinct<T(==)>(xs: seq<T>): (d: seq<T>)
    ensures |d| <= |xs|
    ensures xs != [] ==> d != [] && d[0] == xs[0]
  {
    if xs == [] then []
    else
      var d := Distinct(xs[..|xs| - 1]);
      if xs[|xs| - 1] in d then d else d + [xs[|xs| - 1]]
  }

  /** `Distinct` takes its input one element at a time, as `Set` insertion does. */
  lemma DistinctSnoc<T>(xs: seq<T>, y: T)
    ensures Distinct(xs + [y]) == if y in Distinct(xs) then Distinct(xs) else Distinct(xs) + [y]
  {
    assert (xs + [y])[..|xs|] == xs;
  }

  /** `Distinct` has no duplicates, holds exactly the values of `xs`, and lists
      them in order of first appearance. */
  lemma {:induction false} DistinctSpec<T>(xs: seq<T>)
    ensures forall i, j :: 0 <= i < j < |Distinct(xs)| ==> Distinct(xs)[i] != Distinct(xs)[j]
    ensures forall x :: x in Distinct(xs) <==> x in xs
    ensures forall i, j :: 0 <= i < j < |Distinct(xs)| ==> IndexOf(xs, Distinct(xs)[i]) < IndexOf(xs, Distinct(xs)[j])
  {
    if xs != [] {
      var n := |xs| - 1;
      var d, y := Distinct(xs[..n]), xs[n];
      DistinctSpec(xs[..n]);
      assert Distinct(xs) == if y in d then d else d + [y];
      assert xs == xs[..n] + [y];
      DistinctStep(xs[..n], y, d);
    }
  }

  /** The inductive step of `Distinct`: what holds of `d` for `xs` carries over to `xs + [y]`. */
  lemma DistinctStep<T>(xs: seq<T>, y: T, d: seq<T>)
    requires forall i, j :: 0 <= i < j < |d| ==> d[i] != d[j]
    requires forall x :: x in d <==> x in xs
    requires forall i, j :: 0 <= i < j < |d| ==> IndexOf(xs, d[i]) < IndexOf(xs, d[j])
    ensures var r := if y in d then d else d + [y];
      forall i, j :: 0 <= i < j < |r| ==> IndexOf(xs + [y], r[i]) < IndexOf(xs + [y], r[j])
  {
    var r := if y in d then d else d + [y];
    forall i, j | 0 <= i < j < |r|
      ensures IndexOf(xs + [y], r[i]) < IndexOf(xs + [y], r[j])
    {
      IndexOfAppend(xs, y, d[i]);
      if j < |d| {
        IndexOfAppend(xs, y, d[j]);
      } else {
        assert (xs + [y])[..|xs|] == xs;
      }
    }
  }

  /** `productsDB.map(p => p.category)`. */
  function CategoryList(db: seq<Product>): (cs: seq<string>)
    ensures |cs| == |db|
    ensures forall i :: 0 <= i < |db| ==> cs[i] == db[i].category
  {
    seq(|db|, i requires 0 <= i < |db| => db[i].category)
  }

  // ---------------------------------------------------------------------------
  // The four read operations
  // ---------------------------------------------------------------------------

  /** getAllProducts: every row, in stored order, restamped with the fetch time. */
  function AllProducts(db: seq<Product>, now: Timestamp): (r: seq<Product>)
    ensures |r| == |db|
    ensures forall i :: 0 <= i < |db| ==> r[i] == db[i].(lastUpdated := now)
  {
    if db == [] then [] else [db[0].(lastUpdated := now)] + AllProducts(db[1..], now)
  }

  /** getProductById: null when no row has the id, otherwise the first row with
      it, restamped. */
  function ProductById(db: seq<Product>, id: string, now: Timestamp): (r: Option<Product>)
    ensures r.None? <==> forall i :: 0 <= i < |db| ==> db[i].id != id
    ensures r.Some? ==> exists k :: FirstWithId(db, id, k) && r.value == db[k].(lastUpdated := now)
  {
    match Find(db, id)
    case None => None
    case Some(p) => Some(p.(lastUpdated := now))
  }

  /** getProductsByCategory: exactly the rows in category `c`, in stored order,
      restamped. */
  function ProductsByCategory(db: seq<Product>, c: string, now: Timestamp): (r: seq<Product>)
    ensures |r| == |Positions(db, c)|
    ensures forall k :: 0 <= k < |r| ==> r[k] == db[Positions(db, c)[k]].(lastUpdated := now)
  {
    AllProducts(InCategory(db, c), now)
  }

  /** getCategories: every category in the table, once each, in order of first
      appearance. */
  function Categories(db: seq<Product>): (r: seq<string>)
    ensures forall c :: c in r <==> exists i :: 0 <= i < |db| && db[i].category == c
    ensures forall i, j :: 0 <= i < j < |r| ==> r[i] != r[j]
    ensures forall i, j :: 0 <= i < j < |r| ==>
      IndexOf(CategoryList(db), r[i]) < IndexOf(CategoryList(db), r[j])
  {
    var cs := CategoryList(db);
    assert forall c :: c in cs <==> exists i :: 0 <= i < |db| && db[i].category == c by {
      forall c | c in cs ensures exists i :: 0 <= i < |db| && db[i].category == c {
        var i :| 0 <= i < |cs| && cs[i] == c;
        assert db[i].category == c;
      }
    }
    DistinctSpec(cs);
    Distinct(cs)
  }

  /** On the seeded table the categories are Electronics, Accessories, Audio. */
  lemma SeedCategories(now: Timestamp)
    ensures Categories(Seed(now)) == ["Electronics", "Accessories", "Audio"]
  {
    SeedCategoryList(now);
    SeedDistinct("Electronics", "Accessories", "Audio");
  }

  /** The de-duplication of the seeded category sequence, for any three distinct values. */
  lemma SeedDistinct<T>(e: T, x: T, a: T)
    requires e != x && e != a && x != a
    ensures Distinct([e, e, x, x, a, e]) == [e, x, a]
  {
    SeedDistinctPrefix(e, x);
    DistinctSnoc([e, e, x], x);
    assert [e, e, x] + [x] == [e, e, x, x];
    DistinctSnoc([e, e, x, x], a);
    assert [e, e, x, x] + [a] == [e, e, x, x, a];
    DistinctSnoc([e, e, x, x, a], e);
    assert [e, e, x, x, a] + [e] == [e, e, x, x, a, e];
  }

  /** The first three steps of `SeedDistinct`. */
  lemma SeedDistinctPrefix<T>(e: T, x: T)
    requires e != x
    ensures Distinct([e, e, x]) == [e, x]
  {
    DistinctSnoc([], e);
    assert [] + [e] == [e];
    DistinctSnoc([e], e);
    assert [e] + [e] == [e, e];
    DistinctSnoc([e, e], x);
    assert [e, e] + [x] == [e, e, x];
  }

  /** `productsDB.map(p => p.category)` on the seeded table. */
  lemma SeedCategoryList(now: Timestamp)
    ensures CategoryList(Seed(now)) == ["Electronics", "Electronics", "Accessories", "Accessories", "Audio", "Electronics"]
  {
  }

  // ---------------------------------------------------------------------------
  // Relations between the read operations
  // ---------------------------------------------------------------------------

  /** getProductById returns the row getAllProducts shows at the first matching index. */
  lemma ProductByIdInAllProducts(db: seq<Product>, id: string, now: Timestamp)
    ensures var k := FindIndex(db, id);
      ProductById(db, id, now) == if k == -1 then None else Some(AllProducts(db, now)[k])
  {
    FindAgreesWithFindIndex(db, id);
  }

  /** Which rows `filter` keeps depends only on the categories. */
  lemma {:induction false} PositionsByCategoryList(a: seq<Product>, b: seq<Product>, c: string)
    requires CategoryList(a) == CategoryList(b)
    ensures Positions(a, c) == Positions(b, c)
  {
    if a != [] {
      var n := |a| - 1;
      assert CategoryList(a[..n]) == CategoryList(b[..n]) by {
        assert forall i :: 0 <= i < n ==> CategoryList(a)[i] == a[..n][i].category;
        assert forall i :: 0 <= i < n ==> CategoryList(b)[i] == b[..n][i].category;
      }
      assert a[n].category == CategoryList(a)[n] == b[n].category;
      PositionsByCategoryList(a[..n], b[..n], c);
    }
  }

  /** Filtering the restamped table by category gives getProductsByCategory:
      the timestamp never affects which rows are selected. */
  lemma ByCategoryIsFilteredAll(db: seq<Product>, c: string, now: Timestamp)
    ensures ProductsByCategory(db, c, now) == InCategory(AllProducts(db, now), c)
  {
    var all := AllProducts(db, now);
    assert CategoryList(all) == CategoryList(db);
    PositionsByCategoryList(all, db, c);
  }

  /** A category is listed by getCategories exactly when getProductsByCategory
      finds at least one row in it. */
  lemma ListedIffNonEmpty(db: seq<Product>, c: string, now: Timestamp)
    ensures c in Categories(db) <==> ProductsByCategory(db, c, now) != []
  {
    var ps := Positions(db, c);
    if ps != [] {
      assert db[ps[0]].category == c;
    }
    if c in Categories(db) {
      var i :| 0 <= i < |db| && db[i].category == c;
      assert i in ps;
    }
  }

  // ---------------------------------------------------------------------------
  // updateProduct
  // ---------------------------------------------------------------------------

  /** The table after the call and the value the call returns. */
  datatype UpdateOutcome = UpdateOutcome(table: seq<Product>, result: Option<Product>)

  /** updateProduct: rewrite the first row with the id and return the new row,
      or return null and leave the table alone. */
  function Update(db: seq<Product>, id: string, u: ProductUpdate, now: Timestamp): (o: UpdateOutcome)
    ensures |o.table| == |db|
    ensures o.result.None? <==> forall i :: 0 <= i < |db| ==> db[i].id != id
    ensures o.result.None? ==> o.table == db
    ensures o.result.Some? ==>
      exists k :: (FirstWithId(db, id, k)
                   && o.table == db[k := ApplyUpdate(db[k], u, now)]
                   && o.result.value == o.table[k])
  {
    var index := FindIndex(db, id);
    if index == -1 then UpdateOutcome(db, None)
    else
      var table := db[index := ApplyUpdate(db[index], u, now)];
      UpdateOutcome(table, Some(table[index]))
  }

  /** Reading a row back after updating it (with no id in the update, or the same id) gives the
      updated row, restamped with the time of the read. */
  lemma UpdateThenRead(db: seq<Product>, id: string, u: ProductUpdate, now: Timestamp, later: Timestamp)
    requires u.id.None? || u.id == Some(id)
    ensures var o := Update(db, id, u, now);
      o.result.Some? ==> ProductById(o.table, id, later) == Some(o.result.value.(lastUpdated := later))
  {
    var k := FindIndex(db, id);
    if k != -1 {
      var t := db[k := ApplyUpdate(db[k], u, now)];
      assert FirstWithId(t, id, k);
      FindAgreesWithFindIndex(t, id);
      FirstWithIdUnique(t, id, k, FindIndex(t, id));
    }
  }

  /** Applying the same update twice, at the same time, is the same as once. */
  lemma ApplyUpdateIdempotent(p: Product, u: ProductUpdate, now: Timestamp)
    ensures ApplyUpdate(ApplyUpdate(p, u, now), u, now) == ApplyUpdate(p, u, now)
  {
  }

  /** Two updates in a row act as the single update `{ ...u1, ...u2 }` at the later time. */
  lemma ApplyUpdateCombine(p: Product, u1: ProductUpdate, u2: ProductUpdate, t1: Timestamp, t2: Timestamp)
    ensures ApplyUpdate(ApplyUpdate(p, u1, t1), u2, t2) == ApplyUpdate(p, Combine(u1, u2), t2)
  {
  }

  /** An empty update only refreshes the timestamp. */
  lemma ApplyNoChanges(p: Product, now: Timestamp)
    ensures ApplyUpdate(p, NoChanges, now) == p.(lastUpdated := now)
  {
  }

  /** An update that keeps the id is idempotent on the whole table. */
  lemma UpdateIdempotent(db: seq<Product>, id: string, u: ProductUpdate, now: Timestamp)
    requires u.id.None? || u.id == Some(id)
    ensures var t := Update(db, id, u, now).table;
      Update(t, id, u, now).table == t
  {
    var k := FindIndex(db, id);
    if k != -1 {
      var t := db[k := ApplyUpdate(db[k], u, now)];
      assert FirstWithId(t, id, k);
      FirstWithIdUnique(t, id, k, FindIndex(t, id));
      ApplyUpdateIdempotent(db[k], u, now);
    }
  }

  /** An update that leaves the category alone leaves getCategories unchanged. */
  lemma UpdateKeepsCategories(db: seq<Product>, id: string, u: ProductUpdate, now: Timestamp)
    requires u.category.None?
    ensures Categories(Update(db, id, u, now).table) == Categories(db)
  {
    assert CategoryList(Update(db, id, u, now).table) == CategoryList(db);
  }
}
