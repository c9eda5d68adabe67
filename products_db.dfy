/** The module-level `productsDB` array of lib/data.ts and the operations that
    read and update it. The array reference is fixed (`const productsDB`); only
    its elements are overwritten, by `UpdateProduct`. */
module ProductsDB {
  import opened Catalog

  class ProductTable {
    /** The stored rows, in table order. */
    const rows: array<Product>

    /** Loads the module: the six seeded rows, stamped with the load time. */
    constructor (now: Timestamp)
      ensures fresh(rows)
      ensures rows[..] == Seed(now)
    {
      var seed := Seed(now);
      rows := new Product[|seed|](i requires 0 <= i < |seed| => seed[i]);
    }

    /** getAllProducts: reads the table and changes nothing. */
    method GetAllProducts(now: Timestamp) returns (r: seq<Product>)
      ensures |r| == rows.Length
      ensures forall i :: 0 <= i < rows.Length ==> r[i] == rows[i].(lastUpdated := now)
    {
      r := AllProducts(rows[..], now);
    }

    /** getProductById: reads the table and changes nothing. */
    method GetProductById(id: string, now: Timestamp) returns (r: Option<Product>)
      ensures r.None? <==> forall i :: 0 <= i < rows.Length ==> rows[i].id != id
      ensures r.Some? ==> exists k :: FirstWithId(rows[..], id, k) && r.value == rows[k].(lastUpdated := now)
    {
      r := ProductById(rows[..], id, now);
    }

    /** getProductsByCategory: reads the table and changes nothing. */
    method GetProductsByCategory(category: string, now: Timestamp) returns (r: seq<Product>)
      ensures |r| == |Positions(rows[..], category)|
      ensures forall k :: 0 <= k < |r| ==> r[k] == rows[Positions(rows[..], category)[k]].(lastUpdated := now)
    {
      r := ProductsByCategory(rows[..], category, now);
    }

    /** getCategories: reads the table and changes nothing. */
    method GetCategories() returns (r: seq<string>)
      ensures r == Categories(rows[..])
      ensures forall c :: c in r <==> exists i :: 0 <= i < rows.Length && rows[i].category == c
      ensures forall i, j :: 0 <= i < j < |r| ==> r[i] != r[j]
      ensures forall i, j :: 0 <= i < j < |r| ==>
        IndexOf(CategoryList(rows[..]), r[i]) < IndexOf(CategoryList(rows[..]), r[j])
    {
      r := Categories(rows[..]);
    }

    /** updateProduct: finds the first row with the id; if there is none, returns
        null and leaves the table alone; otherwise overwrites that one element
        with the merged record and returns the stored element. */
    method UpdateProduct(id: string, updates: ProductUpdate, now: Timestamp) returns (r: Option<Product>)
      modifies rows
      ensures UpdateOutcome(rows[..], r) == Update(old(rows[..]), id, updates, now)
    {
      var index := FindIndex(rows[..], id);
      if index == -1 {
        return None;
      }
      rows[index] := ApplyUpdate(rows[index], updates, now);
      r := Some(rows[index]);
    }
  }
}
