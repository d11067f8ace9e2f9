/**
 * The `products` table and what each product statement does to it, as
 * functions from the table before to the table after. The in-place store
 * in module Inventory is proved to follow these functions.
 */
module Catalog {
  import opened SqlTable
  import Like

  /**
   * The five columns besides `id`. Price is a SQLite REAL: it is only
   * stored and returned, never computed with.
   */
  datatype Product = Product(
    name: string,
    description: string,
    quantity: int,
    price: real,
    category: string)

  type ProductTable = Table<Product>

  /** The stock floor: no stored quantity is negative. */
  ghost predicate StockNonNegative(t: ProductTable) {
    forall id :: id in t.rows ==> t.rows[id].quantity >= 0
  }

  /** `INSERT INTO products ...`: a new row under a fresh AUTOINCREMENT id. */
  function AddProduct(t: ProductTable, p: Product): (r: (ProductTable, int))
    requires Valid(t)
    ensures Valid(r.0)
    ensures r.1 > t.lastId && r.1 !in t.rows
    ensures r.0.lastId == r.1
    ensures r.0.rows.Keys == t.rows.Keys + {r.1} && r.0.rows[r.1] == p
    ensures forall id :: id in t.rows ==> r.0.rows[id] == t.rows[id]
  {
    Insert(t, p)
  }

  /** `UPDATE products SET <all five columns> WHERE id = ?`. */
  function UpdateProduct(t: ProductTable, id: int, p: Product): (r: ProductTable)
    ensures r.lastId == t.lastId && r.rows.Keys == t.rows.Keys
    ensures id in t.rows ==> r.rows[id] == p
    ensures forall other :: other in t.rows && other != id ==> r.rows[other] == t.rows[other]
  {
    if id in t.rows then t.(rows := t.rows[id := p]) else t
  }

  /** `DELETE FROM products WHERE id = ?`; the sequence counter is kept. */
  function DeleteProduct(t: ProductTable, id: int): (r: ProductTable)
    ensures r.lastId == t.lastId && r.rows.Keys == t.rows.Keys - {id}
    ensures forall other :: other in r.rows ==> r.rows[other] == t.rows[other]
  {
    t.(rows := t.rows - {id})
  }

  datatype StockOutcome = StockSet(quantity: int) | BelowZero | NotFound

  /**
   * `update_stock`: read the quantity; a missing row is reported and left
   * alone; a sum below zero is rejected without a write; otherwise the sum
   * is written to that row's quantity.
   */
  function AdjustStock(t: ProductTable, id: int, delta: int): (r: (ProductTable, StockOutcome))
    ensures r.1 == NotFound <==> id !in t.rows
    ensures r.1 == BelowZero <==> id in t.rows && t.rows[id].quantity + delta < 0
    ensures !r.1.StockSet? ==> r.0 == t
    ensures r.1.StockSet? ==>
      id in t.rows && r.1.quantity == t.rows[id].quantity + delta && r.1.quantity >= 0 &&
      r.0 == t.(rows := t.rows[id := t.rows[id].(quantity := r.1.quantity)])
  {
    if id !in t.rows then (t, NotFound)
    else
      var newQuantity := t.rows[id].quantity + delta;
      if newQuantity < 0 then (t, BelowZero)
      else (t.(rows := t.rows[id := t.rows[id].(quantity := newQuantity)]), StockSet(newQuantity))
  }

  /** `name LIKE '%kw%' OR category LIKE '%kw%'`. */
  predicate Matches(p: Product, keyword: string)
    ensures Matches(p, keyword) <==>
      (exists i :: Like.OccursAt(p.name, keyword, i)) || (exists i :: Like.OccursAt(p.category, keyword, i))
  {
    Like.ContainsIff(p.name, keyword);
    Like.ContainsIff(p.category, keyword);
    Like.Contains(p.name, keyword) || Like.Contains(p.category, keyword)
  }

  /** `SELECT * FROM products`. */
  function ListProducts(t: ProductTable): (rs: seq<Row<Product>>)
    requires Valid(t)
    ensures forall r :: r in rs <==> r.id in t.rows && t.rows[r.id] == r.value
    ensures Ascending(rs)
  {
    Rows(t)
  }

  /** `SELECT * FROM products WHERE name LIKE ? OR category LIKE ?`. */
  function SearchProducts(t: ProductTable, keyword: string): (rs: seq<Row<Product>>)
    requires Valid(t)
    ensures forall r :: r in rs <==>
      r.id in t.rows && t.rows[r.id] == r.value && Matches(r.value, keyword)
    ensures Ascending(rs)
  {
    Where(Rows(t), (p: Product) => Matches(p, keyword))
  }

  // ---------------------------------------------------------------------
  // add_product, update_product, delete_product

  /** After an add, a scan returns the earlier scan plus the new row, last. */
  lemma AddThenList(t: ProductTable, p: Product)
    requires Valid(t)
    ensures ListProducts(AddProduct(t, p).0) == ListProducts(t) + [Row(AddProduct(t, p).1, p)]
    ensures AddProduct(t, p).1 > t.lastId
  {
    InsertAppendsRow(t, p);
  }

  /** AUTOINCREMENT: an id freed by a delete is never handed out again. */
  lemma DeletedIdNotReused(t: ProductTable, id: int, p: Product)
    requires Valid(t) && id in t.rows
    ensures Valid(DeleteProduct(t, id))
    ensures AddProduct(DeleteProduct(t, id), p).1 != id
  {
  }

  /**
   * An update of a present id replaces all five columns of that row and no
   * other row; an absent id leaves the table as it was.
   */
  lemma UpdateThenList(t: ProductTable, id: int, p: Product)
    requires Valid(t)
    ensures Valid(UpdateProduct(t, id, p))
    ensures id in t.rows ==> Row(id, p) in ListProducts(UpdateProduct(t, id, p))
    ensures forall r: Row<Product> :: r.id != id ==>
      (r in ListProducts(UpdateProduct(t, id, p)) <==> r in ListProducts(t))
    ensures id !in t.rows ==> UpdateProduct(t, id, p) == t
  {
  }

  /** After a delete, a scan returns exactly the other rows. */
  lemma DeleteThenList(t: ProductTable, id: int)
    requires Valid(t)
    ensures Valid(DeleteProduct(t, id))
    ensures forall r :: r in ListProducts(DeleteProduct(t, id)) <==>
      r in ListProducts(t) && r.id != id
    ensures id !in t.rows ==> DeleteProduct(t, id) == t
  {
    if id !in t.rows {
      assert t.rows - {id} == t.rows;
    }
  }

  // ---------------------------------------------------------------------
  // update_stock

  /**
   * An accepted adjustment sets that row's quantity to exactly the old
   * quantity plus the delta; every other column and row stays as it was.
   */
  lemma AdjustStockAccepted(t: ProductTable, id: int, delta: int)
    requires id in t.rows && t.rows[id].quantity + delta >= 0
    ensures AdjustStock(t, id, delta).1 == StockSet(t.rows[id].quantity + delta)
    ensures AdjustStock(t, id, delta).0.rows[id] == t.rows[id].(quantity := t.rows[id].quantity + delta)
    ensures AdjustStock(t, id, delta).0.rows.Keys == t.rows.Keys
    ensures AdjustStock(t, id, delta).0.lastId == t.lastId
    ensures forall other :: other in t.rows && other != id ==>
      AdjustStock(t, id, delta).0.rows[other] == t.rows[other]
  {
  }

  /** An adjustment that would go below zero is refused with no write. */
  lemma AdjustStockRejected(t: ProductTable, id: int, delta: int)
    requires id in t.rows && t.rows[id].quantity + delta < 0
    ensures AdjustStock(t, id, delta) == (t, BelowZero)
  {
  }

  /** An adjustment of an absent id reports it and writes nothing. */
  lemma AdjustStockMissing(t: ProductTable, id: int, delta: int)
    requires id !in t.rows
    ensures AdjustStock(t, id, delta) == (t, NotFound)
  {
  }

  /**
   * The floor: an adjustment never stores a negative quantity, so a table
   * without negative stock keeps none.
   */
  lemma AdjustStockKeepsFloor(t: ProductTable, id: int, delta: int)
    ensures AdjustStock(t, id, delta).1.StockSet? ==> AdjustStock(t, id, delta).1.quantity >= 0
    ensures StockNonNegative(t) ==> StockNonNegative(AdjustStock(t, id, delta).0)
    ensures Valid(t) ==> Valid(AdjustStock(t, id, delta).0)
  {
  }

  /**
   * Undo: from a non-negative quantity, an accepted adjustment by `delta` is
   * reversed by one by `-delta`. From a negative quantity the reverse step
   * can be refused as below zero.
   */
  lemma AdjustStockUndo(t: ProductTable, id: int, delta: int)
    requires id in t.rows && t.rows[id].quantity >= 0
    requires AdjustStock(t, id, delta).1.StockSet?
    ensures AdjustStock(AdjustStock(t, id, delta).0, id, -delta) ==
      (t, StockSet(t.rows[id].quantity))
  {
    var t' := AdjustStock(t, id, delta).0;
    assert t'.rows[id := t'.rows[id].(quantity := t.rows[id].quantity)] == t.rows;
  }

  // ---------------------------------------------------------------------
  // search_products

  /** An empty keyword (`LIKE '%%'`) returns every row, as a scan does. */
  lemma SearchEmptyKeyword(t: ProductTable)
    requires Valid(t)
    ensures SearchProducts(t, "") == ListProducts(t)
  {
    var keep := (p: Product) => Matches(p, "");
    forall r | r in Rows(t) ensures keep(r.value) {
      Like.ContainsEmpty(r.value.name);
    }
    WhereKeepsAll(Rows(t), keep);
  }

  /** A row whose name holds the keyword verbatim is among the results. */
  lemma SearchFindsName(t: ProductTable, id: int, before: string, keyword: string, after: string)
    requires Valid(t) && id in t.rows
    requires t.rows[id].name == before + keyword + after
    ensures Row(id, t.rows[id]) in SearchProducts(t, keyword)
  {
    Like.ContainsInfix(before, keyword, after);
  }

  /** A row whose category holds the keyword verbatim is among the results. */
  lemma SearchFindsCategory(t: ProductTable, id: int, before: string, keyword: string, after: string)
    requires Valid(t) && id in t.rows
    requires t.rows[id].category == before + keyword + after
    ensures Row(id, t.rows[id]) in SearchProducts(t, keyword)
  {
    Like.ContainsInfix(before, keyword, after);
  }

  /**
   * A worked example: add a product with 10 units; taking 15 is refused and
   * leaves 10; taking 10 is accepted and leaves 0.
   */
  lemma WidgetScenario(t: ProductTable)
    requires Valid(t)
    ensures
      var widget := Product("Widget", "A widget", 10, 2.50, "Hardware");
      var (t1, id) := AddProduct(t, widget);
      && Row(id, widget) in ListProducts(t1)
      && AdjustStock(t1, id, -15) == (t1, BelowZero)
      && AdjustStock(t1, id, -10).1 == StockSet(0)
      && AdjustStock(t1, id, -10).0.rows[id] == widget.(quantity := 0)
  {
  }
}
