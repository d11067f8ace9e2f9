/**
 * The inventory database as one object: the two tables are fields that
 * each statement updates in place, and the AUTOINCREMENT counters are the
 * fields `productSeq` and `userSeq`. Every mutating method is proved to
 * leave the tables as the matching function of Catalog or Accounts
 * prescribes; the read-only queries are functions over the fields.
 */
module Inventory {
  import opened SqlTable
  import opened Credentials
  import opened Catalog
  import opened Accounts

  class InventoryDb {
    var products: map<int, Product>
    var productSeq: nat
    var users: map<int, User>
    var userSeq: nat

    /** The hash function behind `hashpw` and `checkpw`. */
    const kdf: Kdf

    function ProductRows(): ProductTable
      reads this
    {
      Table(products, productSeq)
    }

    function UserRows(): UserTable
      reads this
    {
      Table(users, userSeq)
    }

    ghost predicate Valid()
      reads this
    {
      SqlTable.Valid(ProductRows()) && SqlTable.Valid(UserRows()) && UniqueUsernames(UserRows())
    }

    /** A database file whose two tables were just created, both empty. */
    constructor (kdf: Kdf)
      ensures Valid()
      ensures products == map[] && productSeq == 0
      ensures users == map[] && userSeq == 0
      ensures this.kdf == kdf
    {
      products, productSeq := map[], 0;
      users, userSeq := map[], 0;
      this.kdf := kdf;
    }

    /** `init_db`: make sure exactly one `admin` exists, keeping an old one. */
    method InitDb(salt: Salt)
      requires Valid()
      modifies this`users, this`userSeq
      ensures Valid()
      ensures UserRows() == EnsureAdmin(old(UserRows()), kdf, salt)
      ensures CountNamed(UserRows(), AdminName) == 1
      ensures old(Taken(UserRows(), AdminName)) ==> users == old(users) && userSeq == old(userSeq)
    {
      var adminFound := Taken(UserRows(), AdminName);
      if !adminFound {
        var hashed := HashPassword(kdf, DefaultAdminPassword, salt);
        var id := NextId(UserRows());
        users := users[id := User(AdminName, hashed)];
        userSeq := id;
      }
      EnsureAdminExactlyOne(old(UserRows()), kdf, salt);
    }

    /**
     * `register_user`: refuse without an acting user; otherwise insert the
     * hashed password unless the username is taken.
     */
    method RegisterUser(currentUser: Option<string>, username: string, password: string, salt: Salt)
      returns (outcome: RegisterOutcome)
      requires Valid()
      modifies this`users, this`userSeq
      ensures Valid()
      ensures (UserRows(), outcome) == Register(old(UserRows()), kdf, currentUser, username, password, salt)
      ensures !outcome.Registered? ==> users == old(users) && userSeq == old(userSeq)
      ensures outcome.Registered? ==>
        outcome.id !in old(users) && users == old(users)[outcome.id := User(username, HashPassword(kdf, password, salt))]
    {
      if !LoggedIn(currentUser) {
        return NotLoggedIn;
      }
      var hashed := HashPassword(kdf, password, salt);
      if Taken(UserRows(), username) {
        return UsernameExists;
      }
      var id := NextId(UserRows());
      users := users[id := User(username, hashed)];
      userSeq := id;
      outcome := Registered(id);
      RegisterKeepsUnique(old(UserRows()), kdf, currentUser, username, password, salt);
    }

    /** `authenticate_user`: the user's row exists and the password checks. */
    function AuthenticateUser(username: string, password: string): (ok: bool)
      reads this
      requires Valid()
      ensures ok <==> (exists id :: id in users && users[id].username == username &&
                                    CheckPassword(kdf, password, users[id].password))
    {
      AuthenticateIff(UserRows(), kdf, username, password);
      Authenticate(UserRows(), kdf, username, password)
    }

    /** `add_product`: insert a row under a fresh id, returned as `id`. */
    method AddProduct(name: string, description: string, quantity: int, price: real, category: string)
      returns (id: int)
      requires Valid()
      modifies this`products, this`productSeq
      ensures Valid()
      ensures (ProductRows(), id) == Catalog.AddProduct(old(ProductRows()), Product(name, description, quantity, price, category))
      ensures id > old(productSeq) && id !in old(products)
      ensures GetProducts() == old(GetProducts()) + [Row(id, Product(name, description, quantity, price, category))]
    {
      var p := Product(name, description, quantity, price, category);
      id := NextId(ProductRows());
      products := products[id := p];
      productSeq := id;
      AddThenList(old(ProductRows()), p);
    }

    /** `get_products`: every row, in rowid order. */
    function GetProducts(): (rows: seq<Row<Product>>)
      reads this
      requires Valid()
      ensures forall r :: r in rows <==> r.id in products && products[r.id] == r.value
      ensures Ascending(rows)
    {
      ListProducts(ProductRows())
    }

    /** `update_product`: replace all five columns of a present row; else no-op. */
    method UpdateProduct(productId: int, name: string, description: string, quantity: int,
                         price: real, category: string)
      requires Valid()
      modifies this`products
      ensures Valid()
      ensures ProductRows() == Catalog.UpdateProduct(old(ProductRows()), productId, Product(name, description, quantity, price, category))
      ensures productId in old(products) ==>
        products == old(products)[productId := Product(name, description, quantity, price, category)]
      ensures productId !in old(products) ==> products == old(products)
    {
      if productId in products {
        products := products[productId := Product(name, description, quantity, price, category)];
      }
    }

    /** `delete_product`: remove the row with that id, if any. */
    method DeleteProduct(productId: int)
      requires Valid()
      modifies this`products
      ensures Valid()
      ensures ProductRows() == Catalog.DeleteProduct(old(ProductRows()), productId)
      ensures products.Keys == old(products.Keys) - {productId}
      ensures forall id :: id in products ==> products[id] == old(products[id])
    {
      products := products - {productId};
    }

    /**
     * `update_stock`: read the quantity, then either report the missing row,
     * refuse a result below zero, or write the new quantity to that row.
     */
    method UpdateStock(productId: int, quantityChange: int) returns (outcome: StockOutcome)
      requires Valid()
      modifies this`products
      ensures Valid()
      ensures (ProductRows(), outcome) == AdjustStock(old(ProductRows()), productId, quantityChange)
      ensures outcome == NotFound <==> productId !in old(products)
      ensures outcome == BelowZero <==>
        productId in old(products) && old(products[productId].quantity) + quantityChange < 0
      ensures !outcome.StockSet? ==> products == old(products)
      ensures outcome.StockSet? ==>
        outcome.quantity == old(products[productId].quantity) + quantityChange >= 0 &&
        products == old(products)[productId := old(products[productId]).(quantity := outcome.quantity)]
      ensures old(StockNonNegative(ProductRows())) ==> StockNonNegative(ProductRows())
    {
      if productId !in products {
        return NotFound;
      }
      var current := products[productId].quantity;
      var newQuantity := current + quantityChange;
      if newQuantity < 0 {
        return BelowZero;
      }
      products := products[productId := products[productId].(quantity := newQuantity)];
      outcome := StockSet(newQuantity);
    }

    /** `search_products`: rows whose name or category contains the keyword. */
    function SearchProducts(keyword: string): (rows: seq<Row<Product>>)
      reads this
      requires Valid()
      ensures forall r :: r in rows <==>
        r.id in products && products[r.id] == r.value && Matches(r.value, keyword)
      ensures keyword == "" ==> rows == GetProducts()
    {
      SearchEmptyKeyword(ProductRows());
      Catalog.SearchProducts(ProductRows(), keyword)
    }
  }
}
