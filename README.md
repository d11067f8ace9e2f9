# Inventory manager: product and user store

A Dafny model of the persistence layer of a small command-line inventory
manager (`inventory_management.py`). The program keeps two SQLite tables:
`users` (unique usernames, bcrypt-hashed passwords) and `products` (name,
description, quantity, price, category). Each public function opens a
connection, runs one SQL statement or a short fixed sequence of them, and
closes the connection. `init_db` creates both tables, looks up `admin` and
may insert it; `update_stock` reads the quantity and then may write it;
`register_user` returns before opening a connection when no user is
logged in.

Here the tables are held in memory. `InventoryDb` (module `Inventory`) is a
class with four mutable fields: the two tables as maps from rowid to
record, and one AUTOINCREMENT counter per table (the `sqlite_sequence`
entry). The hash function is a constant of the object. The
mutating statements are methods that update those fields in place:
`init_db`, `register_user`, `add_product`, `update_product`,
`delete_product` and `update_stock`. The read-only queries are functions
over the fields: `get_products`, `search_products` and `authenticate_user`.
Each method is proved to leave the tables exactly as a pure transition
function prescribes. Those functions live in module `Catalog` (products) and
module `Accounts` (users), and the lemmas beside them prove the promised
properties:

- the stock floor and frame of `update_stock`;
- the full-row replacement of `update_product` and the exact removal of `delete_product`;
- fresh, never-reused ids and append-at-end listing for `add_product`;
- exact search results (and every row for an empty keyword) for `search_products`;
- the UNIQUE username constraint and the login gate of `register_user`;
- idempotence and exactly one `admin` for `init_db`;
- an if-and-only-if characterisation of `authenticate_user`.

Supporting modules:

- `SqlTable`: a generic table with an `INTEGER PRIMARY KEY AUTOINCREMENT` key. It provides INSERT, a full scan in rowid order, a `WHERE` filter and `fetchone()`.
- `Like`: `LIKE '%kw%'` as SQLite applies it, where ASCII letters compare case-insensitively.
- `Credentials`: `hashpw`/`checkpw`, over a hash function `kdf` that the model takes as a parameter.

The bcrypt work factor and hash internals are not modelled. The salt that
`gensalt()` draws at random is a parameter of `InitDb` and `RegisterUser`.

Choices the model takes from the code as written:

- `add_product` and `update_product` accept any integer quantity, negative ones included. Nothing in the code enforces "quantity is never negative" at those two points. The model therefore states the floor as an invariant: `update_stock` preserves it (`AdjustStockKeepsFloor`, and the last `ensures` of `UpdateStock`). It is not a property of every table.
- `register_user` does not check that the new username is non-empty. The model accepts `""` like any other username.
- `SELECT *` has no `ORDER BY`. The model returns rows in rowid order, which is the order a plain scan of such a table gives.
- `AddProduct` returns the new rowid as an out-parameter. The source does not read `lastrowid`; the model returns it only so contracts can name the new row.

## Model

| member | source | states |
|---|---|---|
| `SqlTable.NextId` | inventory_management.py:33 | The next AUTOINCREMENT rowid is above every rowid ever issued, so it is not a live row. |
| `SqlTable.Insert` | inventory_management.py:33 | AUTOINCREMENT insert: the new id is above every id ever issued and is not a live row. The new row holds exactly the given value, and every old row is kept. |
| `SqlTable.Rows` | inventory_management.py:114-115 | A full scan lists each stored row exactly once (row ⇔ stored under its id), in ascending rowid order. |
| `SqlTable.InsertAppendsRow` | inventory_management.py:100-101 | A scan after an insert is the earlier scan with the new row appended at the end. |
| `SqlTable.Where` | inventory_management.py:179-180 | A `WHERE` filter keeps exactly the rows that satisfy the condition. Applied to a rowid-ordered scan, the result is still in ascending rowid order. |
| `SqlTable.FirstWhere` | inventory_management.py:82-83 | `fetchone()` finds a row iff some row satisfies the condition. The row it returns satisfies it, and no row before it in the scan does. |
| `Like.Contains` | inventory_management.py:179 | Every text matches the empty keyword, and a keyword longer than the text never matches. |
| `Like.ContainsIff` | inventory_management.py:179 | The LIKE scan succeeds iff the keyword occurs at some offset of the text, ignoring ASCII case. |
| `Like.ContainsEmpty` | inventory_management.py:179 | Every text matches `'%%'`. |
| `Like.ContainsInfix` | inventory_management.py:179 | A keyword that appears verbatim inside a text is found. |
| `Like.ContainsIgnoresCase` | inventory_management.py:179 | Keywords that differ only in ASCII letter case match the same texts. |
| `Credentials.HashPassword` | inventory_management.py:63 | The stored hash carries the salt it was made with. |
| `Credentials.CheckPassword` | inventory_management.py:84 | `checkpw` accepts a password iff rehashing it under the stored salt reproduces the stored value exactly. |
| `Credentials.CheckAcceptsOwnHash` | inventory_management.py:84 | A password always verifies against its own stored hash. |
| `Credentials.CheckRejectsOtherPassword` | inventory_management.py:84 | If the hash function is collision-free under a fixed salt, a different password never verifies. |
| `Catalog.AddProduct` | inventory_management.py:100-101 | `add_product` inserts exactly the supplied row under a fresh id above every earlier one, keeps all other rows, and makes that id the new sequence counter. |
| `Catalog.UpdateProduct` | inventory_management.py:126-127 | A present id gets the new five columns. The key set, the counter and every other row are unchanged. |
| `Catalog.DeleteProduct` | inventory_management.py:140 | The key set loses exactly the given id. The remaining rows and the counter are unchanged. |
| `Catalog.AdjustStock` | inventory_management.py:154-167 | Not-found iff the id is absent. Below-zero iff current + delta < 0. Either refusal leaves the table unchanged. Otherwise the outcome carries current + delta ≥ 0, and only that row's quantity changes, to that value. |
| `Catalog.Matches` | inventory_management.py:179 | A product matches iff the keyword occurs, ignoring ASCII case, at some offset of its name or of its category. |
| `Catalog.ListProducts` | inventory_management.py:114-115 | `get_products` returns exactly the stored rows, in rowid order. |
| `Catalog.SearchProducts` | inventory_management.py:179-180 | `search_products` returns exactly the stored rows whose name or category matches the keyword, in rowid order. |
| `Catalog.AddThenList` | inventory_management.py:100-115 | After `add_product`, `get_products` equals the previous listing plus the new row, last. The new id exceeds every id used before. |
| `Catalog.DeletedIdNotReused` | inventory_management.py:140 | After a row is deleted, the next add never receives that id again (AUTOINCREMENT). |
| `Catalog.UpdateThenList` | inventory_management.py:126-127 | An update of a present id makes the listing show the new five columns under the same id and leaves every other row as it was. A missing id leaves the table unchanged. |
| `Catalog.DeleteThenList` | inventory_management.py:140 | After a delete, the listing holds exactly the previous rows with other ids. A missing id leaves the table unchanged. |
| `Catalog.AdjustStockAccepted` | inventory_management.py:157-164 | If current + delta ≥ 0, the row's quantity becomes exactly current + delta. All its other columns, all other rows, the key set and the counter are unchanged. |
| `Catalog.AdjustStockRejected` | inventory_management.py:157-160 | If current + delta < 0, the outcome is the below-zero rejection and the table is unchanged. |
| `Catalog.AdjustStockMissing` | inventory_management.py:155-156 | For an absent id, the outcome is not-found and the table is unchanged. |
| `Catalog.AdjustStockKeepsFloor` | inventory_management.py:157-163 | A stored quantity written by `update_stock` is never negative. A table with no negative stock keeps none, and key validity is preserved. |
| `Catalog.AdjustStockUndo` | inventory_management.py:154-164 | From a non-negative quantity, an accepted adjustment by d followed by one by −d restores the exact original table and quantity. |
| `Catalog.SearchEmptyKeyword` | inventory_management.py:179 | Searching with the empty keyword returns the same sequence as `get_products`. |
| `Catalog.SearchFindsName` | inventory_management.py:179 | A row whose name contains the keyword verbatim is among the search results. |
| `Catalog.SearchFindsCategory` | inventory_management.py:179 | A row whose category contains the keyword verbatim is among the search results. |
| `Catalog.WidgetScenario` | inventory_management.py:150-167 | Add a product with quantity 10. An adjustment of −15 is rejected with the table unchanged; an adjustment of −10 sets the quantity to 0. |
| `Accounts.Register` | inventory_management.py:56-70 | Not-logged-in iff the acting user is falsy. Username-exists iff logged in and the name is taken. Either refusal leaves the table unchanged. A success adds exactly one row, the username with the hash of the password, under a fresh id that becomes the counter. |
| `Accounts.EnsureAdmin` | inventory_management.py:44-48 | Afterwards `admin` exists. An existing `admin` leaves the table unchanged. Otherwise exactly one row is added, `admin` with the hash of `admin123`, under the next id. |
| `Accounts.StoredPassword` | inventory_management.py:82-83 | A hash is found iff the username is present, and the hash found is the one stored on a row with that username. |
| `Accounts.Authenticate` | inventory_management.py:82-88 | A successful login implies a row with that username whose stored hash accepts the password. An absent username never logs in. |
| `Accounts.AuthenticateIff` | inventory_management.py:82-88 | Under unique usernames, `authenticate_user` is true iff a row with that username exists and the password checks against its stored hash. |
| `Accounts.RegisterNeedsLogin` | inventory_management.py:57-59 | With a falsy acting user (None or empty), registration reports not-logged-in and leaves the table unchanged. |
| `Accounts.RegisterDuplicate` | inventory_management.py:64-70 | With an existing username, registration reports username-exists and leaves the table unchanged, counter included. |
| `Accounts.RegisterKeepsUnique` | inventory_management.py:27 | Registration preserves username uniqueness; afterwards at most one row carries the username. |
| `Accounts.RegisterThenAuthenticate` | inventory_management.py:63-86 | A successful registration lets that username log in with the password just given. |
| `Accounts.RegisterThenWrongPassword` | inventory_management.py:84 | If the hash function is collision-free, a newly registered user cannot log in with any other password. |
| `Accounts.CountNamedAtMostOne` | inventory_management.py:27 | Under the UNIQUE constraint, a username is on at most one row, and on exactly one if it is present. |
| `Accounts.EnsureAdminExactlyOne` | inventory_management.py:44-48 | After `init_db` there is exactly one `admin` row and usernames stay unique. An existing `admin` leaves the table untouched. |
| `Accounts.EnsureAdminIdempotent` | inventory_management.py:44-48 | A second `init_db`, with any salt, changes nothing. |
| `Accounts.DefaultAdminLogsIn` | inventory_management.py:46-47 | An `admin` created by `init_db` authenticates with the default password `admin123`. |
| `Inventory.InventoryDb.constructor` | inventory_management.py:24-40 | Freshly created tables are empty, with both counters at zero. |
| `Inventory.InventoryDb.InitDb` | inventory_management.py:44-49 | The new user table is `EnsureAdmin` of the old one, and exactly one `admin` exists. An existing `admin` leaves users and the counter unchanged. |
| `Inventory.InventoryDb.RegisterUser` | inventory_management.py:56-70 | The new user table and outcome are `Register` of the old table. A refusal changes nothing; a success adds exactly one row, the new username with the hash of the password, under a fresh id. |
| `Inventory.InventoryDb.AuthenticateUser` | inventory_management.py:82-88 | True iff a stored user has that username and the password checks against its hash. |
| `Inventory.InventoryDb.AddProduct` | inventory_management.py:100-101 | Inserts the supplied row under a fresh id. Afterwards `GetProducts` is the previous listing plus that row. |
| `Inventory.InventoryDb.GetProducts` | inventory_management.py:114-115 | Returns exactly the stored rows, in rowid order. |
| `Inventory.InventoryDb.UpdateProduct` | inventory_management.py:126-127 | A present id gets all five columns replaced and keeps its id; a missing id changes nothing. |
| `Inventory.InventoryDb.DeleteProduct` | inventory_management.py:140 | Removes exactly the given id; every other row is unchanged. |
| `Inventory.InventoryDb.UpdateStock` | inventory_management.py:154-167 | Read-check-write with three outcomes: not-found iff the id is absent; below-zero iff current + delta < 0, with no write in either case; otherwise only that row's quantity becomes current + delta ≥ 0. The stock floor is preserved. |
| `Inventory.InventoryDb.SearchProducts` | inventory_management.py:179-180 | Returns exactly the stored rows whose name or category contains the keyword (ASCII case-insensitive). The empty keyword returns `GetProducts`. |

## Left out

- Connections, cursors, `commit`, `close` and the `finally` blocks are not modelled. The tables are object fields, and each method runs atomically. The `SELECT` and then `UPDATE` of `update_stock` (lines 154 and 162) is atomic only under the single-session use the program assumes; concurrent writers are not modelled.
- Logging, `print` messages and the `.env` settings for the database and log file names are not modelled. Reported outcomes are the result datatypes `StockOutcome` and `RegisterOutcome`.
- The generic `except Exception` branches for storage failures are not modelled, and neither are the empty lists that `get_products` and `search_products` return on such a failure. These are environmental faults with no state change to specify.
- The interactive `menu` and the login loop in `__main__` are not modelled, and neither is the parsing of their `int()`/`float()` input.
- bcrypt internals are not modelled: work factor, encoding, 72-byte password truncation and salt generation. Hashing is a parameter function; the salt is a method parameter.
- Accounts.Register and Credentials.HashPassword: do not model passwords over 72 bytes. Recent bcrypt releases raise an error for them instead of truncating. `register_user` then takes the generic error branch (lines 71-73) and writes no row, while the model always inserts. `authenticate_user` returns False through lines 89-91.
- `price` is carried as a `real` and never computed with. Floating-point behaviour is not modelled.
- Inventory.InventoryDb.UpdateStock: does not model SQLite's 64-bit INTEGER limit. A sum above 2^63−1 makes the real `UPDATE` fail and land in the generic error branch, while the model writes it; the model's integers are unbounded. A sum below −2^63 is refused by the below-zero test before any statement runs, as in the model. The generic error also arises for a product id outside that range: binding it fails at the `SELECT` (line 154), so the real call reports a generic error and not "not found". The model reports `NotFound`.
- Inventory.InventoryDb.AddProduct: does not model the failures of binding the parameters, and neither does `Catalog.AddProduct`. A quantity outside the 64-bit INTEGER range raises an overflow error. A NaN price binds as NULL and violates `price REAL NOT NULL`. Either way the real call writes no row and takes the generic error branch; the model always inserts the row.
- Inventory.InventoryDb.UpdateProduct: does not model the same binding failures, and neither does `Catalog.UpdateProduct`. A quantity or id outside the 64-bit range, or a NaN price, makes the real call write nothing and take the generic error branch. The model writes the row whenever the id is present.
- Inventory.InventoryDb.DeleteProduct: does not model an id outside the 64-bit range either. The real call fails to bind it and takes the generic error branch, and the model deletes nothing. The table is unchanged in both.
- Like.ContainsIff: covers only keywords without `%`/`_` wildcards, and ASCII case folding only. SQLite's LIKE treats `%` and `_` in the keyword as wildcards; they are matched literally here. `Like.Contains` and `Catalog.Matches` share these limits.
- Credentials.CheckRejectsOtherPassword and Accounts.RegisterThenWrongPassword assume a collision-free hash under a fixed salt. bcrypt only approximates this.
