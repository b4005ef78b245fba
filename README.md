# Inventory web application: a Dafny model of its rules

The application is a small Flask inventory tracker (`app.py`). Users register
and log in; logged-in users add, edit, delete and list products (name,
category, quantity, price, optional image). There is also a low-stock view.
This project models the decision logic of those handlers. It works over an
in-memory picture of the two tables and of the client's session. It proves
what each handler does to that state.

Modules, in dependency order:

- `Wrappers`: the `Option` type.
- `RowIds`: ids of new rows. The model assumes that both tables use an
  integer primary key without AUTOINCREMENT. The schema is in models.py,
  which is not part of this model. Under that assumption SQLite gives a new
  row the largest id plus one, or 1 for an empty table. The id of a deleted
  largest row can therefore be given out again.
- Both tables are kept in strictly increasing id order. The queries at
  app.py:64 and app.py:175 have no ORDER BY, so SQL guarantees no order. The
  model assumes SQLite's usual table scan, which returns rows in rowid order.
- `Uploads`: `allowed_file`, the check on upload filenames. It looks at the
  text after the last dot, lower-cased, and accepts png, jpg, jpeg and gif.
- `Accounts`: the user table and the rules of `register` and `login`, as
  functions of the table.
- `Products`: the product table and the effect of add, update, delete and
  low-stock on it, as functions of the table.
- `WebApp`: the class `Inventory`. It holds the user table, the product table
  and the session map, and has one method per handler. Every product handler
  first makes the `login_required` test (`Authenticated()`: `"user_id"` is a
  session key). When the test fails, the handler answers `LoginRequired` and
  changes nothing.

Abstractions, each a parameter of the method that needs it:

- Salted password hashing is random. `Register` therefore takes the stored hash
  as an input, and the password check is a predicate
  `checkPassword(hash, password)` that the caller of `Login` supplies.
- `secure_filename` is a function `sanitize` that the caller of
  `AddProduct` / `UpdateProduct` supplies.
- An upload is `Option<string>`: the uploaded file's name, or `None` when the
  form had no file part.

Two choices follow the code:
- Quantity is any integer: nothing in app.py rejects a negative one.
- Update overwrites name, category, quantity and price on every POST (app.py:143-146).

## Model

| member | source | states |
|---|---|---|
| `RowIds.MaxId` | app.py:123-131 | the largest stored id (0 for an empty table) bounds every id and is one of them |
| `RowIds.NextRowId` | app.py:123-131 | a new row's id is at least 1, larger than every stored id (so fresh), and 1 for an empty table |
| `RowIds.AppendNextRowId` | app.py:48-51 | appending the next row id keeps a table's ids strictly increasing |
| `Uploads.AllowedFile` | app.py:28-29 | the source expression itself, with no contract of its own; its meaning is given by RSplitOnce, AllowedFileBySuffix and NoDotRejected |
| `Uploads.LastDot` | app.py:29 | finds the position of the last dot: none exactly when the name has no dot, otherwise a dot with no dot after it |
| `Uploads.RSplitOnce` | app.py:29 | `rsplit(".", 1)` on a name with a dot: stem + "." + suffix rebuilds the name, and the suffix has no dot |
| `Uploads.SplitAtLastDotUnique` | app.py:29 | a name `stem + "." + ext` with a dot-free `ext` splits into exactly `(stem, ext)` |
| `Uploads.NoDotRejected` | app.py:29 | a filename without a dot is never accepted |
| `Uploads.AllowedFileBySuffix` | app.py:25-29 | `stem + "." + ext` (dot-free `ext`) is accepted if and only if `ext` lower-cased is png, jpg, jpeg or gif |
| `Uploads.AllowedFileIgnoresCase` | app.py:29 | lower-casing the name never changes the verdict |
| `Uploads.AcceptedExamples` | app.py:25-29 | `a.PNG`, `x.tar.gif` and `.jpeg` are accepted: case is ignored, only the text after the last dot counts, the stem may be empty |
| `Uploads.RejectedExamples` | app.py:25-29 | `a.png.exe` and `a.` (empty suffix) are rejected |
| `Accounts.FindUser` | app.py:64 | the first row in storage order with that username; none exactly when no row has it |
| `Accounts.NewUser` | app.py:48-49 | the row `register` inserts, with no contract of its own; that its id is fresh comes from NextRowId, that it is appended only when username and email are free from Registration |
| `Accounts.Registration` | app.py:40-51 | username taken gives UsernameExists; otherwise email taken gives EmailExists; both leave the table unchanged; otherwise exactly one new user row is appended |
| `Accounts.Authenticate` | app.py:64-72 | a user is returned only if it is stored, has that username and passes the password check; with unique usernames, if and only if such a user exists |
| `Accounts.RegistrationPreservesValid` | app.py:40-51 | registration keeps ids increasing and usernames and emails unique |
| `Accounts.SameUsernameRejected` | app.py:40-42 | after a successful registration, a second one with the same username is refused and changes nothing |
| `Accounts.SameEmailRejected` | app.py:44-46 | after a successful registration, a new username with the same email is refused and changes nothing |
| `Accounts.RegisteredUserLogsIn` | app.py:64-72 | a freshly registered user logs in with a password exactly when the check accepts it against the stored hash |
| `Products.FindProduct` | app.py:141 | `get_or_404`: the position of a record with that id, or none exactly when no record has it |
| `Products.AcceptedImage` | app.py:116-120 | an image name is kept exactly when a file came and its name passes `allowed_file`, and then it is the sanitised name |
| `Products.NewProduct` | app.py:123-129 | the record `add_product` builds, with no contract of its own; its image is given by AcceptedImage, its fresh id by NextRowId, and AddPreservesValid shows it keeps the table invariant |
| `Products.Overwrite` | app.py:143-152 | the in-place field update, with no contract of its own; its meaning is given by UpdateOverwritesOnlyThat |
| `Products.Updated` | app.py:141 | update is not-found exactly when no record has the id |
| `Products.Deleted` | app.py:165 | delete is not-found exactly when no record has the id |
| `Products.AddPreservesValid` | app.py:123-131 | appending the new record keeps the product ids increasing |
| `Products.UpdateOverwritesOnlyThat` | app.py:141-155 | update of a stored id overwrites name, category, quantity and price, keeps id and position, and replaces the image only on an allowed upload; all other records are unchanged |
| `Products.DeleteRemovesOnlyThat` | app.py:164-167 | delete of a stored id removes exactly the record with that id, shortens the table by one and keeps the rest in order |
| `Products.LowStock` | app.py:175 | the filter `quantity <= 5`, with no contract of its own; its meaning is given by LowStockSelectsExactly |
| `Products.LowStockSelectsExactly` | app.py:175 | the low-stock view holds exactly the records with quantity at most 5, each as often as stored, in storage order |
| `Products.LowStockAppend` | app.py:175 | appending a record extends the low-stock view by that record exactly when its quantity is at most 5 |
| `Products.AddedProductInLowStock` | app.py:123-131 | a product added with quantity 3 appears in the low-stock view; one added with quantity 6 does not |
| `Products.ExeUploadStoresNoImage` | app.py:116-128 | an upload named `….exe` leaves the new record without an image |
| `WebApp.BindSession` | app.py:66-67 | a login sets `user_id` and `username` to the user's id and name and keeps every other session key |
| `WebApp.Inventory.constructor` | app.py:11-16 | the application starts over the rows already stored in `stock.db` (both tables empty on a first start, since `create_all` only creates missing tables), with a client that has no session |
| `WebApp.Inventory.Authenticated` | app.py:90 | the `login_required` test: `user_id` is a session key; no contract of its own, its meaning is given by the handler methods' contracts, which answer LoginRequired with nothing changed when it fails |
| `WebApp.Inventory.Register` | app.py:33-53 | outcome and new user table are those of `Registration`; the table invariant is kept |
| `WebApp.Inventory.Login` | app.py:58-72 | on success the session is bound to the authenticated user; on failure it is unchanged |
| `WebApp.Inventory.Logout` | app.py:77-79 | the session is emptied, whatever it held, so the guard then fails |
| `WebApp.Inventory.AddProduct` | app.py:106-131 | logged out: LoginRequired with the table unchanged; logged in: exactly one new record, with the accepted image or none |
| `WebApp.Inventory.UpdateProduct` | app.py:138-155 | logged out: LoginRequired; absent id: NotFound; in both cases the table is unchanged; otherwise the table becomes `Updated` |
| `WebApp.Inventory.EditForm` | app.py:138-159 | logged out: LoginRequired; absent id: NotFound; otherwise the stored record with that id, shown unchanged |
| `WebApp.Inventory.DeleteProduct` | app.py:162-169 | logged out: LoginRequired; absent id: NotFound; in both cases the table is unchanged; otherwise the table becomes `Deleted` |
| `WebApp.Inventory.LowStockPage` | app.py:172-176 | logged out: LoginRequired and nothing listed; logged in: the low-stock view of the stored records |

## Left out

- Flask routing, templates, redirects and `app.run`: framework I/O. GET requests to `/register`, `/login` and `/add` only render a form and are not modelled.
- `flash`: it writes its messages into the session; the model's session holds only the keys the handlers write, so after `logout` it is empty rather than holding the logout message.
- SQLAlchemy, commits, `db.create_all` and Flask-Migrate: replaced by the in-memory tables. A request that fails halfway (for instance a bad number in the form) is rolled back by the store; the model assumes well-formed requests.
- Parsing of quantity and price with `int()` / `float()`: Python built-ins that raise on bad input. The source does not restrict quantity to be non-negative.
- WebApp.Inventory.AddProduct, WebApp.Inventory.UpdateProduct: store any integer quantity. Python's sqlite3 refuses to bind an integer outside the 64-bit range, so such an add or update fails at commit (app.py:131, app.py:155); that failure is not modelled.
- Price is a `real`: it is only stored and copied, and floating-point behaviour is not modelled.
- The `index` and `report` routes. `index` lists all products unchanged. `report` sums quantity times price in floating point.
- Password hashing (`generate_password_hash`, `check_password_hash`, `User.set_password` / `check_password`): the hash is an input and the check an uninterpreted predicate. models.py is not part of this model.
- `secure_filename`: an uninterpreted function. Saving the file, creating the upload folder and the 2 MB request limit are filesystem and framework work.
- Uploads.Lower: lower-cases only the ASCII letters A to Z, whereas Python's `str.lower` also lower-cases other Unicode letters.
- RowIds.NextRowId: does not model SQLite's fallback to a random unused id once the largest id reaches 2^63 - 1.
- Concurrent requests: simultaneous updates (last write wins) and clashing upload filenames.
