/**
 * The request handlers of app.py over one in-memory application state: the
 * user table, the product table and the session of the requesting client.
 * Each handler is a method that changes that state as the handler does;
 * `login_required` is the `Authenticated()` test every product handler
 * makes before anything else.
 */
module WebApp {
  import opened Wrappers
  import opened RowIds
  import opened Uploads
  import opened Accounts
  import opened Products

  /** The values the handlers store in the session. */
  datatype SessionValue = IntValue(n: int) | TextValue(s: string)

  const USER_ID_KEY: string := "user_id"
  const USERNAME_KEY: string := "username"

  /** What a product handler answers: its page, a redirect to login, or 404. */
  datatype Response = Done | LoginRequired | NotFound

  /** The session after a successful login of `u`: both keys set, all other keys kept. */
  function BindSession(session: map<string, SessionValue>, u: User): (r: map<string, SessionValue>)
    ensures r.Keys == session.Keys + {USER_ID_KEY, USERNAME_KEY}
    ensures r[USER_ID_KEY] == IntValue(u.id) && r[USERNAME_KEY] == TextValue(u.username)
    ensures forall k :: k in session && k != USER_ID_KEY && k != USERNAME_KEY ==> r[k] == session[k]
  {
    session[USER_ID_KEY := IntValue(u.id)][USERNAME_KEY := TextValue(u.username)]
  }

  class Inventory {
    var users: seq<User>
    var products: seq<Product>
    var session: map<string, SessionValue>

    ghost predicate Valid()
      reads this
    {
      ValidUsers(users) && ValidProducts(products)
    }

    /**
     * The application over the rows already stored in the database file
     * (both empty on a first start) and a client without a session.
     */
    constructor (users0: seq<User>, products0: seq<Product>)
      requires ValidUsers(users0) && ValidProducts(products0)
      ensures Valid()
      ensures users == users0 && products == products0 && session == map[]
    {
      users, products, session := users0, products0, map[];
    }

    /** The test `login_required` makes before running a handler. */
    predicate Authenticated()
      reads this
    {
      USER_ID_KEY in session
    }

    /** `register` (POST). */
    method Register(username: string, email: string, passwordHash: string) returns (outcome: RegisterOutcome)
      requires Valid()
      modifies this`users
      ensures Valid()
      ensures (outcome, users) == Registration(old(users), username, email, passwordHash)
    {
      if FindUser(users, username).Some? {
        outcome := UsernameExists;
        return;
      }
      if EmailTaken(users, email) {
        outcome := EmailExists;
        return;
      }
      RegistrationPreservesValid(users, username, email, passwordHash);
      users := users + [NewUser(users, username, email, passwordHash)];
      outcome := Registered;
    }

    /** `login` (POST): on success both session keys are set, on failure the session is untouched. */
    method Login(username: string, password: string, checkPassword: (string, string) -> bool)
      returns (ok: bool)
      modifies this`session
      ensures ok == Authenticate(users, username, password, checkPassword).Some?
      ensures session == match Authenticate(users, username, password, checkPassword)
                         case Some(u) => BindSession(old(session), u)
                         case None => old(session)
      ensures ok ==> Authenticated()
    {
      var found := FindUser(users, username);
      if found.Some? && checkPassword(users[found.value].passwordHash, password) {
        var user := users[found.value];
        session := session[USER_ID_KEY := IntValue(user.id)];
        session := session[USERNAME_KEY := TextValue(user.username)];
        ok := true;
      } else {
        ok := false;
      }
    }

    /** `logout`: the session is cleared whatever it held. */
    method Logout()
      modifies this`session
      ensures session == map[]
      ensures !Authenticated()
    {
      session := map[];
    }

    /** `add_product` (POST): the record is stored with or without an image. */
    method AddProduct(name: string, category: string, quantity: int, price: real,
                      upload: Option<string>, sanitize: string -> string) returns (response: Response)
      requires Valid()
      modifies this`products
      ensures Valid()
      ensures response == if Authenticated() then Done else LoginRequired
      ensures products == if Authenticated()
                          then old(products) + [NewProduct(old(products), name, category, quantity, price, upload, sanitize)]
                          else old(products)
    {
      if !Authenticated() {
        response := LoginRequired;
        return;
      }
      var image: Option<string> := None;
      if upload.Some? && AllowedFile(upload.value) {
        image := Some(sanitize(upload.value));
      }
      AddPreservesValid(products, name, category, quantity, price, upload, sanitize);
      var product := Product(NextRowId(ProductIds(products)), name, category, quantity, price, image);
      products := products + [product];
      response := Done;
    }

    /** `update_product` (POST): overwrite one record's fields in place, or 404. */
    method UpdateProduct(id: nat, name: string, category: string, quantity: int, price: real,
                         upload: Option<string>, sanitize: string -> string) returns (response: Response)
      requires Valid()
      modifies this`products
      ensures Valid()
      ensures response == if !Authenticated() then LoginRequired
                          else if HasId(old(products), id) then Done
                          else NotFound
      ensures products == if response == Done
                          then Updated(old(products), id, name, category, quantity, price, upload, sanitize).value
                          else old(products)
    {
      if !Authenticated() {
        response := LoginRequired;
        return;
      }
      var found := FindProduct(products, id);
      if found.None? {
        response := NotFound;
        return;
      }
      UpdateOverwritesOnlyThat(products, id, name, category, quantity, price, upload, sanitize);
      var i := found.value;
      var product := products[i];
      product := product.(name := name, category := category, quantity := quantity, price := price);
      if upload.Some? && AllowedFile(upload.value) {
        product := product.(image := Some(sanitize(upload.value)));
      }
      products := products[i := product];
      response := Done;
    }

    /** `update_product` (GET): the record shown in the edit form, or 404. */
    method EditForm(id: nat) returns (response: Response, product: Option<Product>)
      ensures response == if !Authenticated() then LoginRequired
                          else if HasId(products, id) then Done
                          else NotFound
      ensures product.Some? <==> response == Done
      ensures product.Some? ==> product.value in products && product.value.id == id
    {
      product := None;
      if !Authenticated() {
        response := LoginRequired;
        return;
      }
      var found := FindProduct(products, id);
      if found.None? {
        response := NotFound;
        return;
      }
      product := Some(products[found.value]);
      response := Done;
    }

    /** `delete_product`: remove the record with that id, or 404. */
    method DeleteProduct(id: nat) returns (response: Response)
      requires Valid()
      modifies this`products
      ensures Valid()
      ensures response == if !Authenticated() then LoginRequired
                          else if HasId(old(products), id) then Done
                          else NotFound
      ensures products == if response == Done then Deleted(old(products), id).value else old(products)
    {
      if !Authenticated() {
        response := LoginRequired;
        return;
      }
      var found := FindProduct(products, id);
      if found.None? {
        response := NotFound;
        return;
      }
      DeleteRemovesOnlyThat(products, id);
      var i := found.value;
      products := products[..i] + products[i + 1..];
      response := Done;
    }

    /** `low_stock`: the records whose quantity is at most the threshold. */
    method LowStockPage() returns (response: Response, listed: seq<Product>)
      ensures response == if Authenticated() then Done else LoginRequired
      ensures listed == if Authenticated() then LowStock(products) else []
    {
      if !Authenticated() {
        response, listed := LoginRequired, [];
        return;
      }
      response, listed := Done, LowStock(products);
    }
  }
}
