/**
 * The product table and the effect of the `add_product`, `update_product`,
 * `delete_product` and `low_stock` handlers of app.py on it, as functions of
 * the table. `secure_filename` is the uninterpreted function `sanitize`.
 */
module Products {
  import opened Wrappers
  import opened RowIds
  import opened Uploads

  /** A row of the product table. `price` is only stored and copied. */
  datatype Product = Product(id: nat, name: string, category: string, quantity: int, price: real,
                             image: Option<string>)

  /** The fixed reorder threshold of the low-stock view. */
  const LOW_STOCK_THRESHOLD: int := 5

  function ProductIds(ps: seq<Product>): seq<nat>
  {
    seq(|ps|, i requires 0 <= i < |ps| => ps[i].id)
  }

  /** The table invariant: ids increase in storage order (so they are unique). */
  predicate ValidProducts(ps: seq<Product>)
  {
    StrictlyIncreasing(ProductIds(ps))
  }

  /** The invariant read record by record. */
  lemma ValidProductsByRecord(ps: seq<Product>)
    ensures ValidProducts(ps) <==> forall i, j :: 0 <= i < j < |ps| ==> ps[i].id < ps[j].id
  {
    assert forall i :: 0 <= i < |ps| ==> ProductIds(ps)[i] == ps[i].id;
  }

  predicate HasId(ps: seq<Product>, id: nat)
  {
    exists i :: 0 <= i < |ps| && ps[i].id == id
  }

  /** `Product.query.get_or_404(id)`: the position of the row with that id, or not-found. */
  function FindProduct(ps: seq<Product>, id: nat): (r: Option<nat>)
    ensures r.None? <==> !HasId(ps, id)
    ensures r.Some? ==> r.value < |ps| && ps[r.value].id == id
  {
    if ps == [] then None
    else if ps[0].id == id then Some(0)
    else
      match FindProduct(ps[1..], id)
      case None => None
      case Some(k) =>
        assert ps[k + 1] == ps[1..][k];
        Some(k + 1)
  }

  /**
   * The image name an upload leaves in the record: the sanitised upload name
   * when a file was sent and its name passes `allowed_file`, otherwise none.
   * (A file part with an empty name is falsy; `AllowedFile("")` is false too.)
   */
  function AcceptedImage(upload: Option<string>, sanitize: string -> string): (r: Option<string>)
    ensures r.Some? <==> upload.Some? && AllowedFile(upload.value)
    ensures r.Some? ==> r.value == sanitize(upload.value)
  {
    if upload.Some? && AllowedFile(upload.value) then Some(sanitize(upload.value)) else None
  }

  /** The record `add_product` inserts. */
  function NewProduct(ps: seq<Product>, name: string, category: string, quantity: int, price: real,
                      upload: Option<string>, sanitize: string -> string): Product
  {
    Product(NextRowId(ProductIds(ps)), name, category, quantity, price, AcceptedImage(upload, sanitize))
  }

  /**
   * The in-place field update of `update_product`: name, category, quantity
   * and price are overwritten; the image only when an allowed file came.
   */
  function Overwrite(p: Product, name: string, category: string, quantity: int, price: real,
                     upload: Option<string>, sanitize: string -> string): Product
  {
    var image := match AcceptedImage(upload, sanitize)
                 case Some(f) => Some(f)
                 case None => p.image;
    Product(p.id, name, category, quantity, price, image)
  }

  /** The table after `update_product(id)`, or None for not-found. */
  function Updated(ps: seq<Product>, id: nat, name: string, category: string, quantity: int, price: real,
                   upload: Option<string>, sanitize: string -> string): (r: Option<seq<Product>>)
    ensures r.None? <==> !HasId(ps, id)
  {
    match FindProduct(ps, id)
    case None => None
    case Some(i) => Some(ps[i := Overwrite(ps[i], name, category, quantity, price, upload, sanitize)])
  }

  /** The table after `delete_product(id)`, or None for not-found. */
  function Deleted(ps: seq<Product>, id: nat): (r: Option<seq<Product>>)
    ensures r.None? <==> !HasId(ps, id)
  {
    match FindProduct(ps, id)
    case None => None
    case Some(i) => Some(ps[..i] + ps[i + 1..])
  }

  predicate IsLowStock(p: Product)
  {
    p.quantity <= LOW_STOCK_THRESHOLD
  }

  /** `r` is `s` with some elements left out, the rest kept in order. */
  predicate SubsequenceOf<T(==)>(r: seq<T>, s: seq<T>)
    decreases |s|
  {
    if s == [] then r == []
    else
      || (r != [] && r[0] == s[0] && SubsequenceOf(r[1..], s[1..]))
      || SubsequenceOf(r, s[1..])
  }

  /** `Product.query.filter(Product.quantity <= 5).all()`. */
  function LowStock(ps: seq<Product>): seq<Product>
  {
    if ps == [] then []
    else if IsLowStock(ps[0]) then [ps[0]] + LowStock(ps[1..])
    else LowStock(ps[1..])
  }

  /**
   * The low-stock view holds exactly the low-stock records, each as often as
   * it is stored, in storage order.
   */
  lemma {:induction false} LowStockSelectsExactly(ps: seq<Product>)
    ensures forall p :: p in LowStock(ps) <==> p in ps && IsLowStock(p)
    ensures forall p :: multiset(LowStock(ps))[p] == if IsLowStock(p) then multiset(ps)[p] else 0
    ensures SubsequenceOf(LowStock(ps), ps)
    decreases |ps|
  {
    if ps != [] {
      LowStockSelectsExactly(ps[1..]);
      assert ps == [ps[0]] + ps[1..];
    }
  }

  /** Adding the next record keeps the table invariant. */
  lemma AddPreservesValid(ps: seq<Product>, name: string, category: string, quantity: int, price: real,
                          upload: Option<string>, sanitize: string -> string)
    requires ValidProducts(ps)
    ensures ValidProducts(ps + [NewProduct(ps, name, category, quantity, price, upload, sanitize)])
  {
    var p := NewProduct(ps, name, category, quantity, price, upload, sanitize);
    assert ProductIds(ps + [p]) == ProductIds(ps) + [NextRowId(ProductIds(ps))];
    AppendNextRowId(ProductIds(ps));
  }

  /**
   * Update of a stored id overwrites that record's four fields, keeps its id
   * and, unless an allowed file came, its image; every other record stays
   * where and as it was.
   */
  lemma UpdateOverwritesOnlyThat(ps: seq<Product>, id: nat, name: string, category: string, quantity: int,
                                 price: real, upload: Option<string>, sanitize: string -> string)
    requires ValidProducts(ps) && HasId(ps, id)
    ensures
      var r := Updated(ps, id, name, category, quantity, price, upload, sanitize);
      && r.Some?
      && |r.value| == |ps|
      && ValidProducts(r.value)
      && (forall j :: 0 <= j < |ps| && ps[j].id != id ==> r.value[j] == ps[j])
      && (forall j :: 0 <= j < |ps| && ps[j].id == id ==>
            && r.value[j].id == id && r.value[j].name == name && r.value[j].category == category
            && r.value[j].quantity == quantity && r.value[j].price == price
            && r.value[j].image == (if upload.Some? && AllowedFile(upload.value)
                                    then Some(sanitize(upload.value)) else ps[j].image))
  {
    var r := Updated(ps, id, name, category, quantity, price, upload, sanitize).value;
    ValidProductsByRecord(ps);
    ValidProductsByRecord(r);
  }

  /**
   * Delete of a stored id removes that record and no other, and keeps the
   * rest in storage order.
   */
  lemma DeleteRemovesOnlyThat(ps: seq<Product>, id: nat)
    requires ValidProducts(ps) && HasId(ps, id)
    ensures
      var r := Deleted(ps, id);
      && r.Some?
      && |r.value| == |ps| - 1
      && ValidProducts(r.value)
      && SubsequenceOf(r.value, ps)
      && !HasId(r.value, id)
      && (forall p :: p in r.value <==> p in ps && p.id != id)
  {
    var i := FindProduct(ps, id).value;
    RemoveAtIsSubsequence(ps, i);
    RemoveAtMembers(ps, i);
  }

  /** Leaving out record `i` keeps the invariant and drops exactly the records with its id. */
  lemma RemoveAtMembers(ps: seq<Product>, i: nat)
    requires ValidProducts(ps) && i < |ps|
    ensures ValidProducts(ps[..i] + ps[i + 1..])
    ensures forall p :: p in ps[..i] + ps[i + 1..] <==> p in ps && p.id != ps[i].id
  {
    var r := ps[..i] + ps[i + 1..];
    assert forall k :: 0 <= k < |r| ==> r[k] == ps[if k < i then k else k + 1];
    ValidProductsByRecord(ps);
    ValidProductsByRecord(r);
    forall p | p in ps && p.id != ps[i].id
      ensures p in r
    {
      var k :| 0 <= k < |ps| && ps[k] == p;
      assert r[if k < i then k else k - 1] == p;
    }
  }

  /** Leaving out one element gives a subsequence. */
  lemma {:induction false} RemoveAtIsSubsequence<T>(s: seq<T>, i: nat)
    requires i < |s|
    ensures SubsequenceOf(s[..i] + s[i + 1..], s)
    decreases i
  {
    var r := s[..i] + s[i + 1..];
    if i == 0 {
      assert r == s[1..];
      SelfIsSubsequence(s[1..]);
    } else {
      assert r[0] == s[0];
      assert r[1..] == s[1..][..i - 1] + s[1..][i..];
      RemoveAtIsSubsequence(s[1..], i - 1);
    }
  }

  /** Every sequence is a subsequence of itself. */
  lemma {:induction false} SelfIsSubsequence<T>(s: seq<T>)
    ensures SubsequenceOf(s, s)
    decreases |s|
  {
    if s != [] {
      SelfIsSubsequence(s[1..]);
    }
  }

  /** Appending a record extends the low-stock view by it exactly when it is low on stock. */
  lemma {:induction false} LowStockAppend(ps: seq<Product>, p: Product)
    ensures LowStock(ps + [p]) == LowStock(ps) + (if IsLowStock(p) then [p] else [])
  {
    if ps == [] {
      assert [] + [p] == [p];
    } else {
      assert (ps + [p])[1..] == ps[1..] + [p];
      LowStockAppend(ps[1..], p);
    }
  }

  /**
   * A record added with quantity 3 shows up in the low-stock view; one added
   * with quantity 6 does not.
   */
  lemma AddedProductInLowStock(ps: seq<Product>, name: string, category: string, price: real,
                               upload: Option<string>, sanitize: string -> string)
    ensures NewProduct(ps, name, category, 3, price, upload, sanitize)
              in LowStock(ps + [NewProduct(ps, name, category, 3, price, upload, sanitize)])
    ensures NewProduct(ps, name, category, 6, price, upload, sanitize)
              !in LowStock(ps + [NewProduct(ps, name, category, 6, price, upload, sanitize)])
  {
    var low := NewProduct(ps, name, category, 3, price, upload, sanitize);
    var high := NewProduct(ps, name, category, 6, price, upload, sanitize);
    LowStockSelectsExactly(ps + [low]);
    LowStockSelectsExactly(ps + [high]);
  }

  /** An upload named `….exe` leaves the new record without an image. */
  lemma ExeUploadStoresNoImage(stem: string, sanitize: string -> string)
    ensures AcceptedImage(Some(stem + ".exe"), sanitize) == None
  {
    assert stem + ".exe" == stem + "." + "exe";
    assert Lower("exe") == "exe";
    AllowedFileBySuffix(stem, "exe");
  }
}
