/** The product catalogue service over the `products` table: creation
    without validation, updates that keep the stored image unless a new one
    is given, removal of the replaced or deleted upload, and the category and
    name search. File removal (`unlink`) is recorded as the path it is
    asked for. */
module Products {
  import opened Js
  import opened Table

  const PK: Key := ProductId

  /** The fields `readProduct` keeps. */
  const ProductFields: set<Key> := {Name, Description, Price, Category, ProductImg}

  /** The columns `getAllProducts` selects (no `category`). */
  const ListedColumns: set<Key> := {ProductId, Name, Price, Description, ProductImg}

  /** Only files under this directory are ever removed. */
  const UploadsPrefix: string := "/public/uploads"

  /** The category that stands for every category. */
  const AllCategories: string := "All"

  /** `readProduct`: the five product fields of a payload, and nothing else. */
  function ReadProduct(payload: Object): (r: Object)
    ensures r.Keys == ProductFields
    ensures forall k :: Get(r, k) == if k in ProductFields then Get(payload, k) else Undefined
  {
    Pick(payload, ProductFields)
  }

  /** The five product fields are none of the keys the service manages itself. */
  lemma ProductField(k: Key)
    requires k in ProductFields
    ensures k != PK && k != Id
  {
  }

  /** The update `updateProduct` writes: the product fields, without the
      image when the payload's image is falsy. */
  function ProductUpdate(payload: Object): Object
  {
    var update := ReadProduct(payload);
    if !Truthy(Get(update, ProductImg)) then update - {ProductImg} else update
  }

  /** The old image file is removed only when a new image is set, an old one
      is set, they differ, and the old one is an upload. */
  predicate ReplacesUpload(newImage: Value, oldImage: Value)
  {
    Truthy(newImage) && Truthy(oldImage) && newImage != oldImage && ValueStartsWith(oldImage, UploadsPrefix)
  }

  /** The path `unlink` is given for a stored image: `.${product_img}`. */
  function UploadPath(image: Value): string
  {
    "." + (if image.Str? then image.s else "")
  }

  /** What `createProduct` does: the returned object and the table afterwards. */
  function CreateStep(db: Db, productData: Object): (Object, Db)
  {
    var product := ReadProduct(productData);
    (map[Id := Num(db.nextId as real)] + product, Insert(db, product, PK))
  }

  /** What `updateProduct` does: the result (`None` for null), the file it
      removes, and the table afterwards. */
  function UpdateStep(db: Db, id: nat, payload: Object): (Option<Object>, Option<string>, Db)
  {
    if id !in db.rows then (None, None, db)
    else
      var stored := Read(db, PK, id);
      var update := ProductUpdate(payload);
      var removed := if ReplacesUpload(Get(update, ProductImg), Get(stored, ProductImg))
                     then Some(UploadPath(Get(stored, ProductImg))) else None;
      (Some(stored + update), removed, Update(db, PK, id, update))
  }

  /** What `deleteProduct` does: the result (`{ product_img }`, or `None`
      for null), the file it removes, and the table afterwards. */
  function DeleteStep(db: Db, id: nat): (Option<Object>, Option<string>, Db)
  {
    if id !in db.rows then (None, None, db)
    else
      var found := Select(Read(db, PK, id), {ProductImg});
      var image := found[ProductImg];
      var removed := if Truthy(image) && ValueStartsWith(image, UploadsPrefix) then Some(UploadPath(image)) else None;
      (Some(found), removed, Delete(db, id))
  }

  /** The text a template literal `${v}` makes of a query parameter. */
  function TemplateText(v: Option<string>): string
  {
    if v.Some? then v.value else "undefined"
  }

  /** The `WHERE` clause of `searchProductbyCate`. */
  function SearchCondition(category: Option<string>, name: Option<string>): Condition
  {
    var c := if category == Some(AllCategories) then "" else TemplateText(category);
    if name.Some? && name.value != "" then Both(Like(Category, c), Like(Name, name.value))
    else Like(Category, c)
  }

  /** The rows a search lists, in scan order. */
  function Found(db: Db, category: Option<string>, name: Option<string>): seq<Object>
  {
    var ids := Matching(db, PK, SearchCondition(category, name), 0);
    ReadEach(db, PK, ids)
  }

  /** The rows in key order, as `getAllProducts` selects them. */
  function AllProducts(db: Db): seq<Object>
  {
    SelectEach(ReadEach(db, PK, Matching(db, PK, Everything, 0)), ListedColumns)
  }

  // ---------------------------------------------------------------------
  // Properties of the operations
  // ---------------------------------------------------------------------

  /** The update, one key at a time: a product field the payload sets, the
      image only when it is truthy. */
  lemma GetProductUpdate(payload: Object, k: Key)
    ensures Get(ProductUpdate(payload), k) ==
            if k in ProductFields && (k != ProductImg || Truthy(Get(payload, k))) then Get(payload, k) else Undefined
  {
  }

  /** `createProduct` inserts the product fields the payload defines under
      the next key, and returns that key with all five fields. */
  lemma CreateStores(db: Db, productData: Object)
    requires db.Valid()
    ensures var (r, after) := CreateStep(db, productData);
            && after.Valid() && after.rows.Keys == db.rows.Keys + {db.nextId} && after.nextId == db.nextId + 1
            && (forall other :: other in db.rows ==> after.rows[other] == db.rows[other])
            && (forall k :: Get(after.rows[db.nextId], k) == if k in ProductFields then Get(productData, k) else Undefined)
            && r.Keys == ProductFields + {Id} && r[Id] == Num(db.nextId as real)
            && (forall k :: k in ProductFields ==> r[k] == Get(productData, k))
  {
    InsertFrame(db, ReadProduct(productData), PK);
    StoredProduct(productData);
    ReturnedProduct(db.nextId, productData);
  }

  lemma StoredProduct(productData: Object)
    ensures forall k :: Get(Written(ReadProduct(productData), PK), k) == if k in ProductFields then Get(productData, k) else Undefined
  {
    forall k ensures Get(Written(ReadProduct(productData), PK), k) == if k in ProductFields then Get(productData, k) else Undefined {
      if k in ProductFields {
        ProductField(k);
      }
      GetWritten(ReadProduct(productData), PK, k);
    }
  }

  lemma ReturnedProduct(id: nat, productData: Object)
    ensures var r := map[Id := Num(id as real)] + ReadProduct(productData);
            && r.Keys == ProductFields + {Id} && r[Id] == Num(id as real)
            && (forall k :: k in ProductFields ==> r[k] == Get(productData, k))
  {
    forall k | k in ProductFields ensures (map[Id := Num(id as real)] + ReadProduct(productData))[k] == Get(productData, k) {
      ProductField(k);
    }
  }

  /** An absent id gives null, removes no file and writes nothing. */
  lemma UpdateAbsent(db: Db, id: nat, payload: Object)
    requires id !in db.rows
    ensures UpdateStep(db, id, payload) == (None, None, db)
  {
  }

  /** An update of a present row rewrites that row only: the product fields
      the payload defines, the image only when the new one is truthy. */
  lemma UpdateWrites(db: Db, id: nat, payload: Object)
    requires db.Valid() && id in db.rows
    ensures var after := UpdateStep(db, id, payload).2;
            && after.Valid() && after.rows.Keys == db.rows.Keys && after.nextId == db.nextId
            && (forall other :: other in db.rows && other != id ==> after.rows[other] == db.rows[other])
            && forall k :: Get(after.rows[id], k) ==
                 if k in ProductFields && Get(payload, k) != Undefined && (k != ProductImg || Truthy(Get(payload, k)))
                 then Get(payload, k) else Get(db.rows[id], k)
  {
    var update := ProductUpdate(payload);
    assert UpdateStep(db, id, payload).2 == Update(db, PK, id, update);
    UpdateFrame(db, PK, id, update);
    forall k ensures Get(Write(db.rows[id], update, PK), k) ==
                     if k in ProductFields && Get(payload, k) != Undefined && (k != ProductImg || Truthy(Get(payload, k)))
                     then Get(payload, k) else Get(db.rows[id], k)
    {
      if k in ProductFields {
        ProductField(k);
      }
      GetWrite(db.rows[id], update, PK, k);
      GetProductUpdate(payload, k);
    }
  }

  /** A falsy new image leaves the stored image as it was. */
  lemma UpdateKeepsImage(db: Db, id: nat, payload: Object)
    requires db.Valid() && id in db.rows && !Truthy(Get(payload, ProductImg))
    ensures Get(UpdateStep(db, id, payload).2.rows[id], ProductImg) == Get(db.rows[id], ProductImg)
    ensures UpdateStep(db, id, payload).1 == None
  {
    UpdateWrites(db, id, payload);
    GetProductUpdate(payload, ProductImg);
  }

  /** The old file is removed exactly when the four conditions hold, and the
      path removed is the stored one under the working directory. */
  lemma UpdateRemovesReplacedUpload(db: Db, id: nat, payload: Object)
    requires id in db.rows
    ensures var removed := UpdateStep(db, id, payload).1;
            var oldImage := Get(db.rows[id], ProductImg);
            && (removed.Some? <==> ReplacesUpload(Get(payload, ProductImg), oldImage))
            && (removed.Some? ==> removed.value == "." + oldImage.s && StartsWith(removed.value[1..], UploadsPrefix))
  {
    GetProductUpdate(payload, ProductImg);
    assert Get(Read(db, PK, id), ProductImg) == Get(db.rows[id], ProductImg);
    var oldImage := Get(db.rows[id], ProductImg);
    if ReplacesUpload(Get(payload, ProductImg), oldImage) {
      assert ("." + oldImage.s)[1..] == oldImage.s;
    }
  }

  /** The result is the old row overlaid with the update object: a product
      field the payload leaves undefined reads as undefined in the result
      (while the stored row keeps it), except the image, which keeps the
      old value when the new one is falsy. */
  lemma UpdateReturns(db: Db, id: nat, payload: Object)
    requires id in db.rows
    ensures var r := UpdateStep(db, id, payload).0;
            && r.Some?
            && forall k :: Get(r.value, k) ==
                 if k in ProductFields && (k != ProductImg || Truthy(Get(payload, k))) then Get(payload, k)
                 else Get(Read(db, PK, id), k)
  {
    var stored := Read(db, PK, id);
    var update := ProductUpdate(payload);
    assert UpdateStep(db, id, payload).0 == Some(stored + update);
    forall k ensures Get(stored + update, k) ==
                     if k in ProductFields && (k != ProductImg || Truthy(Get(payload, k))) then Get(payload, k)
                     else Get(stored, k)
    {
      GetProductUpdate(payload, k);
    }
  }

  /** An absent id gives null, removes no file and deletes nothing. */
  lemma DeleteAbsent(db: Db, id: nat)
    requires id !in db.rows
    ensures DeleteStep(db, id) == (None, None, db)
  {
  }

  /** Deleting a present row removes that row only, returns its image
      column, and removes the file only when the image is a truthy upload path. */
  lemma DeleteRemovesRow(db: Db, id: nat)
    requires id in db.rows
    ensures var (r, removed, after) := DeleteStep(db, id);
            var image := Get(db.rows[id], ProductImg);
            && r.Some? && r.value.Keys == {ProductImg}
            && r.value[ProductImg] == (if image == Undefined then Null else image)
            && after.rows.Keys == db.rows.Keys - {id} && after.nextId == db.nextId
            && (forall other :: other in after.rows ==> after.rows[other] == db.rows[other])
            && (removed.Some? <==> Truthy(image) && ValueStartsWith(image, UploadsPrefix))
            && (removed.Some? ==> removed.value == "." + image.s)
  {
    assert Get(Read(db, PK, id), ProductImg) == Get(db.rows[id], ProductImg);
  }

  /** A search accepts a row exactly when its category contains the
      searched text ("All" searching for the empty text, an absent category
      for "undefined") and, when a name is given, its name contains it. */
  lemma SearchAccepts(category: Option<string>, name: Option<string>, row: Object)
    ensures var c := if category == Some(AllCategories) then "" else TemplateText(category);
            Accepts(SearchCondition(category, name), row) <==>
              && Get(row, Category).Str? && Contains(Get(row, Category).s, c)
              && (name.Some? && name.value != "" ==> Get(row, Name).Str? && Contains(Get(row, Name).s, name.value))
  {
  }

  /** The empty text is contained in every text. */
  lemma ContainsEmpty(s: string)
    ensures Contains(s, "")
  {
    assert StartsWith(s, "");
  }

  /** "All" without a name lists every row whose category is a string. */
  lemma SearchAllCategories(name: Option<string>, row: Object)
    requires name.None? || name == Some("")
    ensures Accepts(SearchCondition(Some(AllCategories), name), row) <==> Get(row, Category).Str?
  {
    if Get(row, Category).Str? {
      ContainsEmpty(Get(row, Category).s);
    }
  }

  // ---------------------------------------------------------------------
  // The service object
  // ---------------------------------------------------------------------

  /** `ProductService`, holding the `products` table. */
  class ProductService {
    var rows: Rows
    var nextId: nat

    function State(): Db
      reads this
    {
      Db(rows, nextId)
    }

    predicate Valid()
      reads this
    {
      State().Valid()
    }

    constructor (table: Db)
      requires table.Valid()
      ensures Valid() && State() == table
    {
      rows, nextId := table.rows, table.nextId;
    }

    /** `getAllProducts(page, limit)`: the count of all rows, and one page of
        the listed columns. */
    method GetAllProducts(p: Paginator) returns (r: Listing)
      requires Valid()
      ensures r.metadataCount == |rows|
      ensures r.items == Window(AllProducts(State()), p)
      ensures forall i :: 0 <= i < |r.items| ==> r.items[i].Keys == ListedColumns
    {
      MatchingCount(State(), PK, Everything);
      assert Accepted(State(), PK, Everything) == rows.Keys;
      var totalRecords := |rows|;
      var products := Window(SelectEach(ReadEach(State(), PK, Matching(State(), PK, Everything, 0)), ListedColumns), p);
      r := Listing(totalRecords, products);
    }

    /** `getProductById(id)`: the row, or `None` for `undefined`. */
    method GetProductById(id: nat) returns (r: Option<Object>)
      requires Valid()
      ensures r.None? <==> id !in rows
      ensures r.Some? ==> Get(r.value, PK) == Num(id as real)
      ensures r.Some? ==> forall k :: k != PK ==> Get(r.value, k) == Get(rows[id], k)
    {
      FirstByKey(State(), PK, id);
      var found := First(State(), PK, Equals(PK, Num(id as real)));
      if found.None? {
        return None;
      }
      r := Some(Read(State(), PK, found.value));
    }

    method CreateProduct(productData: Object) returns (r: Object)
      requires Valid()
      modifies this
      ensures Valid()
      ensures (r, State()) == CreateStep(old(State()), productData)
    {
      var product := ReadProduct(productData);
      var id := nextId;
      var inserted := Insert(State(), product, PK);
      InsertFrame(State(), product, PK);
      rows, nextId := inserted.rows, inserted.nextId;
      assert State() == inserted;
      r := map[Id := Num(id as real)] + product;
    }

    /** `updateProduct(product_id, payload)`; `removed` is the file `unlink` is asked to remove. */
    method UpdateProduct(id: nat, payload: Object) returns (r: Option<Object>, removed: Option<string>)
      requires Valid()
      modifies this
      ensures Valid()
      ensures (r, removed, State()) == UpdateStep(old(State()), id, payload)
    {
      if id !in rows {
        return None, None;
      }
      var updateProduct := Read(State(), PK, id);
      var update := ReadProduct(payload);
      if !Truthy(Get(update, ProductImg)) {
        update := update - {ProductImg};
      }
      rows := rows[id := Write(rows[id], update, PK)];
      removed := None;
      if Truthy(Get(update, ProductImg)) && Truthy(Get(updateProduct, ProductImg)) &&
         Get(update, ProductImg) != Get(updateProduct, ProductImg) &&
         ValueStartsWith(Get(updateProduct, ProductImg), UploadsPrefix) {
        removed := Some(UploadPath(Get(updateProduct, ProductImg)));
      }
      r := Some(updateProduct + update);
    }

    /** `deleteProduct(product_id)`; `removed` is the file `unlink` is asked to remove. */
    method DeleteProduct(id: nat) returns (r: Option<Object>, removed: Option<string>)
      requires Valid()
      modifies this
      ensures Valid()
      ensures (r, removed, State()) == DeleteStep(old(State()), id)
    {
      if id !in rows {
        return None, None;
      }
      var deleteProduct := Select(Read(State(), PK, id), {ProductImg});
      rows := rows - {id};
      removed := None;
      if Truthy(deleteProduct[ProductImg]) && ValueStartsWith(deleteProduct[ProductImg], UploadsPrefix) {
        removed := Some(UploadPath(deleteProduct[ProductImg]));
      }
      r := Some(deleteProduct);
    }

    /** `searchProductbyCate(page, limit, category, name)`: the count and
        the page are taken over the same clause. */
    method SearchProductByCate(p: Paginator, category: Option<string>, name: Option<string>) returns (r: Listing)
      requires Valid()
      ensures r.metadataCount == |Accepted(State(), PK, SearchCondition(category, name))|
      ensures r.items == Window(Found(State(), category, name), p)
      ensures forall i :: 0 <= i < |r.items| ==> Accepts(SearchCondition(category, name), r.items[i])
    {
      var c := category;
      if c == Some(AllCategories) {
        c := Some("");
      }
      var query := Like(Category, TemplateText(c));
      if name.Some? && name.value != "" {
        query := Both(query, Like(Name, name.value));
      }
      assert query == SearchCondition(category, name);
      MatchingCount(State(), PK, query);
      var ids := Matching(State(), PK, query, 0);
      MatchingAll(State(), PK, query);
      var totalRecords := |ids|;
      var products := Window(ReadEach(State(), PK, ids), p);
      r := Listing(totalRecords, products);
    }
  }
}
