/** The order item service over the `orderitems` table: validated creation,
    the customer's open items and the administrator's listing (both joined
    to `products` for the product name), unvalidated updates, and deletion. */
module Orders {
  import opened Js
  import opened Table
  import opened Schema
  import Products

  const PK: Key := OrderItemId

  /** The fields `readOrderItem` keeps. */
  const OrderFields: set<Key> := {CustomerId, OrderDate, PaymentMethod, ProductId, Quantity, Price, TotalPrice, Status}

  /** `orderItemSchema()`, in the order Joi checks the keys; only
      `order_date` may be left out. */
  const OrderItemSchema: Schema := [
    Rule(CustomerId, Number, true),
    Rule(OrderDate, Moment, false),
    Rule(PaymentMethod, Text(0, false), true),
    Rule(ProductId, Number, true),
    Rule(Quantity, Number, true),
    Rule(Price, Number, true),
    Rule(TotalPrice, Number, true),
    Rule(Status, Boolean, true)
  ]

  /** `readOrderItem`: the eight order fields of a payload, and nothing else. */
  function ReadOrderItem(payload: Object): (r: Object)
    ensures r.Keys == OrderFields
    ensures forall k :: Get(r, k) == if k in OrderFields then Get(payload, k) else Undefined
  {
    Pick(payload, OrderFields)
  }

  lemma OrderField(k: Key)
    requires k in OrderFields
    ensures k != PK && k != Id && k != ProductName
  {
  }

  /** `.where({ customer_id: userId, status: 0 })`: the customer's items
      whose status is false. */
  function OpenItemsOf(userId: Value): Condition
  {
    Both(Equals(CustomerId, userId), Equals(Status, Num(0.0)))
  }

  /** The product an item names, joined on `product_id`. */
  function ProductOf(products: Db, item: Object): Option<nat>
  {
    First(products, Products.PK, Equals(Products.PK, Get(item, ProductId)))
  }

  /** `orderitems.*` with `products.name as product_name` of the product stored under `pid`. */
  function WithProductName(item: Object, products: Db, pid: nat): Object
    requires pid in products.rows
  {
    item + map[ProductName := Select(Read(products, Products.PK, pid), {Name})[Name]]
  }

  /** The inner join: the items whose product exists, each with its product's name. */
  function Joined(items: seq<Object>, products: Db): (r: seq<Object>)
    ensures |r| <= |items|
    decreases |items|
  {
    if items == [] then []
    else
      var rest := Joined(items[1..], products);
      match ProductOf(products, items[0])
      case None => rest
      case Some(pid) =>
        [WithProductName(items[0], products, pid)] + rest
  }

  /** The items of the table the clause accepts, in scan order, joined. */
  function Listed(db: Db, products: Db, cond: Condition): seq<Object>
  {
    Joined(ReadEach(db, PK, Matching(db, PK, cond, 0)), products)
  }

  /** What `createOrderItem` does: the result and the table afterwards. */
  function CreateStep(db: Db, orderItem: Object, f: Formats): (Result<Object, Failure>, Db)
  {
    match Validate(OrderItemSchema, orderItem, f)
    case Some(failure) => (Err(failure), db)
    case None =>
      var itemData := ReadOrderItem(orderItem);
      (Ok(map[Id := Num(db.nextId as real)] + itemData), Insert(db, itemData, PK))
  }

  /** What `updateOrderItem` does: the result (`None` for null) and the table afterwards. */
  function UpdateStep(db: Db, id: nat, payload: Object): (Option<Object>, Db)
  {
    if id !in db.rows then (None, db)
    else (Some(Read(db, PK, id) + payload), Update(db, PK, id, payload))
  }

  /** What `deleteOrderItemById` does: the removed row (`None` for null) and the table afterwards. */
  function DeleteStep(db: Db, id: nat): (Option<Object>, Db)
  {
    if id !in db.rows then (None, db) else (Some(Read(db, PK, id)), Delete(db, id))
  }

  /** The step a valid payload takes. */
  lemma CreateStepOk(db: Db, orderItem: Object, f: Formats)
    requires Validate(OrderItemSchema, orderItem, f).None?
    ensures CreateStep(db, orderItem, f) ==
            (Ok(map[Id := Num(db.nextId as real)] + ReadOrderItem(orderItem)), Insert(db, ReadOrderItem(orderItem), PK))
  {
  }

  // ---------------------------------------------------------------------
  // Properties of the operations
  // ---------------------------------------------------------------------

  /** A payload that fails the schema is refused with the first failing
      key, and nothing is inserted; in particular every required field must be there. */
  lemma CreateRejects(db: Db, orderItem: Object, f: Formats)
    requires Validate(OrderItemSchema, orderItem, f).Some?
    ensures CreateStep(db, orderItem, f) == (Err(Validate(OrderItemSchema, orderItem, f).value), db)
  {
  }

  /** A missing required field is always refused. */
  lemma CreateNeedsRequired(db: Db, orderItem: Object, f: Formats, k: Key)
    requires k in OrderFields && k != OrderDate && Get(orderItem, k) == Undefined
    ensures CreateStep(db, orderItem, f).0.Err? && CreateStep(db, orderItem, f).1 == db
  {
    var i := if k == CustomerId then 0 else if k == PaymentMethod then 2 else if k == ProductId then 3
             else if k == Quantity then 4 else if k == Price then 5 else if k == TotalPrice then 6 else 7;
    assert OrderItemSchema[i].key == k && OrderItemSchema[i].required;
    MissingRequired(OrderItemSchema, orderItem, f, i);
  }

  /** A valid payload is stored with exactly the order fields it defines,
      under the next key, and returned with that key and all eight fields. */
  lemma CreateStores(db: Db, orderItem: Object, f: Formats)
    requires db.Valid() && Validate(OrderItemSchema, orderItem, f).None?
    ensures var (r, after) := CreateStep(db, orderItem, f);
            && r.Ok? && after.Valid()
            && after.rows.Keys == db.rows.Keys + {db.nextId} && after.nextId == db.nextId + 1
            && (forall other :: other in db.rows ==> after.rows[other] == db.rows[other])
            && (forall k :: Get(after.rows[db.nextId], k) == if k in OrderFields then Get(orderItem, k) else Undefined)
            && r.value.Keys == OrderFields + {Id} && r.value[Id] == Num(db.nextId as real)
            && (forall k :: k in OrderFields ==> r.value[k] == Get(orderItem, k))
  {
    var itemData := ReadOrderItem(orderItem);
    assert CreateStep(db, orderItem, f) == (Ok(map[Id := Num(db.nextId as real)] + itemData), Insert(db, itemData, PK));
    InsertFrame(db, itemData, PK);
    StoredItem(orderItem);
    ReturnedItem(db.nextId, orderItem);
  }

  lemma StoredItem(orderItem: Object)
    ensures forall k :: Get(Written(ReadOrderItem(orderItem), PK), k) == if k in OrderFields then Get(orderItem, k) else Undefined
  {
    forall k ensures Get(Written(ReadOrderItem(orderItem), PK), k) == if k in OrderFields then Get(orderItem, k) else Undefined {
      if k in OrderFields {
        OrderField(k);
      }
      GetWritten(ReadOrderItem(orderItem), PK, k);
    }
  }

  lemma ReturnedItem(id: nat, orderItem: Object)
    ensures var r := map[Id := Num(id as real)] + ReadOrderItem(orderItem);
            && r.Keys == OrderFields + {Id} && r[Id] == Num(id as real)
            && (forall k :: k in OrderFields ==> r[k] == Get(orderItem, k))
  {
    forall k | k in OrderFields ensures (map[Id := Num(id as real)] + ReadOrderItem(orderItem))[k] == Get(orderItem, k) {
      OrderField(k);
    }
  }

  /** The customer listing accepts a row exactly when it belongs to the
      user and its status is stored as false (0). */
  lemma OpenItemsMeaning(userId: Value, row: Object)
    ensures Accepts(OpenItemsOf(userId), row) <==>
            SqlEquals(Get(row, CustomerId), userId) &&
            (Get(row, Status) == Bool(false) || Get(row, Status) == Num(0.0))
  {
  }

  /** Every listed item is one of the items, whose product exists, with
      that product's name added; `j` is its place among the items. */
  lemma {:induction false} JoinedItems(items: seq<Object>, products: Db, i: nat) returns (j: nat)
    requires i < |Joined(items, products)|
    ensures j < |items| && ProductOf(products, items[j]).Some?
    ensures Joined(items, products)[i] == WithProductName(items[j], products, ProductOf(products, items[j]).value)
    decreases |items|
  {
    var tail := items[1..];
    match ProductOf(products, items[0])
    case None =>
      assert Joined(items, products) == Joined(tail, products);
      var k := JoinedItems(tail, products, i);
      assert tail[k] == items[k + 1];
      j := k + 1;
    case Some(pid) =>
      assert Joined(items, products) == [WithProductName(items[0], products, pid)] + Joined(tail, products);
      if i == 0 {
        j := 0;
      } else {
        var k := JoinedItems(tail, products, i - 1);
        assert tail[k] == items[k + 1];
        j := k + 1;
      }
  }

  /** The join adds `product_name` and leaves every other column of the item as it was. */
  lemma KeptByJoin(item: Object, products: Db, pid: nat, k: Key)
    requires pid in products.rows && k != ProductName
    ensures Get(WithProductName(item, products, pid), k) == Get(item, k)
  {
  }

  /** Every item a customer's listing shows is one of their open items: the
      product name the join adds leaves `customer_id` and `status` as stored. */
  lemma ListedOpenItems(db: Db, products: Db, userId: Value, i: nat)
    requires db.Valid() && i < |Listed(db, products, OpenItemsOf(userId))|
    ensures Accepts(OpenItemsOf(userId), Listed(db, products, OpenItemsOf(userId))[i])
  {
    var ids := Matching(db, PK, OpenItemsOf(userId), 0);
    var items := ReadEach(db, PK, ids);
    var j := JoinedItems(items, products, i);
    MatchingAll(db, PK, OpenItemsOf(userId));
    assert ids[j] in ids;
    var listed := WithProductName(items[j], products, ProductOf(products, items[j]).value);
    KeptByJoin(items[j], products, ProductOf(products, items[j]).value, CustomerId);
    KeptByJoin(items[j], products, ProductOf(products, items[j]).value, Status);
    OpenItemsMeaning(userId, items[j]);
    OpenItemsMeaning(userId, listed);
  }

  /** When every item names an existing product the join drops none, so
      the listing and the count agree. */
  lemma {:induction false} JoinKeepsAll(items: seq<Object>, products: Db)
    requires forall j :: 0 <= j < |items| ==> ProductOf(products, items[j]).Some?
    ensures |Joined(items, products)| == |items|
    decreases |items|
  {
    if items != [] {
      JoinKeepsAll(items[1..], products);
    }
  }

  /** An item whose product is missing is left out of the listing, though the count includes it. */
  lemma JoinDropsOrphan(item: Object, rest: seq<Object>, products: Db)
    requires ProductOf(products, item).None?
    ensures Joined([item] + rest, products) == Joined(rest, products)
  {
    assert ([item] + rest)[1..] == rest;
  }

  /** When every listed row's product exists, the count the listing reports
      is the number of rows it pages through. */
  lemma CountMatchesListing(db: Db, products: Db, cond: Condition)
    requires db.Valid()
    requires forall id :: id in Accepted(db, PK, cond) ==> ProductOf(products, Read(db, PK, id)).Some?
    ensures |Listed(db, products, cond)| == |Accepted(db, PK, cond)|
  {
    var ids := Matching(db, PK, cond, 0);
    var items := ReadEach(db, PK, ids);
    MatchingCount(db, PK, cond);
    MatchingAll(db, PK, cond);
    forall j | 0 <= j < |items| ensures ProductOf(products, items[j]).Some? {
      assert ids[j] in Accepted(db, PK, cond);
    }
    JoinKeepsAll(items, products);
  }

  /** An absent id gives null and writes nothing. */
  lemma UpdateAbsent(db: Db, id: nat, payload: Object)
    requires id !in db.rows
    ensures UpdateStep(db, id, payload) == (None, db)
  {
  }

  /** An update of a present row writes the whole payload, unvalidated, into
      that row only, and returns the old row overlaid with the payload. */
  lemma UpdateWrites(db: Db, id: nat, payload: Object)
    requires db.Valid() && id in db.rows
    ensures var (r, after) := UpdateStep(db, id, payload);
            && r.Some? && after.Valid()
            && after.rows.Keys == db.rows.Keys && after.nextId == db.nextId
            && (forall other :: other in db.rows && other != id ==> after.rows[other] == db.rows[other])
            && (forall k :: Get(after.rows[id], k) ==
                  if k != PK && Get(payload, k) != Undefined then Get(payload, k) else Get(db.rows[id], k))
            && (forall k :: Get(r.value, k) == if k in payload then payload[k] else Get(Read(db, PK, id), k))
  {
    assert UpdateStep(db, id, payload) == (Some(Read(db, PK, id) + payload), Update(db, PK, id, payload));
    UpdateFrame(db, PK, id, payload);
    forall k ensures Get(Write(db.rows[id], payload, PK), k) ==
                     if k != PK && Get(payload, k) != Undefined then Get(payload, k) else Get(db.rows[id], k)
    {
      GetWrite(db.rows[id], payload, PK, k);
    }
  }

  /** An absent id gives null and deletes nothing; a present one is removed
      alone and returned as it was stored. */
  lemma DeleteRemovesRow(db: Db, id: nat)
    ensures id !in db.rows ==> DeleteStep(db, id) == (None, db)
    ensures id in db.rows ==>
              var (r, after) := DeleteStep(db, id);
              && r == Some(Read(db, PK, id))
              && after.rows.Keys == db.rows.Keys - {id} && after.nextId == db.nextId
              && (forall other :: other in after.rows ==> after.rows[other] == db.rows[other])
  {
  }

  // ---------------------------------------------------------------------
  // The service object
  // ---------------------------------------------------------------------

  /** `OrderItemsService`, holding the `orderitems` table. */
  class OrderItemsService {
    var rows: Rows
    var nextId: nat
    const formats: Formats

    function State(): Db
      reads this
    {
      Db(rows, nextId)
    }

    predicate Valid()
      reads this
    {
      State().Valid()
    }

    constructor (table: Db, formats: Formats)
      requires table.Valid()
      ensures Valid() && State() == table && this.formats == formats
    {
      rows, nextId := table.rows, table.nextId;
      this.formats := formats;
    }

    method CreateOrderItem(orderItem: Object) returns (r: Result<Object, Failure>)
      requires Valid()
      modifies this
      ensures Valid()
      ensures (r, State()) == CreateStep(old(State()), orderItem, formats)
    {
      ghost var before := State();
      var error := Validate(OrderItemSchema, orderItem, formats);
      if error.Some? {
        return Err(error.value);
      }
      var itemData := ReadOrderItem(orderItem);
      var id := nextId;
      var inserted := Insert(State(), itemData, PK);
      InsertFrame(State(), itemData, PK);
      rows, nextId := inserted.rows, inserted.nextId;
      assert State() == inserted;
      r := Ok(map[Id := Num(id as real)] + itemData);
      CreateStepOk(before, orderItem, formats);
    }

    /** `getAllOrderItems(page, limit, userId)`: the count of the user's open
        items, and one page of them joined to their products. */
    method GetAllOrderItems(p: Paginator, userId: Value, products: Db) returns (r: Listing)
      requires Valid()
      ensures r.metadataCount == |Accepted(State(), PK, OpenItemsOf(userId))|
      ensures r.items == Window(Listed(State(), products, OpenItemsOf(userId)), p)
      ensures forall i :: 0 <= i < |r.items| ==> Accepts(OpenItemsOf(userId), r.items[i])
    {
      MatchingCount(State(), PK, OpenItemsOf(userId));
      var totalRecord := |Matching(State(), PK, OpenItemsOf(userId), 0)|;
      var orderItems := Window(Joined(ReadEach(State(), PK, Matching(State(), PK, OpenItemsOf(userId), 0)), products), p);
      r := Listing(totalRecord, orderItems);
      forall i | 0 <= i < |r.items| ensures Accepts(OpenItemsOf(userId), r.items[i]) {
        ListedOpenItems(State(), products, userId, p.offset + i);
      }
    }

    /** `getAllOrderItemsAdmin(page, limit)`: the count of all items, and one
        page of them joined to their products. */
    method GetAllOrderItemsAdmin(p: Paginator, products: Db) returns (r: Listing)
      requires Valid()
      ensures r.metadataCount == |rows|
      ensures r.items == Window(Listed(State(), products, Everything), p)
    {
      MatchingCount(State(), PK, Everything);
      assert Accepted(State(), PK, Everything) == rows.Keys;
      var totalRecord := |rows|;
      var orderItems := Window(Joined(ReadEach(State(), PK, Matching(State(), PK, Everything, 0)), products), p);
      r := Listing(totalRecord, orderItems);
    }

    method DeleteAllOrderItems()
      requires Valid()
      modifies this
      ensures Valid()
      ensures rows == map[] && nextId == old(nextId)
      ensures State() == Clear(old(State()))
    {
      rows := map[];
    }

    method DeleteOrderItemById(id: nat) returns (r: Option<Object>)
      requires Valid()
      modifies this
      ensures Valid()
      ensures (r, State()) == DeleteStep(old(State()), id)
    {
      if id !in rows {
        return None;
      }
      var orderItem := Read(State(), PK, id);
      rows := rows - {id};
      r := Some(orderItem);
    }

    method UpdateOrderItem(id: nat, payload: Object) returns (r: Option<Object>)
      requires Valid()
      modifies this
      ensures Valid()
      ensures (r, State()) == UpdateStep(old(State()), id, payload)
    {
      if id !in rows {
        return None;
      }
      var orderItem := Read(State(), PK, id);
      rows := rows[id := Write(rows[id], payload, PK)];
      r := Some(orderItem + payload);
    }

    /** `getOrderItemById(id)`: the row, or `None` for `undefined`. */
    method GetOrderItemById(id: nat) returns (r: Option<Object>)
      requires Valid()
      ensures r.None? <==> id !in rows
      ensures r.Some? ==> Get(r.value, PK) == Num(id as real)
      ensures r.Some? ==> forall k :: k != PK ==> Get(r.value, k) == Get(rows[id], k)
    {
      FirstByKey(State(), PK, id);
      var found := First(State(), PK, Equals(PK, Num(id as real)));
      if found.None? {
        return None;
      }
      r := Some(Read(State(), PK, found.value));
    }
  }
}
