/** Request sequences against a fresh library that show, end to end, how the
    handlers interact. */
module Scenarios {
  import opened Values
  import opened Quantity
  import opened Category
  import opened Catalog
  import opened Inventory

  /** A created book without a `hasOwnProperty` field of its own and with
      positive stock can be lent: its coercion does not throw, needs no
      write-back, and one copy can be taken. */
  lemma CreatedBookLends(body: Doc)
    requires "hasOwnProperty" !in body
    requires !NumberThrows(Get(body, "quantity")) && NumberOrZero(Get(body, "quantity")) > 0
    ensures !CoercionThrows(WithDefaults(body))
    ensures Healed(WithDefaults(body)) == WithDefaults(body)
    ensures TakeOne(WithDefaults(body)).Some?
    ensures Stock(TakeOne(WithDefaults(body)).value) == NumberOrZero(Get(body, "quantity")) - 1
  {
    NewQuantityNeedsNoWriteBack(body);
    TakeOneSpec(WithDefaults(body));
  }

  /** A book created without an `_id` and then borrowed through a label the
      borrow route accepts for its partition: the partition copy loses one
      copy, while the aggregate copy keeps the quantity it was created
      with. */
  method AggregateDrifts(body: Doc, category: string) returns (inAggregate: int, inPartition: int)
    requires !SuppliesId(body)
    requires RouteOf(category).Collection? && PartitionFor(body) == Some(RouteOf(category).p)
    requires !NumberThrows(Get(body, "quantity")) && NumberOrZero(Get(body, "quantity")) > 0
    requires "hasOwnProperty" !in body
    ensures inAggregate == NumberOrZero(Get(body, "quantity"))
    ensures inPartition == inAggregate - 1
  {
    var lib := new Library();
    var created := lib.Create(body);
    var status := lib.Borrow(category, 0);
    CreatedBookLends(body);
    inAggregate := Stock(lib.allBooks[Generated(0)]);
    inPartition := Stock(lib.Part(RouteOf(category).p)[Generated(0)]);
  }

  /** A book created under a label the borrow route refuses (such as
      "non-fiction" or "Non Fiction") is filed in a partition all the same;
      borrowing through its own label fails, and only the partition's key
      reaches the book. */
  method RefusedLabelStrandsBook(body: Doc, given: string) returns (viaLabel: Status, viaKey: Status)
    requires !SuppliesId(body)
    requires Get(body, "category") == Some(Str(given)) && RouteOf(given) == NoCollection
    requires !NumberThrows(Get(body, "quantity")) && NumberOrZero(Get(body, "quantity")) > 0
    requires "hasOwnProperty" !in body
    ensures viaLabel == InvalidCategory && viaKey == Ok
  {
    var lib := new Library();
    var p, book := PartitionFor(body).value, WithDefaults(body);
    var created := lib.Create(body);
    assert lib.Part(p) == map[Generated(0) := book];
    viaLabel := lib.Borrow(given, 0);
    assert lib.Part(p) == map[Generated(0) := book];
    NormalizeKey(p);
    RouteOfExact(KeyOf(p), p);
    CreatedBookLends(body);
    viaKey := lib.Borrow(KeyOf(p), 0);
  }

  /** A book created with a field of its own named `hasOwnProperty` can
      never be borrowed or returned: the coercion step calls that field,
      which is not a function, and both routes answer 500 with the stock
      left as created. */
  method ShadowedHasOwnPropertyBlocksBorrow(body: Doc) returns (viaBorrow: Status, viaReturn: Status, stock: int)
    requires !SuppliesId(body)
    requires PartitionFor(body).Some?
    requires "hasOwnProperty" in body && !NumberThrows(Get(body, "quantity"))
    ensures viaBorrow == ServerError && viaReturn == ServerError
    ensures stock == NumberOrZero(Get(body, "quantity"))
  {
    var lib := new Library();
    var p, book := PartitionFor(body).value, WithDefaults(body);
    var created := lib.Create(body);
    assert CoercionThrows(book);
    NormalizeKey(p);
    RouteOfExact(KeyOf(p), p);
    viaBorrow := lib.Borrow(KeyOf(p), 0);
    viaReturn := lib.Return(KeyOf(p), 0);
    NewQuantityNeedsNoWriteBack(body);
    stock := Stock(lib.Part(p)[Generated(0)]);
  }

  /** Two borrow records posted with `"_id": null` are both inserted, each
      under an ObjectId of its own. */
  method NullIdRecordedTwice(body: Doc) returns (first: Status, second: Status)
    requires Get(body, "_id") == Some(Null) && !NumberThrows(Get(body, "quantity"))
    ensures first == Created(Generated(0)) && second == Created(Generated(1))
  {
    var lib := new Library();
    first := lib.RecordBorrow(body);
    second := lib.RecordBorrow(body);
  }

  /** A borrow record inserted without an `_id` (or with a `null` one) gets an ObjectId, which no
      `DELETE /borrow/:id` path string matches: the record stays. */
  method CancelMissesGeneratedRecord(body: Doc, id: string) returns (status: Status, kept: bool)
    requires !SuppliesId(body) && !NumberThrows(Get(body, "quantity"))
    ensures status == NotFound && kept
  {
    var lib := new Library();
    var recorded := lib.RecordBorrow(body);
    assert lib.borrowed == map[Generated(0) := WithDefaults(body)];
    status := lib.CancelBorrow(id);
    kept := Generated(0) in lib.borrowed;
  }

  /** A body whose quantity is an object with its own `toString` field is
      refused by every handler that coerces it: creating the book, updating
      it and recording a borrow of it each throw before any write, so a
      fresh library stays empty and no request gets an answer. */
  method ThrowingQuantityWritesNothing(body: Doc, oid: nat) returns (created: Status, updated: Status, recorded: Status, documents: nat)
    requires HasRequiredFields(body) && NumberThrows(Get(body, "quantity"))
    ensures created == NoResponse && updated == NoResponse && recorded == NoResponse
    ensures documents == 0
  {
    var lib := new Library();
    created := lib.Create(body);
    updated := lib.Update(oid, body);
    recorded := lib.RecordBorrow(body);
    documents := |lib.allBooks| + |lib.borrowed|;
  }
}
