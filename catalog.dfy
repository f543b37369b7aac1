/** The documents the write handlers build from a request body: the book or
    borrow record to insert, the `$set` an update applies, and whether an
    insert keeps the body's own `_id`. */
module Catalog {
  import opened Values
  import opened Numbers
  import opened Quantity
  import opened Category

  const DefaultDetails: string := "No details available"

  /** `{ ...body, quantity: Number(body.quantity) || 0, details: body.details
      || "No details available" }` (index.js:267-269 and 369-373; the two
      spreads name the same two fields, so their order does not matter).
      The body's `_id`, if any, is the key and not part of the `Doc`. */
  function WithDefaults(body: Doc): (r: Doc)
    requires !NumberThrows(Get(body, "quantity"))
    ensures r.Keys == body.Keys - {"_id"} + {"quantity", "details"}
    ensures Truthy(Get(body, "details")) ==> r["details"] == body["details"]
    ensures !Truthy(Get(body, "details")) ==> r["details"] == Str(DefaultDetails)
    ensures CoerceStored(QuantityOf(r)) == Coerced(NumberOrZero(Get(body, "quantity")), false)
    ensures forall f :: f in r && f != "quantity" && f != "details" ==> r[f] == body[f]
  {
    (body - {"_id"})["quantity" := Num(NumberOrZero(Get(body, "quantity")))]
                    ["details" := Or(Get(body, "details"), Str(DefaultDetails))]
  }

  /** Whether `insertOne` stores the document under the body's own `_id`:
      the driver generates an ObjectId whenever `_id` is absent or `null`. */
  predicate SuppliesId(body: Doc) {
    "_id" in body && body["_id"] != Null
  }

  /** The update handler's validation: image, name, author, category and
      rating must all be truthy (index.js:322-324). */
  predicate HasRequiredFields(body: Doc) {
    && Truthy(Get(body, "image"))
    && Truthy(Get(body, "name"))
    && Truthy(Get(body, "author"))
    && Truthy(Get(body, "category"))
    && Truthy(Get(body, "rating"))
  }

  /** The fields an update sets (index.js:328-337): the five required ones as
      given, and the quantity through `Number(quantity) || 0`. Nothing else
      in the body reaches the store. */
  function UpdateSet(body: Doc): (fields: Doc)
    requires HasRequiredFields(body) && !NumberThrows(Get(body, "quantity"))
    ensures fields.Keys == {"image", "name", "author", "category", "rating", "quantity"}
    ensures forall f :: f in fields && f != "quantity" ==> f in body && fields[f] == body[f]
    ensures fields["quantity"] == Num(NumberOrZero(Get(body, "quantity")))
  {
    map["image" := body["image"], "name" := body["name"], "author" := body["author"],
        "category" := body["category"], "rating" := body["rating"],
        "quantity" := Num(NumberOrZero(Get(body, "quantity")))]
  }

  /** `$set` on one document: the given fields take their new values, the
      others keep theirs, and no field is removed. */
  function Apply(d: Doc, fields: Doc): (r: Doc)
    ensures r.Keys == d.Keys + fields.Keys
    ensures forall f :: f in fields ==> r[f] == fields[f]
    ensures forall f :: f in d && f !in fields ==> r[f] == d[f]
  {
    map f | f in d.Keys + fields.Keys :: if f in fields then fields[f] else d[f]
  }

  /** The partition a body's category files a book under, or `None` when
      `normalizeCategory` throws on a truthy non-string. A falsy category is
      filed under fiction; a string one under science, history or
      non-fiction exactly when its stripped lower-case form is that key, and
      under fiction otherwise. */
  function PartitionFor(body: Doc): (p: Option<Partition>)
    ensures p.None? <==> Truthy(Get(body, "category")) && !body["category"].Str?
    ensures !Truthy(Get(body, "category")) ==> p == Some(Fiction)
    ensures "category" in body && body["category"].Str? ==>
      var n := Strip(Lower(body["category"].s));
      && p.Some?
      && (p.value == Fiction <==> n !in {"science", "history", "nonfiction"})
      && (p.value != Fiction ==> n == KeyOf(p.value))
  {
    match NormalizeCategory(Get(body, "category"))
    case None => None
    case Some(key) =>
      var p := CategoryToCollection[key];
      if "category" in body && body["category"].Str? then
        NormalizeLabelPartition(body["category"].s, p);
        Some(p)
      else Some(p)
  }

  /** Applying the same update twice is the same as applying it once. */
  lemma ApplyIdempotent(d: Doc, fields: Doc)
    ensures Apply(Apply(d, fields), fields) == Apply(d, fields)
  {
  }

  /** A book that has been created or updated holds an integer quantity, so
      a later borrow or return finds nothing to write back and goes on with
      `Number(quantity) || 0` from the body. */
  lemma UpdatedQuantityNeedsNoWriteBack(d: Doc, body: Doc)
    requires HasRequiredFields(body) && !NumberThrows(Get(body, "quantity"))
    ensures CoerceStored(QuantityOf(Apply(d, UpdateSet(body)))) ==
      Coerced(NumberOrZero(Get(body, "quantity")), false)
    ensures Healed(Apply(d, UpdateSet(body))) == Apply(d, UpdateSet(body))
  {
    HealedSpec(Apply(d, UpdateSet(body)));
  }

  /** The same for a freshly built document. */
  lemma NewQuantityNeedsNoWriteBack(body: Doc)
    requires !NumberThrows(Get(body, "quantity"))
    ensures Stock(WithDefaults(body)) == NumberOrZero(Get(body, "quantity"))
    ensures Healed(WithDefaults(body)) == WithDefaults(body)
  {
    HealedSpec(WithDefaults(body));
  }

  /** A book created with a printed integer quantity, possibly padded with
      white space, is stored with that number. */
  lemma CreatedQuantity(body: Doc, w1: string, n: int, w2: string)
    requires AllSpace(w1) && AllSpace(w2)
    requires Get(body, "quantity") == Some(Str(w1 + IntToString(n) + w2))
    ensures WithDefaults(body)["quantity"] == Num(n)
  {
    NumberOrZeroOfText(w1, n, w2);
  }

  /** After an update the stored category is the one the partition was
      chosen from, so normalizing it again picks the same partition. */
  lemma UpdateKeepsCategory(d: Doc, body: Doc)
    requires HasRequiredFields(body) && !NumberThrows(Get(body, "quantity"))
    ensures PartitionFor(Apply(d, UpdateSet(body))) == PartitionFor(body)
  {
    assert Get(Apply(d, UpdateSet(body)), "category") == Get(body, "category");
  }
}
