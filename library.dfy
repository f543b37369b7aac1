/** The library's stores and the route handlers that change them: borrow and
    return on a partition, creating and updating a book, recording and
    cancelling a borrow. */
module Inventory {
  import opened Values
  import opened Quantity
  import opened Category
  import opened Catalog

  /** One collection: documents by `_id`. */
  type Store = map<Key, Doc>

  /** What a handler answers. */
  datatype Status =
    | Ok                      // 200, the quantity was changed
    | Created(key: Key)       // 201 with the inserted id
    | Updated(matched: bool)  // 200 with the update result of the aggregate store
    | Deleted                 // 200, the borrow record was removed
    | InvalidCategory         // 400 "Invalid category"
    | NotFound                // 404
    | OutOfStock              // 400 "Book out of stock"
    | ValidationError         // 400 "All fields are required"
    | ServerError             // 500 from a handler's catch
    | NoResponse              // an exception outside any catch: the handler's promise
                              // rejects unhandled and no response is sent

  /** Every ObjectId generated so far is below `n`. */
  predicate GeneratedBelow(s: Store, n: nat) {
    forall k :: k in s && k.Generated? ==> k.oid < n
  }

  /** `updateOne(query, { $set: fields })` without upsert: the document under
      `k` is updated when there is one, and nothing is created otherwise. */
  function UpdateIn(s: Store, k: Key, fields: Doc): (r: Store)
    ensures r.Keys == s.Keys
    ensures k in s ==> r[k] == Apply(s[k], fields)
    ensures forall j :: j in s && j != k ==> r[j] == s[j]
  {
    if k in s then s[k := Apply(s[k], fields)] else s
  }

  /** An update applied twice leaves the store as applying it once does. */
  lemma UpdateInIdempotent(s: Store, k: Key, fields: Doc)
    ensures UpdateIn(UpdateIn(s, k, fields), k, fields) == UpdateIn(s, k, fields)
  {
    if k in s {
      ApplyIdempotent(s[k], fields);
    }
  }

  /** The whole database at one moment. */
  datatype Snapshot = Snapshot(allBooks: Store, fiction: Store, science: Store,
                               history: Store, nonFiction: Store, borrowed: Store)

  /** The dual write's invariant: a key the aggregate store holds is filed
      in exactly one partition, and any other key in none. So the aggregate
      store's keys are the union of the partitions' keys, and no key is in
      two partitions. */
  ghost predicate Filed(s: Snapshot) {
    forall k :: KeyFiled(s, k)
  }

  /** The invariant for one key. */
  predicate KeyFiled(s: Snapshot, k: Key) {
    var f, c, h, n := k in s.fiction, k in s.science, k in s.history, k in s.nonFiction;
    if k in s.allBooks then
      || (f && !c && !h && !n) || (!f && c && !h && !n)
      || (!f && !c && h && !n) || (!f && !c && !h && n)
    else
      !f && !c && !h && !n
  }

  /** The collection of one partition. */
  function PartOf(s: Snapshot, p: Partition): Store {
    match p
    case Fiction => s.fiction
    case Science => s.science
    case History => s.history
    case NonFiction => s.nonFiction
  }

  /** The snapshot with partition `p`'s collection replaced by `st`. */
  function WithPart(s: Snapshot, p: Partition, st: Store): (r: Snapshot)
    ensures PartOf(r, p) == st
    ensures forall q :: q != p ==> PartOf(r, q) == PartOf(s, q)
    ensures r.allBooks == s.allBooks && r.borrowed == s.borrowed
  {
    match p
    case Fiction => s.(fiction := st)
    case Science => s.(science := st)
    case History => s.(history := st)
    case NonFiction => s.(nonFiction := st)
  }

  /** Replacing one partition's collection by one that holds the same keys
      leaves every key's filing as it was. */
  lemma KeyFiledWithPart(s: Snapshot, p: Partition, st: Store, j: Key)
    requires j in st <==> j in PartOf(s, p)
    ensures KeyFiled(WithPart(s, p, st), j) == KeyFiled(s, j)
  {
    match p
    case Fiction => assert WithPart(s, p, st) == s.(fiction := st);
    case Science => assert WithPart(s, p, st) == s.(science := st);
    case History => assert WithPart(s, p, st) == s.(history := st);
    case NonFiction => assert WithPart(s, p, st) == s.(nonFiction := st);
  }

  /** Changing documents of one partition without adding or removing keys
      keeps the invariant. */
  lemma SameKeysKeepFiled(s: Snapshot, p: Partition, st: Store)
    requires Filed(s) && st.Keys == PartOf(s, p).Keys
    ensures Filed(WithPart(s, p, st))
  {
    forall j
      ensures KeyFiled(WithPart(s, p, st), j)
    {
      assert KeyFiled(s, j);
      KeyFiledWithPart(s, p, st, j);
    }
  }

  /** Changing documents of the aggregate store without adding or removing
      keys keeps the invariant. */
  lemma SameAggregateKeysKeepFiled(s: Snapshot, st: Store)
    requires Filed(s) && st.Keys == s.allBooks.Keys
    ensures Filed(s.(allBooks := st))
  {
    forall k
      ensures KeyFiled(s.(allBooks := st), k)
    {
      assert KeyFiled(s, k);
      assert k in st <==> k in s.allBooks;
    }
  }

  /** Every key filed in a partition is in the aggregate store. */
  lemma PartWithinAll(s: Snapshot, p: Partition)
    requires Filed(s)
    ensures PartOf(s, p).Keys <= s.allBooks.Keys
  {
    forall k | k in PartOf(s, p)
      ensures k in s.allBooks
    {
      assert KeyFiled(s, k);
    }
  }

  /** Filing a key the aggregate store does not hold, in the aggregate store
      and in one partition, keeps the invariant. */
  lemma InsertKeepsFiled(s: Snapshot, p: Partition, k: Key, book: Doc)
    requires Filed(s) && k !in s.allBooks
    ensures Filed(WithPart(s.(allBooks := s.allBooks[k := book]), p, PartOf(s, p)[k := book]))
  {
    var s' := s.(allBooks := s.allBooks[k := book]);
    var t := WithPart(s', p, PartOf(s, p)[k := book]);
    forall j
      ensures KeyFiled(t, j)
    {
      assert KeyFiled(s, j);
      if j == k {
        match p
        case Fiction => assert t == s'.(fiction := PartOf(s, p)[k := book]);
        case Science => assert t == s'.(science := PartOf(s, p)[k := book]);
        case History => assert t == s'.(history := PartOf(s, p)[k := book]);
        case NonFiction => assert t == s'.(nonFiction := PartOf(s, p)[k := book]);
      } else {
        assert KeyFiled(s', j) == KeyFiled(s, j);
        KeyFiledWithPart(s', p, PartOf(s, p)[k := book], j);
      }
    }
  }

  /** The invariant in terms of key sets: the aggregate store's keys are the
      union of the four partitions' keys, and the partitions are pairwise
      disjoint. */
  predicate KeySetsFiled(s: Snapshot) {
    && s.allBooks.Keys == s.fiction.Keys + s.science.Keys + s.history.Keys + s.nonFiction.Keys
    && s.fiction.Keys !! s.science.Keys && s.fiction.Keys !! s.history.Keys
    && s.fiction.Keys !! s.nonFiction.Keys && s.science.Keys !! s.history.Keys
    && s.science.Keys !! s.nonFiction.Keys && s.history.Keys !! s.nonFiction.Keys
  }

  /** The per-key and the key-set statements of the invariant agree. */
  lemma FiledIffKeySets(s: Snapshot)
    ensures Filed(s) <==> KeySetsFiled(s)
  {
    if Filed(s) {
      FiledGivesKeySets(s);
    }
    if KeySetsFiled(s) {
      KeySetsGiveFiled(s);
    }
  }

  lemma FiledGivesKeySets(s: Snapshot)
    requires Filed(s)
    ensures KeySetsFiled(s)
  {
    forall k | k in s.allBooks || k in s.fiction || k in s.science || k in s.history || k in s.nonFiction
      ensures KeyFiled(s, k)
    {
    }
  }

  lemma KeySetsGiveFiled(s: Snapshot)
    requires KeySetsFiled(s)
    ensures Filed(s)
  {
    forall k
      ensures KeyFiled(s, k)
    {
      assert k in s.allBooks <==> k in s.fiction.Keys + s.science.Keys + s.history.Keys + s.nonFiction.Keys;
    }
  }

  class Library {
    /** `AllBooks`: one copy of every created book. */
    var allBooks: Store
    /** The four per-category collections. */
    var fiction: Store
    var science: Store
    var history: Store
    var nonFiction: Store
    /** `BorrowedBookss`: the borrow records. */
    var borrowed: Store
    /** The next ObjectId the driver generates. */
    var nextOid: nat

    ghost predicate Valid()
      reads this
    {
      && GeneratedBelow(allBooks, nextOid)
      && GeneratedBelow(borrowed, nextOid)
      && Filed(State())
    }

    constructor ()
      ensures Valid()
      ensures allBooks == fiction == science == history == nonFiction == borrowed == map[]
      ensures nextOid == 0
    {
      allBooks, fiction, science, history, nonFiction, borrowed := map[], map[], map[], map[], map[], map[];
      nextOid := 0;
    }

    function State(): Snapshot
      reads this
    {
      Snapshot(allBooks, fiction, science, history, nonFiction, borrowed)
    }

    /** The collection of one partition. */
    function Part(p: Partition): Store
      reads this
    {
      PartOf(State(), p)
    }

    method SetPart(p: Partition, s: Store)
      modifies this
      ensures State() == WithPart(old(State()), p, s)
      ensures Part(p) == s
      ensures forall q :: q != p ==> Part(q) == old(Part(q))
      ensures allBooks == old(allBooks) && borrowed == old(borrowed) && nextOid == old(nextOid)
    {
      match p
      case Fiction => fiction := s;
      case Science => science := s;
      case History => history := s;
      case NonFiction => nonFiction := s;
    }

    method SetAllBooks(s: Store)
      modifies this
      ensures allBooks == s
      ensures State() == old(State()).(allBooks := s)
      ensures forall q :: Part(q) == old(Part(q))
      ensures borrowed == old(borrowed) && nextOid == old(nextOid)
    {
      allBooks := s;
    }

    method SetBorrowed(s: Store)
      modifies this
      ensures borrowed == s
      ensures State() == old(State()).(borrowed := s)
      ensures Filed(old(State())) ==> Filed(State())
      ensures forall q :: Part(q) == old(Part(q))
      ensures allBooks == old(allBooks) && nextOid == old(nextOid)
    {
      borrowed := s;
      forall k | Filed(old(State()))
        ensures KeyFiled(State(), k)
      {
        assert KeyFiled(old(State()), k);
      }
    }

    /** `collection.updateOne(query, { $set: { quantity: q } })`. */
    method SetQuantity(p: Partition, k: Key, q: int)
      requires Valid()
      modifies this
      ensures Valid()
      ensures Part(p) == if k in old(Part(p)) then old(Part(p))[k := WithQuantity(old(Part(p))[k], q)] else old(Part(p))
      ensures forall r :: r != p ==> Part(r) == old(Part(r))
      ensures allBooks == old(allBooks) && borrowed == old(borrowed) && nextOid == old(nextOid)
    {
      if k in Part(p) {
        SameKeysKeepFiled(State(), p, Part(p)[k := WithQuantity(Part(p)[k], q)]);
        SetPart(p, Part(p)[k := WithQuantity(Part(p)[k], q)]);
      }
    }

    /** `collection.updateOne(query, { $inc: { quantity: delta } })`; the
        result says whether a document was modified. A failing `$inc` (on a
        non-numeric quantity) changes nothing. */
    method IncQuantity(p: Partition, k: Key, delta: int) returns (modified: bool)
      requires Valid()
      modifies this
      ensures Valid()
      ensures modified <==> k in old(Part(p)) && Inc(old(Part(p))[k], delta).Some? && delta != 0
      ensures Part(p) == if k in old(Part(p)) && Inc(old(Part(p))[k], delta).Some?
        then old(Part(p))[k := Inc(old(Part(p))[k], delta).value] else old(Part(p))
      ensures forall r :: r != p ==> Part(r) == old(Part(r))
      ensures allBooks == old(allBooks) && borrowed == old(borrowed) && nextOid == old(nextOid)
    {
      modified := false;
      if k in Part(p) {
        var d := Inc(Part(p)[k], delta);
        if d.Some? {
          SameKeysKeepFiled(State(), p, Part(p)[k := d.value]);
          SetPart(p, Part(p)[k := d.value]);
          modified := delta != 0;
        }
      }
    }

    /** The ObjectId the driver generates for a document inserted without an
        `_id`: one no store holds yet. */
    method NewObjectId() returns (k: Key)
      requires Valid()
      modifies this
      ensures Valid()
      ensures k == Generated(old(nextOid)) && nextOid == old(nextOid) + 1
      ensures State() == old(State())
      ensures k !in allBooks && k !in borrowed && forall p :: k !in Part(p)
    {
      k := Generated(nextOid);
      nextOid := nextOid + 1;
      forall q
        ensures k !in Part(q)
      {
        PartWithinAll(State(), q);
      }
    }

    /** The coercion both quantity routes apply to the found book
        (index.js:166-178 and 229-238): a string quantity is replaced by
        `parseInt(s) || 0`, an absent or other non-number one by 0, and a
        number is left alone. The result is the quantity the borrow goes on
        with, or `None` when the `hasOwnProperty` call throws, before any
        write. */
    method WriteBack(p: Partition, query: Key) returns (quantity: Option<int>)
      requires Valid() && query in Part(p)
      modifies this
      ensures Valid()
      ensures quantity.None? <==> CoercionThrows(old(Part(p))[query])
      ensures quantity.None? ==> Part(p) == old(Part(p))
      ensures quantity.Some? ==> quantity.value == Stock(old(Part(p))[query])
      ensures quantity.Some? ==> Part(p) == old(Part(p))[query := Healed(old(Part(p))[query])]
      ensures forall r :: r != p ==> Part(r) == old(Part(r))
      ensures allBooks == old(allBooks) && borrowed == old(borrowed) && nextOid == old(nextOid)
    {
      ghost var book := Part(p)[query];
      var current := QuantityOf(Part(p)[query]);
      if current.Some? && current.value.Str? {
        quantity := Some(ParseIntOrZero(current.value.s));
        SetQuantity(p, query, quantity.value);
      } else if "hasOwnProperty" in Part(p)[query] {
        // the stored field is not a function: calling it throws
        return None;
      } else if current.None? || !current.value.Num? {
        SetQuantity(p, query, 0);
        quantity := Some(0);
      } else {
        quantity := Some(current.value.n);
        assert Part(p) == old(Part(p))[query := book];
      }
      HealedSpec(book);
    }

    /** `PATCH /:category/:id/borrow` with `id` naming the ObjectId `oid`
        (index.js:144-204). The label is looked up as it is, lower-cased; the
        book's quantity is written back as an integer when it was not one
        (a book with its own `hasOwnProperty` field makes that step throw, a
        500 with nothing written); then one copy is taken if there is one. */
    method Borrow(category: string, oid: nat) returns (status: Status)
      requires Valid()
      modifies this
      ensures Valid()
      ensures allBooks == old(allBooks) && borrowed == old(borrowed) && nextOid == old(nextOid)
      ensures RouteOf(category) == NoCollection ==> status == InvalidCategory && State() == old(State())
      ensures RouteOf(category) == InheritedMember ==> status == ServerError && State() == old(State())
      ensures RouteOf(category).Collection? ==>
        var p, k := RouteOf(category).p, Generated(oid);
        && (forall q :: q != p ==> Part(q) == old(Part(q)))
        && (k !in old(Part(p)) ==> status == NotFound && Part(p) == old(Part(p)))
        && (k in old(Part(p)) && CoercionThrows(old(Part(p))[k]) ==>
              status == ServerError && Part(p) == old(Part(p)))
        && (k in old(Part(p)) && !CoercionThrows(old(Part(p))[k]) && TakeOne(old(Part(p))[k]).None? ==>
              status == OutOfStock && Part(p) == old(Part(p))[k := Healed(old(Part(p))[k])])
        && (k in old(Part(p)) && !CoercionThrows(old(Part(p))[k]) && TakeOne(old(Part(p))[k]).Some? ==>
              status == Ok && Part(p) == old(Part(p))[k := TakeOne(old(Part(p))[k]).value])
    {
      var route := RouteOf(category);
      if route.NoCollection? {
        return InvalidCategory;
      }
      if route.InheritedMember? {
        // `findOne` is not a function of an inherited member
        return ServerError;
      }
      var p, query := route.p, Generated(oid);
      if query !in Part(p) {
        return NotFound;
      }
      status := Lend(p, query);
    }

    /** The part of a borrow after the book is found: the write-back, the
        stock check and the decrement (index.js:166-193). */
    method Lend(p: Partition, query: Key) returns (status: Status)
      requires Valid() && query in Part(p)
      modifies this
      ensures Valid()
      ensures allBooks == old(allBooks) && borrowed == old(borrowed) && nextOid == old(nextOid)
      ensures forall q :: q != p ==> Part(q) == old(Part(q))
      ensures var book := old(Part(p))[query];
        && (CoercionThrows(book) ==> status == ServerError && Part(p) == old(Part(p)))
        && (!CoercionThrows(book) && TakeOne(book).None? ==>
              status == OutOfStock && Part(p) == old(Part(p))[query := Healed(book)])
        && (!CoercionThrows(book) && TakeOne(book).Some? ==>
              status == Ok && Part(p) == old(Part(p))[query := TakeOne(book).value])
    {
      ghost var book := Part(p)[query];
      var quantity := WriteBack(p, query);
      if quantity.None? {
        return ServerError;
      }
      if quantity.value <= 0 {
        return OutOfStock;
      }
      IncAfterHealing(book, -1);
      var modified := IncQuantity(p, query, -1);
      if modified {
        status := Ok;
      } else {
        status := NotFound;
      }
    }

    /** `PATCH /:category/:id/return` (index.js:206-260): the same lookup and
        write-back as a borrow (and the same 500 for a book with its own
        `hasOwnProperty` field), then one copy is added, with no upper bound. */
    method Return(category: string, oid: nat) returns (status: Status)
      requires Valid()
      modifies this
      ensures Valid()
      ensures allBooks == old(allBooks) && borrowed == old(borrowed) && nextOid == old(nextOid)
      ensures RouteOf(category) == NoCollection ==> status == InvalidCategory && State() == old(State())
      ensures RouteOf(category) == InheritedMember ==> status == ServerError && State() == old(State())
      ensures RouteOf(category).Collection? ==>
        var p, k := RouteOf(category).p, Generated(oid);
        && (forall q :: q != p ==> Part(q) == old(Part(q)))
        && (k !in old(Part(p)) ==> status == NotFound && Part(p) == old(Part(p)))
        && (k in old(Part(p)) && CoercionThrows(old(Part(p))[k]) ==>
              status == ServerError && Part(p) == old(Part(p)))
        && (k in old(Part(p)) && !CoercionThrows(old(Part(p))[k]) ==>
              status == Ok && Part(p) == old(Part(p))[k := PutBack(old(Part(p))[k])])
    {
      var route := RouteOf(category);
      if route.NoCollection? {
        return InvalidCategory;
      }
      if route.InheritedMember? {
        return ServerError;
      }
      var p, query := route.p, Generated(oid);
      if query !in Part(p) {
        return NotFound;
      }
      ghost var book := Part(p)[query];
      var quantity := WriteBack(p, query);
      if quantity.None? {
        return ServerError;
      }
      IncAfterHealing(book, 1);
      var modified := IncQuantity(p, query, 1);
      if modified {
        status := Ok;
      } else {
        status := NotFound;
      }
    }

    /** `POST /allbooks` (index.js:365-393): the category is normalized
        first (a truthy non-string throws before anything is written), then
        the quantity is coerced (`Number` of an object with its own
        `toString` field throws, also before any write); the book with its
        defaults goes into the aggregate store and an identical copy under
        the same key into its partition. The key is the body's `_id` unless
        that is absent or `null`, when the driver generates a fresh ObjectId.
        A duplicate `_id` makes the first insert throw. This handler has no
        catch: each throw rejects its promise unhandled and no response is
        sent. */
    method Create(body: Doc) returns (status: Status)
      requires Valid()
      modifies this
      ensures Valid()
      ensures borrowed == old(borrowed)
      ensures PartitionFor(body).None? || NumberThrows(Get(body, "quantity")) ==>
        status == NoResponse && State() == old(State()) && nextOid == old(nextOid)
      ensures PartitionFor(body).Some? && !NumberThrows(Get(body, "quantity")) ==>
        var p, book := PartitionFor(body).value, WithDefaults(body);
        var k := if SuppliesId(body) then Supplied(body["_id"]) else Generated(old(nextOid));
        && (forall q :: q != p ==> Part(q) == old(Part(q)))
        && (k in old(allBooks) ==> status == NoResponse && State() == old(State()))
        && (k !in old(allBooks) ==>
              && status == Created(k)
              && allBooks == old(allBooks)[k := book]
              && Part(p) == old(Part(p))[k := book])
      ensures PartitionFor(body).Some? && !NumberThrows(Get(body, "quantity")) && !SuppliesId(body) ==>
        status == Created(Generated(old(nextOid))) && nextOid == old(nextOid) + 1
      ensures SuppliesId(body) ==> nextOid == old(nextOid)
    {
      var category := NormalizeCategory(Get(body, "category"));
      if category.None? {
        // `toLowerCase` of a truthy non-string throws
        return NoResponse;
      }
      if NumberThrows(Get(body, "quantity")) {
        // `Number` finds no callable `toString` on the object
        return NoResponse;
      }
      var book := WithDefaults(body);
      var key: Key;
      if SuppliesId(body) {
        key := Supplied(body["_id"]);
      } else {
        key := NewObjectId();
      }
      if key in allBooks {
        return NoResponse;
      }
      var p := CategoryToCollection[category.value];
      InsertKeepsFiled(State(), p, key, book);
      PartWithinAll(State(), p);
      SetAllBooks(allBooks[key := book]);
      SetPart(p, Part(p)[key := book]);
      status := Created(key);
    }

    /** `PUT /allbooks/:id` (index.js:318-363): refused unless the five
        required fields are truthy; otherwise the same fields are set on the
        aggregate copy and on the copy in the partition the new category
        normalizes to, each only where the document exists. The copy in a
        previous partition is not touched, and nothing is created. The
        answer is the aggregate store's result, found or not. */
    method Update(oid: nat, body: Doc) returns (status: Status)
      requires Valid()
      modifies this
      ensures Valid()
      ensures borrowed == old(borrowed) && nextOid == old(nextOid)
      ensures !HasRequiredFields(body) ==> status == ValidationError && State() == old(State())
      ensures HasRequiredFields(body) && NumberThrows(Get(body, "quantity")) ==>
        status == NoResponse && State() == old(State())
      ensures HasRequiredFields(body) && !NumberThrows(Get(body, "quantity")) ==>
        var k, fields := Generated(oid), UpdateSet(body);
        && allBooks == UpdateIn(old(allBooks), k, fields)
        && (PartitionFor(body).None? ==> status == ServerError && forall q :: Part(q) == old(Part(q)))
        && (PartitionFor(body).Some? ==>
              var p := PartitionFor(body).value;
              && status == Updated(k in old(allBooks))
              && Part(p) == UpdateIn(old(Part(p)), k, fields)
              && forall q :: q != p ==> Part(q) == old(Part(q)))
    {
      if !HasRequiredFields(body) {
        return ValidationError;
      }
      if NumberThrows(Get(body, "quantity")) {
        // `Number` throws while the update is built, before the try
        return NoResponse;
      }
      var query := Generated(oid);
      var fields := UpdateSet(body);
      var matched := query in allBooks;
      SameAggregateKeysKeepFiled(State(), UpdateIn(allBooks, query, fields));
      SetAllBooks(UpdateIn(allBooks, query, fields));
      var category := NormalizeCategory(Get(body, "category"));
      if category.None? {
        // `toLowerCase` throws inside the try, after the first update
        return ServerError;
      }
      var p := CategoryToCollection[category.value];
      SameKeysKeepFiled(State(), p, UpdateIn(Part(p), query, fields));
      SetPart(p, UpdateIn(Part(p), query, fields));
      status := Updated(matched);
    }

    /** `POST /borrow` (index.js:262-279): the record, with the same defaults
        as a new book, is inserted under the body's `_id`, or under a fresh
        ObjectId when that is absent or `null`; a duplicate `_id` is a 500.
        The quantity is coerced before the try, so a `Number` that throws
        leaves the handler without a response and nothing written. */
    method RecordBorrow(body: Doc) returns (status: Status)
      requires Valid()
      modifies this
      ensures Valid()
      ensures allBooks == old(allBooks) && forall p :: Part(p) == old(Part(p))
      ensures NumberThrows(Get(body, "quantity")) ==>
        status == NoResponse && borrowed == old(borrowed) && nextOid == old(nextOid)
      ensures !NumberThrows(Get(body, "quantity")) ==>
        var k := if SuppliesId(body) then Supplied(body["_id"]) else Generated(old(nextOid));
        && (k in old(borrowed) ==> status == ServerError && borrowed == old(borrowed))
        && (k !in old(borrowed) ==> status == Created(k) && borrowed == old(borrowed)[k := WithDefaults(body)])
      ensures !NumberThrows(Get(body, "quantity")) && !SuppliesId(body) ==>
        status == Created(Generated(old(nextOid))) && nextOid == old(nextOid) + 1
      ensures SuppliesId(body) ==> nextOid == old(nextOid)
    {
      if NumberThrows(Get(body, "quantity")) {
        return NoResponse;
      }
      var record := WithDefaults(body);
      var key: Key;
      if SuppliesId(body) {
        key := Supplied(body["_id"]);
      } else {
        key := NewObjectId();
      }
      if key in borrowed {
        return ServerError;
      }
      SetBorrowed(borrowed[key := record]);
      status := Created(key);
    }

    /** `DELETE /borrow/:id` (index.js:302-316): the path parameter is used
        as the `_id` string itself, so only a record stored under that string
        can be removed; one stored under a generated ObjectId never is. */
    method CancelBorrow(id: string) returns (status: Status)
      requires Valid()
      modifies this
      ensures Valid()
      ensures allBooks == old(allBooks) && nextOid == old(nextOid) && forall p :: Part(p) == old(Part(p))
      ensures Supplied(Str(id)) in old(borrowed) ==>
        status == Deleted && borrowed == old(borrowed) - {Supplied(Str(id))}
      ensures Supplied(Str(id)) !in old(borrowed) ==> status == NotFound && borrowed == old(borrowed)
      ensures forall k :: k in old(borrowed) && k.Generated? ==> k in borrowed && borrowed[k] == old(borrowed)[k]
    {
      var query := Supplied(Str(id));
      if query in borrowed {
        SetBorrowed(borrowed - {query});
        status := Deleted;
      } else {
        status := NotFound;
      }
    }
  }
}
