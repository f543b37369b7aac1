# Library inventory core, modelled in Dafny

The library server keeps every book twice: once in the aggregate `AllBooks`
collection, and once in one of four per-category collections (`fiction`,
`science`, `history`, `nonfiction`). Borrow records live in a separate
collection. This project models the inventory logic of `index.js` on
in-memory stores and proves what it does:

- `normalizeCategory`, the forgiving category router used when a book is
  created or updated: it lower-cases the label, strips white space and
  hyphens, and falls back to `"fiction"` (module `Category`);
- the strict router of the borrow and return routes, which only lower-cases
  the label and looks it up in a plain object (module `Category`);
- the two integer coercions, `parseInt(s) || 0` for stored quantities and
  `Number(x) || 0` for request bodies, down to the white space, sign and
  radix-prefix rules of the two JavaScript functions (modules `Numbers` and
  `Quantity`);
- the per-document quantity steps: the write-back of a coerced quantity,
  `$inc` by -1 (only when stock is positive) and by +1 (module `Quantity`);
- the documents the write handlers build: a new book or borrow record with
  its defaults, the `$set` of an update, and the partition a book is filed
  under (module `Catalog`);
- the six state-changing handlers as methods of a `Library` class that holds
  one `map` per collection (module `Inventory`), and request sequences on a
  fresh library (module `Scenarios`).

Documents are maps from field names to JSON values. A key is either an
ObjectId the driver generated (`Generated(n)`, with a counter in the class
keeping generated ids fresh) or the `_id` a client put in the body
(`Supplied(v)`). An `_id` of `null` counts as absent: the driver generates an
ObjectId for it.

What the code does, as the model states it:

- The routers disagree. `"non-fiction"` and `"Non Fiction"` are filed under
  `nonfiction` when a book is created, but the borrow and return routes
  answer "Invalid category" for both; only the exact lower-case keys reach
  a partition.
- The labels `constructor` and `__proto__` are not refused by the borrow
  and return routes: the lookup finds a member every object inherits, and
  calling `findOne` on it throws inside the handler's `try`, giving a 500.
  Nothing is written.
- A book stored with a field of its own named `hasOwnProperty` (a create
  copies every body field) cannot be borrowed or returned once its quantity
  is not a string: the coercion block calls `book.hasOwnProperty`, which is
  then not a function, and the handler answers 500 with nothing written.
- A request-body quantity that is an object with a field of its own named
  `toString` (`{"toString": 1}`) makes `Number` throw: the object's
  `valueOf` gives the object back, and its `toString` is not a function.
  The create, update and borrow-record handlers all coerce the quantity
  outside their `try`, so each stops there with nothing written and no
  response sent.
- A borrow or return moves exactly one copy. Borrow and return write only
  the document in the chosen partition, so the aggregate copy keeps its old
  quantity.
- An update answers 200 with the aggregate store's result whether or not the
  book exists there. It never creates a document. When the new category
  normalizes to a different partition from the one the book was filed under
  earlier, the copy in that earlier partition is not touched.
- A truthy non-string category makes `normalizeCategory` throw. When a book
  is created, that happens before any insert and outside any `try`, so
  nothing is written and the handler's promise rejects unhandled: no
  response is sent, and whether the process survives depends on the
  Express and Node versions, which the code does not pin. When a book is updated, it
  happens inside the `try` after the aggregate copy was updated, giving a
  500.
- Every handler keeps the dual write's invariant: the aggregate store holds
  exactly the keys of the four partitions, and no key is in two of them.
- `DELETE /borrow/:id` matches the path string against `_id` as a string.
  A record stored under a generated ObjectId can therefore never be
  deleted.

## Model

| member | source | states |
|---|---|---|
| Values.Truthy | index.js:71 | JavaScript truthiness: `undefined`, `null`, `false`, `0` and `""` are falsy, every other value truthy; its uses are stated by `Values.Or`, `Category.NormalizeCategory` and `Inventory.Library.Update` |
| Values.Or | index.js:372 | `a \|\| b` is one of its two operands, is truthy exactly when either operand is, and keeps a truthy left operand |
| Numbers.TrimStart | index.js:168 | the white space `parseInt` skips: the result is a suffix of the input, everything removed is white space, and the result does not start with white space |
| Numbers.TrimEnd | index.js:371 | the trailing white space `Number` ignores: a prefix of the input, only white space removed, no white space left at the end |
| Numbers.DigitSpan | index.js:168 | the longest run of digits `parseInt` reads: every character before it is a digit and the next one is not |
| Numbers.ParseInt | index.js:168 | `parseInt(s)` without a radix, NaN as none: its results are stated by `ParseIntRoundTrip`, `ParseIntWithoutDigits` and `HexPrefix` |
| Numbers.StringToNumber | index.js:371 | `Number(s)` on integer forms, NaN as none: stated by `NumberRoundTrip`, `TrailingTextDisagreement`, `EmptyTextDisagreement` and `HexPrefix` |
| Numbers.ParseIntRoundTrip | index.js:168 | `parseInt` reads back any printed integer, sign included, after any leading white space and before any trailing text that starts with a non-digit (and, after a printed 0, not with `x`) |
| Numbers.ParseIntWithoutDigits | index.js:168 | text with no digit to read is NaN to `parseInt`: after its white space, an optional sign and an optional `0x`, it is empty or goes on with a non-digit of that radix (`"-"`, `"+abc"`, `"- 5"`, `"0x"`) |
| Numbers.NumberRoundTrip | index.js:371 | `Number` reads back any printed integer surrounded by white space |
| Numbers.NumberRejectsTrailingText | index.js:371 | `Number` is NaN on any signed digit run followed by other text (not a fraction or exponent, and not a radix prefix after a lone 0), with or without white space around |
| Numbers.NumberOfTrimmedStops | index.js:371 | on trimmed text, a signed digit run followed by a non-digit is NaN |
| Numbers.TrailingTextDisagreement | index.js:168 | on `"12abc"`, `parseInt` gives 12 but `Number` gives NaN |
| Numbers.EmptyTextDisagreement | index.js:168 | the empty string is NaN to `parseInt` but 0 to `Number` |
| Numbers.HexPrefix | index.js:231 | `parseInt("-0x1A")` is -26 while `Number("-0x1A")` is NaN |
| Quantity.NumberThrows | index.js:371 | `Number` of an object with a field of its own named `toString` throws; `Library.Create`, `Library.Update` and `Library.RecordBorrow` then send no response and write nothing |
| Quantity.NumberOrZero | index.js:371 | `Number(x) \|\| 0` on a body field where it does not throw: stated by `NumberOrZeroOfText`, `NumberOrZeroOfTrailingText` and `BodyAndStoredCoercionDiffer` |
| Quantity.ParseIntOrZero | index.js:168 | `parseInt(s) \|\| 0` on a stored string: stated through `CoerceStored` by `CoerceNumericText`, `NegativeTextSurvives`, `CoerceNonNumericText` and `BodyAndStoredCoercionDiffer` |
| Quantity.CoercionThrows | index.js:172-175 | a stored field named `hasOwnProperty` with a non-string quantity makes the coercion block throw; `Library.Borrow` and `Library.Return` then answer 500 with nothing written |
| Quantity.CoerceStored | index.js:166-178 | the stored quantity is written back exactly when it is not already the integer the handler goes on with |
| Quantity.CoerceNumericText | index.js:167-171 | a stored numeric string becomes its value and is written back; a stored integer is kept without a write |
| Quantity.NegativeTextSurvives | index.js:167-168 | a stored `"-3"` coerces to -3, so a negative stock survives coercion |
| Quantity.CoerceNonNumbers | index.js:172-178 | an absent, null, boolean or object quantity becomes 0 and is written back |
| Quantity.CoerceNonNumericText | index.js:167-171 | stored text with no digit for `parseInt` (blank, a bare sign, a bare `0x`, or a non-digit after them) becomes 0 and is written back |
| Quantity.NumberOrZeroOfText | index.js:371 | `Number(x) \|\| 0` gives back a printed integer, padded or not, and keeps integers |
| Quantity.NumberOrZeroOfTrailingText | index.js:371 | a body quantity made of a digit run followed by other text is 0 |
| Quantity.BodyAndStoredCoercionDiffer | index.js:168 | a quantity `"12abc"` is 0 in a request body but 12 once stored |
| Quantity.WithQuantity | index.js:169-171 | `$set` of the quantity: adds or replaces that one field, every other field unchanged |
| Quantity.Healed | index.js:166-178 | the document after the coercion block's write-back: stated by `HealedSpec` and `CoercionIdempotent` |
| Quantity.HealedSpec | index.js:166-178 | after the write-back the document holds its coerced quantity as an integer and differs in no other field; with no write-back it is unchanged |
| Quantity.CoercionIdempotent | index.js:166-178 | a written-back document needs no second write-back and keeps its stock |
| Quantity.Inc | index.js:184 | `$inc` succeeds exactly on a numeric or absent quantity; it then leaves the coerced stock plus the increment, adds the quantity key if missing, and keeps every other field |
| Quantity.IncAfterHealing | index.js:184-241 | after the write-back `$inc` cannot fail, and the borrow and return steps are exactly `$inc` by -1 and +1 |
| Quantity.IncAdds | index.js:240 | two increments add up |
| Quantity.TakeOne | index.js:180-185 | one borrow step on a document: stated by `TakeOneSpec`, `BorrowThenReturn`, `ReturnThenBorrow` and `BorrowsUpToStock` |
| Quantity.PutBack | index.js:240-241 | one return step on a document: stated by `PutBackSpec`, `BorrowThenReturn` and `ReturnThenBorrow` |
| Quantity.TakeOneSpec | index.js:180-185 | a borrow succeeds iff the coerced stock is positive; it then leaves stock - 1 >= 0 and every other field unchanged |
| Quantity.PutBackSpec | index.js:240-241 | a return always adds exactly one copy, with no upper bound, and leaves every other field unchanged |
| Quantity.BorrowThenReturn | index.js:180-241 | a successful borrow followed by a return restores the coerced quantity |
| Quantity.ReturnThenBorrow | index.js:180-241 | a return followed by a borrow restores a non-negative stock; from a negative stock the borrow is refused |
| Quantity.BorrowsUpToStock | index.js:180-185 | from stock q exactly max(q, 0) borrows in a row succeed, and k of them leave q - k |
| Category.KeyOf | index.js:146-151 | each partition has one key, present in both lookup tables and mapped to that partition |
| Category.NormalizeLabel | index.js:70-76 | `normalizeCategory` on a string always returns a key of both tables |
| Category.NormalizeCategory | index.js:70-72 | it throws exactly on a truthy non-string; a falsy label gives `"fiction"`; any result is a key the routes accept |
| Category.Strip | index.js:72 | `.replace(/\s\|-/g, "")`: stated by `StripRemovesSeparators`, `StripKeepsPlainText`, `StripAppend` and `StripIdempotent` |
| Category.Lower | index.js:72 | `.toLowerCase()`: stated by `LowerStripCommute`, `NormalizeIgnoresCase` and `RouteOfExact` |
| Category.StripRemovesSeparators | index.js:72 | no white space or hyphen survives `.replace(/\s\|-/g, "")` |
| Category.StripKeepsPlainText | index.js:72 | text without separators is left unchanged |
| Category.StripAppend | index.js:72 | stripping works piece by piece |
| Category.HyphenatedKeyUnreachable | index.js:65-73 | the `"non-fiction"` entry of the table can never be returned, since stripping removed its hyphen |
| Category.StripIdempotent | index.js:72 | stripping twice strips no more than once |
| Category.LowerStripCommute | index.js:72 | lower-casing and stripping commute |
| Category.RouteOf | index.js:146-157 | the borrow and return routes' lookup `collections[category.toLowerCase()]`: stated by `RouteOfExact`, `RouteRefuses`, `RoutersAgreeWhereRouteAccepts` and `RoutersDisagree` |
| Category.RouteOfExact | index.js:153-157 | the borrow and return routes reach a partition iff the lower-case label is its key exactly |
| Category.RouteRefuses | index.js:153-157 | a label lower-casing to `non-fiction` or `non fiction` is refused |
| Category.NormalizeKey | index.js:70-76 | each key normalizes to itself |
| Category.RoutersAgreeWhereRouteAccepts | index.js:70-157 | wherever the strict router accepts a label, `normalizeCategory` picks the same partition |
| Category.SpacedSpelling | index.js:70-76 | `"Non Fiction"` normalizes to `"nonfiction"` |
| Category.HyphenatedSpelling | index.js:70-76 | `"non-fiction"` normalizes to `"nonfiction"` |
| Category.CapitalSpelling | index.js:70-76 | `"NONFICTION"` and `"NonFiction"` normalize to `"nonfiction"` |
| Category.FallbackToFiction | index.js:71-75 | `"poetry"` and the empty label normalize to `"fiction"` |
| Category.RoutersDisagree | index.js:70-157 | `"non-fiction"` and `"Non Fiction"` are filed under non-fiction on create but refused by the borrow and return routes |
| Category.NormalizeIdempotent | index.js:70-76 | normalizing a normalized label changes nothing |
| Category.NormalizeIgnoresCase | index.js:72 | lower-casing a label first does not change its normalization |
| Category.NormalizeIgnoresSeparators | index.js:72 | stripping a label first does not change its normalization |
| Category.NormalizeLabelPartition | index.js:70-76 | a label is filed under science, history or non-fiction iff its stripped lower-case form is that key, and under fiction otherwise |
| Catalog.WithDefaults | index.js:265-269 | a new book or borrow record: the body's fields, quantity `Number(q) \|\| 0` needing no later write-back, details kept if truthy, else `"No details available"` |
| Catalog.HasRequiredFields | index.js:322-324 | the update's validation: `Library.Update` answers 400 with nothing written exactly when one of the five fields is falsy |
| Catalog.SuppliesId | index.js:375 | an insert keeps the body's `_id` unless it is absent or `null`, when the driver generates one: stated by `Library.Create`, `Library.RecordBorrow` and `Scenarios.NullIdRecordedTwice` |
| Catalog.UpdateSet | index.js:328-337 | an update sets exactly image, name, author, category, rating (as given) and quantity (`Number(q) \|\| 0`) |
| Catalog.Apply | index.js:339 | `$set`: set fields take the new values, others keep theirs, none is removed |
| Catalog.PartitionFor | index.js:342-343 | none exactly for a truthy non-string category; fiction for a falsy one; for a string, science, history or non-fiction exactly when its stripped lower-case form is that key, fiction otherwise |
| Catalog.UpdatedQuantityNeedsNoWriteBack | index.js:335 | an updated book holds an integer quantity, so a later borrow writes nothing back |
| Catalog.NewQuantityNeedsNoWriteBack | index.js:371 | a created book's stock is `Number(q) \|\| 0` and needs no write-back |
| Catalog.CreatedQuantity | index.js:371 | a book created with a printed integer quantity is stored with that number |
| Catalog.UpdateKeepsCategory | index.js:333-343 | the stored category after an update normalizes to the partition the update chose |
| Inventory.Filed | index.js:375-388 | the dual write's invariant, key by key: a key the aggregate store holds is in exactly one partition, any other key in none; part of `Library.Valid`, which every handler keeps |
| Inventory.FiledIffKeySets | index.js:375-388 | the invariant holds iff the aggregate store's keys are the union of the partitions' keys and the partitions are pairwise disjoint |
| Inventory.SameKeysKeepFiled | index.js:184 | rewriting documents of one partition without adding or removing keys keeps the invariant |
| Inventory.SameAggregateKeysKeepFiled | index.js:339 | rewriting documents of the aggregate store without adding or removing keys keeps the invariant |
| Inventory.InsertKeepsFiled | index.js:375-388 | inserting a new key into the aggregate store and one partition keeps the invariant |
| Inventory.PartWithinAll | index.js:375-388 | under the invariant, every partition's keys are keys of the aggregate store |
| Inventory.UpdateIn | index.js:339 | `updateOne` without upsert: the document is updated if present, nothing is created, other documents unchanged |
| Inventory.UpdateInIdempotent | index.js:339-348 | repeating an update leaves the store as one update does |
| Inventory.Library.WriteBack | index.js:166-178 | the coercion block: it throws, writing nothing, exactly when the document has its own `hasOwnProperty` field and a non-string quantity; otherwise the found document becomes its written-back form, only in that partition, and the handler goes on with its stock |
| Inventory.Library.IncQuantity | index.js:184-185 | `$inc` on one document; `modifiedCount > 0` iff the document exists and the increment applies |
| Inventory.Library.NewObjectId | index.js:375 | a generated id is held by no store |
| Inventory.Library.Borrow | index.js:144-204 | invalid label: 400, nothing written; inherited member: 500, nothing written; absent id: 404, nothing written; own `hasOwnProperty` field with a non-string quantity: 500, nothing written; stock <= 0: out of stock with the write-back done; otherwise 200 with stock - 1; only that document of that partition changes |
| Inventory.Library.Return | index.js:206-260 | the same routing, write-back and `hasOwnProperty` 500; otherwise an existing book gets one more copy; only that document changes |
| Inventory.Library.Create | index.js:365-393 | the book with its defaults goes into the aggregate store and, under the same key, into its normalized partition; the key is the body's `_id` unless that is absent or `null`, when a fresh ObjectId is generated; a throwing category, a throwing `Number` of the quantity or a duplicate key: the handler's promise rejects unhandled, no response is sent, and nothing is written; the dual write's invariant is kept |
| Inventory.Library.Update | index.js:318-363 | missing field: 400, nothing written; a throwing `Number` of the quantity: no response, nothing written; otherwise the `$set` is applied to the aggregate copy and the normalized partition's copy where they exist, nothing is created, other partitions untouched |
| Inventory.Library.Lend | index.js:166-193 | the part of a borrow after the book is found: the coercion's 500, the out-of-stock answer with the write-back done, or one copy taken |
| Inventory.Library.RecordBorrow | index.js:262-279 | a throwing `Number` of the quantity: no response, nothing written; otherwise the record with its defaults is inserted under the body's `_id`, or a fresh ObjectId when that is absent or `null`; a duplicate key is a 500 with nothing written |
| Inventory.Library.CancelBorrow | index.js:302-316 | deletes the record stored under the path string, else 404; records under generated ids are never removed |
| Scenarios.AggregateDrifts | index.js:184-185 | after create then borrow, the aggregate copy still has q while the partition copy has q - 1 |
| Scenarios.RefusedLabelStrandsBook | index.js:153-157 | a book created under a refused label cannot be borrowed through that label, only through the partition's key |
| Scenarios.ShadowedHasOwnPropertyBlocksBorrow | index.js:172-175 | a book created with its own `hasOwnProperty` field answers 500 to every borrow and return, and its stock stays as created |
| Scenarios.NullIdRecordedTwice | index.js:271 | two borrow records posted with `"_id": null` are both inserted, under two distinct ObjectIds |
| Scenarios.CancelMissesGeneratedRecord | index.js:306 | a borrow record inserted without `_id`, or with a `null` one, survives any `DELETE /borrow/:id` |
| Scenarios.ThrowingQuantityWritesNothing | index.js:268-371 | a body whose quantity has its own `toString` field gets no response from create, update or borrow-record, and a fresh library stays empty |

## Left out

- Express setup, CORS, body parsing, `app.listen`, and the MongoDB connection: transport and configuration. The collections are in-memory maps.
- The GET routes: plain reads with no logic.
- Path ids that are not valid ObjectIds: `new ObjectId(id)` throws outside the `try`. The model takes the path id as an already parsed ObjectId number.
- 500 responses caused by driver or network failures. The throws that the handlers' own code reaches are modelled: the inherited-member lookup, the shadowed `hasOwnProperty` in the coercion block, the non-string category in an update, and a duplicate borrow-record key (each a 500), and, with no response sent, the non-string category in a create, a duplicate `_id` in a create, and `Number` of an object with its own `toString` field in a create, an update or a borrow record. Two more come from the database refusing a value and are listed below: an array `_id`, and a `$inc` on a non-numeric quantity.
- Concurrency, including the race between the stock check and `$inc`: the model runs one request at a time.
- Numbers.StringToNumber: integers only. Fractions, exponents and `Infinity` give NaN, which the callers turn into 0; JavaScript would give a float. (Numeric separators such as `"1_000"` are NaN in JavaScript as well as here.) Quantities are likewise integers in JSON values and stored documents.
- Numbers.ParseInt: integer results only, so no float precision loss on very long digit runs.
- Numbers.StringToNumber: exact integers of any size. JavaScript numbers are doubles, so digit runs above 2^53 lose precision there (`Number("9007199254740993")` is 9007199254740992); the model keeps the exact value. The same holds for numbers in JSON bodies.
- Quantity.Inc: exact integer addition. MongoDB's `$inc` on a double above 2^53 rounds, and on a 32- or 64-bit integer it can overflow; the model's stock never rounds or wraps.
- Category.Lower: lower-cases ASCII letters only. No other character lower-cases to one of the ASCII letters the keys are made of, so which labels reach a key is unchanged.
- Values.JsValue: of an object or array the model keeps only whether it has its own `toString` field, so two different object `_id`s with the same answer count as the same key.
- Quantity.NumberOrZero: an array quantity in a request body gives 0, because arrays are `Obj`. JavaScript converts an array through its string form, so `Number([5])` is 5 and the program stores 5 where the model stores 0 (`Number([])` is 0 in both).
- Inventory.Library.Create: an array `_id` is refused by MongoDB, so the handler's promise rejects and no response is sent. Arrays are `Obj` here, so the model accepts such a body under the key `Supplied(Obj)`.
- Inventory.Library.RecordBorrow: an array `_id` is refused by MongoDB and `POST /borrow` answers 500; the model accepts it under the key `Supplied(Obj)`, as for a create.
- Inventory.Library.IncQuantity: a failing `$inc` on a non-numeric quantity throws in the driver. The model treats it as "nothing modified". It cannot happen after the write-back, which `Quantity.IncAfterHealing` proves.
- clearData.js: a one-off script that empties every collection over the network.
