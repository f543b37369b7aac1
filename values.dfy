/** JSON values as they arrive in request bodies and sit in stored documents,
    the identifiers documents are stored under, and JavaScript truthiness. */
module Values {

  datatype Option<+T> = None | Some(value: T)

  /** A JSON value. Numbers are integers here; `Obj` stands for any object or
      array. Of its contents the model keeps one fact: whether it has a
      field of its own named `toString`, which makes `Number` of it throw.
      (JavaScript also looks inside an array in two places the model does
      not cover: `Number` of an array, and MongoDB's refusal of an array
      `_id`.) */
  datatype JsValue =
    | Num(n: int)
    | Str(s: string)
    | Bool(b: bool)
    | Null
    | Obj(ownToString: bool)

  /** A document without its `_id`: field name to value. A field that is absent
      (JavaScript `undefined`, `hasOwnProperty` false) is simply not a key. */
  type Doc = map<string, JsValue>

  /** The `_id` a document is stored under: an ObjectId the driver generated on
      insert, or the `_id` value the client put in the request body. */
  datatype Key = Generated(oid: nat) | Supplied(v: JsValue)

  /** `doc.field`: `None` when the field is absent. */
  function Get(d: Doc, field: string): (r: Option<JsValue>)
    ensures r.Some? <==> field in d
    ensures r.Some? ==> d[field] == r.value
  {
    if field in d then Some(d[field]) else None
  }

  /** JavaScript truthiness of a field value: `undefined`, `null`, `false`, `0`
      and `""` are falsy, everything else is truthy. */
  predicate Truthy(v: Option<JsValue>) {
    match v
    case None => false
    case Some(Num(n)) => n != 0
    case Some(Str(s)) => s != []
    case Some(Bool(b)) => b
    case Some(Null) => false
    case Some(Obj(_)) => true
  }

  /** `a || b` on field values: the result is one of the two operands, it
      is truthy exactly when one of them is, and a truthy left operand is
      kept. */
  function Or(a: Option<JsValue>, b: JsValue): (r: JsValue)
    ensures Some(r) == a || r == b
    ensures Truthy(Some(r)) <==> Truthy(a) || Truthy(Some(b))
    ensures Truthy(a) ==> Some(r) == a
  {
    if Truthy(a) then a.value else b
  }
}
