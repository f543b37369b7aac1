/** The quantity field: the two coercions the handlers apply to it, and what a
    borrow or a return does to the `quantity` of one stored document. */
module Quantity {
  import opened Values
  import opened Numbers

  /** Whether `Number(v)` throws: an object converts through `valueOf`,
      which gives the object back, and then `toString`; a field of its own
      named `toString` hides the inherited method with a value that cannot
      be called, and the conversion throws a TypeError. */
  predicate NumberThrows(v: Option<JsValue>) {
    v.Some? && v.value.Obj? && v.value.ownToString
  }

  /** `Number(v) || 0` on a request-body field (index.js:268, 335, 371), where
      it does not throw: NaN and 0 both give 0. `Number(undefined)` is NaN,
      `Number(null)` is 0, booleans are 1 and 0, and any other object is NaN
      (`"[object Object]"`). An array is `Obj` here and so also gives 0,
      where JavaScript converts it through its string form (`Number([5])` is
      5). */
  function NumberOrZero(v: Option<JsValue>): int
    requires !NumberThrows(v)
  {
    match v
    case None => 0
    case Some(Num(n)) => n
    case Some(Str(s)) => (match StringToNumber(s) case None => 0 case Some(k) => k)
    case Some(Bool(b)) => if b then 1 else 0
    case Some(Null) => 0
    case Some(Obj(_)) => 0
  }

  /** `parseInt(s) || 0` (index.js:168, 231). */
  function ParseIntOrZero(s: string): int {
    match ParseInt(s)
    case None => 0
    case Some(k) => k
  }

  /** The quantity a borrow or return goes on with, and whether the handler
      first writes it back to the stored document. */
  datatype Coerced = Coerced(quantity: int, writeBack: bool)

  /** The coercion the borrow and return handlers apply to a stored quantity:
      a string goes through `parseInt(s) || 0`, a number is kept, anything else
      (absent, null, a boolean, an object) becomes 0. Nothing is written back
      exactly when the stored value already is that integer. */
  function CoerceStored(v: Option<JsValue>): (c: Coerced)
    ensures !c.writeBack <==> v == Some(Num(c.quantity))
  {
    match v
    case Some(Num(n)) => Coerced(n, false)
    case Some(Str(s)) => Coerced(ParseIntOrZero(s), true)
    case _ => Coerced(0, true)
  }

  function QuantityOf(d: Doc): Option<JsValue> {
    Get(d, "quantity")
  }

  /** The coerced quantity of a stored document. */
  function Stock(d: Doc): int {
    CoerceStored(QuantityOf(d)).quantity
  }

  /** `$set: { quantity: q }` on one document. */
  function WithQuantity(d: Doc, q: int): (r: Doc)
    ensures r.Keys == d.Keys + {"quantity"}
    ensures QuantityOf(r) == Some(Num(q))
    ensures forall f :: f in d && f != "quantity" ==> r[f] == d[f]
  {
    d["quantity" := Num(q)]
  }

  /** `$inc: { quantity: delta }` on one document: an absent quantity counts
      from 0, a number is added to, and any other value makes the update
      fail (`None`). */
  function Inc(d: Doc, delta: int): (r: Option<Doc>)
    ensures r.Some? <==> QuantityOf(d).None? || QuantityOf(d).value.Num?
    ensures r.Some? ==> r.value.Keys == d.Keys + {"quantity"}
    ensures r.Some? ==> QuantityOf(r.value) == Some(Num(Stock(d) + delta))
    ensures r.Some? ==> forall f :: f in d && f != "quantity" ==> r.value[f] == d[f]
  {
    match QuantityOf(d)
    case None => Some(WithQuantity(d, delta))
    case Some(Num(n)) => Some(WithQuantity(d, n + delta))
    case Some(_) => None
  }

  /** Whether the coercion block throws before writing anything: when the
      stored quantity is not a string it calls `book.hasOwnProperty("quantity")`
      (index.js:172-175, 232-235), and a stored field named `hasOwnProperty`
      shadows the inherited method with a value that is not a function. */
  predicate CoercionThrows(d: Doc) {
    "hasOwnProperty" in d && !(QuantityOf(d).Some? && QuantityOf(d).value.Str?)
  }

  /** The document once the handler has persisted the coerced quantity. */
  function Healed(d: Doc): Doc {
    if CoerceStored(QuantityOf(d)).writeBack then WithQuantity(d, Stock(d)) else d
  }

  /** One borrow on a found document, after the write-back: refused (`None`)
      when the stock is 0 or below, otherwise `$inc: { quantity: -1 }`. */
  function TakeOne(d: Doc): Option<Doc> {
    var h := Healed(d);
    if Stock(d) <= 0 then None else Some(WithQuantity(h, Stock(d) - 1))
  }

  /** One return on a found document, after the write-back: `$inc: { quantity: 1 }`. */
  function PutBack(d: Doc): Doc {
    WithQuantity(Healed(d), Stock(d) + 1)
  }

  /** The healed document carries its coerced quantity as a plain integer and
      differs from the stored one in no other field; when nothing had to be
      written back it is the stored document itself. */
  lemma HealedSpec(d: Doc)
    ensures QuantityOf(Healed(d)) == Some(Num(Stock(d)))
    ensures Healed(d) == WithQuantity(d, Stock(d))
    ensures !CoerceStored(QuantityOf(d)).writeBack ==> Healed(d) == d
  {
    if !CoerceStored(QuantityOf(d)).writeBack {
      assert d["quantity" := Num(Stock(d))] == d;
    }
  }

  /** A quantity set as a number is the stock, and needs no write-back. */
  lemma NumericQuantityKept(d: Doc, q: int)
    ensures Stock(WithQuantity(d, q)) == q
    ensures Healed(WithQuantity(d, q)) == WithQuantity(d, q)
  {
  }

  /** Of two `$set`s of the quantity, the later one wins. */
  lemma WithQuantityTwice(d: Doc, a: int, b: int)
    ensures WithQuantity(WithQuantity(d, a), b) == WithQuantity(d, b)
  {
  }

  /** Coercion is idempotent: a healed document needs no second write-back
      and keeps its stock. */
  lemma CoercionIdempotent(d: Doc)
    ensures CoerceStored(QuantityOf(Healed(d))) == Coerced(Stock(d), false)
    ensures Healed(Healed(d)) == Healed(d)
  {
    HealedSpec(d);
  }

  /** A numeric string such as `"5"` or `"-3"` coerces to its value, signs
      included, and is written back; an integer is kept and not written. */
  lemma CoerceNumericText(n: int)
    ensures CoerceStored(Some(Str(IntToString(n)))) == Coerced(n, true)
    ensures CoerceStored(Some(Num(n))) == Coerced(n, false)
  {
    ParseIntRoundTrip("", n, "");
    assert "" + IntToString(n) + "" == IntToString(n);
  }

  /** A negative stored string survives coercion as a negative stock. */
  lemma NegativeTextSurvives()
    ensures CoerceStored(Some(Str("-3"))) == Coerced(-3, true)
  {
    CoerceNumericText(-3);
    assert NatToString(3) == "3";
    assert IntToString(-3) == "-3";
  }

  /** Absent, null, boolean and object quantities all coerce to 0 and are
      written back. */
  lemma CoerceNonNumbers(v: Option<JsValue>)
    requires v.None? || v == Some(Null) || (v.Some? && (v.value.Obj? || v.value.Bool?))
    ensures CoerceStored(v) == Coerced(0, true)
  {
  }

  /** Stored text with no digit for `parseInt` to read (blank, a bare sign,
      a bare `0x`, or a non-digit after them) coerces to 0 and is written
      back. */
  lemma CoerceNonNumericText(w: string, sign: string, prefix: string, rest: string)
    requires AllSpace(w)
    requires sign == "" || sign == "-" || sign == "+"
    requires prefix == "" || prefix == "0x" || prefix == "0X"
    requires rest == [] || !IsDigit(rest[0], if prefix == "" then 10 else 16)
    requires sign == "" && prefix == "" && rest != [] ==> !IsSpace(rest[0]) && rest[0] != '-' && rest[0] != '+'
    ensures CoerceStored(Some(Str(w + sign + prefix + rest))) == Coerced(0, true)
  {
    ParseIntWithoutDigits(w, sign, prefix, rest);
  }

  /** `Number(x) || 0` reads back a printed integer, with surrounding white
      space, and keeps integers as they are. */
  lemma NumberOrZeroOfText(w1: string, n: int, w2: string)
    requires AllSpace(w1) && AllSpace(w2)
    ensures NumberOrZero(Some(Str(w1 + IntToString(n) + w2))) == n
    ensures NumberOrZero(Some(Num(n))) == n
  {
    NumberRoundTrip(w1, n, w2);
  }

  /** `Number(x) || 0` is 0 for a signed digit run followed by other text,
      padded or not, where `parseInt` would read the digits. */
  lemma NumberOrZeroOfTrailingText(w1: string, sign: string, ds: string, rest: string, w2: string)
    requires AllSpace(w1) && AllSpace(w2)
    requires sign == "" || sign == "-" || sign == "+"
    requires ds != [] && AllDigits(ds, 10)
    requires rest != [] && !IsDigit(rest[0], 10) && rest[0] !in ".eE"
    requires !IsSpace(rest[|rest| - 1])
    requires sign == "" && ds == "0" ==> rest[0] !in "xXoObB"
    ensures NumberOrZero(Some(Str(w1 + sign + ds + rest + w2))) == 0
  {
    NumberRejectsTrailingText(w1, sign, ds, rest, w2);
  }

  /** The body coercion and the stored coercion differ: a quantity `"12abc"`
      is 0 when a book is created or updated, but a stored `"12abc"` is read
      as 12 by borrow and return. */
  lemma BodyAndStoredCoercionDiffer()
    ensures NumberOrZero(Some(Str("12abc"))) == 0
    ensures CoerceStored(Some(Str("12abc"))).quantity == 12
  {
    TrailingTextDisagreement();
  }

  /** A borrow succeeds exactly when the coerced stock is positive, and then
      leaves exactly one fewer copy, never a negative count, and every other
      field as it was. */
  lemma TakeOneSpec(d: Doc)
    ensures TakeOne(d).Some? <==> Stock(d) > 0
    ensures TakeOne(d).Some? ==>
      && QuantityOf(TakeOne(d).value) == Some(Num(Stock(d) - 1))
      && Stock(TakeOne(d).value) == Stock(d) - 1 >= 0
      && TakeOne(d).value.Keys == d.Keys + {"quantity"}
      && forall f :: f in d && f != "quantity" ==> TakeOne(d).value[f] == d[f]
  {
    HealedSpec(d);
  }

  /** A return always succeeds, adds exactly one copy with no upper bound,
      and leaves every other field as it was. */
  lemma PutBackSpec(d: Doc)
    ensures QuantityOf(PutBack(d)) == Some(Num(Stock(d) + 1))
    ensures Stock(PutBack(d)) == Stock(d) + 1 > Stock(d)
    ensures PutBack(d).Keys == d.Keys + {"quantity"}
    ensures forall f :: f in d && f != "quantity" ==> PutBack(d)[f] == d[f]
  {
    HealedSpec(d);
  }

  /** A successful borrow followed by a return restores the coerced quantity
      (not the stored representation, which the write-back replaced). */
  lemma BorrowThenReturn(d: Doc)
    requires TakeOne(d).Some?
    ensures PutBack(TakeOne(d).value) == Healed(d)
  {
    var s, h := Stock(d), Healed(d);
    var d' := WithQuantity(h, s - 1);
    assert TakeOne(d) == Some(d');
    NumericQuantityKept(h, s - 1);
    assert PutBack(d') == WithQuantity(d', s);
    HealedSpec(d);
    WithQuantityTwice(d, s - 1, s);
    WithQuantityTwice(d, s, s - 1);
  }

  /** A return followed by a borrow restores the coerced quantity when the
      stock was not negative; from a negative stock the borrow is refused. */
  lemma ReturnThenBorrow(d: Doc)
    ensures Stock(d) >= 0 ==> TakeOne(PutBack(d)) == Some(Healed(d))
    ensures Stock(d) < 0 ==> TakeOne(PutBack(d)) == None
  {
    HealedSpec(d);
    var p := PutBack(d);
    assert Healed(p) == p;
    if Stock(d) >= 0 {
      assert WithQuantity(p, Stock(d)) == WithQuantity(d, Stock(d));
    }
  }

  /** Once the quantity has been written back, `$inc` can no longer fail, and
      the borrow and return steps are exactly `$inc` by -1 and by 1. */
  lemma IncAfterHealing(d: Doc, delta: int)
    ensures Inc(Healed(d), delta) == Some(WithQuantity(Healed(d), Stock(d) + delta))
    ensures Stock(d) > 0 ==> TakeOne(d) == Inc(Healed(d), -1)
    ensures Some(PutBack(d)) == Inc(Healed(d), 1)
  {
    HealedSpec(d);
  }

  /** Two increments add up. */
  lemma IncAdds(d: Doc, a: int, b: int)
    requires Inc(d, a).Some?
    ensures Inc(Inc(d, a).value, b) == Inc(d, a + b)
  {
    var q := if QuantityOf(d).None? then 0 else QuantityOf(d).value.n;
    assert WithQuantity(WithQuantity(d, q + a), q + a + b) == WithQuantity(d, q + a + b);
  }

  /** `k` borrows in a row; `None` once one of them is refused. */
  function Borrows(d: Doc, k: nat): Option<Doc> {
    if k == 0 then Some(d)
    else match TakeOne(d)
      case None => None
      case Some(d') => Borrows(d', k - 1)
  }

  /** From a stock of `q`, exactly `max(q, 0)` borrows in a row succeed, and
      after `k` of them the stock is `q - k`. */
  lemma {:induction false} BorrowsUpToStock(d: Doc, k: nat)
    ensures Borrows(d, k).Some? <==> k == 0 || k <= Stock(d)
    ensures Borrows(d, k).Some? && k > 0 ==> Stock(Borrows(d, k).value) == Stock(d) - k
  {
    if k > 0 {
      TakeOneSpec(d);
      if TakeOne(d).Some? {
        BorrowsUpToStock(TakeOne(d).value, k - 1);
      }
    }
  }
}
