/**
  The JavaScript values the click handler reads from the page.
 */
module JsValues {

  /** A value as jQuery's `.data(key)` can return it. Numbers are exact
      reals; NaN and the infinities are not represented. An object is known
      only by its identity. */
  datatype JsValue =
    | Undefined
    | Null
    | Boolean(b: bool)
    | Number(n: real)
    | String(s: string)
    | Object(id: nat)

  /** The result of jQuery's `.attr(name)`: the attribute text, or
      `undefined` when the element has no such attribute. */
  datatype Attr = Present(text: string) | Absent

  /** JavaScript's strict equality `===`: same type and same value, and
      for objects the same object. */
  predicate StrictEquals(a: JsValue, b: JsValue) {
    match (a, b)
    case (Undefined, Undefined) => true
    case (Null, Null) => true
    case (Boolean(x), Boolean(y)) => x == y
    case (Number(x), Number(y)) => x == y
    case (String(x), String(y)) => x == y
    case (Object(x), Object(y)) => x == y
    case _ => false
  }

  /** Without NaN, `===` on these values is value equality: the same kind of
      value holding the same contents, so `1 === "1"` and `1 === true` are
      false. */
  lemma StrictEqualsIsEquality(a: JsValue, b: JsValue)
    ensures StrictEquals(a, b) <==> a == b
  {
  }
}
