/** JavaScript values as the handlers and services see them: request body
    fields, route parameters after `Number(...)`, token claims, query
    parameters and row fields. */
module Js {

  datatype Option<+T> = None | Some(value: T)

  /** The outcome of a store call: a value, or the error the driver throws. */
  datatype Result<+T> = Ok(value: T) | Err(message: string)

  /** A JavaScript value. Numbers are integers or NaN; fractional numbers
      and objects are not modelled. */
  datatype JsValue = Undefined | Null | Bool(b: bool) | Num(n: int) | NaN | Str(s: string)

  /** JavaScript truthiness, the test behind `if (v)` and `!v`. */
  predicate Truthy(v: JsValue)
  {
    match v
    case Undefined => false
    case Null => false
    case Bool(b) => b
    case Num(n) => n != 0
    case NaN => false
    case Str(s) => s != ""
  }

  /** JavaScript `a === b` on these values: equal, except that NaN equals nothing. */
  predicate StrictEquals(a: JsValue, b: JsValue)
  {
    a == b && !a.NaN?
  }

  /** What `Number(req.params.id)` can produce. */
  type NumberValue = v: JsValue | v.Num? || v.NaN? witness NaN

  /** A route id the handlers accept: `!id` is false exactly for a non-zero number. */
  lemma AcceptedIds(id: NumberValue)
    ensures Truthy(id) <==> id.Num? && id.n != 0
  {
  }
}

/** HTTP outcomes of the guard chains. */
module Http {
  import opened Js

  const OK := 200
  const CREATED := 201
  const NO_CONTENT := 204
  const BAD_REQUEST := 400
  const UNAUTHORIZED := 401
  const FORBIDDEN := 403
  const NOT_FOUND := 404
  const SERVER_ERROR := 500

  /** The verdict of an ordered series of checks: go on, or answer with a status. */
  datatype Guard = Proceed | Stop(status: int)

  /** A handler's answer: a status code and, where the handler sends one, a payload. */
  datatype Reply<+T> = Reply(status: int, payload: Option<T>)
}
