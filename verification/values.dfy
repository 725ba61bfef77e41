/** Values shared by the client and server models: optional values, results,
    and the JavaScript truthiness rules the client's fallbacks rely on. */
module Values {

  /** A value that may be absent. In the client model `None` stands for both
      `null` and `undefined`. */
  datatype Option<+T> = None | Some(value: T)

  /** The outcome of an operation that may raise an exception. */
  datatype Result<+T, +E> = Ok(value: T) | Err(error: E)

  /** JavaScript truthiness of a value that is null, undefined or a string:
      only a non-empty string is truthy. */
  predicate Truthy(v: Option<string>)
  {
    v.Some? && v.value != ""
  }

  /** JavaScript `a || b` on two such values. */
  function Or(a: Option<string>, b: Option<string>): Option<string>
  {
    if Truthy(a) then a else b
  }

  /** JavaScript `a || d` where `d` is a string literal: the result is a string. */
  function OrElse(a: Option<string>, d: string): string
  {
    if Truthy(a) then a.value else d
  }
}
