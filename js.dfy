/** Values of the JavaScript runtime that every service in the model shares:
    an optional value (a property that may be undefined), the outcome of an
    async call that may throw (an Error carries its message), and the outcome
    of one HTTP exchange made with axios. */
module Js {

  /** A property that may be absent (undefined or null). */
  datatype Option<+T> = None | Some(value: T)

  /** The settled value of a promise: fulfilled with a value, or rejected with
      an Error whose `message` is given (it may be the empty string). */
  datatype Result<+T> = Ok(value: T) | Err(message: string)

  /** One HTTP exchange: a parsed JSON reply, or a transport-level exception
      (network failure, non-2xx status) carrying its message. */
  datatype Transport<+T> = Reply(body: T) | Fail(message: string)

  /** JavaScript truthiness of an optional string: present and non-empty. */
  predicate Truthy(s: Option<string>)
  {
    s.Some? && s.value != ""
  }

  /** The `a || b` idiom on optional strings. */
  function OrElse(a: Option<string>, b: string): (r: string)
    ensures Truthy(a) ==> r == a.value
    ensures !Truthy(a) ==> r == b
  {
    if a.Some? && a.value != "" then a.value else b
  }

  /** The `a ?? b` idiom. */
  function Coalesce<T>(a: Option<T>, b: T): T
  {
    match a
    case Some(v) => v
    case None => b
  }
}
