/** Result types shared by every module. */
module Wrappers {
  datatype Option<+T> = None | Some(value: T) {
    function GetOr(default: T): T {
      match this
      case Some(v) => v
      case None => default
    }
  }

  /** `or` of Rust's `Option`: the second value is used only when the first is absent. */
  function OrElse<T>(a: Option<T>, b: Option<T>): Option<T> {
    if a.Some? then a else b
  }

  /** Why a line could not be read (crates/proxy-core/src/error.rs). */
  datatype ParseError =
    | UnsupportedProtocol
    | InvalidUri(text: string)
    | InvalidBase64(text: string)
    | InvalidPort
    | MissingField(field: string)

  /** A Rust `Result`. */
  datatype Result<+T, +E> = Ok(value: T) | Err(error: E)

  /** What calling a parser can do: return a value, return an error, or panic. */
  datatype Outcome<+T> = Done(value: T) | Failed(error: ParseError) | Panic
}
