/** Shapes shared by every module: JavaScript's "value or undefined" as
    `Option`, and "value or thrown exception" as `Result`. */
module Base {

  datatype Option<+T> = None | Some(value: T) {
    /** The wrapped value, or `default` when there is none. */
    function GetOr(default: T): T {
      match this
      case Some(v) => v
      case None => default
    }
  }

  /** The kinds of exception the modelled code can raise. */
  datatype Error =
    | TypeError         // a property read on null/undefined, or a call of a non-function
    | MissingTable      // a query against an account table that does not exist
    | WriteFailed       // the storage service rejected an update

  datatype Result<+T> = Ok(value: T) | Err(error: Error)

  /** JavaScript truthiness of an optional string: present and non-empty. */
  predicate Present(a: Option<string>) {
    a.Some? && a.value != ""
  }

  /** `a || ""`. */
  function OrEmpty(a: Option<string>): string {
    if Present(a) then a.value else ""
  }
}
