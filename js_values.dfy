/** Values as the TypeScript code sees them: a field that may be `null` or
    `undefined`, and the truthiness test `if (x)` / `!x` applied to strings. */
module JsValues {

  /** `null`/`undefined` (None) or a present value (Some). */
  datatype Option<+T> = None | Some(value: T) {
    /** The `x ?? fallback` operator. */
    function OrElse(fallback: T): (r: T)
      ensures Some? ==> r == value
      ensures None? ==> r == fallback
    {
      match this
      case Some(v) => v
      case None => fallback
    }
  }

  /** A string-valued field is truthy when it is present and not the empty string. */
  predicate Truthy(s: Option<string>) {
    s.Some? && s.value != ""
  }
}
