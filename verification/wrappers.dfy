/** Option, the value-or-nothing type used for Python's `Optional[...]`. */
module Wrappers {

  datatype Option<+T> = None | Some(value: T) {

    /** Python's `x or default` for an optional value whose Some case is always truthy. */
    function OrElse(default: Option<T>): Option<T> {
      if Some? then this else default
    }
  }
}
