/** A value that may be missing: JavaScript's `undefined` or `null` when absent. */
module Optional {

  datatype Option<T> = None | Some(value: T) {

    /** The held value, or `fallback` when there is none: `x ?? fallback`,
        and `x || fallback` when `x` cannot be falsy. */
    function ValueOr(fallback: T): (r: T)
      ensures Some? ==> r == value
      ensures None? ==> r == fallback
    {
      if Some? then value else fallback
    }
  }
}
