/** Optional values: a JavaScript `null` attribute, or a parse that may fail. */
module Wrappers {

  datatype Option<T> = None | Some(value: T) {

    predicate IsFailure() {
      None?
    }

    function PropagateFailure<U>(): Option<U>
      requires None?
    {
      None
    }

    function Extract(): T
      requires Some?
    {
      value
    }
  }
}
