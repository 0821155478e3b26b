/**
 A Java reference that may be `null`. Every `String` the storage API hands
 back (a stored value, a key, an event field) can be null, so the model keeps
 that possibility explicit instead of using a sentinel string.
 */
module Nullables {

  datatype Nullable<+T> = Null | NonNull(value: T) {

    /** The value, or `default` when this is null. */
    function OrElse(default: T): T {
      match this
      case NonNull(v) => v
      case Null => default
    }
  }
}
