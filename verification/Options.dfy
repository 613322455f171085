/** Values that may be missing, and values that are the same. */
module Options {
  datatype Option<T> = None | Some(value: T)

  /** Equality as it is: nothing is compared element by element to prove it. */
  predicate Same<T(==)>(x: T, y: T) { x == y }
}
