/** Shared value types of the Mushroom Man model. */
module Common {

  /** An optional value: JavaScript's "not set yet", Python's `None`. */
  datatype Option<+T> = None | Some(value: T)

  /** A grid coordinate `(x, y)`: column first, row second, origin top-left. */
  type Pos = (int, int)
}
