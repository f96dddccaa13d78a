/** JavaScript's `null`, as the lookup gives it for a label no element carries. */
module Optional {

  /** `None` stands for that `null`; `Some(v)` for a value `v` taken from an element. */
  datatype Option<+T> = None | Some(value: T)
}
