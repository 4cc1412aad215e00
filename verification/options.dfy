/** The optional-value wrapper that stands for Swift's `T?`. */
module Options {

  /** `None` is Swift's `nil`; `Some(v)` is a present value. */
  datatype Option<+T> = None | Some(value: T)
}
