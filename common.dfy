/** Small value types shared by the whole model. */
module Common {

  /** An optional value: `undefined`/`null` in the source is `None`. */
  datatype Option<T> = None | Some(value: T)

}
