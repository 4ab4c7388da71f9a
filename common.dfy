/** Shared helper datatype: a value that may be absent (Python's `None`). */
module Common {

  datatype Option<+T> = None | Some(value: T)

}
