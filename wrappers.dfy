/** The optional-value datatype the rest of the model returns where the service may find nothing. */
module Wrappers {

  datatype Option<+T> = None | Some(value: T)

  function Max(a: int, b: int): int
  {
    if a >= b then a else b
  }
}
