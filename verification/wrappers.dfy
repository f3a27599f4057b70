/** The optional value that stands for Python's `Optional[...]` and for
    "raised an exception" in the model. */
module Wrappers {

  datatype Option<+T> = None | Some(value: T)
}
