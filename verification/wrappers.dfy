/** The optional value used throughout the model: `None` stands for the
    source's `null`/`false` results and for absent settings. */
module Wrappers {

  datatype Option<T> = None | Some(value: T)
}
