/** Optional values for the model. */
module Wrappers {

  /** An optional value; `None` stands for "no match". */
  datatype Option<+T> = None | Some(value: T)
}
