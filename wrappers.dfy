/** Optional values: `None` stands for the Python code's NaN results and raised errors. */
module Wrappers {

  datatype Option<+T> = None | Some(value: T)
}
