/** Optional values: `None` stands for a Python `ValueError` raised while parsing. */
module Wrappers {

  datatype Option<+T> = None | Some(value: T)
}
