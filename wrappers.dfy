/** Python's `None` as a value: a lookup or a scrape that may produce nothing. */
module Wrappers {

  datatype Option<+T> = None | Some(value: T)
}
