/** Optional values: a null pointer in the scheduler becomes None. */
module Options {
  datatype Option<+T> = None | Some(value: T)
}
