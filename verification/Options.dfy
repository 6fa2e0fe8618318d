/** Optional results, as returned by functions that may yield NULL. */
module Options {
  datatype Option<+T> = None | Some(value: T)
}
