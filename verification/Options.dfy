/** Optional results, in place of null and of sentinel values. */
module Options {
  datatype Option<+T> = None | Some(value: T)
}
