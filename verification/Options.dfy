/** Optional results, for the sources' "not found" and "refused" returns. */
module Options {
  datatype Option<+T> = None | Some(value: T)
}
