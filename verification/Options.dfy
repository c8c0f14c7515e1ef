/** Optional values: `std::optional`, and `npos` results of searches. */
module Options {
  datatype Option<+T> = None | Some(value: T)
}
