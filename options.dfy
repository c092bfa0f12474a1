/** The absent-or-present value used for the cache, the crawl time and extraction results. */
module Options {
  datatype Option<+T> = None | Some(value: T)
}
