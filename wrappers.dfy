/** Option type shared by the decoders, the fetcher and the report pipelines. */
module Wrappers {
  datatype Option<+T> = None | Some(value: T)
}
