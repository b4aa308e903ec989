/** Small carriers shared by the models. */
module Wrappers {

  /** A Go pointer or an optional value. */
  datatype Option<+T> = None | Some(value: T)

  /** What a read from the API server, the file system or a library call returns. */
  datatype Fetch<+T> = Failed | Missing | Found(value: T)
}
