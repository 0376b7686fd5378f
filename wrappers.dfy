/** The optional value used wherever the source has a Swift optional (`String?`, `Int?`, `[Movie]?`). */
module Wrappers {
  datatype Option<+T> = None | Some(value: T)
}
