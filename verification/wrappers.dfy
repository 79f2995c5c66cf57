/** Failure-compatible wrappers used by the codecs: `Option` for the
    per-line "drop this line" outcome and `Result` for Kotlin's
    `runCatching { ... }` around a whole file load. */
module Wrappers {

  datatype Option<+T> = None | Some(value: T)

  datatype Result<+R, +E> = Success(value: R) | Failure(error: E)
}
