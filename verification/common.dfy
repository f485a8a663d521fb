/**
 Small shared vocabulary: bytes and an optional value.
 */
module Common {

  /** A byte of a response body or of the merged archive file. */
  type byte = b: int | 0 <= b < 256

  datatype Option<+T> = None | Some(value: T)
}
