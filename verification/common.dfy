/** Shared value types: optional values, results with an error, raw bytes. */
module Common {

  datatype Option<+T> = None | Some(value: T)

  datatype Result<+T, +E> = Ok(value: T) | Err(error: E)

  /** File contents and process output, as Go's []byte. */
  type Bytes = seq<bv8>
}
