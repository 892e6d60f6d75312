/** Shared vocabulary: bytes, optional and fallible results, file reads. */
module Common {

  /** An unsigned 8-bit value, as Rust's `u8`. */
  type byte = x: int | 0 <= x < 256

  datatype Option<T> = None | Some(value: T)

  /** Rust's `Result<T, E>`. */
  datatype Result<T, E> = Ok(value: T) | Err(error: E)

  /** A `std::io::Error`; only its identity matters to the model. */
  datatype IoError = IoError(code: int)

  /** The outcome of reading a whole file into memory (`tokio::fs::read`). */
  datatype ReadResult = Read(bytes: seq<byte>) | ReadFailed(error: IoError)

  /** `str::starts_with` with a string pattern: `s` agrees with `prefix` on all of `prefix`. */
  predicate StartsWith(s: string, prefix: string)
    ensures StartsWith(s, prefix) <==> |prefix| <= |s| && forall k :: 0 <= k < |prefix| ==> s[k] == prefix[k]
  {
    |prefix| <= |s| && s[..|prefix|] == prefix
  }
}
