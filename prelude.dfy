/** Shared vocabulary: bytes, optional values, Rust's `Result`, and the panics
    that the Rust code can raise (`unwrap`, out-of-range indexing, length
    assertions). A panic is modelled as an explicit outcome rather than excluded
    by a precondition, because the inputs that raise it come from the request. */
module Prelude {

  /** An unsigned 8-bit value, Rust's `u8`. */
  type byte = x: int | 0 <= x < 256

  datatype Option<+T> = None | Some(value: T)

  /** Rust's `Result<T, E>`. */
  datatype Result<+T, +E> = Ok(value: T) | Err(error: E)

  /** Why a call panicked instead of returning. */
  datatype PanicCause =
    | IndexOutOfBounds   // `v[i]` with `i >= v.len()`
    | SliceOutOfRange    // `s[..n]` with `n > s.len()`
    | UnwrapOnErr        // `.unwrap()` or `.expect(..)` on an error or `None`
    | LengthMismatch     // `GenericArray::from_slice` given a slice of the wrong length

  /** The completion of a call: either it returns a value or it panics. */
  datatype Completion<+T> = Return(value: T) | Panic(cause: PanicCause)
}
