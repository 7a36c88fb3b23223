/** Types shared by the whole crate: the `anyhow` error and result, an optional value,
    and the embedding vector produced by the model. */
module Prelude {

  /** The conventional optional value. */
  datatype Option<+T> = None | Some(value: T) {

    /** The contained value, or `default` when there is none. */
    function UnwrapOr(default: T): T {
      match this
      case Some(v) => v
      case None => default
    }
  }

  /** An `anyhow::Error`: opaque apart from its message. */
  datatype Error = Error(message: string)

  /** `anyhow::Result<T>`; failure-compatible, so `:-` plays the part of Rust's `?`. */
  datatype Result<+T> = Ok(value: T) | Err(error: Error) {

    predicate IsFailure() {
      Err?
    }

    function PropagateFailure<U>(): Result<U>
      requires Err?
    {
      Err(error)
    }

    function Extract(): T
      requires Ok?
    {
      value
    }

    /** `unwrap_or(default)`, and `unwrap_or_default()` when `default` is the type's default. */
    function UnwrapOr(default: T): T {
      match this
      case Ok(v) => v
      case Err(_) => default
    }
  }

  /** The `Embeddings` vector (`Vec<f32>`); components are kept as reals. */
  type Embeddings = seq<real>

  /** Rust's `u32` and `u64`. */
  type Uint32 = x: int | 0 <= x < 0x1_0000_0000
  type Uint64 = x: int | 0 <= x < 0x1_0000_0000_0000_0000
}
