/**
 Shared failure-compatible wrappers and the fixed-width integer ranges of the
 archiver. Rust's `Option` and `Result` become the two datatypes below; the
 `u32` identifiers and `usize` indices of the source become subset types of
 `nat`, so every value the model handles is one the program can hold.
 */
module Common {

  /** Rust's `Option<T>`. */
  datatype Option<+T> = None | Some(value: T) {
    predicate IsFailure() {
      None?
    }

    function PropagateFailure<U>(): Option<U>
      requires None?
    {
      None
    }

    function Extract(): T
      requires Some?
    {
      value
    }

    /** `unwrap_or(default)` */
    function GetOr(default: T): T {
      match this
      case Some(v) => v
      case None => default
    }
  }

  /** Rust's `Result<T, E>`. */
  datatype Result<+T, +E> = Ok(value: T) | Err(error: E) {
    predicate IsFailure() {
      Err?
    }

    function PropagateFailure<U>(): Result<U, E>
      requires Err?
    {
      Err(error)
    }

    function Extract(): T
      requires Ok?
    {
      value
    }
  }

  const U32_LIMIT: nat := 0x1_0000_0000
  const USIZE_LIMIT: nat := 0x1_0000_0000_0000_0000

  /** Rust's `u32`: catalog identifiers, page numbers and counters. */
  type u32 = x: nat | x < U32_LIMIT

  /** Rust's `usize` on a 64-bit target: list indices and parsed choices. */
  type usize = x: nat | x < USIZE_LIMIT
}
