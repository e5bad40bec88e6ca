/** Shared value types: machine integer ranges, optional values and results. */
module Prelude {
  datatype Option<+T> = None | Some(value: T)

  /** A failure-compatible result, the model of Rust's `Result`. */
  datatype Result<+T, +E> = Ok(value: T) | Err(error: E) {
    predicate IsFailure() {
      Err?
    }

    function PropagateFailure<U>(): Result<U, E>
      requires Err?
    {
      Err(error)
    }

    function Extract(): T
      requires Ok?
    {
      value
    }
  }

  type U8 = x: int | 0 <= x < 0x100
  type U16 = x: int | 0 <= x < 0x1_0000
  type U32 = x: int | 0 <= x < 0x1_0000_0000
  type U64 = x: int | 0 <= x < 0x1_0000_0000_0000_0000
  type I16 = x: int | -0x8000 <= x < 0x8000

  type Bytes = seq<U8>

  /** How a compressed frame can be decoded. */
  datatype FrameKind = Keyframe | Delta | LtrRecovery

  function Max(a: int, b: int): int {
    if a < b then b else a
  }

  function Min(a: int, b: int): int {
    if a < b then a else b
  }

  /** Rust's `saturating_sub` on unsigned values. */
  function SatSub(a: nat, b: nat): nat {
    if a < b then 0 else a - b
  }

  /** The concatenation of a list of byte strings. */
  function Concat(parts: seq<Bytes>): Bytes {
    if parts == [] then [] else parts[0] + Concat(parts[1..])
  }
}
