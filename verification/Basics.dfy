/** Shared vocabulary.

    Rust strings and byte buffers are both modelled as `string`, one `char` per byte of the
    Rust program's (a Rust `str` is its UTF-8 bytes): `len()` is `|s|`, and ordering is byte order.
    Where the Rust program stores `Vec<u8>` the model uses `Bytes`, whose chars are below 256.
    `usize` is taken to be 64 bits wide.
 */
module Basics {
  datatype Option<+T> = None | Some(value: T) {
    predicate IsFailure() {
      None?
    }

    function PropagateFailure<U>(): Option<U>
      requires None?
    {
      None
    }

    function Extract(): T
      requires Some?
    {
      value
    }
  }

  datatype Result<+T, +E> = Ok(value: T) | Err(error: E) {
    predicate IsFailure() {
      Err?
    }

    function PropagateFailure<U>(): Result<U, E>
      requires Err?
    {
      Err(error)
    }

    function Extract(): T
      requires Ok?
    {
      value
    }
  }

  /** The most signatures any command or document may carry. */
  const MAX_SIGNATURES := 64

  const U32_MAX: int := 0xFFFF_FFFF
  const U64_MAX: int := 0xFFFF_FFFF_FFFF_FFFF

  type u32 = n: int | 0 <= n <= U32_MAX
  type u64 = n: int | 0 <= n <= U64_MAX
  type byte = c: char | c as int < 256
  type Bytes = seq<byte>

  /** No element occurs twice: what the source checks by inserting into a `BTreeSet`. */
  ghost predicate Distinct<T>(s: seq<T>) {
    forall i, j :: 0 <= i < j < |s| ==> s[i] != s[j]
  }
}
