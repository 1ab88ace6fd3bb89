/** Shared vocabulary: an optional value and bytes. */
module Wrappers {

  /** `None` stands for "no value": in this model it is also the outcome of a
      Rust `panic!` or a failed `unwrap`, where the program produces nothing. */
  datatype Option<+T> = None | Some(value: T)

  /** Rust's `u8`. */
  type byte = x: int | 0 <= x < 256

  /** Rust's `u64`. */
  type u64 = x: int | 0 <= x < 0x1_0000_0000_0000_0000

  /** `s` begins with `prefix` (an anchored match). */
  predicate StartsWith<T(==)>(s: seq<T>, prefix: seq<T>)
  {
    |prefix| <= |s| && s[..|prefix|] == prefix
  }
}
