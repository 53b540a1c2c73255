/** Shared vocabulary: machine widths of a 64-bit target, Option/Result, and the
    panics and aborts that end an operation of the string handle. */
module Common {

  /** One more than the largest `usize` on a 64-bit target. */
  const USIZE_MODULUS: int := 0x1_0000_0000_0000_0000
  const USIZE_MAX: int := 0xffff_ffff_ffff_ffff
  /** `isize::MAX`: no Rust object, and hence no `&str`, is larger than this. */
  const ISIZE_MAX: int := 0x7fff_ffff_ffff_ffff
  /** `u32::MAX`: the largest view index when `Idx` is `u32` (the default on 64-bit). */
  const U32_MAX: int := 0xffff_ffff

  type usize = x: int | 0 <= x <= 0xffff_ffff_ffff_ffff
  type u32 = x: int | 0 <= x <= 0xffff_ffff

  datatype Option<+T> = None | Some(value: T)

  /** Why an operation did not return: every `panic!`, failed `assert!`,
      failed `debug_assert!`, arithmetic overflow of a debug build, and `abort()`. */
  datatype Panic =
    | LayoutOverflow                                   // alloc_overflow(): the record size would overflow
    | RefCountOverflow                                 // abort() when a clone finds the count past isize::MAX
    | AddOverflow                                      // `+` on usize overflowing (debug build)
    | IndexTooLarge(index: nat)                        // index_overflow(): does not fit the u32 index type
    | ConstIndexOutOfBounds(index: nat)                // to_idx_const's `DUMMY[i >> 32]`
    | SliceOutOfBounds(index: nat, len: nat)           // `&s[b..e]`: a byte index past the end
    | SliceBeginAfterEnd(begin: nat, end: nat)         // `&s[b..e]`: b > e
    | SliceNotCharBoundary(index: nat)                 // `&s[b..e]`: not on a char boundary
    | SubstrStartAfterEnd(start: nat, end: nat)        // bad_substr_idx, first assert
    | SubstrEndTooLarge(end: nat, bound: nat)          // bad_substr_idx, second assert
    | SubstrNotCharBoundary(start: nat, end: nat)      // bad_substr_idx, third assert
    | SubstrInternalBug(start: nat, end: nat, len: nat) // bad_substr_idx's unreachable! arm
    | DebugAssertion                                   // a failed debug_assert!
    | NotASubstr                                       // out_of_range() / `expect` in substr_from

  /** The outcome of an operation that may panic. */
  datatype Result<+T> = Ok(value: T) | Err(error: Panic) {
    predicate IsFailure() { Err? }

    function PropagateFailure<U>(): Result<U>
      requires Err?
    {
      Err(error)
    }

    function Extract(): T
      requires Ok?
    {
      value
    }
  }
}
