/** Bytes of text and UTF-8 character boundaries, as Rust's `str` sees them. */
module Utf8 {

  /** One byte of a message; Rust's `str::len` counts these. */
  newtype Byte = b: int | 0 <= b < 256

  /** A UTF-8 continuation byte (10xxxxxx) never starts a character. */
  predicate IsContinuation(b: Byte) {
    0x80 <= b < 0xC0
  }

  /** Rust's `str::is_char_boundary`: 0 and the length are boundaries, an index
      past the end is not, and any other index is one exactly when the byte
      there starts a character. Slicing a `str` anywhere else panics. */
  predicate IsCharBoundary(s: seq<Byte>, i: nat) {
    i == 0 || i == |s| || (i < |s| && !IsContinuation(s[i]))
  }

  /** The largest character boundary of `s` that is not above `i`. */
  function FloorCharBoundary(s: seq<Byte>, i: nat): (k: nat)
    ensures k <= i && IsCharBoundary(s, k)
    ensures forall j :: k < j <= i ==> !IsCharBoundary(s, j)
    decreases i
  {
    if IsCharBoundary(s, i) then i else FloorCharBoundary(s, i - 1)
  }
}
