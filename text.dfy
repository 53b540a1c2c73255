/** Byte-level facts about `str` that the handle and its views rely on: UTF-8
    char boundaries, the checks of `&s[begin..end]`, and byte-wise ordering. */
module Text {
  import opened Common

  /** A UTF-8 continuation byte has the bit pattern 10xxxxxx (RFC 3629, section 3). */
  predicate IsContinuation(b: bv8) {
    b & 0xC0 == 0x80
  }

  /** Rust's `b as i8`. */
  function AsI8(b: bv8): (r: int)
    ensures -128 <= r < 128
    ensures (r < 0) == (b >= 0x80)
  {
    if b < 0x80 then b as int else b as int - 256
  }

  /** `str::is_char_boundary` tests `(b as i8) >= -0x40`: exactly the bytes
      that do not continue a multi-byte sequence. */
  lemma SignedTestIsContinuationTest(b: bv8)
    ensures (AsI8(b) >= -0x40) == !IsContinuation(b)
  {
  }

  /** `str::is_char_boundary(i)`: index 0, the end, or a byte that starts a
      character. Past the end it is false. */
  predicate IsCharBoundary(s: seq<bv8>, i: nat) {
    i == 0 || i == |s| || (i < |s| && !IsContinuation(s[i]))
  }

  /** The checks of `&s[begin..end]` on a `str`, in the order the core library
      makes them; `None` means the slice is taken. */
  function SliceError(s: seq<bv8>, begin: nat, end: nat): (r: Option<Panic>)
    ensures r.None? <==> begin <= end <= |s| && IsCharBoundary(s, begin) && IsCharBoundary(s, end)
    ensures r.Some? && end > |s| && begin <= |s| ==> r.value == SliceOutOfBounds(end, |s|)
  {
    if begin > |s| || end > |s| then
      Some(SliceOutOfBounds(if begin > |s| then begin else end, |s|))
    else if begin > end then
      Some(SliceBeginAfterEnd(begin, end))
    else if !IsCharBoundary(s, begin) then
      Some(SliceNotCharBoundary(begin))
    else if !IsCharBoundary(s, end) then
      Some(SliceNotCharBoundary(end))
    else
      None
  }

  datatype Ordering = Less | Equal | Greater {
    function Reverse(): Ordering {
      match this
      case Less => Greater
      case Equal => Equal
      case Greater => Less
    }
  }

  /** `Ord for str`: lexicographic on the bytes, unsigned. */
  function Cmp(a: seq<bv8>, b: seq<bv8>): Ordering
    decreases |a|
  {
    if a == [] then (if b == [] then Equal else Less)
    else if b == [] then Greater
    else if a[0] < b[0] then Less
    else if a[0] > b[0] then Greater
    else Cmp(a[1..], b[1..])
  }

  lemma {:induction false} CmpEqualIff(a: seq<bv8>, b: seq<bv8>)
    ensures Cmp(a, b) == Equal <==> a == b
    decreases |a|
  {
    if a != [] && b != [] && a[0] == b[0] {
      CmpEqualIff(a[1..], b[1..]);
      assert a == [a[0]] + a[1..];
      assert b == [b[0]] + b[1..];
    }
  }

  lemma {:induction false} CmpAntisymmetric(a: seq<bv8>, b: seq<bv8>)
    ensures Cmp(b, a) == Cmp(a, b).Reverse()
    decreases |a|
  {
    if a != [] && b != [] && a[0] == b[0] {
      CmpAntisymmetric(a[1..], b[1..]);
    }
  }

  lemma {:induction false} CmpTransitive(a: seq<bv8>, b: seq<bv8>, c: seq<bv8>)
    requires Cmp(a, b) == Less && Cmp(b, c) == Less
    ensures Cmp(a, c) == Less
    decreases |a|
  {
    if a != [] && b != [] && c != [] && a[0] == b[0] && b[0] == c[0] {
      CmpTransitive(a[1..], b[1..], c[1..]);
    }
  }
}
