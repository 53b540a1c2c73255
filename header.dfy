/** The packed header word `LenFlags` that starts every record: the byte length
    shifted left by one, with bit 0 set for a heap record and clear for a static
    one (src/arc_str.rs and its earlier copy src/lib.rs). */
module Header {
  import opened Common

  /** The word `len << 1 | !is_static`. */
  datatype LenFlags = LenFlags(word: usize)

  /** `LenFlags::EMPTY_STATIC`: length 0, static. */
  const EMPTY_STATIC: LenFlags := LenFlags(0)

  /** `len()`: the word shifted right by one bit. */
  function Len(lf: LenFlags): (l: nat)
    ensures l <= ISIZE_MAX
  {
    lf.word / 2
  }

  /** `is_static()`: bit 0 is clear. The length and the flag between them
      account for the whole word. */
  predicate IsStatic(lf: LenFlags)
    ensures lf.word == 2 * Len(lf) + DynamicBit(IsStatic(lf))
  {
    lf.word % 2 == 0
  }

  /** `!is_static as usize`. */
  function DynamicBit(isStatic: bool): nat {
    if isStatic then 0 else 1
  }

  /** `l << 1` on a usize: the top bit is shifted out. */
  function Shl1(l: usize): (r: usize)
    ensures r % 2 == 0
  {
    if l * 2 < USIZE_MODULUS then l * 2 else l * 2 - USIZE_MODULUS
  }

  /** `from_len_static`: `l.checked_mul(2)`, then the dynamic bit or-ed in. */
  function FromLenStatic(l: usize, isStatic: bool): (r: Option<LenFlags>)
    ensures r.None? <==> l * 2 > USIZE_MAX
    ensures r.Some? ==> Len(r.value) == l && IsStatic(r.value) == isStatic
  {
    if l * 2 <= USIZE_MAX then Some(LenFlags(l * 2 + DynamicBit(isStatic))) else None
  }

  /** `from_len_static_raw`: `l << 1 | !is_static`, with no overflow check. */
  function FromLenStaticRaw(l: usize, isStatic: bool): (r: LenFlags)
    ensures Len(r) == l % (ISIZE_MAX + 1)
    ensures IsStatic(r) == isStatic
  {
    LenFlags(Shl1(l) + DynamicBit(isStatic))
  }

  /** Decoding an encoded header gives back the length and the flag, for every
      length whose double fits in a usize. */
  lemma RawRoundTrip(l: usize, isStatic: bool)
    requires l * 2 <= USIZE_MAX
    ensures Len(FromLenStaticRaw(l, isStatic)) == l
    ensures IsStatic(FromLenStaticRaw(l, isStatic)) == isStatic
  {
  }

  /** Encoding a decoded header gives back the word: the codec is a bijection. */
  lemma EncodeDecode(lf: LenFlags)
    ensures FromLenStaticRaw(Len(lf), IsStatic(lf)) == lf
  {
  }

  /** Where the checked constructor succeeds it agrees with the unchecked one
      (the debug assertion in `allocate`). */
  lemma CheckedAgreesWithRaw(l: usize, isStatic: bool)
    ensures FromLenStatic(l, isStatic).Some? ==> FromLenStatic(l, isStatic) == Some(FromLenStaticRaw(l, isStatic))
  {
  }

  /** Past `isize::MAX` the unchecked constructor loses the top bit of the length. */
  lemma RawTruncatesLongLengths(l: usize, isStatic: bool)
    requires l > ISIZE_MAX
    ensures Len(FromLenStaticRaw(l, isStatic)) == l - (ISIZE_MAX + 1)
    ensures IsStatic(FromLenStaticRaw(l, isStatic)) == isStatic
  {
  }

  /** `EMPTY_STATIC` reads as a static, empty record. */
  lemma EmptyStaticDecodes()
    ensures Len(EMPTY_STATIC) == 0 && IsStatic(EMPTY_STATIC)
    ensures EMPTY_STATIC == FromLenStaticRaw(0, true)
  {
  }

  /** The same codec on 64-bit words with the shift, or and mask of the source:
      shifting right undoes shifting left except for the top bit, and bit 0 is
      the complement of the static flag. */
  lemma BitsRoundTrip(l: bv64, isStatic: bool)
    ensures (((l << 1) | (if isStatic then 0 else 1)) >> 1) == l & 0x7fff_ffff_ffff_ffff
    ensures ((((l << 1) | (if isStatic then 0 else 1)) & 1) == 0) == isStatic
  {
  }

  /** Every 64-bit word is its length field shifted back left, or-ed with its
      flag bit: the bit-level form of `EncodeDecode`. */
  lemma BitsDecodeEncode(w: bv64)
    ensures ((w >> 1) << 1) | (w & 1) == w
  {
  }
}
