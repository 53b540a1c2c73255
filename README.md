# arcstr in Dafny

This project models the core of `arcstr`, a Rust crate. The crate's immutable
string handle `ArcStr` is a single pointer to a record. A record starts with a
packed header word, `LenFlags`, which holds the byte length shifted left by one
and a flag in bit 0. Then comes a reference-count slot, and then the bytes.

There are two kinds of record:

- A **heap** record (bit 0 set) is allocated by `From<&str>`. Its count is
  raised by `clone` and lowered by `drop`, and the record is freed when the
  count reaches zero.
- A **static** record (bit 0 clear) is written at compile time by `literal!`.
  Its count slot is a placeholder 0 that is never read or written. The empty
  string `EMPTY` is such a record.

`Substr` is a view `(parent, start, end)` into a handle. It uses `u32` indices,
which is the default on a 64-bit target. `from_parts`, `substr` and the
`substr_from` family check the range against the parent, require char
boundaries (RFC 3629, section 3: a continuation byte has the form `10xxxxxx`),
and collapse an empty result to the canonical empty view. Two constructors
differ: `full` views the whole parent as `0..len` even when it is empty, and
`from_parts_unchecked` checks only the index width, leaving bounds and
boundaries to its caller's promise.

The modules are:

- `Common`: machine widths, `Option`/`Result`, and the panics.
- `Text`: char boundaries, the checks `&s[b..e]` makes, and byte ordering.
- `Header`: the `LenFlags` codec.
- `Handle`: records as a class `Inner` with a mutable `strong` count and a
  `freed` flag, plus the counting protocol.
- `View`: `Substr`.
- `Macros`: `literal!`, `literal_substr!`, and `format!` with no arguments.

How the source is represented:

- Records are objects. Their address (`addr`) is a plain number, so pointer
  range checks become integer comparisons.
- The constant `EMPTY` is passed as a parameter `empty`, which satisfies
  `IsEmptyLiteral`.
- Panics, failed debug assertions and `abort()` are `Err` values of `Result`.
- Integer widths follow a 64-bit target with default features. Additions that
  could overflow panic, as in a debug build.

## Model

| member | source | states |
|---|---|---|
| Header.Len | src/arc_str.rs:769-771 | the decoded length is the word shifted right, so it never exceeds `isize::MAX` |
| Header.IsStatic | src/arc_str.rs:773-775 | the flag is bit 0 clear; the length and the flag between them account for the whole word |
| Header.FromLenStatic | src/arc_str.rs:778-780 | `None` exactly when doubling the length overflows a usize; otherwise the header decodes to the given length and flag |
| Header.FromLenStaticRaw | src/arc_str.rs:782-784 | the unchecked encoding always keeps the flag, and keeps the length modulo `2^63` (the shift drops the top bit) |
| Header.RawRoundTrip | src/arc_str.rs:782-784 | for every length whose double fits, the unchecked encoding decodes back to the length and the static flag |
| Header.EncodeDecode | src/arc_str.rs:767-785 | re-encoding a decoded header gives the same word, so the codec is a bijection |
| Header.CheckedAgreesWithRaw | src/arc_str.rs:811-815 | where the checked constructor succeeds it equals the unchecked one (the debug assertion in `allocate`) |
| Header.RawTruncatesLongLengths | src/arc_str.rs:783 | past `isize::MAX` the shift drops the top bit of the length, and the flag survives |
| Header.EmptyStaticDecodes | src/lib.rs:234 | `EMPTY_STATIC` (word 0) decodes to length 0, static, and is the static encoding of 0 |
| Header.BitsRoundTrip | src/arc_str.rs:769-784 | on 64-bit words with the source's shift, or and mask: decoding an encoding gives the length without its top bit, and the flag |
| Header.BitsDecodeEncode | src/lib.rs:236-251 | every 64-bit word is its length field shifted back, or-ed with its flag bit |
| Text.SignedTestIsContinuationTest | src/substr.rs:195-196 | the signed-byte test that `is_char_boundary` applies is exactly "not a UTF-8 continuation byte" |
| Text.SliceError | src/substr.rs:145 | `&s[begin..end]` passes exactly when `begin <= end <= len` and both ends are char boundaries; an end past the length is reported as out of bounds |
| Text.CmpEqualIff | src/arc_str.rs:1037-1042 | byte-wise comparison returns `Equal` exactly on equal byte strings |
| Text.CmpAntisymmetric | src/arc_str.rs:1030-1035 | swapping the operands reverses the comparison |
| Text.CmpTransitive | src/substr.rs:602-607 | `Less` is transitive, so the order is a total order |
| Handle.Inner.Heap | src/arc_str.rs:813-826 | a fresh heap record has the dynamic header for its length, count 1, and a copy of the bytes |
| Handle.Inner.Static | src/arc_str.rs:740-744 | a static record holds a static header, placeholder count 0, and its bytes |
| Handle.AsBytes | src/arc_str.rs:220-231 | the bytes are as many as the header's length field says |
| Handle.Len | src/arc_str.rs:172-174 | the length read from the header equals the number of bytes the record holds |
| Handle.IsEmpty | src/arc_str.rs:186-188 | empty exactly when there are no bytes |
| Handle.IsStatic | src/arc_str.rs:389-391 | the flag is read from the header, and the header is exactly the encoding of the length and this flag |
| Handle.StrongCount | src/arc_str.rs:354-361 | `None` exactly for a static record; otherwise the current count |
| Handle.AsStatic | src/arc_str.rs:419-426 | the content, exactly when the record is static |
| Handle.PtrEq | src/arc_str.rs:307-309 | true exactly for two handles to the same record, which then read the same bytes |
| Handle.New | src/arc_str.rs:140-142 | `new` is the static, empty `EMPTY`; it reports no count and `as_static` gives the empty string |
| Handle.IntoRaw | src/arc_str.rs:250-254 | the escaped pointer is 8-aligned |
| Handle.FromRaw | src/arc_str.rs:276-278 | a handle around a well-formed pointer escapes again as that same pointer |
| Handle.RawRoundTrip | src/lib.rs:103-120 | `from_raw(into_raw(a))` is the same record, and neither step changes the count |
| Handle.Eq | src/arc_str.rs:990-992 | equality with the pointer short-cut is content equality |
| Handle.Ne | src/arc_str.rs:994-996 | `ne` is the negation of `eq` |
| Handle.Cmp | src/arc_str.rs:1037-1042 | the comparison is `Equal` exactly on equal contents |
| Handle.CmpConsistentWithEq | src/arc_str.rs:1037-1042 | ordering says `Equal` exactly when `eq` holds, and is antisymmetric |
| Handle.HashConsistentWithEq | src/arc_str.rs:1044-1049 | equal handles hash alike under any hash function of the bytes |
| Handle.Allocate | src/arc_str.rs:790-830 | refuses exactly the lengths at or past `isize::MAX - 24` with the layout-overflow panic; otherwise returns a fresh, non-static record with count 1 holding the bytes |
| Handle.DestroyCold | src/lib.rs:324-336 | only for a non-static record at count 0; it frees the record, and the layout recomputed from the header is the one it was allocated with |
| Handle.Clone | src/arc_str.rs:637-660 | static: nothing changes and the same handle comes back; heap: the count rises by exactly 1, and a previous count past `isize::MAX` aborts |
| Handle.Drop | src/arc_str.rs:662-700 | static: nothing changes; heap: the count falls by 1, and the record is destroyed exactly when it was 1 |
| Handle.FromStr | src/arc_str.rs:857-866 | empty input gives `EMPTY`; otherwise a fresh heap record with count 1, or the layout panic; the content always equals the input |
| Handle.MakeEmpty | src/lib.rs:259-268 | `EMPTY_INNER`: a static record with header `EMPTY_STATIC`, count 0 and no bytes, reporting no count |
| Handle.CountScenario | tests/arc_str.rs:199-204 | "foobar" reports count 1, and after a clone both the original and the clone report 2; the model adds a final step in which dropping the clone brings the original back to 1 |
| Handle.CloneThenDropAll | src/arc_str.rs:662-700 | after n clones and n + 1 drops, a heap record has been freed exactly once and a static one never touched |
| View.ToIdx | src/substr.rs:47-52 | indices up to `u32::MAX` convert unchanged; larger ones panic with `index_overflow` |
| View.ToIdxConst | src/substr.rs:34-38 | indices up to `u32::MAX` convert unchanged; a larger one panics indexing `DUMMY[i >> 32]` |
| View.ToIdxConstAgrees | src/substr.rs:34-38 | the compile-time width check accepts the same indices as `to_idx` and converts them alike |
| View.ResolveStart | src/substr.rs:134-138 | the resolved start is the least index the start bound admits; `Excluded(usize::MAX)` overflows |
| View.ResolveEnd | src/substr.rs:140-144 | the resolved end is one past the last index the end bound admits; `Included(usize::MAX)` overflows |
| View.Len | src/substr.rs:237-240 | the length is the length of the viewed bytes |
| View.IsEmpty | src/substr.rs:253-255 | empty exactly when the viewed bytes are empty |
| View.ByteRange | src/substr.rs:371-394 | the range is ordered, inside the parent, on char boundaries, and slices the parent to the view's content |
| View.Content | src/substr.rs:550-557 | the content has `end - start` bytes, byte `k` being byte `start + k` of the parent |
| View.Parent | src/substr.rs:367-369 | the parent, sliced with `range()`, gives the view's content |
| View.New | src/substr.rs:109-111 | the empty view of the static `EMPTY` |
| View.Full | src/substr.rs:126-129 | the whole parent as range `0..len` when the length fits an index; otherwise `index_overflow` |
| View.CheckedRange | src/substr.rs:133-145 | the checks before any view is built: the resolved pair is ordered, inside the parent, on char boundaries, and admits exactly the indices the range admits |
| View.FromParts | src/substr.rs:132-151 | every result is a valid view; an empty result is `Substr::new()`, and any other keeps the parent |
| View.FromPartsBetween | src/substr.rs:145-150 | `a.substr(b..e)` succeeds exactly when `b <= e <= len`, both ends are char boundaries, and a non-empty range's end fits an index; it then views `a[b..e]` over range `b..e` |
| View.FromPartsResolved | src/substr.rs:133-143 | a range whose bounds resolve behaves as the half-open `begin..end` it resolves to; one that does not is the `n + 1` overflow panic |
| View.FromPartsPanics | src/substr.rs:145-149 | which panic a failed range raises: out of bounds, then begin after end, then the index width |
| View.FromPartsUnchecked | src/substr.rs:310-312 | only the index width is checked; the indices are kept as given |
| View.FromPartsUncheckedUnderContract | src/substr.rs:298-302 | under its safety contract, the unchecked constructor builds a valid view of `a[start..end]`, the same view as `from_parts` |
| View.FromPartsUncheckedExamples | src/substr.rs:763-776 | over "foobar", `2..5` is "oba", and `0x1_0000_0000..0x1_0000_0001` panics |
| View.BadSubstrIdx | src/substr.rs:68-97 | the reported panic is the `unreachable!` arm exactly when all three assertions hold, and the first assertion fails exactly when start > end |
| View.Reslice | src/substr.rs:175-207 | as written: a result is a valid view of the same parent, starting at or after the view's start; an empty result is `Substr::new()` |
| View.ResliceBetweenAsWritten | src/substr.rs:175-207 | as written, `s.substr(c..d)` succeeds exactly when the shifted ends do not overflow, `c <= d <= self.2`, both shifted ends are char boundaries, and a non-empty end fits an index; it then views `start+c..start+d` of the parent; otherwise it names the overflow, the start-after-end or the debug-assertion panic |
| View.ResliceWithinView | src/substr.rs:167-173 | as documented: a result also ends within the view |
| View.ResliceWithinViewBetween | src/substr.rs:161-171 | the documented re-slice accepts exactly ordered ranges within the view's length on boundaries of the view, and gives `content[c..d]` |
| View.ResliceAgreesInsideView | src/substr.rs:190-207 | when the relative end stays within the view, the code and the documented check accept the same ranges and build the same view, and unless the start is also past the end they are the same function, panics included |
| View.ResliceEscapesView | src/substr.rs:193-194 | over "abcdef", the view "cd" re-sliced with `1..3` returns "de" (`3..5`) instead of panicking |
| View.ResliceReachesUnreachable | src/substr.rs:89 | over "abcdef", the view "b" re-sliced with `0..3` passes all three assertions of `bad_substr_idx` and reaches its `unreachable!` arm, where the documented check reports an end past the view's length |
| View.SliceComposition | src/substr.rs:190-206 | for a range valid in the first view, `a.substr(b..e).substr(c..d)` is `a.substr(b+c..b+d)`; its content is both `a[b+c..b+d]` and `content[c..d]` |
| View.ArcStrTrySubstrFrom | src/arc_str.rs:545-563 | an empty fragment gives the empty view; `None` exactly for a fragment outside the handle's bytes; otherwise the view's start address is the fragment's and its length the fragment's |
| View.ArcStrSubstrFrom | src/arc_str.rs:494-511 | panics `out_of_range` exactly where `try_substr_from` gives `None`, and otherwise agrees with it; any other panic is the one `from_parts` raises for the fragment's window (a cut character or the index width) |
| View.ArcStrTrySubstrFromDerived | src/arc_str.rs:559-562 | a fragment that is `a[k..k+n]` in the handle's own memory comes back as the view `k..k+n` of `a` |
| View.TrySubstrFrom | src/substr.rs:466-483 | an empty fragment gives the empty view; `None` exactly outside the view's window; otherwise a view within this view at the fragment's address and length; the only panic is a char-boundary one |
| View.SubstrFrom | src/substr.rs:426-431 | the `expect` panics exactly where `try_substr_from` gives `None`, and otherwise agrees with it |
| View.TrySubstrFromDerived | src/substr.rs:480-482 | a fragment that is `content[k..k+n]` comes back as the view of that range of the view |
| View.SubstrExamples | src/arc_str.rs:441-484 | `"abcde".substr(2..)` is "cde"; the trimmed "   abc" comes back as range `3..6` of the same parent; a fragment elsewhere gives `None` |
| View.ShallowEq | src/substr.rs:339-341 | shallowly equal valid views have equal contents |
| View.Eq | src/substr.rs:561-563 | equality with the shallow short-cut is content equality |
| View.Ne | src/substr.rs:565-567 | `ne` is the negation of `eq` |
| View.EqArcStr | src/substr.rs:570-575 | comparing a view with a handle, either way round, is content equality |
| View.NeArcStr | src/substr.rs:576-580 | `ne` between a view and a handle is the negation of `eq` |
| View.Cmp | src/substr.rs:602-607 | the comparison is `Equal` exactly on equal contents |
| View.CmpConsistentWithEq | src/substr.rs:595-607 | ordering says `Equal` exactly when `eq` holds, and is antisymmetric |
| View.HashConsistentWithEq | src/substr.rs:609-614 | equal views hash alike under any hash function of the bytes |
| View.SubstrOfArcStr | src/substr.rs:144-149 | the view of `from_parts`; once the range passes its checks and is non-empty, a heap parent's count rises by 1 before the index-width check, so a count overflow aborts first, keeping the raised count; an index panic unwinds and drops the clone, restoring the count; a returned non-empty view keeps the count raised; otherwise the parent is untouched |
| View.CloneView | src/substr.rs:28-30 | cloning a view clones its parent handle and keeps the indices, so the clone is `shallow_eq` to the original |
| View.ResliceRetaining | src/substr.rs:202-207 | the view of the as-written re-slice; a non-empty view raises a heap parent's count by 1; otherwise the parent is untouched |
| Macros.LiteralHeader | src/mac.rs:36-39 | the header `len << 1` decodes to the text's length and reads as static |
| Macros.LiteralHeaderIsStaticEncoding | src/arc_str.rs:787 | the literal header is the codec's static encoding, and the empty literal's header is `EMPTY_STATIC` |
| Macros.Literal | src/mac.rs:30-52 | a fresh static record with placeholder count 0 whose content is the text; it reports no count and `as_static` gives the text |
| Macros.LiteralSubstr | src/mac.rs:104-114 | a valid view of the whole literal, range `0..len`, whose content is the text; a length past `u32::MAX` fails at compile time |
| Macros.FormatNoArgs | src/mac.rs:69-73 | `format!(text)` is the literal itself: static, with content equal to the text |
| Macros.LiteralScenario | tests/arc_str.rs:219-246 | a literal reports no count and `as_static` gives its text; its clone is the same record, static, and dropping handles never frees it |

## Left out

- Atomic orderings and the concurrency tests. The count is a sequential field, and each `fetch_add`/`fetch_sub` is one step.
- Real allocation: `Layout`, `alloc`/`dealloc`, `handle_alloc_error` on out-of-memory, and the pointer casts and layout assertions. A record is an object with an address parameter and the layout size it was allocated with.
- The mechanics of `abort()` and double panics. An abort is the error `RefCountOverflow`.
- Release-build wrap-around of `+`. Additions that could overflow are modelled as in a debug build (`AddOverflow`), and failed debug assertions are `DebugAssertion`.
- src/lib.rs stores `orig_layout` in debug builds, which moves its data offset to 32. The model uses the 16-byte offset of src/arc_str.rs, and both files are otherwise modelled by the same members.
- UTF-8 validity of the content. Bytes are arbitrary `bv8`; only the char-boundary test matters for these operations.
- The concrete hash function. `Hash` is modelled under an arbitrary function of the bytes.
- Conversions and trait glue: `Box`/`Rc`/`Arc`/`Cow`/`String`, `Debug`/`Display`, `Index`, `AsRef`, `Borrow`, `FromStr`, `to_string`, `as_str`, and the `impl_peq!` comparisons with `str`.
- `try_substr_using` and `substr_using`. They apply a caller's closure and then call `try_substr_from` / `substr_from`, which are modelled.
- `From<ArcStr> for Substr` and `From<&ArcStr> for Substr`. These are `full`, modelled as `View.Full`, where `&ArcStr` first takes a clone, as modelled by `Handle.Clone`.
- src/impl_serde.rs and src/impl_bincode.rs: serialization adapters. src/proc_macros: token plumbing.
- `format!` with arguments, which relies on the formatting machinery.
- View.FromParts: returns the view without the parent clone; the clone's effect on the count is stated by `View.SubstrOfArcStr`.
- View.Reslice: returns the view without the parent clone; the clone's effect on the count is stated by `View.ResliceRetaining`.
- View.ArcStrTrySubstrFrom: does not perform the parent clone that its call to `substr` makes; see `View.SubstrOfArcStr`.
- View.TrySubstrFrom: does not perform the parent clone that its call to `substr` makes; see `View.ResliceRetaining`.
- View.ResliceWithinView: names relative indices in its panics, since the corrected check has no counterpart for `bad_substr_idx`'s absolute messages.

## Findings

| source | as written | input that shows it | evidently intended | confidence | as-written member | corrected member |
|---|---|---|---|---|---|---|
| src/substr.rs:193-194 | `Substr::substr` rejects a relative end only when it exceeds the view's absolute end `self.2`, not its length `self.len()` | parent "abcdef", view `2..4` ("cd"), `.substr(1..3)` returns `3..5` ("de"); with a parent over 4 GiB the shifted end can also pass `u32::MAX` and trip the debug assertion at line 205; parent "abcdef", view `1..2` ("b"), `.substr(0..3)` passes all three assertions of `bad_substr_idx` and reaches its `unreachable!("[arcstr bug] …")` arm (line 89) | the documented check `range.end() <= self.len()` (lines 167-171), so that the result lies within the view | high; not executed | View.ResliceEscapesView | View.ResliceWithinView |
