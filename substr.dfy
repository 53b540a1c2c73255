/** `Substr`: a view made of a parent handle and a byte range inside it, with
    `u32` indices (the default on a 64-bit target). `from_parts`, `substr`
    and the `substr_from` family check the range against the parent and
    collapse an empty result to the canonical empty view; `full` keeps the
    whole parent even when it is empty, and `from_parts_unchecked` leaves the
    range to its caller (src/substr.rs, and the `substr*` methods of
    src/arc_str.rs). */
module View {
  import opened Common
  import opened Text
  import Handle

  /** `Substr(ArcStr, Idx, Idx)`. */
  datatype Substr = Substr(parent: Handle.ArcStr, start: u32, end: u32)

  /** `core::ops::Bound<&usize>`. */
  datatype Bound = Included(n: usize) | Excluded(n: usize) | Unbounded

  /** What `impl RangeBounds<usize>` contributes: its two bounds. */
  datatype RangeBounds = RangeBounds(startBound: Bound, endBound: Bound)

  /** `b..e`. */
  function Between(b: usize, e: usize): RangeBounds {
    RangeBounds(Included(b), Excluded(e))
  }

  /** `b..`. */
  function StartingAt(b: usize): RangeBounds {
    RangeBounds(Included(b), Unbounded)
  }

  /** `..`. */
  const Whole: RangeBounds := RangeBounds(Unbounded, Unbounded)

  /** A borrowed `&str`: the address of its first byte and its bytes. */
  datatype StrRef = StrRef(ptr: nat, bytes: seq<bv8>)

  // ---------------------------------------------------------------------------
  // Index width

  /** `to_idx`: an index past `u32::MAX` panics (`index_overflow`), any other
      converts unchanged. */
  function ToIdx(i: usize): (r: Result<u32>)
    ensures r.Ok? <==> i <= U32_MAX
    ensures r.Ok? ==> r.value == i
    ensures r.Err? ==> r.error == IndexTooLarge(i)
  {
    if i > 0xffff_ffff then Err(IndexTooLarge(i)) else Ok(i)
  }

  /** `to_idx_const`: indexes the one-element array `DUMMY` with `i >> 32`, so
      any index past `u32::MAX` is an out-of-bounds panic. */
  function ToIdxConst(i: usize): (r: Result<u32>)
    ensures r.Ok? <==> i <= U32_MAX
    ensures r.Ok? ==> r.value == i
    ensures r.Err? ==> r.error == ConstIndexOutOfBounds(i / 0x1_0000_0000)
  {
    var hi := i / 0x1_0000_0000;
    if hi >= 1 then Err(ConstIndexOutOfBounds(hi)) else Ok(i)
  }

  /** The two width checks accept the same indices and convert them alike;
      they differ only in the panic they raise. */
  lemma ToIdxConstAgrees(i: usize)
    ensures ToIdxConst(i).Ok? <==> ToIdx(i).Ok?
    ensures ToIdx(i).Ok? ==> ToIdxConst(i) == ToIdx(i)
    ensures ToIdxConst(i).Err? ==> ToIdxConst(i).error == ConstIndexOutOfBounds(i / 0x1_0000_0000)
  {
  }

  // ---------------------------------------------------------------------------
  // Range bounds

  /** The indices a start bound lets in. */
  predicate AdmitsFromStart(b: Bound, i: nat) {
    match b
    case Included(n) => n <= i
    case Excluded(n) => n < i
    case Unbounded => true
  }

  /** The indices an end bound lets in, `len` standing in for "no bound". */
  predicate AdmitsBeforeEnd(b: Bound, i: nat, len: nat) {
    match b
    case Included(n) => i <= n
    case Excluded(n) => i < n
    case Unbounded => i < len
  }

  /** The start of the half-open range: `n`, `n + 1` or 0. The `+ 1` on
      `usize::MAX` is an overflow panic. */
  function ResolveStart(b: Bound): (r: Result<usize>)
    ensures r.Err? <==> b == Excluded(USIZE_MAX)
    ensures r.Err? ==> r.error == AddOverflow
    ensures r.Ok? ==> forall i: nat {:trigger AdmitsFromStart(b, i)} :: AdmitsFromStart(b, i) <==> r.value <= i
  {
    match b
    case Included(n) => Ok(n)
    case Excluded(n) => if n == USIZE_MAX then Err(AddOverflow) else Ok(n + 1)
    case Unbounded => Ok(0)
  }

  /** The end of the half-open range: `n + 1`, `n` or `len`. */
  function ResolveEnd(b: Bound, len: usize): (r: Result<usize>)
    ensures r.Err? <==> b == Included(USIZE_MAX)
    ensures r.Err? ==> r.error == AddOverflow
    ensures r.Ok? ==> forall i: nat {:trigger AdmitsBeforeEnd(b, i, len)} :: AdmitsBeforeEnd(b, i, len) <==> i < r.value
  {
    match b
    case Included(n) => if n == USIZE_MAX then Err(AddOverflow) else Ok(n + 1)
    case Excluded(n) => Ok(n)
    case Unbounded => Ok(len)
  }

  // ---------------------------------------------------------------------------
  // The view and its invariant

  /** What every checked constructor establishes, and `range()` documents: the
      range is ordered, inside the parent, and on char boundaries. */
  predicate Valid(s: Substr) {
    s.parent.ptr.Wf() &&
    s.start <= s.end <= Handle.Len(s.parent) &&
    IsCharBoundary(Handle.AsBytes(s.parent), s.start) &&
    IsCharBoundary(Handle.AsBytes(s.parent), s.end)
  }

  /** `Deref` / `as_str`: the parent's bytes over the range, byte `k` of the
      view being byte `start + k` of the parent. */
  function Content(s: Substr): (c: seq<bv8>)
    requires Valid(s)
    ensures |c| == s.end - s.start <= Handle.Len(s.parent)
    ensures forall k :: 0 <= k < |c| ==> c[k] == Handle.AsBytes(s.parent)[s.start + k]
  {
    Handle.AsBytes(s.parent)[s.start..s.end]
  }

  /** `len`: the byte length of the view. */
  function Len(s: Substr): (n: nat)
    requires Valid(s)
    ensures n == |Content(s)|
  {
    s.end - s.start
  }

  /** `is_empty`: the two indices agree. */
  predicate IsEmpty(s: Substr)
    ensures Valid(s) ==> (IsEmpty(s) <==> Content(s) == [])
  {
    s.end == s.start
  }

  /** `range`: the occupied range, always sound to slice the parent with. */
  function ByteRange(s: Substr): (r: (nat, nat))
    requires Valid(s)
    ensures r.0 <= r.1 <= Handle.Len(s.parent)
    ensures IsCharBoundary(Handle.AsBytes(s.parent), r.0) && IsCharBoundary(Handle.AsBytes(s.parent), r.1)
    ensures Handle.AsBytes(s.parent)[r.0..r.1] == Content(s)
  {
    (s.start, s.end)
  }

  /** `parent`: the handle whose bytes, sliced with `range()`, are the view. */
  function Parent(s: Substr): (p: Handle.ArcStr)
    ensures Valid(s) ==>
      p.ptr.Wf() && ByteRange(s).1 <= |Handle.AsBytes(p)| &&
      Handle.AsBytes(p)[ByteRange(s).0..ByteRange(s).1] == Content(s)
  {
    s.parent
  }

  /** `new` / `default`: the empty view of `EMPTY`. */
  function New(empty: Handle.ArcStr): (r: Substr)
    requires Handle.IsEmptyLiteral(empty)
    ensures Valid(r) && IsEmpty(r) && Content(r) == []
    ensures Handle.IsStatic(r.parent)
  {
    Substr(Handle.New(empty), 0, 0)
  }

  /** `full` / `From<ArcStr>`: the whole parent, when its length fits an index. */
  function Full(a: Handle.ArcStr): (r: Result<Substr>)
    requires a.ptr.Wf()
    ensures r.Ok? <==> Handle.Len(a) <= U32_MAX
    ensures r.Err? ==> r.error == IndexTooLarge(Handle.Len(a))
    ensures r.Ok? ==> Valid(r.value) && r.value.parent == a && Content(r.value) == Handle.AsBytes(a)
    ensures r.Ok? ==> ByteRange(r.value) == (0, Handle.Len(a))
  {
    var l :- ToIdx(Handle.Len(a));
    Ok(Substr(a, 0, l))
  }

  // ---------------------------------------------------------------------------
  // Construction from a parent

  /** The checks `from_parts` makes before it builds anything: resolve the
      two bounds, then take `&a[begin..end]`. The half-open pair it returns
      admits exactly the indices the range admits. */
  function CheckedRange(a: Handle.ArcStr, range: RangeBounds): (r: Result<(usize, usize)>)
    requires a.ptr.Wf()
    ensures r.Ok? ==> r.value.0 <= r.value.1 <= Handle.Len(a)
    ensures r.Ok? ==>
      IsCharBoundary(Handle.AsBytes(a), r.value.0) && IsCharBoundary(Handle.AsBytes(a), r.value.1)
    ensures r.Ok? ==> forall i: nat {:trigger AdmitsFromStart(range.startBound, i)} ::
      AdmitsFromStart(range.startBound, i) && AdmitsBeforeEnd(range.endBound, i, Handle.Len(a)) <==>
      r.value.0 <= i < r.value.1
  {
    var begin :- ResolveStart(range.startBound);
    var end :- ResolveEnd(range.endBound, Handle.Len(a));
    match SliceError(Handle.AsBytes(a), begin, end)
    case Some(p) => Err(p)
    case None => Ok((begin, end))
  }

  /** `from_parts` (and `ArcStr::substr`): after the checks, either the empty
      view or the parent with both indices narrowed to `u32`. The parent
      clone is the business of `SubstrOfArcStr`. */
  function FromParts(a: Handle.ArcStr, range: RangeBounds, empty: Handle.ArcStr): (r: Result<Substr>)
    requires a.ptr.Wf() && Handle.IsEmptyLiteral(empty)
    ensures r.Ok? ==> Valid(r.value)
    ensures r.Ok? && IsEmpty(r.value) ==> r.value == New(empty)
    ensures r.Ok? && !IsEmpty(r.value) ==> r.value.parent == a
  {
    var checked :- CheckedRange(a, range);
    var (begin, end) := checked;
    if end == begin then Ok(New(empty))
    else
      var b :- ToIdx(begin);
      var e :- ToIdx(end);
      Ok(Substr(a, b, e))
  }

  /** Resolving the bounds first changes nothing: a range that resolves
      behaves as the half-open `begin..end` it resolves to, and one that does
      not is the overflow panic of `n + 1`. Together with `FromPartsBetween`
      this settles `from_parts` on every range. */
  lemma FromPartsResolved(a: Handle.ArcStr, range: RangeBounds, empty: Handle.ArcStr)
    requires a.ptr.Wf() && Handle.IsEmptyLiteral(empty)
    ensures ResolveStart(range.startBound).Err? || ResolveEnd(range.endBound, Handle.Len(a)).Err? ==>
      FromParts(a, range, empty) == Err(AddOverflow)
    ensures ResolveStart(range.startBound).Ok? && ResolveEnd(range.endBound, Handle.Len(a)).Ok? ==>
      FromParts(a, range, empty) ==
      FromParts(a, Between(ResolveStart(range.startBound).value, ResolveEnd(range.endBound, Handle.Len(a)).value), empty)
  {
  }

  /** `a.substr(b..e)` succeeds exactly on an ordered, in-bounds range on char
      boundaries whose end fits an index (an empty range needs no index), and
      then views exactly `a[b..e]`. */
  lemma FromPartsBetween(a: Handle.ArcStr, b: usize, e: usize, empty: Handle.ArcStr)
    requires a.ptr.Wf() && Handle.IsEmptyLiteral(empty)
    ensures FromParts(a, Between(b, e), empty).Ok? <==>
      b <= e <= Handle.Len(a) &&
      IsCharBoundary(Handle.AsBytes(a), b) && IsCharBoundary(Handle.AsBytes(a), e) &&
      (b == e || e <= U32_MAX)
    ensures FromParts(a, Between(b, e), empty).Ok? ==>
      Content(FromParts(a, Between(b, e), empty).value) == Handle.AsBytes(a)[b..e]
    ensures FromParts(a, Between(b, e), empty).Ok? && b < e ==>
      ByteRange(FromParts(a, Between(b, e), empty).value) == (b, e)
  {
  }

  /** Which panic a failed `a.substr(b..e)` raises: the core library's slice
      checks, in their order, before any index-width check. */
  lemma FromPartsPanics(a: Handle.ArcStr, b: usize, e: usize, empty: Handle.ArcStr)
    requires a.ptr.Wf() && Handle.IsEmptyLiteral(empty)
    ensures e > Handle.Len(a) && b <= Handle.Len(a) ==>
      FromParts(a, Between(b, e), empty) == Err(SliceOutOfBounds(e, Handle.Len(a)))
    ensures e < b <= Handle.Len(a) ==> FromParts(a, Between(b, e), empty) == Err(SliceBeginAfterEnd(b, e))
    ensures b <= U32_MAX < e <= Handle.Len(a) && IsCharBoundary(Handle.AsBytes(a), b) && IsCharBoundary(Handle.AsBytes(a), e) ==>
      FromParts(a, Between(b, e), empty) == Err(IndexTooLarge(e))
  {
  }

  /** `from_parts_unchecked`: no range check at all beyond the index width. */
  function FromPartsUnchecked(a: Handle.ArcStr, start: usize, end: usize): (r: Result<Substr>)
    ensures r.Ok? <==> start <= U32_MAX && end <= U32_MAX
    ensures r.Ok? ==> r.value.parent == a && r.value.start == start && r.value.end == end
  {
    var b :- ToIdxConst(start);
    var e :- ToIdxConst(end);
    Ok(Substr(a, b, e))
  }

  /** Under its safety contract (in bounds, on char boundaries) the unchecked
      constructor builds a valid view of exactly `a[start..end]`, the same
      view `from_parts` builds when the range is not empty. */
  lemma FromPartsUncheckedUnderContract(a: Handle.ArcStr, start: usize, end: usize, empty: Handle.ArcStr)
    requires a.ptr.Wf() && Handle.IsEmptyLiteral(empty)
    requires start <= end <= Handle.Len(a) && end <= U32_MAX
    requires IsCharBoundary(Handle.AsBytes(a), start) && IsCharBoundary(Handle.AsBytes(a), end)
    ensures FromPartsUnchecked(a, start, end).Ok?
    ensures Valid(FromPartsUnchecked(a, start, end).value)
    ensures Content(FromPartsUnchecked(a, start, end).value) == Handle.AsBytes(a)[start..end]
    ensures start < end ==> FromPartsUnchecked(a, start, end) == FromParts(a, Between(start, end), empty)
  {
  }

  /** The unit tests of `from_parts_unchecked`: over "foobar", `2..5` is
      "oba"; `0x1_0000_0000..0x1_0000_0001` panics indexing `DUMMY[1]`. */
  lemma FromPartsUncheckedExamples(a: Handle.ArcStr)
    requires a.ptr.Wf() && Handle.AsBytes(a) == [0x66, 0x6f, 0x6f, 0x62, 0x61, 0x72]
    ensures FromPartsUnchecked(a, 2, 5).Ok? && Valid(FromPartsUnchecked(a, 2, 5).value)
    ensures Content(FromPartsUnchecked(a, 2, 5).value) == [0x6f, 0x62, 0x61]
    ensures FromPartsUnchecked(a, 0x1_0000_0000, 0x1_0000_0001) == Err(ConstIndexOutOfBounds(1))
  {
  }

  // ---------------------------------------------------------------------------
  // Re-slicing a view

  /** `bad_substr_idx`: the first of its three assertions that fails, or the
      `unreachable!` arm when all three hold. */
  function BadSubstrIdx(a: Handle.ArcStr, i: nat, e: nat): (p: Panic)
    requires a.ptr.Wf()
    ensures p.SubstrInternalBug? <==>
      i <= e <= Handle.Len(a) && e <= U32_MAX &&
      IsCharBoundary(Handle.AsBytes(a), i) && IsCharBoundary(Handle.AsBytes(a), e)
    ensures p.SubstrStartAfterEnd? <==> i > e
  {
    var len := if Handle.Len(a) < U32_MAX then Handle.Len(a) else U32_MAX;
    if i > e then SubstrStartAfterEnd(i, e)
    else if e > len then SubstrEndTooLarge(e, len)
    else if !(IsCharBoundary(Handle.AsBytes(a), i) && IsCharBoundary(Handle.AsBytes(a), e)) then SubstrNotCharBoundary(i, e)
    else SubstrInternalBug(i, e, Handle.Len(a))
  }

  /** `Substr::substr`, as written: the range is resolved relative to the
      view and shifted by its start, but the end is checked against the
      view's absolute end `self.2`, not its length. The result therefore lies
      within the parent, on its char boundaries, though not necessarily
      within the view. */
  function Reslice(s: Substr, range: RangeBounds, empty: Handle.ArcStr): (r: Result<Substr>)
    requires Valid(s) && Handle.IsEmptyLiteral(empty)
    ensures r.Ok? ==> Valid(r.value)
    ensures r.Ok? && IsEmpty(r.value) ==> r.value == New(empty)
    ensures r.Ok? && !IsEmpty(r.value) ==> r.value.parent == s.parent && s.start <= r.value.start
  {
    var myEnd := s.end;
    var begin :- ResolveStart(range.startBound);
    var end :- ResolveEnd(range.endBound, Len(s));
    if s.start + begin > USIZE_MAX || s.start + end > USIZE_MAX then Err(AddOverflow)
    else
      var newBegin := s.start + begin;
      var newEnd := s.start + end;
      var bytes := Handle.AsBytes(s.parent);
      if begin > end || end > myEnd || !IsCharBoundary(bytes, newBegin) || !IsCharBoundary(bytes, newEnd) then
        Err(BadSubstrIdx(s.parent, newBegin, newEnd))
      else if newEnd == newBegin then Ok(New(empty))
      else if newEnd > U32_MAX then Err(DebugAssertion)
      else Ok(Substr(s.parent, newBegin, newEnd))
  }

  /** `Substr::substr(c..d)` as written, on every `c` and `d`: it succeeds
      exactly when the shifted ends do not overflow, `c <= d`, the relative
      end is at most the view's absolute end, both shifted ends are char
      boundaries of the parent, and a non-empty result's end fits an index;
      it then views `start + c..start + d` of the parent. */
  lemma ResliceBetweenAsWritten(s: Substr, c: usize, d: usize, empty: Handle.ArcStr)
    requires Valid(s) && Handle.IsEmptyLiteral(empty)
    ensures Reslice(s, Between(c, d), empty).Ok? <==>
      s.start + c <= USIZE_MAX && s.start + d <= USIZE_MAX && c <= d <= s.end &&
      IsCharBoundary(Handle.AsBytes(s.parent), s.start + c) &&
      IsCharBoundary(Handle.AsBytes(s.parent), s.start + d) &&
      (c == d || s.start + d <= U32_MAX)
    ensures s.start + c > USIZE_MAX || s.start + d > USIZE_MAX ==>
      Reslice(s, Between(c, d), empty) == Err(AddOverflow)
    ensures s.start + c <= USIZE_MAX && s.start + d <= USIZE_MAX && c > d ==>
      Reslice(s, Between(c, d), empty) == Err(SubstrStartAfterEnd(s.start + c, s.start + d))
    ensures (s.start + d <= USIZE_MAX && c < d <= s.end && U32_MAX < s.start + d &&
             IsCharBoundary(Handle.AsBytes(s.parent), s.start + c) &&
             IsCharBoundary(Handle.AsBytes(s.parent), s.start + d)) ==>
      Reslice(s, Between(c, d), empty) == Err(DebugAssertion)
    ensures Reslice(s, Between(c, d), empty).Ok? && c < d ==>
      Reslice(s, Between(c, d), empty).value == Substr(s.parent, s.start + c, s.start + d)
    ensures Reslice(s, Between(c, d), empty).Ok? ==>
      Content(Reslice(s, Between(c, d), empty).value) == Handle.AsBytes(s.parent)[s.start + c..s.start + d]
  {
  }

  /** `Substr::substr` as its documentation describes it: the relative end is
      checked against the view's length, and a failed check names the
      relative indices. */
  function ResliceWithinView(s: Substr, range: RangeBounds, empty: Handle.ArcStr): (r: Result<Substr>)
    requires Valid(s) && Handle.IsEmptyLiteral(empty)
    ensures r.Ok? ==> Valid(r.value)
    ensures r.Ok? && IsEmpty(r.value) ==> r.value == New(empty)
    ensures r.Ok? && !IsEmpty(r.value) ==> r.value.parent == s.parent && s.start <= r.value.start <= r.value.end <= s.end
  {
    var begin :- ResolveStart(range.startBound);
    var end :- ResolveEnd(range.endBound, Len(s));
    if begin > end then Err(SubstrStartAfterEnd(begin, end))
    else if end > Len(s) then Err(SubstrEndTooLarge(end, Len(s)))
    else
      var newBegin := s.start + begin;
      var newEnd := s.start + end;
      var bytes := Handle.AsBytes(s.parent);
      if !IsCharBoundary(bytes, newBegin) || !IsCharBoundary(bytes, newEnd) then
        Err(SubstrNotCharBoundary(newBegin, newEnd))
      else if newEnd == newBegin then Ok(New(empty))
      else Ok(Substr(s.parent, newBegin, newEnd))
  }

  /** The documented re-slice accepts exactly the ranges the documentation
      lists, and its content is the matching slice of the view's content. */
  lemma ResliceWithinViewBetween(s: Substr, c: usize, d: usize, empty: Handle.ArcStr)
    requires Valid(s) && Handle.IsEmptyLiteral(empty)
    ensures ResliceWithinView(s, Between(c, d), empty).Ok? <==>
      c <= d <= Len(s) && IsCharBoundary(Content(s), c) && IsCharBoundary(Content(s), d)
    ensures ResliceWithinView(s, Between(c, d), empty).Ok? ==>
      Content(ResliceWithinView(s, Between(c, d), empty).value) == Content(s)[c..d]
  {
    if c <= d <= Len(s) {
      BoundaryInView(s, c);
      BoundaryInView(s, d);
      ContentShift(s, c, d);
    }
  }

  /** Slicing the view's content is slicing the parent, shifted by the start. */
  lemma ContentShift(s: Substr, c: nat, d: nat)
    requires Valid(s) && c <= d <= Len(s)
    ensures Handle.AsBytes(s.parent)[s.start + c..s.start + d] == Content(s)[c..d]
  {
    var bytes := Handle.AsBytes(s.parent);
    forall i | 0 <= i < d - c
      ensures bytes[s.start + c..s.start + d][i] == Content(s)[c..d][i]
    {
      assert Content(s)[c..d][i] == Content(s)[c + i] == bytes[s.start + c + i];
    }
  }

  /** A char boundary of the view's content is a char boundary of the parent
      shifted by the view's start. */
  lemma BoundaryInView(s: Substr, k: nat)
    requires Valid(s) && k <= Len(s)
    ensures IsCharBoundary(Content(s), k) <==> IsCharBoundary(Handle.AsBytes(s.parent), s.start + k)
  {
  }

  /** Whenever the relative end stays within the view, the code as written
      and the documented check accept the same ranges and build the same
      view; unless the start is also past the end, they even panic alike. */
  lemma ResliceAgreesInsideView(s: Substr, range: RangeBounds, empty: Handle.ArcStr)
    requires Valid(s) && Handle.IsEmptyLiteral(empty)
    requires ResolveEnd(range.endBound, Len(s)).Ok? ==> ResolveEnd(range.endBound, Len(s)).value <= Len(s)
    ensures Reslice(s, range, empty).Ok? <==> ResliceWithinView(s, range, empty).Ok?
    ensures Reslice(s, range, empty).Ok? ==> Reslice(s, range, empty) == ResliceWithinView(s, range, empty)
    ensures !(ResolveStart(range.startBound).Ok? && ResolveEnd(range.endBound, Len(s)).Ok? &&
              ResolveStart(range.startBound).value > ResolveEnd(range.endBound, Len(s)).value) ==>
      Reslice(s, range, empty) == ResliceWithinView(s, range, empty)
  {
  }

  /** The discrepancy: over "abcdef", the view "cd" (2..4) re-sliced with
      `1..3` asks for an end past its length 2, which the documentation says
      panics; the code instead returns "de" (3..5), reaching outside the view. */
  lemma ResliceEscapesView(a: Handle.ArcStr, empty: Handle.ArcStr)
    requires a.ptr.Wf() && Handle.IsEmptyLiteral(empty)
    requires Handle.AsBytes(a) == [0x61, 0x62, 0x63, 0x64, 0x65, 0x66]
    ensures Valid(Substr(a, 2, 4)) && Content(Substr(a, 2, 4)) == [0x63, 0x64]
    ensures Reslice(Substr(a, 2, 4), Between(1, 3), empty) == Ok(Substr(a, 3, 5))
    ensures Content(Substr(a, 3, 5)) == [0x64, 0x65]
    ensures ResliceWithinView(Substr(a, 2, 4), Between(1, 3), empty) == Err(SubstrEndTooLarge(3, 2))
  {
  }

  /** The same comparison makes the `unreachable!` arm of `bad_substr_idx`
      reachable: over "abcdef", the view "b" (1..2) re-sliced with `0..3` has
      a relative end 3 past the view's end 2, yet the shifted range `1..4`
      passes all three of its assertions. */
  lemma ResliceReachesUnreachable(a: Handle.ArcStr, empty: Handle.ArcStr)
    requires a.ptr.Wf() && Handle.IsEmptyLiteral(empty)
    requires Handle.AsBytes(a) == [0x61, 0x62, 0x63, 0x64, 0x65, 0x66]
    ensures Valid(Substr(a, 1, 2)) && Content(Substr(a, 1, 2)) == [0x62]
    ensures Reslice(Substr(a, 1, 2), Between(0, 3), empty) == Err(SubstrInternalBug(1, 4, 6))
    ensures ResliceWithinView(Substr(a, 1, 2), Between(0, 3), empty) == Err(SubstrEndTooLarge(3, 1))
  {
  }

  /** Slice composition: `a.substr(b..e).substr(c..d)`, for a range valid in
      the first view, is `a.substr(b + c..b + d)`, whose content is the
      parent's bytes over `b + c..b + d`. */
  lemma SliceComposition(a: Handle.ArcStr, b: usize, e: usize, c: usize, d: usize, empty: Handle.ArcStr)
    requires a.ptr.Wf() && Handle.IsEmptyLiteral(empty)
    requires FromParts(a, Between(b, e), empty).Ok?
    requires c <= d <= e - b
    requires IsCharBoundary(Handle.AsBytes(a), b + c) && IsCharBoundary(Handle.AsBytes(a), b + d)
    ensures b + d <= Handle.Len(a)
    ensures var s := FromParts(a, Between(b, e), empty).value;
      var r := Reslice(s, Between(c, d), empty);
      r == FromParts(a, Between(b + c, b + d), empty) && r.Ok? &&
      Content(r.value) == Handle.AsBytes(a)[b + c..b + d] &&
      Content(r.value) == Content(s)[c..d]
  {
    FromPartsBetween(a, b, e, empty);
    var s := FromParts(a, Between(b, e), empty).value;
    if b < e {
      assert s == Substr(a, b, e);
      ResliceOfRange(a, b, e, c, d, empty);
      FromPartsBetween(a, b + c, b + d, empty);
      ContentShift(s, c, d);
    } else {
      assert c == 0 && d == 0;
      FromPartsBetween(a, b + c, b + d, empty);
    }
  }

  /** One step of `SliceComposition`: re-slicing the view `b..e` of `a`. */
  lemma ResliceOfRange(a: Handle.ArcStr, b: u32, e: u32, c: usize, d: usize, empty: Handle.ArcStr)
    requires Handle.IsEmptyLiteral(empty) && Valid(Substr(a, b, e))
    requires c <= d <= e - b
    requires IsCharBoundary(Handle.AsBytes(a), b + c) && IsCharBoundary(Handle.AsBytes(a), b + d)
    ensures Reslice(Substr(a, b, e), Between(c, d), empty) ==
      if c == d then Ok(New(empty)) else Ok(Substr(a, b + c, b + d))
  {
  }

  // ---------------------------------------------------------------------------
  // Rebuilding a view from a borrowed fragment

  /** The fragment occupies addresses inside the handle's bytes. */
  predicate WithinArcStr(a: Handle.ArcStr, frag: StrRef)
    requires a.ptr.Wf()
  {
    Handle.DataAddr(a) <= frag.ptr && frag.ptr + |frag.bytes| <= Handle.DataAddr(a) + Handle.Len(a)
  }

  /** The fragment occupies addresses inside the view's window of its parent. */
  predicate WithinView(s: Substr, frag: StrRef) {
    Handle.DataAddr(s.parent) + s.start <= frag.ptr && frag.ptr + |frag.bytes| <= Handle.DataAddr(s.parent) + s.end
  }

  /** `ArcStr::try_substr_from`: the empty fragment gives the empty view; a
      fragment outside the handle's bytes gives `None`; otherwise its offset
      from the first byte selects the range. The debug assertion that the
      range slices the handle comes first. */
  function ArcStrTrySubstrFrom(a: Handle.ArcStr, frag: StrRef, empty: Handle.ArcStr): (r: Result<Option<Substr>>)
    requires a.ptr.Wf() && Handle.IsEmptyLiteral(empty)
    requires frag.ptr + |frag.bytes| <= USIZE_MAX
    ensures |frag.bytes| == 0 ==> r == Ok(Some(New(empty)))
    ensures |frag.bytes| > 0 ==> (r == Ok(None) <==> !WithinArcStr(a, frag))
    ensures r.Ok? && r.value.Some? ==> Valid(r.value.value)
    ensures r.Ok? && r.value.Some? && |frag.bytes| > 0 ==>
      r.value.value.parent == a &&
      Handle.DataAddr(a) + r.value.value.start == frag.ptr && Len(r.value.value) == |frag.bytes|
    ensures r.Err? ==> r.error == DebugAssertion || r.error.IndexTooLarge?
  {
    if |frag.bytes| == 0 then Ok(Some(New(empty)))
    else
      var selfStart := Handle.DataAddr(a);
      var selfEnd := selfStart + Handle.Len(a);
      var substrStart := frag.ptr;
      var substrEnd := substrStart + |frag.bytes|;
      if substrStart < selfStart || substrEnd > selfEnd then Ok(None)
      else
        var index := substrStart - selfStart;
        var end := index + |frag.bytes|;
        if SliceError(Handle.AsBytes(a), index, end).Some? then Err(DebugAssertion)
        else
          FromPartsBetween(a, index, end, empty);
          var v :- FromParts(a, Between(index, end), empty);
          Ok(Some(v))
  }

  /** `ArcStr::substr_from`: a fragment outside the handle's bytes is a panic
      (`out_of_range`); otherwise the fragment's window goes straight to
      `from_parts`, with no debug check of its own, so a window that cuts a
      character panics as `from_parts` does. */
  function ArcStrSubstrFrom(a: Handle.ArcStr, frag: StrRef, empty: Handle.ArcStr): (r: Result<Substr>)
    requires a.ptr.Wf() && Handle.IsEmptyLiteral(empty)
    requires frag.ptr + |frag.bytes| <= USIZE_MAX
    ensures r == Err(NotASubstr) <==> |frag.bytes| > 0 && !WithinArcStr(a, frag)
    ensures r.Ok? <==> ArcStrTrySubstrFrom(a, frag, empty).Ok? && ArcStrTrySubstrFrom(a, frag, empty).value.Some?
    ensures r.Ok? ==> ArcStrTrySubstrFrom(a, frag, empty) == Ok(Some(r.value))
    ensures r.Err? && r.error != NotASubstr ==>
      var index := frag.ptr - Handle.DataAddr(a);
      0 <= index &&
      (SliceError(Handle.AsBytes(a), index, index + |frag.bytes|) == Some(r.error) || r.error.IndexTooLarge?)
  {
    if |frag.bytes| == 0 then Ok(New(empty))
    else
      var selfStart := Handle.DataAddr(a);
      var selfEnd := selfStart + Handle.Len(a);
      var substrStart := frag.ptr;
      var substrEnd := substrStart + |frag.bytes|;
      if substrStart < selfStart || substrEnd > selfEnd then Err(NotASubstr)
      else
        var index := substrStart - selfStart;
        var end := index + |frag.bytes|;
        FromParts(a, Between(index, end), empty)
  }

  /** A fragment that really is `a[k..k + n]`, borrowed from the handle's own
      memory, comes back as the view of exactly that range of `a`. */
  lemma ArcStrTrySubstrFromDerived(a: Handle.ArcStr, k: nat, n: nat, empty: Handle.ArcStr)
    requires a.ptr.Wf() && Handle.IsEmptyLiteral(empty)
    requires 0 < n && k + n <= Handle.Len(a) && k + n <= U32_MAX
    requires IsCharBoundary(Handle.AsBytes(a), k) && IsCharBoundary(Handle.AsBytes(a), k + n)
    ensures ArcStrTrySubstrFrom(a, StrRef(Handle.DataAddr(a) + k, Handle.AsBytes(a)[k..k + n]), empty) ==
            Ok(Some(Substr(a, k, k + n)))
    ensures Valid(Substr(a, k, k + n)) && Content(Substr(a, k, k + n)) == Handle.AsBytes(a)[k..k + n]
  {
    FromPartsBetween(a, k, k + n, empty);
  }

  /** `Substr::try_substr_from`: as for the handle, but against the view's
      window, and the range (relative to the view) goes through `substr`. */
  function TrySubstrFrom(s: Substr, frag: StrRef, empty: Handle.ArcStr): (r: Result<Option<Substr>>)
    requires Valid(s) && Handle.IsEmptyLiteral(empty)
    requires frag.ptr + |frag.bytes| <= USIZE_MAX
    ensures |frag.bytes| == 0 ==> r == Ok(Some(New(empty)))
    ensures |frag.bytes| > 0 ==> (r == Ok(None) <==> !WithinView(s, frag))
    ensures r.Ok? && r.value.Some? ==> Valid(r.value.value)
    ensures r.Ok? && r.value.Some? && |frag.bytes| > 0 ==>
      r.value.value.parent == s.parent && s.start <= r.value.value.start <= r.value.value.end <= s.end &&
      Handle.DataAddr(s.parent) + r.value.value.start == frag.ptr && Len(r.value.value) == |frag.bytes|
    ensures r.Err? ==> r.error.SubstrNotCharBoundary?
  {
    if |frag.bytes| == 0 then Ok(Some(New(empty)))
    else
      var parentPtr := Handle.DataAddr(s.parent);
      var selfStart := parentPtr + s.start;
      var selfEnd := parentPtr + s.end;
      var substrStart := frag.ptr;
      var substrEnd := substrStart + |frag.bytes|;
      if substrStart < selfStart || substrEnd > selfEnd then Ok(None)
      else
        var index := substrStart - selfStart;
        var end := index + |frag.bytes|;
        // Here `index <= end <= Len(s)`, where the code's re-slice and the
        // documented one are the same function (ResliceAgreesInsideView).
        var v :- ResliceWithinView(s, Between(index, end), empty);
        Ok(Some(v))
  }

  /** `Substr::substr_from`: `try_substr_from(..).expect(..)`. */
  function SubstrFrom(s: Substr, frag: StrRef, empty: Handle.ArcStr): (r: Result<Substr>)
    requires Valid(s) && Handle.IsEmptyLiteral(empty)
    requires frag.ptr + |frag.bytes| <= USIZE_MAX
    ensures r == Err(NotASubstr) <==> |frag.bytes| > 0 && !WithinView(s, frag)
    ensures r.Ok? ==> TrySubstrFrom(s, frag, empty) == Ok(Some(r.value))
  {
    match TrySubstrFrom(s, frag, empty)
    case Err(p) => Err(p)
    case Ok(None) => Err(NotASubstr)
    case Ok(Some(v)) => Ok(v)
  }

  /** A fragment that really is `Content(s)[k..k + n]`, borrowed from the
      parent's memory, comes back as the view of that range of `s`. */
  lemma TrySubstrFromDerived(s: Substr, k: nat, n: nat, empty: Handle.ArcStr)
    requires Valid(s) && Handle.IsEmptyLiteral(empty)
    requires 0 < n && k + n <= Len(s)
    requires IsCharBoundary(Content(s), k) && IsCharBoundary(Content(s), k + n)
    ensures TrySubstrFrom(s, StrRef(Handle.DataAddr(s.parent) + s.start + k, Content(s)[k..k + n]), empty) ==
            Ok(Some(Substr(s.parent, s.start + k, s.start + k + n)))
    ensures Content(Substr(s.parent, s.start + k, s.start + k + n)) == Content(s)[k..k + n]
  {
    BoundaryInView(s, k);
    BoundaryInView(s, k + n);
    ContentShift(s, k, k + n);
  }

  /** The documented examples: `"abcde".substr(2..)` is "cde"; in
      `"   abc"` the trimmed fragment at offset 3 comes back as range `3..6`
      of the same parent; a fragment elsewhere in memory gives `None`. */
  lemma SubstrExamples(a: Handle.ArcStr, t: Handle.ArcStr, other: nat, empty: Handle.ArcStr)
    requires a.ptr.Wf() && Handle.AsBytes(a) == [0x61, 0x62, 0x63, 0x64, 0x65]
    requires t.ptr.Wf() && Handle.AsBytes(t) == [0x20, 0x20, 0x20, 0x61, 0x62, 0x63]
    requires Handle.IsEmptyLiteral(empty)
    requires other + 3 <= Handle.DataAddr(t) && other + 3 <= USIZE_MAX
    ensures FromParts(a, StartingAt(2), empty).Ok?
    ensures Content(FromParts(a, StartingAt(2), empty).value) == [0x63, 0x64, 0x65]
    ensures ArcStrSubstrFrom(t, StrRef(Handle.DataAddr(t) + 3, [0x61, 0x62, 0x63]), empty) == Ok(Substr(t, 3, 6))
    ensures ByteRange(Substr(t, 3, 6)) == (3, 6) && Content(Substr(t, 3, 6)) == [0x61, 0x62, 0x63]
    ensures ArcStrTrySubstrFrom(t, StrRef(other, [0x61, 0x62, 0x63]), empty) == Ok(None)
  {
    FromPartsBetween(t, 3, 6, empty);
  }

  // ---------------------------------------------------------------------------
  // Equality and ordering

  /** `shallow_eq`: same parent record and the same two indices, hence the
      same content. */
  predicate ShallowEq(x: Substr, y: Substr)
    ensures Valid(x) && Valid(y) && ShallowEq(x, y) ==> Content(x) == Content(y)
  {
    Handle.PtrEq(x.parent, y.parent) && x.start == y.start && x.end == y.end
  }

  /** `PartialEq::eq`: the shallow short-cut never changes the answer, so
      views are equal exactly when their contents are. */
  predicate Eq(x: Substr, y: Substr)
    requires Valid(x) && Valid(y)
    ensures Eq(x, y) <==> Content(x) == Content(y)
  {
    ShallowEq(x, y) || Content(x) == Content(y)
  }

  /** `PartialEq::ne`: the negation of `eq`. */
  predicate Ne(x: Substr, y: Substr)
    requires Valid(x) && Valid(y)
    ensures Ne(x, y) <==> !Eq(x, y)
  {
    !ShallowEq(x, y) && Content(x) != Content(y)
  }

  /** `PartialEq<ArcStr> for Substr` (and, with the arguments swapped,
      `PartialEq<Substr> for ArcStr`): the short-cut is "the whole of the
      same record", and it never changes the answer. */
  predicate EqArcStr(s: Substr, o: Handle.ArcStr)
    requires Valid(s) && o.ptr.Wf()
    ensures EqArcStr(s, o) <==> Content(s) == Handle.AsBytes(o)
  {
    assert Handle.AsBytes(o)[0..Handle.Len(o)] == Handle.AsBytes(o);
    (Handle.PtrEq(s.parent, o) && s.start == 0 && s.end == Handle.Len(o)) || Content(s) == Handle.AsBytes(o)
  }

  /** `PartialEq::ne` between a view and a handle: the negation of `eq`. */
  predicate NeArcStr(s: Substr, o: Handle.ArcStr)
    requires Valid(s) && o.ptr.Wf()
    ensures NeArcStr(s, o) <==> !EqArcStr(s, o)
  {
    (!Handle.PtrEq(s.parent, o) || s.start != 0 || s.end != Handle.Len(o)) && Content(s) != Handle.AsBytes(o)
  }

  /** `Ord::cmp`: the contents only. */
  function Cmp(x: Substr, y: Substr): (r: Ordering)
    requires Valid(x) && Valid(y)
    ensures r == Equal <==> Content(x) == Content(y)
  {
    CmpEqualIff(Content(x), Content(y));
    Text.Cmp(Content(x), Content(y))
  }

  lemma CmpConsistentWithEq(x: Substr, y: Substr)
    requires Valid(x) && Valid(y)
    ensures Cmp(x, y) == Equal <==> Eq(x, y)
    ensures Cmp(y, x) == Cmp(x, y).Reverse()
  {
    CmpEqualIff(Content(x), Content(y));
    CmpAntisymmetric(Content(x), Content(y));
  }

  /** `Hash`: the content's hash, under any hash function of bytes. */
  function Hash(s: Substr, h: seq<bv8> -> int): int
    requires Valid(s)
  {
    h(Content(s))
  }

  /** Equal views hash alike, as `Hash` must agree with `Eq`. */
  lemma HashConsistentWithEq(x: Substr, y: Substr, h: seq<bv8> -> int)
    requires Valid(x) && Valid(y) && Eq(x, y)
    ensures Hash(x, h) == Hash(y, h)
  {
  }

  // ---------------------------------------------------------------------------
  // The parent clone

  /** `ArcStr::substr`: the view of `from_parts`. Once the range has passed
      its checks and is not empty, the parent is cloned before its indices are
      narrowed to `u32`, so a count past `isize::MAX` aborts before any index
      panic. An index panic unwinds and drops the clone again, which restores
      the count; only a returned non-empty view keeps the new reference. A
      range that fails its checks, or an empty one, leaves the parent alone. */
  method SubstrOfArcStr(a: Handle.ArcStr, range: RangeBounds, empty: Handle.ArcStr) returns (r: Result<Substr>)
    requires Handle.Live(a) && Handle.IsEmptyLiteral(empty)
    modifies a.ptr
    ensures Handle.Live(a)
    ensures var c := CheckedRange(a, range);
      if c.Ok? && c.value.0 != c.value.1 && !Handle.IsStatic(a) && old(a.ptr.strong) > ISIZE_MAX then
        a.ptr.strong == old(a.ptr.strong) + 1 && r == Err(RefCountOverflow)
      else
        r == FromParts(a, range, empty) &&
        a.ptr.strong == old(a.ptr.strong) + (if r.Ok? && !IsEmpty(r.value) && !Handle.IsStatic(a) then 1 else 0)
  {
    var checked := CheckedRange(a, range);
    if checked.Err? {
      return Err(checked.error);
    }
    var (begin, end) := checked.value;
    if end == begin {
      return Ok(New(empty));
    }
    var c := Handle.Clone(a);
    if c.Err? {
      return Err(c.error);
    }
    var b := ToIdx(begin);
    if b.Err? {
      // Unwinding drops the clone that was already made.
      var _ := Handle.Drop(c.value);
      return Err(b.error);
    }
    var e := ToIdx(end);
    if e.Err? {
      var _ := Handle.Drop(c.value);
      return Err(e.error);
    }
    r := Ok(Substr(c.value, b.value, e.value));
  }

  /** `#[derive(Clone)]` on `Substr`: clones the parent handle and copies the
      indices, so a clone of a view is `shallow_eq` to it. */
  method CloneView(s: Substr) returns (r: Result<Substr>)
    requires Valid(s) && Handle.Live(s.parent)
    modifies s.parent.ptr
    ensures Handle.Live(s.parent)
    ensures Handle.IsStatic(s.parent) ==> r == Ok(s) && unchanged(s.parent.ptr)
    ensures !Handle.IsStatic(s.parent) ==>
      s.parent.ptr.strong == old(s.parent.ptr.strong) + 1 &&
      r == (if old(s.parent.ptr.strong) > ISIZE_MAX then Err(RefCountOverflow) else Ok(s))
    ensures r.Ok? ==> ShallowEq(r.value, s)
  {
    var c := Handle.Clone(s.parent);
    if c.Err? {
      return Err(c.error);
    }
    return Ok(Substr(c.value, s.start, s.end));
  }

  /** `Substr::substr`: the view of `Reslice`, holding a new strong reference
      to the shared parent when it is not empty. */
  method ResliceRetaining(s: Substr, range: RangeBounds, empty: Handle.ArcStr) returns (r: Result<Substr>)
    requires Valid(s) && Handle.Live(s.parent) && Handle.IsEmptyLiteral(empty)
    modifies s.parent.ptr
    ensures Handle.Live(s.parent)
    ensures var v := Reslice(s, range, empty);
      if v.Ok? && !IsEmpty(v.value) && !Handle.IsStatic(s.parent) then
        s.parent.ptr.strong == old(s.parent.ptr.strong) + 1 &&
        r == (if old(s.parent.ptr.strong) > ISIZE_MAX then Err(RefCountOverflow) else v)
      else
        r == v && unchanged(s.parent.ptr)
  {
    r := Reslice(s, range, empty);
    if r.Ok? && !IsEmpty(r.value) {
      var c := Handle.Clone(s.parent);
      if c.Err? {
        r := Err(c.error);
      }
    }
  }
}
