/** `ArcStr`: an immutable string handle that is one pointer to a record. A heap
    record carries a reference count; a static record (built by `literal!`) has
    a placeholder in the same position that is never used. The header's bit 0
    tells the two apart (src/arc_str.rs; src/lib.rs is an earlier copy). */
module Handle {
  import opened Common
  import opened Text
  import Header

  /** Offset of the bytes in a record: `size_of::<LenFlags>() + size_of::<AtomicUsize>()`. */
  const OFFSET_DATA: nat := 16
  /** `align_of::<ThinInner>()`. */
  const ALIGN: nat := 8

  /** A record: `ThinInner` for the heap, `StaticArcStrInner` for literals. The
      address and the layout size stand for the memory the record occupies;
      `freed` records that the allocation has been handed back. */
  class Inner {
    const lenFlags: Header.LenFlags
    var strong: nat
    const data: seq<bv8>
    const addr: nat
    const origLayoutSize: nat
    var freed: bool

    predicate IsStatic() {
      Header.IsStatic(lenFlags)
    }

    /** What never changes after construction: the header describes the bytes,
        the record is 8-aligned and fits in the address space, and a heap record
        is non-empty and was allocated with `OFFSET_DATA + len` bytes. */
    predicate Wf() {
      Header.Len(lenFlags) == |data| &&
      addr % ALIGN == 0 && addr + OFFSET_DATA + |data| <= USIZE_MAX &&
      (!IsStatic() ==> 0 < |data| && origLayoutSize == OFFSET_DATA + |data|)
    }

    /** The counting protocol: a static record's placeholder stays 0 and it is
        never freed; a heap record is freed exactly when its count is 0. */
    ghost predicate Valid()
      reads this
    {
      Wf() &&
      (IsStatic() ==> strong == 0 && !freed) &&
      (!IsStatic() ==> (freed <==> strong == 0))
    }

    /** The writes `allocate` makes into fresh memory: the header with the
        dynamic bit, a count of 1 and a copy of the bytes. */
    constructor Heap(bytes: seq<bv8>, at: nat)
      requires 0 < |bytes| <= ISIZE_MAX
      requires at % ALIGN == 0 && at + OFFSET_DATA + |bytes| <= USIZE_MAX
      ensures Valid() && !IsStatic() && !freed
      ensures lenFlags == Header.FromLenStaticRaw(|bytes|, false)
      ensures strong == 1 && data == bytes && addr == at
      ensures origLayoutSize == OFFSET_DATA + |bytes|
    {
      Header.RawRoundTrip(|bytes|, false);
      lenFlags := Header.FromLenStaticRaw(|bytes|, false);
      strong := 1;
      data := bytes;
      addr := at;
      origLayoutSize := OFFSET_DATA + |bytes|;
      freed := false;
    }

    /** A static record: a static header, the placeholder `count: 0`, the bytes. */
    constructor Static(lf: Header.LenFlags, text: seq<bv8>, at: nat)
      requires Header.IsStatic(lf) && Header.Len(lf) == |text|
      requires at % ALIGN == 0 && at + OFFSET_DATA + |text| <= USIZE_MAX
      ensures Valid() && IsStatic() && !freed
      ensures lenFlags == lf && strong == 0 && data == text && addr == at
    {
      lenFlags := lf;
      strong := 0;
      data := text;
      addr := at;
      origLayoutSize := OFFSET_DATA + |text|;
      freed := false;
    }
  }

  /** The handle: a single pointer to a record. */
  datatype ArcStr = ArcStr(ptr: Inner)

  /** A handle that some owner still holds: its record is consistent and not freed. */
  ghost predicate Live(a: ArcStr)
    reads a.ptr
  {
    a.ptr.Valid() && !a.ptr.freed
  }

  /** What the constant `EMPTY` points at: a static record of length 0. */
  predicate IsEmptyLiteral(e: ArcStr) {
    e.ptr.Wf() && e.ptr.lenFlags == Header.EMPTY_STATIC && e.ptr.data == []
  }

  /** `as_bytes` / `Deref`: the record's bytes, as many as the header says. */
  function AsBytes(a: ArcStr): (b: seq<bv8>)
    ensures a.ptr.Wf() ==> |b| == Header.Len(a.ptr.lenFlags)
  {
    a.ptr.data
  }

  /** `len`: decoded from the header, never from the bytes. */
  function Len(a: ArcStr): (n: nat)
    requires a.ptr.Wf()
    ensures n == |AsBytes(a)|
    ensures n <= ISIZE_MAX
  {
    Header.Len(a.ptr.lenFlags)
  }

  predicate IsEmpty(a: ArcStr)
    requires a.ptr.Wf()
    ensures IsEmpty(a) <==> AsBytes(a) == []
  {
    Len(a) == 0
  }

  /** `as_ptr`: the address of the first byte. */
  function DataAddr(a: ArcStr): nat {
    a.ptr.addr + OFFSET_DATA
  }

  /** `ArcStr::is_static`: read from the header, which is exactly the encoding
      of the length and this flag. */
  predicate IsStatic(a: ArcStr)
    ensures a.ptr.Wf() ==> a.ptr.lenFlags == Header.FromLenStaticRaw(|AsBytes(a)|, IsStatic(a))
  {
    a.ptr.IsStatic()
  }

  /** `strong_count`: `None` for a static record, whose placeholder is not read. */
  function StrongCount(a: ArcStr): (r: Option<nat>)
    reads a.ptr
    ensures r.None? <==> IsStatic(a)
    ensures r.Some? ==> r.value == a.ptr.strong
  {
    if a.ptr.IsStatic() then None else Some(a.ptr.strong)
  }

  /** `as_static`: the bytes, borrowed for the whole program, only when static. */
  function AsStatic(a: ArcStr): (r: Option<seq<bv8>>)
    ensures r.Some? <==> IsStatic(a)
    ensures r.Some? ==> r.value == AsBytes(a)
  {
    if a.ptr.IsStatic() then Some(AsBytes(a)) else None
  }

  /** `ptr_eq`: the two handles point at the same record, so they are the same
      handle and read the same bytes. */
  predicate PtrEq(a: ArcStr, b: ArcStr)
    ensures PtrEq(a, b) <==> a == b
    ensures PtrEq(a, b) ==> AsBytes(a) == AsBytes(b)
  {
    a.ptr == b.ptr
  }

  /** `new` / `default`: the constant `EMPTY`. */
  function New(empty: ArcStr): (r: ArcStr)
    requires IsEmptyLiteral(empty)
    ensures IsEmptyLiteral(r) && IsStatic(r) && Len(r) == 0 && AsStatic(r) == Some([])
  {
    empty
  }

  /** `into_raw`: the pointer, with the handle forgotten (no count change). */
  function IntoRaw(a: ArcStr): (p: Inner)
    requires a.ptr.Wf()
    ensures p.addr % ALIGN == 0
  {
    a.ptr
  }

  /** `from_raw`: a handle around a pointer that `into_raw` produced, which
      escapes again as that same pointer. */
  function FromRaw(p: Inner): (a: ArcStr)
    ensures p.Wf() ==> a.ptr.Wf() && IntoRaw(a) == p
  {
    ArcStr(p)
  }

  /** Escaping and reclaiming gives back a handle to the same record; neither
      step touches the count, since both are functions of the pointer alone. */
  lemma RawRoundTrip(a: ArcStr)
    requires a.ptr.Wf()
    ensures FromRaw(IntoRaw(a)) == a && PtrEq(FromRaw(IntoRaw(a)), a)
  {
  }

  /** `PartialEq::eq`: pointer identity first, then the bytes. The short-cut
      never changes the answer: equality is content equality. */
  predicate Eq(a: ArcStr, b: ArcStr)
    ensures Eq(a, b) <==> AsBytes(a) == AsBytes(b)
  {
    PtrEq(a, b) || AsBytes(a) == AsBytes(b)
  }

  /** `PartialEq::ne`: the negation of `eq`. */
  predicate Ne(a: ArcStr, b: ArcStr)
    ensures Ne(a, b) <==> !Eq(a, b)
  {
    !PtrEq(a, b) && AsBytes(a) != AsBytes(b)
  }

  /** `Ord::cmp`: the bytes only, never the pointers. */
  function Cmp(a: ArcStr, b: ArcStr): (r: Ordering)
    ensures r == Equal <==> AsBytes(a) == AsBytes(b)
  {
    CmpEqualIff(AsBytes(a), AsBytes(b));
    Text.Cmp(AsBytes(a), AsBytes(b))
  }

  /** Ordering is consistent with equality and is a total order's comparison. */
  lemma CmpConsistentWithEq(a: ArcStr, b: ArcStr)
    ensures Cmp(a, b) == Equal <==> Eq(a, b)
    ensures Cmp(b, a) == Cmp(a, b).Reverse()
  {
    CmpEqualIff(AsBytes(a), AsBytes(b));
    CmpAntisymmetric(AsBytes(a), AsBytes(b));
  }

  /** `Hash`: the content's hash, under any hash function of bytes. */
  function Hash(a: ArcStr, h: seq<bv8> -> int): int {
    h(AsBytes(a))
  }

  lemma HashConsistentWithEq(a: ArcStr, b: ArcStr, h: seq<bv8> -> int)
    requires Eq(a, b)
    ensures Hash(a, h) == Hash(b, h)
  {
  }

  /** `ThinInner::allocate`: refuses a length whose layout computation could
      overflow, otherwise writes a fresh heap record. `at` is the address the
      allocator hands out. */
  method Allocate(bytes: seq<bv8>, at: nat) returns (r: Result<Inner>)
    requires 0 < |bytes| <= ISIZE_MAX
    requires at % ALIGN == 0 && at + OFFSET_DATA + |bytes| <= USIZE_MAX
    ensures r.Err? <==> |bytes| >= ISIZE_MAX - (OFFSET_DATA + ALIGN)
    ensures r.Err? ==> r.error == LayoutOverflow
    ensures r.Ok? ==> fresh(r.value) && r.value.Valid() && !r.value.freed
    ensures r.Ok? ==> !r.value.IsStatic() && r.value.strong == 1
    ensures r.Ok? ==> Header.Len(r.value.lenFlags) == |bytes| && r.value.data == bytes
  {
    if |bytes| >= ISIZE_MAX - (OFFSET_DATA + ALIGN) {
      return Err(LayoutOverflow);
    }
    var p := new Inner.Heap(bytes, at);
    return Ok(p);
  }

  /** `ThinInner::destroy_cold`: only for a heap record whose count reached 0;
      recomputes the layout from the header and frees the record. The layout
      it hands back is the one the record was allocated with. */
  method DestroyCold(p: Inner) returns (layoutSize: nat)
    requires p.Wf() && !p.IsStatic() && p.strong == 0 && !p.freed
    modifies p
    ensures p.Valid() && p.freed && p.strong == 0
    ensures layoutSize == p.origLayoutSize
  {
    layoutSize := Header.Len(p.lenFlags) + OFFSET_DATA;
    p.freed := true;
  }

  /** `Clone::clone`: a static record is not touched; a heap record's count
      goes up by one, and a previous count past `isize::MAX` aborts. */
  method Clone(a: ArcStr) returns (r: Result<ArcStr>)
    requires Live(a)
    modifies a.ptr
    ensures Live(a)
    ensures IsStatic(a) ==> r == Ok(a) && unchanged(a.ptr)
    ensures !IsStatic(a) ==> a.ptr.strong == old(a.ptr.strong) + 1
    ensures !IsStatic(a) ==> r == if old(a.ptr.strong) > ISIZE_MAX then Err(RefCountOverflow) else Ok(a)
  {
    var p := a.ptr;
    if !p.IsStatic() {
      var n := p.strong;
      p.strong := n + 1;
      if n > ISIZE_MAX {
        return Err(RefCountOverflow);
      }
    }
    return Ok(a);
  }

  /** `Drop::drop`: a static record is not touched; a heap record's count goes
      down by one and the record is destroyed exactly when it was 1. */
  method Drop(a: ArcStr) returns (destroyed: bool)
    requires Live(a)
    modifies a.ptr
    ensures a.ptr.Valid()
    ensures IsStatic(a) ==> !destroyed && unchanged(a.ptr)
    ensures !IsStatic(a) ==> a.ptr.strong == old(a.ptr.strong) - 1
    ensures !IsStatic(a) ==> destroyed == (old(a.ptr.strong) == 1) && a.ptr.freed == destroyed
  {
    var p := a.ptr;
    if p.IsStatic() {
      return false;
    }
    var prev := p.strong;
    p.strong := prev - 1;
    destroyed := prev == 1;
    if destroyed {
      var _ := DestroyCold(p);
    }
  }

  /** `From<&str>`: the empty string is `EMPTY`; anything else is a fresh heap
      record holding a copy of the bytes with a count of 1. */
  method FromStr(s: seq<bv8>, empty: ArcStr, at: nat) returns (r: Result<ArcStr>)
    requires IsEmptyLiteral(empty)
    requires |s| <= ISIZE_MAX
    requires at % ALIGN == 0 && at + OFFSET_DATA + |s| <= USIZE_MAX
    ensures |s| == 0 ==> r == Ok(New(empty))
    ensures |s| > 0 ==> (r.Err? <==> |s| >= ISIZE_MAX - (OFFSET_DATA + ALIGN))
    ensures r.Err? ==> r.error == LayoutOverflow
    ensures r.Ok? ==> r.value.ptr.Wf() && AsBytes(r.value) == s
    ensures r.Ok? && |s| > 0 ==> fresh(r.value.ptr) && Live(r.value)
    ensures r.Ok? && |s| > 0 ==> !IsStatic(r.value) && StrongCount(r.value) == Some(1)
  {
    if |s| == 0 {
      return Ok(New(empty));
    }
    var p :- Allocate(s, at);
    return Ok(ArcStr(p));
  }

  /** lib.rs's `EMPTY_INNER` and `EMPTY`: a static record with the header
      `EMPTY_STATIC`, the placeholder 0 and no bytes. */
  method MakeEmpty(at: nat) returns (e: ArcStr)
    requires at % ALIGN == 0 && at + OFFSET_DATA <= USIZE_MAX
    ensures fresh(e.ptr) && IsEmptyLiteral(e) && Live(e)
    ensures IsStatic(e) && e.ptr.strong == 0 && StrongCount(e) == None
  {
    Header.EmptyStaticDecodes();
    var inner := new Inner.Static(Header.EMPTY_STATIC, [], at);
    e := ArcStr(inner);
  }

  /** From the tests: "foobar" has count 1, and after a clone both the
      original and the clone report 2. The model goes one step further than
      the test: dropping the clone brings the original back to 1. */
  method CountScenario(empty: ArcStr, at: nat)
    returns (one: Option<nat>, twoOrig: Option<nat>, twoClone: Option<nat>, back: Option<nat>)
    requires IsEmptyLiteral(empty)
    requires at % ALIGN == 0 && at + OFFSET_DATA + 6 <= USIZE_MAX
    ensures one == Some(1)
    ensures twoOrig == Some(2) && twoClone == Some(2)
    ensures back == Some(1)
  {
    var foobar: seq<bv8> := [0x66, 0x6f, 0x6f, 0x62, 0x61, 0x72];
    var r := FromStr(foobar, empty, at);
    var a := r.value;
    one := StrongCount(a);
    var c := Clone(a);
    var b := c.value;
    twoOrig := StrongCount(a);
    twoClone := StrongCount(b);
    var destroyed := Drop(b);
    back := StrongCount(a);
  }

  /** N clones of a handle followed by N + 1 drops: a heap record is freed once,
      on the last drop and not before; a static record is never touched. */
  method CloneThenDropAll(a: ArcStr, n: nat) returns (frees: nat)
    requires Live(a) && (!IsStatic(a) ==> a.ptr.strong == 1) && n <= ISIZE_MAX
    modifies a.ptr
    ensures IsStatic(a) ==> unchanged(a.ptr) && frees == 0
    ensures !IsStatic(a) ==> a.ptr.freed && a.ptr.strong == 0 && frees == 1
  {
    var handles := [a];
    var i := 0;
    while i < n
      invariant 0 <= i <= n
      invariant |handles| == i + 1 && forall k :: 0 <= k < |handles| ==> handles[k] == a
      invariant Live(a)
      invariant IsStatic(a) ==> unchanged(a.ptr)
      invariant !IsStatic(a) ==> a.ptr.strong == i + 1
    {
      var c := Clone(a);
      handles := handles + [c.value];
      i := i + 1;
    }
    frees := 0;
    while |handles| > 0
      invariant forall k :: 0 <= k < |handles| ==> handles[k] == a
      invariant a.ptr.Valid()
      invariant IsStatic(a) ==> unchanged(a.ptr) && frees == 0
      invariant !IsStatic(a) ==> a.ptr.strong == |handles|
      invariant !IsStatic(a) ==> frees == if |handles| == 0 then 1 else 0
      decreases |handles|
    {
      var destroyed := Drop(handles[0]);
      if destroyed {
        frees := frees + 1;
      }
      handles := handles[1..];
    }
  }
}
