/** The macros that build records at compile time: `literal!` writes a static
    record, `literal_substr!` wraps one in a whole-range view, and `format!`
    without arguments converts a literal (src/mac.rs). */
module Macros {
  import opened Common
  import Header
  import Handle
  import View

  /** The header `literal!` writes: `len << 1`, bit 0 clear. */
  function LiteralHeader(text: seq<bv8>): (lf: Header.LenFlags)
    requires |text| <= ISIZE_MAX
    ensures Header.Len(lf) == |text| && Header.IsStatic(lf)
  {
    Header.LenFlags(Header.Shl1(|text|))
  }

  /** The literal header is the codec's static encoding, and the empty
      literal's header is `EMPTY_STATIC`, the header of `EMPTY`. */
  lemma LiteralHeaderIsStaticEncoding(text: seq<bv8>)
    requires |text| <= ISIZE_MAX
    ensures LiteralHeader(text) == Header.FromLenStaticRaw(|text|, true)
    ensures text == [] ==> LiteralHeader(text) == Header.EMPTY_STATIC
  {
  }

  /** `literal!(text)`: a static record `{ len_flags: len << 1, count: 0,
      data: text }` at the address the compiler places it, and a handle to it.
      Nothing is counted, so the placeholder stays 0. */
  method Literal(text: seq<bv8>, at: nat) returns (a: Handle.ArcStr)
    requires |text| <= ISIZE_MAX
    requires at % Handle.ALIGN == 0 && at + Handle.OFFSET_DATA + |text| <= USIZE_MAX
    ensures fresh(a.ptr) && Handle.Live(a)
    ensures Handle.IsStatic(a) && a.ptr.strong == 0
    ensures Handle.AsBytes(a) == text && Handle.Len(a) == |text|
    ensures Handle.StrongCount(a) == None && Handle.AsStatic(a) == Some(text)
  {
    var inner := new Handle.Inner.Static(LiteralHeader(text), text, at);
    a := Handle.ArcStr(inner);
  }

  /** `literal_substr!(text)`: `from_parts_unchecked(literal!(text), 0..len)`,
      a compile-time panic when the length does not fit an index. */
  method LiteralSubstr(text: seq<bv8>, at: nat) returns (r: Result<View.Substr>)
    requires |text| <= ISIZE_MAX
    requires at % Handle.ALIGN == 0 && at + Handle.OFFSET_DATA + |text| <= USIZE_MAX
    ensures r.Ok? <==> |text| <= U32_MAX
    ensures r.Ok? ==> fresh(r.value.parent.ptr) && Handle.Live(r.value.parent) && Handle.IsStatic(r.value.parent)
    ensures r.Ok? ==> View.Valid(r.value) && View.Content(r.value) == text
    ensures r.Ok? ==> View.ByteRange(r.value) == (0, |text|)
  {
    var parent := Literal(text, at);
    r := View.FromPartsUnchecked(parent, 0, |text|);
  }

  /** `format!(text)` with no arguments: `ArcStr::from(literal!(text))`, and
      `From<ArcStr> for ArcStr` is the identity, so the result is the literal. */
  method FormatNoArgs(text: seq<bv8>, at: nat) returns (a: Handle.ArcStr)
    requires |text| <= ISIZE_MAX
    requires at % Handle.ALIGN == 0 && at + Handle.OFFSET_DATA + |text| <= USIZE_MAX
    ensures fresh(a.ptr) && Handle.Live(a) && Handle.IsStatic(a)
    ensures Handle.AsBytes(a) == text
  {
    a := Literal(text, at);
  }

  /** From the tests: a literal reports no count and borrows its text for the
      whole program; its clones are static, point at the same record and
      leave it untouched, and dropping them never frees it. */
  method LiteralScenario(text: seq<bv8>, at: nat)
    returns (count: Option<nat>, asStatic: Option<seq<bv8>>, sameRecord: bool, cloneIsStatic: bool, freedByDrop: bool)
    requires |text| <= ISIZE_MAX
    requires at % Handle.ALIGN == 0 && at + Handle.OFFSET_DATA + |text| <= USIZE_MAX
    ensures count == None && asStatic == Some(text)
    ensures sameRecord && cloneIsStatic && !freedByDrop
  {
    var a := Literal(text, at);
    count := Handle.StrongCount(a);
    asStatic := Handle.AsStatic(a);
    var c := Handle.Clone(a);
    var b := c.value;
    sameRecord := Handle.PtrEq(a, b);
    cloneIsStatic := Handle.IsStatic(b) && Handle.StrongCount(b) == None;
    freedByDrop := Handle.Drop(b);
    assert Handle.Live(a);
    var again := Handle.Drop(a);
    freedByDrop := freedByDrop || again || a.ptr.freed;
  }
}
