/**
 The shape description every storage object carries: per-dimension extents
 and per-dimension strides (counted in elements). The layout class itself
 (layout.hpp) is not part of this model; the functions here give it the
 meaning the storage code relies on: `setSize` replaces the extents and
 derives packed strides, `getSize` is the number of elements, and
 `getOffset` is the sum of index times stride.
 */
module Layouts {

  datatype Layout = Layout(size: seq<nat>, stride: seq<nat>)

  /** A layout of a `Layout<Type, Dim>`: exactly `dim` extents and strides. */
  predicate HasDim(l: Layout, dim: nat) {
    |l.size| == dim && |l.stride| == dim
  }

  /** Total number of elements: the product of the extents (`getSize`). It is zero exactly when some extent is. */
  function Count(size: seq<nat>): (r: nat)
    ensures r == 0 <==> exists d :: 0 <= d < |size| && size[d] == 0
  {
    if |size| == 0 then 1
    else
      var lower := size[..|size| - 1];
      assert forall d :: 0 <= d < |lower| ==> lower[d] == size[d];
      Count(lower) * size[|size| - 1]
  }

  /** Packed strides: dimension `i` advances by the element count of all lower dimensions. */
  function Strides(size: seq<nat>): (r: seq<nat>)
    ensures |r| == |size|
    ensures forall i :: 0 <= i < |size| ==> r[i] == Count(size[..i])
  {
    if |size| == 0 then []
    else
      var lower := size[..|size| - 1];
      var r := Strides(lower) + [Count(lower)];
      assert forall i :: 0 <= i < |lower| ==> size[..i] == lower[..i];
      assert size[..|size| - 1] == lower;
      r
  }

  /** The layout `Layout(size)` / `setSize(size)` installs: these extents and their packed strides, the first of which is 1. */
  function FromSize(size: seq<nat>): (l: Layout)
    ensures l.size == size && |l.stride| == |size|
    ensures |size| > 0 ==> l.stride[0] == 1
  {
    Layout(size, Strides(size))
  }

  /** Element offset of a multi-index: the sum of `idx[i] * stride[i]` (`getOffset`). The origin is offset 0. */
  function Offset(idx: seq<nat>, stride: seq<nat>): (r: nat)
    requires |idx| == |stride|
    ensures (forall d :: 0 <= d < |idx| ==> idx[d] == 0) ==> r == 0
  {
    if |idx| == 0 then 0
    else Offset(idx[..|idx| - 1], stride[..|stride| - 1]) + idx[|idx| - 1] * stride[|stride| - 1]
  }

  /** Every index lies below its extent. */
  predicate InExtents(idx: seq<nat>, size: seq<nat>)
    requires |idx| == |size|
  {
    forall d :: 0 <= d < |idx| ==> idx[d] < size[d]
  }

  /**
   Packed strides satisfy `stride[i] == stride[i - 1] * size[i - 1]` for
   every dimension after the first.
   */
  lemma {:induction false} PackedStrideRecurrence(size: seq<nat>, i: nat)
    requires 0 < i < |size|
    ensures Strides(size)[i] == Strides(size)[i - 1] * size[i - 1]
  {
    assert size[..i][..i - 1] == size[..i - 1];
  }

  /** Advancing a multi-index by one in dimension `d` advances `getOffset` by that dimension's stride. */
  lemma {:induction false} OffsetStep(idx: seq<nat>, stride: seq<nat>, d: nat)
    requires |idx| == |stride| && d < |idx|
    ensures Offset(idx[d := idx[d] + 1], stride) == Offset(idx, stride) + stride[d]
  {
    var n := |idx|;
    var next := idx[d := idx[d] + 1];
    if d == n - 1 {
      assert next[..n - 1] == idx[..n - 1];
      assert (idx[d] + 1) * stride[d] == idx[d] * stride[d] + stride[d];
    } else {
      assert next[..n - 1] == idx[..n - 1][d := idx[d] + 1];
      OffsetStep(idx[..n - 1], stride[..n - 1], d);
    }
  }

  lemma MulBelow(c: nat, x: nat, s: nat, o: nat)
    requires o < c && x < s
    ensures o + x * c < s * c
  {
    assert x * c <= (s - 1) * c by {
      assert (s - 1) * c - x * c == (s - 1 - x) * c;
    }
    assert (s - 1) * c + c == s * c;
  }

  /**
   For a packed layout, a multi-index within the extents lands on an offset
   below the element count, so `operator[](Size)` stays inside a buffer of
   `getSize()` elements.
   */
  lemma {:induction false} OffsetInBounds(size: seq<nat>, idx: seq<nat>)
    requires |idx| == |size|
    requires InExtents(idx, size)
    ensures Offset(idx, Strides(size)) < Count(size)
  {
    var n := |size|;
    if n > 0 {
      var lower := size[..n - 1];
      var st := Strides(size);
      assert st == Strides(lower) + [Count(lower)];
      assert st[..n - 1] == Strides(lower);
      assert InExtents(idx[..n - 1], lower);
      OffsetInBounds(lower, idx[..n - 1]);
      MulBelow(Count(lower), idx[n - 1], size[n - 1], Offset(idx[..n - 1], Strides(lower)));
    }
  }
}
