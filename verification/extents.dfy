/** Byte ranges of flash, and a reference description of a layout in which
    regions are stacked downward from the top of the ROM, each one directly
    below the previous one.
 */
module Extents {

  /** The half-open byte range `[start, start + size)`. */
  datatype Extent = Extent(start: int, size: nat) {
    function End(): int { start + size }
  }

  /** `a` lies wholly below `b`. */
  predicate Below(a: Extent, b: Extent)
  {
    a.End() <= b.start
  }

  predicate Disjoint(a: Extent, b: Extent)
  {
    Below(a, b) || Below(b, a)
  }

  function Sum(sizes: seq<nat>): nat
  {
    if |sizes| == 0 then 0 else sizes[0] + Sum(sizes[1..])
  }

  /** Extents of the given sizes placed top-down: the first ends at `top`, and
      each following one ends where the previous one starts. */
  function StackDown(top: int, sizes: seq<nat>): (r: seq<Extent>)
    ensures |r| == |sizes|
    ensures forall i :: 0 <= i < |r| ==> r[i].size == sizes[i]
    ensures |r| > 0 ==> r[0].End() == top
    ensures forall i :: 1 <= i < |r| ==> r[i].End() == r[i - 1].start
    decreases |sizes|
  {
    if |sizes| == 0 then []
    else [Extent(top - sizes[0], sizes[0])] + StackDown(top - sizes[0], sizes[1..])
  }

  /** In a stack, every later extent lies wholly below every earlier one. */
  lemma {:induction false} StackDownDescending(top: int, sizes: seq<nat>, i: int, j: int)
    requires 0 <= i < j < |sizes|
    ensures Below(StackDown(top, sizes)[j], StackDown(top, sizes)[i])
    decreases j - i
  {
    var r := StackDown(top, sizes);
    if j > i + 1 {
      StackDownDescending(top, sizes, i + 1, j);
      assert r[i + 1].End() == r[i].start;
    }
  }

  /** A stack occupies exactly the `Sum(sizes)` bytes below `top`. */
  lemma {:induction false} StackDownSpan(top: int, sizes: seq<nat>, i: int)
    requires 0 <= i < |sizes|
    ensures top - Sum(sizes) <= StackDown(top, sizes)[i].start
    ensures StackDown(top, sizes)[i].End() <= top
    ensures i == |sizes| - 1 ==> StackDown(top, sizes)[i].start == top - Sum(sizes)
    decreases i
  {
    var r := StackDown(top, sizes);
    var rest := StackDown(top - sizes[0], sizes[1..]);
    assert r == [Extent(top - sizes[0], sizes[0])] + rest;
    if i > 0 {
      StackDownSpan(top - sizes[0], sizes[1..], i - 1);
      assert r[i] == rest[i - 1];
    } else if |sizes| == 1 {
      assert sizes[1..] == [];
    }
  }
}
