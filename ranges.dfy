/** Half-open grid ranges and the clipping arithmetic used to paste a patch
    into a grid at a possibly negative or overhanging offset. */
module Ranges {

  /** A half-open range `start..end` of grid positions (Rust `Range<usize>`). */
  datatype Interval = Interval(start: nat, end: nat) {
    predicate IsEmpty() { !(start < end) }
    predicate Contains(k: int) { start <= k < end }
  }

  /** A half-open range of signed positions (Rust `Range<isize>`). */
  datatype Span = Span(start: int, end: int) {
    predicate IsEmpty() { !(start < end) }
    predicate Contains(k: int) { start <= k < end }
  }

  /** A rectangle of grid cells: a row range and a column range. */
  datatype Range2 = Range2(rows: Interval, cols: Interval) {
    predicate Contains(row: int, col: int) { rows.Contains(row) && cols.Contains(col) }

    predicate Overlaps(other: Range2) {
      rows.start < other.rows.end && rows.end > other.rows.start
      && cols.start < other.cols.end && cols.end > other.cols.start
    }

    predicate IsEmpty() { rows.IsEmpty() || cols.IsEmpty() }
  }

  /** `Range2::default()`: the empty rectangle 0..0 x 0..0. */
  const EmptyRange2 := Range2(Interval(0, 0), Interval(0, 0))

  /** Every cell of `inner` is a cell of `outer`, stated on the bounds. */
  predicate Within(inner: Range2, outer: Range2) {
    inner.IsEmpty()
    || (outer.rows.start <= inner.rows.start && inner.rows.end <= outer.rows.end
        && outer.cols.start <= inner.cols.start && inner.cols.end <= outer.cols.end)
  }

  /** Two non-empty rectangles overlap exactly when some cell lies in both.
      (For an empty rectangle the bounds test can still hold: 0..10 "overlaps"
      the empty 5..3.) */
  lemma OverlapsIffSharedCell(a: Range2, b: Range2)
    requires !a.IsEmpty() && !b.IsEmpty()
    ensures a.Overlaps(b) <==> exists r, c :: a.Contains(r, c) && b.Contains(r, c)
  {
    if a.Overlaps(b) {
      var r := if a.rows.start < b.rows.start then b.rows.start else a.rows.start;
      var c := if a.cols.start < b.cols.start then b.cols.start else a.cols.start;
      assert a.Contains(r, c) && b.Contains(r, c);
    }
  }

  /** Overlap is symmetric. */
  lemma OverlapsSymmetric(a: Range2, b: Range2)
    ensures a.Overlaps(b) == b.Overlaps(a)
  {
  }

  /** An empty rectangle can still pass the bounds test of `overlaps`. */
  lemma EmptyRangeCanOverlap()
    ensures var a := Range2(Interval(0, 10), Interval(0, 10));
      var b := Range2(Interval(5, 3), Interval(2, 4));
      b.IsEmpty() && a.Overlaps(b)
  {
  }

  /** A rectangle is empty exactly when it contains no cell. */
  lemma IsEmptyIffNoCell(a: Range2)
    ensures a.IsEmpty() <==> forall r, c :: !a.Contains(r, c)
  {
    if !a.IsEmpty() {
      assert a.Contains(a.rows.start, a.cols.start);
    }
  }

  /** `Within` is containment of the cell sets. */
  lemma WithinIffCellsContained(inner: Range2, outer: Range2)
    ensures Within(inner, outer) <==> forall r, c :: inner.Contains(r, c) ==> outer.Contains(r, c)
  {
    if !Within(inner, outer) {
      assert inner.Contains(inner.rows.start, inner.cols.start);
      assert inner.Contains(inner.rows.end - 1, inner.cols.end - 1);
    }
  }

  /** `Range2::expand_to`: grow the rectangle to the smallest one that also
      holds (row, col); an empty rectangle becomes the single cell. */
  method ExpandTo(r: Range2, row: nat, col: nat) returns (e: Range2)
    ensures !e.IsEmpty() && e.Contains(row, col)
    ensures Within(r, e)
    ensures forall b: Range2 :: b.Contains(row, col) && Within(r, b) ==> Within(e, b)
    ensures r.IsEmpty() ==> e == Range2(Interval(row, row + 1), Interval(col, col + 1))
  {
    e := r;
    if e.IsEmpty() {
      e := e.(rows := Interval(row, row + 1));
      e := e.(cols := Interval(col, col + 1));
    } else {
      e := e.(rows := e.rows.(start := Min(e.rows.start, row)));
      e := e.(rows := e.rows.(end := Max(e.rows.end, row + 1)));
      e := e.(cols := e.cols.(start := Min(e.cols.start, col)));
      e := e.(cols := e.cols.(end := Max(e.cols.end, col + 1)));
    }
  }

  function Min(a: nat, b: nat): nat { if a < b then a else b }
  function Max(a: nat, b: nat): nat { if a < b then b else a }

  /** `restrict_ranges`: clip `to` into 0..limit, moving `from` by the same
      amount at each end; if either becomes empty, both become 0..0. */
  method RestrictRanges(from: Span, to: Span, limit: int) returns (from': Span, to': Span)
    ensures var cleared := from' == Span(0, 0) && to' == Span(0, 0);
      !cleared ==>
        // to' is to intersected with 0..limit, and neither result is empty
        && to'.start == (if to.start < 0 then 0 else to.start)
        && to'.end == (if to.end > limit then limit else to.end)
        && !from'.IsEmpty() && !to'.IsEmpty()
        // both ends of from move by the same amount as those of to
        && from'.start - to'.start == from.start - to.start
        && from'.end - to'.end == from.end - to.end
    ensures var lo := if to.start < 0 then -to.start else 0;
      var hi := if to.end > limit then to.end - limit else 0;
      (Span(from.start + lo, from.end - hi).IsEmpty() || Span(to.start + lo, to.end - hi).IsEmpty())
      <==> (from' == Span(0, 0) && to' == Span(0, 0))
  {
    from', to' := from, to;
    if to'.start < 0 {
      var excess := -to'.start;
      from' := from'.(start := from'.start + excess);
      to' := to'.(start := to'.start + excess);
    }
    if to'.end > limit {
      var excess := to'.end - limit;
      from' := from'.(end := from'.end - excess);
      to' := to'.(end := to'.end - excess);
    }
    if from'.IsEmpty() || to'.IsEmpty() {
      from' := Span(0, 0);
      to' := Span(0, 0);
    }
  }

  /** The three cases of the unit test of `restrict_ranges`. */
  method RestrictRangesExamples() {
    var f, t := RestrictRanges(Span(0, 10), Span(0, 10), 10);
    assert (f, t) == (Span(0, 10), Span(0, 10));
    f, t := RestrictRanges(Span(0, 10), Span(-5, 5), 10);
    assert (f, t) == (Span(5, 10), Span(0, 5));
    f, t := RestrictRanges(Span(0, 10), Span(5, 15), 10);
    assert (f, t) == (Span(0, 5), Span(5, 10));
  }

  /** The destination positions covered by `srcWidth` cells placed at
      `offset` in a destination of `destWidth` cells: the intersection of
      offset..offset+srcWidth with 0..destWidth, or 0..0 when that is empty. */
  function Clip(srcWidth: nat, offset: int, destWidth: nat): (r: Interval)
    ensures forall k :: r.Contains(k) <==> 0 <= k < destWidth && offset <= k < offset + srcWidth
    ensures r.IsEmpty() ==> r == Interval(0, 0)
  {
    var lo := if offset < 0 then 0 else offset;
    var hi := if offset + srcWidth > destWidth then destWidth else offset + srcWidth;
    if lo < hi then Interval(lo, hi) else Interval(0, 0)
  }

  /** `get_copyable_range`: the source positions `from` of a row (or column)
      of `srcWidth` cells placed at `offset` that land in a destination of
      `destWidth` cells, and the positions `to` they land on. */
  method GetCopyableRange(srcWidth: nat, offset: int, destWidth: nat) returns (from: Interval, to: Interval)
    ensures from.end <= srcWidth && to.end <= destWidth
    ensures to.end - to.start == from.end - from.start
    ensures from.IsEmpty() <==> to.IsEmpty()
    ensures !to.IsEmpty() ==> to.start == from.start + offset
    ensures to.IsEmpty() ==> from == Interval(0, 0) && to == Interval(0, 0)
    // to is exactly the destination positions the placed source covers
    ensures to == Clip(srcWidth, offset, destWidth)
  {
    var fromS, toS := RestrictRanges(Span(0, srcWidth), Span(offset, offset + srcWidth), destWidth);
    from := Interval(fromS.start, fromS.end);
    to := Interval(toS.start, toS.end);
  }
}
