/** Mapping a click's pixel offset inside the grid to the rectangle of cells
    the brush covers (src/App.js, handleGridClick, the arithmetic before the loops). */
module Geometry {

  /** Side of one bubble button, in pixels. */
  const ButtonSize: int := 50

  /** Distance between the left (or top) edges of neighbouring cells: a button plus its 15-pixel gap. */
  const Pitch: int := ButtonSize + 15

  function Max(a: int, b: int): int { if a < b then b else a }

  function Min(a: int, b: int): int { if a < b then a else b }

  function MinReal(a: real, b: real): real { if a < b then a else b }

  /** The cell index, along one axis, under a pixel offset from the grid's edge:
      `Math.floor(offset / pitch)`. Negative offsets give negative cells. */
  function CellOf(offset: real): (k: int)
    ensures (k as real) * (Pitch as real) <= offset < (k as real + 1.0) * (Pitch as real)
  {
    (offset / Pitch as real).Floor
  }

  /** The least integer not below `v`. */
  function Ceil(v: real): (k: int)
    ensures v <= k as real < v + 1.0
  {
    -((-v).Floor)
  }

  /** The value of `i` at which the loop `for (i = start; i < end; i++)` stops,
      `end` being a real bound as in the source: the first integer from `start`
      on that is not below `end`. */
  function LoopStop(start: int, end: real): (stop: int)
    ensures start <= stop
    ensures end <= stop as real
    ensures start < stop ==> ((stop - 1) as real) < end
  {
    if end <= start as real then start else Ceil(end)
  }

  /** The half-open cell range `[startRow, endRow) x [startCol, endCol)` of one
      click; the end bounds stay real because the brush size may be fractional. */
  datatype Rect = Rect(startRow: int, endRow: real, startCol: int, endCol: real)

  /** The rectangle lies inside a `rows` by `cols` grid. */
  predicate Within(rc: Rect, rows: int, cols: int)
  {
    0 <= rc.startRow && rc.endRow <= rows as real &&
    0 <= rc.startCol && rc.endCol <= cols as real
  }

  /** Cell (r, c) is visited by the click's two nested loops over `rc`. */
  predicate Covers(rc: Rect, r: int, c: int)
  {
    rc.startRow <= r && (r as real) < rc.endRow &&
    rc.startCol <= c && (c as real) < rc.endCol
  }

  /** The first cell of the brush along one axis: the clicked cell, clamped at the grid's top or left edge. */
  function Anchor(offset: real): (a: int)
    ensures 0 <= a
    ensures offset >= 0.0 ==> a == CellOf(offset)
    ensures offset < 0.0 ==> a == 0
  {
    Max(0, CellOf(offset))
  }

  /** The range of a click at pixel offset (x, y) with brush size `size` on a
      `rows` by `cols` grid; it always lies inside the grid. */
  function ClickRect(x: real, y: real, size: real, rows: int, cols: int): (rc: Rect)
    requires 1 <= rows && 1 <= cols
    ensures Within(rc, rows, cols)
  {
    var startRow := Anchor(y);
    var startCol := Anchor(x);
    Rect(startRow, MinReal(rows as real, startRow as real + size),
         startCol, MinReal(cols as real, startCol as real + size))
  }

  /** Along one axis, cell `i` is reached by the loop from `start` to
      `min(limit, start + size)` exactly when it lies in the grid and fewer than
      `Ceil(size)` cells after `start`: a fractional brush rounds UP. */
  lemma AxisCovers(start: int, limit: int, size: real, i: int)
    ensures (start <= i && (i as real) < MinReal(limit as real, start as real + size))
        <==> (start <= i < limit && i - start < Ceil(size))
  {
    var k := Ceil(size);
    if i - start < k {
      assert ((i - start) as real) <= (k - 1) as real;
      assert ((i - start) as real) < size;
    }
  }

  /** The number of cells the loop reaches along one axis: from `start` up to
      `min(limit, start + Ceil(size))`, and none when `start` is already past the edge. */
  lemma AxisExtent(start: int, limit: int, size: real)
    ensures LoopStop(start, MinReal(limit as real, start as real + size))
         == Max(start, Min(limit, start + Ceil(size)))
  {
    var end := MinReal(limit as real, start as real + size);
    var stop := LoopStop(start, end);
    var want := Max(start, Min(limit, start + Ceil(size)));
    if stop < want {
      AxisCovers(start, limit, size, stop);
    } else if want < stop {
      AxisCovers(start, limit, size, stop - 1);
    }
  }

  /** The cells a click covers: those of the grid at or after the clicked cell
      (clamped to 0) on both axes and fewer than `Ceil(size)` cells from it. */
  lemma {:induction false} CoversIff(x: real, y: real, size: real, rows: int, cols: int, r: int, c: int)
    requires 1 <= rows && 1 <= cols
    ensures Covers(ClickRect(x, y, size, rows, cols), r, c)
        <==> (0 <= r < rows && 0 <= c < cols &&
              Anchor(y) <= r && r - Anchor(y) < Ceil(size) &&
              Anchor(x) <= c && c - Anchor(x) < Ceil(size))
  {
    AxisCovers(Anchor(y), rows, size, r);
    AxisCovers(Anchor(x), cols, size, c);
  }

  /** A click to the right of or below the grid covers no cell. */
  lemma OffGridCoversNothing(x: real, y: real, size: real, rows: int, cols: int, r: int, c: int)
    requires 1 <= rows && 1 <= cols
    requires CellOf(x) >= cols || CellOf(y) >= rows
    ensures !Covers(ClickRect(x, y, size, rows, cols), r, c)
  {
    CoversIff(x, y, size, rows, cols, r, c);
  }

  /** A brush of size 1 on a cell of the grid covers that cell and no other. */
  lemma UnitBrush(x: real, y: real, rows: int, cols: int, r: int, c: int)
    requires 1 <= rows && 1 <= cols
    requires 0 <= CellOf(y) < rows && 0 <= CellOf(x) < cols
    ensures Covers(ClickRect(x, y, 1.0, rows, cols), r, c) <==> (r == CellOf(y) && c == CellOf(x))
  {
    CoversIff(x, y, 1.0, rows, cols, r, c);
  }

  /** A brush of 2.5 reaches three cells along each axis when the grid edge is far enough. */
  lemma FractionalBrushRoundsUp(start: int, limit: int)
    requires start + 3 <= limit
    ensures LoopStop(start, MinReal(limit as real, start as real + 2.5)) == start + 3
  {
    AxisExtent(start, limit, 2.5);
  }

  /** On the default 10 by 20 grid, a size-3 brush on the bottom-right cell
      (row 9, column 19) is clamped to that one cell. */
  lemma CornerClickClamped(r: int, c: int)
    ensures Covers(ClickRect(1240.0, 600.0, 3.0, 10, 20), r, c) <==> (r == 9 && c == 19)
  {
    assert CellOf(1240.0) == 19;
    assert CellOf(600.0) == 9;
    CoversIff(1240.0, 600.0, 3.0, 10, 20, r, c);
  }
}
