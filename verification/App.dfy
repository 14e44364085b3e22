/** The grid controller: its state and the three things that change it
    (src/App.js: handleGridClick, handleReset, the resize effect). */
module Pop {
  import opened Geometry
  import opened Board

  /** Cell (row, col) comes before cell (r, c) in the loops' row-by-row order. */
  predicate Earlier(row: int, col: int, r: int, c: int)
  {
    row < r || (row == r && col < c)
  }

  /** The grid part-way through a click: the covered cells before (r, c) are
      popped, the rest are as they were. */
  ghost function Progress(before: seq<bool>, cols: int, rc: Rect, r: int, c: int): (cur: seq<bool>)
    requires 1 <= cols
    ensures |cur| == |before|
  {
    seq(|before|, i requires 0 <= i < |before| =>
      before[i] || (Covers(rc, i / cols, i % cols) && Earlier(i / cols, i % cols, r, c)))
  }

  lemma ProgressStart(before: seq<bool>, cols: int, rc: Rect)
    requires 1 <= cols
    ensures Progress(before, cols, rc, rc.startRow, rc.startCol) == before
  {
  }

  lemma ProgressEnd(before: seq<bool>, cols: int, rc: Rect, r: int, c: int)
    requires 1 <= cols && rc.endRow <= r as real
    ensures Progress(before, cols, rc, r, c) == Popped(before, cols, rc)
  {
    var p, q := Progress(before, cols, rc, r, c), Popped(before, cols, rc);
    forall i | 0 <= i < |before|
      ensures p[i] == q[i]
    {
      if Covers(rc, i / cols, i % cols) {
        assert ((i / cols) as real) < r as real;
      }
    }
  }

  lemma ProgressNextRow(before: seq<bool>, cols: int, rc: Rect, r: int, c: int)
    requires 1 <= cols && rc.endCol <= c as real
    ensures Progress(before, cols, rc, r, c) == Progress(before, cols, rc, r + 1, rc.startCol)
  {
    var p, q := Progress(before, cols, rc, r, c), Progress(before, cols, rc, r + 1, rc.startCol);
    forall i | 0 <= i < |before|
      ensures p[i] == q[i]
    {
      if Covers(rc, i / cols, i % cols) && i / cols == r {
        assert ((i % cols) as real) < c as real;
      }
    }
  }

  /** Popping the cell (r, c) of the range moves the progress one cell on. */
  lemma ProgressStep(before: seq<bool>, rows: int, cols: int, rc: Rect, r: int, c: int)
    requires 1 <= cols && |before| == rows * cols
    requires 0 <= r < rows && 0 <= c < cols && Covers(rc, r, c)
    ensures 0 <= r * cols + c < |before|
    ensures Progress(before, cols, rc, r, c)[r * cols + c := true] == Progress(before, cols, rc, r, c + 1)
  {
    var k := r * cols + c;
    CellIndex(r, c, rows, cols);
    var p, q := Progress(before, cols, rc, r, c)[k := true], Progress(before, cols, rc, r, c + 1);
    forall i | 0 <= i < |before|
      ensures p[i] == q[i]
    {
      SameCell(i, k, cols);
    }
  }

  /** Two different indices are two different cells. */
  lemma SameCell(i: int, k: int, cols: int)
    requires 1 <= cols
    ensures i == k || i / cols != k / cols || i % cols != k % cols
  {
    assert i == (i / cols) * cols + i % cols;
    assert k == (k / cols) * cols + k % cols;
  }

  /** The two nested loops of a click: copy the grid, walk the rectangle `rc`
      row by row, pop every cell still unpopped and count one sound for each. */
  method PopRange(before: seq<bool>, rows: int, cols: int, rc: Rect) returns (after: seq<bool>, sounds: nat)
    requires 1 <= rows && 1 <= cols && |before| == rows * cols
    requires Within(rc, rows, cols)
    ensures after == Popped(before, cols, rc)
    ensures sounds == |Flipped(before, after)|
  {
    var next := new bool[|before|](i requires 0 <= i < |before| => before[i]);
    assert next[..] == before;
    ProgressStart(before, cols, rc);
    sounds := 0;
    ghost var rowStop := LoopStop(rc.startRow, rc.endRow);
    ghost var colStop := LoopStop(rc.startCol, rc.endCol);
    var r := rc.startRow;
    while (r as real) < rc.endRow
      invariant rc.startRow <= r <= rowStop
      invariant next.Length == |before|
      invariant next[..] == Progress(before, cols, rc, r, rc.startCol)
      invariant sounds == |Flipped(before, next[..])|
      decreases rowStop - r
    {
      var c := rc.startCol;
      while (c as real) < rc.endCol
        invariant rc.startCol <= c <= colStop
        invariant next[..] == Progress(before, cols, rc, r, c)
        invariant sounds == |Flipped(before, next[..])|
        decreases colStop - c
      {
        ProgressStep(before, rows, cols, rc, r, c);
        var k := r * cols + c;
        if !next[k] {
          FlipOne(before, next[..], k);
          next[k] := true;
          sounds := sounds + 1;
        } else {
          assert next[..] == next[..][k := true];
        }
        c := c + 1;
      }
      ProgressNextRow(before, cols, rc, r, c);
      r := r + 1;
    }
    ProgressEnd(before, cols, rc, r, rc.startCol);
    after := next[..];
  }

  /** The grid controller's state: the grid's dimensions, the popped state of
      every cell (row-major) and the brush (cursor) size. */
  class App {
    var numRows: int
    var numCols: int
    var pressedButtons: seq<bool>
    var cursorSize: real

    /** The grid always holds exactly one cell per row and column. */
    ghost predicate Valid()
      reads this
    {
      1 <= numRows && 1 <= numCols && |pressedButtons| == numRows * numCols
    }

    /** The initial state: a 10 by 20 grid, nothing popped, brush size 1. */
    constructor ()
      ensures Valid()
      ensures numRows == 10 && numCols == 20 && cursorSize == 1.0
      ensures pressedButtons == Unpopped(200)
    {
      numRows, numCols := 10, 20;
      pressedButtons := Unpopped(10 * 20);
      cursorSize := 1.0;
    }

    /** A click at pixel offset (x, y) from the grid's top-left corner pops the
        cells of its range and returns how many sounds it played. */
    method HandleGridClick(x: real, y: real) returns (sounds: nat)
      requires Valid()
      modifies this
      ensures Valid()
      ensures numRows == old(numRows) && numCols == old(numCols) && cursorSize == old(cursorSize)
      ensures pressedButtons
           == Popped(old(pressedButtons), numCols, ClickRect(x, y, cursorSize, numRows, numCols))
      ensures sounds == |Flipped(old(pressedButtons), pressedButtons)|
    {
      var rc := ClickRect(x, y, cursorSize, numRows, numCols);
      var next;
      next, sounds := PopRange(pressedButtons, numRows, numCols, rc);
      pressedButtons := next;
    }

    /** Unpops every cell; the dimensions and the brush stay. */
    method HandleReset()
      requires Valid()
      modifies this
      ensures Valid()
      ensures numRows == old(numRows) && numCols == old(numCols) && cursorSize == old(cursorSize)
      ensures |pressedButtons| == numRows * numCols
      ensures forall i :: 0 <= i < |pressedButtons| ==> !pressedButtons[i]
    {
      pressedButtons := Unpopped(numRows * numCols);
    }

    /** New dimensions. The effect on `[numRows, numCols]` runs only when a
        dimension actually changes; it then replaces the grid by an all-unpopped
        one of the new size. Setting the same dimensions keeps the grid. */
    method Resize(rows: int, cols: int)
      requires Valid()
      requires 1 <= rows && 1 <= cols
      modifies this
      ensures Valid()
      ensures numRows == rows && numCols == cols && cursorSize == old(cursorSize)
      ensures rows == old(numRows) && cols == old(numCols) ==> pressedButtons == old(pressedButtons)
      ensures rows != old(numRows) || cols != old(numCols) ==>
        |pressedButtons| == rows * cols && forall i :: 0 <= i < |pressedButtons| ==> !pressedButtons[i]
    {
      if rows != numRows || cols != numCols {
        numRows, numCols := rows, cols;
        pressedButtons := Unpopped(rows * cols);
      }
    }

    /** The slider's change handler; the value is taken as given, unclamped. */
    method SetCursorSize(size: real)
      requires Valid()
      modifies this
      ensures Valid()
      ensures cursorSize == size
      ensures numRows == old(numRows) && numCols == old(numCols) && pressedButtons == old(pressedButtons)
    {
      cursorSize := size;
    }
  }

  /** The end-to-end scenario of a 2 by 2 grid with brush 1: a click on cell
      (0, 0) pops it with one sound, setting the same dimensions keeps it popped,
      the same click again is silent, and reset unpops all four cells. */
  method TwoByTwoScenario()
  {
    var app := new App();
    app.Resize(2, 2);
    ghost var blank := app.pressedButtons;
    var s1 := app.HandleGridClick(10.0, 10.0);
    assert app.pressedButtons[0];
    forall i | 0 <= i < 4
      ensures i in Flipped(blank, app.pressedButtons) <==> i == 0
    {
      UnitBrush(10.0, 10.0, 2, 2, i / 2, i % 2);
    }
    assert Flipped(blank, app.pressedButtons) == {0};
    assert s1 == 1;
    app.Resize(2, 2);
    assert app.pressedButtons[0];
    var s2 := app.HandleGridClick(10.0, 10.0);
    assert s2 == 0;
    app.HandleReset();
    assert |app.pressedButtons| == 4 && !app.pressedButtons[0];
  }
}
