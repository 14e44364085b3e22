/** The popped state of the grid as a row-major sequence of booleans (index
    `r * cols + c`), and what one click does to it (src/App.js, handleGridClick). */
module Board {
  import opened Geometry

  /** Index of cell (r, c) in the row-major sequence; it lies inside the grid and
      gives back its row and column. */
  lemma CellIndex(r: int, c: int, rows: int, cols: int)
    requires 0 <= r < rows && 0 <= c < cols
    ensures 0 <= r * cols + c < rows * cols
    ensures (r * cols + c) / cols == r && (r * cols + c) % cols == c
  {
    assert r * cols + c < (r + 1) * cols <= rows * cols by {
      assert (r + 1) * cols == r * cols + cols;
      assert r + 1 <= rows;
      MulMono(r + 1, rows, cols);
    }
    DivModUnique(r * cols + c, cols, r, c);
  }

  lemma MulMono(a: int, b: int, m: int)
    requires a <= b && 0 <= m
    ensures a * m <= b * m
  {
    assert b * m - a * m == (b - a) * m;
  }

  lemma DivModUnique(i: int, n: int, q: int, m: int)
    requires 0 < n && 0 <= m < n && i == q * n + m
    ensures i / n == q && i % n == m
  {
    var q', m' := i / n, i % n;
    assert (q - q') * n == m' - m by {
      assert i == q' * n + m';
      assert (q - q') * n == q * n - q' * n;
    }
    SmallMultiple(q - q', n);
  }

  /** The only multiple of `n` strictly between `-n` and `n` is 0. */
  lemma SmallMultiple(d: int, n: int)
    requires 0 < n && -n < d * n < n
    ensures d == 0
  {
    if d >= 1 {
      MulMono(1, d, n);
    } else if d <= -1 {
      MulMono(d, -1, n);
    }
  }

  /** The grid after a click over `rc`: a cell is popped when it was popped
      before or the click covers it. */
  function Popped(before: seq<bool>, cols: int, rc: Rect): (after: seq<bool>)
    requires 1 <= cols
  {
    seq(|before|, i requires 0 <= i < |before| => before[i] || Covers(rc, i / cols, i % cols))
  }

  /** The cells that went from unpopped to popped: each is one sound. */
  function Flipped(before: seq<bool>, after: seq<bool>): (s: set<int>)
    requires |before| == |after|
  {
    set i | 0 <= i < |before| && !before[i] && after[i]
  }

  /** An all-unpopped grid of `n` cells: `Array(n).fill(false)`. */
  function Unpopped(n: nat): (s: seq<bool>)
  {
    seq(n, _ => false)
  }

  /** The effect of a click, cell by cell: the length is kept, every covered cell
      is popped, every other cell keeps its value, so no popped cell is ever
      unpopped. */
  lemma ClickEffect(before: seq<bool>, rows: int, cols: int, rc: Rect, r: int, c: int)
    requires 1 <= rows && 1 <= cols && |before| == rows * cols
    requires 0 <= r < rows && 0 <= c < cols
    ensures |Popped(before, cols, rc)| == rows * cols
    ensures 0 <= r * cols + c < rows * cols
    ensures before[r * cols + c] ==> Popped(before, cols, rc)[r * cols + c]
    ensures Covers(rc, r, c) ==> Popped(before, cols, rc)[r * cols + c]
    ensures !Covers(rc, r, c) ==> Popped(before, cols, rc)[r * cols + c] == before[r * cols + c]
  {
    var i := r * cols + c;
    CellIndex(r, c, rows, cols);
    assert 0 <= i < |before| && i / cols == r && i % cols == c;
    var after := Popped(before, cols, rc);
    assert after[i] == (before[i] || Covers(rc, r, c));
  }

  /** Popping one more unpopped cell adds exactly that cell to the flipped set. */
  lemma FlipOne(before: seq<bool>, cur: seq<bool>, k: int)
    requires |before| == |cur| && 0 <= k < |cur|
    requires !before[k] && !cur[k]
    ensures Flipped(before, cur[k := true]) == Flipped(before, cur) + {k}
    ensures |Flipped(before, cur[k := true])| == |Flipped(before, cur)| + 1
  {
    assert k !in Flipped(before, cur);
    assert Flipped(before, cur[k := true]) == Flipped(before, cur) + {k};
  }

  /** A click sounds at all exactly when some covered cell was still unpopped. */
  lemma SilentIffAllPopped(before: seq<bool>, cols: int, rc: Rect)
    requires 1 <= cols
    ensures Flipped(before, Popped(before, cols, rc)) == {}
        <==> (forall i :: 0 <= i < |before| && Covers(rc, i / cols, i % cols) ==> before[i])
  {
    var after := Popped(before, cols, rc);
    if Flipped(before, after) == {} {
      forall i | 0 <= i < |before| && Covers(rc, i / cols, i % cols)
        ensures before[i]
      {
        assert i !in Flipped(before, after);
      }
    }
  }

  /** Clicking twice with the same range leaves the grid as one click does, and
      the second click flips nothing, so it plays no sound. */
  lemma ClickIdempotent(before: seq<bool>, cols: int, rc: Rect)
    requires 1 <= cols
    ensures Popped(Popped(before, cols, rc), cols, rc) == Popped(before, cols, rc)
    ensures Flipped(Popped(before, cols, rc), Popped(Popped(before, cols, rc), cols, rc)) == {}
  {
    var once := Popped(before, cols, rc);
    SilentIffAllPopped(once, cols, rc);
  }

  /** A click to the right of or below the grid changes nothing and plays no sound. */
  lemma OffGridClickIsNoOp(before: seq<bool>, rows: int, cols: int, x: real, y: real, size: real)
    requires 1 <= rows && 1 <= cols
    requires CellOf(x) >= cols || CellOf(y) >= rows
    ensures Popped(before, cols, ClickRect(x, y, size, rows, cols)) == before
    ensures Flipped(before, Popped(before, cols, ClickRect(x, y, size, rows, cols))) == {}
  {
    var rc := ClickRect(x, y, size, rows, cols);
    forall i | 0 <= i < |before|
      ensures !Covers(rc, i / cols, i % cols)
    {
      OffGridCoversNothing(x, y, size, rows, cols, i / cols, i % cols);
    }
  }
}
