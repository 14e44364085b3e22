# Pop! — a verified model of the bubble-grid click handler

Pop! is a grid of bubble buttons. The grid is `numRows` by `numCols` cells and
starts at 10 by 20. A click pops a square "brush" of cells anchored at the
clicked cell, and each bubble that actually pops plays one sound. A slider sets
the brush size, from 1 to 5 in steps of 0.1. A reset button unpops everything.
Changing the dimensions also resets the grid.

The model has three modules:

- `Geometry` (Geometry.dfy) covers the pure arithmetic of a click. It maps a
  pixel offset to a cell: `floor(offset / 65)`, where 65 is the 50-pixel button
  plus its 15-pixel gap. It clamps the start to 0 and the end to the grid edge.
  The end bound `min(limit, start + size)` stays a `real`, because the brush
  size may be fractional. `LoopStop` gives the integer at which the source's
  loop `i < end` stops.
- `Board` (Board.dfy) holds the popped state as a row-major `seq<bool>`, where
  cell (r, c) is at index `r * cols + c`. It defines `Popped`, the grid after a
  click, and `Flipped`, the set of cells that went from unpopped to popped. The
  lemmas about a click live here.
- `Pop` (App.dfy) holds the imperative part. `PopRange` is the click's two
  nested loops. It copies the grid into a fresh array, walks the rectangle row
  by row, pops each cell that is still unpopped and counts one sound for each.
  The class `App` holds the component's state: `numRows`, `numCols`,
  `pressedButtons` and `cursorSize`. Its methods are the click, reset and resize
  handlers and the slider's change handler. `TwoByTwoScenario` is a client that
  plays a 2 by 2 example: click, the same click again, then reset.

`playSound()` is modelled as a counter. Every call that the source makes is one
unit of the `sounds` result. Whether an audio buffer has been loaded yet is not
modelled.

The brush size is an exact `real`. The loop `for (r = startRow; r < endRow; r++)`
has a real `endRow = min(numRows, startRow + size)`. It therefore visits
`ceil(size)` rows and `ceil(size)` columns, not `floor(size)`, and both counts
are clamped at the grid edge. For example, a brush of 2.5 pops a 3 by 3 square:
the fractional part is rounded up, not truncated (`Geometry.AxisCovers`,
`Geometry.AxisExtent`, `Geometry.FractionalBrushRoundsUp`).

## Model

| member | source | states |
|---|---|---|
| `Geometry.CellOf` | src/App.js:47-48 | the cell under a pixel offset is the unique k with k*65 <= offset < (k+1)*65 (floor of offset / (buttonSize + 15)) |
| `Geometry.Anchor` | src/App.js:50-52 | the first cell of the brush is the clicked cell for a non-negative offset and 0 for a negative one (`Math.max(0, cell)`) |
| `Geometry.ClickRect` | src/App.js:50-53 | the range of a click always lies inside the grid: starts at least 0, real ends at most numRows / numCols |
| `Geometry.LoopStop` | src/App.js:57-58 | the loop `i < end` with a real end stops at the first integer from start on that is not below end |
| `Geometry.AxisCovers` | src/App.js:51-58 | along one axis, cell i is visited iff start <= i < limit and i - start < ceil(size): a fractional brush rounds up |
| `Geometry.AxisExtent` | src/App.js:51-58 | the loop along one axis stops at max(start, min(limit, start + ceil(size))) |
| `Geometry.CoversIff` | src/App.js:47-58 | a click covers (r, c) iff the cell is in the grid, at or after the clamped clicked cell on both axes, and fewer than ceil(size) cells from it |
| `Geometry.OffGridCoversNothing` | src/App.js:47-58 | a click whose column is at least numCols or whose row is at least numRows covers no cell |
| `Geometry.UnitBrush` | src/App.js:47-58 | with brush size 1, a click on a grid cell covers exactly that cell |
| `Geometry.FractionalBrushRoundsUp` | src/App.js:51-58 | an unclamped brush of 2.5 visits 3 cells along an axis |
| `Geometry.CornerClickClamped` | src/App.js:47-58 | on the 10 by 20 grid, a size-3 click on cell (9, 19) covers only that cell |
| `Board.CellIndex` | src/App.js:59 | the index r*numCols + c of a grid cell lies in [0, numRows*numCols), and dividing it by numCols gives back r and c |
| `Board.ClickEffect` | src/App.js:55-65 | a click keeps the length numRows*numCols, pops every covered cell, keeps every other cell, and never unpops a cell |
| `Board.FlipOne` | src/App.js:60-62 | popping one still-unpopped cell adds exactly that cell, so exactly one sound, to the flipped set |
| `Board.SilentIffAllPopped` | src/App.js:60-62 | a click plays no sound iff every cell it covers was already popped |
| `Board.ClickIdempotent` | src/App.js:55-65 | two identical clicks leave the grid as one does, and the second flips nothing (no sound) |
| `Board.OffGridClickIsNoOp` | src/App.js:50-65 | a click right of or below the grid leaves the grid unchanged and plays no sound |
| `Pop.PopRange` | src/App.js:55-65 | the nested loops return exactly `Popped(before)`, and the sound count equals the number of cells that went from unpopped to popped |
| `Pop.App.constructor` | src/App.js:7-10 | the initial state is 10 by 20 cells, all unpopped, with brush size 1 |
| `Pop.App.HandleGridClick` | src/App.js:42-68 | a click stores the popped copy of the grid and returns one sound per newly popped cell; dimensions and brush are unchanged |
| `Pop.App.HandleReset` | src/App.js:70-72 | reset keeps the dimensions and brush and leaves numRows*numCols cells, all unpopped |
| `Pop.App.Resize` | src/App.js:38-40 | setting the dimensions replaces the grid by rows*cols unpopped cells when a dimension changes, and keeps the grid when both are the same (the effect does not run) |
| `Pop.App.SetCursorSize` | src/App.js:130 | the slider value becomes the brush size, unclamped, and nothing else changes |

## Left out

- Audio: creating the `AudioContext`, fetching and decoding `/pop.mp3`, and playing it (src/App.js:14-36). This is browser I/O and async work. `playSound` is counted and not performed. Its silent no-op before the buffer is loaded is not modelled.
- DOM geometry: `getBoundingClientRect` and `clientX`/`clientY` (src/App.js:43-45). The click handler takes the pixel offsets `(x, y)` from the grid's top-left corner as inputs.
- Pointer tracking: `cursorPosition`, the window `mousemove` listener and its removal (src/App.js:11, 74-83). They only place the cursor image and never touch the grid.
- `isMouseDown` and its handlers (src/App.js:12, 85-91). They have no effect on the grid.
- The commented-out drag-to-pop handler (src/App.js:93-117). It is not live code.
- Rendering: the JSX, the grid's CSS template and the cursor overlay's size and position (src/App.js:119-168). This is presentation only.
- src/BubbleButton.js is not part of this model. It is a stateless button that picks a CSS class and disables dragging and selection.
- Floating point: offsets and brush sizes are exact reals. The slider's 0.1 step is not enforced, and any real size is accepted, because the component does not clamp it.
- Resize timing: `Pop.App.Resize` sets the dimensions and, when one of them changed, resets the grid in one step. In the component, the new dimensions are rendered once before the effect replaces the grid. No dimension control exists in the UI, so that intermediate render is not modelled.
