# wasm-gol grid engine in Dafny

This project models the grid engine of a Conway's Game of Life that runs on a
torus: `src/life.rs`. The engine stores the world as one flat, row-major buffer
of `width * height` cells. Its three operations are:

- `get_cell_index`, which maps `(row, col)` to `row * width + col`;
- `get_live_neighbor_count`, which samples the row offsets
  `[height - 1, 0, 1]` against the column offsets `[width - 1, 0, 1]`. It skips
  the pair `(0, 0)` and wraps each sample with `%`;
- `tick`, which fills a fresh buffer with the next state of every cell, computed
  from the old buffer, and then swaps it in.

`life.dfy` (module `Life`) holds the model:

- the `Cell` datatype, its negation and its weight;
- the specification functions `CellIndex`, `LiveNeighbors` and
  `NextGeneration`, with the lemmas about them;
- a reference count, `MooreCount`: the textbook count of the eight signed
  neighbours on a torus;
- the class `World`. Its fields are `cells`, `width` and `height`. Its methods
  `GetCellIndex`, `GetLiveNeighborCount` and `Tick` keep the source's loops and
  are proved against those functions.

`life_tests.dfy` (module `LifeTests`) restates the unit tests of `src/life.rs`
as lemmas and methods. Each test grid is described by the offsets of its live
cells. Each lemma then holds for every buffer with exactly those live cells.

The model follows the code exactly where the sampling is degenerate:

- a 1x1 grid samples its only cell 5 times;
- a grid with one row or one column (and more than one cell) is sampled 7
  times;
- every other grid is sampled 8 times.

The textbook count of the eight signed neighbours on a torus (`MooreCount`)
sees the lone cell of a 1x1 grid 8 times. The code samples it 5 times
(`SampleCountValues`, `SingleCellCount`).

## Model

| member | source | states |
|---|---|---|
| Life.Not | src/life.rs:10-20 | `!` returns the other cell value |
| Life.NotInvolution | src/life.rs:10-20 | negating a cell twice gives back the cell |
| Life.Weight | src/life.rs:1-8 | a cell's `u8` value is at most 1, and it is 1 exactly for `Alive` (`Dead = 0`, `Alive = 1`) |
| Life.CellIndex | src/life.rs:101-104 | the row-major offset of `(row, col)` in rows of `width` cells; its meaning is stated by CellIndexRoundTrip, CellIndexInBounds and CellIndexOnto |
| Life.CellIndexRoundTrip | src/life.rs:101-104 | for `col < width`, division and remainder by `width` recover `row` and `col` from the offset |
| Life.CellIndexInBounds | src/life.rs:101-104 | every on-grid coordinate has an offset below `width * height` |
| Life.CellIndexOnto | src/life.rs:101-104 | every offset into the buffer is the index of an on-grid coordinate |
| Life.Offsets | src/life.rs:85-86 | the three offsets along an axis of length `side`, in loop order: `side - 1`, which is -1 modulo `side`, then 0 and 1 |
| Life.Sampled | src/life.rs:87-89 | every offset pair is sampled except `(0, 0)` |
| Life.Sample | src/life.rs:87-94 | one offset pair adds at most 1 to the count: nothing when it is skipped, else the weight of the wrapped cell (see SampleReads) |
| Life.SampleReads | src/life.rs:91-94 | a sampled offset pair reads the cell at `((row + dRow) % height, (col + dCol) % width)`, which is always inside the buffer, whatever `row` and `col` are |
| Life.SampleCountValues | src/life.rs:85-90 | the self-skip leaves 5 samples on a 1x1 grid, 7 on a grid with one row or one column, and 8 otherwise |
| Life.RowCount | src/life.rs:86-95 | the inner loop's count after the first `j` column offsets is at most the number of pairs sampled among them |
| Life.PartialCount | src/life.rs:85-96 | the count after the first `i` row offsets is at most the number of pairs sampled among them |
| Life.LiveNeighbors | src/life.rs:78-99 | the count never exceeds the number of samples, which is at most 8 |
| Life.LiveNeighborsOfDeadGrid | src/life.rs:78-99 | on an all-dead buffer every count is 0 |
| Life.LiveNeighborsOfLiveGrid | src/life.rs:78-99 | on an all-alive buffer the count is 5, 7 or 8, by the shape of the grid |
| Life.RowCountUnrolled | src/life.rs:86-95 | one pass of the inner loop adds the samples of the column offsets `width - 1`, `0` and `1`, in that order |
| Life.LiveNeighborsUnrolled | src/life.rs:85-96 | the count is the sum of the nine pair samples, in loop order |
| Life.LiveNeighborsIsMooreCount | src/life.rs:82-92 | on a grid of at least 2x2, the `bounds - 1` offsets with `%` give the textbook toroidal Moore count of the eight signed neighbours |
| Life.SingleCellCount | src/life.rs:85-92 | on a 1x1 grid the count is 5 times the cell's weight, where the toroidal Moore count is 8 times it |
| Life.NextState | src/life.rs:65-69 | the next state is `Alive` exactly when the cell is alive with 2 neighbours, or has 3 |
| Life.NextCell | src/life.rs:61-69 | the next state of the cell at offset `i`: the rule applied to the cell and to its count on the current buffer |
| Life.NextGeneration | src/life.rs:54-76 | the buffer `tick` produces has the old buffer's length; cell by cell it is characterised by NextGenerationAt and NextGenerationIsNextGeneration, and IsNextGenerationUnique shows that this characterisation determines it |
| Life.NextGenerationAt | src/life.rs:59-73 | the new cell at every on-grid `(row, col)` is alive iff the old cell was alive with 2 live neighbours or had 3, both counted on the old buffer |
| Life.NextGenerationIsNextGeneration | src/life.rs:59-73 | the next-generation buffer has the old buffer's length and gives every coordinate its next state |
| Life.IsNextGenerationUnique | src/life.rs:59-73 | any buffer that gives every coordinate its next state is the next-generation buffer |
| Life.DeadGridStaysDead | src/life.rs:54-76 | a tick maps an all-dead grid to an all-dead grid |
| Life.DeadGridStaysDeadForever | src/life.rs:54-76 | an all-dead grid stays all dead after any number of ticks |
| Life.SeedPattern | src/life.rs:36-45 | the seed buffer has `n` cells, and cell `i` is alive iff `i % 2 == 0 or i % 7 == 0` |
| Life.World.New | src/life.rs:32-52 | `new` builds a well-formed 100x100 world of 10000 cells, in which cell `i` is alive iff `i % 2 == 0 or i % 7 == 0` |
| Life.World.FromCells | src/life.rs:116-124 | the struct literal of the tests builds a world holding exactly the given fields |
| Life.World.GetCellIndex | src/life.rs:101-104 | returns `row * width + col`, which lies inside the buffer for on-grid coordinates |
| Life.World.GetLiveNeighborCount | src/life.rs:78-99 | the two nested loops return the live-neighbour count `LiveNeighbors` of the current buffer |
| Life.World.FillRow | src/life.rs:60-72 | the inner loop of `tick` writes the next state of every cell of one row into the new buffer; the rows already written keep their values, and the later rows are left untouched |
| Life.World.FillNext | src/life.rs:56-73 | the two loops of `tick` leave the whole new buffer equal to the next generation of the current one |
| Life.World.Tick | src/life.rs:54-76 | `tick` keeps the width, the height and well-formedness, and replaces the buffer by the next generation of the old buffer |
| LifeTests.CellIndexExamples | src/life.rs:114-129 | on the 4-wide grid, `(2, 3)` is offset 11, `(0, 0)` is 0 and `(2, 0)` is 8 |
| LifeTests.CountAtCentre | src/life.rs:131-143 | on the 4x3 grid with live cells 0, 1 and 5, the count at `(1, 1)` is 2 |
| LifeTests.CountAtCorner | src/life.rs:131-144 | on the same grid, the count at `(2, 3)` is 1: offset 0 is seen across both wrapped edges |
| LifeTests.VerticalStep | src/life.rs:147-175 | one tick turns the vertical 5x5 blinker into the horizontal one |
| LifeTests.HorizontalStep | src/life.rs:147-179 | one tick turns the horizontal 5x5 blinker back into the vertical one |
| LifeTests.BlinkerOscillates | src/life.rs:147-180 | the 5x5 blinker has period 2: one tick changes it, and two ticks restore it |
| LifeTests.SingleCellDies | src/life.rs:65-92 | on a 1x1 grid a live cell dies, since it sees itself 5 times, and a dead cell stays dead |

## Left out

- `src/main.rs` is not part of this model. It holds the browser front end:
  - the drawing;
  - the floating-point conversion between screen and grid coordinates;
  - the mouse edits of single cells;
  - the settings behind a lock, and the exported toggles;
  - the frame counter and the asynchronous render loop.
- Integer widths: `usize` and `u8` are modelled as unbounded naturals. The `u8` count cannot overflow, since it is at most 8. A `usize` product `row * width + col` that overflows needs a grid beyond any addressable buffer.
- `width` or `height` of 0 is excluded by `WellFormed`, which requires both sides to be at least 1. On such a grid the source's `tick` does nothing: it builds an empty buffer, and its loops run zero times, so the neighbour count is never called. The model does not cover that case. The neighbour count, whose offsets `height - 1` and `width - 1` need positive sides, is defined only for well-formed grids.
- The `Default` derive (whose default cell is `Alive`) and the `Debug` derive are not modelled. No engine code uses them.
- Life.World.FillRow and Life.World.FillNext: they are the two loops of `tick`. They are methods of their own here so that each loop is proved on its own. Tick calls them on a fresh array, as the source fills `next_cells`.
- LifeTests.CellIndexTest, LifeTests.LiveNeighborCountTest and LifeTests.TickTest hold no `ensures`. They restate the tests' calls on a `World`, and their assertions lean on the lemmas above. The 4x3 index test's cells play no part, so CellIndexTest accepts any 12 cells.
