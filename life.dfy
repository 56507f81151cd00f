/**
 * The grid engine of a Game of Life on a torus: the cell type, the flat
 * row-major buffer, the wrap-around neighbour count and the generation step.
 */
module Life {

  /** A cell. Its `u8` representation is 0 for `Dead` and 1 for `Alive`. */
  datatype Cell = Dead | Alive

  /** Unary `!` on a cell: the other value. */
  function Not(c: Cell): (r: Cell)
    ensures r != c
  {
    match c
    case Dead => Alive
    case Alive => Dead
  }

  /** Negation is an involution. */
  lemma NotInvolution(c: Cell)
    ensures Not(Not(c)) == c
  {
  }

  /** The cell as a count, `cell as u8`: 1 exactly for a live cell. */
  function Weight(c: Cell): (v: nat)
    ensures v <= 1
    ensures v == 1 <==> c == Alive
  {
    if c == Alive then 1 else 0
  }

  /**
   * The shape every grid keeps: both sides positive (the source computes
   * `height - 1` and `width - 1`, which underflow at 0) and a row-major
   * buffer of `width * height` cells.
   */
  predicate WellFormed(cells: seq<Cell>, width: nat, height: nat)
  {
    width >= 1 && height >= 1 && |cells| == width * height
  }

  // ---------------------------------------------------------------------
  // Indexing
  // ---------------------------------------------------------------------

  /** A positive multiple of `n` is at least `n`. */
  lemma {:induction false} MulAtLeast(a: nat, n: nat)
    requires a >= 1
    ensures a * n >= n
  {
    if a > 1 {
      MulAtLeast(a - 1, n);
      assert a * n == (a - 1) * n + n;
    }
  }

  /** Euclidean division by `n` is determined by any quotient and remainder that rebuild `x`. */
  lemma DivModUnique(x: int, n: nat, q: int, r: int)
    requires n >= 1 && 0 <= r < n && x == q * n + r
    ensures x / n == q && x % n == r
  {
    var d, m := x / n, x % n;
    assert x == d * n + m && 0 <= m < n;
    if d > q {
      MulAtLeast(d - q, n);
    } else if d < q {
      MulAtLeast(q - d, n);
    }
  }

  /** `get_cell_index`: the row-major offset of `(row, col)`, for a row of `width` cells. */
  function CellIndex(width: nat, row: nat, col: nat): nat
  {
    row * width + col
  }

  /** Row and column are recovered from the offset by division and remainder. */
  lemma CellIndexRoundTrip(width: nat, row: nat, col: nat)
    requires col < width
    ensures CellIndex(width, row, col) / width == row && CellIndex(width, row, col) % width == col
  {
    DivModUnique(row * width + col, width, row, col);
  }

  /** For a valid coordinate the offset lies inside the buffer. */
  lemma CellIndexInBounds(width: nat, height: nat, row: nat, col: nat)
    requires row < height && col < width
    ensures CellIndex(width, row, col) < width * height
  {
    assert (height - 1 - row) * width >= 0;
    assert height * width == (height - 1 - row) * width + row * width + width;
  }

  /** Every offset into a buffer of `width * height` cells is the index of exactly one valid coordinate. */
  lemma CellIndexOnto(width: nat, height: nat, i: nat)
    requires width >= 1 && i < width * height
    ensures i / width < height && i % width < width
    ensures CellIndex(width, i / width, i % width) == i
  {
    var q, m := i / width, i % width;
    assert i == q * width + m;
  }

  // ---------------------------------------------------------------------
  // Neighbour sampling
  // ---------------------------------------------------------------------

  /** The three offsets sampled along one axis: `[side - 1, 0, 1]`, where `side - 1` stands for -1. */
  function Offsets(side: nat): (s: seq<nat>)
    requires side >= 1
    ensures |s| == 3 && s[0] == side - 1 && s[1] == 0 && s[2] == 1
    ensures (s[0] + 1) % side == 0
  {
    [side - 1, 0, 1]
  }

  /** An offset pair is sampled unless both offsets are 0 (the self-skip). */
  predicate Sampled(dRow: nat, dCol: nat)
  {
    !(dRow == 0 && dCol == 0)
  }

  /** Adding a full turn does not change a residue. */
  lemma ModShift(x: int, n: nat)
    requires n >= 1
    ensures (x + n) % n == x % n
  {
    DivModUnique(x, n, x / n, x % n);
    assert x + n == (x / n + 1) * n + x % n;
    DivModUnique(x + n, n, x / n + 1, x % n);
  }

  /**
   * What the offset pair `(dRow, dCol)` adds to the count at `(row, col)`:
   * nothing when it is skipped, else the weight of the cell at
   * `((row + dRow) % height, (col + dCol) % width)`.
   */
  function Sample(cells: seq<Cell>, width: nat, height: nat, row: nat, col: nat, dRow: nat, dCol: nat): (v: nat)
    requires WellFormed(cells, width, height)
    ensures v <= 1
  {
    if !Sampled(dRow, dCol) then 0
    else
      var newRow, newCol := (row + dRow) % height, (col + dCol) % width;
      CellIndexInBounds(width, height, newRow, newCol);
      Weight(cells[newRow * width + newCol])
  }

  /** A sampled pair reads a cell inside the buffer: the one at the wrapped coordinates. */
  lemma SampleReads(cells: seq<Cell>, width: nat, height: nat, row: nat, col: nat, dRow: nat, dCol: nat)
    requires WellFormed(cells, width, height) && Sampled(dRow, dCol)
    ensures CellIndex(width, (row + dRow) % height, (col + dCol) % width) < |cells|
    ensures Sample(cells, width, height, row, col, dRow, dCol)
         == Weight(cells[CellIndex(width, (row + dRow) % height, (col + dCol) % width)])
  {
    CellIndexInBounds(width, height, (row + dRow) % height, (col + dCol) % width);
  }

  /** The number of sampled pairs among row offset `dRow` and the first `j` column offsets. */
  function RowSamples(width: nat, dRow: nat, j: nat): (n: nat)
    requires width >= 1 && j <= 3
    ensures n <= j
  {
    (if j >= 1 && Sampled(dRow, width - 1) then 1 else 0)
    + (if j >= 2 && Sampled(dRow, 0) then 1 else 0)
    + (if j >= 3 && Sampled(dRow, 1) then 1 else 0)
  }

  /** The number of sampled pairs among the first `i` row offsets. */
  function PartialSamples(width: nat, height: nat, i: nat): (n: nat)
    requires width >= 1 && height >= 1 && i <= 3
    ensures n <= 3 * i
  {
    (if i >= 1 then RowSamples(width, height - 1, 3) else 0)
    + (if i >= 2 then RowSamples(width, 0, 3) else 0)
    + (if i >= 3 then RowSamples(width, 1, 3) else 0)
  }

  /** How many cells the count samples around one position. */
  function SampleCount(width: nat, height: nat): nat
    requires width >= 1 && height >= 1
  {
    PartialSamples(width, height, 3)
  }

  /** A row offset of 0 meets the self-skip once per zero column offset. */
  lemma RowSamplesValues(width: nat, dRow: nat)
    requires width >= 1
    ensures RowSamples(width, dRow, 3) == if dRow != 0 then 3 else if width == 1 then 1 else 2
  {
    assert RowSamples(width, dRow, 1) == if dRow == 0 && width == 1 then 0 else 1;
    assert RowSamples(width, dRow, 2) == RowSamples(width, dRow, 1) + (if dRow == 0 then 0 else 1);
  }

  /**
   * The self-skip fires once per pair of zero offsets: a 1x1 grid is sampled
   * 5 times, a grid with one row or one column (and more than one cell) 7
   * times, and every other grid 8 times.
   */
  lemma SampleCountValues(width: nat, height: nat)
    requires width >= 1 && height >= 1
    ensures SampleCount(width, height) ==
      if width == 1 && height == 1 then 5
      else if width == 1 || height == 1 then 7
      else 8
  {
    RowSamplesValues(width, height - 1);
    RowSamplesValues(width, 0);
    RowSamplesValues(width, 1);
    assert PartialSamples(width, height, 2)
        == RowSamples(width, height - 1, 3) + RowSamples(width, 0, 3);
  }

  /** The count the inner loop accumulates for row offset `dRow` over the first `j` column offsets. */
  function RowCount(cells: seq<Cell>, width: nat, height: nat, row: nat, col: nat, dRow: nat, j: nat): (n: nat)
    requires WellFormed(cells, width, height) && j <= 3
    ensures n <= RowSamples(width, dRow, j)
  {
    if j == 0 then 0
    else RowCount(cells, width, height, row, col, dRow, j - 1) + Sample(cells, width, height, row, col, dRow, Offsets(width)[j - 1])
  }

  /** The count the outer loop accumulates over the first `i` row offsets. */
  function PartialCount(cells: seq<Cell>, width: nat, height: nat, row: nat, col: nat, i: nat): (n: nat)
    requires WellFormed(cells, width, height) && i <= 3
    ensures n <= PartialSamples(width, height, i)
  {
    if i == 0 then 0
    else PartialCount(cells, width, height, row, col, i - 1) + RowCount(cells, width, height, row, col, Offsets(height)[i - 1], 3)
  }

  /** The live-neighbour count at `(row, col)`, `get_live_neighbor_count`, on the given buffer. */
  function LiveNeighbors(cells: seq<Cell>, width: nat, height: nat, row: nat, col: nat): (n: nat)
    requires WellFormed(cells, width, height)
    ensures n <= SampleCount(width, height) <= 8
  {
    SampleCountValues(width, height);
    PartialCount(cells, width, height, row, col, 3)
  }

  /** Every cell of the buffer is dead. */
  predicate AllDead(cells: seq<Cell>)
  {
    forall i :: 0 <= i < |cells| ==> cells[i] == Dead
  }

  /** Every cell of the buffer is alive. */
  predicate AllAlive(cells: seq<Cell>)
  {
    forall i :: 0 <= i < |cells| ==> cells[i] == Alive
  }

  lemma {:induction false} RowCountOfUniform(cells: seq<Cell>, width: nat, height: nat, row: nat, col: nat, dRow: nat, j: nat)
    requires WellFormed(cells, width, height) && j <= 3
    ensures AllDead(cells) ==> RowCount(cells, width, height, row, col, dRow, j) == 0
    ensures AllAlive(cells) ==> RowCount(cells, width, height, row, col, dRow, j) == RowSamples(width, dRow, j)
  {
    if j > 0 {
      RowCountOfUniform(cells, width, height, row, col, dRow, j - 1);
      if Sampled(dRow, Offsets(width)[j - 1]) {
        SampleReads(cells, width, height, row, col, dRow, Offsets(width)[j - 1]);
      }
    }
  }

  lemma {:induction false} PartialCountOfUniform(cells: seq<Cell>, width: nat, height: nat, row: nat, col: nat, i: nat)
    requires WellFormed(cells, width, height) && i <= 3
    ensures AllDead(cells) ==> PartialCount(cells, width, height, row, col, i) == 0
    ensures AllAlive(cells) ==> PartialCount(cells, width, height, row, col, i) == PartialSamples(width, height, i)
  {
    if i > 0 {
      PartialCountOfUniform(cells, width, height, row, col, i - 1);
      RowCountOfUniform(cells, width, height, row, col, Offsets(height)[i - 1], 3);
    }
  }

  /** On an all-dead buffer every count is 0. */
  lemma LiveNeighborsOfDeadGrid(cells: seq<Cell>, width: nat, height: nat, row: nat, col: nat)
    requires WellFormed(cells, width, height) && AllDead(cells)
    ensures LiveNeighbors(cells, width, height, row, col) == 0
  {
    PartialCountOfUniform(cells, width, height, row, col, 3);
  }

  /** On an all-alive buffer the count is the number of samples: 5, 7 or 8 by the shape of the grid. */
  lemma LiveNeighborsOfLiveGrid(cells: seq<Cell>, width: nat, height: nat, row: nat, col: nat)
    requires WellFormed(cells, width, height) && AllAlive(cells)
    ensures LiveNeighbors(cells, width, height, row, col) ==
      if width == 1 && height == 1 then 5
      else if width == 1 || height == 1 then 7
      else 8
  {
    PartialCountOfUniform(cells, width, height, row, col, 3);
    SampleCountValues(width, height);
  }

  // ---------------------------------------------------------------------
  // Reference: the textbook Moore neighbourhood on a torus
  // ---------------------------------------------------------------------

  /** The buffer offset of integer coordinates `(r, c)` wrapped onto the torus. */
  function TorusIndex(width: nat, height: nat, r: int, c: int): (index: nat)
    requires width >= 1 && height >= 1
    ensures index < width * height
  {
    var row, col := r % height, c % width;
    CellIndexInBounds(width, height, row, col);
    CellIndex(width, row, col)
  }

  /** The weight of the cell at integer coordinates `(r, c)`, wrapped onto the torus. */
  function TorusWeight(cells: seq<Cell>, width: nat, height: nat, r: int, c: int): (v: nat)
    requires WellFormed(cells, width, height)
    ensures v <= 1
  {
    Weight(cells[TorusIndex(width, height, r, c)])
  }

  /** The live cells among the eight signed offsets around `(row, col)`, each wrapped independently. */
  function MooreCount(cells: seq<Cell>, width: nat, height: nat, row: nat, col: nat): (n: nat)
    requires WellFormed(cells, width, height)
    ensures n <= 8
  {
    TorusWeight(cells, width, height, row - 1, col - 1)
    + TorusWeight(cells, width, height, row - 1, col)
    + TorusWeight(cells, width, height, row - 1, col + 1)
    + TorusWeight(cells, width, height, row, col - 1)
    + TorusWeight(cells, width, height, row, col + 1)
    + TorusWeight(cells, width, height, row + 1, col - 1)
    + TorusWeight(cells, width, height, row + 1, col)
    + TorusWeight(cells, width, height, row + 1, col + 1)
  }

  /** One full pass of the inner loop, written out. */
  lemma RowCountUnrolled(cells: seq<Cell>, width: nat, height: nat, row: nat, col: nat, dRow: nat)
    requires WellFormed(cells, width, height)
    ensures RowCount(cells, width, height, row, col, dRow, 3)
         == Sample(cells, width, height, row, col, dRow, width - 1) + Sample(cells, width, height, row, col, dRow, 0)
          + Sample(cells, width, height, row, col, dRow, 1)
  {
    assert RowCount(cells, width, height, row, col, dRow, 1) == Sample(cells, width, height, row, col, dRow, width - 1);
    assert RowCount(cells, width, height, row, col, dRow, 2)
        == RowCount(cells, width, height, row, col, dRow, 1) + Sample(cells, width, height, row, col, dRow, 0);
  }

  /** The count, written out as the sum of the nine pair samples in loop order. */
  lemma LiveNeighborsUnrolled(cells: seq<Cell>, width: nat, height: nat, row: nat, col: nat)
    requires WellFormed(cells, width, height)
    ensures var up, down, left, right := height - 1, 1, width - 1, 1;
      LiveNeighbors(cells, width, height, row, col)
      == Sample(cells, width, height, row, col, up, left) + Sample(cells, width, height, row, col, up, 0)
       + Sample(cells, width, height, row, col, up, right)
       + Sample(cells, width, height, row, col, 0, left) + Sample(cells, width, height, row, col, 0, 0)
       + Sample(cells, width, height, row, col, 0, right)
       + Sample(cells, width, height, row, col, down, left) + Sample(cells, width, height, row, col, down, 0)
       + Sample(cells, width, height, row, col, down, right)
  {
    RowCountUnrolled(cells, width, height, row, col, height - 1);
    RowCountUnrolled(cells, width, height, row, col, 0);
    RowCountUnrolled(cells, width, height, row, col, 1);
    assert PartialCount(cells, width, height, row, col, 1) == RowCount(cells, width, height, row, col, height - 1, 3);
    assert PartialCount(cells, width, height, row, col, 2)
        == PartialCount(cells, width, height, row, col, 1) + RowCount(cells, width, height, row, col, 0, 3);
  }

  /** A sampled pair `(dRow, dCol)` weighs the cell at the signed offset it stands for. */
  lemma SampleIsSignedOffset(cells: seq<Cell>, width: nat, height: nat, row: nat, col: nat, dRow: nat, dCol: nat, sr: int, sc: int)
    requires WellFormed(cells, width, height) && Sampled(dRow, dCol)
    requires (sr == -1 && dRow == height - 1) || (sr >= 0 && dRow == sr)
    requires (sc == -1 && dCol == width - 1) || (sc >= 0 && dCol == sc)
    ensures Sample(cells, width, height, row, col, dRow, dCol) == TorusWeight(cells, width, height, row + sr, col + sc)
  {
    if sr == -1 {
      ModShift(row - 1, height);
    }
    if sc == -1 {
      ModShift(col - 1, width);
    }
  }

  /**
   * On a grid with at least two rows and two columns the count is the
   * textbook toroidal Moore count: only the pair (0, 0) is skipped and the
   * other eight pairs are the eight signed offsets.
   */
  lemma LiveNeighborsIsMooreCount(cells: seq<Cell>, width: nat, height: nat, row: nat, col: nat)
    requires WellFormed(cells, width, height) && width >= 2 && height >= 2
    ensures LiveNeighbors(cells, width, height, row, col) == MooreCount(cells, width, height, row, col)
  {
    LiveNeighborsUnrolled(cells, width, height, row, col);
    var up, left := height - 1, width - 1;
    SampleIsSignedOffset(cells, width, height, row, col, up, left, -1, -1);
    SampleIsSignedOffset(cells, width, height, row, col, up, 0, -1, 0);
    SampleIsSignedOffset(cells, width, height, row, col, up, 1, -1, 1);
    SampleIsSignedOffset(cells, width, height, row, col, 0, left, 0, -1);
    SampleIsSignedOffset(cells, width, height, row, col, 0, 1, 0, 1);
    SampleIsSignedOffset(cells, width, height, row, col, 1, left, 1, -1);
    SampleIsSignedOffset(cells, width, height, row, col, 1, 0, 1, 0);
    SampleIsSignedOffset(cells, width, height, row, col, 1, 1, 1, 1);
  }

  /**
   * On a 1x1 grid the skip fires four times: the single cell is counted 5
   * times, where the textbook toroidal count would count it 8 times.
   */
  lemma SingleCellCount(cells: seq<Cell>, row: nat, col: nat)
    requires WellFormed(cells, 1, 1)
    ensures LiveNeighbors(cells, 1, 1, row, col) == 5 * Weight(cells[0])
    ensures MooreCount(cells, 1, 1, row, col) == 8 * Weight(cells[0])
  {
    if cells[0] == Alive {
      assert AllAlive(cells);
      LiveNeighborsOfLiveGrid(cells, 1, 1, row, col);
    } else {
      assert AllDead(cells);
      LiveNeighborsOfDeadGrid(cells, 1, 1, row, col);
    }
  }

  // ---------------------------------------------------------------------
  // The generation step
  // ---------------------------------------------------------------------

  /** The rule of `tick`: survive on 2, born or survive on 3, dead otherwise. */
  function NextState(state: Cell, neighbors: nat): (next: Cell)
    ensures next == Alive <==> (state == Alive && neighbors == 2) || neighbors == 3
  {
    match (state, neighbors)
    case (Alive, 2) => Alive
    case (_, 3) => Alive
    case _ => Dead
  }

  /** The next state of the cell at offset `i`, from its live neighbours in `cells`. */
  function NextCell(cells: seq<Cell>, width: nat, height: nat, i: nat): Cell
    requires WellFormed(cells, width, height) && i < |cells|
  {
    NextState(cells[i], LiveNeighbors(cells, width, height, i / width, i % width))
  }

  /** The buffer one tick produces from `cells`; every count is taken on `cells` itself. */
  function NextGeneration(cells: seq<Cell>, width: nat, height: nat): (next: seq<Cell>)
    requires WellFormed(cells, width, height)
    ensures |next| == |cells|
  {
    seq(|cells|, i requires 0 <= i < |cells| => NextCell(cells, width, height, i))
  }

  /**
   * The new cell at every valid `(row, col)` is alive exactly when the old
   * cell was alive with 2 live neighbours or had 3, counted on the old buffer.
   */
  lemma NextGenerationAt(cells: seq<Cell>, width: nat, height: nat, row: nat, col: nat)
    requires WellFormed(cells, width, height) && row < height && col < width
    ensures CellIndex(width, row, col) < |cells|
    ensures NextGeneration(cells, width, height)[CellIndex(width, row, col)]
         == NextState(cells[CellIndex(width, row, col)], LiveNeighbors(cells, width, height, row, col))
    ensures NextGeneration(cells, width, height)[CellIndex(width, row, col)] == Alive <==>
      ((cells[CellIndex(width, row, col)] == Alive && LiveNeighbors(cells, width, height, row, col) == 2)
       || LiveNeighbors(cells, width, height, row, col) == 3)
  {
    CellIndexInBounds(width, height, row, col);
    CellIndexRoundTrip(width, row, col);
  }

  /**
   * `spec` is a buffer of the same shape in which every cell `(row, col)`
   * holds the next state of that cell of `cells`.
   */
  predicate IsNextGeneration(spec: seq<Cell>, cells: seq<Cell>, width: nat, height: nat)
    requires WellFormed(cells, width, height)
  {
    |spec| == |cells| &&
    forall row: nat, col: nat {:trigger spec[CellIndex(width, row, col)]} :: row < height && col < width ==>
      CellIndex(width, row, col) < |spec| &&
      spec[CellIndex(width, row, col)]
        == NextState(cells[CellIndex(width, row, col)], LiveNeighbors(cells, width, height, row, col))
  }

  /** `NextGeneration` gives every cell its next state ... */
  lemma NextGenerationIsNextGeneration(cells: seq<Cell>, width: nat, height: nat)
    requires WellFormed(cells, width, height)
    ensures IsNextGeneration(NextGeneration(cells, width, height), cells, width, height)
  {
    forall row: nat, col: nat | row < height && col < width
      ensures CellIndex(width, row, col) < |cells|
      ensures NextGeneration(cells, width, height)[CellIndex(width, row, col)]
           == NextState(cells[CellIndex(width, row, col)], LiveNeighbors(cells, width, height, row, col))
    {
      NextGenerationAt(cells, width, height, row, col);
    }
  }

  /** A buffer that gives every `(row, col)` its next state agrees with `NextGeneration` at each index. */
  lemma IsNextGenerationAt(spec: seq<Cell>, cells: seq<Cell>, width: nat, height: nat, i: nat)
    requires WellFormed(cells, width, height) && IsNextGeneration(spec, cells, width, height)
    requires i < |cells|
    ensures spec[i] == NextGeneration(cells, width, height)[i]
  {
    var row, col := i / width, i % width;
    CellIndexOnto(width, height, i);
    NextGenerationAt(cells, width, height, row, col);
    assert spec[CellIndex(width, row, col)]
        == NextState(cells[CellIndex(width, row, col)], LiveNeighbors(cells, width, height, row, col));
  }

  /** ... and is the only buffer that does. */
  lemma IsNextGenerationUnique(spec: seq<Cell>, cells: seq<Cell>, width: nat, height: nat)
    requires WellFormed(cells, width, height) && IsNextGeneration(spec, cells, width, height)
    ensures spec == NextGeneration(cells, width, height)
  {
    forall i | 0 <= i < |cells|
      ensures spec[i] == NextGeneration(cells, width, height)[i]
    {
      IsNextGenerationAt(spec, cells, width, height, i);
    }
  }

  /** An all-dead grid stays all dead. */
  lemma DeadGridStaysDead(cells: seq<Cell>, width: nat, height: nat)
    requires WellFormed(cells, width, height) && AllDead(cells)
    ensures AllDead(NextGeneration(cells, width, height))
  {
    forall i | 0 <= i < |cells|
      ensures NextCell(cells, width, height, i) == Dead
    {
      LiveNeighborsOfDeadGrid(cells, width, height, i / width, i % width);
    }
  }

  /** The buffer after `k` ticks. */
  function Generations(cells: seq<Cell>, width: nat, height: nat, k: nat): (after: seq<Cell>)
    requires WellFormed(cells, width, height)
    ensures |after| == |cells|
    decreases k
  {
    if k == 0 then cells
    else Generations(NextGeneration(cells, width, height), width, height, k - 1)
  }

  /** An all-dead grid stays all dead after any number of ticks. */
  lemma {:induction false} DeadGridStaysDeadForever(cells: seq<Cell>, width: nat, height: nat, k: nat)
    requires WellFormed(cells, width, height) && AllDead(cells)
    ensures AllDead(Generations(cells, width, height, k))
    decreases k
  {
    if k > 0 {
      DeadGridStaysDead(cells, width, height);
      DeadGridStaysDeadForever(NextGeneration(cells, width, height), width, height, k - 1);
    }
  }

  /** The seed pattern of `World::new`: cell `i` is alive when `i` is a multiple of 2 or of 7. */
  function SeedPattern(n: nat): (cells: seq<Cell>)
    ensures |cells| == n
    ensures forall i :: 0 <= i < n ==> (cells[i] == Alive <==> i % 2 == 0 || i % 7 == 0)
  {
    seq(n, i => if i % 2 == 0 || i % 7 == 0 then Alive else Dead)
  }

  // ---------------------------------------------------------------------
  // The world object
  // ---------------------------------------------------------------------

  /** A grid: a flat row-major buffer of `width * height` cells. */
  class World {
    var cells: seq<Cell>
    var width: nat
    var height: nat

    ghost predicate Valid()
      reads this
    {
      WellFormed(cells, width, height)
    }

    /** `World::new`: a 100x100 grid seeded with the multiples of 2 and of 7. */
    constructor New()
      ensures Valid()
      ensures width == 100 && height == 100 && |cells| == 10000
      ensures forall i :: 0 <= i < |cells| ==> (cells[i] == Alive <==> i % 2 == 0 || i % 7 == 0)
    {
      width, height := 100, 100;
      cells := SeedPattern(100 * 100);
    }

    /** A world built from explicit fields, as the struct literal of the unit tests does. */
    constructor FromCells(cells: seq<Cell>, width: nat, height: nat)
      requires WellFormed(cells, width, height)
      ensures Valid()
      ensures this.cells == cells && this.width == width && this.height == height
    {
      this.cells, this.width, this.height := cells, width, height;
    }

    /**
     * `get_cell_index`: the row-major offset of `(row, col)`. It lies in the
     * buffer whenever `(row, col)` is on the grid.
     */
    method GetCellIndex(row: nat, col: nat) returns (index: nat)
      requires Valid()
      ensures index == CellIndex(width, row, col)
      ensures row < height && col < width ==> index < |cells|
    {
      index := row * width + col;
      if row < height && col < width {
        CellIndexInBounds(width, height, row, col);
      }
    }

    /** `get_live_neighbor_count`: two nested loops over the row and column offsets. */
    method GetLiveNeighborCount(row: nat, col: nat) returns (count: nat)
      requires Valid()
      ensures count == LiveNeighbors(cells, width, height, row, col)
    {
      var rowOffsets := Offsets(height);
      var colOffsets := Offsets(width);
      count := 0;
      for i := 0 to 3
        invariant count == PartialCount(cells, width, height, row, col, i)
      {
        var dRow := rowOffsets[i];
        for j := 0 to 3
          invariant count == PartialCount(cells, width, height, row, col, i)
                           + RowCount(cells, width, height, row, col, dRow, j)
        {
          var dCol := colOffsets[j];
          if dRow == 0 && dCol == 0 {
            continue;
          }
          var newRow := (row + dRow) % height;
          var newCol := (col + dCol) % width;
          var index := GetCellIndex(newRow, newCol);
          SampleReads(cells, width, height, row, col, dRow, dCol);
          count := count + Weight(cells[index]);
        }
      }
    }

    /**
     * One pass of the outer loop of `tick`: the inner loop over the columns
     * of `row` writes the next state of each of its cells, computed from the
     * current buffer, into `next` at its index, and leaves the later rows as
     * they were. `spec` is the buffer all the writes of `tick` must produce;
     * the rows before `row` already hold it.
     */
    method FillRow(next: array<Cell>, row: nat, ghost spec: seq<Cell>)
      requires Valid() && next.Length == |cells| && row < height
      requires IsNextGeneration(spec, cells, width, height)
      requires forall i :: 0 <= i < row * width ==> next[i] == spec[i]
      modifies next
      ensures row * width + width <= next.Length
      ensures forall i :: 0 <= i < row * width + width ==> next[i] == spec[i]
      ensures forall i :: row * width + width <= i < next.Length ==> next[i] == old(next[i])
    {
      CellIndexInBounds(width, height, row, width - 1);
      ghost var start := row * width;
      for col := 0 to width
        invariant forall i :: 0 <= i < start + col ==> next[i] == spec[i]
        invariant forall i :: start + width <= i < next.Length ==> next[i] == old(next[i])
      {
        var index := GetCellIndex(row, col);
        assert index == start + col;
        var neighbors := GetLiveNeighborCount(row, col);
        var state := cells[index];
        var nextState := match (state, neighbors)
          case (Alive, 2) => Alive
          case (_, 3) => Alive
          case _ => Dead;
        assert nextState == spec[index] == NextState(state, neighbors);
        next[index] := nextState;
      }
    }

    /**
     * The two loops of `tick`: visit the cells row by row and write the
     * next state of each one into `next` at its index, so that `next` ends
     * up holding `spec`.
     */
    method FillNext(next: array<Cell>, ghost spec: seq<Cell>)
      requires Valid() && next.Length == |cells|
      requires IsNextGeneration(spec, cells, width, height)
      modifies next
      ensures next[..] == spec
    {
      for row := 0 to height
        invariant forall i :: 0 <= i < row * width ==> next[i] == spec[i]
      {
        FillRow(next, row, spec);
        assert (row + 1) * width == row * width + width;
      }
      assert height * width == |spec|;
    }

    /** `tick`: fill a fresh buffer from the current one, then make it the current buffer. */
    method Tick()
      requires Valid()
      modifies this
      ensures Valid()
      ensures width == old(width) && height == old(height)
      ensures cells == NextGeneration(old(cells), width, height)
    {
      var nextCells := new Cell[width * height](_ => Dead);
      NextGenerationIsNextGeneration(cells, width, height);
      FillNext(nextCells, NextGeneration(cells, width, height));
      cells := nextCells[..];
    }
  }
}
