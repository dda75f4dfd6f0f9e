/** Pure specification of the discrete Game-of-Life grid of src/grid.rs:
    flat row-major indexing, the 3x3 neighbour count in bounded and
    toroidal mode, the survival/birth/death rule, one full step of the
    grid and its text rendering. The class in grid.dfy is proved against
    these functions. */
module GridSpec {

  /** A cell value: an unsigned 8-bit integer (Rust `u8`). */
  type u8 = x: int | 0 <= x < 256

  /** The cells of a grid together with its shape and topology. */
  datatype Board = Board(cells: seq<u8>, rows: nat, cols: nat, toric: bool)
  {
    /** The flat buffer holds exactly one value per cell. */
    predicate Valid() {
      |cells| == rows * cols
    }

    /** Toroidal wrapping needs a last row and a last column to wrap to. */
    predicate Wrappable() {
      toric ==> rows > 0 && cols > 0
    }
  }

  /** Row-major flat offset of (row, col) in a grid with `cols` columns:
      `row` complete rows come first, then `col` cells of row `row`.
      IndexFormula shows this is row * cols + col; the recursive form keeps
      products of unknowns out of the proofs that only need offsets. */
  function Index(row: nat, col: nat, cols: nat): nat
  {
    if row == 0 then col else Index(row - 1, col, cols) + cols
  }

  lemma {:induction false} IndexFormula(row: nat, col: nat, cols: nat)
    ensures Index(row, col, cols) == row * cols + col
  {
    if row > 0 {
      IndexFormula(row - 1, col, cols);
      assert (row - 1) * cols + cols == row * cols;
    }
  }

  /** A cell counts as alive when its value is at least 1. */
  predicate Alive(v: u8)
  {
    v >= 1
  }

  lemma IndexInRange(row: nat, col: nat, rows: nat, cols: nat)
    requires row < rows && col < cols
    ensures Index(row, col, cols) < rows * cols
  {
    IndexFormula(row, col, cols);
    assert row * cols + cols == (row + 1) * cols;
    assert (row + 1) * cols <= rows * cols by {
      MulMonotone(row + 1, rows, cols);
    }
  }

  lemma MulMonotone(a: nat, b: nat, c: nat)
    requires a <= b
    ensures a * c <= b * c
  {
  }

  /** Offsets grow with the row for in-range columns. */
  lemma IndexRowOrder(r1: nat, c1: nat, r2: nat, c2: nat, cols: nat)
    requires r1 < r2 && c1 < cols
    ensures Index(r1, c1, cols) < Index(r2, c2, cols)
  {
    IndexFormula(r1, c1, cols);
    IndexFormula(r2, c2, cols);
    MulMonotone(r1 + 1, r2, cols);
    assert r1 * cols + cols == (r1 + 1) * cols;
  }

  /** Distinct in-range coordinates have distinct offsets. */
  lemma IndexInjective(r1: nat, c1: nat, r2: nat, c2: nat, cols: nat)
    requires c1 < cols && c2 < cols
    requires Index(r1, c1, cols) == Index(r2, c2, cols)
    ensures r1 == r2 && c1 == c2
  {
    if r1 < r2 {
      IndexRowOrder(r1, c1, r2, c2, cols);
    } else if r2 < r1 {
      IndexRowOrder(r2, c2, r1, c1, cols);
    }
  }

  /** The offset of a cell is the offset of its row's first cell plus its column. */
  lemma {:induction false} IndexShift(row: nat, col: nat, cols: nat)
    ensures Index(row, col, cols) == Index(row, 0, cols) + col
  {
    if row > 0 {
      IndexShift(row - 1, col, cols);
      IndexShift(row - 1, 0, cols);
    }
  }

  /** Each offset below Index(n, 0, cols) is the offset of a cell of rows 0 .. n-1. */
  lemma {:induction false} IndexOntoRows(k: nat, n: nat, cols: nat) returns (r: nat, c: nat)
    requires k < Index(n, 0, cols)
    ensures r < n && c < cols && Index(r, c, cols) == k
  {
    if k < Index(n - 1, 0, cols) {
      r, c := IndexOntoRows(k, n - 1, cols);
    } else {
      r, c := n - 1, k - Index(n - 1, 0, cols);
      IndexShift(n - 1, c, cols);
    }
  }

  /** Every offset below rows * cols is the offset of an in-range cell. */
  lemma IndexOnto(k: nat, rows: nat, cols: nat) returns (r: nat, c: nat)
    requires k < rows * cols
    ensures r < rows && c < cols && Index(r, c, cols) == k
  {
    IndexFormula(rows, 0, cols);
    r, c := IndexOntoRows(k, rows, cols);
  }

  /** The toroidal correction of one coordinate: a position before the
      first row (column) goes to the last one, a position at or past `n`
      goes to the first one, anything else is kept. */
  function Wrap(i: int, n: nat): int
  {
    if i < 0 then n - 1 else if i >= n then 0 else i
  }

  /** Whether the window slot (i, j) around (row, col) contributes one
      live neighbour. The centre is recognised on the UNWRAPPED
      coordinates, before any toroidal correction. */
  function Slot(b: Board, row: nat, col: nat, i: int, j: int): (n: nat)
    requires b.Valid() && b.Wrappable()
    requires row - 1 <= i <= row + 1 && col - 1 <= j <= col + 1
    ensures n <= 1
    ensures i == row && j == col ==> n == 0
  {
    if b.toric then
      var iw, jw := Wrap(i, b.rows), Wrap(j, b.cols);
      IndexInRange(iw, jw, b.rows, b.cols);
      if !(i == row && j == col) && Alive(b.cells[Index(iw, jw, b.cols)]) then 1 else 0
    else if 0 <= i < b.rows && 0 <= j < b.cols && !(i == row && j == col) then
      IndexInRange(i, j, b.rows, b.cols);
      if Alive(b.cells[Index(i, j, b.cols)]) then 1 else 0
    else
      0
  }

  /** Live neighbours found in window row i, slots col-1 .. j-1. */
  function RowCount(b: Board, row: nat, col: nat, i: int, j: int): nat
    requires b.Valid() && b.Wrappable()
    requires row - 1 <= i <= row + 1 && col - 1 <= j <= col + 2
    decreases j - col
  {
    if j == col - 1 then 0 else RowCount(b, row, col, i, j - 1) + Slot(b, row, col, i, j - 1)
  }

  /** Live neighbours found in window rows row-1 .. i-1. */
  function WindowCount(b: Board, row: nat, col: nat, i: int): nat
    requires b.Valid() && b.Wrappable()
    requires row - 1 <= i <= row + 2
    decreases i - row
  {
    if i == row - 1 then 0 else WindowCount(b, row, col, i - 1) + RowCount(b, row, col, i - 1, col + 2)
  }

  /** The number of live neighbours of (row, col): the whole 3x3 window. */
  function NeighborCount(b: Board, row: nat, col: nat): nat
    requires b.Valid() && b.Wrappable()
  {
    WindowCount(b, row, col, row + 2)
  }

  /** The count is the sum of the eight off-centre slots of the window. */
  lemma {:induction false} NeighborCountSlots(b: Board, row: nat, col: nat)
    requires b.Valid() && b.Wrappable()
    ensures NeighborCount(b, row, col)
         == Slot(b, row, col, row - 1, col - 1) + Slot(b, row, col, row - 1, col) + Slot(b, row, col, row - 1, col + 1)
          + Slot(b, row, col, row, col - 1) + Slot(b, row, col, row, col + 1)
          + Slot(b, row, col, row + 1, col - 1) + Slot(b, row, col, row + 1, col) + Slot(b, row, col, row + 1, col + 1)
  {
    forall i | row - 1 <= i <= row + 1
      ensures RowCount(b, row, col, i, col + 2)
           == Slot(b, row, col, i, col - 1) + Slot(b, row, col, i, col) + Slot(b, row, col, i, col + 1)
    {
      assert RowCount(b, row, col, i, col - 1) == 0;
      assert RowCount(b, row, col, i, col) == Slot(b, row, col, i, col - 1);
      assert RowCount(b, row, col, i, col + 1) == RowCount(b, row, col, i, col) + Slot(b, row, col, i, col);
    }
    assert WindowCount(b, row, col, row - 1) == 0;
    assert WindowCount(b, row, col, row) == RowCount(b, row, col, row - 1, col + 2);
    assert WindowCount(b, row, col, row + 1) == WindowCount(b, row, col, row) + RowCount(b, row, col, row, col + 2);
    assert NeighborCount(b, row, col) == WindowCount(b, row, col, row + 1) + RowCount(b, row, col, row + 1, col + 2);
    assert Slot(b, row, col, row, col) == 0;
  }

  /** A cell never has more than eight live neighbours. */
  lemma NeighborCountAtMostEight(b: Board, row: nat, col: nat)
    requires b.Valid() && b.Wrappable()
    ensures NeighborCount(b, row, col) <= 8
  {
    NeighborCountSlots(b, row, col);
  }

  /** Every slot that bounded mode counts is counted by toroidal mode too. */
  lemma SlotBoundedAtMostToric(b: Board, row: nat, col: nat, i: int, j: int)
    requires b.Valid() && b.rows > 0 && b.cols > 0
    requires row - 1 <= i <= row + 1 && col - 1 <= j <= col + 1
    ensures Slot(b.(toric := false), row, col, i, j) <= Slot(b.(toric := true), row, col, i, j)
  {
  }

  /** The bounded count never exceeds the toroidal count on the same cells. */
  lemma BoundedAtMostToric(b: Board, row: nat, col: nat)
    requires b.Valid() && b.rows > 0 && b.cols > 0
    ensures NeighborCount(b.(toric := false), row, col) <= NeighborCount(b.(toric := true), row, col)
  {
    var bb, bt := b.(toric := false), b.(toric := true);
    NeighborCountSlots(bb, row, col);
    NeighborCountSlots(bt, row, col);
    forall i, j | row - 1 <= i <= row + 1 && col - 1 <= j <= col + 1
      ensures Slot(bb, row, col, i, j) <= Slot(bt, row, col, i, j)
    {
      SlotBoundedAtMostToric(b, row, col, i, j);
    }
  }

  /** Away from the border the two topologies agree. */
  lemma InteriorTopologiesAgree(b: Board, row: nat, col: nat)
    requires b.Valid()
    requires 1 <= row && row + 1 < b.rows && 1 <= col && col + 1 < b.cols
    ensures NeighborCount(b.(toric := false), row, col) == NeighborCount(b.(toric := true), row, col)
  {
    var bb, bt := b.(toric := false), b.(toric := true);
    NeighborCountSlots(bb, row, col);
    NeighborCountSlots(bt, row, col);
  }

  /** Because the centre is excluded on unwrapped coordinates, on a 1x1
      torus a live cell is its own neighbour in all eight slots, while a
      bounded 1x1 grid has no neighbour at all. */
  lemma SingleCellTorusCountsItself(v: u8)
    requires Alive(v)
    ensures NeighborCount(Board([v], 1, 1, true), 0, 0) == 8
    ensures NeighborCount(Board([v], 1, 1, false), 0, 0) == 0
  {
    NeighborCountSlots(Board([v], 1, 1, true), 0, 0);
    NeighborCountSlots(Board([v], 1, 1, false), 0, 0);
  }

  /** A grid with no live cell gives every cell zero live neighbours. */
  lemma NoLiveCellNoNeighbor(b: Board, row: nat, col: nat)
    requires b.Valid() && b.Wrappable()
    requires forall k :: 0 <= k < |b.cells| ==> b.cells[k] == 0
    ensures NeighborCount(b, row, col) == 0
  {
    forall i, j | row - 1 <= i <= row + 1 && col - 1 <= j <= col + 1
      ensures Slot(b, row, col, i, j) == 0
    {
      SlotOfDeadGrid(b, row, col, i, j);
    }
    NeighborCountSlots(b, row, col);
  }

  lemma SlotOfDeadGrid(b: Board, row: nat, col: nat, i: int, j: int)
    requires b.Valid() && b.Wrappable()
    requires forall k :: 0 <= k < |b.cells| ==> b.cells[k] == 0
    requires row - 1 <= i <= row + 1 && col - 1 <= j <= col + 1
    ensures Slot(b, row, col, i, j) == 0
  {
    if b.toric {
      var iw, jw := Wrap(i, b.rows), Wrap(j, b.cols);
      IndexInRange(iw, jw, b.rows, b.cols);
      assert b.cells[Index(iw, jw, b.cols)] == 0;
    } else if 0 <= i < b.rows && 0 <= j < b.cols {
      IndexInRange(i, j, b.rows, b.cols);
      assert b.cells[Index(i, j, b.cols)] == 0;
    }
  }

  /** The discrete transition of one cell, literally as the source writes
      it: survival keeps the stored value but needs a value above 1;
      exactly three neighbours give value 1; anything else gives 0. */
  function Rule(cell: u8, neighbors: nat): (next: u8)
    ensures next == 0 || next == 1 || next == cell
    ensures Alive(next) <==> neighbors == 3 || (cell > 1 && neighbors == 2)
  {
    if cell > 1 && (neighbors == 2 || neighbors == 3) then cell
    else if neighbors == 3 then 1
    else 0
  }

  /** The next values of rows 0 .. n-1, row by row, each computed from
      the same prior board b. */
  function StepRows(b: Board, n: nat): (s: seq<u8>)
    requires b.Valid() && n <= b.rows
    ensures |s| == Index(n, 0, b.cols)
  {
    if n == 0 then []
    else
      StepRows(b, n - 1) + seq(b.cols, c requires 0 <= c < b.cols =>
        IndexInRange(n - 1, c, b.rows, b.cols);
        Rule(b.cells[Index(n - 1, c, b.cols)], NeighborCount(b, n - 1, c)))
  }

  /** One full step: every cell's next value from the same prior snapshot. */
  function Step(b: Board): (r: Board)
    requires b.Valid()
    ensures r.Valid() && r.rows == b.rows && r.cols == b.cols && r.toric == b.toric
  {
    IndexFormula(b.rows, 0, b.cols);
    b.(cells := StepRows(b, b.rows))
  }

  /** Reading cell (r, c) of the rows computed so far. */
  lemma {:induction false} StepRowsAt(b: Board, n: nat, r: nat, c: nat)
    requires b.Valid() && r < n <= b.rows && c < b.cols
    ensures Index(r, c, b.cols) < |StepRows(b, n)| && Index(r, c, b.cols) < |b.cells|
    ensures StepRows(b, n)[Index(r, c, b.cols)] == Rule(b.cells[Index(r, c, b.cols)], NeighborCount(b, r, c))
  {
    IndexInRange(r, c, b.rows, b.cols);
    IndexShift(r, c, b.cols);
    if r < n - 1 {
      StepRowsAt(b, n - 1, r, c);
      IndexRowOrder(r, c, n - 1, 0, b.cols);
    }
  }

  /** The step at an in-range coordinate applies the rule to that cell. */
  lemma StepAt(b: Board, row: nat, col: nat)
    requires b.Valid() && row < b.rows && col < b.cols
    ensures Index(row, col, b.cols) < |b.cells|
    ensures Step(b).cells[Index(row, col, b.cols)]
         == Rule(b.cells[Index(row, col, b.cols)], NeighborCount(b, row, col))
  {
    StepRowsAt(b, b.rows, row, col);
  }

  /** Buffer s holds the rule's value for in-range cell (r, c) of b. */
  predicate RuleAppliedAt(b: Board, s: seq<u8>, r: nat, c: nat)
    requires b.Valid() && |s| == |b.cells| && r < b.rows && c < b.cols
  {
    IndexInRange(r, c, b.rows, b.cols);
    s[Index(r, c, b.cols)] == Rule(b.cells[Index(r, c, b.cols)], NeighborCount(b, r, c))
  }

  /** A buffer that holds the rule's value at every in-range coordinate
      is the step. */
  lemma StepCharacterized(b: Board, s: seq<u8>)
    requires b.Valid() && |s| == |b.cells|
    requires forall r, c :: 0 <= r < b.rows && 0 <= c < b.cols ==> RuleAppliedAt(b, s, r, c)
    ensures s == Step(b).cells
  {
    forall k | 0 <= k < |s| ensures s[k] == Step(b).cells[k] {
      var r, c := IndexOnto(k, b.rows, b.cols);
      assert RuleAppliedAt(b, s, r, c);
      StepAt(b, r, c);
    }
  }

  /** A dead grid stays dead: no birth without three live neighbours. */
  lemma AllDeadStaysDead(b: Board)
    requires b.Valid()
    requires forall k :: 0 <= k < |b.cells| ==> b.cells[k] == 0
    ensures forall k :: 0 <= k < |Step(b).cells| ==> Step(b).cells[k] == 0
  {
    forall k | 0 <= k < |b.cells| ensures Step(b).cells[k] == 0 {
      var r, c := IndexOnto(k, b.rows, b.cols);
      StepAt(b, r, c);
      NoLiveCellNoNeighbor(b, r, c);
    }
  }

  /** Each new value is 0, 1, or the cell's previous value. */
  lemma StepValues(b: Board)
    requires b.Valid()
    ensures forall k :: 0 <= k < |b.cells| ==>
      Step(b).cells[k] == 0 || Step(b).cells[k] == 1 || Step(b).cells[k] == b.cells[k]
  {
    forall k | 0 <= k < |b.cells|
      ensures Step(b).cells[k] == 0 || Step(b).cells[k] == 1 || Step(b).cells[k] == b.cells[k]
    {
      var r, c := IndexOnto(k, b.rows, b.cols);
      StepAt(b, r, c);
    }
  }

  /** The toggled value of a cell: a live cell dies, a dead cell gets 1. */
  function Toggled(v: u8): (r: u8)
    ensures Alive(r) != Alive(v)
    ensures r <= 1
  {
    if v >= 1 then 0 else 1
  }

  /** Toggling twice restores the alive/dead classification, and restores
      the stored value exactly when that value was 0 or 1. */
  lemma ToggleTwice(v: u8)
    ensures Alive(Toggled(Toggled(v))) == Alive(v)
    ensures Toggled(Toggled(v)) == v <==> v <= 1
  {
  }

  // Text rendering

  /** U+25A0, the symbol of a live cell. */
  const LiveSymbol: char := '\U{25A0}'
  /** U+25A1, the symbol of a dead cell. */
  const DeadSymbol: char := '\U{25A1}'

  function Symbol(v: u8): char
  {
    if v >= 1 then LiveSymbol else DeadSymbol
  }

  /** The text of grid row r: one symbol per column, then a line break. */
  function Line(b: Board, r: nat): string
    requires b.Valid() && r < b.rows
  {
    seq(b.cols, c requires 0 <= c < b.cols =>
      IndexInRange(r, c, b.rows, b.cols);
      Symbol(b.cells[Index(r, c, b.cols)])) + "\n"
  }

  /** The text of grid rows 0 .. n-1. */
  function Render(b: Board, n: nat): string
    requires b.Valid() && n <= b.rows
  {
    if n == 0 then [] else Render(b, n - 1) + Line(b, n - 1)
  }

  /** Position of the first symbol of grid row r in the rendering. */
  function LineStart(r: nat, cols: nat): nat
  {
    r * (cols + 1)
  }

  lemma {:induction false} RenderLength(b: Board, n: nat)
    requires b.Valid() && n <= b.rows
    ensures |Render(b, n)| == LineStart(n, b.cols)
  {
    if n > 0 {
      RenderLength(b, n - 1);
      assert LineStart(n - 1, b.cols) + (b.cols + 1) == LineStart(n, b.cols);
    }
  }

  /** Position p of row r's text, read in the rendering of n > r rows. */
  lemma {:induction false} RenderAt(b: Board, n: nat, r: nat, p: nat)
    requires b.Valid() && r < n <= b.rows && p <= b.cols
    ensures LineStart(r, b.cols) + p < |Render(b, n)|
    ensures Render(b, n)[LineStart(r, b.cols) + p] == Line(b, r)[p]
  {
    RenderLength(b, n);
    RenderLength(b, n - 1);
    if r < n - 1 {
      RenderAt(b, n - 1, r, p);
    } else {
      assert Render(b, n) == Render(b, n - 1) + Line(b, r);
    }
  }

  /** Column c of row r in the rendering is that cell's symbol. */
  lemma RenderSymbolAt(b: Board, n: nat, r: nat, c: nat)
    requires b.Valid() && r < n <= b.rows && c < b.cols
    ensures Index(r, c, b.cols) < |b.cells|
    ensures LineStart(r, b.cols) + c < |Render(b, n)|
    ensures Render(b, n)[LineStart(r, b.cols) + c] == Symbol(b.cells[Index(r, c, b.cols)])
  {
    IndexInRange(r, c, b.rows, b.cols);
    RenderAt(b, n, r, c);
    assert Line(b, r)[c] == Symbol(b.cells[Index(r, c, b.cols)]);
  }

  /** The rendering of n rows is n lines of `cols` symbols each: row r
      occupies positions LineStart(r) .. LineStart(r) + cols, its last one a
      line break, and the symbol at column c says whether that cell lives. */
  lemma RenderLayout(b: Board, n: nat)
    requires b.Valid() && n <= b.rows
    ensures |Render(b, n)| == n * (b.cols + 1)
    ensures forall r, c :: 0 <= r < n && 0 <= c < b.cols ==>
      Index(r, c, b.cols) < |b.cells| && LineStart(r, b.cols) + c < |Render(b, n)| &&
      Render(b, n)[LineStart(r, b.cols) + c] == Symbol(b.cells[Index(r, c, b.cols)])
    ensures forall r :: 0 <= r < n ==>
      LineStart(r, b.cols) + b.cols < |Render(b, n)| &&
      Render(b, n)[LineStart(r, b.cols) + b.cols] == '\n'
  {
    RenderLength(b, n);
    forall r, c | 0 <= r < n && 0 <= c < b.cols
      ensures Index(r, c, b.cols) < |b.cells| && LineStart(r, b.cols) + c < |Render(b, n)|
      ensures Render(b, n)[LineStart(r, b.cols) + c] == Symbol(b.cells[Index(r, c, b.cols)])
    {
      RenderSymbolAt(b, n, r, c);
    }
    forall r | 0 <= r < n
      ensures LineStart(r, b.cols) + b.cols < |Render(b, n)|
      ensures Render(b, n)[LineStart(r, b.cols) + b.cols] == '\n'
    {
      RenderAt(b, n, r, b.cols);
      assert Line(b, r)[b.cols] == '\n';
    }
  }
}
