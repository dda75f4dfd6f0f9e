/** The Game-of-Life grid of src/grid.rs as a class: two flat cell buffers
    of length rows * cols, fixed dimensions and topology, in-place cell
    writes, and a step that fills the scratch buffer from the current one
    and then swaps the two buffers. */
module GridLife {
  import opened GridSpec

  class Grid {
    /** The current generation, row-major. */
    var current: array<u8>
    /** The scratch buffer the next generation is written to. */
    var next: array<u8>
    const rows: nat
    const cols: nat
    /** Whether opposite borders are connected. */
    const toricgrid: bool

    /** Both buffers hold one value per cell and are distinct arrays. */
    ghost predicate Valid()
      reads this
    {
      current.Length == rows * cols && next.Length == rows * cols && current != next
    }

    /** The current generation as a value. */
    ghost function Model(): (b: Board)
      reads this, current
      requires Valid()
      ensures b.Valid()
    {
      Board(current[..], rows, cols, toricgrid)
    }

    /** A grid of dead cells. */
    constructor New(rows: nat, cols: nat, toricgrid: bool)
      ensures Valid() && fresh(current) && fresh(next)
      ensures this.rows == rows && this.cols == cols && this.toricgrid == toricgrid
      ensures forall k :: 0 <= k < current.Length ==> current[k] == 0
      ensures forall k :: 0 <= k < next.Length ==> next[k] == 0
    {
      this.rows, this.cols, this.toricgrid := rows, cols, toricgrid;
      current := new u8[rows * cols](_ => 0);
      next := new u8[rows * cols](_ => 0);
    }

    /** A grid whose cells are each 0 or 1, chosen arbitrarily. */
    constructor NewRandom(rows: nat, cols: nat, toricgrid: bool)
      ensures Valid() && fresh(current) && fresh(next)
      ensures this.rows == rows && this.cols == cols && this.toricgrid == toricgrid
      ensures forall k :: 0 <= k < current.Length ==> current[k] <= 1
      ensures forall k :: 0 <= k < next.Length ==> next[k] == 0
    {
      var cells: seq<u8> := [];
      while |cells| < rows * cols
        invariant |cells| <= rows * cols
        invariant forall k :: 0 <= k < |cells| ==> cells[k] <= 1
      {
        var state: u8 :| state <= 1;
        cells := cells + [state];
      }
      this.rows, this.cols, this.toricgrid := rows, cols, toricgrid;
      current := new u8[rows * cols](k requires 0 <= k < rows * cols => cells[k]);
      next := new u8[rows * cols](_ => 0);
    }

    /** The number of rows fixed at construction; with the column count it
        sizes the buffer. */
    function Rows(): (r: nat)
      reads this
      requires Valid()
      ensures r == rows && r * cols == current.Length
    {
      rows
    }

    /** The number of columns fixed at construction. */
    function Cols(): (c: nat)
      reads this
      requires Valid()
      ensures c == cols && rows * c == current.Length
    {
      cols
    }

    /** The topology fixed at construction. */
    function IsToricgrid(): (t: bool)
      ensures t == toricgrid
    {
      toricgrid
    }

    /** The current generation as a value, one entry per cell. */
    function CurrentCells(): (cells: seq<u8>)
      reads this, current
      requires Valid()
      ensures |cells| == rows * cols && cells == Model().cells
    {
      current[..]
    }

    /** Overwrites one cell; every other cell keeps its value. The flat
        offset only has to fall inside the buffer. */
    method SetCellState(row: nat, col: nat, alive: u8)
      requires Valid() && Index(row, col, cols) < current.Length
      modifies current
      ensures Valid()
      ensures current[..] == old(current[..])[Index(row, col, cols) := alive]
      ensures IsAlive(row, col) == Alive(alive)
    {
      current[Index(row, col, cols)] := alive;
    }

    /** Kills a live cell, or gives a dead cell the value 1. */
    method ToggleCellState(row: nat, col: nat)
      requires Valid() && Index(row, col, cols) < current.Length
      modifies current
      ensures Valid()
      ensures current[..] == old(current[..])[Index(row, col, cols) := Toggled(old(current[Index(row, col, cols)]))]
      ensures IsAlive(row, col) != old(IsAlive(row, col))
    {
      var index := Index(row, col, cols);
      current[index] := if current[index] >= 1 then 0 else 1;
    }

    /** Whether the cell's value is non-zero. */
    function IsAlive(row: nat, col: nat): (alive: bool)
      reads this, current
      requires Valid() && Index(row, col, cols) < current.Length
      ensures alive <==> current[Index(row, col, cols)] != 0
    {
      current[Index(row, col, cols)] >= 1
    }

    /** Whether window slot (i, j) of (row, col) holds a live neighbour:
        wrapped to the opposite border on a torus, skipped when off the
        grid otherwise, and never the cell itself. */
    method SlotCount(row: nat, col: nat, i: int, j: int) returns (n: nat)
      requires Valid()
      requires toricgrid ==> rows > 0 && cols > 0
      requires row - 1 <= i <= row + 1 && col - 1 <= j <= col + 1
      ensures n == Slot(Model(), row, col, i, j)
    {
      n := 0;
      if toricgrid {
        var iWrapped, jWrapped := i, j;
        if iWrapped < 0 {
          iWrapped := rows - 1;
        } else if iWrapped >= rows {
          iWrapped := 0;
        }
        if jWrapped < 0 {
          jWrapped := cols - 1;
        } else if jWrapped >= cols {
          jWrapped := 0;
        }
        IndexInRange(iWrapped, jWrapped, rows, cols);
        var index := Index(iWrapped, jWrapped, cols);
        if !(i == row && j == col) && current[index] >= 1 {
          n := 1;
        }
      } else {
        if i >= 0 && i < rows && j >= 0 && j < cols && !(i == row && j == col) {
          IndexInRange(i, j, rows, cols);
          var index := Index(i, j, cols);
          if current[index] >= 1 {
            n := 1;
          }
        }
      }
    }

    /** Live neighbours of (row, col) over the 3x3 window, scanned row by row. */
    method CountNeighbors(row: nat, col: nat) returns (count: nat)
      requires Valid()
      requires toricgrid ==> rows > 0 && cols > 0
      ensures count == NeighborCount(Model(), row, col)
    {
      ghost var b := Model();
      count := 0;
      var i: int := row - 1;
      while i <= row + 1
        invariant row - 1 <= i <= row + 2
        invariant count == WindowCount(b, row, col, i)
      {
        var j: int := col - 1;
        while j <= col + 1
          invariant col - 1 <= j <= col + 2
          invariant count == WindowCount(b, row, col, i) + RowCount(b, row, col, i, j)
        {
          var n := SlotCount(row, col, i, j);
          count := count + n;
          j := j + 1;
        }
        i := i + 1;
      }
    }

    /** One generation: every next value is computed from the unchanged
        current buffer, then the two buffers trade places. */
    method Update()
      requires Valid()
      modifies this, current, next
      ensures Valid()
      ensures current == old(next) && next == old(current)
      ensures next[..] == old(current[..])
      ensures Model() == Step(old(Model()))
    {
      ghost var b := Model();
      var row := 0;
      while row < rows
        invariant 0 <= row <= rows
        invariant Valid() && current == old(current) && next == old(next)
        invariant current[..] == b.cells
        invariant forall r, c :: 0 <= r < row && 0 <= c < cols ==> RuleAppliedAt(b, next[..], r, c)
      {
        var col := 0;
        while col < cols
          invariant 0 <= col <= cols
          invariant Valid() && current == old(current) && next == old(next)
          invariant current[..] == b.cells
          invariant forall r, c :: 0 <= r < row && 0 <= c < cols ==> RuleAppliedAt(b, next[..], r, c)
          invariant forall c :: 0 <= c < col ==> RuleAppliedAt(b, next[..], row, c)
        {
          IndexInRange(row, col, rows, cols);
          var index := Index(row, col, cols);
          var neighborsCount := CountNeighbors(row, col);
          ghost var before := next[..];
          next[index] := Rule(current[index], neighborsCount);
          forall r, c | 0 <= r < rows && 0 <= c < cols && (r < row || (r == row && c < col))
            ensures RuleAppliedAt(b, next[..], r, c)
          {
            assert RuleAppliedAt(b, before, r, c);
            IndexInRange(r, c, rows, cols);
            assert Index(r, c, cols) != index by {
              if r < row {
                IndexRowOrder(r, c, row, col, cols);
              } else {
                IndexShift(r, c, cols);
                IndexShift(row, col, cols);
              }
            }
          }
          col := col + 1;
        }
        row := row + 1;
      }
      StepCharacterized(b, next[..]);
      current, next := next, current;
    }

    /** The text form: one line per row, one symbol per cell. */
    method Fmt() returns (s: string)
      requires Valid()
      ensures s == Render(Model(), rows)
    {
      ghost var b := Model();
      s := [];
      var row := 0;
      while row < rows
        invariant 0 <= row <= rows
        invariant s == Render(b, row)
      {
        var col := 0;
        while col < cols
          invariant 0 <= col <= cols
          invariant s == Render(b, row) + Line(b, row)[..col]
        {
          IndexInRange(row, col, rows, cols);
          var index := Index(row, col, cols);
          var symbol := if current[index] >= 1 then LiveSymbol else DeadSymbol;
          s := s + [symbol];
          col := col + 1;
        }
        s := s + "\n";
        row := row + 1;
      }
    }
  }

  // Client scenarios: the unit tests and documentation examples of
  // src/grid.rs, proved from the contracts above.

  /** The unit-test board: a 3x3 grid with (0,1) and (2,1) at value 1. */
  lemma TestBoardCounts(toric: bool)
    ensures var b := Board([0, 1, 0, 0, 0, 0, 0, 1, 0], 3, 3, toric);
      && NeighborCount(b, 1, 1) == 2
      && NeighborCount(b, 0, 0) == (if toric then 2 else 1)
      && NeighborCount(b, 2, 2) == (if toric then 2 else 1)
  {
    var b := Board([0, 1, 0, 0, 0, 0, 0, 1, 0], 3, 3, toric);
    NeighborCountSlots(b, 1, 1);
    NeighborCountSlots(b, 0, 0);
    NeighborCountSlots(b, 2, 2);
  }

  /** test_count_neighbors_toricgrid_enabled and _disabled. */
  method NeighborCountScenario(toric: bool) returns (center: nat, topLeft: nat, bottomRight: nat)
    ensures center == 2
    ensures topLeft == (if toric then 2 else 1) && bottomRight == (if toric then 2 else 1)
  {
    var grid := new Grid.New(3, 3, toric);
    grid.SetCellState(0, 1, 1);
    grid.SetCellState(2, 1, 1);
    assert grid.Model().cells == [0, 1, 0, 0, 0, 0, 0, 1, 0];
    center := grid.CountNeighbors(1, 1);
    topLeft := grid.CountNeighbors(0, 0);
    bottomRight := grid.CountNeighbors(2, 2);
    TestBoardCounts(toric);
  }

  /** The documented flat offset of (2, 2) in a grid of three columns. */
  lemma IndexExample()
    ensures Index(2, 2, 3) == 8
  {
    IndexFormula(2, 2, 3);
  }

  /** The documented query, set, clear and toggle examples on a 3x3 torus. */
  method CellStateExamples() returns (freshAlive: bool, setAlive: bool, clearedAlive: bool, toggledAlive: bool)
    ensures !freshAlive && setAlive && !clearedAlive && toggledAlive
  {
    var grid := new Grid.New(3, 3, true);
    freshAlive := grid.IsAlive(0, 0);
    grid.SetCellState(1, 1, 1);
    setAlive := grid.IsAlive(1, 1);
    grid.SetCellState(1, 1, 0);
    clearedAlive := grid.IsAlive(1, 1);

    var other := new Grid.New(3, 3, true);
    other.ToggleCellState(1, 1);
    toggledAlive := other.IsAlive(1, 1);
  }

  /** The documented count example: a fresh torus has no live neighbour
      around (1, 1), even after an update, and one after (1, 0) is set. */
  method CountExample() returns (neighborsBefore: nat, neighborsAfter: nat)
    ensures neighborsBefore == 0 && neighborsAfter == 1
  {
    var grid := new Grid.New(3, 3, true);
    ghost var b := grid.Model();
    AllDeadStaysDead(b);
    grid.Update();
    NoLiveCellNoNeighbor(grid.Model(), 1, 1);
    neighborsBefore := grid.CountNeighbors(1, 1);
    grid.SetCellState(1, 0, 1);
    ghost var after := grid.Model();
    assert after.cells == [0, 0, 0, 1, 0, 0, 0, 0, 0] by {
      var s := after.cells;
      assert s == [s[0], s[1], s[2], s[3], s[4], s[5], s[6], s[7], s[8]];
    }
    NeighborCountSlots(after, 1, 1);
    neighborsAfter := grid.CountNeighbors(1, 1);
  }

  /** Neighbour counts on a bounded 3x3 board whose middle row is 1, m, 1
      with m live. */
  lemma BlinkerCounts(m: u8)
    requires m >= 1
    ensures var b := Board([0, 0, 0, 1, m, 1, 0, 0, 0], 3, 3, false);
      && NeighborCount(b, 0, 0) == 2 && NeighborCount(b, 0, 1) == 3 && NeighborCount(b, 0, 2) == 2
      && NeighborCount(b, 1, 0) == 1 && NeighborCount(b, 1, 1) == 2 && NeighborCount(b, 1, 2) == 1
      && NeighborCount(b, 2, 0) == 2 && NeighborCount(b, 2, 1) == 3 && NeighborCount(b, 2, 2) == 2
  {
    var b := Board([0, 0, 0, 1, m, 1, 0, 0, 0], 3, 3, false);
    NeighborCountSlots(b, 0, 0); NeighborCountSlots(b, 0, 1); NeighborCountSlots(b, 0, 2);
    NeighborCountSlots(b, 1, 0); NeighborCountSlots(b, 1, 1); NeighborCountSlots(b, 1, 2);
    NeighborCountSlots(b, 2, 0); NeighborCountSlots(b, 2, 1); NeighborCountSlots(b, 2, 2);
  }

  /** Step on that board: the row turns into a column, and the centre keeps
      its value only when it exceeds 1. */
  lemma BlinkerSteps(m: u8)
    requires m >= 1
    ensures Step(Board([0, 0, 0, 1, m, 1, 0, 0, 0], 3, 3, false)).cells
         == [0, 1, 0, 0, if m > 1 then m else 0, 0, 0, 1, 0]
  {
    var b := Board([0, 0, 0, 1, m, 1, 0, 0, 0], 3, 3, false);
    BlinkerCounts(m);
    StepAt(b, 0, 0); StepAt(b, 0, 1); StepAt(b, 0, 2);
    StepAt(b, 1, 0); StepAt(b, 1, 1); StepAt(b, 1, 2);
    StepAt(b, 2, 0); StepAt(b, 2, 1); StepAt(b, 2, 2);
    var s := Step(b).cells;
    assert s == [s[0], s[1], s[2], s[3], s[4], s[5], s[6], s[7], s[8]];
  }

  /** Neighbour counts on a bounded 3x3 board whose middle column is 1, m, 1
      with m live. */
  lemma VerticalBlinkerCounts(m: u8)
    requires m >= 1
    ensures var b := Board([0, 1, 0, 0, m, 0, 0, 1, 0], 3, 3, false);
      && NeighborCount(b, 0, 0) == 2 && NeighborCount(b, 0, 1) == 1 && NeighborCount(b, 0, 2) == 2
      && NeighborCount(b, 1, 0) == 3 && NeighborCount(b, 1, 1) == 2 && NeighborCount(b, 1, 2) == 3
      && NeighborCount(b, 2, 0) == 2 && NeighborCount(b, 2, 1) == 1 && NeighborCount(b, 2, 2) == 2
  {
    var b := Board([0, 1, 0, 0, m, 0, 0, 1, 0], 3, 3, false);
    NeighborCountSlots(b, 0, 0); NeighborCountSlots(b, 0, 1); NeighborCountSlots(b, 0, 2);
    NeighborCountSlots(b, 1, 0); NeighborCountSlots(b, 1, 1); NeighborCountSlots(b, 1, 2);
    NeighborCountSlots(b, 2, 0); NeighborCountSlots(b, 2, 1); NeighborCountSlots(b, 2, 2);
  }

  /** Step on the column: it turns back into a row when the centre exceeds 1. */
  lemma VerticalBlinkerSteps(m: u8)
    requires m > 1
    ensures Step(Board([0, 1, 0, 0, m, 0, 0, 1, 0], 3, 3, false)).cells == [0, 0, 0, 1, m, 1, 0, 0, 0]
  {
    var b := Board([0, 1, 0, 0, m, 0, 0, 1, 0], 3, 3, false);
    VerticalBlinkerCounts(m);
    StepAt(b, 0, 0); StepAt(b, 0, 1); StepAt(b, 0, 2);
    StepAt(b, 1, 0); StepAt(b, 1, 1); StepAt(b, 1, 2);
    StepAt(b, 2, 0); StepAt(b, 2, 1); StepAt(b, 2, 2);
    var s := Step(b).cells;
    assert s == [s[0], s[1], s[2], s[3], s[4], s[5], s[6], s[7], s[8]];
  }

  /** Neighbour counts for two live cells two apart in a column: no cell
      sees three, and each live cell sees none. */
  lemma SeparatedPairCounts(top: u8, bottom: u8)
    requires top >= 1 && bottom >= 1
    ensures var b := Board([0, top, 0, 0, 0, 0, 0, bottom, 0], 3, 3, false);
      && NeighborCount(b, 0, 0) == 1 && NeighborCount(b, 0, 1) == 0 && NeighborCount(b, 0, 2) == 1
      && NeighborCount(b, 1, 0) == 2 && NeighborCount(b, 1, 1) == 2 && NeighborCount(b, 1, 2) == 2
      && NeighborCount(b, 2, 0) == 1 && NeighborCount(b, 2, 1) == 0 && NeighborCount(b, 2, 2) == 1
  {
    var b := Board([0, top, 0, 0, 0, 0, 0, bottom, 0], 3, 3, false);
    NeighborCountSlots(b, 0, 0); NeighborCountSlots(b, 0, 1); NeighborCountSlots(b, 0, 2);
    NeighborCountSlots(b, 1, 0); NeighborCountSlots(b, 1, 1); NeighborCountSlots(b, 1, 2);
    NeighborCountSlots(b, 2, 0); NeighborCountSlots(b, 2, 1); NeighborCountSlots(b, 2, 2);
  }

  /** Two live cells two apart in a column both die, and nothing is born. */
  lemma SeparatedPairDies(top: u8, bottom: u8)
    requires top >= 1 && bottom >= 1
    ensures Step(Board([0, top, 0, 0, 0, 0, 0, bottom, 0], 3, 3, false)).cells
         == [0, 0, 0, 0, 0, 0, 0, 0, 0]
  {
    var b := Board([0, top, 0, 0, 0, 0, 0, bottom, 0], 3, 3, false);
    SeparatedPairCounts(top, bottom);
    StepAt(b, 0, 0); StepAt(b, 0, 1); StepAt(b, 0, 2);
    StepAt(b, 1, 0); StepAt(b, 1, 1); StepAt(b, 1, 2);
    StepAt(b, 2, 0); StepAt(b, 2, 1); StepAt(b, 2, 2);
    var s := Step(b).cells;
    assert s == [s[0], s[1], s[2], s[3], s[4], s[5], s[6], s[7], s[8]];
  }

  /** Two consecutive updates of a blinker: the second reads what the first
      wrote. With a centre above 1 the pattern oscillates; with a centre of
      exactly 1 the centre dies on the first step (the survival threshold is
      "greater than 1") and the grid is dead after the second. */
  method BlinkerScenario(m: u8) returns (first: seq<u8>, second: seq<u8>)
    requires m >= 1
    ensures first == [0, 1, 0, 0, if m > 1 then m else 0, 0, 0, 1, 0]
    ensures second == if m > 1 then [0, 0, 0, 1, m, 1, 0, 0, 0] else [0, 0, 0, 0, 0, 0, 0, 0, 0]
  {
    var grid := new Grid.New(3, 3, false);
    grid.SetCellState(1, 0, 1);
    grid.SetCellState(1, 1, m);
    grid.SetCellState(1, 2, 1);
    ghost var start := grid.Model();
    assert start.cells == [0, 0, 0, 1, m, 1, 0, 0, 0] by {
      var s := start.cells;
      assert s == [s[0], s[1], s[2], s[3], s[4], s[5], s[6], s[7], s[8]];
    }
    BlinkerSteps(m);
    grid.Update();
    first := grid.CurrentCells();
    if m > 1 {
      VerticalBlinkerSteps(m);
    } else {
      SeparatedPairDies(1, 1);
    }
    grid.Update();
    second := grid.CurrentCells();
  }
}
