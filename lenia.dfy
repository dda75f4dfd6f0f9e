/** The Lenia grid of src/lenia.rs: two flat cell buffers like the
    Game-of-Life grid, plus a convolution filter, the cached number of
    its entries equal to 1, a growth function and a value-to-colour
    mapping. The convolution, the update and the default growth and
    colour functions live outside this model; growth and colour are kept
    as function values the caller supplies. */
module Lenia {
  import opened GridSpec

  /** A colour as four components: red, green, blue and alpha. */
  datatype Color = Color(r: real, g: real, b: real, a: real)

  /** The default ring filter: the eight cells around the centre. */
  const RingFilter: seq<u8> := [1, 1, 1,
                                1, 0, 1,
                                1, 1, 1]

  /** The number of filter entries equal to exactly 1; any other weight,
      zero or not, is not counted. */
  function CountOnes(f: seq<u8>): (n: nat)
    ensures n <= |f|
  {
    if |f| == 0 then 0 else CountOnes(f[..|f| - 1]) + (if f[|f| - 1] == 1 then 1 else 0)
  }

  /** The count is the multiplicity of 1 in the filter. */
  lemma {:induction false} CountOnesMultiplicity(f: seq<u8>)
    ensures CountOnes(f) == multiset(f)[1]
  {
    if |f| > 0 {
      CountOnesMultiplicity(f[..|f| - 1]);
      assert f == f[..|f| - 1] + [f[|f| - 1]];
    }
  }

  /** Counting distributes over concatenation. */
  lemma {:induction false} CountOnesAppend(a: seq<u8>, b: seq<u8>)
    ensures CountOnes(a + b) == CountOnes(a) + CountOnes(b)
  {
    if |b| > 0 {
      CountOnesAppend(a, b[..|b| - 1]);
      assert (a + b)[..|a + b| - 1] == a + b[..|b| - 1];
    } else {
      assert a + b == a;
    }
  }

  /** A filter has no counted neighbour exactly when no entry equals 1. */
  lemma {:induction false} CountOnesZero(f: seq<u8>)
    ensures CountOnes(f) == 0 <==> forall k :: 0 <= k < |f| ==> f[k] != 1
  {
    if |f| > 0 {
      CountOnesZero(f[..|f| - 1]);
      assert forall k :: 0 <= k < |f| - 1 ==> f[..|f| - 1][k] == f[k];
    }
  }

  /** The ring filter counts eight neighbours. */
  lemma RingFilterCount()
    ensures CountOnes(RingFilter) == 8 && |RingFilter| == 9
  {
    CountOnesMultiplicity(RingFilter);
  }

  class LeniaGrid {
    /** The current generation, row-major. */
    var current: array<u8>
    /** The scratch buffer of the update. */
    var next: array<u8>
    const rows: nat
    const cols: nat
    /** Whether opposite borders are connected. */
    const toricgrid: bool
    /** The convolution weights. */
    var filter: seq<u8>
    /** The number of entries of filter equal to 1. */
    var neighborsFilter: nat
    var growthFunction: u8 -> u8
    var cellValueColorMapper: u8 -> Color

    /** Both buffers hold one value per cell and are distinct, and the
        cached count matches the filter and is positive. */
    ghost predicate Valid()
      reads this
    {
      && current.Length == rows * cols && next.Length == rows * cols && current != next
      && neighborsFilter == CountOnes(filter) && neighborsFilter > 0
    }

    /** A grid of dead cells with the ring filter and the given default
        growth and colour functions. */
    constructor New(rows: nat, cols: nat, toricgrid: bool,
                    defaultGrowth: u8 -> u8, defaultColor: u8 -> Color)
      ensures Valid() && fresh(current) && fresh(next)
      ensures this.rows == rows && this.cols == cols && this.toricgrid == toricgrid
      ensures forall k :: 0 <= k < current.Length ==> current[k] == 0
      ensures forall k :: 0 <= k < next.Length ==> next[k] == 0
      ensures filter == RingFilter && neighborsFilter == 8
      ensures growthFunction == defaultGrowth && cellValueColorMapper == defaultColor
    {
      this.rows, this.cols, this.toricgrid := rows, cols, toricgrid;
      current := new u8[rows * cols](_ => 0);
      next := new u8[rows * cols](_ => 0);
      filter := RingFilter;
      neighborsFilter := 8;
      growthFunction := defaultGrowth;
      cellValueColorMapper := defaultColor;
      RingFilterCount();
    }

    /** A grid whose cells each hold an arbitrary value from 0 to 254. */
    constructor NewRandom(rows: nat, cols: nat, toricgrid: bool,
                          defaultGrowth: u8 -> u8, defaultColor: u8 -> Color)
      ensures Valid() && fresh(current) && fresh(next)
      ensures this.rows == rows && this.cols == cols && this.toricgrid == toricgrid
      ensures forall k :: 0 <= k < current.Length ==> current[k] < 255
      ensures forall k :: 0 <= k < next.Length ==> next[k] == 0
      ensures filter == RingFilter && neighborsFilter == 8
      ensures growthFunction == defaultGrowth && cellValueColorMapper == defaultColor
    {
      var cells: seq<u8> := [];
      while |cells| < rows * cols
        invariant |cells| <= rows * cols
        invariant forall k :: 0 <= k < |cells| ==> cells[k] < 255
      {
        var cellState: u8 :| cellState < 255;
        cells := cells + [cellState];
      }
      this.rows, this.cols, this.toricgrid := rows, cols, toricgrid;
      current := new u8[rows * cols](k requires 0 <= k < rows * cols => cells[k]);
      next := new u8[rows * cols](_ => 0);
      filter := RingFilter;
      neighborsFilter := 8;
      growthFunction := defaultGrowth;
      cellValueColorMapper := defaultColor;
      RingFilterCount();
    }

    /** A grid holding the given cells verbatim; their number must be
        rows * cols. */
    constructor FromVect(cels: seq<u8>, rows: nat, cols: nat, toricgrid: bool,
                         defaultGrowth: u8 -> u8, defaultColor: u8 -> Color)
      requires |cels| == rows * cols
      ensures Valid() && fresh(current) && fresh(next)
      ensures this.rows == rows && this.cols == cols && this.toricgrid == toricgrid
      ensures current[..] == cels
      ensures forall k :: 0 <= k < next.Length ==> next[k] == 0
      ensures filter == RingFilter && neighborsFilter == 8
      ensures growthFunction == defaultGrowth && cellValueColorMapper == defaultColor
    {
      this.rows, this.cols, this.toricgrid := rows, cols, toricgrid;
      current := new u8[rows * cols](k requires 0 <= k < rows * cols => cels[k]);
      next := new u8[rows * cols](_ => 0);
      filter := RingFilter;
      neighborsFilter := 8;
      growthFunction := defaultGrowth;
      cellValueColorMapper := defaultColor;
      RingFilterCount();
    }

    /** Replaces the filter, recounting its entries equal to 1; a filter
        without any is refused. Nothing else changes. */
    method SetFilter(newFilter: seq<u8>)
      requires Valid() && CountOnes(newFilter) > 0
      modifies this`filter, this`neighborsFilter
      ensures Valid()
      ensures filter == newFilter && neighborsFilter == CountOnes(newFilter)
    {
      var countNeighbors: nat := 0;
      var k := 0;
      while k < |newFilter|
        invariant 0 <= k <= |newFilter|
        invariant countNeighbors == CountOnes(newFilter[..k])
      {
        assert newFilter[..k + 1][..k] == newFilter[..k];
        if newFilter[k] == 1 {
          countNeighbors := countNeighbors + 1;
        }
        k := k + 1;
      }
      assert newFilter[..k] == newFilter;
      neighborsFilter := countNeighbors;
      filter := newFilter;
    }

    /** Replaces the growth function only. */
    method SetGrowthFunction(growth: u8 -> u8)
      requires Valid()
      modifies this`growthFunction
      ensures Valid() && growthFunction == growth
    {
      growthFunction := growth;
    }

    /** Replaces the colour mapping only. */
    method SetCellValueColorMapper(mapper: u8 -> Color)
      requires Valid()
      modifies this`cellValueColorMapper
      ensures Valid() && cellValueColorMapper == mapper
    {
      cellValueColorMapper := mapper;
    }

    /** The number of rows fixed at construction; with the column count it
        sizes the buffer. */
    function Rows(): (r: nat)
      reads this
      requires Valid()
      ensures r == rows && r * cols == current.Length
    {
      rows
    }

    /** The number of columns fixed at construction. */
    function Cols(): (c: nat)
      reads this
      requires Valid()
      ensures c == cols && rows * c == current.Length
    {
      cols
    }

    /** The topology fixed at construction. */
    function IsToricgrid(): (t: bool)
      ensures t == toricgrid
    {
      toricgrid
    }

    /** The current generation as a value, one entry per cell. */
    function CurrentCells(): (cells: seq<u8>)
      reads this, current
      requires Valid()
      ensures |cells| == rows * cols
      ensures forall k :: 0 <= k < |cells| ==> cells[k] == current[k]
    {
      current[..]
    }
  }

  /** Setting a filter that counts only weight-1 entries: a filter of
      twos is refused, one 1 among other weights counts once. */
  lemma FilterWeightsExample()
    ensures CountOnes([2, 2, 2, 2, 0, 2, 2, 2, 2]) == 0
    ensures CountOnes([2, 2, 2, 2, 0, 2, 2, 1, 2]) == 1
  {
    CountOnesMultiplicity([2, 2, 2, 2, 0, 2, 2, 2, 2]);
    CountOnesMultiplicity([2, 2, 2, 2, 0, 2, 2, 1, 2]);
  }

  /** A client's sequence of configuration calls: the cells survive every
      setter, the filter and its count survive the function setters, and
      the colour mapping set first survives the growth-function setter. */
  method ConfigurationScenario(growth: u8 -> u8, color: u8 -> Color, newColor: u8 -> Color, cels: seq<u8>)
    returns (cells: seq<u8>, count: nat, weights: seq<u8>, mapper: u8 -> Color)
    requires |cels| == 6
    ensures cells == cels && count == 1 && weights == [0, 1, 0, 0, 0, 0, 0, 0, 0]
    ensures mapper == newColor
  {
    var grid := new LeniaGrid.FromVect(cels, 2, 3, true, growth, color);
    CountOnesMultiplicity([0, 1, 0, 0, 0, 0, 0, 0, 0]);
    grid.SetFilter([0, 1, 0, 0, 0, 0, 0, 0, 0]);
    grid.SetCellValueColorMapper(newColor);
    grid.SetGrowthFunction(x => x);
    cells := grid.CurrentCells();
    count := grid.neighborsFilter;
    weights := grid.filter;
    mapper := grid.cellValueColorMapper;
  }
}
