# lifers core in Dafny

This project models the cellular-automaton core of *lifers*, a Rust Game
of Life with a Lenia variant, and proves properties of that model.

- **Game-of-Life grid** (`src/grid.rs`). A grid has `rows` by `cols` cells of
  type `u8`. They are stored row-major in a flat buffer `current_cells`. A
  second buffer, `next_cells`, receives each new generation. The grid can be
  bounded or toroidal (`toricgrid`); on a torus, opposite borders touch.
  Callers set, toggle and query cells. `count_neighbors` counts the live
  cells in a cell's 3x3 window. `update` computes every next value from the
  unchanged current buffer and then swaps the two buffers. `Display` draws
  a live cell as "■" (U+25A0) and a dead one as "□" (U+25A1).
- **Lenia grid configuration** (`src/lenia.rs`). The Lenia grid has the same
  two buffers. It adds a 3x3 convolution filter (by default the ring
  `[1,1,1, 1,0,1, 1,1,1]`), the cached number `neighbors_filter` of filter
  entries equal to 1, a growth function and a value-to-colour mapping.

Layout:

- `grid_spec.dfy`, module `GridSpec`: the specification as values. It
  holds the `Board` datatype, the flat index, the window slots, the
  neighbour count, the rule, one full step (`Step`) and the text rendering
  (`Render`), with the lemmas about them.
- `grid.dfy`, module `GridLife`: the class `Grid`. It has two `array<u8>`
  buffers and constant `rows`, `cols` and `toricgrid`. Its methods change
  the arrays in place: `Update` fills `next` and then swaps the two array
  references. Each method is proved against the `GridSpec` functions
  through `Model()`. After the class, client scenarios replay the
  source's unit tests and documentation examples.
- `lenia.dfy`, module `Lenia`: the class `LeniaGrid`. Its invariant is that
  `neighborsFilter` equals the number of 1-entries of `filter` and is
  positive.

Some function values and nondeterministic choices stand in for things
outside the model:

- The growth function is an opaque `u8 -> u8` value.
- The colour mapping is an opaque `u8 -> Color` value.
- The defaults that the constructors install are constructor parameters.
- Random initialisation is a nondeterministic choice (`:|`) within the
  source's range: 0..1 for the Game-of-Life grid, 0..254 for Lenia.

Four behaviours of the code that a reader might not expect, all modelled
as written:

- `set_cell_state`, `toggle_cell_state` and `is_alive` only need the flat
  offset `row * cols + col` to fall inside the buffer. The Rust `Vec`
  index is the only check, and nothing tests `row < rows` or
  `col < cols`.
- `set_filter` counts the entries equal to exactly 1, not the non-zero
  entries. A filter of weights 2 is refused.
- Dimensions of 0 are accepted. Only toroidal counting needs
  `rows > 0 && cols > 0`; without them the toroidal wrap indexes outside
  the buffer and the code panics.
- In toroidal mode the centre is excluded on the unwrapped coordinates,
  so on a 1x1 torus a live cell counts itself eight times.

## Model

| member | source | states |
|---|---|---|
| GridSpec.IndexFormula | src/grid.rs:225-227 | the flat offset of (row, col) is row * cols + col |
| GridSpec.IndexInRange | src/grid.rs:225-227 | an in-range coordinate has an offset below rows * cols |
| GridSpec.IndexRowOrder | src/grid.rs:225-227 | offsets grow with the row when the column is in range |
| GridSpec.IndexInjective | src/grid.rs:225-227 | two coordinates with in-range columns and equal offsets are equal |
| GridSpec.IndexShift | src/grid.rs:225-227 | a cell's offset is its row's first offset plus the column |
| GridSpec.IndexOntoRows | src/grid.rs:225-227 | every offset below the start of row n belongs to a cell of rows 0 .. n-1 |
| GridSpec.IndexOnto | src/grid.rs:225-227 | every offset below rows * cols belongs to an in-range cell |
| GridLife.IndexExample | src/grid.rs:219-223 | on a grid of three columns, index(2, 2) is 8 |
| GridSpec.Slot | src/grid.rs:264-297 | a window slot contributes at most 1, and the centre contributes 0 |
| GridSpec.NeighborCountSlots | src/grid.rs:259-301 | the loop's count is the sum of the eight off-centre slots of the window |
| GridSpec.NeighborCountAtMostEight | src/grid.rs:259-301 | a count never exceeds 8 |
| GridSpec.SlotBoundedAtMostToric | src/grid.rs:264-297 | each slot that bounded mode counts is also counted by toroidal mode |
| GridSpec.BoundedAtMostToric | src/grid.rs:259-301 | on the same cells, the bounded count is at most the toroidal count |
| GridSpec.InteriorTopologiesAgree | src/grid.rs:264-297 | for a cell off the border, the two modes give the same count |
| GridSpec.SingleCellTorusCountsItself | src/grid.rs:266-283 | self-exclusion uses the unwrapped i, j: a live cell on a 1x1 torus has 8 neighbours, and 0 in bounded mode |
| GridSpec.NoLiveCellNoNeighbor | src/grid.rs:259-301 | with no live cell, every count is 0 |
| GridSpec.SlotOfDeadGrid | src/grid.rs:264-297 | with no live cell, every slot contributes 0 |
| GridSpec.Rule | src/grid.rs:324-331 | the new value is 0, 1 or the old value; it is live iff there are exactly 3 neighbours, or 2 neighbours and a value above 1 |
| GridSpec.StepRows | src/grid.rs:319-333 | the rows computed so far hold cols values per row |
| GridSpec.Step | src/grid.rs:317-336 | a step keeps the shape and topology and has one value per cell |
| GridSpec.StepRowsAt | src/grid.rs:319-333 | in the rows computed so far, cell (r, c) holds the rule applied to the prior value and the prior count |
| GridSpec.StepAt | src/grid.rs:319-333 | in the step, cell (r, c) holds the rule applied to the prior snapshot's value and count |
| GridSpec.StepCharacterized | src/grid.rs:317-336 | a buffer with the rule's value at every in-range cell equals the step |
| GridSpec.AllDeadStaysDead | src/grid.rs:317-336 | an all-zero grid stays all-zero |
| GridSpec.StepValues | src/grid.rs:324-331 | every new value is 0, 1 or that cell's previous value |
| GridSpec.Toggled | src/grid.rs:175 | toggling flips the alive/dead classification and yields 0 or 1 |
| GridSpec.ToggleTwice | src/grid.rs:172-176 | toggling twice restores the classification, and restores the stored value iff it was 0 or 1 |
| GridSpec.RenderLength | src/grid.rs:20-32 | n rendered rows take n * (cols + 1) characters |
| GridSpec.RenderAt | src/grid.rs:20-32 | character p of row r sits at r * (cols + 1) + p |
| GridSpec.RenderSymbolAt | src/grid.rs:23-26 | the character for cell (r, c) is "■" if the cell is at least 1, otherwise "□" |
| GridSpec.RenderLayout | src/grid.rs:20-32 | the text is rows lines of cols symbols, each ending in a line break, with every symbol matching its cell |
| GridLife.Grid.New | src/grid.rs:51-59 | both buffers have rows * cols cells, all 0; the dimensions and topology are fixed constants |
| GridLife.Grid.NewRandom | src/grid.rs:78-93 | every current cell is 0 or 1 and every scratch cell is 0 |
| GridLife.Grid.SetCellState | src/grid.rs:142-147 | the addressed cell holds the new value, every other cell is unchanged, and is_alive reports value >= 1 |
| GridLife.Grid.ToggleCellState | src/grid.rs:172-176 | the addressed cell holds the toggled value, every other cell is unchanged, and is_alive flips |
| GridLife.Grid.IsAlive | src/grid.rs:199-201 | alive iff the stored value is non-zero |
| GridLife.Grid.Rows | src/grid.rs:96-98 | returns the row count fixed at construction, which with the column count sizes the buffer |
| GridLife.Grid.Cols | src/grid.rs:101-103 | returns the column count fixed at construction, which with the row count sizes the buffer |
| GridLife.Grid.IsToricgrid | src/grid.rs:106-108 | returns the topology fixed at construction |
| GridLife.Grid.CurrentCells | src/grid.rs:110-112 | the current buffer as a value: rows * cols entries, equal to the modelled cells |
| GridLife.Grid.SlotCount | src/grid.rs:264-297 | one pass of the inner loop body adds exactly that slot's contribution |
| GridLife.Grid.CountNeighbors | src/grid.rs:259-301 | the nested loops return NeighborCount of the current cells |
| GridLife.Grid.Update | src/grid.rs:317-336 | the buffers trade places: the new current cells are Step of the old ones, and the scratch buffer holds the previous generation |
| GridLife.Grid.Fmt | src/grid.rs:20-32 | the text is Render of the current cells over all rows |
| GridLife.TestBoardCounts | src/grid.rs:345-373 | with (0,1) and (2,1) alive on a 3x3 grid, the counts at (1,1), (0,0), (2,2) are 2, 2, 2 on a torus and 2, 1, 1 bounded |
| GridLife.NeighborCountScenario | src/grid.rs:345-373 | the unit tests replayed on the class |
| GridLife.CellStateExamples | src/grid.rs:128-140 | a fresh cell is dead; set to 1 it is alive; set to 0 it is dead; a toggled fresh cell is alive |
| GridLife.CountExample | src/grid.rs:245-256 | a fresh torus counts 0 at (1,1) even after an update, and 1 after (1,0) is set |
| GridLife.BlinkerCounts | src/grid.rs:259-301 | the neighbour counts of a horizontal blinker with a live centre |
| GridLife.BlinkerSteps | src/grid.rs:317-336 | a horizontal blinker becomes vertical, and its centre survives only when its value is above 1 |
| GridLife.VerticalBlinkerCounts | src/grid.rs:259-301 | the neighbour counts of a vertical blinker with a live centre |
| GridLife.VerticalBlinkerSteps | src/grid.rs:317-336 | a vertical blinker whose centre is above 1 becomes horizontal again |
| GridLife.SeparatedPairCounts | src/grid.rs:259-301 | two live cells two apart in a column: no cell has three neighbours |
| GridLife.SeparatedPairDies | src/grid.rs:317-336 | two live cells two apart in a column leave an empty grid |
| GridLife.BlinkerScenario | src/grid.rs:317-336 | two updates in a row: the second reads what the first wrote, so the blinker oscillates, or dies when its centre holds exactly 1 |
| Lenia.CountOnes | src/lenia.rs:62-67 | the count of 1-entries never exceeds the filter length |
| Lenia.CountOnesMultiplicity | src/lenia.rs:62-67 | the count is the multiplicity of 1 in the filter |
| Lenia.CountOnesAppend | src/lenia.rs:62-67 | counting adds up over concatenated filters |
| Lenia.CountOnesZero | src/lenia.rs:62-69 | the count is 0, and set_filter is refused, exactly when no entry equals 1 |
| Lenia.RingFilterCount | src/lenia.rs:97-102 | the default ring filter has 9 entries, exactly 8 of them equal to 1 |
| Lenia.FilterWeightsExample | src/lenia.rs:63-67 | weights other than 1 are not counted |
| Lenia.LeniaGrid.New | src/lenia.rs:90-106 | all-zero buffers of rows * cols cells, the ring filter with count 8, and the given defaults |
| Lenia.LeniaGrid.NewRandom | src/lenia.rs:108-131 | every current cell is in 0 .. 254, plus the defaults of new |
| Lenia.LeniaGrid.FromVect | src/lenia.rs:133-152 | requires the buffer length to be rows * cols; keeps the cells verbatim, zeroes the scratch buffer and installs the defaults |
| Lenia.LeniaGrid.SetFilter | src/lenia.rs:61-72 | requires at least one 1-entry; stores the filter with its count of 1-entries, keeps the invariant and changes nothing else |
| Lenia.LeniaGrid.SetGrowthFunction | src/lenia.rs:75-77 | replaces only the growth function; the invariant still holds |
| Lenia.LeniaGrid.SetCellValueColorMapper | src/lenia.rs:80-82 | replaces only the colour mapping; the invariant still holds |
| Lenia.LeniaGrid.Rows | src/lenia.rs:155-157 | returns the row count fixed at construction, which with the column count sizes the buffer |
| Lenia.LeniaGrid.Cols | src/lenia.rs:160-162 | returns the column count fixed at construction, which with the row count sizes the buffer |
| Lenia.LeniaGrid.IsToricgrid | src/lenia.rs:165-167 | returns the topology fixed at construction |
| Lenia.LeniaGrid.CurrentCells | src/lenia.rs:169-171 | the current buffer as a value: rows * cols entries, each equal to the stored cell |
| Lenia.ConfigurationScenario | src/lenia.rs:61-82 | after from_vect and each setter, the cells, filter, count and colour mapping are as the calls left them |

## Left out

- The `println!` calls in `set_cell_state`: console output with no effect on state.
- The random number generator in `new_random` (both grids). The model makes a nondeterministic choice within the same range instead.
- Lenia `get_value_neighbors_lenia`, `update`, `count_neighbors`, `set_cell_state`, `is_alive`, `index` and `Display`. Each only forwards to a helper (`grid_convolution_neighbors_lenia`, `grid_update_lenia`, `grid_count_neighbors_conways`, `grid_set_cell_state`, `grid_is_alive`, `grid_index`, `grid_fmt`) whose body is not part of this model.
- The default Lenia growth function and colour mapping (`lenia_growth_function_default`, `map_cell_value_to_color`). They are not part of this model, and the growth function is floating-point; the constructors take both as parameters.
- `draw` and the ggez `Color` type: graphics. `Color` is modelled as four reals rather than four `f32` values.
- `src/gui.rs`, `src/main.rs`, `src/conways.rs` and `src/life.rs`. These cover the event loop, window setup, a variant that forwards to helpers not part of this model, and a trait declaration with no behaviour.
- Overflow of `usize`. `rows * cols` and the offsets are unbounded integers here, so the wrap of a product larger than the machine word is not modelled.
- The error result of `Display::fmt`: the source passes write errors on with `?`, and `Fmt` always succeeds because it builds a string rather than writing to a formatter.
- Aliasing of the Rust `Vec` buffers returned by `current_cells`. The getter returns a copy of the array contents.
