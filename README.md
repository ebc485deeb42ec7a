# Game of Life automaton — a Dafny model

This project models the engine of a small Game-of-Life program (`src/automata.rs`):
an `Automata` holding a square grid of `Cell`s, each with a liveness flag and an
RGB colour, which advances one generation at a time under the B3/S23 rule
(a dead cell with exactly three live neighbours is born; a live cell with two or
three live neighbours survives; every other cell is dead in the next generation).
The colour leaves an afterglow: a live cell is red, a cell that has just died turns
full blue, and a cell that stays dead has its blue dimmed by 0.1 each generation.

The model has three modules:

- `Cells` (`cell.dfy`) — the `Cell` record as a value datatype with its colour
  accessor, its two setters and its rectangle geometry.
- `Automaton` (`automata.dfy`) — the specification functions of one generation
  (`Neighbours`, `LiveCount`, `Rule`, `StepCell`, `Step`) and the `Automata` class,
  whose field `grid` the methods rewrite in place. `Update` is the program's nested
  sweep over a snapshot copy, proved to produce `Step` of the old grid.
- `AutomatonFacts` (`automata_facts.dfy`) — what the neighbourhood is exactly
  (which positions, how many, in which order), the live-neighbour count as a sum,
  that the sweep's order does not matter, the colour/liveness invariant, and
  still-life and oscillator scenarios.

The program keeps no list of changed cells: every cell is re-evaluated in every
generation. The afterglow is the blue channel itself, decremented by 0.1 and
never clamped; there is no separate counter. `birth_cell_at` only sets liveness
and paints the cell red.

## Model

| member | source | states |
|---|---|---|
| Cells.NewCell | src/automata.rs:109-111 | a new cell is dead and its colour is exactly the given channels with opaque alpha |
| Cells.Cell.Color | src/automata.rs:113-115 | the colour is four channels: red, green, blue of the cell and alpha 1.0 (the test at lines 137-139 is an instance) |
| Cells.Cell.ToRectangle | src/automata.rs:117-119 | the rectangle starts at (x, y) and spans exactly width by height |
| Cells.Cell.SetActive | src/automata.rs:121-123 | liveness becomes the given value and the colour is unchanged |
| Cells.Cell.ChangeColor | src/automata.rs:125-129 | the colour becomes the given channels and liveness is unchanged |
| Automaton.NeighbourPositions | src/automata.rs:56-66 | the offsets looked up so far yield at most that many positions, all inside the grid |
| Automaton.Neighbours | src/automata.rs:55-69 | the neighbourhood holds at most eight cells |
| Automaton.LiveCount | src/automata.rs:27-30 | the number of live cells never exceeds the number of cells |
| Automaton.Rule | src/automata.rs:34-38 | a live cell stays alive iff it has 2 or 3 live neighbours; a dead cell comes alive iff it has exactly 3 |
| Automaton.SweepCell | src/automata.rs:23-50 | the cell written at (x, y): liveness from the rule on the liveness found in the grid being rewritten and the snapshot's live-neighbour count; red 1 and blue 0 when alive, red 0 when dead, green copied from the snapshot, blue 1 on the generation a live cell dies |
| Automaton.StepCell | src/automata.rs:18-50 | the same colour and rule facts with the cell's own liveness in the old grid |
| Automaton.Step | src/automata.rs:17-53 | the next generation keeps the grid square and of the same size and holds StepCell of the old grid at every position |
| Automaton.SweepAdvances | src/automata.rs:32-50 | writing SweepCell at the next position of the row-major sweep extends the swept prefix, since that cell still holds its snapshot value |
| Automaton.SweptAll | src/automata.rs:20-52 | once every row has been swept the grid is Step of the snapshot |
| Automaton.Automata.constructor | src/automata.rs:10-15 | size > 0 is required; the grid is size by size, every cell dead and coloured black, and colours agree with liveness |
| Automaton.Automata.Clone | src/automata.rs:18 | the copy taken before the sweep holds the same grid as the original |
| Automaton.Automata.Update | src/automata.rs:17-53 | the grid after the sweep is exactly Step of the grid before it, of the same size |
| Automaton.Automata.GetNeighbours | src/automata.rs:55-69 | the buffer built over the eight offsets is exactly Neighbours of the grid |
| Automaton.Automata.GetRectangleGrid | src/automata.rs:71-87 | a size by size table whose entry in row j, column i is the tile whose top-left corner is offset by i cell widths and j cell heights, each cell being width/size by height/size |
| Automaton.Automata.CellAt | src/automata.rs:89-91 | the cell in column x of row y |
| Automaton.Automata.BirthCellAt | src/automata.rs:93-97 | the addressed cell is alive and red, every other cell is unchanged, and colour agreement with liveness is kept |
| AutomatonFacts.NeighbourPositionsMember | src/automata.rs:56-65 | a position is among those found after k offsets iff it is in the grid and equals (x, y) plus one of the first k offsets |
| AutomatonFacts.NeighbourPositionsExact | src/automata.rs:56-65 | the neighbour positions of (x, y) are exactly the in-grid positions other than (x, y) within one row and one column of it; nothing wraps around the edges |
| AutomatonFacts.NeighbourCount | src/automata.rs:56-65 | the number of neighbours is (columns spanned) times (rows spanned) minus one, each span being 2 at an edge and 3 inside |
| AutomatonFacts.CornerCounts | src/automata.rs:56-65 | in a grid of at least 2 rows each of the four corners has exactly 3 neighbours |
| AutomatonFacts.EdgeCounts | src/automata.rs:56-65 | a cell on the top or left edge that is not a corner has exactly 5 neighbours |
| AutomatonFacts.InteriorCount | src/automata.rs:56-65 | a cell away from every edge has exactly 8 neighbours |
| AutomatonFacts.CornerNeighbours | src/automata.rs:56-65 | the neighbours of the top-left corner are, in order, the cells to its right, below it and diagonally below-right |
| AutomatonFacts.InteriorNeighbours | src/automata.rs:56-65 | an interior cell has exactly eight neighbours, listed in the offset order |
| AutomatonFacts.LiveCountExtremes | src/automata.rs:27-30 | the count is 0 iff no cell is alive and equals the number of cells iff all are alive |
| AutomatonFacts.LiveNeighbourSum | src/automata.rs:25-30 | the live-neighbour count is the sum over the eight surrounding positions of 1 for each in-grid live cell |
| AutomatonFacts.SweepOrder | src/automata.rs:20-50 | rewriting cells one by one in a given order keeps the grid square and of the same size |
| AutomatonFacts.SweepAnyOrder | src/automata.rs:20-50 | when the positions are distinct and still hold their snapshot cells, each visited position ends up holding StepCell and every other position is unchanged |
| AutomatonFacts.SweepOrderIsStep | src/automata.rs:17-53 | visiting every cell exactly once, in any order, yields Step: the in-place sweep does not depend on its order |
| AutomatonFacts.StepKeepsColoursAgree | src/automata.rs:42-50 | if colours agree with liveness (red iff alive, no blue while alive, no green), they still do after a generation |
| AutomatonFacts.BlinkerVerticalToHorizontal | src/automata.rs:17-53 | in a 3 by 3 grid a vertical line of three live cells becomes a horizontal one |
| AutomatonFacts.BlinkerHorizontalToVertical | src/automata.rs:17-53 | and the horizontal line becomes vertical again |
| AutomatonFacts.BlinkerPeriodTwo | src/automata.rs:17-53 | the blinker's liveness returns after two generations |
| AutomatonFacts.BlockIsStill | src/automata.rs:17-53 | a 2 by 2 block in the middle of a 4 by 4 grid keeps the same live cells |

## Left out

- Colour channels are 32-bit floats and rectangle coordinates 64-bit floats in the program; the model uses exact reals. Every colour constant the program assigns (0.0, 1.0) is exact either way; the dimming `b - 0.1` (`Fade`) and the division of the drawing area by the grid size are not rounded in the model.
- Fade: its value is stated but no property depends on it; the rounding of repeated single-precision subtraction, and the blue channel drifting below zero since it is never clamped, are not modelled.
- Cells.Cell.ToRectangle: the graphics library's `rectangle_by_corners` (src/automata.rs:118), which turns the two corners into an origin, width and height and normalises them when a width or height is negative, is not part of this model; `ToRectangle` yields the `Corners` handed to it.
- Automaton.Automata.GetRectangleGrid: for the same reason the table holds the `Corners` of each tile rather than the library's rectangles.
- The window, drawing, input handling, the timer and the main loop (`src/main.rs`, `src/gui.rs`, `src/utility.rs`) are not part of this model.
- Cells are values: `cell_at` returns a copy rather than a reference, and `set_active`/`change_color` return the changed cell, which the class writes back into its grid; no aliasing between cells can arise in the program either.
- The snapshot taken by `update` is a deep copy in the program; the model's grid is an immutable sequence, so sharing it is equivalent.
- Indexing outside the grid panics in the program; the model requires in-bounds coordinates for `cell_at` and `birth_cell_at`.
- Automaton.Automata.GetNeighbours: coordinates are unbounded integers in the model. The program's `x as isize` / `y as isize` (src/automata.rs:62) wraps for coordinates above `isize::MAX`, so `get_neighbours(usize::MAX, 0)` would look at column 0, and adding an offset to `isize::MAX` overflows (a panic in a debug build); neither is modelled. `update`, the only caller in the program, passes in-grid coordinates, where the model and the program agree.
- The grid's row lengths come from `grid[0].len()` in the program; every grid built by `new` is square and every operation keeps it so, so the model assumes squareness (`Valid`).
- No glider or other moving pattern is proved; the scenarios are the blinker and the block.
