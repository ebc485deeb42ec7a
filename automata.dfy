/** The Game-of-Life engine: a square grid of cells, indexed grid[y][x] (row y,
    column x), advanced one generation at a time under the B3/S23 rule, with an
    afterglow painted into the colour of cells that die. */
module Automaton {
  import opened Cells

  type Grid = seq<seq<Cell>>

  /** `size` rows of `size` cells each, with `size` at least one. */
  predicate Square(g: Grid)
  {
    |g| > 0 && forall y :: 0 <= y < |g| ==> |g[y]| == |g|
  }

  /** The offsets (dx, dy) of the eight Moore neighbours, in the order they are looked up. */
  const Offsets: seq<(int, int)> := [(-1, -1), (0, -1), (1, -1), (-1, 0), (1, 0), (-1, 1), (0, 1), (1, 1)]

  /** Column x and row y address a cell of g: the column is checked against the
      length of the first row, the row against the number of rows. Nothing wraps.
      This is the bounds test of src/automata.rs:63. */
  predicate InGrid(g: Grid, x: int, y: int)
    requires |g| > 0
  {
    0 <= x && 0 <= y && y < |g| && x < |g[0]|
  }

  /** The in-grid positions among (x, y) + Offsets[j] for j < k, in offset order. */
  function NeighbourPositions(g: Grid, x: int, y: int, k: nat): (ps: seq<(nat, nat)>)
    requires Square(g) && k <= |Offsets|
    ensures |ps| <= k
    ensures forall i :: 0 <= i < |ps| ==> ps[i].0 < |g| && ps[i].1 < |g|
  {
    if k == 0 then []
    else
      var ps := NeighbourPositions(g, x, y, k - 1);
      var nx, ny := x + Offsets[k - 1].0, y + Offsets[k - 1].1;
      if InGrid(g, nx, ny) then ps + [(nx, ny)] else ps
  }

  /** [(x, y)] when (x, y) is in the grid, [] otherwise. */
  function NearPosition(g: Grid, x: int, y: int): seq<(nat, nat)>
    requires |g| > 0
  {
    if InGrid(g, x, y) then [(x, y)] else []
  }

  /** Looking at one more offset appends that position when it is in the grid. */
  lemma NeighbourPositionsStep(g: Grid, x: int, y: int, k: nat)
    requires Square(g) && k < |Offsets|
    ensures NeighbourPositions(g, x, y, k + 1) ==
      NeighbourPositions(g, x, y, k) + NearPosition(g, x + Offsets[k].0, y + Offsets[k].1)
  {
  }

  /** The cells of g at the positions ps, in that order. */
  function CellsAt(g: Grid, ps: seq<(nat, nat)>): seq<Cell>
    requires Square(g)
    requires forall i :: 0 <= i < |ps| ==> ps[i].0 < |g| && ps[i].1 < |g|
  {
    seq(|ps|, i requires 0 <= i < |ps| => g[ps[i].1][ps[i].0])
  }

  /** Looking up one more position appends that position's cell. */
  lemma CellsAtSnoc(g: Grid, ps: seq<(nat, nat)>, x: nat, y: nat)
    requires Square(g) && x < |g| && y < |g|
    requires forall i :: 0 <= i < |ps| ==> ps[i].0 < |g| && ps[i].1 < |g|
    ensures CellsAt(g, ps + [(x, y)]) == CellsAt(g, ps) + [g[y][x]]
  {
  }

  /** The Moore neighbourhood of (x, y), clipped at the edges of the grid. */
  function Neighbours(g: Grid, x: int, y: int): (cells: seq<Cell>)
    requires Square(g)
    ensures |cells| <= 8
  {
    CellsAt(g, NeighbourPositions(g, x, y, |Offsets|))
  }

  /** How many of the cells are alive. */
  function LiveCount(cells: seq<Cell>): (n: nat)
    ensures n <= |cells|
  {
    if cells == [] then 0
    else LiveCount(cells[..|cells| - 1]) + (if cells[|cells| - 1].active then 1 else 0)
  }

  /** Next liveness of a cell from its liveness and its number of live
      neighbours: two keeps the state, three gives life, anything else death. */
  function Rule(alive: bool, n: nat): (next: bool)
    ensures alive ==> (next <==> n == 2 || n == 3)
    ensures !alive ==> (next <==> n == 3)
  {
    match n
    case 2 => alive
    case 3 => true
    case _ => false
  }

  /** The dimming of the blue channel of a cell that stays dead: a
      single-precision subtraction of 0.1 in the program, never clamped
      (`old_cell.b - 0.1`, src/automata.rs:46). Nothing in this model depends
      on its value. */
  function Fade(blue: real): real
  {
    blue - 0.1
  }

  /** What the sweep writes at (x, y) when the snapshot is g and the grid being
      rewritten is cur: the neighbour count and the colour inputs come from the
      snapshot, but the liveness fed to the rule is read from cur. */
  function SweepCell(g: Grid, cur: Grid, x: nat, y: nat): (c: Cell)
    requires Square(g) && Square(cur) && |cur| == |g| && x < |g| && y < |g|
    ensures c.active == Rule(cur[y][x].active, LiveCount(Neighbours(g, x, y)))
    ensures c.active ==> c.r == 1.0 && c.b == 0.0
    ensures !c.active ==> c.r == 0.0
    ensures c.g == g[y][x].g
    ensures g[y][x].active && !c.active ==> c.b == 1.0
  {
    var oldCell := g[y][x];
    var cell := cur[y][x].SetActive(Rule(cur[y][x].active, LiveCount(Neighbours(g, x, y))));
    var red := if cell.active then 1.0 else 0.0;
    var blue := if oldCell.active && !cell.active then 1.0 else Fade(oldCell.b);
    var blue' := if !cell.active then blue else 0.0;
    cell.ChangeColor(red, oldCell.g, blue')
  }

  /** The cell at (x, y) one generation after g: the rule applied to its own
      liveness and its live neighbours in g, red exactly when alive, no blue
      while alive, full blue on the generation it dies, green kept from g. */
  function StepCell(g: Grid, x: nat, y: nat): (c: Cell)
    requires Square(g) && x < |g| && y < |g|
    ensures c.active == Rule(g[y][x].active, LiveCount(Neighbours(g, x, y)))
    ensures c.active ==> c.r == 1.0 && c.b == 0.0
    ensures !c.active ==> c.r == 0.0
    ensures c.g == g[y][x].g
    ensures g[y][x].active && !c.active ==> c.b == 1.0
  {
    SweepCell(g, g, x, y)
  }

  /** The whole grid one generation after g: every cell evaluated against g. */
  function Step(g: Grid): (r: Grid)
    requires Square(g)
    ensures Square(r) && |r| == |g|
    ensures forall y, x :: 0 <= y < |g| && 0 <= x < |g| ==> r[y][x] == StepCell(g, x, y)
  {
    seq(|g|, y requires 0 <= y < |g| => seq(|g|, x requires 0 <= x < |g| => StepCell(g, x, y)))
  }

  /** Every cell's colour agrees with its liveness: red exactly when alive,
      no blue while alive, and no green anywhere. */
  ghost predicate ColoursAgree(g: Grid)
    requires Square(g)
  {
    forall y, x :: 0 <= y < |g| && 0 <= x < |g| ==>
      g[y][x].g == 0.0 &&
      (g[y][x].active ==> g[y][x].r == 1.0 && g[y][x].b == 0.0) &&
      (!g[y][x].active ==> g[y][x].r == 0.0)
  }

  /** The state of a row-major sweep that is about to visit (x, y): every
      position before it holds its next-generation cell, every position from it
      on still holds the snapshot's cell. */
  ghost predicate SweptUpTo(g: Grid, cur: Grid, x: nat, y: nat)
    requires Square(g)
  {
    Square(cur) && |cur| == |g| &&
    forall j, i :: 0 <= j < |g| && 0 <= i < |g| ==>
      cur[j][i] == if j < y || (j == y && i < x) then StepCell(g, i, j) else g[j][i]
  }

  /** Visiting (x, y) writes exactly its next-generation cell, because the
      liveness read from the grid under rewrite is still the snapshot's; next
      is cur with that one cell replaced. */
  lemma SweepAdvances(g: Grid, cur: Grid, next: Grid, x: nat, y: nat)
    requires Square(g) && x < |g| && y < |g| && SweptUpTo(g, cur, x, y)
    requires |next| == |cur| && forall j :: 0 <= j < |cur| && j != y ==> next[j] == cur[j]
    requires |next[y]| == |cur[y]| && forall i :: 0 <= i < |cur| && i != x ==> next[y][i] == cur[y][i]
    requires next[y][x] == SweepCell(g, cur, x, y)
    ensures SweptUpTo(g, next, x + 1, y)
  {
    assert cur[y][x] == g[y][x];
  }

  /** A finished row hands over to the start of the next. */
  lemma SweptRow(g: Grid, cur: Grid, y: nat)
    requires Square(g) && y < |g| && SweptUpTo(g, cur, |g|, y)
    ensures SweptUpTo(g, cur, 0, y + 1)
  {
  }

  /** A finished sweep is the next generation. */
  lemma SweptAll(g: Grid, cur: Grid)
    requires Square(g) && SweptUpTo(g, cur, 0, |g|)
    ensures cur == Step(g)
  {
    var next := Step(g);
    forall j | 0 <= j < |g|
      ensures cur[j] == next[j]
    {
      forall i | 0 <= i < |g|
        ensures cur[j][i] == next[j][i]
      {
      }
    }
  }

  /** The rectangle of column i, row j in a layout of cellWidth-by-cellHeight
      tiles whose first tile has its top-left corner at (xPos, yPos). */
  function Tile(xPos: real, yPos: real, cellWidth: real, cellHeight: real, i: nat, j: nat): Corners
  {
    Corners(xPos + (i as real) * cellWidth, yPos + (j as real) * cellHeight,
            xPos + ((i + 1) as real) * cellWidth, yPos + ((j + 1) as real) * cellHeight)
  }

  /** Stepping one tile further along an axis. */
  lemma NextEdge(origin: real, step: real, k: nat)
    ensures origin + (k as real) * step + step == origin + ((k + 1) as real) * step
  {
  }

  class Automata {
    var grid: Grid

    predicate Valid()
      reads this
    {
      Square(grid)
    }

    /** A size-by-size grid of dead, uncoloured cells; a size of zero is refused. */
    constructor (size: nat)
      requires size > 0
      ensures Valid() && |grid| == size
      ensures forall y, x :: 0 <= y < size && 0 <= x < size ==>
        !grid[y][x].active && grid[y][x].Color() == [0.0, 0.0, 0.0, 1.0]
      ensures ColoursAgree(grid)
    {
      grid := seq(size, _ => seq(size, _ => NewCell(0.0, 0.0, 0.0)));
    }

    /** A copy of source that shares no state with it. */
    constructor Clone(source: Automata)
      ensures grid == source.grid
    {
      grid := source.grid;
    }

    /** Advances every cell one generation, reading neighbours from a copy of
        the grid taken before the sweep. */
    method Update()
      requires Valid()
      modifies this
      ensures Valid() && |grid| == |old(grid)|
      ensures grid == Step(old(grid))
    {
      var snapshot := new Automata.Clone(this);
      for y := 0 to |grid|
        modifies this
        invariant snapshot.grid == old(grid)
        invariant SweptUpTo(snapshot.grid, grid, 0, y)
      {
        for x := 0 to |grid[0]|
          modifies this
          invariant SweptUpTo(snapshot.grid, grid, x, y)
        {
          ghost var before := grid;
          var oldCell := snapshot.grid[y][x];
          var neighbours := snapshot.GetNeighbours(x, y);
          var neighbourBirthSum := LiveCount(neighbours);
          // Liveness is read from the grid being rewritten, not from the
          // snapshot; SweptUpTo says the two still agree at (x, y).
          var cell := grid[y][x].SetActive(Rule(grid[y][x].active, neighbourBirthSum));
          grid := grid[y := grid[y][x := cell]];
          var red := if grid[y][x].active then 1.0 else 0.0;
          var green := oldCell.g;
          var blue := if oldCell.active && !grid[y][x].active then 1.0 else Fade(oldCell.b);
          blue := if !grid[y][x].active then blue else 0.0;
          ghost var painted := cell.ChangeColor(red, green, blue);
          assert painted == SweepCell(snapshot.grid, before, x, y);
          grid := grid[y := grid[y][x := grid[y][x].ChangeColor(red, green, blue)]];
          SweepAdvances(snapshot.grid, before, grid, x, y);
        }
        SweptRow(snapshot.grid, grid, y);
      }
      SweptAll(snapshot.grid, grid);
    }

    /** The clipped Moore neighbourhood of (x, y), collected offset by offset. */
    method GetNeighbours(x: nat, y: nat) returns (buf: seq<Cell>)
      requires Valid()
      ensures buf == Neighbours(grid, x, y)
    {
      buf := [];
      for k := 0 to |Offsets|
        invariant buf == CellsAt(grid, NeighbourPositions(grid, x, y, k))
      {
        var nx, ny := x + Offsets[k].0, y + Offsets[k].1;
        ghost var ps := NeighbourPositions(grid, x, y, k);
        NeighbourPositionsStep(grid, x, y, k);
        if nx >= 0 && ny >= 0 && ny < |grid| && nx < |grid[0]| {
          buf := buf + [grid[ny][nx]];
          assert NeighbourPositions(grid, x, y, k + 1) == ps + [(nx, ny)];
          CellsAtSnoc(grid, ps, nx, ny);
        } else {
          assert NeighbourPositions(grid, x, y, k + 1) == ps + [];
        }
      }
    }

    /** The screen rectangle of every cell when the grid is drawn into the
        width-by-height area whose top-left corner is (xPos, yPos): the cell in
        row y, column x gets the x-th of `size` equal columns and the y-th of
        `size` equal rows. The grid is not changed. */
    method GetRectangleGrid(xPos: real, yPos: real, width: real, height: real) returns (out: seq<seq<Corners>>)
      requires Valid()
      ensures |out| == |grid| && forall j :: 0 <= j < |out| ==> |out[j]| == |grid|
      ensures forall j, i :: 0 <= j < |grid| && 0 <= i < |grid| ==>
        out[j][i] == Tile(xPos, yPos, width / |grid| as real, height / |grid| as real, i, j)
    {
      var cellWidth := width / |grid[0]| as real;
      var cellHeight := height / |grid| as real;
      out := [];
      for y := 0 to |grid|
        invariant |out| == y
        invariant forall j :: 0 <= j < y ==> |out[j]| == |grid|
        invariant forall j, i :: 0 <= j < y && 0 <= i < |grid| ==>
          out[j][i] == Tile(xPos, yPos, cellWidth, cellHeight, i, j)
      {
        var row: seq<Corners> := [];
        for x := 0 to |grid[0]|
          invariant |row| == x
          invariant forall i :: 0 <= i < x ==> row[i] == Tile(xPos, yPos, cellWidth, cellHeight, i, y)
        {
          var cell := grid[y][x];
          var left, top := xPos + (x as real) * cellWidth, yPos + (y as real) * cellHeight;
          NextEdge(xPos, cellWidth, x);
          NextEdge(yPos, cellHeight, y);
          row := row + [cell.ToRectangle(left, top, cellWidth, cellHeight)];
        }
        out := out + [row];
      }
    }

    /** The cell in column x of row y. */
    function CellAt(x: nat, y: nat): (c: Cell)
      reads this
      requires Valid() && x < |grid| && y < |grid|
      ensures c == grid[y][x]
    {
      grid[y][x]
    }

    /** Makes the cell in column x of row y alive and paints it red; no other
        cell changes. */
    method BirthCellAt(x: nat, y: nat)
      requires Valid() && x < |grid| && y < |grid|
      modifies this
      ensures Valid() && |grid| == |old(grid)|
      ensures CellAt(x, y).active && CellAt(x, y).Color() == [1.0, 0.0, 0.0, 1.0]
      ensures forall j, i :: 0 <= j < |grid| && 0 <= i < |grid| && (i != x || j != y) ==>
        grid[j][i] == old(grid)[j][i]
      ensures ColoursAgree(old(grid)) ==> ColoursAgree(grid)
    {
      var cell := grid[y][x].ChangeColor(1.0, 0.0, 0.0);
      cell := cell.(active := true);
      grid := grid[y := grid[y][x := cell]];
    }
  }
}
