/** Properties of the automaton's neighbourhood, its generation step and its
    in-place sweep, stated over the specification functions of Automaton. */
module AutomatonFacts {
  import opened Cells
  import opened Automaton

  // ---------------------------------------------------------------------------
  // The clipped Moore neighbourhood
  // ---------------------------------------------------------------------------

  /** The eight offsets one by one. */
  lemma OffsetValues()
    ensures |Offsets| == 8
    ensures Offsets[0] == (-1, -1) && Offsets[1] == (0, -1) && Offsets[2] == (1, -1) && Offsets[3] == (-1, 0)
    ensures Offsets[4] == (1, 0) && Offsets[5] == (-1, 1) && Offsets[6] == (0, 1) && Offsets[7] == (1, 1)
  {
  }

  /** The position the k-th offset points at from (x, y). */
  function OffsetFrom(x: int, y: int, k: nat): (int, int)
    requires k < |Offsets|
  {
    (x + Offsets[k].0, y + Offsets[k].1)
  }

  /** A position is among the first k looked up exactly when one of the first
      k offsets points at it from (x, y) and it lies in the grid. */
  lemma {:induction false} NeighbourPositionsMember(g: Grid, x: int, y: int, k: nat, px: nat, py: nat)
    requires Square(g) && k <= |Offsets|
    ensures (px, py) in NeighbourPositions(g, x, y, k) <==>
      exists j :: 0 <= j < k && InGrid(g, px, py) && OffsetFrom(x, y, j) == (px, py)
  {
    if k > 0 {
      NeighbourPositionsMember(g, x, y, k - 1, px, py);
      NeighbourPositionsStep(g, x, y, k - 1);
      var near := OffsetFrom(x, y, k - 1);
      var ps := NeighbourPositions(g, x, y, k - 1);
      var here := near == (px, py) && InGrid(g, px, py);
      assert (px, py) in NeighbourPositions(g, x, y, k) <==> (px, py) in ps || here;
      if (px, py) in ps {
        var j :| 0 <= j < k - 1 && InGrid(g, px, py) && OffsetFrom(x, y, j) == (px, py);
        assert 0 <= j < k;
      } else if here {
        assert OffsetFrom(x, y, k - 1) == (px, py);
      } else {
        forall j | 0 <= j < k && InGrid(g, px, py)
          ensures OffsetFrom(x, y, j) != (px, py)
        {
        }
      }
    }
  }

  /** A position is looked up as a neighbour of (x, y) exactly when it lies in
      the grid, is not (x, y) itself, and is at most one step away along each
      axis. In particular nothing wraps around to the opposite edge. */
  lemma NeighbourPositionsExact(g: Grid, x: nat, y: nat, px: nat, py: nat)
    requires Square(g)
    ensures (px, py) in NeighbourPositions(g, x, y, |Offsets|) <==>
      px < |g| && py < |g| && (px != x || py != y) &&
      x <= px + 1 && px <= x + 1 && y <= py + 1 && py <= y + 1
  {
    OffsetValues();
    NeighbourPositionsMember(g, x, y, |Offsets|, px, py);
    if px < |g| && py < |g| && (px != x || py != y) && x <= px + 1 && px <= x + 1 && y <= py + 1 && py <= y + 1 {
      var dx, dy := px - x, py - y;
      var j := if dy == -1 then dx + 1 else if dy == 0 then (if dx == -1 then 3 else 4) else dx + 6;
      assert OffsetFrom(x, y, j) == (px, py);
    }
  }

  /** Whether the k-th offset from (x, y) lands in the grid, as 1 or 0. */
  function Hit(g: Grid, x: int, y: int, k: nat): nat
    requires Square(g) && k < |Offsets|
  {
    if InGrid(g, x + Offsets[k].0, y + Offsets[k].1) then 1 else 0
  }

  /** Looking at one more offset adds one position exactly when it lands in the grid. */
  lemma NeighbourCountStep(g: Grid, x: int, y: int, k: nat)
    requires Square(g) && k < |Offsets|
    ensures |NeighbourPositions(g, x, y, k + 1)| == |NeighbourPositions(g, x, y, k)| + Hit(g, x, y, k)
  {
    NeighbourPositionsStep(g, x, y, k);
  }

  /** The neighbourhood has one cell per offset that lands in the grid. */
  lemma NeighbourCountByOffset(g: Grid, x: int, y: int)
    requires Square(g)
    ensures |Neighbours(g, x, y)| ==
      Hit(g, x, y, 0) + Hit(g, x, y, 1) + Hit(g, x, y, 2) + Hit(g, x, y, 3) +
      Hit(g, x, y, 4) + Hit(g, x, y, 5) + Hit(g, x, y, 6) + Hit(g, x, y, 7)
  {
    assert |Offsets| == 8;
    NeighbourCountStep(g, x, y, 0);
    NeighbourCountStep(g, x, y, 1);
    NeighbourCountStep(g, x, y, 2);
    NeighbourCountStep(g, x, y, 3);
    NeighbourCountStep(g, x, y, 4);
    NeighbourCountStep(g, x, y, 5);
    NeighbourCountStep(g, x, y, 6);
    NeighbourCountStep(g, x, y, 7);
    assert |Neighbours(g, x, y)| == |NeighbourPositions(g, x, y, 8)|;
  }

  /** How many of c - 1, c and c + 1 lie in [0, n). */
  function Span(c: nat, n: nat): (k: nat)
    ensures k <= 3
  {
    (if 1 <= c && c - 1 < n then 1 else 0) + (if c < n then 1 else 0) + (if c + 1 < n then 1 else 0)
  }

  /** The number of neighbours of an in-grid cell is the size of its clipped
      3-by-3 block less the cell itself: 8 inside, 5 on an edge, 3 in a corner. */
  lemma NeighbourCount(g: Grid, x: nat, y: nat)
    requires Square(g) && x < |g| && y < |g|
    ensures |Neighbours(g, x, y)| == Span(x, |g|) * Span(y, |g|) - 1
  {
    NeighbourCountByOffset(g, x, y);
    var n := |g|;
    var a, b := if 1 <= x then 1 else 0, if x + 1 < n then 1 else 0;
    var c, d := if 1 <= y then 1 else 0, if y + 1 < n then 1 else 0;
    assert Span(x, n) == a + 1 + b && Span(y, n) == c + 1 + d;
    assert (a + 1 + b) * (c + 1 + d) - 1 == a * c + c + b * c + a + b + a * d + d + b * d;
  }

  /** Each of the four corners of a grid of at least two rows has three neighbours. */
  lemma CornerCounts(g: Grid)
    requires Square(g) && |g| >= 2
    ensures |Neighbours(g, 0, 0)| == 3 && |Neighbours(g, |g| - 1, 0)| == 3
    ensures |Neighbours(g, 0, |g| - 1)| == 3 && |Neighbours(g, |g| - 1, |g| - 1)| == 3
  {
    NeighbourCount(g, 0, 0);
    NeighbourCount(g, |g| - 1, 0);
    NeighbourCount(g, 0, |g| - 1);
    NeighbourCount(g, |g| - 1, |g| - 1);
  }

  /** A cell on the top or left edge, away from the corners, has five neighbours. */
  lemma EdgeCounts(g: Grid, k: nat)
    requires Square(g) && 0 < k < |g| - 1
    ensures |Neighbours(g, k, 0)| == 5 && |Neighbours(g, 0, k)| == 5
  {
    NeighbourCount(g, k, 0);
    NeighbourCount(g, 0, k);
  }

  /** A cell away from every edge has eight neighbours. */
  lemma InteriorCount(g: Grid, x: nat, y: nat)
    requires Square(g) && 0 < x < |g| - 1 && 0 < y < |g| - 1
    ensures |Neighbours(g, x, y)| == 8
  {
    NeighbourCount(g, x, y);
  }

  /** An offset that lands in the grid appends its cell to the neighbourhood. */
  lemma NeighboursHit(g: Grid, x: int, y: int, k: nat, px: nat, py: nat)
    requires Square(g) && k < |Offsets|
    requires OffsetFrom(x, y, k) == (px, py) && px < |g| && py < |g|
    ensures CellsAt(g, NeighbourPositions(g, x, y, k + 1)) ==
      CellsAt(g, NeighbourPositions(g, x, y, k)) + [g[py][px]]
  {
    var ps := NeighbourPositions(g, x, y, k);
    NeighbourPositionsStep(g, x, y, k);
    assert NeighbourPositions(g, x, y, k + 1) == ps + [(px, py)];
    CellsAtSnoc(g, ps, px, py);
  }

  /** An offset that lands outside the grid contributes nothing. */
  lemma NeighboursMiss(g: Grid, x: int, y: int, k: nat)
    requires Square(g) && k < |Offsets|
    requires !InGrid(g, OffsetFrom(x, y, k).0, OffsetFrom(x, y, k).1)
    ensures NeighbourPositions(g, x, y, k + 1) == NeighbourPositions(g, x, y, k)
  {
    NeighbourPositionsStep(g, x, y, k);
    assert NeighbourPositions(g, x, y, k + 1) == NeighbourPositions(g, x, y, k) + [];
  }

  /** The top-left corner sees exactly its three in-grid neighbours, in offset order. */
  lemma CornerNeighbours(g: Grid)
    requires Square(g) && |g| >= 2
    ensures Neighbours(g, 0, 0) == [g[0][1], g[1][0], g[1][1]]
  {
    OffsetValues();
    NeighboursMiss(g, 0, 0, 0);
    NeighboursMiss(g, 0, 0, 1);
    NeighboursMiss(g, 0, 0, 2);
    NeighboursMiss(g, 0, 0, 3);
    assert CellsAt(g, NeighbourPositions(g, 0, 0, 4)) == [];
    NeighboursHit(g, 0, 0, 4, 1, 0);
    NeighboursMiss(g, 0, 0, 5);
    NeighboursHit(g, 0, 0, 6, 0, 1);
    NeighboursHit(g, 0, 0, 7, 1, 1);
  }

  /** The first four neighbours of a cell away from every edge: the row above and the left neighbour. */
  lemma InteriorNeighboursFirstHalf(g: Grid, x: nat, y: nat)
    requires Square(g) && 0 < x < |g| - 1 && 0 < y < |g| - 1
    ensures CellsAt(g, NeighbourPositions(g, x, y, 4)) ==
      [g[y - 1][x - 1], g[y - 1][x], g[y - 1][x + 1], g[y][x - 1]]
  {
    OffsetValues();
    assert CellsAt(g, NeighbourPositions(g, x, y, 0)) == [];
    NeighboursHit(g, x, y, 0, x - 1, y - 1);
    NeighboursHit(g, x, y, 1, x, y - 1);
    NeighboursHit(g, x, y, 2, x + 1, y - 1);
    NeighboursHit(g, x, y, 3, x - 1, y);
  }

  /** A cell away from every edge sees all eight of its neighbours, in offset order. */
  lemma InteriorNeighbours(g: Grid, x: nat, y: nat)
    requires Square(g) && 0 < x < |g| - 1 && 0 < y < |g| - 1
    ensures Neighbours(g, x, y) ==
      [g[y - 1][x - 1], g[y - 1][x], g[y - 1][x + 1], g[y][x - 1],
       g[y][x + 1], g[y + 1][x - 1], g[y + 1][x], g[y + 1][x + 1]]
  {
    OffsetValues();
    InteriorNeighboursFirstHalf(g, x, y);
    NeighboursHit(g, x, y, 4, x + 1, y);
    NeighboursHit(g, x, y, 5, x - 1, y + 1);
    NeighboursHit(g, x, y, 6, x, y + 1);
    NeighboursHit(g, x, y, 7, x + 1, y + 1);
  }

  // ---------------------------------------------------------------------------
  // Counting live neighbours
  // ---------------------------------------------------------------------------

  /** No cell is counted exactly when none of the cells is alive, and every
      cell is counted exactly when all of them are. */
  lemma {:induction false} LiveCountExtremes(cells: seq<Cell>)
    ensures LiveCount(cells) == 0 <==> forall i :: 0 <= i < |cells| ==> !cells[i].active
    ensures LiveCount(cells) == |cells| <==> forall i :: 0 <= i < |cells| ==> cells[i].active
  {
    if cells != [] {
      var init := cells[..|cells| - 1];
      LiveCountExtremes(init);
      assert forall i :: 0 <= i < |init| ==> init[i] == cells[i];
    }
  }

  /** 1 when (x, y) is a live cell of the grid, 0 otherwise. */
  function LiveAt(g: Grid, x: int, y: int): nat
    requires Square(g)
  {
    if InGrid(g, x, y) && g[y][x].active then 1 else 0
  }

  /** Looking at one more offset, which points at (px, py), adds one to the
      live count exactly when it lands on a live cell of the grid. */
  lemma LiveCountStep(g: Grid, x: int, y: int, k: nat, px: int, py: int)
    requires Square(g) && k < |Offsets| && OffsetFrom(x, y, k) == (px, py)
    ensures LiveCount(CellsAt(g, NeighbourPositions(g, x, y, k + 1))) ==
      LiveCount(CellsAt(g, NeighbourPositions(g, x, y, k))) + LiveAt(g, px, py)
  {
    var ps := NeighbourPositions(g, x, y, k);
    NeighbourPositionsStep(g, x, y, k);
    if InGrid(g, px, py) {
      assert NeighbourPositions(g, x, y, k + 1) == ps + [(px, py)];
      CellsAtSnoc(g, ps, px, py);
      var cells := CellsAt(g, ps) + [g[py][px]];
      assert cells[..|cells| - 1] == CellsAt(g, ps);
    } else {
      assert NeighbourPositions(g, x, y, k + 1) == ps + [];
    }
  }

  /** The live count over the first four offsets: the row above and the left neighbour. */
  lemma LiveCountFirstHalf(g: Grid, x: int, y: int)
    requires Square(g)
    ensures LiveCount(CellsAt(g, NeighbourPositions(g, x, y, 4))) ==
      LiveAt(g, x - 1, y - 1) + LiveAt(g, x, y - 1) + LiveAt(g, x + 1, y - 1) + LiveAt(g, x - 1, y)
  {
    OffsetValues();
    LiveCountStep(g, x, y, 0, x - 1, y - 1);
    LiveCountStep(g, x, y, 1, x, y - 1);
    LiveCountStep(g, x, y, 2, x + 1, y - 1);
    LiveCountStep(g, x, y, 3, x - 1, y);
  }

  /** Offsets four and five: the right neighbour and the lower-left one. */
  lemma LiveCountThirdQuarter(g: Grid, x: int, y: int)
    requires Square(g)
    ensures LiveCount(CellsAt(g, NeighbourPositions(g, x, y, 6))) ==
      LiveCount(CellsAt(g, NeighbourPositions(g, x, y, 4))) + LiveAt(g, x + 1, y) + LiveAt(g, x - 1, y + 1)
  {
    OffsetValues();
    LiveCountStep(g, x, y, 4, x + 1, y);
    LiveCountStep(g, x, y, 5, x - 1, y + 1);
  }

  /** Offsets six and seven: the cells below and lower-right. */
  lemma LiveCountLastQuarter(g: Grid, x: int, y: int)
    requires Square(g)
    ensures LiveCount(CellsAt(g, NeighbourPositions(g, x, y, 8))) ==
      LiveCount(CellsAt(g, NeighbourPositions(g, x, y, 6))) + LiveAt(g, x, y + 1) + LiveAt(g, x + 1, y + 1)
  {
    OffsetValues();
    LiveCountStep(g, x, y, 6, x, y + 1);
    LiveCountStep(g, x, y, 7, x + 1, y + 1);
  }

  /** The live-neighbour count the rule is applied to is the number of live
      cells of the grid among the eight positions around (x, y). */
  lemma LiveNeighbourSum(g: Grid, x: int, y: int)
    requires Square(g)
    ensures LiveCount(Neighbours(g, x, y)) ==
      LiveAt(g, x - 1, y - 1) + LiveAt(g, x, y - 1) + LiveAt(g, x + 1, y - 1) +
      LiveAt(g, x - 1, y) + LiveAt(g, x + 1, y) +
      LiveAt(g, x - 1, y + 1) + LiveAt(g, x, y + 1) + LiveAt(g, x + 1, y + 1)
  {
    LiveCountFirstHalf(g, x, y);
    LiveCountThirdQuarter(g, x, y);
    LiveCountLastQuarter(g, x, y);
  }

  // ---------------------------------------------------------------------------
  // The in-place sweep does not depend on the order in which cells are visited
  // ---------------------------------------------------------------------------

  /** The grid after the sweep's write at each position of ps in turn, starting
      from cur, with g as the snapshot. */
  function SweepOrder(g: Grid, cur: Grid, ps: seq<(nat, nat)>): (r: Grid)
    requires Square(g) && Square(cur) && |cur| == |g|
    requires forall i :: 0 <= i < |ps| ==> ps[i].0 < |g| && ps[i].1 < |g|
    ensures Square(r) && |r| == |g|
    decreases |ps|
  {
    if ps == [] then cur
    else
      var x, y := ps[0].0, ps[0].1;
      SweepOrder(g, cur[y := cur[y][x := SweepCell(g, cur, x, y)]], ps[1..])
  }

  /** Sweeping distinct positions that still hold their snapshot cells leaves
      each of them holding its next-generation cell and every other position
      as it was: each visit reads the liveness of a cell no earlier visit
      has touched. */
  lemma {:induction false} SweepAnyOrder(g: Grid, cur: Grid, ps: seq<(nat, nat)>)
    requires Square(g) && Square(cur) && |cur| == |g|
    requires forall i :: 0 <= i < |ps| ==> ps[i].0 < |g| && ps[i].1 < |g|
    requires forall i, j :: 0 <= i < j < |ps| ==> ps[i] != ps[j]
    requires forall i :: 0 <= i < |ps| ==> cur[ps[i].1][ps[i].0] == g[ps[i].1][ps[i].0]
    ensures forall y, x :: 0 <= y < |g| && 0 <= x < |g| ==>
      SweepOrder(g, cur, ps)[y][x] == if (x, y) in ps then StepCell(g, x, y) else cur[y][x]
    decreases |ps|
  {
    if ps != [] {
      var x, y := ps[0].0, ps[0].1;
      var next := cur[y := cur[y][x := SweepCell(g, cur, x, y)]];
      assert SweepCell(g, cur, x, y) == StepCell(g, x, y);
      forall i | 0 <= i < |ps[1..]|
        ensures next[ps[1..][i].1][ps[1..][i].0] == g[ps[1..][i].1][ps[1..][i].0]
      {
        assert ps[1..][i] == ps[i + 1] && ps[i + 1] != ps[0];
      }
      SweepAnyOrder(g, next, ps[1..]);
      forall y', x' | 0 <= y' < |g| && 0 <= x' < |g|
        ensures SweepOrder(g, cur, ps)[y'][x'] == if (x', y') in ps then StepCell(g, x', y') else cur[y'][x']
      {
        assert (x', y') in ps <==> (x', y') == ps[0] || (x', y') in ps[1..];
      }
    }
  }

  /** Visiting every cell exactly once, in any order, yields the next
      generation: the result depends on the snapshot alone. */
  lemma SweepOrderIsStep(g: Grid, ps: seq<(nat, nat)>)
    requires Square(g)
    requires forall i :: 0 <= i < |ps| ==> ps[i].0 < |g| && ps[i].1 < |g|
    requires forall i, j :: 0 <= i < j < |ps| ==> ps[i] != ps[j]
    requires forall y: nat, x: nat :: y < |g| && x < |g| ==> (x, y) in ps
    ensures SweepOrder(g, g, ps) == Step(g)
  {
    SweepAnyOrder(g, g, ps);
    var r, s := SweepOrder(g, g, ps), Step(g);
    forall y | 0 <= y < |g|
      ensures r[y] == s[y]
    {
      forall x | 0 <= x < |g|
        ensures r[y][x] == s[y][x]
      {
        assert (x, y) in ps;
      }
    }
  }

  /** A generation keeps colours in agreement with liveness. Together with the
      constructor, which establishes it, and BirthCellAt, which keeps it, this
      makes it an invariant of every reachable grid. */
  lemma StepKeepsColoursAgree(g: Grid)
    requires Square(g) && ColoursAgree(g)
    ensures ColoursAgree(Step(g))
  {
  }

  // ---------------------------------------------------------------------------
  // Scenarios
  // ---------------------------------------------------------------------------

  /** A vertical blinker in the middle column of a 3-by-3 grid becomes a
      horizontal blinker in the middle row. */
  lemma BlinkerVerticalToHorizontal(g: Grid)
    requires Square(g) && |g| == 3
    requires forall y, x :: 0 <= y < 3 && 0 <= x < 3 ==> (g[y][x].active <==> x == 1)
    ensures forall y, x :: 0 <= y < 3 && 0 <= x < 3 ==> (Step(g)[y][x].active <==> y == 1)
  {
    forall y, x | 0 <= y < 3 && 0 <= x < 3
      ensures Step(g)[y][x].active <==> y == 1
    {
      LiveNeighbourSum(g, x, y);
    }
  }

  /** A horizontal blinker in the middle row of a 3-by-3 grid becomes a
      vertical blinker in the middle column. */
  lemma BlinkerHorizontalToVertical(g: Grid)
    requires Square(g) && |g| == 3
    requires forall y, x :: 0 <= y < 3 && 0 <= x < 3 ==> (g[y][x].active <==> y == 1)
    ensures forall y, x :: 0 <= y < 3 && 0 <= x < 3 ==> (Step(g)[y][x].active <==> x == 1)
  {
    forall y, x | 0 <= y < 3 && 0 <= x < 3
      ensures Step(g)[y][x].active <==> x == 1
    {
      LiveNeighbourSum(g, x, y);
    }
  }

  /** The blinker has period two: two generations restore the live set. */
  lemma BlinkerPeriodTwo(g: Grid)
    requires Square(g) && |g| == 3
    requires forall y, x :: 0 <= y < 3 && 0 <= x < 3 ==> (g[y][x].active <==> x == 1)
    ensures forall y, x :: 0 <= y < 3 && 0 <= x < 3 ==> (Step(Step(g))[y][x].active <==> g[y][x].active)
  {
    BlinkerVerticalToHorizontal(g);
    BlinkerHorizontalToVertical(Step(g));
  }

  /** A 2-by-2 block in the middle of a 4-by-4 grid is a still life. */
  lemma BlockIsStill(g: Grid)
    requires Square(g) && |g| == 4
    requires forall y, x :: 0 <= y < 4 && 0 <= x < 4 ==> (g[y][x].active <==> 1 <= x <= 2 && 1 <= y <= 2)
    ensures forall y, x :: 0 <= y < 4 && 0 <= x < 4 ==> (Step(g)[y][x].active <==> g[y][x].active)
  {
    forall y, x | 0 <= y < 4 && 0 <= x < 4
      ensures Step(g)[y][x].active <==> g[y][x].active
    {
      LiveNeighbourSum(g, x, y);
    }
  }
}
