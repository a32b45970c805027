/**
 * The paper-roll grid of day 4: a roll (`'@'`) is accessible when fewer
 * than four of its eight neighbours are rolls. Part 1 counts the
 * accessible rolls; part 2 repeatedly removes every accessible roll at
 * once until none is left and reports how many were removed.
 */
module Rolls {
  import Text

  type Grid = seq<seq<char>>

  /** A (row, column) position. */
  type Cell = (int, int)

  const Roll: char := '@'
  const Cleared: char := '.'

  /**
   * The grid as `d04.rs` reads it: one row of characters per input line.
   * Without carriage returns the rows are exactly the text between line
   * breaks, so joining them gives the input back.
   */
  function ParseGrid(input: string): (g: Grid)
    ensures input == [] <==> g == []
    ensures forall r :: 0 <= r < |g| ==> '\n' !in g[r]
    ensures '\r' !in input ==> Text.JoinLines(g) + Text.TrailingNewline(input) == input
  {
    if '\r' in input then Text.Lines(input)
    else
      Text.LinesJoin(input);
      Text.Lines(input)
  }

  /** The width `d04.rs` scans: the length of the first row. */
  function Width(g: Grid): nat {
    if |g| > 0 then |g[0]| else 0
  }

  /**
   * Every row is at least as long as the first one. `d04.rs` indexes
   * every row up to the first row's width and panics otherwise.
   */
  predicate Covers(g: Grid) {
    forall r :: 0 <= r < |g| ==> |g[r]| >= Width(g)
  }

  predicate InBounds(g: Grid, r: int, c: int) {
    0 <= r < |g| && 0 <= c < Width(g)
  }

  predicate IsRoll(g: Grid, r: int, c: int)
    requires Covers(g)
  {
    InBounds(g, r, c) && g[r][c] == Roll
  }

  /** The in-bounds roll cells among the eight king-move neighbours of (r, c). */
  ghost function AdjacentRolls(g: Grid, r: int, c: int): set<Cell>
    requires Covers(g)
  {
    set nr, nc | r - 1 <= nr <= r + 1 && c - 1 <= nc <= c + 1 && (nr, nc) != (r, c) && IsRoll(g, nr, nc)
      :: (nr, nc)
  }

  /** The neighbour offsets, in the order `count_adjacent_rolls` visits them. */
  const Directions: seq<(int, int)> :=
    [(-1, -1), (-1, 0), (-1, 1), (0, -1), (0, 1), (1, -1), (1, 0), (1, 1)]

  /** Every king-move offset is one of the eight directions. */
  lemma DirectionsComplete(dr: int, dc: int)
    requires -1 <= dr <= 1 && -1 <= dc <= 1 && (dr != 0 || dc != 0)
    ensures exists k :: 0 <= k < 8 && Directions[k] == (dr, dc)
  {
    var k :=
      if dr == -1 then (if dc == -1 then 0 else if dc == 0 then 1 else 2)
      else if dr == 0 then (if dc == -1 then 3 else 4)
      else (if dc == -1 then 5 else if dc == 0 then 6 else 7);
    assert Directions[k] == (dr, dc);
  }

  lemma DirectionsDistinct(i: int, j: int)
    requires 0 <= i < j < 8
    ensures Directions[i] != Directions[j]
  {
  }

  /** The cell `k` directions away from (r, c). */
  function Neighbour(r: int, c: int, k: int): Cell
    requires 0 <= k < 8
  {
    (r + Directions[k].0, c + Directions[k].1)
  }

  /** The roll cells seen through the first `k` directions. */
  ghost function SeenRolls(g: Grid, r: int, c: int, k: nat): set<Cell>
    requires Covers(g) && k <= 8
  {
    set i | 0 <= i < k && IsRoll(g, Neighbour(r, c, i).0, Neighbour(r, c, i).1) :: Neighbour(r, c, i)
  }

  /** Looking in direction `k` adds its cell, which no earlier direction reached, when it holds a roll. */
  lemma SeenStep(g: Grid, r: int, c: int, k: nat)
    requires Covers(g) && k < 8
    ensures Neighbour(r, c, k) !in SeenRolls(g, r, c, k)
    ensures SeenRolls(g, r, c, k + 1) ==
              SeenRolls(g, r, c, k) + (if IsRoll(g, Neighbour(r, c, k).0, Neighbour(r, c, k).1) then {Neighbour(r, c, k)} else {})
    ensures |SeenRolls(g, r, c, k + 1)| ==
              |SeenRolls(g, r, c, k)| + (if IsRoll(g, Neighbour(r, c, k).0, Neighbour(r, c, k).1) then 1 else 0)
  {
    forall i | 0 <= i < k
      ensures Neighbour(r, c, i) != Neighbour(r, c, k)
    {
      DirectionsDistinct(i, k);
    }
  }

  /**
   * `count_adjacent_rolls`: visits the eight directions, skipping those
   * that leave the grid, and counts the neighbours holding a roll.
   */
  method CountAdjacentRolls(g: Grid, r: int, c: int) returns (count: nat)
    requires Covers(g)
    ensures count == |AdjacentRolls(g, r, c)|
    ensures count <= 8
    ensures (r, c) !in AdjacentRolls(g, r, c)
  {
    count := 0;
    var k := 0;
    while k < 8
      invariant 0 <= k <= 8
      invariant count == |SeenRolls(g, r, c, k)| && count <= k
    {
      var (nr, nc) := Neighbour(r, c, k);
      SeenStep(g, r, c, k);
      if InBounds(g, nr, nc) && g[nr][nc] == Roll {
        count := count + 1;
      }
      k := k + 1;
    }
    SeenAllIsAdjacent(g, r, c);
  }

  /** Looking in all eight directions sees exactly the adjacent rolls. */
  lemma SeenAllIsAdjacent(g: Grid, r: int, c: int)
    requires Covers(g)
    ensures SeenRolls(g, r, c, 8) == AdjacentRolls(g, r, c)
  {
    forall p | p in AdjacentRolls(g, r, c)
      ensures p in SeenRolls(g, r, c, 8)
    {
      DirectionsComplete(p.0 - r, p.1 - c);
      var k :| 0 <= k < 8 && Directions[k] == (p.0 - r, p.1 - c);
      assert Neighbour(r, c, k) == p;
    }
  }

  /** A roll with fewer than four neighbouring rolls. */
  ghost predicate Accessible(g: Grid, r: int, c: int)
    requires Covers(g)
  {
    IsRoll(g, r, c) && |AdjacentRolls(g, r, c)| < 4
  }

  /** All accessible rolls of the grid. */
  ghost function AccessibleSet(g: Grid): set<Cell>
    requires Covers(g)
  {
    set r, c | 0 <= r < |g| && 0 <= c < Width(g) && Accessible(g, r, c) :: (r, c)
  }

  /** All rolls of the grid. */
  ghost function RollCells(g: Grid): set<Cell>
    requires Covers(g)
  {
    set r, c | 0 <= r < |g| && 0 <= c < Width(g) && g[r][c] == Roll :: (r, c)
  }

  /** Row-major order, strict. */
  predicate Before(a: Cell, b: Cell) {
    a.0 < b.0 || (a.0 == b.0 && a.1 < b.1)
  }

  predicate RowMajor(cells: seq<Cell>) {
    forall i, j :: 0 <= i < j < |cells| ==> Before(cells[i], cells[j])
  }

  /** A strictly ordered sequence has as many elements as distinct members. */
  lemma {:induction false} RowMajorCardinality(cells: seq<Cell>)
    requires RowMajor(cells)
    ensures |set i | 0 <= i < |cells| :: cells[i]| == |cells|
  {
    if cells != [] {
      var init := cells[..|cells| - 1];
      RowMajorCardinality(init);
      var last := cells[|cells| - 1];
      var s := set i | 0 <= i < |init| :: init[i];
      assert last !in s;
      assert (set i | 0 <= i < |cells| :: cells[i]) == s + {last};
    }
  }

  /** Appending a cell after every listed one keeps the list row-major. */
  lemma AppendRowMajor(cells: seq<Cell>, cell: Cell)
    requires RowMajor(cells) && forall i :: 0 <= i < |cells| ==> Before(cells[i], cell)
    ensures RowMajor(cells + [cell])
  {
  }

  /** A row-major list of exactly the accessible rolls has the accessible set's size. */
  lemma AccessibleListed(g: Grid, acc: seq<Cell>)
    requires Covers(g) && RowMajor(acc)
    requires forall i :: 0 <= i < |acc| ==> InBounds(g, acc[i].0, acc[i].1) && Accessible(g, acc[i].0, acc[i].1)
    requires forall r, c :: InBounds(g, r, c) && Accessible(g, r, c) ==> (r, c) in acc
    ensures (set i | 0 <= i < |acc| :: acc[i]) == AccessibleSet(g)
    ensures |acc| == |AccessibleSet(g)|
  {
    assert (set i | 0 <= i < |acc| :: acc[i]) == AccessibleSet(g);
    RowMajorCardinality(acc);
  }

  /**
   * `find_accessible_rolls`: scans the grid row by row and collects the
   * accessible rolls in row-major order.
   */
  method FindAccessibleRolls(g: Grid) returns (acc: seq<Cell>)
    requires Covers(g)
    ensures forall i :: 0 <= i < |acc| ==> InBounds(g, acc[i].0, acc[i].1) && Accessible(g, acc[i].0, acc[i].1)
    ensures forall r, c :: InBounds(g, r, c) && Accessible(g, r, c) ==> (r, c) in acc
    ensures RowMajor(acc)
    ensures (set i | 0 <= i < |acc| :: acc[i]) == AccessibleSet(g)
    ensures |acc| == |AccessibleSet(g)|
  {
    acc := [];
    var rows, cols := |g|, Width(g);
    var row := 0;
    while row < rows
      invariant 0 <= row <= rows
      invariant forall i :: 0 <= i < |acc| ==> InBounds(g, acc[i].0, acc[i].1) && Accessible(g, acc[i].0, acc[i].1)
      invariant forall i :: 0 <= i < |acc| ==> acc[i].0 < row
      invariant forall r, c :: 0 <= r < row && 0 <= c < cols && Accessible(g, r, c) ==> (r, c) in acc
      invariant RowMajor(acc)
    {
      var col := 0;
      while col < cols
        invariant 0 <= col <= cols
        invariant forall i :: 0 <= i < |acc| ==> InBounds(g, acc[i].0, acc[i].1) && Accessible(g, acc[i].0, acc[i].1)
        invariant forall i :: 0 <= i < |acc| ==> Before(acc[i], (row, col))
        invariant forall r, c :: 0 <= r < row && 0 <= c < cols && Accessible(g, r, c) ==> (r, c) in acc
        invariant forall c :: 0 <= c < col && Accessible(g, row, c) ==> (row, c) in acc
        invariant RowMajor(acc)
      {
        if g[row][col] == Roll {
          var neighbours := CountAdjacentRolls(g, row, col);
          if neighbours < 4 {
            AppendRowMajor(acc, (row, col));
            acc := acc + [(row, col)];
          }
        }
        col := col + 1;
      }
      row := row + 1;
    }
    AccessibleListed(g, acc);
  }

  /** Part 1: the number of accessible rolls in the parsed grid. */
  method PartOne(input: string) returns (n: nat)
    requires Covers(ParseGrid(input))
    ensures n == |AccessibleSet(ParseGrid(input))|
  {
    var acc := FindAccessibleRolls(ParseGrid(input));
    n := |acc|;
  }

  predicate SameShape(g: Grid, h: Grid) {
    |g| == |h| && forall r :: 0 <= r < |g| ==> |g[r]| == |h[r]|
  }

  /**
   * `h` is `g` with exactly the cells of `cells` set to `'.'`: same shape,
   * those cells cleared, every other cell unchanged.
   */
  ghost predicate ClearedAt(g: Grid, h: Grid, cells: set<Cell>) {
    && SameShape(g, h)
    && forall r, c :: 0 <= r < |g| && 0 <= c < |g[r]| ==>
         h[r][c] == (if (r, c) in cells then Cleared else g[r][c])
  }

  /** Sets each listed cell to `'.'`, one after another as `part_two` does. */
  method RemoveRolls(g: Grid, cells: seq<Cell>) returns (h: Grid)
    requires Covers(g)
    requires forall i :: 0 <= i < |cells| ==> InBounds(g, cells[i].0, cells[i].1)
    ensures ClearedAt(g, h, set i | 0 <= i < |cells| :: cells[i])
  {
    h := g;
    var k := 0;
    while k < |cells|
      invariant 0 <= k <= |cells|
      invariant ClearedAt(g, h, set i | 0 <= i < k :: cells[i])
    {
      var (r, c) := cells[k];
      h := h[r := h[r][c := Cleared]];
      k := k + 1;
    }
  }

  /** The shape fixes the scanned width, so coverage carries over. */
  lemma SameShapeCovers(g: Grid, h: Grid)
    requires Covers(g) && SameShape(g, h)
    ensures Covers(h) && Width(h) == Width(g)
  {
  }

  /**
   * Clearing a set of roll cells removes exactly those cells from the set
   * of rolls, so the roll count drops by their number.
   */
  lemma ClearingRemovesRolls(g: Grid, h: Grid, cells: set<Cell>)
    requires Covers(g) && ClearedAt(g, h, cells) && cells <= RollCells(g)
    ensures Covers(h)
    ensures RollCells(h) == RollCells(g) - cells
    ensures |RollCells(h)| == |RollCells(g)| - |cells|
  {
    SameShapeCovers(g, h);
    var a, b := RollCells(g), RollCells(h);
    assert b == a - cells;
    assert a == b + cells;
    assert b * cells == {};
  }

  /** Accessible cells are rolls. */
  lemma AccessibleAreRolls(g: Grid)
    requires Covers(g)
    ensures AccessibleSet(g) <= RollCells(g)
  {
  }

  /**
   * `grid` arises from `start` by clearing rolls only: same shape, and
   * every cell either unchanged or a former roll now `'.'`.
   */
  ghost predicate ErodedFrom(start: Grid, grid: Grid) {
    && Covers(start) && SameShape(start, grid) && Covers(grid)
    && RollCells(grid) <= RollCells(start)
    && forall r, c :: 0 <= r < |grid| && 0 <= c < |grid[r]| ==>
         grid[r][c] == start[r][c] || (start[r][c] == Roll && grid[r][c] == Cleared)
  }

  /** One round of removal keeps the grid eroded from the start and removes exactly the accessible rolls. */
  lemma RoundPreserves(start: Grid, grid: Grid, next: Grid)
    requires ErodedFrom(start, grid)
    requires ClearedAt(grid, next, AccessibleSet(grid))
    ensures ErodedFrom(start, next)
    ensures |RollCells(next)| == |RollCells(grid)| - |AccessibleSet(grid)|
  {
    AccessibleAreRolls(grid);
    ClearingRemovesRolls(grid, next, AccessibleSet(grid));
    SameShapeCovers(grid, next);
  }

  /** `g` with the cells of `cells` set to `'.'`. */
  ghost function Clear(g: Grid, cells: set<Cell>): (h: Grid)
    ensures ClearedAt(g, h, cells)
  {
    seq(|g|, r requires 0 <= r < |g| =>
      seq(|g[r]|, c requires 0 <= c < |g[r]| => if (r, c) in cells then Cleared else g[r][c]))
  }

  /** Clearing a set of cells has only one outcome. */
  lemma ClearedUnique(g: Grid, h: Grid, cells: set<Cell>)
    requires ClearedAt(g, h, cells)
    ensures h == Clear(g, cells)
  {
    var k := Clear(g, cells);
    forall r | 0 <= r < |g| ensures h[r] == k[r] {
      assert forall c :: 0 <= c < |g[r]| ==> h[r][c] == k[r][c];
    }
  }

  /** Clearing a non-empty set of accessible rolls keeps coverage and strictly lowers the roll count. */
  lemma ClearAccessibleShrinks(g: Grid)
    requires Covers(g) && AccessibleSet(g) != {}
    ensures Covers(Clear(g, AccessibleSet(g)))
    ensures |RollCells(Clear(g, AccessibleSet(g)))| == |RollCells(g)| - |AccessibleSet(g)|
    ensures |RollCells(Clear(g, AccessibleSet(g)))| < |RollCells(g)|
  {
    AccessibleAreRolls(g);
    ClearingRemovesRolls(g, Clear(g, AccessibleSet(g)), AccessibleSet(g));
  }

  /**
   * The grid the removal rounds end on: while some roll is accessible,
   * clear all accessible rolls at once. It has no accessible roll left.
   */
  ghost function Erode(g: Grid): (r: Grid)
    requires Covers(g)
    ensures Covers(r) && AccessibleSet(r) == {}
    ensures |RollCells(r)| <= |RollCells(g)|
    decreases |RollCells(g)|
  {
    if AccessibleSet(g) == {} then g
    else
      ClearAccessibleShrinks(g);
      Erode(Clear(g, AccessibleSet(g)))
  }

  /** The number of rolls the removal rounds take away, summed round by round. */
  ghost function RemovedCount(g: Grid): nat
    requires Covers(g)
    decreases |RollCells(g)|
  {
    if AccessibleSet(g) == {} then 0
    else
      ClearAccessibleShrinks(g);
      |AccessibleSet(g)| + RemovedCount(Clear(g, AccessibleSet(g)))
  }

  /** The rolls removed over all rounds are exactly the rolls missing from the final grid. */
  lemma {:induction false} RemovedCountIsDifference(g: Grid)
    requires Covers(g)
    ensures RemovedCount(g) == |RollCells(g)| - |RollCells(Erode(g))|
    decreases |RollCells(g)|
  {
    if AccessibleSet(g) != {} {
      ClearAccessibleShrinks(g);
      RemovedCountIsDifference(Clear(g, AccessibleSet(g)));
    }
  }

  /** The first round alone removes every roll accessible at the start. */
  lemma RemovedCountBound(g: Grid)
    requires Covers(g)
    ensures RemovedCount(g) >= |AccessibleSet(g)|
  {
  }

  /** No roll of the grid is accessible any more. */
  ghost predicate Stable(g: Grid) {
    Covers(g) && forall r, c :: InBounds(g, r, c) ==> !Accessible(g, r, c)
  }

  /**
   * Part 2: in each round find every accessible roll of the whole grid,
   * then clear them all; stop when a round finds none. The final grid is
   * returned alongside the total for the contract's sake.
   */
  method PartTwo(input: string) returns (total: nat, final: Grid)
    requires Covers(ParseGrid(input))
    ensures ErodedFrom(ParseGrid(input), final)
    ensures Stable(final)
    ensures total == |RollCells(ParseGrid(input))| - |RollCells(final)|
    ensures total >= |AccessibleSet(ParseGrid(input))|
    ensures final == Erode(ParseGrid(input))
    ensures total == RemovedCount(ParseGrid(input))
  {
    var start := ParseGrid(input);
    var grid := start;
    total := 0;
    RemovedCountBound(start);
    while true
      invariant ErodedFrom(start, grid)
      invariant total + |RollCells(grid)| == |RollCells(start)|
      invariant Erode(grid) == Erode(start)
      invariant total + RemovedCount(grid) == RemovedCount(start)
      decreases |RollCells(grid)|
    {
      var acc := FindAccessibleRolls(grid);
      if |acc| == 0 {
        break;
      }
      var next := RemoveRolls(grid, acc);
      RoundPreserves(start, grid, next);
      ClearedUnique(grid, next, AccessibleSet(grid));
      grid := next;
      total := total + |acc|;
    }
    final := grid;
  }
}
