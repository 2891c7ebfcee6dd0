/** The solver's scoring of boards in src/game.rs: the goal test `check_board`, the
    root priority `heuristic`, the per-tile distance `heuristic_shortest_path` and the
    home cell of a tile, `appropriate_slot`. */
module Heuristics {

  import opened Puzzle

  /** `appropriate_slot`: the cell (row, column) where tile `value` belongs, row-major
      element value - 1. Label 0 would underflow the `u8` subtraction; every caller skips it. */
  function AppropriateSlot(value: Byte): (slot: (nat, nat))
    requires value >= 1
    ensures slot.1 < 4 && 4 * slot.0 + slot.1 == value - 1
    ensures value <= 16 ==> slot.0 < 4
  {
    ((value - 1) / 4, (value - 1) % 4)
  }

  /** The goal: tile k + 1 in row-major element k for k < 15. Nothing is said of the
      last cell; under the board invariant it is then the blank (GoalIsSolved). */
  ghost predicate IsGoal(b: Board)
  {
    forall k :: 0 <= k < 15 ==> b.board[k] == k + 1
  }

  /** Under the board invariant the goal is exactly the solved layout, blank at (3, 3). */
  lemma GoalIsSolved(b: Board)
    requires IsPermutation(b.board)
    ensures IsGoal(b) <==> b.board == Solved
    ensures IsGoal(b) ==> 0 in b.board && BlankSlot(b) == (3, 3)
  {
    var g := b.board;
    SolvedLayout();
    if IsGoal(b) {
      if g[15] != 0 {
        Distinct(g, 15, g[15] - 1);
      }
      assert forall k :: 0 <= k < 16 ==> g[k] == Solved[k];
      BlankIsAt(b, 3, 3);
    }
  }

  // ---------------------------------------------------------------------------
  // `check_board`
  // ---------------------------------------------------------------------------

  /** `check_board`: tile i must sit in cell ((i - 1) / 4, (i - 1) % 4) for i in 1..16;
      returns false at the first that does not. */
  method CheckBoard(b: Board) returns (solved: bool)
    ensures solved <==> IsGoal(b)
  {
    for i := 1 to 16
      invariant forall k :: 0 <= k < i - 1 ==> b.board[k] == k + 1
    {
      var v := i - 1;
      RowColumn(v);
      if b.At(v / 4, v % 4) != i {
        return false;
      }
    }
    return true;
  }

  // ---------------------------------------------------------------------------
  // `heuristic`: the count of tiles already home
  // ---------------------------------------------------------------------------

  /** How many of the tiles 1..n sit in their home element. */
  function PlacedUpTo(g: Grid, n: nat): (c: nat)
    requires n <= 15
    ensures c <= n
    ensures c == n <==> forall k :: 0 <= k < n ==> g[k] == k + 1
  {
    if n == 0 then 0
    else PlacedUpTo(g, n - 1) + if g[n - 1] == n then 1 else 0
  }

  /** How many of the 15 tiles are home. */
  function Placed(b: Board): (c: nat)
    ensures c <= 15 && (c == 15 <==> IsGoal(b))
  {
    PlacedUpTo(b.board, 15)
  }

  /** `heuristic`: starts at 15 and takes one off for each tile that is not home, so it
      returns the number of tiles that are home (the root priority of `solve`). */
  method Heuristic(b: Board) returns (hit: nat)
    ensures hit == Placed(b)
    ensures hit <= 15 && (hit == 15 <==> IsGoal(b))
  {
    hit := 15;
    for i := 1 to 16
      invariant hit + (i - 1) == 15 + PlacedUpTo(b.board, i - 1)
    {
      var v := i - 1;
      RowColumn(v);
      if b.At(v / 4, v % 4) != i {
        hit := hit - 1;
      }
    }
  }

  // ---------------------------------------------------------------------------
  // `heuristic_shortest_path`: the sum of the tiles' Manhattan distances
  // ---------------------------------------------------------------------------

  /** `usize::abs_diff`. */
  function AbsDiff(a: nat, b: nat): (d: nat)
    ensures d == 0 <==> a == b
    ensures a + d == b || b + d == a
  {
    if a < b then b - a else a - b
  }

  /** Rows plus columns between element p and the home of tile v; 0 for the blank. */
  function TileDistance(p: nat, v: Byte): (d: nat)
    requires p < 16
    ensures d == 0 <==> v == 0 || v == p + 1
  {
    if v == 0 then 0
    else
      var home := AppropriateSlot(v);
      RowColumn(p);
      AbsDiff(p / 4, home.0) + AbsDiff(p % 4, home.1)
  }

  /** The distance of every element's tile, in row-major order. */
  function Distances(g: Grid): (ds: seq<nat>)
  {
    seq(16, p requires 0 <= p < 16 => TileDistance(p, g[p]))
  }

  /** The sum of the first n numbers of s. */
  function SumUpTo(s: seq<nat>, n: nat): nat
    requires n <= |s|
  {
    if n == 0 then 0 else SumUpTo(s, n - 1) + s[n - 1]
  }

  /** A sum of naturals is zero exactly when each of them is. */
  lemma {:induction false} SumZero(s: seq<nat>, n: nat)
    requires n <= |s|
    ensures SumUpTo(s, n) == 0 <==> forall p :: 0 <= p < n ==> s[p] == 0
  {
    if n > 0 {
      SumZero(s, n - 1);
    }
  }

  /** Replacing element k by x changes the sum of the first n by the difference. */
  lemma {:induction false} SumUpToUpdate(s: seq<nat>, n: nat, k: nat, x: nat)
    requires n <= |s| && k < |s|
    ensures SumUpTo(s[k := x], n) + (if k < n then s[k] else 0) == SumUpTo(s, n) + (if k < n then x else 0)
  {
    if n > 0 {
      SumUpToUpdate(s, n - 1, k, x);
    }
  }

  /** A tile of a 4×4 board is at most 6 rows plus columns from its home cell. */
  lemma TileDistanceBound(p: nat, v: Byte)
    requires p < 16 && v <= 16
    ensures TileDistance(p, v) <= 6
  {
  }

  /** Numbers of at most 6, one of which (element k) is 0, sum to at most 6 for each of
      the others. */
  lemma {:induction false} SumBound(s: seq<nat>, n: nat, k: nat)
    requires n <= |s| && k < |s| && s[k] == 0
    requires forall p :: 0 <= p < n ==> s[p] <= 6
    ensures SumUpTo(s, n) + (if k < n then 6 else 0) <= 6 * n
  {
    if n > 0 {
      SumBound(s, n - 1, k);
    }
  }

  /** The Manhattan distance of the whole board to the goal. */
  function Manhattan(b: Board): nat
  {
    SumUpTo(Distances(b.board), 16)
  }

  /** `heuristic_shortest_path`: walks the rows and columns, and for every non-blank
      tile adds the row and column distance to its `appropriate_slot`. */
  method HeuristicShortestPath(b: Board) returns (sum: nat)
    ensures sum == Manhattan(b)
  {
    sum := 0;
    for i := 0 to 4
      invariant sum == SumUpTo(Distances(b.board), 4 * i)
    {
      for j := 0 to 4
        invariant sum == SumUpTo(Distances(b.board), 4 * i + j)
      {
        IndexOf(i, j);
        if b.At(i, j) != 0 {
          var home := AppropriateSlot(b.At(i, j));
          sum := sum + AbsDiff(i, home.0) + AbsDiff(j, home.1);
        }
      }
    }
  }

  /** The distance is zero exactly when each element holds the blank or its own tile. */
  lemma ManhattanZero(b: Board)
    ensures Manhattan(b) == 0 <==> forall p :: 0 <= p < 16 ==> b.board[p] == 0 || b.board[p] == p + 1
  {
    var ds := Distances(b.board);
    SumZero(ds, 16);
    assert forall p :: 0 <= p < 16 ==> (ds[p] == 0 <==> b.board[p] == 0 || b.board[p] == p + 1);
  }

  /** Under the board invariant the distance is at most 90: each of the 15 tiles is at most
      6 rows plus columns from home, and the blank adds nothing. */
  lemma ManhattanBound(b: Board)
    requires IsPermutation(b.board)
    ensures Manhattan(b) <= 90
  {
    PermutationHasEveryLabel(b.board);
    var ds := Distances(b.board);
    forall p | 0 <= p < 16
      ensures ds[p] <= 6
    {
      TileDistanceBound(p, b.board[p]);
    }
    SumBound(ds, 16, BlankIndex(b.board));
  }

  /** Under the board invariant the distance is zero exactly at the goal. */
  lemma ManhattanZeroIffGoal(b: Board)
    requires IsPermutation(b.board)
    ensures Manhattan(b) == 0 <==> IsGoal(b)
  {
    var g := b.board;
    ManhattanZero(b);
    GoalIsSolved(b);
    SolvedLayout();
    if Manhattan(b) == 0 && !IsGoal(b) {
      var k :| 0 <= k < 15 && g[k] != k + 1;
      // The blank is at k, so the tile in the last element is 16 or 0 again.
      Distinct(g, k, 15);
    }
  }

  /** Writing label v into element k changes only element k's distance. */
  lemma DistancesUpdate(g: Grid, k: nat, v: Byte)
    requires k < 16
    ensures Distances(g[k := v]) == Distances(g)[k := TileDistance(k, v)]
  {
    var after, before := Distances(g[k := v]), Distances(g)[k := TileDistance(k, v)];
    assert forall p :: 0 <= p < 16 ==> after[p] == before[p];
  }

  /** A tile one row or one column away is one nearer to, or one further from, home. */
  lemma AdjacentDistance(i: nat, j: nat, i': nat, j': nat, v: Byte)
    requires i < 4 && j < 4 && i' < 4 && j' < 4 && AbsDiff(i, i') + AbsDiff(j, j') == 1 && v >= 1
    ensures var d, e := TileDistance(4 * i + j, v), TileDistance(4 * i' + j', v);
      d == e + 1 || d + 1 == e
  {
    IndexOf(i, j);
    IndexOf(i', j');
  }

  /** After a move, the distances are the old ones with the moved tile's distance taken
      from its old element n and given to the blank's old element k, which is one row or
      one column away. */
  lemma StepDistances(b: Board, m: Move) returns (k: nat, n: nat)
    requires 0 in b.board && IsPermutation(b.board)
    requires Step(b, m).Some?
    ensures k < 16 && n < 16 && k != n && b.board[k] == 0 && b.board[n] != 0
    ensures Distances(Step(b, m).value.board) == Distances(b.board)[k := TileDistance(k, b.board[n])][n := 0]
    ensures var d, e := TileDistance(k, b.board[n]), TileDistance(n, b.board[n]); d == e + 1 || d + 1 == e
  {
    var g := b.board;
    var blank := BlankSlot(b);
    var next := Neighbour(blank.0, blank.1, m).value;
    k, n := StepUpdates(b, m);
    Distinct(g, k, n);
    DistancesUpdate(g, k, g[n]);
    DistancesUpdate(g[k := g[n]], n, 0);
    assert AbsDiff(blank.0, next.0) + AbsDiff(blank.1, next.1) == 1;
    AdjacentDistance(blank.0, blank.1, next.0, next.1, g[n]);
  }

  /** One move changes the Manhattan distance by exactly one: the moved tile gets one row
      or one column nearer to, or further from, its home. */
  lemma StepChangesManhattanByOne(b: Board, m: Move)
    requires 0 in b.board && IsPermutation(b.board)
    requires Step(b, m).Some?
    ensures Manhattan(Step(b, m).value) == Manhattan(b) + 1 || Manhattan(Step(b, m).value) + 1 == Manhattan(b)
  {
    var k, n := StepDistances(b, m);
    var ds := Distances(b.board);
    var d := TileDistance(k, b.board[n]);
    SumUpToUpdate(ds, 16, k, d);
    SumUpToUpdate(ds[k := d], 16, n, 0);
  }
}
