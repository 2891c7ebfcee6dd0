/** The 4×4 sliding-tile board of src/game.rs: tile labels, the blank,
    the legal-move transition and the shuffled starting layout. */
module Puzzle {

  import opened Wrappers

  /** An element of the source's `Matrix4<u8>`. */
  type Byte = x: int | 0 <= x < 256

  /** The 4×4 matrix of tile labels, stored row-major: cell (i, j) is element 4 * i + j. */
  type Grid = s: seq<Byte> | |s| == 16 witness [0, 0, 0, 0, 0, 0, 0, 0, 0, 0, 0, 0, 0, 0, 0, 0]

  /** The direction in which the blank travels; the neighbouring tile slides the other way. */
  datatype Move = Up | Down | Left | Right

  /** The order in which `Move::iter()` yields the directions. */
  const Moves: seq<Move> := [Up, Down, Left, Right]

  /** `Move::iter()` yields every direction, each exactly once. */
  lemma MovesEnumerate()
    ensures |Moves| == 4 && forall m: Move :: m in Moves
    ensures forall p, q :: 0 <= p < q < |Moves| ==> Moves[p] != Moves[q]
  {
    forall m: Move
      ensures m in Moves
    {
      assert m == Moves[0] || m == Moves[1] || m == Moves[2] || m == Moves[3];
    }
  }

  function Opposite(m: Move): Move
  {
    match m
    case Up => Down
    case Down => Up
    case Left => Right
    case Right => Left
  }

  /** `Board`: a value (the source derives Copy); `board` is what `get_board` returns. */
  datatype Board = Board(board: Grid) {
    function At(i: nat, j: nat): Byte
      requires i < 4 && j < 4
    {
      board[4 * i + j]
    }
  }

  /** The layout `prepared_board` starts from: tile v in cell ((v - 1) / 4, (v - 1) % 4),
      that is element v - 1, and the blank in the last cell (3, 3). */
  const Solved: Grid := [1, 2, 3, 4, 5, 6, 7, 8, 9, 10, 11, 12, 13, 14, 15, 0]

  const SolvedBoard: Board := Board(Solved)

  /** The board invariant: the 16 cells hold 16 different labels, all below 16, so each
      of 0..15 exactly once (PermutationHasEveryLabel). */
  ghost predicate IsPermutation(g: Grid)
  {
    (forall k :: 0 <= k < 16 ==> g[k] < 16) &&
    (forall p, q :: 0 <= p < q < 16 ==> LabelsDiffer(g, p, q))
  }

  /** Cells p and q hold different labels. Kept as a predicate of its own so that the
      distinctness half of the invariant is used only where a proof names two cells. */
  predicate LabelsDiffer(g: Grid, p: nat, q: nat)
    requires p < 16 && q < 16
  {
    g[p] != g[q]
  }

  /** Under the invariant, two different cells hold different labels. */
  lemma Distinct(g: Grid, p: nat, q: nat)
    requires IsPermutation(g) && p < 16 && q < 16 && p != q
    ensures g[p] != g[q]
  {
    assert p < q ==> LabelsDiffer(g, p, q);
    assert q < p ==> LabelsDiffer(g, q, p);
  }

  /** Element k of the solved layout, and that layout satisfies the board invariant. */
  lemma SolvedLayout()
    ensures forall k :: 0 <= k < 16 ==> Solved[k] == if k < 15 then k + 1 else 0
    ensures IsPermutation(Solved)
  {
  }

  // ---------------------------------------------------------------------------
  // The blank: `free_slot`
  // ---------------------------------------------------------------------------

  /** Some element at or after k holds the blank. */
  predicate HasBlankFrom(g: Grid, k: nat)
  {
    exists p :: k <= p < 16 && g[p] == 0
  }

  /** The first element at or after k that holds the blank. */
  function FirstZero(g: Grid, k: nat): (r: nat)
    requires k <= 16 && HasBlankFrom(g, k)
    ensures k <= r < 16 && g[r] == 0
    ensures forall p :: k <= p < r ==> g[p] != 0
    decreases 16 - k
  {
    if g[k] == 0 then k else FirstZero(g, k + 1)
  }

  /** The row-major index of the first blank. */
  function BlankIndex(g: Grid): (k: nat)
    requires 0 in g
    ensures k < 16 && g[k] == 0
    ensures forall p :: 0 <= p < k ==> g[p] != 0
  {
    FirstZero(g, 0)
  }

  /** Row and column of element k, and back. */
  lemma RowColumn(k: nat)
    requires k < 16
    ensures k / 4 < 4 && k % 4 < 4 && 4 * (k / 4) + k % 4 == k
  {
  }

  lemma IndexOf(i: nat, j: nat)
    requires i < 4 && j < 4
    ensures (4 * i + j) / 4 == i && (4 * i + j) % 4 == j
  {
  }

  /** The cell (row, column) of the first blank. */
  function BlankSlot(b: Board): (s: (nat, nat))
    requires 0 in b.board
    ensures s.0 < 4 && s.1 < 4 && 4 * s.0 + s.1 == BlankIndex(b.board)
  {
    var k := BlankIndex(b.board);
    RowColumn(k);
    (k / 4, k % 4)
  }

  /** `free_slot`: scans the rows, and each row's columns, for the blank and returns the
      first cell that holds it. Finding none is a panic, hence the precondition. */
  method FreeSlot(b: Board) returns (i: nat, j: nat)
    requires 0 in b.board
    ensures i < 4 && j < 4 && b.At(i, j) == 0
    ensures forall p, q :: 0 <= p < 4 && 0 <= q < 4 && 4 * p + q < 4 * i + j ==> b.At(p, q) != 0
    ensures (i, j) == BlankSlot(b)
  {
    i := 0;
    while i < 4
      invariant i <= 4
      invariant forall p :: 0 <= p < 4 * i ==> b.board[p] != 0
    {
      j := 0;
      while j < 4
        invariant j <= 4
        invariant forall p :: 0 <= p < 4 * i + j ==> b.board[p] != 0
      {
        if b.At(i, j) == 0 {
          IndexOf(i, j);
          return;
        }
        j := j + 1;
      }
      i := i + 1;
    }
    assert false;
  }

  // ---------------------------------------------------------------------------
  // Moving a tile: `move_tile`
  // ---------------------------------------------------------------------------

  /** The cell whose tile slides into the blank at (i, j) when the blank moves in
      direction m, or None when that cell is off the grid. */
  function Neighbour(i: nat, j: nat, m: Move): (r: Option<(nat, nat)>)
    requires i < 4 && j < 4
    ensures r.Some? ==> r.value.0 < 4 && r.value.1 < 4 && 4 * r.value.0 + r.value.1 != 4 * i + j
  {
    match m
    case Down => if i == 3 then None else Some((i + 1, j))
    case Up => if i == 0 then None else Some((i - 1, j))
    case Right => if j == 3 then None else Some((i, j + 1))
    case Left => if j == 0 then None else Some((i, j - 1))
  }

  /** The board after moving the blank in direction m: the blank's cell takes the
      neighbour's tile and the neighbour's cell takes the blank. None when the blank is on
      that edge of the grid. */
  function Step(b: Board, m: Move): (r: Option<Board>)
    requires 0 in b.board
    ensures var i, j := BlankSlot(b).0, BlankSlot(b).1;
      r.None? <==> (m == Down && i == 3) || (m == Up && i == 0) || (m == Right && j == 3) || (m == Left && j == 0)
    ensures r.Some? ==> 0 in r.value.board
  {
    var blank := BlankSlot(b);
    match Neighbour(blank.0, blank.1, m)
    case None => None
    case Some(next) =>
      var k, n := 4 * blank.0 + blank.1, 4 * next.0 + next.1;
      var moved := b.board[k := b.board[n]][n := 0];
      assert moved[n] == 0;
      Some(Board(moved))
  }

  /** A legal move writes the neighbour's tile into the blank's cell and 0 into the
      neighbour's cell, and leaves every other cell as it was. */
  lemma StepSwaps(b: Board, m: Move)
    requires 0 in b.board && Step(b, m).Some?
    ensures
      var blank := BlankSlot(b);
      var next := Neighbour(blank.0, blank.1, m).value;
      var c := Step(b, m).value;
      c.At(blank.0, blank.1) == b.At(next.0, next.1) && c.At(next.0, next.1) == 0 &&
      forall p :: 0 <= p < 16 && p != 4 * blank.0 + blank.1 && p != 4 * next.0 + next.1 ==>
        c.board[p] == b.board[p]
  {
  }

  /** The moved board as an update of the old one, with the blank's element k and the
      neighbour's element n named. */
  lemma StepUpdates(b: Board, m: Move) returns (k: nat, n: nat)
    requires 0 in b.board && Step(b, m).Some?
    ensures k == BlankIndex(b.board) && n < 16 && k != n
    ensures var next := Neighbour(BlankSlot(b).0, BlankSlot(b).1, m).value; n == 4 * next.0 + next.1
    ensures Step(b, m).value.board == b.board[k := b.board[n]][n := 0]
  {
    var blank := BlankSlot(b);
    var next := Neighbour(blank.0, blank.1, m).value;
    k, n := 4 * blank.0 + blank.1, 4 * next.0 + next.1;
  }

  /** `move_tile`: finds the blank, copies the matrix, and overwrites the blank's cell
      with the neighbour's tile and the neighbour's cell with 0. The receiver is a value
      and stays as it was. */
  method MoveTile(b: Board, m: Move) returns (r: Option<Board>)
    requires 0 in b.board
    ensures r == Step(b, m)
  {
    var i, j := FreeSlot(b);
    var moved := b.board;
    match m {
      case Down =>
        if i == 3 {
          return None;
        }
        assert Neighbour(i, j, m) == Some((i + 1, j));
        moved := moved[4 * i + j := moved[4 * (i + 1) + j]];
        moved := moved[4 * (i + 1) + j := 0];
      case Up =>
        if i == 0 {
          return None;
        }
        assert Neighbour(i, j, m) == Some((i - 1, j));
        moved := moved[4 * i + j := moved[4 * (i - 1) + j]];
        moved := moved[4 * (i - 1) + j := 0];
      case Right =>
        if j == 3 {
          return None;
        }
        assert Neighbour(i, j, m) == Some((i, j + 1));
        moved := moved[4 * i + j := moved[4 * i + j + 1]];
        moved := moved[4 * i + j + 1 := 0];
      case Left =>
        if j == 0 {
          return None;
        }
        assert Neighbour(i, j, m) == Some((i, j - 1));
        moved := moved[4 * i + j := moved[4 * i + j - 1]];
        moved := moved[4 * i + j - 1 := 0];
    }
    return Some(Board(moved));
  }

  // ---------------------------------------------------------------------------
  // The permutation invariant and reversibility
  // ---------------------------------------------------------------------------

  /** The neighbour of the neighbour, in the opposite direction, is the cell itself. */
  lemma NeighbourReversible(i: nat, j: nat, m: Move)
    requires i < 4 && j < 4 && Neighbour(i, j, m).Some?
    ensures Neighbour(Neighbour(i, j, m).value.0, Neighbour(i, j, m).value.1, Opposite(m)) == Some((i, j))
  {
  }

  /** Distinct labels that are all below m number at most m. */
  lemma {:induction false} Pigeonhole(s: seq<int>, m: nat)
    requires forall k :: 0 <= k < |s| ==> 0 <= s[k] < m
    requires forall p, q :: 0 <= p < q < |s| ==> s[p] != s[q]
    ensures |s| <= m
    decreases m
  {
    if s != [] {
      assert 0 <= s[0] < m;
      if k :| 0 <= k < |s| && s[k] == m - 1 {
        var t := s[..k] + s[k + 1..];
        assert forall p :: 0 <= p < |t| ==> t[p] == if p < k then s[p] else s[p + 1];
        Pigeonhole(t, m - 1);
      } else {
        Pigeonhole(s, m - 1);
      }
    }
  }

  /** Under the invariant every label 0..15 is on the board; in particular the blank. */
  lemma PermutationHasEveryLabel(g: Grid)
    requires IsPermutation(g)
    ensures forall v :: 0 <= v < 16 ==> v in g
  {
    forall v | 0 <= v < 16
      ensures v in g
    {
      if v !in g {
        // Relabelling the labels above v down by one leaves 16 distinct labels below 15.
        var s := seq(16, k requires 0 <= k < 16 => if g[k] < v then g[k] else g[k] - 1);
        forall p, q | 0 <= p < q < 16
          ensures s[p] != s[q]
        {
          Distinct(g, p, q);
        }
        Pigeonhole(s, 15);
      }
    }
  }

  /** Under the invariant the blank found by the row-major scan is the one at (i, j). */
  lemma BlankIsAt(b: Board, i: nat, j: nat)
    requires IsPermutation(b.board) && i < 4 && j < 4 && b.At(i, j) == 0
    ensures 0 in b.board && BlankSlot(b) == (i, j)
  {
    IndexOf(i, j);
    var first := BlankIndex(b.board);
    if first != 4 * i + j {
      Distinct(b.board, first, 4 * i + j);
    }
  }

  /** Exchanging two cells keeps the labels distinct and below 16. */
  lemma SwapPreservesPermutation(g: Grid, k: nat, n: nat)
    requires IsPermutation(g) && k < 16 && n < 16
    ensures IsPermutation(g[k := g[n]][n := g[k]])
  {
    var h := g[k := g[n]][n := g[k]];
    forall p, q | 0 <= p < q < 16
      ensures LabelsDiffer(h, p, q)
    {
      var p' := if p == k then n else if p == n then k else p;
      var q' := if q == k then n else if q == n then k else q;
      assert h[p] == g[p'] && h[q] == g[q'];
      Distinct(g, p', q');
    }
  }

  /** `move_tile` keeps every label 0..15 exactly once. */
  lemma StepPreservesPermutation(b: Board, m: Move)
    requires 0 in b.board && IsPermutation(b.board)
    requires Step(b, m).Some?
    ensures IsPermutation(Step(b, m).value.board)
  {
    var g := b.board;
    var blank := BlankSlot(b);
    var next := Neighbour(blank.0, blank.1, m).value;
    var k, n := 4 * blank.0 + blank.1, 4 * next.0 + next.1;
    SwapPreservesPermutation(g, k, n);
  }

  /** Writing the moved tile back and the blank back into its cell undoes the swap. */
  lemma SwapBack(g: Grid, k: nat, n: nat)
    requires k < 16 && n < 16 && k != n && g[k] == 0
    ensures g[k := g[n]][n := 0][n := g[n]][k := 0] == g
  {
    var h := g[k := g[n]][n := 0][n := g[n]][k := 0];
    assert forall p :: 0 <= p < 16 ==> h[p] == g[p];
  }

  /** Moving the blank back the way it came restores the board. */
  lemma StepReversible(b: Board, m: Move)
    requires 0 in b.board && IsPermutation(b.board)
    requires Step(b, m).Some?
    ensures 0 in Step(b, m).value.board
    ensures Step(Step(b, m).value, Opposite(m)) == Some(b)
  {
    var blank := BlankSlot(b);
    var next := Neighbour(blank.0, blank.1, m).value;
    var k, n := StepUpdates(b, m);
    var c := Step(b, m).value;
    StepPreservesPermutation(b, m);
    BlankIsAt(c, next.0, next.1);
    NeighbourReversible(blank.0, blank.1, m);
    var k', n' := StepUpdates(c, Opposite(m));
    assert k' == n && n' == k;
    SwapBack(b.board, k, n);
  }

  /** From any board with a blank, moving it Up or moving it Down is legal. */
  lemma HasLegalMove(b: Board)
    requires 0 in b.board
    ensures Step(b, Up).Some? || Step(b, Down).Some?
  {
  }

  // ---------------------------------------------------------------------------
  // Paths: replaying moves, undoing them
  // ---------------------------------------------------------------------------

  /** The board reached by making the moves of path in order from b, each of which must
      be legal (the caller of `solve` unwraps every `move_tile`), or None at the first
      illegal one. */
  function Replay(b: Board, path: seq<Move>): (r: Option<Board>)
    requires path == [] || 0 in b.board
    ensures r.Some? && 0 in b.board ==> 0 in r.value.board
    decreases |path|
  {
    if path == [] then Some(b)
    else
      match Replay(b, path[..|path| - 1])
      case None => None
      case Some(c) => Step(c, path[|path| - 1])
  }

  /** The moves that undo path: its opposites, last first. */
  function Undo(path: seq<Move>): (u: seq<Move>)
    ensures |u| == |path|
    ensures forall t :: 0 <= t < |path| ==> u[t] == Opposite(path[|path| - 1 - t])
  {
    if path == [] then [] else [Opposite(path[|path| - 1])] + Undo(path[..|path| - 1])
  }

  /** Replaying m :: rest is moving m and then replaying rest. */
  lemma {:induction false} ReplayCons(b: Board, m: Move, rest: seq<Move>)
    requires 0 in b.board
    ensures Replay(b, [m] + rest) ==
      match Step(b, m)
      case None => None
      case Some(c) => Replay(c, rest)
    decreases |rest|
  {
    if rest == [] {
      assert ([m] + rest)[..0] == [];
    } else {
      var front := rest[..|rest| - 1];
      assert ([m] + rest)[..|rest|] == [m] + front;
      ReplayCons(b, m, front);
    }
  }

  lemma {:induction false} ReplayPreservesPermutation(b: Board, path: seq<Move>)
    requires 0 in b.board && IsPermutation(b.board)
    requires Replay(b, path).Some?
    ensures IsPermutation(Replay(b, path).value.board)
    decreases |path|
  {
    if path != [] {
      var front := path[..|path| - 1];
      ReplayPreservesPermutation(b, front);
      StepPreservesPermutation(Replay(b, front).value, path[|path| - 1]);
    }
  }

  /** Undoing a legal path from where it ended leads back to where it started. */
  lemma {:induction false} ReplayUndo(b: Board, path: seq<Move>)
    requires 0 in b.board && IsPermutation(b.board)
    requires Replay(b, path).Some?
    ensures 0 in Replay(b, path).value.board
    ensures Replay(Replay(b, path).value, Undo(path)) == Some(b)
    decreases |path|
  {
    if path != [] {
      var front, m := path[..|path| - 1], path[|path| - 1];
      var d := Replay(b, front).value;
      var c := Replay(b, path).value;
      ReplayUndo(b, front);
      ReplayPreservesPermutation(b, front);
      StepReversible(d, m);
      ReplayCons(c, Opposite(m), Undo(front));
    }
  }

  // ---------------------------------------------------------------------------
  // The shuffled board: `prepared_board`
  // ---------------------------------------------------------------------------

  /** The board left after trying the moves ms in order from b, skipping each one that
      is illegal at that point. */
  function Shuffle(b: Board, ms: seq<Move>): (r: Board)
    requires 0 in b.board
    ensures 0 in r.board
  {
    if ms == [] then b
    else
      var c := Shuffle(b, ms[..|ms| - 1]);
      match Step(c, ms[|ms| - 1])
      case None => c
      case Some(d) => d
  }

  /** The moves of ms that Shuffle actually makes, in order. */
  function Kept(b: Board, ms: seq<Move>): (kept: seq<Move>)
    requires 0 in b.board
    ensures |kept| <= |ms|
  {
    if ms == [] then []
    else
      var front := ms[..|ms| - 1];
      if Step(Shuffle(b, front), ms[|ms| - 1]).Some? then Kept(b, front) + [ms[|ms| - 1]] else Kept(b, front)
  }

  /** The shuffled board is reached from b by a legal path: the kept moves. */
  lemma {:induction false} ShuffleReplaysKept(b: Board, ms: seq<Move>)
    requires 0 in b.board
    ensures Replay(b, Kept(b, ms)) == Some(Shuffle(b, ms))
  {
    if ms != [] {
      var front, m := ms[..|ms| - 1], ms[|ms| - 1];
      ShuffleReplaysKept(b, front);
      var kept := Kept(b, front);
      if Step(Shuffle(b, front), m).Some? {
        assert (kept + [m])[..|kept|] == kept;
      }
    }
  }

  /** The directions picked by the draws `gen::<usize>() % 4` of `prepared_board`. */
  function DrawnMoves(draws: seq<nat>): seq<Move>
  {
    seq(|draws|, t requires 0 <= t < |draws| => Moves[draws[t] % 4])
  }

  /** `prepared_board`: fills a zero matrix with the solved layout, then tries 100 moves,
      one per draw, keeping each that is legal. The random draws are the parameter. */
  method PreparedBoard(draws: seq<nat>) returns (b: Board)
    requires |draws| == 100
    ensures b == Shuffle(SolvedBoard, DrawnMoves(draws))
    ensures IsPermutation(b.board)
    ensures Replay(b, Undo(Kept(SolvedBoard, DrawnMoves(draws)))) == Some(SolvedBoard)
  {
    var cells := new Byte[16](_ => 0);
    for i := 1 to 16
      invariant forall k :: 0 <= k < 16 ==> cells[k] == if k < i - 1 then k + 1 else 0
    {
      var v := i - 1;
      cells[4 * (v / 4) + v % 4] := i;
    }
    assert cells[..] == Solved;
    b := Board(cells[..]);
    ghost var ms := DrawnMoves(draws);
    assert ms[..0] == [];
    for t := 0 to 100
      invariant b == Shuffle(SolvedBoard, ms[..t])
    {
      var m := Moves[draws[t] % 4];
      assert ms[..t + 1][..t] == ms[..t] && ms[..t + 1][t] == m;
      var moved := MoveTile(b, m);
      if moved.Some? {
        b := moved.value;
      }
    }
    assert ms[..100] == ms;
    ShuffleUndoes(ms);
  }

  /** Whatever the moves, the shuffled solved board keeps the invariant, and undoing the
      kept moves from it leads back to the solved board. */
  lemma ShuffleUndoes(ms: seq<Move>)
    ensures IsPermutation(Shuffle(SolvedBoard, ms).board)
    ensures Replay(Shuffle(SolvedBoard, ms), Undo(Kept(SolvedBoard, ms))) == Some(SolvedBoard)
  {
    var kept := Kept(SolvedBoard, ms);
    SolvedLayout();
    ShuffleReplaysKept(SolvedBoard, ms);
    ReplayPreservesPermutation(SolvedBoard, kept);
    ReplayUndo(SolvedBoard, kept);
  }

  /** From the solved board only Up and Left are legal, and either is undone by its opposite. */
  lemma SolvedBoardMoves()
    ensures Step(SolvedBoard, Down).None? && Step(SolvedBoard, Right).None?
    ensures Step(SolvedBoard, Up).Some? && Step(Step(SolvedBoard, Up).value, Down) == Some(SolvedBoard)
    ensures Step(SolvedBoard, Left).Some? && Step(Step(SolvedBoard, Left).value, Right) == Some(SolvedBoard)
  {
    SolvedLayout();
    BlankIsAt(SolvedBoard, 3, 3);
    StepReversible(SolvedBoard, Up);
    StepReversible(SolvedBoard, Left);
  }
}
