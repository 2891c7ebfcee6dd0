# slide_puzzle: the 15-puzzle engine and its best-first solver, in Dafny

This project models `src/game.rs` of slide_puzzle: a 4×4 sliding-tile puzzle
("15-puzzle") and the search that solves it.

- `Board` holds a 4×4 matrix of `u8` tile labels, and 0 is the blank. Here it is the
  datatype `Puzzle.Board` over a row-major `seq` of 16 labels, so cell (i, j) is element
  4·i + j. It is a value, as in the source, which derives `Copy`.
- `move_tile` slides the neighbouring tile into the blank. It returns `None` when the blank
  is on that edge of the grid.
- `free_slot` finds the blank by scanning row by row.
- `prepared_board` builds the solved layout and then tries 100 random moves, keeping each
  one that is legal. Each move is picked by a random draw; here the draws are a parameter.
- `BoardSolver::solve` is a best-first search.
  - It keeps a pairing heap of `HistoryNode`s, each a board with the moves that reached it.
  - It pops a node of least priority and returns the node's path if `check_board` accepts
    the board.
  - Otherwise it pushes every legal successor. The successor's priority is the path's new
    length plus `heuristic_shortest_path`, the Manhattan distance of the board.
  - The root's priority is `heuristic`.

Every loop of the source is a method with that loop. Each method is proved against a
specification function, and the properties are lemmas about those functions. The modules
are:
- `Puzzle` (board.dfy): the board, `free_slot`, `move_tile` and `prepared_board`.
- `Heuristics` (heuristics.dfy): `check_board`, `heuristic`, `heuristic_shortest_path` and
  `appropriate_slot`.
- `Heap` (heap.dfy): the frontier.
- `Solver` (solver.dfy): `HistoryNode` and `solve`.
- `Wrappers` (wrappers.dfy): `Option`.

The board invariant `IsPermutation` says that the 16 cells hold 16 different labels, all
below 16. So each of 0..15 appears exactly once (`PermutationHasEveryLabel`).
- The solved layout satisfies the invariant, and every move preserves it.
- So every prepared board satisfies it.
- Under the invariant the blank is unique, which is what makes moves reversible and
  `check_board` fix the blank at (3, 3).

The search is proved sound through a frontier invariant (`Solver.Sound`):
- replaying a node's path from the input is legal and ends on the node's board;
- its priority is the one `solve` gives it.

Two behaviours of the code are modelled as written, although the names suggest otherwise:
- `heuristic` (src/game.rs:182-193) starts at 15 and subtracts one for each tile that is
  not home. So it returns the number of tiles that ARE home (`Heuristics.Heuristic`), not
  the number that are out of place.
- The final `Vec::new()` of `solve` (src/game.rs:179) looks like the result for a search
  that runs out of nodes, but it can never be reached on a board with a blank. Up or Down
  is always legal (`Puzzle.HasLegalMove`), so every expansion pushes at least one node
  and the frontier never empties. It stays in the model as the branch after the loop.

## Model

| member | source | states |
|---|---|---|
| Puzzle.SolvedLayout | src/game.rs:115-120 | the layout filled by `prepared_board` holds tile k + 1 in element k for k < 15 and the blank last, and it satisfies the board invariant |
| Puzzle.MovesEnumerate | src/game.rs:7-14 | `Moves`, the order of `Move::iter()` used at src/game.rs:123 and src/game.rs:166, is Up, Down, Left, Right and holds every direction exactly once |
| Puzzle.PermutationHasEveryLabel | src/game.rs:76-89 | under the invariant every label 0..15, the blank included, is on the board, so `free_slot` never reaches its panic |
| Puzzle.FreeSlot | src/game.rs:76-89 | returns a cell that holds 0 such that every cell before it in row-major order is non-zero; it requires a 0 on the board, since the source panics otherwise |
| Puzzle.BlankIsAt | src/game.rs:76-89 | under the invariant the row-major scan finds the blank wherever it is |
| Puzzle.Step | src/game.rs:34-74 | a move is rejected exactly when it is Down with the blank in row 3, Up in row 0, Right in column 3 or Left in column 0; an accepted move leaves a board with a blank |
| Puzzle.StepSwaps | src/game.rs:45-73 | an accepted move writes the neighbour's tile into the blank's cell and 0 into the neighbour's cell, and changes no other cell |
| Puzzle.StepUpdates | src/game.rs:36-73 | the moved board is the old board updated at the blank's element and at the neighbour's element, and these two elements differ |
| Puzzle.MoveTile | src/game.rs:34-74 | the source's find-blank, copy and overwrite-two-cells code computes exactly `Step` |
| Puzzle.StepPreservesPermutation | src/game.rs:36-73 | an accepted move keeps each label 0..15 exactly once |
| Puzzle.StepReversible | src/game.rs:40-71 | after an accepted move, the opposite move is accepted and gives back the original board |
| Puzzle.HasLegalMove | src/game.rs:40-55 | from every board with a blank, Up or Down is accepted |
| Puzzle.ReplayPreservesPermutation | src/game.rs:128-131 | a legal sequence of moves keeps the invariant |
| Puzzle.ReplayUndo | src/game.rs:40-71 | from the end of a legal path, the opposite moves taken last-first form a legal path back to the start |
| Puzzle.ShuffleReplaysKept | src/game.rs:124-132 | the board left by trying moves and skipping the illegal ones is reached from the start by the legal path of the kept moves |
| Puzzle.ShuffleUndoes | src/game.rs:113-134 | for any moves tried, the shuffled solved board satisfies the invariant, and undoing the kept moves leads back to the solved board |
| Puzzle.PreparedBoard | src/game.rs:113-134 | the result is the solved layout shuffled by `DrawnMoves(draws)`, the directions `moves[gen::<usize>() % 4]` picks at src/game.rs:127 (one per draw, the t-th being `Moves[draws[t] % 4]`), satisfies the invariant, and is led back to the solved layout by the undone kept moves |
| Puzzle.SolvedBoardMoves | src/game.rs:40-71 | from the solved layout Down and Right are rejected, while Up and Left are accepted and undone by Down and Right |
| Heap.PairingHeap.constructor | src/game.rs:151 | a new frontier holds no entries |
| Heap.PairingHeap.IsEmpty | src/game.rs:156 | `is_empty` holds exactly when the frontier has no entries |
| Heap.PairingHeap.Insert | src/game.rs:154 | inserting adds exactly the given entry to the frontier |
| Heap.PairingHeap.DeleteMin | src/game.rs:158 | returns None exactly when the frontier is empty; otherwise it returns an entry that was held, whose priority is no greater than any held entry's, and removes one copy of it |
| Heuristics.AppropriateSlot | src/game.rs:213-217 | the home cell of tile v is row-major element v - 1, with its column below 4, and its row below 4 when v ≤ 16 |
| Heuristics.GoalIsSolved | src/game.rs:219-230 | under the invariant, the goal that `check_board` tests is exactly the solved layout, and it puts the blank at (3, 3) |
| Heuristics.CheckBoard | src/game.rs:219-230 | returns true if and only if every tile 1..15 sits at its home element |
| Heuristics.PlacedUpTo | src/game.rs:186-191 | the number of tiles among the first n that are home is at most n, and equals n exactly when all of them are home |
| Heuristics.Placed | src/game.rs:182-193 | at most 15 tiles are home, and 15 exactly at the goal |
| Heuristics.Heuristic | src/game.rs:182-193 | returns the number of tiles at home; it is at most 15, and is 15 exactly when `check_board` holds |
| Heuristics.AbsDiff | src/game.rs:206 | `abs_diff` is zero exactly for equal operands and is the gap between them |
| Heuristics.TileDistance | src/game.rs:203-206 | a cell contributes zero exactly when it holds the blank or its own tile |
| Heuristics.ManhattanZero | src/game.rs:195-211 | the distance sum is zero exactly when every cell holds the blank or its own tile |
| Heuristics.HeuristicShortestPath | src/game.rs:195-211 | the double loop over rows and columns returns the Manhattan sum over the non-blank tiles |
| Heuristics.TileDistanceBound | src/game.rs:205-206 | a tile with a label up to 16 is at most 6 rows plus columns from its home cell |
| Heuristics.ManhattanBound | src/game.rs:195-211 | under the invariant `heuristic_shortest_path` is at most 90: 15 tiles at most 6 away each, and the blank adds nothing |
| Heuristics.ManhattanZeroIffGoal | src/game.rs:195-230 | under the invariant, `heuristic_shortest_path` is zero exactly when `check_board` holds |
| Heuristics.DistancesUpdate | src/game.rs:203-206 | writing one cell changes only that cell's distance |
| Heuristics.AdjacentDistance | src/game.rs:206 | a tile one row or one column away from a cell has a distance to home that differs by exactly one |
| Heuristics.StepDistances | src/game.rs:45-73 | after a move, the moved tile's distance is taken from its old cell and given to the blank's old cell, and the two values differ by one |
| Heuristics.StepChangesManhattanByOne | src/game.rs:195-211 | one legal move raises or lowers the Manhattan distance by exactly one |
| Solver.ChildSound | src/game.rs:168-174 | a legal successor, with the path extended by its move and the priority `len + 1 + heuristic_shortest_path`, satisfies the frontier invariant |
| Solver.ChildrenSound | src/game.rs:166-176 | every entry pushed by an expansion satisfies the frontier invariant and is one move longer than its parent, and at least one entry is pushed |
| Solver.Expand | src/game.rs:166-176 | an expansion pushes exactly the legal successors, in `Move::iter()` order, with their priorities |
| Solver.Solve | src/game.rs:149-179 | a returned path is a legal path from the input to a board that passes `check_board`, and it is shorter than the fuel; an already-solved input gives the empty path in the first round |

## Left out

- The random draws of `prepared_board` (src/game.rs:127) are the parameter `draws` of `Puzzle.PreparedBoard`, which picks move `draws[t] % 4`. The generator itself is not modelled.
- `random_board` (src/game.rs:91-111) is not modelled. It is dead code, and its loop terminates only by chance.
- `Board::new` (src/game.rs:24-27) is `prepared_board` itself, and `get_board` (src/game.rs:29-32) is the field `board` of `Puzzle.Board`.
- src/main.rs (printing and replaying the solution) and the `println!` of src/game.rs:162 are output only and are not modelled. The `Matrix4` type is not modelled either: its storage order and display do not matter once cells are addressed by (row, column).
- Heap.PairingHeap.DeleteMin: the heap's internals and its tie-breaking between equal priorities belong to the `pheap` library. The model promises only some entry of least priority.
- Solver.Solve: the source loops until a goal is popped. The model runs at most `fuel` rounds and returns None when they run out. The source does not bound its search, keep a visited set or guarantee termination.
- Solver.Solve: optimality of the returned path and admissibility of the Manhattan heuristic are not stated. Nothing in the code depends on them.
- Solver.Solve: requires a board that has a blank or is already solved. On any other board the first expansion reaches the panic of `free_slot`.
- Puzzle.FreeSlot, Puzzle.Step and Puzzle.MoveTile: they require a blank on the board, because `free_slot` panics without one.
- Heuristics.ManhattanZeroIffGoal and Heuristics.GoalIsSolved: they are stated for boards that keep the invariant. Without it they fail: a board holding tiles 1..14 and two blanks has Manhattan distance zero and does not pass `check_board`.
- Machine integer widths: labels are bounded like `u8` (the `Byte` type), while `usize` counters and priorities are unbounded. No reachable value comes near overflow: on boards that keep the invariant a Manhattan sum is at most 90 (`Heuristics.ManhattanBound`), and a path grows by one move per round.
