/** `BoardSolver::solve` of src/game.rs: a best-first search over boards, keyed by the
    number of moves made plus the Manhattan distance still to go. */
module Solver {

  import opened Wrappers
  import opened Puzzle
  import opened Heuristics
  import opened Heap

  /** `HistoryNode`: a board reached by the search and the moves that reached it. */
  datatype HistoryNode = HistoryNode(board: Board, path: seq<Move>)

  /** A frontier entry is sound for the search from root when its path, replayed from root,
      is legal and ends on its board, and its priority is what `solve` gives such a node:
      the `heuristic` of the root for the root itself, otherwise the path's length plus
      the Manhattan distance of the board. */
  ghost predicate Sound(root: Board, e: (HistoryNode, nat))
  {
    var (node, priority) := e;
    (node.path == [] || 0 in root.board) &&
    Replay(root, node.path) == Some(node.board) &&
    priority == if node.path == [] then Placed(root) else |node.path| + Manhattan(node.board)
  }

  /** The frontier entries that expanding node pushes, for the first d directions of
      `Move::iter()`: each legal move's board, the path extended by that move, and the
      priority `path.len() + 1 + heuristic_shortest_path`. */
  function ChildrenUpTo(node: HistoryNode, d: nat): seq<(HistoryNode, nat)>
    requires 0 in node.board.board && d <= 4
  {
    if d == 0 then []
    else
      ChildrenUpTo(node, d - 1) +
      match Step(node.board, Moves[d - 1])
      case None => []
      case Some(c) => [(HistoryNode(c, node.path + [Moves[d - 1]]), |node.path| + 1 + Manhattan(c))]
  }

  /** Extending a sound node's path by a legal move gives a sound child. */
  lemma ChildSound(root: Board, node: HistoryNode, m: Move, child: Board)
    requires node.path == [] || 0 in root.board
    requires Replay(root, node.path) == Some(node.board)
    requires 0 in node.board.board && Step(node.board, m) == Some(child)
    ensures 0 in root.board
    ensures Sound(root, (HistoryNode(child, node.path + [m]), |node.path| + 1 + Manhattan(child)))
  {
    var path := node.path + [m];
    assert path[..|path| - 1] == node.path;
  }

  /** Every pushed entry is sound and one move longer than node's path; and, since Up or
      Down is always legal, at least one entry is pushed. */
  lemma {:induction false} ChildrenSound(root: Board, node: HistoryNode, d: nat)
    requires node.path == [] || 0 in root.board
    requires Replay(root, node.path) == Some(node.board)
    requires 0 in node.board.board && d <= 4
    ensures forall e :: e in ChildrenUpTo(node, d) ==> Sound(root, e) && |e.0.path| == |node.path| + 1
    ensures d >= 2 ==> ChildrenUpTo(node, d) != []
  {
    if d > 0 {
      ChildrenSound(root, node, d - 1);
      var m := Moves[d - 1];
      if Step(node.board, m).Some? {
        ChildSound(root, node, m, Step(node.board, m).value);
      }
      if d == 2 {
        HasLegalMove(node.board);
      }
    }
  }

  /** The body of `solve`'s `for dir in Move::iter()`: pushes, in that order, each legal
      move's board with the path extended by the move, keyed by the path's new length
      plus the board's `heuristic_shortest_path`. */
  method Expand(heap: PairingHeap<HistoryNode>, node: HistoryNode)
    requires 0 in node.board.board
    modifies heap
    ensures heap.entries == old(heap.entries) + ChildrenUpTo(node, 4)
  {
    for d := 0 to 4
      invariant heap.entries == old(heap.entries) + ChildrenUpTo(node, d)
    {
      var dir := Moves[d];
      var next := MoveTile(node.board, dir);
      if next.Some? {
        var heuristic := HeuristicShortestPath(next.value);
        var path := node.path + [dir];
        heap.Insert(HistoryNode(next.value, path), |node.path| + 1 + heuristic);
      }
    }
  }

  /** `solve`: pops a least-priority node; returns its path if its board passes
      `check_board`, otherwise pushes every legal move's board with the extended path.
      The loop of the source runs until a goal is popped; fuel bounds the number of
      rounds here, and None reports that it ran out. A board with no blank is accepted
      only if it is already solved, since the source's `free_slot` would panic on it. */
  method Solve(board: Board, fuel: nat) returns (r: Option<seq<Move>>)
    requires 0 in board.board || IsGoal(board)
    ensures r.Some? ==> (r.value == [] || 0 in board.board) && Replay(board, r.value).Some?
    ensures r.Some? ==> IsGoal(Replay(board, r.value).value)
    ensures r.Some? ==> |r.value| < fuel
    ensures fuel > 0 && IsGoal(board) ==> r == Some([])
  {
    var heap := new PairingHeap<HistoryNode>();
    var root := HistoryNode(board, []);
    var h := Heuristic(board);
    heap.Insert(root, h);
    var rounds := 0;
    while !heap.IsEmpty() && rounds < fuel
      invariant heap.entries != []
      invariant forall e :: e in heap.entries ==> Sound(board, e) && |e.0.path| <= rounds
      invariant rounds == 0 ==> heap.entries == [(root, h)]
      invariant IsGoal(board) ==> rounds == 0
      decreases fuel - rounds
    {
      ghost var before := heap.entries;
      var top := heap.DeleteMin();
      var node := top.value.0;
      assert Sound(board, top.value) && |node.path| <= rounds;
      forall e | e in heap.entries
        ensures e in before
      {
        assert e in multiset(before);
      }
      var solved := CheckBoard(node.board);
      if solved {
        return Some(node.path);
      }
      assert 0 in node.board.board;
      Expand(heap, node);
      ChildrenSound(board, node, 4);
      rounds := rounds + 1;
    }
    if heap.IsEmpty() {
      r := Some([]);
    } else {
      r := None;
    }
  }
}
