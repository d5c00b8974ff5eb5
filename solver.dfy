/** The best-first 8-puzzle solver: a loop that dequeues a node of least
    priority, records its board, and enqueues every neighbour of a non-goal
    board, until a goal board is dequeued.

    The search is nondeterministic only in which of several least-priority
    nodes the queue hands out; `QueueAfter` replays the queue for any given
    sequence of dequeued nodes, and `ValidRun` says that each of them was a
    least element when it was taken. */
module Solver {
  import opened Wrappers
  import Board

  /** A queued node: its parent, its board, the board's Manhattan distance and
      the priority Manhattan + move. The parent is stored and never read. */
  datatype SearchNode = SearchNode(prevNode: Option<SearchNode>, board: Board.Board, manhattan: nat, priority: int)

  /** The node `new SearchNode(board, move, prevNode)` builds. */
  function Node(board: Board.Board, move: int, prev: Option<SearchNode>): SearchNode
    requires Board.Valid(board)
  {
    SearchNode(prev, board, Board.ManhattanDistance(board), Board.ManhattanDistance(board) + move)
  }

  /** The `SearchNode` constructor, which asks the board for its Manhattan distance. */
  method NewNode(board: Board.Board, move: int, prev: Option<SearchNode>) returns (x: SearchNode)
    requires Board.Valid(board)
    ensures x == Node(board, move, prev)
  {
    var m := Board.Manhattan(board);
    x := SearchNode(prev, board, m, m + move);
  }

  /** `NodeComparator.compare`: `Integer.compare` on the priorities alone. */
  function Compare(a: SearchNode, b: SearchNode): (r: int)
    ensures r == -1 || r == 0 || r == 1
    ensures r < 0 <==> a.priority < b.priority
    ensures r > 0 <==> a.priority > b.priority
  {
    if a.priority < b.priority then -1 else if a.priority == b.priority then 0 else 1
  }

  /** x is one of the least elements of m under the comparator. */
  predicate IsMin(x: SearchNode, m: multiset<SearchNode>)
  {
    x in m && forall y :: y in m ==> Compare(x, y) <= 0
  }

  /** A non-empty queue always has a least element to hand out. */
  lemma {:induction false} MinExists(m: multiset<SearchNode>)
    requires m != multiset{}
    ensures exists x :: IsMin(x, m)
    decreases |m|
  {
    var y :| y in m;
    var rest := m - multiset{y};
    if rest == multiset{} {
      MinOfSingleton(m, y);
    } else {
      MinExists(rest);
      var z :| IsMin(z, rest);
      MinOfAdded(rest, y, z);
      assert m == rest + multiset{y};
      assert IsMin(if Compare(y, z) <= 0 then y else z, m);
    }
  }

  lemma MinOfSingleton(m: multiset<SearchNode>, y: SearchNode)
    requires y in m && m - multiset{y} == multiset{}
    ensures IsMin(y, m)
  {
    assert m == multiset{y};
  }

  /** Adding y to a multiset with least element z leaves the lesser of the two least. */
  lemma MinOfAdded(rest: multiset<SearchNode>, y: SearchNode, z: SearchNode)
    requires IsMin(z, rest)
    ensures IsMin(if Compare(y, z) <= 0 then y else z, rest + multiset{y})
  {
  }

  /** The priority queue, seen as the multiset of nodes it holds. */
  class MinPQ {
    var items: multiset<SearchNode>

    constructor()
      ensures items == multiset{}
    {
      items := multiset{};
    }

    method Insert(x: SearchNode)
      modifies this
      ensures items == old(items) + multiset{x}
    {
      items := items + multiset{x};
    }

    /** Removes and returns some least node; an empty queue underflows. */
    method DelMin() returns (r: Result<SearchNode>)
      modifies this
      ensures old(items) == multiset{} ==> r == Err(NoSuchElement) && items == old(items)
      ensures old(items) != multiset{} ==> r.Ok? && IsMin(r.value, old(items))
      ensures old(items) != multiset{} ==> items == old(items) - multiset{r.value}
    {
      if items == multiset{} {
        return Err(NoSuchElement);
      }
      MinExists(items);
      var x :| IsMin(x, items);
      items := items - multiset{x};
      return Ok(x);
    }
  }

  /** The nodes built for the first k of `boards`, all at the same move and
      with the same parent. */
  function Children(prev: SearchNode, boards: seq<Board.Board>, k: nat, move: int): multiset<SearchNode>
    requires k <= |boards| && forall i :: 0 <= i < |boards| ==> Board.Valid(boards[i])
  {
    if k == 0 then multiset{}
    else Children(prev, boards, k - 1, move) + multiset{Node(boards[k - 1], move, Some(prev))}
  }

  /** A dequeued board that ends the search: `isGoal()` holds of it. */
  predicate Solved(x: SearchNode)
  {
    |x.board.blocks| > 0 && Board.IsGoalBoard(x.board)
  }

  /** What dequeuing x at the given move adds: nothing for a goal (the search
      stops), otherwise a node for every neighbour. */
  function Expansion(x: SearchNode, move: int): multiset<SearchNode>
  {
    if Board.Valid(x.board) && |x.board.blocks| > 0 && !Board.IsGoalBoard(x.board) then
      Board.NeighborsValid(x.board);
      Children(x, Board.NeighborBoards(x.board), |Board.NeighborBoards(x.board)|, move)
    else multiset{}
  }

  /** The queue once the nodes of `pops` have been dequeued in order, the k-th of
      them (counting from 1) expanded at move k. */
  function QueueAfter(initial: Board.Board, pops: seq<SearchNode>): multiset<SearchNode>
    requires Board.Valid(initial)
  {
    if pops == [] then multiset{Node(initial, 0, None)}
    else
      var x := pops[|pops| - 1];
      QueueAfter(initial, pops[..|pops| - 1]) - multiset{x} + Expansion(x, |pops|)
  }

  /** Each dequeued node was a least element of the queue at the time. */
  predicate ValidRun(initial: Board.Board, pops: seq<SearchNode>)
    requires Board.Valid(initial)
  {
    pops == [] ||
      var prefix := pops[..|pops| - 1];
      ValidRun(initial, prefix) && IsMin(pops[|pops| - 1], QueueAfter(initial, prefix))
  }

  function Boards(pops: seq<SearchNode>): seq<Board.Board>
  {
    if pops == [] then [] else Boards(pops[..|pops| - 1]) + [pops[|pops| - 1].board]
  }

  /** A node as the queue holds it: a board of the initial shape, its true
      Manhattan distance, and a priority at most `moves` above it. */
  predicate Queued(initial: Board.Board, x: SearchNode, moves: nat)
  {
    Board.Valid(x.board) && x.board.n == initial.n
    && x.manhattan == Board.ManhattanDistance(x.board)
    && 0 <= x.priority - x.manhattan <= moves
  }

  lemma {:induction false} ChildrenQueued(initial: Board.Board, prev: SearchNode, boards: seq<Board.Board>, k: nat, move: nat)
    requires k <= |boards| && forall i :: 0 <= i < |boards| ==> Board.Valid(boards[i]) && boards[i].n == initial.n
    ensures forall c :: c in Children(prev, boards, k, move) ==> Queued(initial, c, move) && c.priority - c.manhattan == move
  {
    if k > 0 {
      ChildrenQueued(initial, prev, boards, k - 1, move);
    }
  }

  /** Dequeuing a node of the initial shape at move k queues only nodes that
      fit the queue invariant for k moves. */
  lemma ExpansionQueued(initial: Board.Board, x: SearchNode, k: nat)
    requires Board.Valid(x.board) && x.board.n == initial.n
    ensures forall c :: c in Expansion(x, k) ==> Queued(initial, c, k)
  {
    if |x.board.blocks| > 0 && !Board.IsGoalBoard(x.board) {
      Board.NeighborsValid(x.board);
      ChildrenQueued(initial, x, Board.NeighborBoards(x.board), |Board.NeighborBoards(x.board)|, k);
    }
  }

  /** One dequeue keeps the queue invariant, with one more move allowed. */
  lemma QueueStep(initial: Board.Board, q: multiset<SearchNode>, x: SearchNode, k: nat)
    requires k > 0 && x in q
    requires forall y :: y in q ==> Queued(initial, y, k - 1)
    ensures forall y :: y in q - multiset{x} + Expansion(x, k) ==> Queued(initial, y, k)
  {
    assert Queued(initial, x, k - 1);
    ExpansionQueued(initial, x, k);
    forall y | y in q - multiset{x} + Expansion(x, k)
      ensures Queued(initial, y, k)
    {
      if y !in Expansion(x, k) {
        assert y in q;
      }
    }
  }

  /** Every node in the queue has a well-formed board of the initial dimension,
      carries its Manhattan distance, and was inserted at some move up to the
      number of nodes dequeued so far. */
  lemma {:induction false} QueueInvariant(initial: Board.Board, pops: seq<SearchNode>)
    requires Board.Valid(initial) && ValidRun(initial, pops)
    ensures forall x :: x in QueueAfter(initial, pops) ==> Queued(initial, x, |pops|)
    decreases |pops|
  {
    if pops != [] {
      var k := |pops|;
      var prefix, x := pops[..k - 1], pops[k - 1];
      QueueInvariant(initial, prefix);
      QueueStep(initial, QueueAfter(initial, prefix), x, k);
    }
  }

  /** A node taken from the queue has a board of the initial shape. */
  lemma QueuedShape(initial: Board.Board, pops: seq<SearchNode>, x: SearchNode)
    requires Board.Valid(initial) && ValidRun(initial, pops)
    requires x in QueueAfter(initial, pops)
    ensures Board.Valid(x.board) && x.board.n == initial.n
  {
    QueueInvariant(initial, pops);
  }

  /** Dequeuing a least node extends a run by one step. */
  lemma RunStep(initial: Board.Board, pops: seq<SearchNode>, x: SearchNode)
    requires Board.Valid(initial) && ValidRun(initial, pops)
    requires IsMin(x, QueueAfter(initial, pops))
    ensures ValidRun(initial, pops + [x])
  {
    assert (pops + [x])[..|pops|] == pops;
  }

  lemma QueueStepAfter(initial: Board.Board, pops: seq<SearchNode>, x: SearchNode)
    requires Board.Valid(initial)
    ensures QueueAfter(initial, pops + [x]) == QueueAfter(initial, pops) - multiset{x} + Expansion(x, |pops| + 1)
  {
    assert (pops + [x])[..|pops|] == pops;
  }

  lemma BoardsStep(pops: seq<SearchNode>, x: SearchNode)
    ensures Boards(pops + [x]) == Boards(pops) + [x.board]
  {
    assert (pops + [x])[..|pops|] == pops;
  }

  /** No node of `pops` holds a goal board. */
  predicate NoneSolved(pops: seq<SearchNode>)
  {
    pops == [] || (NoneSolved(pops[..|pops| - 1]) && !Solved(pops[|pops| - 1]))
  }

  lemma NoneSolvedExtend(pops: seq<SearchNode>, x: SearchNode)
    requires NoneSolved(pops) && !Solved(x)
    ensures NoneSolved(pops + [x])
  {
    assert (pops + [x])[..|pops|] == pops;
  }

  /** A goal-free run holds no goal at any position. */
  lemma {:induction false} NoneSolvedAt(pops: seq<SearchNode>, k: nat)
    requires NoneSolved(pops) && k < |pops|
    ensures !Solved(pops[k])
  {
    if k < |pops| - 1 {
      NoneSolvedAt(pops[..|pops| - 1], k);
    }
  }

  /** Dequeuing a goal board adds nothing to the queue. */
  lemma GoalNotExpanded(x: SearchNode, move: int)
    requires Solved(x)
    ensures Expansion(x, move) == multiset{}
  {
  }

  /** The first board dequeued is the initial one, the only node queued at the start. */
  lemma {:induction false} FirstPopIsInitial(initial: Board.Board, pops: seq<SearchNode>)
    requires Board.Valid(initial) && ValidRun(initial, pops) && |pops| > 0
    ensures pops[0] == Node(initial, 0, None) && Boards(pops)[0] == initial
  {
    var prefix := pops[..|pops| - 1];
    if |pops| > 1 {
      FirstPopIsInitial(initial, prefix);
    } else {
      assert prefix == [];
    }
    BoardsIndex(pops, 0);
  }

  lemma {:induction false} BoardsIndex(pops: seq<SearchNode>, k: nat)
    requires k < |pops|
    ensures |Boards(pops)| == |pops| && Boards(pops)[k] == pops[k].board
  {
    if k < |pops| - 1 {
      BoardsIndex(pops[..|pops| - 1], k);
    } else if k > 0 {
      BoardsIndex(pops[..|pops| - 1], k - 1);
    } else {
      BoardsLength(pops[..|pops| - 1]);
    }
  }

  lemma {:induction false} BoardsLength(pops: seq<SearchNode>)
    ensures |Boards(pops)| == |pops|
  {
    if pops != [] {
      BoardsLength(pops[..|pops| - 1]);
    }
  }

  /** The solver's observable state: `moves()`, `solution()` and `isSolvable()`. */
  datatype Solver = Solver(moves: int, solution: seq<Board.Board>, isSolvable: bool)

  /** The state the constructor's loop keeps: the queue and the solution are
      those of a valid run, and only the last node of the run, once the loop is
      done, holds a goal. */
  predicate Searching(initial: Board.Board, items: multiset<SearchNode>, run: seq<SearchNode>,
                      solution: seq<Board.Board>, done: bool)
    requires Board.Valid(initial)
  {
    ValidRun(initial, run) && items == QueueAfter(initial, run) && solution == Boards(run)
    && (initial.n == 0 ==> run == [])
    && if done then |run| > 0 && Solved(run[|run| - 1]) && NoneSolved(run[..|run| - 1])
       else NoneSolved(run)
  }

  /** A dequeued node extends the search state; the loop is done exactly when it
      holds a goal. */
  lemma SearchStep(initial: Board.Board, items0: multiset<SearchNode>, items: multiset<SearchNode>,
                   run: seq<SearchNode>, solution: seq<Board.Board>, x: SearchNode)
    requires Board.Valid(initial) && initial.n != 0
    requires Searching(initial, items0, run, solution, false)
    requires ValidRun(initial, run + [x]) && items == QueueAfter(initial, run + [x])
    ensures Searching(initial, items, run + [x], solution + [x.board], Solved(x))
  {
    BoardsStep(run, x);
    if Solved(x) {
      assert (run + [x])[..|run|] == run;
    } else {
      NoneSolvedExtend(run, x);
    }
  }

  /** The `Solver` constructor. The search has no bound of its own; `fuel` caps
      the number of dequeues, and `run` is the sequence of dequeued nodes. */
  method Solve(initial: Board.Board, fuel: nat) returns (r: Result<Solver>, ghost run: seq<SearchNode>)
    requires Board.Valid(initial)
    ensures ValidRun(initial, run) && |run| <= fuel
    ensures r.Ok? ==> r.value.isSolvable
    ensures r.Ok? ==> r.value.moves == |run| == |r.value.solution| && r.value.solution == Boards(run)
    ensures r.Ok? ==> |run| > 0 && Solved(run[|run| - 1])
    ensures r.Ok? ==> NoneSolved(run[..|run| - 1])
    ensures r.Err? ==> r.error == NoSuchElement || r.error == OutOfFuel || r.error == IndexOutOfBounds
    ensures r == Err(NoSuchElement) ==> QueueAfter(initial, run) == multiset{}
    ensures r == Err(OutOfFuel) ==> fuel == |run| && NoneSolved(run)
    ensures r == Err(IndexOutOfBounds) <==> fuel > 0 && initial.n == 0
  {
    var pq := new MinPQ();
    var node := NewNode(initial, 0, None);
    pq.Insert(node);
    assert Boards([]) == [];
    r, run := Search(initial, pq, fuel);
    if r.Ok? {
      BoardsLength(run);
    }
  }

  /** The constructor's loop: dequeue until a goal is found. */
  method Search(initial: Board.Board, pq: MinPQ, fuel: nat) returns (r: Result<Solver>, ghost run: seq<SearchNode>)
    requires Board.Valid(initial) && Searching(initial, pq.items, [], [], false)
    modifies pq
    ensures ValidRun(initial, run) && |run| <= fuel
    ensures r.Ok? ==> r.value.isSolvable && r.value.moves == |run|
    ensures r.Ok? ==> Searching(initial, pq.items, run, r.value.solution, true)
    ensures r.Err? ==> r.error == NoSuchElement || r.error == OutOfFuel || r.error == IndexOutOfBounds
    ensures r == Err(NoSuchElement) ==> QueueAfter(initial, run) == multiset{}
    ensures r == Err(OutOfFuel) ==> fuel == |run| && NoneSolved(run)
    ensures r == Err(IndexOutOfBounds) <==> fuel > 0 && initial.n == 0
  {
    var move := 0;
    var solution: seq<Board.Board> := [];
    run := [];
    var done := false;
    while !done
      invariant Searching(initial, pq.items, run, solution, done)
      invariant move == |run| <= fuel
      decreases fuel - |run|, if done then 0 else 1
    {
      if move == fuel {
        return Err(OutOfFuel), run;
      }
      var step, goal := Iterate(initial, pq, move + 1, run, solution);
      if step.Err? {
        return Err(step.error), run;
      }
      var node := step.value;
      solution := solution + [node.board];
      move := move + 1;
      run := run + [node];
      done := goal;
    }
    return Ok(Solver(move, solution, true)), run;
  }

  /** One pass of the constructor's loop on the queue: dequeue a least node,
      test its board, and queue its neighbours at the incremented move unless
      it is a goal. An empty
      queue underflows; a board without cells fails the goal test. */
  method Iterate(initial: Board.Board, pq: MinPQ, move: nat, ghost run: seq<SearchNode>, ghost solution: seq<Board.Board>)
    returns (r: Result<SearchNode>, goal: bool)
    requires Board.Valid(initial) && Searching(initial, pq.items, run, solution, false)
    requires move == |run| + 1
    modifies pq
    ensures r.Err? ==> r.error == NoSuchElement || r.error == IndexOutOfBounds
    ensures r == Err(NoSuchElement) <==> QueueAfter(initial, run) == multiset{}
    ensures r == Err(IndexOutOfBounds) <==> initial.n == 0
    ensures r.Ok? ==> goal == Solved(r.value)
    ensures r.Ok? ==> Searching(initial, pq.items, run + [r.value], solution + [r.value.board], goal)
  {
    var popped := pq.DelMin();
    if popped.Err? {
      return Err(NoSuchElement), false;
    }
    var node := popped.value;
    QueuedShape(initial, run, node);
    RunStep(initial, run, node);
    QueueStepAfter(initial, run, node);
    var isGoal := Board.IsGoal(node.board);
    if isGoal.Err? {
      return Err(isGoal.error), false;
    }
    goal := isGoal.value;
    if goal {
      GoalNotExpanded(node, move);
    } else {
      InsertNeighbors(pq, node, move);
    }
    SearchStep(initial, old(pq.items), pq.items, run, solution, node);
    return Ok(node), goal;
  }

  /** The inner loop of the constructor: a node for every neighbour of a
      non-goal board goes into the queue. */
  method InsertNeighbors(pq: MinPQ, node: SearchNode, move: int)
    requires Board.Valid(node.board) && |node.board.blocks| > 0 && !Board.IsGoalBoard(node.board)
    modifies pq
    ensures pq.items == old(pq.items) + Expansion(node, move)
  {
    var ns := Board.Neighbors(node.board);
    Board.NeighborsValid(node.board);
    InsertChildren(pq, node, ns, move);
    ExpansionChildren(node, move);
  }

  /** Queues a node for each of `boards`, in order. */
  method InsertChildren(pq: MinPQ, node: SearchNode, boards: seq<Board.Board>, move: int)
    requires forall i :: 0 <= i < |boards| ==> Board.Valid(boards[i])
    modifies pq
    ensures pq.items == old(pq.items) + Children(node, boards, |boards|, move)
  {
    for i := 0 to |boards|
      invariant pq.items == old(pq.items) + Children(node, boards, i, move)
    {
      var child := NewNode(boards[i], move, Some(node));
      pq.Insert(child);
    }
  }

  lemma ExpansionChildren(x: SearchNode, move: int)
    requires Board.Valid(x.board) && |x.board.blocks| > 0 && !Board.IsGoalBoard(x.board)
    ensures forall j :: 0 <= j < |Board.NeighborBoards(x.board)| ==> Board.Valid(Board.NeighborBoards(x.board)[j])
    ensures Expansion(x, move) == Children(x, Board.NeighborBoards(x.board), |Board.NeighborBoards(x.board)|, move)
  {
    Board.NeighborsValid(x.board);
  }
}
