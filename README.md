# algs4 assignments, modelled in Dafny

This project models the core of a set of solutions to the Princeton
*Algorithms* course assignments and proves properties about the model:

- **8-puzzle** (`Board`, `Solver`): the board of n-by-n tiles stored row by
  row, its Hamming and Manhattan distances, the goal test, `twin()`,
  `neighbors()` and `toString()`, and the best-first search that dequeues a
  least-priority node until it dequeues a goal board.
- **Percolation**, in both versions of the repository: an n-by-n grid of
  status bytes (OPEN, TOP_CONNECTED, BOTTOM_CONNECTED) over a weighted
  quick-union forest. The first version
  (`assignments/1-percolation`) scans four neighbours with flattened offsets
  and writes the new status to the component root, or to the site itself when
  the root is 0. The revised version (`assignments/percolation`) collects the
  four neighbour statuses and writes the site and its root.
- **Deque and RandomizedQueue**: a doubly linked ring with a sentinel node,
  and a resizing array with random removal and a shuffled iterator.
- **WordNet**: the synset and hypernym parsers, the shortest ancestral path
  (`SAP`) over two breadth-first searches, and `Outcast`.
- **2d-tree** (`KdTree`): insertion, search and size.
- **Point**: `compareTo` and `toString`.

Layout, one module per source class plus small shared modules:

| file | module | models |
|---|---|---|
| `wrappers.dfy` | `Wrappers` | `Option`, `Result`, `Outcome` and the Java exception kinds |
| `java_int.dfy` | `JavaInt` | Java's truncating `/` and `%`, `Math.abs` |
| `java_text.dfy` | `JavaText` | decimal rendering, `%3d`, `Integer.parseInt`, `String.split` on one character |
| `grid.dfy` | `Grid` | row-major indexing of an n-by-n grid |
| `point.dfy` | `Point` | `Point.java` |
| `board.dfy`, `solver.dfy` | `Board`, `Solver` | `Board.java`, `Solver.java` |
| `unionfind.dfy` | `UnionFind` | the weighted quick-union forest both Percolation classes use |
| `percolation_sites.dfy` | `PercolationSites` | the grid state, `validatePosition`, `getId`, `isOpen`, `isFull` shared by both versions |
| `percolation1.dfy`, `percolation2.dfy` | `PercolationV1`, `PercolationV2` | the two `Percolation.java` files |
| `deque.dfy`, `randomized_queue.dfy` | `Deques`, `RandomizedQueues` | `Deque.java`, `RandomizedQueue.java` |
| `bfs.dfy`, `sap.dfy` | `BreadthFirst`, `Sap` | `SAP.java` (its nested `BFS` class, then `SAP`) |
| `wordnet.dfy`, `outcast.dfy` | `WordNets`, `Outcasts` | `WordNet.java`, `Outcast.java` |
| `kdtree.dfy` | `KdTrees` | `KdTree.java` |

State that the Java code updates in place is modelled as Dafny classes
over arrays or linked nodes: the union-find forest, the percolation grids,
the deque ring, the randomized queue buffer and the queue's iterator, the BFS
arrays, the k-d tree nodes and the solver's priority queue. Each class's
methods are proved against a specification function of the old state, and
the properties are proved about those functions. Values the code never
mutates are datatypes: boards, points, search nodes and the solver's result.
A Java exception is the `Err` of a `Result` (or the `Fail` of an `Outcome`)
carrying its kind. A `null` argument that the code checks or dereferences
(an item, a point, a board to compare, a vertex set, the noun array, a file
name) is a `None`. Null words, and null elements inside a set or an array,
are not modelled (see "Left out").

Randomness (`StdRandom.uniform`), file reading (`In`) and standard output
are not modelled as effects. Each random draw is a parameter (`choice`, or
a sequence of `draws`). Each file is a parameter holding its lines.
`Outcast` takes the WordNet distance as a function parameter.

## Model

| member | source | states |
|---|---|---|
| Point.CompareTo | assignments/3-pattern-recognition/src/Point.java:85-95 | the result is -1, 0 or 1, and it is 0 exactly when the two points are equal |
| Point.CompareToLess | assignments/3-pattern-recognition/src/Point.java:92-94 | a point is less than another exactly when its y is smaller, or the y's tie and its x is smaller; greater in the mirrored case |
| Point.CompareToAntisymmetric | assignments/3-pattern-recognition/src/Point.java:85-95 | swapping the operands negates the comparison |
| Point.CompareToTransitive | assignments/3-pattern-recognition/src/Point.java:85-95 | the order is transitive, and a chain that compares equal end to end has three equal points |
| Point.CompareToFixtures | assignments/3-pattern-recognition/src/Point.java:177-205 | the nine comparisons of the test client against (1, 1) give the signs it expects |
| Point.ToString | assignments/3-pattern-recognition/src/Point.java:115-117 | the text is at least six characters, opened by `(` and closed by `)` |
| Point.ToStringInjective | assignments/3-pattern-recognition/src/Point.java:115-117 | two points with the same text are the same point, so the text can be parsed back |
| Board.FromRows | assignments/4-8-puzzle/src/Board.java:32-40 | fails with an index error exactly when some row is shorter than the number of rows; otherwise the board has n*n cells and cell (r, c) holds rows[r][c] |
| Board.Hamming | assignments/4-8-puzzle/src/Board.java:55-62 | the loop returns the number of non-blank tiles not at their goal index |
| Board.Manhattan | assignments/4-8-puzzle/src/Board.java:65-81 | the double loop returns the sum of the tiles' distances to their goal cells, computed with Java's truncating division |
| Board.AddRowDistances | assignments/4-8-puzzle/src/Board.java:70-79 | the inner loop adds row r's distances to the running total |
| Board.ManhattanStep | assignments/4-8-puzzle/src/Board.java:71-78 | cell (r, c) adds nothing for the blank, otherwise the row and column distance of its goal cell |
| Board.MisplacedCellDistance | assignments/4-8-puzzle/src/Board.java:55-81 | a tile off its goal cell is at Manhattan distance at least 1 from it |
| Board.DistanceAtLeastMisplaced | assignments/4-8-puzzle/src/Board.java:55-81 | over every prefix of the cells, the Manhattan total is at least the Hamming count |
| Board.ManhattanAtLeastHamming | assignments/4-8-puzzle/src/Board.java:55-81 | manhattan() is at least hamming() on every board |
| Board.IsGoal | assignments/4-8-puzzle/src/Board.java:84-90 | an empty board fails with an index error; otherwise the result is true exactly when tile k sits at index k-1 and the blank is last |
| Board.GoalBoard | assignments/4-8-puzzle/src/Board.java:84-90 | the goal board of each dimension is a well-shaped board of that dimension |
| Board.GoalBoardUnique | assignments/4-8-puzzle/src/Board.java:84-90 | isGoal() holds of exactly one board per dimension, the goal board |
| Board.GoalHeuristicsZero | assignments/4-8-puzzle/src/Board.java:168-172 | a goal board has Hamming and Manhattan distance 0 |
| Board.Equals | assignments/4-8-puzzle/src/Board.java:108-122 | equals(y) is true exactly when y is present and is the same board (same dimension, same cells) |
| Board.Swap | assignments/4-8-puzzle/src/Board.java:152-156 | the two cells of the array trade values, every other cell is unchanged, and the multiset of values is kept |
| Board.Swapped | assignments/4-8-puzzle/src/Board.java:159-163 | the copy with two cells swapped has the same dimension and number of cells |
| Board.SwappedCells | assignments/4-8-puzzle/src/Board.java:159-163 | the copy with two cells swapped differs from the board in exactly those two cells and holds the same tiles |
| Board.TwinAt | assignments/4-8-puzzle/src/Board.java:159-163 | twin(i, k) builds the board with cells i and k exchanged, leaving the original alone |
| Board.SwapTwice | assignments/4-8-puzzle/src/Board.java:159-163 | swapping the same two cells twice gives the board back |
| Board.Twin | assignments/4-8-puzzle/src/Board.java:93-105 | a board smaller than 2 by 2 fails with an index error; otherwise the result is the twin board |
| Board.TwinCellsAdjacent | assignments/4-8-puzzle/src/Board.java:95-102 | the two cells twin() exchanges are orthogonal neighbours on the grid |
| Board.TwinTwice | assignments/4-8-puzzle/src/Board.java:93-105 | twin() undoes itself unless its first swap moved the blank into cell 0 |
| Board.TwinMayMoveBlank | assignments/4-8-puzzle/src/Board.java:95-96 | on the 2-by-2 board 1 0 / 2 3, twin() swaps the tile with the blank, so it can move the blank |
| Board.TwinIsNeighbor | assignments/4-8-puzzle/src/Board.java:93-105 | the twin board is one of neighbors() |
| Board.Neighbors | assignments/4-8-puzzle/src/Board.java:125-138 | the stack of neighbours is the reference list of all horizontal then vertical adjacent swaps, newest first |
| Board.PushRowSwaps | assignments/4-8-puzzle/src/Board.java:128-130 | the inner loop pushes the horizontal swaps of row r onto the stack |
| Board.PushColumnSwaps | assignments/4-8-puzzle/src/Board.java:133-135 | the inner loop pushes the vertical swaps of column c onto the stack |
| Board.NeighborCount | assignments/4-8-puzzle/src/Board.java:192 | there are 2 * n * (n - 1) neighbours |
| Board.NeighborsAreAdjacentSwaps | assignments/4-8-puzzle/src/Board.java:125-138 | every neighbour is the board with two orthogonally adjacent cells exchanged |
| Board.NeighborsValid | assignments/4-8-puzzle/src/Board.java:125-138 | every neighbour is a well-shaped board of the same dimension |
| Board.AdjacentSwapsAreNeighbors | assignments/4-8-puzzle/src/Board.java:125-138 | conversely, every swap of two adjacent cells is among the neighbours |
| Board.HorizontalSwapListed | assignments/4-8-puzzle/src/Board.java:128-130 | the swap of a cell with its right-hand neighbour in the same row is pushed |
| Board.VerticalSwapListed | assignments/4-8-puzzle/src/Board.java:133-135 | the swap of a cell with the cell below it is pushed |
| Board.ToString | assignments/4-8-puzzle/src/Board.java:141-150 | the builder produces the dimension line followed by the cells, each right-aligned to three characters, with a line break before every row but the first |
| Board.RenderLineCount | assignments/4-8-puzzle/src/Board.java:141-150 | the text of a non-empty board holds exactly n line breaks: one after the header and one between consecutive rows |
| Solver.NewNode | assignments/4-8-puzzle/src/Solver.java:77-82 | a search node records its board, its parent, the board's Manhattan distance and the priority Manhattan + move |
| Solver.Compare | assignments/4-8-puzzle/src/Solver.java:87-89 | the comparator is Integer.compare on priorities: negative, zero or positive as the first priority is smaller, equal or larger |
| Solver.MinPQ.constructor | assignments/4-8-puzzle/src/Solver.java:27 | a new priority queue is empty |
| Solver.MinPQ.Insert | assignments/4-8-puzzle/src/Solver.java:31 | insert adds the node to the queue's contents and nothing else |
| Solver.MinPQ.DelMin | assignments/4-8-puzzle/src/Solver.java:39 | an empty queue underflows; otherwise some least-priority node is removed and returned, once |
| Solver.MinExists | assignments/4-8-puzzle/src/Solver.java:39 | a non-empty queue always has a least element to hand out |
| Solver.QueueInvariant | assignments/4-8-puzzle/src/Solver.java:38-50 | after any valid run every queued node holds a board of the initial dimension, its true Manhattan distance, and a priority between that distance and that distance plus the number of moves |
| Solver.FirstPopIsInitial | assignments/4-8-puzzle/src/Solver.java:30-40 | the first node dequeued is the initial board at move 0, so the solution starts with the initial board |
| Solver.BoardsIndex | assignments/4-8-puzzle/src/Solver.java:40 | the solution holds one board per dequeue, the k-th being the board of the k-th dequeued node |
| Solver.GoalNotExpanded | assignments/4-8-puzzle/src/Solver.java:43-44 | a goal board adds nothing to the queue |
| Solver.NoneSolvedAt | assignments/4-8-puzzle/src/Solver.java:43-44 | before the loop stops, no dequeued board is a goal |
| Solver.ExpansionChildren | assignments/4-8-puzzle/src/Solver.java:46-48 | a non-goal board adds one node per neighbour, at the current move, with it as parent |
| Solver.SearchStep | assignments/4-8-puzzle/src/Solver.java:38-50 | one dequeue extends the search state; the loop is done exactly when the dequeued board is a goal |
| Solver.InsertChildren | assignments/4-8-puzzle/src/Solver.java:46-48 | the inner loop adds exactly the neighbours' nodes to the queue |
| Solver.InsertNeighbors | assignments/4-8-puzzle/src/Solver.java:46-48 | expanding a non-goal board adds exactly its expansion to the queue |
| Solver.Iterate | assignments/4-8-puzzle/src/Solver.java:39-49 | one pass of the loop dequeues a least node, fails on an empty queue or an empty board, and otherwise keeps the search invariant and reports whether the board is the goal |
| Solver.Search | assignments/4-8-puzzle/src/Solver.java:37-50 | the loop stops at the first goal board dequeued; moves is the number of dequeues and solution the dequeued boards |
| Solver.Solve | assignments/4-8-puzzle/src/Solver.java:26-54 | on success the solver is solvable, moves equals the length of the solution, the last board is the first goal dequeued and no earlier one is a goal; otherwise the queue ran dry, the fuel ran out, or the board is empty |
| UnionFind.Singletons | assignments/1-percolation/src/Percolation.java:46 | the new forest has n singleton components of size 1 |
| UnionFind.Merged | assignments/1-percolation/src/Percolation.java:94 | union keeps every root in range and the number of sites |
| UnionFind.MergedWellFormed | assignments/1-percolation/src/Percolation.java:94 | union keeps the forest well formed (roots are their own roots, sizes count members) |
| UnionFind.MergedRoot | assignments/1-percolation/src/Percolation.java:101 | after union(p, q) both sites have the same root, the root of the larger component (p's on a tie) |
| UnionFind.MergedConnects | assignments/1-percolation/src/Percolation.java:94 | after union(p, q) two sites are connected exactly when they were, or each was connected to p or q |
| UnionFind.LinkKeepsForest | assignments/1-percolation/src/Percolation.java:94 | pointing one root at another keeps parent links, roots and depths consistent |
| UnionFind.UF.constructor | assignments/1-percolation/src/Percolation.java:46 | new WeightedQuickUnionUF(n) has n singleton components |
| UnionFind.UF.Find | assignments/1-percolation/src/Percolation.java:101 | find(p) returns the root of p's component |
| UnionFind.UF.Union | assignments/1-percolation/src/Percolation.java:94 | union(p, q) updates the arrays so that the forest becomes Merged of the old one |
| UnionFind.UF.Link | assignments/1-percolation/src/Percolation.java:94 | linking a root under another relinks exactly the first root's members and adds its size to the second |
| PercolationSites.Or | assignments/1-percolation/src/Percolation.java:93 | the bitwise or of two status bytes has every flag of both |
| PercolationSites.GetId | assignments/1-percolation/src/Percolation.java:157-159 | a valid (row, col) maps to a site id below n*n |
| PercolationSites.GetIdBijective | assignments/1-percolation/src/Percolation.java:157-159 | getId is a bijection between valid positions and site ids |
| PercolationSites.Create | assignments/1-percolation/src/Percolation.java:39-49 | n <= 0 is rejected; otherwise all n*n sites are blocked and singletons, nothing is open and nothing percolates |
| PercolationSites.Flags | assignments/1-percolation/src/Percolation.java:65-73 | a newly opened site is OPEN, TOP_CONNECTED exactly in row 1 and BOTTOM_CONNECTED exactly in row n |
| PercolationSites.IsOpen | assignments/1-percolation/src/Percolation.java:116-120 | an invalid position is rejected; otherwise the result is whether the site's status byte is non-zero |
| PercolationSites.IsFull | assignments/1-percolation/src/Percolation.java:125-130 | an invalid position is rejected, as validatePosition does |
| PercolationSites.CountOpenUpdate | assignments/1-percolation/src/Percolation.java:59-63 | giving a site a non-zero status adds one to the number of open sites exactly when it was blocked |
| PercolationV1.OffsetsVisitNeighbours | assignments/1-percolation/src/Percolation.java:84-88 | the offsets -3, -1, 1, 3 visit left, up, down and right, because Java's % and / truncate toward zero |
| PercolationV1.Visit | assignments/1-percolation/src/Percolation.java:87-96 | visiting a neighbour keeps the forest in range and keeps every flag gathered so far; a neighbour off the grid changes nothing |
| PercolationV1.VisitSkips | assignments/1-percolation/src/Percolation.java:89-91 | a neighbour off the grid or blocked changes nothing |
| PercolationV1.VisitJoins | assignments/1-percolation/src/Percolation.java:90-95 | an open neighbour adds the status of its root and is united with the site |
| PercolationV1.LookAround | assignments/1-percolation/src/Percolation.java:65-97 | the gathered status has the row's own flags and is open |
| PercolationV1.LookAroundVisits | assignments/1-percolation/src/Percolation.java:84-97 | the loop visits left, up, down and right, in that order |
| PercolationV1.Opened | assignments/1-percolation/src/Percolation.java:54-111 | an invalid position is rejected; an open site changes nothing; a blocked one adds one to the count; open sites stay open and percolation is never lost |
| PercolationV1.OpenedBlocked | assignments/1-percolation/src/Percolation.java:99-110 | opening a blocked site writes the gathered status to the component root, or to the site itself when that root is 0 |
| PercolationV1.OpenedPercolates | assignments/1-percolation/src/Percolation.java:108-110 | after opening a blocked site the grid percolates exactly when it did before or the gathered status has both TOP and BOTTOM |
| PercolationV1.OneByOne | assignments/1-percolation/src/Percolation.java:163-167 | opening the only site of a 1-by-1 grid makes it percolate, makes the site full, and counts one open site |
| PercolationV1.ScriptStep1 | assignments/1-percolation/src/Percolation.java:169-170 | open(1, 1) on a fresh grid of size n >= 2 marks site 0 open and top-connected only |
| PercolationV1.ScriptStep2 | assignments/1-percolation/src/Percolation.java:172 | open(1, 2) then unites sites 1 and 0 under root 1 and writes the status to site 1 |
| PercolationV1.ScriptStep3 | assignments/1-percolation/src/Percolation.java:173 | open(2, 1) then unites site n with the component, and the status is written to root 1, not to site n |
| PercolationV1.ReachStage1 | assignments/1-percolation/src/Percolation.java:169-170 | on any grid of size n >= 2, open(1, 1) succeeds and reaches the first stage of the script |
| PercolationV1.ReachStage2 | assignments/1-percolation/src/Percolation.java:172 | open(1, 2) then succeeds and reaches the second stage |
| PercolationV1.ReachStage3 | assignments/1-percolation/src/Percolation.java:173 | open(2, 1) then succeeds, and afterwards isOpen(2, 1) is false while three sites are counted and two status bytes are non-zero |
| PercolationV1.OpenLeavesSiteBlocked | assignments/1-percolation/src/Percolation.java:101-106 | after open(1, 1), open(1, 2) and open(2, 1) on any grid of size n >= 2, isOpen(2, 1) is false while three sites are counted open and only two status bytes are non-zero |
| PercolationV1.Percolation.constructor | assignments/1-percolation/src/Percolation.java:39-49 | the arrays and the forest hold the state Create(n) describes |
| PercolationV1.Percolation.Open | assignments/1-percolation/src/Percolation.java:54-111 | open(row, col) turns the state into Opened of the old state, or rejects the position and changes nothing |
| PercolationV1.Percolation.OpenSite | assignments/1-percolation/src/Percolation.java:57-110 | opening a blocked site produces exactly the Opened state |
| PercolationV1.Percolation.CombinedStatus | assignments/1-percolation/src/Percolation.java:65-97 | the computed status and the united forest are those LookAround describes |
| PercolationV1.Percolation.LookAroundLoop | assignments/1-percolation/src/Percolation.java:84-97 | the loop over the four offsets computes the Scan of the reference definition |
| PercolationV1.Percolation.Neighbour | assignments/1-percolation/src/Percolation.java:85-96 | one pass of the loop is one Visit |
| PercolationV1.Percolation.Store | assignments/1-percolation/src/Percolation.java:99-110 | the status goes to the root, or to the site when the root is 0; the count grows by one and percolates is or-ed with the new status |
| PercolationV1.Percolation.IsOpen | assignments/1-percolation/src/Percolation.java:116-120 | isOpen agrees with the state's reference IsOpen, including the rejected positions |
| PercolationV1.Percolation.IsFull | assignments/1-percolation/src/Percolation.java:125-130 | isFull agrees with the state's reference IsFull (TOP at the site's root) |
| PercolationV1.Percolation.NumberOfOpenSites | assignments/1-percolation/src/Percolation.java:135-137 | returns the counter of the state |
| PercolationV1.Percolation.Percolates | assignments/1-percolation/src/Percolation.java:142-144 | returns the percolates flag of the state |
| PercolationV1.New | assignments/1-percolation/src/Percolation.java:39-42 | n <= 0 throws IllegalArgumentException; otherwise a grid in the state Create(n) |
| PercolationV2.Visit | assignments/percolation/src/Percolation.java:80-96 | visiting one neighbour keeps four slots and the forest in range; a neighbour off the grid changes nothing |
| PercolationV2.ScanStep | assignments/percolation/src/Percolation.java:78 | the loop runs i = -1, then i = 1 |
| PercolationV2.LookAround | assignments/percolation/src/Percolation.java:76-98 | the four neighbour slots and the united forest keep their shape |
| PercolationV2.Combine | assignments/percolation/src/Percolation.java:106 | the new status has the row's own flags and every flag of the four neighbour roots |
| PercolationV2.Opened | assignments/percolation/src/Percolation.java:51-116 | as in the first version, and in addition the opened site is always left open |
| PercolationV2.OpenedBlocked | assignments/percolation/src/Percolation.java:106-115 | opening a blocked site writes the combined status to the site and to its root |
| PercolationV2.OpenedIsOpen | assignments/percolation/src/Percolation.java:121-125 | after open(row, col), isOpen(row, col) is true |
| PercolationV2.OpenedTopRowFull | assignments/percolation/src/Percolation.java:130-135 | opening a blocked top-row site makes it full |
| PercolationV2.OpenedStatus | assignments/percolation/src/Percolation.java:66-115 | the site and its root get the same status, which is TOP exactly when the row is 1 or a neighbour root was TOP, and BOTTOM likewise; the grid percolates when it did or the status has both |
| PercolationV2.MergedKeepsRootsOpen | assignments/percolation/src/Percolation.java:85-95 | uniting the site with an open neighbour keeps every non-trivial root other than the site open |
| PercolationV2.VisitKeepsRootsOpen | assignments/percolation/src/Percolation.java:80-96 | visiting one neighbour keeps every non-trivial root other than the site open |
| PercolationV2.LookAroundKeepsRootsOpen | assignments/percolation/src/Percolation.java:76-98 | uniting with open neighbours leaves every non-trivial root open, or equal to the site |
| PercolationV2.CreateConsistent | assignments/percolation/src/Percolation.java:36-46 | a new grid is consistent: the counter equals the number of non-zero status bytes and every non-trivial root is open |
| PercolationV2.OpenedConsistent | assignments/percolation/src/Percolation.java:51-116 | open keeps the grid consistent |
| PercolationV2.Percolation.constructor | assignments/percolation/src/Percolation.java:36-46 | the arrays and the forest hold the state Create(n) describes |
| PercolationV2.Percolation.Open | assignments/percolation/src/Percolation.java:51-116 | open(row, col) turns the state into Opened of the old state, or rejects the position and changes nothing, and keeps it consistent |
| PercolationV2.Percolation.OpenSite | assignments/percolation/src/Percolation.java:54-115 | opening a blocked site produces exactly the Opened state |
| PercolationV2.Percolation.CombinedStatus | assignments/percolation/src/Percolation.java:66-106 | the computed status is the row's flags combined with the four neighbour slots of LookAround |
| PercolationV2.Percolation.Gather | assignments/percolation/src/Percolation.java:77-106 | the neighbour array is filled and or-ed into the status |
| PercolationV2.Percolation.LookAroundLoop | assignments/percolation/src/Percolation.java:78-98 | the loop fills the four slots as the reference Scan does |
| PercolationV2.Percolation.LookAroundTurn | assignments/percolation/src/Percolation.java:79-97 | one pass of the loop visits the vertical then the horizontal neighbour |
| PercolationV2.Percolation.Neighbour | assignments/percolation/src/Percolation.java:80-96 | one neighbour fills its slot with its root's status and is united with the site |
| PercolationV2.Percolation.Store | assignments/percolation/src/Percolation.java:108-115 | the status goes to the site and then to its root; the count grows by one and percolates is or-ed with the new status |
| PercolationV2.Percolation.IsOpen | assignments/percolation/src/Percolation.java:121-125 | isOpen agrees with the state's reference IsOpen |
| PercolationV2.Percolation.IsFull | assignments/percolation/src/Percolation.java:130-135 | isFull agrees with the state's reference IsFull |
| PercolationV2.Percolation.NumberOfOpenSites | assignments/percolation/src/Percolation.java:140-142 | the counter equals the number of open sites in the grid |
| PercolationV2.Percolation.Percolates | assignments/percolation/src/Percolation.java:147-149 | returns the percolates flag of the state |
| PercolationV2.New | assignments/percolation/src/Percolation.java:36-39 | n <= 0 throws IllegalArgumentException; otherwise a grid in the state Create(n) |
| Deques.InsertHolds | assignments/2-queues/src/Deque.java:74-79 | splicing a node after position k of the ring inserts its item at index k of the contents |
| Deques.RemoveHolds | assignments/2-queues/src/Deque.java:89-90 | unlinking the node at position k of the ring removes item k-1 of the contents |
| Deques.Deque.constructor | assignments/2-queues/src/Deque.java:36-40 | a new deque is empty |
| Deques.Deque.IsEmpty | assignments/2-queues/src/Deque.java:45-47 | true exactly when the deque holds no item |
| Deques.Deque.Size | assignments/2-queues/src/Deque.java:49-51 | the number of items |
| Deques.Deque.Insert | assignments/2-queues/src/Deque.java:69-82 | null is rejected and nothing changes; otherwise the item is inserted between the two given nodes |
| Deques.Deque.Splice | assignments/2-queues/src/Deque.java:74-81 | the new node is linked between its neighbours and the item appears at that index |
| Deques.Deque.Remove | assignments/2-queues/src/Deque.java:84-95 | an empty deque throws NoSuchElementException; otherwise the node's item is returned and removed |
| Deques.Deque.AddFirst | assignments/2-queues/src/Deque.java:53-55 | null is rejected; otherwise the item becomes the first |
| Deques.Deque.AddLast | assignments/2-queues/src/Deque.java:57-59 | null is rejected; otherwise the item becomes the last |
| Deques.Deque.RemoveFirst | assignments/2-queues/src/Deque.java:61-63 | an empty deque throws; otherwise the first item is returned and removed |
| Deques.Deque.RemoveLast | assignments/2-queues/src/Deque.java:65-67 | an empty deque throws; otherwise the last item is returned and removed |
| Deques.Deque.Iterator | assignments/2-queues/src/Deque.java:97-99 | a new iterator over this deque starts at the first item |
| Deques.DequeIterator.constructor | assignments/2-queues/src/Deque.java:101-102 | the iterator starts at position 0 |
| Deques.DequeIterator.HasNext | assignments/2-queues/src/Deque.java:104-106 | true exactly while items remain |
| Deques.DequeIterator.Next | assignments/2-queues/src/Deque.java:112-119 | returns the items front to back, then throws NoSuchElementException |
| Deques.IterationOrder | assignments/2-queues/src/Deque.java:180-198 | after addLast(12), addLast(13), addFirst(11) the iterator yields 11, 12, 13 and then throws |
| Deques.AddThenRemove | assignments/2-queues/src/Deque.java:152-178 | adding one item at either end and removing from either end returns it and leaves the deque empty |
| RandomizedQueues.SwapPermutes | assignments/2-queues/src/RandomizedQueue.java:121-123 | exchanging two entries keeps the multiset of entries |
| RandomizedQueues.Shuffled | assignments/2-queues/src/RandomizedQueue.java:118-125 | the shuffle of a sequence has its length |
| RandomizedQueues.ShuffledPermutes | assignments/2-queues/src/RandomizedQueue.java:118-125 | the shuffle is a permutation for every sequence of draws |
| RandomizedQueues.Shuffle | assignments/2-queues/src/RandomizedQueue.java:118-125 | the in-place loop leaves the array shuffled as the reference definition says |
| RandomizedQueues.GatherShuffled | assignments/2-queues/src/RandomizedQueue.java:89-114 | reading the items through shuffled indices equals shuffling the items themselves |
| RandomizedQueues.IteratorOrder | assignments/2-queues/src/RandomizedQueue.java:161-171 | with the same draws, the iterator yields the items in the order the shuffle of the item array gives |
| RandomizedQueues.Identity | assignments/2-queues/src/RandomizedQueue.java:90-93 | the index array holds 0, 1, ..., n-1 |
| RandomizedQueues.MoveLastPermutes | assignments/2-queues/src/RandomizedQueue.java:55-58 | moving the last item into slot i removes exactly the item that was there |
| RandomizedQueues.RandomizedQueue.constructor | assignments/2-queues/src/RandomizedQueue.java:25-27 | a new queue is empty with a buffer of one slot |
| RandomizedQueues.RandomizedQueue.IsEmpty | assignments/2-queues/src/RandomizedQueue.java:30-32 | true exactly when the queue holds no item |
| RandomizedQueues.RandomizedQueue.Size | assignments/2-queues/src/RandomizedQueue.java:35-37 | the number of items |
| RandomizedQueues.RandomizedQueue.Enqueue | assignments/2-queues/src/RandomizedQueue.java:40-50 | null is rejected; otherwise the item is appended, and a full buffer doubles first |
| RandomizedQueues.RandomizedQueue.Dequeue | assignments/2-queues/src/RandomizedQueue.java:53-63 | an empty queue is rejected as uniform(0) rejects it; otherwise the drawn item is returned and removed (the last item fills its slot), and a quarter-full buffer halves |
| RandomizedQueues.RandomizedQueue.RemoveAt | assignments/2-queues/src/RandomizedQueue.java:55-58 | the drawn item is returned and replaced by the last one |
| RandomizedQueues.RandomizedQueue.Sample | assignments/2-queues/src/RandomizedQueue.java:66-68 | an empty queue is rejected; otherwise the drawn item is returned and nothing changes |
| RandomizedQueues.RandomizedQueue.Resize | assignments/2-queues/src/RandomizedQueue.java:74-82 | a fresh buffer of the given capacity holds the same items in the same order |
| RandomizedQueues.RandomizedQueue.Iterator | assignments/2-queues/src/RandomizedQueue.java:70-72 | the new iterator's order is the shuffle of the items, a permutation of them |
| RandomizedQueues.RandomizedQueueIterator.constructor | assignments/2-queues/src/RandomizedQueue.java:89-99 | the iterator visits the items in the shuffled order, a permutation of the queue's contents |
| RandomizedQueues.RandomizedQueueIterator.HasNext | assignments/2-queues/src/RandomizedQueue.java:101-103 | true exactly while items remain |
| RandomizedQueues.RandomizedQueueIterator.Next | assignments/2-queues/src/RandomizedQueue.java:109-115 | returns the items in the shuffled order, then throws NoSuchElementException |
| RandomizedQueues.EnqueueDequeue | assignments/2-queues/src/RandomizedQueue.java:147-152 | dequeuing the only item returns it and leaves the queue empty |
| BreadthFirst.SearchedDistances | assignments/p2-1-wordnet/src/SAP.java:50-87 | after the search a vertex is marked exactly when some path from a source reaches it; its distance is INFINITY exactly when it is unmarked, is the length of its tree path, and is at most the length of any path from a source |
| BreadthFirst.SearchedFinite | assignments/p2-1-wordnet/src/SAP.java:50-87 | marked vertices have finite non-negative distances and the others INFINITY |
| BreadthFirst.SearchedUnique | assignments/p2-1-wordnet/src/SAP.java:50-87 | the marks and distances do not depend on the order the queue visits vertices |
| BreadthFirst.WalkReachesMarked | assignments/p2-1-wordnet/src/SAP.java:76-86 | every path from a source ends at a marked vertex no farther than the path's length |
| BreadthFirst.TreePath | assignments/p2-1-wordnet/src/SAP.java:89-98 | following edgeTo back from a marked vertex gives a path from a source, one longer than its distance |
| BreadthFirst.WalkBack | assignments/p2-1-wordnet/src/SAP.java:92-97 | the walk back along edgeTo ends at the vertex asked for and starts at a vertex of distance 0 |
| BreadthFirst.WalkBackMarked | assignments/p2-1-wordnet/src/SAP.java:89-98 | from a marked vertex the walk back is the tree path |
| BreadthFirst.PathToUnreachedLoops | assignments/p2-1-wordnet/src/SAP.java:94-95 | from an unmarked vertex, when vertex 0 is unmarked as well, the walk back never reaches distance 0 |
| BreadthFirst.PathToUnreachedInvents | assignments/p2-1-wordnet/src/SAP.java:94-96 | from an unmarked vertex, when 0 is a source, the walk back returns [0, v], though no path reaches v |
| BreadthFirst.Bfs.constructor | assignments/p2-1-wordnet/src/SAP.java:39-47 | the arrays hold a completed breadth-first search of the graph from the sources |
| BreadthFirst.Bfs.Seed | assignments/p2-1-wordnet/src/SAP.java:71-75 | each source is marked at distance 0 and queued |
| BreadthFirst.Bfs.Explore | assignments/p2-1-wordnet/src/SAP.java:76-86 | the queue loop ends in a searched state |
| BreadthFirst.Bfs.Expand | assignments/p2-1-wordnet/src/SAP.java:77-85 | the adjacency loop of one dequeued vertex keeps the search invariant and marks more vertices or leaves the queue as it was |
| BreadthFirst.Bfs.Relax | assignments/p2-1-wordnet/src/SAP.java:78-84 | an unmarked neighbour is marked, given its edge and distance and queued; a marked one changes nothing |
| BreadthFirst.Bfs.Visit | assignments/p2-1-wordnet/src/SAP.java:80-82 | edgeTo, distTo and marked are updated at w alone |
| BreadthFirst.Bfs.PathTo | assignments/p2-1-wordnet/src/SAP.java:89-98 | an invalid vertex is rejected; a marked vertex gets its tree path from a source; an unmarked one gets no path |
| BreadthFirst.Bfs.WalkTree | assignments/p2-1-wordnet/src/SAP.java:94-96 | the loop computes the tree path of a marked vertex |
| BreadthFirst.Bfs.Ancestors | assignments/p2-1-wordnet/src/SAP.java:100-106 | the stack holds the marked vertices, largest first |
| BreadthFirst.MarkedBelowDecreasing | assignments/p2-1-wordnet/src/SAP.java:100-106 | every marked vertex is on the stack, and the stack is strictly decreasing |
| BreadthFirst.ValidateVertices | assignments/p2-1-wordnet/src/SAP.java:116-126 | passes exactly when the set is present and every vertex is in range; otherwise IllegalArgumentException |
| BreadthFirst.NewBfs | assignments/p2-1-wordnet/src/SAP.java:29-37 | an out-of-range source is rejected; otherwise a completed search from it |
| BreadthFirst.NewMultiBfs | assignments/p2-1-wordnet/src/SAP.java:39-47 | a null or out-of-range source set is rejected; otherwise a completed search from all of them |
| Sap.Best | assignments/p2-1-wordnet/src/SAP.java:136-163 | the reference answer is (-1, -1) or a vertex reached by both searches with its summed distance |
| Sap.BestIsLeast | assignments/p2-1-wordnet/src/SAP.java:136-163 | the length is -1 exactly when no vertex is common; otherwise it is the least summed distance, attained at the ancestor, and no later vertex ties it |
| Sap.BestSymmetric | assignments/p2-1-wordnet/src/SAP.java:136-163 | swapping the two searches gives the same length and ancestor |
| Sap.ScanMarkedBelow | assignments/p2-1-wordnet/src/SAP.java:138-145 | scanning the ancestor stack, largest first, with strict improvement gives the reference answer |
| Sap.ShortestAncestralPath | assignments/p2-1-wordnet/src/SAP.java:165-183 | the length is -1 exactly when no vertex is reachable from both sides; otherwise it is the length of a pair of tree paths meeting at the ancestor, and no pair of paths meeting anywhere is shorter |
| Sap.TreePathsMeet | assignments/p2-1-wordnet/src/SAP.java:136-163 | a common vertex is reached by tree paths from both sides whose lengths add up to its summed distance |
| Sap.SapSymmetric | assignments/p2-1-wordnet/src/SAP.java:165-183 | length(v, w) and ancestor(v, w) equal length(w, v) and ancestor(w, v) |
| Sap.Sap.constructor | assignments/p2-1-wordnet/src/SAP.java:132-134 | the SAP holds the digraph it is given |
| Sap.Sap.ScanLoop | assignments/p2-1-wordnet/src/SAP.java:137-146 | the loop over the ancestors computes the reference scan |
| Sap.Sap.Shortest | assignments/p2-1-wordnet/src/SAP.java:136-163 | the private length and ancestor return the reference answer of the two searches |
| Sap.Sap.Answer | assignments/p2-1-wordnet/src/SAP.java:136-163 | the answer is that of every pair of completed searches from the two source sets, and the ancestor is -1 or a vertex |
| Sap.Sap.Length | assignments/p2-1-wordnet/src/SAP.java:166-168 | out-of-range vertices are rejected; otherwise the shortest ancestral path length, or -1 |
| Sap.Sap.Ancestor | assignments/p2-1-wordnet/src/SAP.java:171-173 | out-of-range vertices are rejected; otherwise the common ancestor of a shortest ancestral path, or -1 |
| Sap.Sap.LengthOfSets | assignments/p2-1-wordnet/src/SAP.java:176-178 | a null or out-of-range set is rejected; otherwise the shortest length between the two sets, or -1 |
| Sap.Sap.AncestorOfSets | assignments/p2-1-wordnet/src/SAP.java:181-183 | a null or out-of-range set is rejected; otherwise the common ancestor of a shortest path between the two sets, or -1 |
| Outcasts.RowTotal | assignments/p2-1-wordnet/src/Outcast.java:26-35 | the row succeeds exactly when every distance to a later noun does, and then its sum is the noun's total and the row is cached; otherwise the error is that of a failing call |
| Outcasts.TotalIsRow | assignments/p2-1-wordnet/src/Outcast.java:25-41 | with a symmetric distance, the cached total of noun i is the sum of its distances to every other noun |
| Outcasts.CallsTriangle | assignments/p2-1-wordnet/src/Outcast.java:31-35 | the loops make N(N-1)/2 distance calls, one per pair |
| Outcasts.Outcast | assignments/p2-1-wordnet/src/Outcast.java:14-44 | null or empty input is rejected; a failing distance call ends it with that error; otherwise the result is the first noun of largest total, or null when every total is negative, after N(N-1)/2 calls |
| WordNets.SynsetEntry | assignments/p2-1-wordnet/src/WordNet.java:50-54 | a synsets line can fail only with NumberFormatException, from its id; a recorded line's words are its synset field split on spaces |
| WordNets.AddWordsIndexes | assignments/p2-1-wordnet/src/WordNet.java:54-63 | after adding a line's words, a word is a noun exactly when it was one or is among the words, and its ids are the old ones plus this id |
| WordNets.ReadSynsets | assignments/p2-1-wordnet/src/WordNet.java:47-64 | the synset table has one slot per line |
| WordNets.ReadSynsetsFails | assignments/p2-1-wordnet/src/WordNet.java:47-64 | once a line fails, the constructor fails with that error whatever follows |
| WordNets.NounsIndexed | assignments/p2-1-wordnet/src/WordNet.java:47-64 | a word is a noun exactly when some line lists it, and its ids are exactly the ids of the lines that list it |
| WordNets.SynsetsRecorded | assignments/p2-1-wordnet/src/WordNet.java:47-64 | synsets[id] is set exactly when some line has that id, and holds the synset of the last such line |
| WordNets.HypernymEntry | assignments/p2-1-wordnet/src/WordNet.java:72-75 | a hypernyms line can fail only with NumberFormatException (an id that does not parse) or an index error (a line with no field) |
| WordNets.AddHypernyms | assignments/p2-1-wordnet/src/WordNet.java:74-77 | adding edges keeps the number of vertices |
| WordNets.HypernymsAdded | assignments/p2-1-wordnet/src/WordNet.java:74-77 | a line adds edges from its id to exactly the hypernyms it names, and no other vertex changes |
| WordNets.AddHypernymsFails | assignments/p2-1-wordnet/src/WordNet.java:74-77 | once a hypernym id fails to parse, the rest of the line does not change the error |
| WordNets.ReadHypernyms | assignments/p2-1-wordnet/src/WordNet.java:71-78 | the digraph has one vertex per synset line |
| WordNets.ReadHypernymsFails | assignments/p2-1-wordnet/src/WordNet.java:71-78 | once a line fails, the constructor fails with that error whatever follows |
| WordNets.HypernymsRead | assignments/p2-1-wordnet/src/WordNet.java:71-78 | v has an edge to w exactly when some line adds it, and every edge stays in range |
| WordNets.HypernymsGraph | assignments/p2-1-wordnet/src/WordNet.java:66-80 | the digraph handed to SAP is well formed |
| WordNets.IndexWords | assignments/p2-1-wordnet/src/WordNet.java:55-63 | the loop adds a line's words to the noun table as the reference definition does |
| WordNets.IndexLine | assignments/p2-1-wordnet/src/WordNet.java:49-63 | one pass of the synsets loop fails, skips or records the line exactly as the reference step does |
| WordNets.IndexSynsets | assignments/p2-1-wordnet/src/WordNet.java:47-64 | the synsets loop builds the reference synset table and noun table, or fails with its error |
| WordNets.AddLineEdges | assignments/p2-1-wordnet/src/WordNet.java:74-77 | the inner loop adds the line's edges as the reference definition does |
| WordNets.ConnectHypernyms | assignments/p2-1-wordnet/src/WordNet.java:71-78 | the hypernyms loop builds the reference digraph, or fails with its error |
| WordNets.NewWordNet | assignments/p2-1-wordnet/src/WordNet.java:34-81 | a null file name is rejected; a parse error ends the constructor with that error; otherwise the tables and the SAP digraph are the reference ones |
| WordNets.WordNet.Nouns | assignments/p2-1-wordnet/src/WordNet.java:86-88 | the nouns are the keys of the noun table |
| WordNets.WordNet.IsNoun | assignments/p2-1-wordnet/src/WordNet.java:93-95 | true exactly when the word is a key of the noun table |
| WordNets.WordNet.Distance | assignments/p2-1-wordnet/src/WordNet.java:100-107 | a word that is not a noun is rejected; otherwise the shortest ancestral path length between the two nouns' synset sets |
| WordNets.WordNet.Sap | assignments/p2-1-wordnet/src/WordNet.java:112-120 | a word that is not a noun is rejected; otherwise the synset of the common ancestor, or null when there is none |
| KdTrees.Compare | assignments/5-kd-trees/src/KdTree.java:64-66 | Double.compare on ordinary numbers: non-positive exactly when a <= b, zero exactly when equal |
| KdTrees.Inserted | assignments/5-kd-trees/src/KdTree.java:63-79 | inserting adds exactly the point and one node |
| KdTrees.InsertedOrdered | assignments/5-kd-trees/src/KdTree.java:63-79 | inserting keeps the order: left/bottom at or below each divider, right/top strictly above |
| KdTrees.InsertedSound | assignments/5-kd-trees/src/KdTree.java:57-60 | inserting a point the tree lacks keeps it ordered and counts one more point |
| KdTrees.Find | assignments/5-kd-trees/src/KdTree.java:94-102 | a found node holds the point; in an ordered tree the point is found exactly when the subtree holds it |
| KdTrees.KdNode.constructor | assignments/5-kd-trees/src/KdTree.java:22-25 | a new node is a leaf holding the point |
| KdTrees.KdNode.Insert | assignments/5-kd-trees/src/KdTree.java:63-79 | the private insert turns the subtree into Inserted of the old one |
| KdTrees.KdTree.constructor | assignments/5-kd-trees/src/KdTree.java:33-35 | a new tree is empty |
| KdTrees.KdTree.IsEmpty | assignments/5-kd-trees/src/KdTree.java:38-40 | true exactly when the set is empty |
| KdTrees.KdTree.Size | assignments/5-kd-trees/src/KdTree.java:43-45 | the number of distinct points in the set |
| KdTrees.KdTree.Contains | assignments/5-kd-trees/src/KdTree.java:82-86 | null is rejected; otherwise true exactly when the point is in the set |
| KdTrees.KdTree.Insert | assignments/5-kd-trees/src/KdTree.java:48-61 | null is rejected and nothing changes; otherwise the point joins the set, and the size grows by one exactly when it was new |
| KdTrees.KdTree.PlantRoot | assignments/5-kd-trees/src/KdTree.java:51-55 | the first point becomes the root and the size is 1 |
| KdTrees.KdTree.AddBelowRoot | assignments/5-kd-trees/src/KdTree.java:59-60 | a new point goes down from the root and the size grows by one |
| KdTrees.InsertTwoPoints | assignments/5-kd-trees/src/KdTree.java:164-168 | after inserting (0.5, 0.5) and (0.2, 0.2) the set is not empty and has size 2 |
| JavaText.ParseInt | assignments/p2-1-wordnet/src/WordNet.java:52 | Integer.parseInt: a result is always in the 32-bit range, and the empty string is a NumberFormatException |
| JavaText.ParseIntRoundTrip | assignments/p2-1-wordnet/src/WordNet.java:52 | parsing the decimal text of any 32-bit int gives it back |
| JavaText.Split | assignments/p2-1-wordnet/src/WordNet.java:50 | String.split on one character: no piece holds the separator, the empty string gives one empty piece, and trailing empty pieces are dropped |
| JavaText.SplitJoin | assignments/p2-1-wordnet/src/WordNet.java:50 | joining the pieces of a split, before trailing empties are dropped, with the separator gives the string back |
| JavaText.Pad3 | assignments/4-8-puzzle/src/Board.java:147 | `%3d` right-aligns the decimal text in at least three characters, padding with spaces |
| JavaInt.Div | assignments/4-8-puzzle/src/Board.java:75 | Java `/` truncates toward zero: the sign of a non-zero quotient is that of a*b, and it agrees with Euclidean division on non-negative operands |
| JavaInt.Rem | assignments/4-8-puzzle/src/Board.java:76 | Java `%`: the remainder is smaller than the divisor in magnitude and has the sign of the dividend |
| JavaInt.DivRem | assignments/4-8-puzzle/src/Board.java:75-76 | quotient times divisor plus remainder is the dividend |

## Left out

- Java `int` overflow is not modelled: counters, sizes, distance sums and priorities are unbounded integers. The exceptions are `Integer.parseInt`, which rejects values out of the 32-bit range, and the BFS distance INFINITY, which is `Integer.MAX_VALUE`.
- Solver.Solve: the Java loop has no bound, and on an unsolvable board it never ends. The model takes a `fuel` bound on the number of dequeues and returns `OutOfFuel` when it is used up. Which of several least-priority nodes the queue returns is left open: the properties hold for every choice.
- Solver.MinPQ.DelMin: algs4's `MinPQ` is a binary heap. It is modelled as a multiset from which some least element is taken. The heap's own tie order is not modelled.
- Board.Equals: a `y` of another class, and `y == this`, are not modelled; both reduce to comparing values here.
- Board.FromRows: a null row and a row longer than n are not modelled (extra cells are ignored, as the source does).
- `dimension()` is the field `n` of the board value.
- PercolationV2.OpenedTopRowFull: proved only for opening a blocked site, not for a top-row site that was already open.
- The test scripts in the two Percolation `main` methods are modelled only in part. The 1-by-1 check and the first three steps of the 2-by-2 script of the first version are proved. The 4-by-4 script of the first version and the 3-by-3 scripts of the revised version are not.
- PercolationV1.Percolation.constructor and PercolationV2.Percolation.constructor require n > 0; `New` is the entry point that rejects n <= 0 as the Java constructor does.
- `PercolationStats`, `Permutation`, `PointSET`, the visualizers, `BruteCollinearPoints` and `FastCollinearPoints` are not part of this model.
- Point `slopeTo` and `slopeOrder` are not modelled: they compute with floating point.
- KdTrees.Compare: points have real coordinates, so `Double.compare`'s treatment of NaN and of -0.0 against 0.0 is not modelled.
- The k-d tree's `rect` field (never assigned in the source), `draw`, `range` and `nearest` are not modelled.
- KdTrees.KdTree.Insert: the `contains(p)` call is modelled as a direct call of `find`; the two differ only in the null check, which has already happened.
- Deques and RandomizedQueues: a concurrent modification during iteration is not modelled. Each iterator is proved against the contents it was created over. The iterators' `remove()` always throws `UnsupportedOperationException` and is not modelled.
- RandomizedQueues.RandomizedQueue.Dequeue and RandomizedQueues.RandomizedQueue.Sample: `StdRandom.uniform(n)` is a `choice` parameter in 0..n-1. RandomizedQueues.Shuffle and the iterator take their draws as a sequence. Uniformity of the draws is not modelled.
- Sap and WordNets: the digraph is a sequence of adjacency lists rather than algs4's `Digraph` class. The range check of `Digraph.addEdge` is modelled: an out-of-range line id or hypernym id ends the constructor with IllegalArgument (`WordNets.AddHypernyms`, `WordNets.AddLineEdges`). `WordNets.HypernymsGraph` proves that the graph handed to `SAP` is well formed.
- WordNets.NewWordNet: requires the synset file to have at most `Integer.MAX_VALUE` lines, so that a BFS distance never reaches INFINITY. An out-of-range synset id ends the constructor with IndexOutOfBounds, as the array store `synsets[id]` does (`WordNets.ReadSynsets`, `WordNets.IndexLine`). Each file is a parameter holding its lines; file reading itself is not modelled.
- WordNets.WordNet.IsNoun, WordNets.WordNet.Distance, WordNets.WordNet.Sap, BreadthFirst.ValidateVertices, BreadthFirst.NewMultiBfs, Sap.Sap.LengthOfSets, Sap.Sap.AncestorOfSets and Outcasts.Outcast: a null word, a null `Integer` inside a vertex set or a null noun inside the array throws NullPointerException in Java (`Hashtable.containsKey(null)`, unboxing, or inside `distance`); words and elements are plain values here, so those paths are not modelled.
- WordNets.NewWordNet: the synsets and hypernyms are parsed into entries first and then folded into the tables, rather than split and parsed inside the loop as the source does; the fold is proved equal to the source's loop order.
- WordNets: the Java `Hashtable<String, Bag<Integer>>` is a `map<string, seq<int>>`. The order in which `nouns()` returns the keys, and the order of the ids in a `Bag`, are not modelled.
- Outcasts.Outcast: when distance calls fail, the model shows that the error is that of some failing pair, not necessarily of the first failing pair in loop order. The `WordNet` distance is a function parameter, so the model does not tie it to `WordNets.WordNet.Distance`.
- BreadthFirst: `pathTo` is never called by `SAP`; it is modelled because it is part of the nested `BFS` class.

## Findings

| source | as written | input that shows it | evidently intended | confidence | as-written member | corrected member |
|---|---|---|---|---|---|---|
| assignments/1-percolation/src/Percolation.java:101-106 | `open` writes the new status only to the component root, or only to the site when the root is 0, so a site whose component root is another site keeps status 0 | any n >= 2: open(1, 1), open(1, 2), open(2, 1); then isOpen(2, 1) is false while numberOfOpenSites() is 3 | an opened site is always open (the revised version writes both the site and its root) | not executed | PercolationV1.OpenLeavesSiteBlocked | PercolationV2.OpenedIsOpen |
| assignments/p2-1-wordnet/src/SAP.java:94-96 | `pathTo` walks `edgeTo` back until a distance of 0, but an unmarked vertex has distance INFINITY and `edgeTo` 0 | a 2-vertex digraph with no edges: a search from 1, then pathTo(0), never ends; a search from 0, then pathTo(1), returns [0, 1] though no path reaches 1 | no path is returned for an unmarked vertex | not executed | BreadthFirst.PathToUnreachedLoops | BreadthFirst.Bfs.PathTo |
