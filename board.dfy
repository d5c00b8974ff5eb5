/** The 8-puzzle board: an immutable n-by-n grid of tile labels stored row-major,
    0 being the blank. The heuristics, the goal test, equality and the text form
    are read-only loops over the cells, each proved equal to a specification
    function; `twin` and `neighbors` build new boards from a swapped copy. */
module Board {
  import opened Wrappers
  import JavaInt
  import JavaText
  import Grid

  datatype Board = Board(n: nat, blocks: seq<int>)

  /** The shape invariant every constructor establishes: n * n cells. */
  predicate Valid(b: Board) { |b.blocks| == Grid.Area(b.n) }

  // ----------------------------------------------------------------------
  // Construction

  /** `Board(int[][])`: the dimension is the number of rows and cell (r, c)
      is stored at index r * n + c. A row shorter than n stops the copy with
      an index error. */
  method FromRows(rows: seq<seq<int>>) returns (res: Result<Board>)
    ensures res.Err? <==> exists r :: 0 <= r < |rows| && |rows[r]| < |rows|
    ensures res.Err? ==> res.error == IndexOutOfBounds
    ensures res.Ok? ==> var b := res.value;
      && Valid(b) && b.n == |rows|
      && forall r, c :: 0 <= r < b.n && 0 <= c < b.n ==>
           Grid.Index(b.n, r, c) < |b.blocks| && b.blocks[Grid.Index(b.n, r, c)] == rows[r][c]
  {
    var n := |rows|;
    var a := new int[Grid.Area(n)];
    for r := 0 to n
      invariant Grid.Index(n, r, 0) <= Grid.Area(n)
      invariant forall k :: 0 <= k < r ==> |rows[k]| >= n
      invariant forall i :: 0 <= i < Grid.Index(n, r, 0) ==> a[i] == CellOf(rows, i)
    {
      for c := 0 to n
        invariant Grid.Index(n, r, c) <= Grid.Area(n) && c <= |rows[r]|
        invariant forall i :: 0 <= i < Grid.Index(n, r, c) ==> a[i] == CellOf(rows, i)
      {
        if c >= |rows[r]| {
          return Err(IndexOutOfBounds);
        }
        Grid.IndexInRange(n, r, c);
        Grid.IndexRowCol(n, r, c);
        Grid.IndexAtMost(n, r, c + 1);
        var i := Grid.Index(n, r, c);
        a[i] := rows[r][c];
      }
      Grid.RowEnd(n, r);
    }
    var b := Board(n, a[..]);
    forall r, c | 0 <= r < n && 0 <= c < n
      ensures Grid.Index(n, r, c) < Grid.Area(n) && b.blocks[Grid.Index(n, r, c)] == rows[r][c]
    {
      Grid.IndexInRange(n, r, c);
      Grid.IndexRowCol(n, r, c);
    }
    return Ok(b);
  }

  /** The cell of the square `rows` at row-major index i (0 outside it). */
  function CellOf(rows: seq<seq<int>>, i: nat): int
  {
    var n := |rows|;
    if n > 0 && i / n < n && i % n < |rows[i / n]| then rows[i / n][i % n] else 0
  }

  // ----------------------------------------------------------------------
  // Hamming: the number of tiles out of place

  predicate Misplaced(b: Board, i: nat)
    requires i < |b.blocks|
  {
    b.blocks[i] != 0 && b.blocks[i] != i + 1
  }

  /** Misplaced tiles among the first k cells. */
  function MisplacedUpTo(b: Board, k: nat): nat
    requires k <= |b.blocks|
  {
    if k == 0 then 0 else MisplacedUpTo(b, k - 1) + (if Misplaced(b, k - 1) then 1 else 0)
  }

  function MisplacedCount(b: Board): nat { MisplacedUpTo(b, |b.blocks|) }

  /** `hamming()`. */
  method Hamming(b: Board) returns (h: int)
    ensures h == MisplacedCount(b)
  {
    h := 0;
    for i := 0 to |b.blocks|
      invariant h == MisplacedUpTo(b, i)
    {
      if b.blocks[i] != 0 && b.blocks[i] != i + 1 {
        h := h + 1;
      }
    }
  }

  // ----------------------------------------------------------------------
  // Manhattan: the summed grid distance of every tile from its goal cell

  /** Distance of the tile in cell i from the cell its label belongs to; the goal
      row and column use Java's truncating `/` and `%`, so negative labels are
      measured as the source measures them. */
  function CellDistance(b: Board, i: nat): nat
    requires b.n > 0 && i < |b.blocks|
  {
    var toBe := b.blocks[i] - 1;
    if toBe == -1 then 0
    else JavaInt.Abs(JavaInt.Div(toBe, b.n) - i / b.n) + JavaInt.Abs(JavaInt.Rem(toBe, b.n) - i % b.n)
  }

  function DistanceUpTo(b: Board, k: nat): nat
    requires Valid(b) && k <= |b.blocks|
  {
    if k == 0 then 0 else DistanceUpTo(b, k - 1) + CellDistance(b, k - 1)
  }

  function ManhattanDistance(b: Board): nat
    requires Valid(b)
  {
    DistanceUpTo(b, |b.blocks|)
  }

  /** `manhattan()`: a row-by-row, column-by-column sum; the inner loop is
      `AddRowDistances`. */
  method Manhattan(b: Board) returns (m: int)
    requires Valid(b)
    ensures m == ManhattanDistance(b)
  {
    var n := b.n;
    m := 0;
    for r := 0 to n
      invariant Grid.Index(n, r, 0) <= Grid.Area(n)
      invariant m == DistanceUpTo(b, Grid.Index(n, r, 0))
    {
      Grid.RowEnd(n, r);
      m := AddRowDistances(b, r, m);
    }
  }

  /** The inner loop of `manhattan()` over the cells of row r. */
  method AddRowDistances(b: Board, r: nat, m0: int) returns (m: int)
    requires Valid(b) && r < b.n
    requires Grid.Index(b.n, r, b.n) <= |b.blocks|
    requires m0 == DistanceUpTo(b, Grid.Index(b.n, r, 0))
    ensures m == DistanceUpTo(b, Grid.Index(b.n, r, b.n))
  {
    var n := b.n;
    m := m0;
    for c := 0 to n
      invariant Grid.Index(n, r, c) <= Grid.Area(n)
      invariant m == DistanceUpTo(b, Grid.Index(n, r, c))
    {
      ManhattanStep(b, r, c);
      var i := Grid.Index(n, r, c);
      var toBe := b.blocks[i] - 1;
      if toBe != -1 {
        var tr := JavaInt.Div(toBe, n);
        var tc := JavaInt.Rem(toBe, n);
        m := m + JavaInt.Abs(tr - r) + JavaInt.Abs(tc - c);
      }
      assert m == DistanceUpTo(b, i + 1);
    }
  }

  /** One cell of `manhattan()`: the cell (r, c) adds its distance to the sum. */
  lemma ManhattanStep(b: Board, r: nat, c: nat)
    requires Valid(b) && r < b.n && c < b.n
    ensures Grid.Index(b.n, r, c) < |b.blocks|
    ensures var i := Grid.Index(b.n, r, c); var toBe := b.blocks[i] - 1;
      Grid.Index(b.n, r, c + 1) == i + 1 <= |b.blocks| &&
      DistanceUpTo(b, i + 1) == DistanceUpTo(b, i) +
        (if toBe == -1 then 0
         else JavaInt.Abs(JavaInt.Div(toBe, b.n) - r) + JavaInt.Abs(JavaInt.Rem(toBe, b.n) - c))
  {
    var i := Grid.Index(b.n, r, c);
    Grid.IndexInRange(b.n, r, c);
    Grid.IndexRowCol(b.n, r, c);
    assert DistanceUpTo(b, i + 1) == DistanceUpTo(b, i) + CellDistance(b, i);
  }

  /** A misplaced tile is at least one step from its goal cell. */
  lemma MisplacedCellDistance(b: Board, i: nat)
    requires Valid(b) && i < |b.blocks|
    ensures CellDistance(b, i) >= if Misplaced(b, i) then 1 else 0
  {
    if Misplaced(b, i) {
      var toBe := b.blocks[i] - 1;
      Grid.RowColIndex(b.n, i);
      Grid.MulIsProduct(i / b.n, b.n);
      JavaInt.DivRem(toBe, b.n);
      assert JavaInt.Div(toBe, b.n) * b.n + JavaInt.Rem(toBe, b.n) == toBe != i;
    }
  }

  lemma {:induction false} DistanceAtLeastMisplaced(b: Board, k: nat)
    requires Valid(b) && k <= |b.blocks|
    ensures DistanceUpTo(b, k) >= MisplacedUpTo(b, k)
  {
    if k > 0 {
      DistanceAtLeastMisplaced(b, k - 1);
      MisplacedCellDistance(b, k - 1);
    }
  }

  /** Manhattan never undercounts Hamming, whatever the labels. */
  lemma ManhattanAtLeastHamming(b: Board)
    requires Valid(b)
    ensures ManhattanDistance(b) >= MisplacedCount(b)
  {
    DistanceAtLeastMisplaced(b, |b.blocks|);
  }

  // ----------------------------------------------------------------------
  // The goal board

  /** Tile k sits at index k - 1 and the blank is last. */
  predicate IsGoalBoard(b: Board)
    requires |b.blocks| > 0
  {
    (forall i :: 0 <= i < |b.blocks| - 1 ==> b.blocks[i] == i + 1) && b.blocks[|b.blocks| - 1] == 0
  }

  /** `isGoal()`: an empty board makes the source index out of bounds. */
  method IsGoal(b: Board) returns (g: Result<bool>)
    ensures g.Err? <==> |b.blocks| == 0
    ensures g.Err? ==> g.error == IndexOutOfBounds
    ensures g.Ok? ==> (g.value <==> IsGoalBoard(b))
  {
    if |b.blocks| == 0 {
      return Err(IndexOutOfBounds);
    }
    for i := 0 to |b.blocks| - 1
      invariant forall j :: 0 <= j < i ==> b.blocks[j] == j + 1
    {
      if b.blocks[i] != i + 1 {
        return Ok(false);
      }
    }
    return Ok(b.blocks[|b.blocks| - 1] == 0);
  }

  /** The goal board of dimension n. */
  function GoalBoard(n: nat): (g: Board)
    requires n > 0
    ensures Valid(g) && g.n == n
  {
    Board(n, seq(Grid.Area(n), i => if i == Grid.Area(n) - 1 then 0 else i + 1))
  }

  /** The goal test picks out exactly one board per dimension. */
  lemma GoalBoardUnique(b: Board)
    requires Valid(b) && b.n > 0
    ensures IsGoalBoard(b) <==> b == GoalBoard(b.n)
  {
    if IsGoalBoard(b) {
      assert b.blocks == GoalBoard(b.n).blocks;
    }
  }

  lemma {:induction false} GoalPrefixZero(b: Board, k: nat)
    requires Valid(b) && b.n > 0 && IsGoalBoard(b) && k <= |b.blocks|
    ensures MisplacedUpTo(b, k) == 0 && DistanceUpTo(b, k) == 0
  {
    if k > 0 {
      GoalPrefixZero(b, k - 1);
      var i := k - 1;
      if i < |b.blocks| - 1 {
        assert JavaInt.Div(i, b.n) == i / b.n && JavaInt.Rem(i, b.n) == i % b.n;
      }
    }
  }

  /** The goal board has both heuristics at zero. */
  lemma GoalHeuristicsZero(b: Board)
    requires Valid(b) && b.n > 0 && IsGoalBoard(b)
    ensures MisplacedCount(b) == 0 && ManhattanDistance(b) == 0
  {
    GoalPrefixZero(b, |b.blocks|);
  }

  // ----------------------------------------------------------------------
  // Equality

  /** `equals(Object)`: false for null, otherwise equal dimensions and cells.
      Comparing with an object of another class is not modelled. */
  method Equals(b: Board, y: Option<Board>) returns (eq: bool)
    requires Valid(b) && (y.Some? ==> Valid(y.value))
    ensures eq <==> y == Some(b)
  {
    if y.None? {
      return false;
    }
    var that := y.value;
    if that.n != b.n {
      return false;
    }
    for i := 0 to |that.blocks|
      invariant that.blocks[..i] == b.blocks[..i]
    {
      if that.blocks[i] != b.blocks[i] {
        return false;
      }
    }
    assert that.blocks == that.blocks[..|that.blocks|];
    assert b.blocks == b.blocks[..|b.blocks|];
    return true;
  }

  // ----------------------------------------------------------------------
  // Swapping: the copy-and-swap helper behind twin() and neighbors()

  /** The board with the tiles at i and j exchanged. */
  function Swapped(b: Board, i: nat, j: nat): (t: Board)
    requires i < |b.blocks| && j < |b.blocks|
    ensures t.n == b.n && |t.blocks| == |b.blocks|
  {
    Board(b.n, b.blocks[j := b.blocks[i]][i := b.blocks[j]])
  }

  /** A swap exchanges the two cells, keeps every other cell and keeps the
      multiset of tiles. */
  lemma SwappedCells(b: Board, i: nat, j: nat)
    requires i < |b.blocks| && j < |b.blocks|
    ensures var t := Swapped(b, i, j);
      t.blocks[i] == b.blocks[j] && t.blocks[j] == b.blocks[i] &&
      (forall k :: 0 <= k < |b.blocks| && k != i && k != j ==> t.blocks[k] == b.blocks[k]) &&
      multiset(t.blocks) == multiset(b.blocks)
  {
  }

  /** `swap(int[], from, to)`: exchanges two cells of the array in place. */
  method Swap(target: array<int>, from: nat, to: nat)
    requires from < target.Length && to < target.Length
    modifies target
    ensures target[to] == old(target[from]) && target[from] == old(target[to])
    ensures forall k :: 0 <= k < target.Length && k != from && k != to ==> target[k] == old(target[k])
    ensures multiset(target[..]) == old(multiset(target[..]))
  {
    var v := target[to];
    target[to] := target[from];
    target[from] := v;
  }

  /** The private `twin(i, k)`: swaps two cells of a fresh copy, so the board
      itself is never changed. */
  method TwinAt(b: Board, i: nat, k: nat) returns (t: Board)
    requires i < |b.blocks| && k < |b.blocks|
    ensures t == Swapped(b, i, k)
  {
    var copy := new int[|b.blocks|](j requires 0 <= j < |b.blocks| => b.blocks[j]);
    Swap(copy, i, k);
    t := Board(b.n, copy[..]);
  }

  // ----------------------------------------------------------------------
  // twin()

  /** The first cell `twin()` swaps: 0, or 1 when the blank is in cell 0. */
  function TwinFirst(b: Board): nat
    requires Valid(b) && b.n > 0
  {
    if b.blocks[0] == 0 then 1 else 0
  }

  /** The second cell: the right neighbour of the first, or the cell below it
      when the right neighbour starts the next row. */
  function TwinSecond(b: Board): nat
    requires Valid(b) && b.n > 0
  {
    var first := TwinFirst(b);
    if (first + 1) / b.n > 0 then first + b.n else first + 1
  }

  function TwinBoard(b: Board): Board
    requires Valid(b) && b.n >= 2
  {
    TwinCellsInRange(b);
    Swapped(b, TwinFirst(b), TwinSecond(b))
  }

  lemma TwinCellsInRange(b: Board)
    requires Valid(b) && b.n >= 2
    ensures TwinFirst(b) < |b.blocks| && TwinSecond(b) < |b.blocks|
  {
    Grid.MulIsProduct(b.n, b.n);
    Grid.MulLe(2, b.n, b.n);
  }

  /** `twin()`: a board smaller than 2 by 2 makes the source index out of bounds. */
  method Twin(b: Board) returns (t: Result<Board>)
    requires Valid(b)
    ensures t.Err? <==> b.n < 2
    ensures t.Err? ==> t.error == IndexOutOfBounds
    ensures t.Ok? ==> b.n >= 2 && t.value == TwinBoard(b)
  {
    if b.n < 2 {
      return Err(IndexOutOfBounds);
    }
    var first := 0;
    if b.blocks[first] == 0 {
      first := first + 1;
    }
    var second := first + 1;
    if second / b.n > 0 {
      second := first + b.n;
    }
    TwinCellsInRange(b);
    var swapped := TwinAt(b, first, second);
    return Ok(swapped);
  }

  /** The two cells `twin()` exchanges are orthogonal neighbours, so the twin is
      one of `neighbors()`. */
  lemma TwinCellsAdjacent(b: Board)
    requires Valid(b) && b.n >= 2
    ensures Adjacent(b.n, TwinFirst(b), TwinSecond(b))
  {
    Grid.MulIsProduct(b.n, b.n);
    Grid.MulLe(2, b.n, b.n);
  }

  /** Twice `twin()` gives the board back unless the first swap moved the blank
      into cell 0. */
  lemma TwinTwice(b: Board)
    requires Valid(b) && b.n >= 2
    requires b.blocks[0] == 0 || b.blocks[1] != 0
    ensures Valid(TwinBoard(b)) && TwinBoard(TwinBoard(b)) == b
  {
    TwinCellsInRange(b);
    var f, s := TwinFirst(b), TwinSecond(b);
    var t := Swapped(b, f, s);
    assert f == 0 ==> s == 1;
    assert t.blocks[0] == 0 <==> b.blocks[0] == 0;
    assert TwinFirst(t) == f && TwinSecond(t) == s;
    SwapTwice(b, f, s);
  }

  lemma SwapTwice(b: Board, i: nat, j: nat)
    requires i < |b.blocks| && j < |b.blocks|
    ensures Swapped(Swapped(b, i, j), i, j) == b
  {
    assert Swapped(Swapped(b, i, j), i, j).blocks == b.blocks;
  }

  /** `twin()` can exchange the blank with a tile: on [[1, 0], [2, 3]] it swaps
      cells 0 and 1, moving the blank. */
  lemma TwinMayMoveBlank()
    ensures var b := Board(2, [1, 0, 2, 3]);
      TwinFirst(b) == 0 && TwinSecond(b) == 1 && TwinBoard(b) == Board(2, [0, 1, 2, 3])
  {
  }

  // ----------------------------------------------------------------------
  // neighbors()

  /** Cells i < j that share an edge: j is right of i in the same row, or below it. */
  predicate Adjacent(n: nat, i: nat, j: nat)
  {
    n > 0 && j < Grid.Area(n) && ((j == i + 1 && j % n != 0) || j == i + n)
  }

  /** `x` is `b` with one pair of orthogonally adjacent cells exchanged. */
  predicate IsAdjacentSwap(b: Board, x: Board)
  {
    exists i: nat, j: nat :: Adjacent(b.n, i, j) && i < j < |b.blocks| && x == Swapped(b, i, j)
  }

  function Gaps(n: nat): nat { if n == 0 then 0 else n - 1 }

  /** The boards row r's horizontal swaps push for the columns below c, newest first. */
  function RowSwaps(b: Board, r: nat, c: nat): (ns: seq<Board>)
    requires Valid(b) && r < b.n && c <= Gaps(b.n)
    ensures |ns| == c
  {
    if c == 0 then []
    else
      Grid.IndexInRange(b.n, r, c);
      [Swapped(b, Grid.Index(b.n, r, c - 1), Grid.Index(b.n, r, c))] + RowSwaps(b, r, c - 1)
  }

  /** The boards the horizontal loop pushes for the rows below r, newest first. */
  function HSwaps(b: Board, r: nat): seq<Board>
    requires Valid(b) && r <= b.n
  {
    if r == 0 then [] else RowSwaps(b, r - 1, Gaps(b.n)) + HSwaps(b, r - 1)
  }

  /** The boards column c's vertical swaps push for the rows below r, newest first. */
  function ColSwaps(b: Board, c: nat, r: nat): (ns: seq<Board>)
    requires Valid(b) && c < b.n && r <= Gaps(b.n)
    ensures |ns| == r
  {
    if r == 0 then []
    else
      Grid.IndexInRange(b.n, r, c);
      [Swapped(b, Grid.Index(b.n, r - 1, c), Grid.Index(b.n, r, c))] + ColSwaps(b, c, r - 1)
  }

  /** The boards the vertical loop pushes for the columns below c, newest first. */
  function VSwaps(b: Board, c: nat): seq<Board>
    requires Valid(b) && c <= b.n
  {
    if c == 0 then [] else ColSwaps(b, c - 1, Gaps(b.n)) + VSwaps(b, c - 1)
  }

  /** What iterating the stack of `neighbors()` yields: the last board pushed first. */
  function NeighborBoards(b: Board): seq<Board>
    requires Valid(b)
  {
    VSwaps(b, b.n) + HSwaps(b, b.n)
  }

  /** `neighbors()`: for every row the horizontal swaps, then for every column the
      vertical swaps, each pushed onto a stack. The inner loops are the methods
      `PushRowSwaps` and `PushColumnSwaps`. */
  method Neighbors(b: Board) returns (ns: seq<Board>)
    requires Valid(b)
    ensures ns == NeighborBoards(b)
  {
    ns := [];
    for r := 0 to b.n
      invariant ns == HSwaps(b, r)
    {
      ns := PushRowSwaps(b, r, ns);
    }
    for c := 0 to b.n
      invariant ns == VSwaps(b, c) + HSwaps(b, b.n)
    {
      ns := PushColumnSwaps(b, c, ns);
      ColumnDone(b, c);
    }
  }

  /** The inner horizontal loop for row r: pushes the swap of each cell with its
      right neighbour. */
  method PushRowSwaps(b: Board, r: nat, stack: seq<Board>) returns (ns: seq<Board>)
    requires Valid(b) && r < b.n
    ensures ns == RowSwaps(b, r, Gaps(b.n)) + stack
  {
    var n := b.n;
    ns := stack;
    for c := 0 to n - 1
      invariant ns == RowSwaps(b, r, c) + stack
    {
      Grid.IndexInRange(n, r, c + 1);
      var t := TwinAt(b, Grid.Index(n, r, c), Grid.Index(n, r, c) + 1);
      ns := [t] + ns;
    }
  }

  /** The inner vertical loop for column c: pushes the swap of each cell with the
      cell below it. */
  method PushColumnSwaps(b: Board, c: nat, stack: seq<Board>) returns (ns: seq<Board>)
    requires Valid(b) && c < b.n
    ensures ns == ColSwaps(b, c, Gaps(b.n)) + stack
  {
    var n := b.n;
    ns := stack;
    for r := 0 to n - 1
      invariant ns == ColSwaps(b, c, r) + stack
    {
      Grid.IndexInRange(n, r + 1, c);
      var t := TwinAt(b, Grid.Index(n, r, c), Grid.Index(n, r + 1, c));
      ns := [t] + ns;
    }
  }

  /** After column c the stack holds the vertical swaps of the columns up to c. */
  lemma ColumnDone(b: Board, c: nat)
    requires Valid(b) && c < b.n
    ensures ColSwaps(b, c, Gaps(b.n)) + (VSwaps(b, c) + HSwaps(b, b.n)) == VSwaps(b, c + 1) + HSwaps(b, b.n)
  {
  }

  lemma {:induction false} HSwapsLength(b: Board, r: nat)
    requires Valid(b) && r <= b.n
    ensures |HSwaps(b, r)| == Grid.Mul(r, Gaps(b.n))
  {
    if r > 0 {
      HSwapsLength(b, r - 1);
    }
  }

  lemma {:induction false} VSwapsLength(b: Board, c: nat)
    requires Valid(b) && c <= b.n
    ensures |VSwaps(b, c)| == Grid.Mul(c, Gaps(b.n))
  {
    if c > 0 {
      VSwapsLength(b, c - 1);
    }
  }

  /** `neighbors()` returns 2n(n - 1) boards. */
  lemma NeighborCount(b: Board)
    requires Valid(b)
    ensures |NeighborBoards(b)| == 2 * b.n * Gaps(b.n)
  {
    HSwapsLength(b, b.n);
    VSwapsLength(b, b.n);
    Grid.MulIsProduct(b.n, Gaps(b.n));
  }

  lemma {:induction false} RowSwapsAdjacent(b: Board, r: nat, c: nat)
    requires Valid(b) && r < b.n && c <= Gaps(b.n)
    ensures forall x :: x in RowSwaps(b, r, c) ==> IsAdjacentSwap(b, x)
  {
    if c > 0 {
      RowSwapsAdjacent(b, r, c - 1);
      Grid.IndexInRange(b.n, r, c);
      Grid.IndexRowCol(b.n, r, c);
      var i, j := Grid.Index(b.n, r, c - 1), Grid.Index(b.n, r, c);
      assert Adjacent(b.n, i, j) && i < j < |b.blocks|;
      assert IsAdjacentSwap(b, Swapped(b, i, j));
    }
  }

  lemma {:induction false} HSwapsAdjacent(b: Board, r: nat)
    requires Valid(b) && r <= b.n
    ensures forall x :: x in HSwaps(b, r) ==> IsAdjacentSwap(b, x)
  {
    if r > 0 {
      HSwapsAdjacent(b, r - 1);
      RowSwapsAdjacent(b, r - 1, Gaps(b.n));
    }
  }

  lemma {:induction false} ColSwapsAdjacent(b: Board, c: nat, r: nat)
    requires Valid(b) && c < b.n && r <= Gaps(b.n)
    ensures forall x :: x in ColSwaps(b, c, r) ==> IsAdjacentSwap(b, x)
  {
    if r > 0 {
      ColSwapsAdjacent(b, c, r - 1);
      Grid.IndexInRange(b.n, r, c);
      var i, j := Grid.Index(b.n, r - 1, c), Grid.Index(b.n, r, c);
      assert Adjacent(b.n, i, j) && i < j < |b.blocks|;
      assert IsAdjacentSwap(b, Swapped(b, i, j));
    }
  }

  lemma {:induction false} VSwapsAdjacent(b: Board, c: nat)
    requires Valid(b) && c <= b.n
    ensures forall x :: x in VSwaps(b, c) ==> IsAdjacentSwap(b, x)
  {
    if c > 0 {
      VSwapsAdjacent(b, c - 1);
      ColSwapsAdjacent(b, c - 1, Gaps(b.n));
    }
  }

  /** Each neighbour is this board with one pair of orthogonally adjacent cells swapped. */
  lemma NeighborsAreAdjacentSwaps(b: Board)
    requires Valid(b)
    ensures forall x :: x in NeighborBoards(b) ==> IsAdjacentSwap(b, x)
  {
    HSwapsAdjacent(b, b.n);
    VSwapsAdjacent(b, b.n);
  }

  /** Neighbours keep the dimension, so they are boards of the same shape. */
  lemma NeighborsValid(b: Board)
    requires Valid(b)
    ensures forall x :: x in NeighborBoards(b) ==> Valid(x) && x.n == b.n
  {
    NeighborsAreAdjacentSwaps(b);
  }

  lemma {:induction false} InRowSwaps(b: Board, r: nat, c: nat, cmax: nat, i: nat)
    requires Valid(b) && r < b.n && c < cmax <= Gaps(b.n) && i == Grid.Index(b.n, r, c)
    ensures i + 1 < |b.blocks| && Swapped(b, i, i + 1) in RowSwaps(b, r, cmax)
  {
    Grid.IndexInRange(b.n, r, c + 1);
    assert Grid.Index(b.n, r, c + 1) == i + 1;
    if c < cmax - 1 {
      InRowSwaps(b, r, c, cmax - 1, i);
    }
  }

  lemma {:induction false} RowInHSwaps(b: Board, rmax: nat, r: nat, x: Board)
    requires Valid(b) && r < rmax <= b.n && x in RowSwaps(b, r, Gaps(b.n))
    ensures x in HSwaps(b, rmax)
  {
    if r < rmax - 1 {
      RowInHSwaps(b, rmax - 1, r, x);
    }
  }

  lemma InHSwaps(b: Board, r: nat, c: nat, i: nat)
    requires Valid(b) && r < b.n && c < Gaps(b.n) && i == Grid.Index(b.n, r, c)
    ensures i + 1 < |b.blocks| && Swapped(b, i, i + 1) in HSwaps(b, b.n)
  {
    InRowSwaps(b, r, c, Gaps(b.n), i);
    RowInHSwaps(b, b.n, r, Swapped(b, i, i + 1));
  }

  lemma {:induction false} InColSwaps(b: Board, c: nat, r: nat, rmax: nat, i: nat, j: nat)
    requires Valid(b) && c < b.n && r < rmax <= Gaps(b.n)
    requires i == Grid.Index(b.n, r, c) && j == Grid.Index(b.n, r + 1, c)
    ensures j < |b.blocks| && Swapped(b, i, j) in ColSwaps(b, c, rmax)
  {
    Grid.IndexInRange(b.n, r + 1, c);
    if r < rmax - 1 {
      InColSwaps(b, c, r, rmax - 1, i, j);
    }
  }

  lemma {:induction false} ColInVSwaps(b: Board, cmax: nat, c: nat, x: Board)
    requires Valid(b) && c < cmax <= b.n && x in ColSwaps(b, c, Gaps(b.n))
    ensures x in VSwaps(b, cmax)
  {
    if c < cmax - 1 {
      ColInVSwaps(b, cmax - 1, c, x);
    }
  }

  lemma InVSwaps(b: Board, c: nat, r: nat, i: nat, j: nat)
    requires Valid(b) && c < b.n && r < Gaps(b.n)
    requires i == Grid.Index(b.n, r, c) && j == Grid.Index(b.n, r + 1, c)
    ensures j < |b.blocks| && Swapped(b, i, j) in VSwaps(b, b.n)
  {
    InColSwaps(b, c, r, Gaps(b.n), i, j);
    ColInVSwaps(b, b.n, c, Swapped(b, i, j));
  }

  lemma HorizontalSwapListed(b: Board, i: nat)
    requires Valid(b) && b.n > 0 && i + 1 < Grid.Area(b.n) && (i + 1) % b.n != 0
    ensures Swapped(b, i, i + 1) in HSwaps(b, b.n)
  {
    var n := b.n;
    var r, c := i / n, i % n;
    Grid.RowColIndex(n, i);
    Grid.RowInRange(n, i);
    Grid.IndexRowCol(n, r + 1, 0);
    assert c + 1 < n;
    InHSwaps(b, r, c, i);
  }

  lemma VerticalSwapListed(b: Board, i: nat)
    requires Valid(b) && b.n > 0 && i + b.n < Grid.Area(b.n)
    ensures Swapped(b, i, i + b.n) in VSwaps(b, b.n)
  {
    var n := b.n;
    Grid.RowColIndex(n, i);
    Grid.NextRow(n, i);
    InVSwaps(b, i % n, i / n, i, i + n);
  }

  /** Every swap of two orthogonally adjacent cells is among the neighbours. */
  lemma AdjacentSwapsAreNeighbors(b: Board, i: nat, j: nat)
    requires Valid(b) && Adjacent(b.n, i, j)
    ensures j < |b.blocks| && Swapped(b, i, j) in NeighborBoards(b)
  {
    if j == i + 1 && j % b.n != 0 {
      HorizontalSwapListed(b, i);
    } else {
      VerticalSwapListed(b, i);
    }
  }

  /** The twin is one of the neighbours. */
  lemma TwinIsNeighbor(b: Board)
    requires Valid(b) && b.n >= 2
    ensures TwinBoard(b) in NeighborBoards(b)
  {
    TwinCellsAdjacent(b);
    AdjacentSwapsAreNeighbors(b, TwinFirst(b), TwinSecond(b));
  }

  // ----------------------------------------------------------------------
  // toString()

  /** The cells below k, each as `%3d`, with a line break before every row but the first. */
  function CellsText(b: Board, k: nat): string
    requires k <= |b.blocks| && (k > 0 ==> b.n > 0)
  {
    if k == 0 then "" else CellsText(b, k - 1) + RowBreak(b.n, k - 1) + JavaText.Pad3(b.blocks[k - 1])
  }

  /** The line break written before cell i: one before the first cell of every row but the first. */
  function RowBreak(n: nat, i: nat): string
    requires n > 0
  {
    if i > 0 && i % n == 0 then "\n" else ""
  }

  function Render(b: Board): string
    requires Valid(b)
  {
    JavaText.IntToString(b.n) + "\n" + CellsText(b, |b.blocks|)
  }

  /** `toString()`: the dimension on its own line, then the cells row by row;
      a 0-by-0 board is just its header. */
  method ToString(b: Board) returns (s: string)
    requires Valid(b)
    ensures s == Render(b)
  {
    s := JavaText.IntToString(b.n) + "\n";
    var cells := "";
    for i := 0 to |b.blocks|
      invariant cells == CellsText(b, i)
    {
      cells := cells + RowBreak(b.n, i);
      cells := cells + JavaText.Pad3(b.blocks[i]);
    }
    s := s + cells;
  }

  function LineBreaks(s: string): nat
  {
    if s == [] then 0 else LineBreaks(s[..|s| - 1]) + (if s[|s| - 1] == '\n' then 1 else 0)
  }

  lemma {:induction false} LineBreaksAppend(s: string, t: string)
    ensures LineBreaks(s + t) == LineBreaks(s) + LineBreaks(t)
  {
    if t != [] {
      assert (s + t)[..|s + t| - 1] == s + t[..|t| - 1];
      LineBreaksAppend(s, t[..|t| - 1]);
    } else {
      assert s + t == s;
    }
  }

  lemma {:induction false} NoLineBreaks(s: string)
    requires forall k :: 0 <= k < |s| ==> s[k] != '\n'
    ensures LineBreaks(s) == 0
  {
    if s != [] {
      NoLineBreaks(s[..|s| - 1]);
    }
  }

  lemma NumberHasNoLineBreak(i: int)
    ensures LineBreaks(JavaText.IntToString(i)) == 0 && LineBreaks(JavaText.Pad3(i)) == 0
  {
    var d := JavaText.IntToString(i);
    assert forall k :: 0 <= k < |d| ==> d[k] != '\n' by {
      forall k | 0 <= k < |d| ensures d[k] != '\n' {
        if i < 0 && k > 0 {
          assert d[k] == d[1..][k - 1];
        }
      }
    }
    NoLineBreaks(d);
    var p := JavaText.Pad3(i);
    assert forall k :: 0 <= k < |p| ==> p[k] != '\n' by {
      forall k | 0 <= k < |p| ensures p[k] != '\n' {
        if k >= |p| - |d| {
          assert p[k] == p[|p| - |d|..][k - (|p| - |d|)];
        }
      }
    }
    NoLineBreaks(p);
  }

  /** Index k starts a new row exactly when the row of k exceeds the row of k - 1. */
  lemma RowStep(n: nat, k: nat)
    requires n > 0 && k > 0
    ensures k / n == (k - 1) / n + (if k % n == 0 then 1 else 0)
  {
    var q, m := (k - 1) / n, (k - 1) % n;
    Grid.RowColIndex(n, k - 1);
    if m == n - 1 {
      Grid.IndexRowCol(n, q + 1, 0);
      assert k == Grid.Index(n, q + 1, 0);
    } else {
      Grid.IndexRowCol(n, q, m + 1);
      assert k == Grid.Index(n, q, m + 1);
    }
  }

  lemma RowBreakCount(n: nat, i: nat)
    requires n > 0
    ensures LineBreaks(RowBreak(n, i)) == if i > 0 && i % n == 0 then 1 else 0
  {
    assert "\n"[..0] == [];
  }

  /** Appending cell k - 1 adds exactly the line breaks of its row break. */
  lemma CellsTextStep(b: Board, k: nat)
    requires b.n > 0 && 0 < k <= |b.blocks|
    ensures LineBreaks(CellsText(b, k)) == LineBreaks(CellsText(b, k - 1)) + LineBreaks(RowBreak(b.n, k - 1))
  {
    var prefix, sep, cell := CellsText(b, k - 1), RowBreak(b.n, k - 1), JavaText.Pad3(b.blocks[k - 1]);
    NumberHasNoLineBreak(b.blocks[k - 1]);
    LineBreaksAppend(prefix + sep, cell);
    LineBreaksAppend(prefix, sep);
  }

  lemma {:induction false} CellsTextLineBreaks(b: Board, k: nat)
    requires b.n > 0 && 0 < k <= |b.blocks|
    ensures LineBreaks(CellsText(b, k)) == (k - 1) / b.n
  {
    CellsTextStep(b, k);
    RowBreakCount(b.n, k - 1);
    if k > 1 {
      CellsTextLineBreaks(b, k - 1);
      RowStep(b.n, k - 1);
      var before, rows, rows' := LineBreaks(CellsText(b, k - 1)), (k - 2) / b.n, (k - 1) / b.n;
      var bump := LineBreaks(RowBreak(b.n, k - 1));
      assert before == rows;
      assert rows' == rows + bump;
    } else {
      Grid.RowColIndex(b.n, 0);
    }
  }

  /** The text form has n lines after the header: the header's line break and
      one break before each row after the first. */
  lemma RenderLineCount(b: Board)
    requires Valid(b) && b.n > 0
    ensures LineBreaks(Render(b)) == b.n
  {
    var n := b.n;
    CellsTextLineBreaks(b, |b.blocks|);
    Grid.IndexRowCol(n, n - 1, n - 1);
    assert |b.blocks| - 1 == Grid.Index(n, n - 1, n - 1);
    NumberHasNoLineBreak(n);
    LineBreaksAppend(JavaText.IntToString(n) + "\n", CellsText(b, |b.blocks|));
    LineBreaksAppend(JavaText.IntToString(n), "\n");
    assert LineBreaks("\n") == 1 by {
      assert "\n"[..0] == [];
    }
  }
}
