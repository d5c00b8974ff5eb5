/** What the two percolation grids share: the n-by-n site numbering, the
    per-site status byte with its OPEN / TOP / BOTTOM bits, and the queries
    `isOpen` and `isFull`, which both versions write identically.

    A grid's observable state is a `Sites` value: the status bytes, the
    union-find forest over the n*n sites, the open-site counter and the sticky
    `percolates` flag. */
module PercolationSites {
  import opened Wrappers
  import Grid
  import opened UnionFind

  /** A status byte. The code only ever sets its three low bits, OPEN (1),
      TOP_CONNECTED (2) and BOTTOM_CONNECTED (4), so a byte is one boolean per
      bit; the byte 0 is `BLOCKED`. */
  datatype Status = Status(open: bool, top: bool, bottom: bool)

  const BLOCKED := Status(false, false, false)

  /** Java's `|` on two status bytes. */
  function Or(a: Status, b: Status): (c: Status)
    ensures Covers(c, a) && Covers(c, b)
  {
    Status(a.open || b.open, a.top || b.top, a.bottom || b.bottom)
  }

  /** Every bit set in b is set in a. */
  predicate Covers(a: Status, b: Status)
  {
    (b.open ==> a.open) && (b.top ==> a.top) && (b.bottom ==> a.bottom)
  }

  /** `(status & PERCOLATED) == PERCOLATED`: both TOP and BOTTOM are set. */
  predicate Percolated(a: Status)
  {
    a.top && a.bottom
  }

  datatype Sites = Sites(n: int, state: seq<Status>, forest: Forest, openSites: int, percolates: bool)

  /** The shape every grid keeps: n*n status bytes, one forest entry per site. */
  predicate WellFormedSites(s: Sites)
  {
    s.n > 0 && |s.state| == Grid.Area(s.n) && |s.forest.root| == |s.state| && Bounded(s.forest)
    && s.openSites >= 0
  }

  /** `validatePosition`: row and col both lie in 1..n. */
  predicate ValidPosition(n: int, row: int, col: int)
  {
    1 <= row <= n && 1 <= col <= n
  }

  /** `getId`: row-major numbering of the 1-based (row, col). */
  function GetId(n: int, row: int, col: int): (id: nat)
    requires ValidPosition(n, row, col)
    ensures id < Grid.Area(n)
  {
    GetIdIsIndex(n, row, col);
    (row - 1) * n + (col - 1)
  }

  /** `getId` is the grid's row-major index of (row - 1, col - 1). */
  lemma GetIdIsIndex(n: int, row: int, col: int)
    requires ValidPosition(n, row, col)
    ensures (row - 1) * n + (col - 1) == Grid.Index(n, row - 1, col - 1) < Grid.Area(n)
  {
    Grid.IndexInRange(n, row - 1, col - 1);
    Grid.MulIsProduct(row - 1, n);
  }

  /** The 1-based position of site `id`, the inverse of `GetId`. */
  function SiteOf(n: int, id: int): (rc: (int, int))
    requires n > 0 && 0 <= id < Grid.Area(n)
    ensures ValidPosition(n, rc.0, rc.1)
  {
    Grid.RowInRange(n, id);
    (id / n + 1, id % n + 1)
  }

  /** `getId` is a bijection between the positions of the grid and 0..n*n-1. */
  lemma GetIdBijective(n: int, row: int, col: int, id: int)
    requires n > 0 && 0 <= id < Grid.Area(n) && ValidPosition(n, row, col)
    ensures SiteOf(n, GetId(n, row, col)) == (row, col)
    ensures GetId(n, SiteOf(n, id).0, SiteOf(n, id).1) == id
  {
    GetIdIsIndex(n, row, col);
    Grid.IndexRowCol(n, row - 1, col - 1);
    var (r, c) := SiteOf(n, id);
    GetIdIsIndex(n, r, c);
    Grid.RowColIndex(n, id);
  }

  /** `new Percolation(n)`: n <= 0 is rejected; otherwise every site is blocked
      (status 0), nothing is joined and nothing is counted. */
  function Create(n: int): (r: Result<Sites>)
    ensures r.Err? <==> n <= 0
    ensures r.Err? ==> r.error == IllegalArgument
    ensures r.Ok? ==> WellFormedSites(r.value) && r.value.n == n && r.value.openSites == 0 && !r.value.percolates
    ensures r.Ok? ==> forall j :: 0 <= j < |r.value.state| ==> r.value.state[j] == BLOCKED && r.value.forest.root[j] == j
  {
    if n <= 0 then Err(IllegalArgument)
    else Ok(Sites(n, seq(Grid.Area(n), _ => BLOCKED), Singletons(Grid.Area(n)), 0, false))
  }

  /** The status a site starts from when it is opened: OPEN, plus TOP in the
      first row and BOTTOM in the last. */
  function Flags(row: int, n: int): (f: Status)
    ensures f.open && f != BLOCKED
    ensures f.top <==> row == 1
    ensures f.bottom <==> row == n
  {
    Status(true, row == 1, row == n)
  }

  /** `isOpen(row, col)`: the site's own status byte is positive, which for the
      bytes the grids write means it is not 0. */
  function IsOpen(s: Sites, row: int, col: int): (r: Result<bool>)
    requires WellFormedSites(s)
    ensures r.Err? <==> !ValidPosition(s.n, row, col)
    ensures r.Err? ==> r.error == IllegalArgument
    ensures r.Ok? ==> (r.value <==> s.state[GetId(s.n, row, col)] != BLOCKED)
  {
    if !ValidPosition(s.n, row, col) then Err(IllegalArgument)
    else Ok(s.state[GetId(s.n, row, col)] != BLOCKED)
  }

  /** `isFull(row, col)`: the status byte at the site's root carries TOP. */
  function IsFull(s: Sites, row: int, col: int): (r: Result<bool>)
    requires WellFormedSites(s)
    ensures r.Err? <==> !ValidPosition(s.n, row, col)
    ensures r.Err? ==> r.error == IllegalArgument
  {
    if !ValidPosition(s.n, row, col) then Err(IllegalArgument)
    else Ok(s.state[s.forest.root[GetId(s.n, row, col)]].top)
  }

  /** The number of sites whose status byte is not 0. */
  function CountOpen(state: seq<Status>): (c: nat)
    ensures c <= |state|
  {
    if |state| == 0 then 0
    else CountOpen(state[..|state| - 1]) + (if state[|state| - 1] != BLOCKED then 1 else 0)
  }

  /** Writing a non-zero status adds one open site when the slot was 0 and none
      otherwise. */
  lemma {:induction false} CountOpenUpdate(state: seq<Status>, i: int, v: Status)
    requires 0 <= i < |state| && v != BLOCKED
    ensures CountOpen(state[i := v]) == CountOpen(state) + (if state[i] == BLOCKED then 1 else 0)
  {
    var last := |state| - 1;
    if i < last {
      assert state[i := v][..last] == state[..last][i := v];
      CountOpenUpdate(state[..last], i, v);
    } else {
      assert state[i := v][..last] == state[..last];
    }
  }

  /** A grid with no open site counts none. */
  lemma {:induction false} CountOpenNone(state: seq<Status>)
    requires forall j :: 0 <= j < |state| ==> state[j] == BLOCKED
    ensures CountOpen(state) == 0
  {
    if |state| > 0 {
      CountOpenNone(state[..|state| - 1]);
    }
  }
}
