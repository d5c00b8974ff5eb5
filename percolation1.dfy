/** The first percolation grid (assignments/1-percolation). `open` looks at the
    four neighbours through offsets derived with Java's truncating `%` and `/`,
    ORs their root statuses into the new site's status, and writes the result
    to ONE slot: the site itself when its root is site 0, the root otherwise. */
module PercolationV1 {
  import opened Wrappers
  import Grid
  import JavaInt
  import opened UnionFind
  import opened PercolationSites

  /** The neighbour offset (dy, dx) the loop derives from its counter i. */
  function Offset(i: int): (d: (int, int))
  {
    (JavaInt.Rem(i, 3), JavaInt.Div(i, 2))
  }

  /** With Java's operators the counters -3, -1, 1, 3 give left, up, down and
      right; Dafny's Euclidean operators would give other offsets for the negative
      counters. */
  lemma OffsetsVisitNeighbours()
    ensures Offset(-3) == (0, -1) && Offset(-1) == (-1, 0) && Offset(1) == (1, 0) && Offset(3) == (0, 1)
    ensures (-3) / 2 != -1 && (-1) % 3 != -1
  {
  }

  /** One turn of the look-around loop, for the neighbour at offset (dy, dx): an
      open neighbour in the grid ORs the status at its current root into the
      site's status and is then united with the site. Positions outside the grid
      and blocked sites change nothing. */
  function Visit(state: seq<Status>, n: int, id: int, row: int, col: int, dy: int, dx: int, acc: (Status, Forest)): (r: (Status, Forest))
    requires n > 0 && |state| == |acc.1.root| == Grid.Area(n) && Bounded(acc.1) && 0 <= id < |state|
    ensures Bounded(r.1) && |r.1.root| == |state| && Covers(r.0, acc.0)
    ensures !ValidPosition(n, row + dy, col + dx) ==> r == acc
  {
    var y, x := row + dy, col + dx;
    if ValidPosition(n, y, x) && state[GetId(n, y, x)] != BLOCKED then
      var nid := GetId(n, y, x);
      (Or(acc.0, state[acc.1.root[nid]]), Merged(acc.1, id, nid))
    else acc
  }

  /** Turn i of the look-around loop; a counter past 3 is after the loop's end. */
  function Turn(state: seq<Status>, n: int, id: int, row: int, col: int, i: int, acc: (Status, Forest)): (r: (Status, Forest))
    requires n > 0 && |state| == |acc.1.root| == Grid.Area(n) && Bounded(acc.1) && 0 <= id < |state|
    ensures Bounded(r.1) && |r.1.root| == |state| && Covers(r.0, acc.0)
  {
    if i > 3 then acc else Visit(state, n, id, row, col, Offset(i).0, Offset(i).1, acc)
  }

  /** The look-around loop from counter i on. The counter steps by 2 from -3,
      so at most four turns remain. */
  function Scan(state: seq<Status>, n: int, id: int, row: int, col: int, i: int, acc: (Status, Forest)): (r: (Status, Forest))
    requires n > 0 && |state| == |acc.1.root| == Grid.Area(n) && Bounded(acc.1) && 0 <= id < |state| && -3 <= i
    ensures Bounded(r.1) && |r.1.root| == |state| && Covers(r.0, acc.0)
  {
    Turn(state, n, id, row, col, i + 6, Turn(state, n, id, row, col, i + 4,
      Turn(state, n, id, row, col, i + 2, Turn(state, n, id, row, col, i, acc))))
  }

  /** The status and forest the look-around loop of `open(row, col)` ends with. */
  function LookAround(s: Sites, id: int, row: int, col: int): (r: (Status, Forest))
    requires WellFormedSites(s) && 0 <= id < |s.state|
    ensures Bounded(r.1) && |r.1.root| == |s.state|
    ensures Covers(r.0, Flags(row, s.n)) && r.0 != BLOCKED
  {
    Scan(s.state, s.n, id, row, col, -3, (Flags(row, s.n), s.forest))
  }

  /** One turn of the look-around loop, unfolded. */
  lemma ScanStep(state: seq<Status>, n: int, id: int, row: int, col: int, i: int, acc: (Status, Forest))
    requires n > 0 && |state| == |acc.1.root| == Grid.Area(n) && Bounded(acc.1) && 0 <= id < |state| && -3 <= i
    ensures Scan(state, n, id, row, col, i, acc) == Scan(state, n, id, row, col, i + 2, Turn(state, n, id, row, col, i, acc))
  {
  }

  /** The loop visits the left, upper, lower and right neighbours, in that order. */
  lemma LookAroundVisits(s: Sites, id: int, row: int, col: int)
    requires WellFormedSites(s) && 0 <= id < |s.state|
    ensures var st, n := s.state, s.n;
      LookAround(s, id, row, col) ==
        Visit(st, n, id, row, col, 0, 1, Visit(st, n, id, row, col, 1, 0, Visit(st, n, id, row, col, -1, 0,
          Visit(st, n, id, row, col, 0, -1, (Flags(row, n), s.forest)))))
  {
    OffsetsVisitNeighbours();
  }

  /** A neighbour outside the grid or blocked changes nothing. */
  lemma VisitSkips(state: seq<Status>, n: int, id: int, row: int, col: int, dy: int, dx: int, acc: (Status, Forest))
    requires n > 0 && |state| == |acc.1.root| == Grid.Area(n) && Bounded(acc.1) && 0 <= id < |state|
    requires !ValidPosition(n, row + dy, col + dx) || state[GetId(n, row + dy, col + dx)] == BLOCKED
    ensures Visit(state, n, id, row, col, dy, dx, acc) == acc
  {
  }

  /** An open neighbour `nid` contributes its root's status and is united with the site. */
  lemma VisitJoins(state: seq<Status>, n: int, id: int, row: int, col: int, dy: int, dx: int, acc: (Status, Forest), nid: int)
    requires n > 0 && |state| == |acc.1.root| == Grid.Area(n) && Bounded(acc.1) && 0 <= id < |state|
    requires ValidPosition(n, row + dy, col + dx) && nid == GetId(n, row + dy, col + dx) && state[nid] != BLOCKED
    ensures Visit(state, n, id, row, col, dy, dx, acc) == (Or(acc.0, state[acc.1.root[nid]]), Merged(acc.1, id, nid))
  {
  }

  /** `open(row, col)`: rejects positions outside the grid, leaves an open site
      alone, and otherwise counts the site, joins it with its open neighbours and
      stores the combined status in one slot: the site's own when its root is
      site 0, the root's otherwise. */
  function Opened(s: Sites, row: int, col: int): (r: Result<Sites>)
    requires WellFormedSites(s)
    ensures r.Err? <==> !ValidPosition(s.n, row, col)
    ensures r.Err? ==> r.error == IllegalArgument
    ensures r.Ok? ==> WellFormedSites(r.value) && r.value.n == s.n
    ensures ValidPosition(s.n, row, col) && s.state[GetId(s.n, row, col)] != BLOCKED ==> r == Ok(s)
    ensures r.Ok? ==> r.value.openSites == s.openSites + (if s.state[GetId(s.n, row, col)] == BLOCKED then 1 else 0)
    ensures r.Ok? && s.percolates ==> r.value.percolates
    ensures r.Ok? ==> forall j :: 0 <= j < |s.state| && s.state[j] != BLOCKED ==> r.value.state[j] != BLOCKED
  {
    if !ValidPosition(s.n, row, col) then Err(IllegalArgument)
    else
      var id := GetId(s.n, row, col);
      if s.state[id] != BLOCKED then Ok(s)
      else
        var (siteState, f) := LookAround(s, id, row, col);
        var root := f.root[id];
        var state := if root == 0 then s.state[id := siteState] else s.state[root := siteState];
        Ok(Sites(s.n, state, f, s.openSites + 1, s.percolates || Percolated(siteState)))
  }

  /** `open` on a blocked site, spelled out: the result of the look-around
      loop is stored in one slot, the count grows and `percolates` is updated. */
  lemma OpenedBlocked(s: Sites, row: int, col: int, st: Status, f: Forest)
    requires WellFormedSites(s) && ValidPosition(s.n, row, col) && s.state[GetId(s.n, row, col)] == BLOCKED
    requires LookAround(s, GetId(s.n, row, col), row, col) == (st, f)
    ensures var id := GetId(s.n, row, col); var root := f.root[id];
      Opened(s, row, col) == Ok(Sites(s.n, if root == 0 then s.state[id := st] else s.state[root := st],
                                      f, s.openSites + 1, s.percolates || Percolated(st)))
  {
  }

  /** A fresh open sets `percolates` exactly when it was set already or the
      combined status carries both TOP and BOTTOM. */
  lemma OpenedPercolates(s: Sites, row: int, col: int)
    requires WellFormedSites(s) && ValidPosition(s.n, row, col) && s.state[GetId(s.n, row, col)] == BLOCKED
    ensures var id := GetId(s.n, row, col); var st := LookAround(s, id, row, col).0;
      Opened(s, row, col).value.percolates <==> s.percolates || (st.top && st.bottom)
  {
  }

  /** Opening the single site of a 1-by-1 grid makes it percolate and be full. */
  lemma OneByOne()
    ensures Create(1).Ok? && Opened(Create(1).value, 1, 1).Ok?
    ensures var s := Opened(Create(1).value, 1, 1).value;
      s.percolates && PercolationSites.IsFull(s, 1, 1) == Ok(true) && s.openSites == 1
  {
    var s0 := Create(1).value;
    assert s0.state == [BLOCKED] && s0.forest == Forest([0], [1]);
    LookAroundVisits(s0, 0, 1, 1);
    assert LookAround(s0, 0, 1, 1) == (Status(true, true, true), s0.forest);
  }

  /** The statuses the script of `OpenLeavesSiteBlocked` writes. */
  const TOP := Status(true, true, false)

  /** Step 1 of the script: open(1,1) on a fresh grid of size n >= 2 marks site 0
      and joins nothing. */
  lemma ScriptStep1(n: int)
    requires n >= 2
    ensures Create(n).Ok? && Opened(Create(n).value, 1, 1).Ok?
    ensures var s0 := Create(n).value;
      Opened(s0, 1, 1).value == Sites(n, s0.state[0 := TOP], s0.forest, 1, false)
  {
    var s0 := Create(n).value;
    Grid.MulIsProduct(n, n);
    assert GetId(n, 1, 1) == 0 && GetId(n, 2, 1) == n && GetId(n, 1, 2) == 1;
    var a := (Flags(1, n), s0.forest);
    LookAroundVisits(s0, 0, 1, 1);
    VisitSkips(s0.state, n, 0, 1, 1, 0, -1, a);
    VisitSkips(s0.state, n, 0, 1, 1, -1, 0, a);
    VisitSkips(s0.state, n, 0, 1, 1, 1, 0, a);
    VisitSkips(s0.state, n, 0, 1, 1, 0, 1, a);
  }

  /** Step 2: open(1,2) joins site 1 with site 0; on equal sizes site 0's root
      goes under site 1, and site 1 receives the status. */
  lemma ScriptStep2(s1: Sites)
    requires WellFormedSites(s1) && s1.n >= 2 && s1.openSites == 1 && !s1.percolates
    requires s1.state[0] == TOP && forall j :: 0 < j < |s1.state| ==> s1.state[j] == BLOCKED
    requires forall j :: 0 <= j < |s1.state| ==> s1.forest.root[j] == j && s1.forest.size[j] == 1
    ensures Opened(s1, 1, 2).Ok?
    ensures Opened(s1, 1, 2).value == Sites(s1.n, s1.state[1 := TOP], Merged(s1.forest, 1, 0), 2, false)
  {
    Step2LookAround(s1);
  }

  /** The look-around loop of step 2: the left neighbour (1,1) is the only
      open one. */
  lemma Step2LookAround(s1: Sites)
    requires WellFormedSites(s1) && s1.n >= 2 && s1.openSites == 1 && !s1.percolates
    requires s1.state[0] == TOP && forall j :: 0 < j < |s1.state| ==> s1.state[j] == BLOCKED
    requires forall j :: 0 <= j < |s1.state| ==> s1.forest.root[j] == j && s1.forest.size[j] == 1
    ensures GetId(s1.n, 1, 2) == 1 && 1 < |s1.state| && Merged(s1.forest, 1, 0).root[1] == 1
    ensures LookAround(s1, 1, 1, 2) == (TOP, Merged(s1.forest, 1, 0))
  {
    var n := s1.n;
    Grid.MulIsProduct(n, n);
    assert GetId(n, 1, 1) == 0 && GetId(n, 1, 2) == 1 && GetId(n, 2, 2) == n + 1;
    var a := (Flags(1, n), s1.forest);
    LookAroundVisits(s1, 1, 1, 2);
    VisitJoins(s1.state, n, 1, 1, 2, 0, -1, a, 0);
    var f := Merged(s1.forest, 1, 0);
    assert f.root[1] == 1;
    var b := (TOP, f);
    VisitSkips(s1.state, n, 1, 1, 2, -1, 0, b);
    VisitSkips(s1.state, n, 1, 1, 2, 1, 0, b);
    VisitSkips(s1.state, n, 1, 1, 2, 0, 1, b);
  }

  /** Step 3: open(2,1) joins site n with site 0, whose root is now site 1; the
      smaller tree of site n goes under site 1, so the status is written to
      site 1 and site n itself stays blocked. */
  lemma ScriptStep3(s2: Sites)
    requires WellFormedSites(s2) && s2.n >= 2 && s2.openSites == 2
    requires s2.state[0] == TOP && s2.state[1] == TOP && forall j :: 1 < j < |s2.state| ==> s2.state[j] == BLOCKED
    requires s2.forest.root[0] == 1 && s2.forest.root[1] == 1 && s2.forest.size[1] == 2
    requires forall j :: 1 < j < |s2.state| ==> s2.forest.root[j] == j && s2.forest.size[j] == 1
    ensures Opened(s2, 2, 1).Ok?
    ensures var st := Status(true, true, s2.n == 2);
      Opened(s2, 2, 1).value == Sites(s2.n, s2.state[1 := st], Merged(s2.forest, s2.n, 0), 3, s2.percolates || s2.n == 2)
  {
    Step3LookAround(s2);
  }

  /** The look-around loop of step 3: the upper neighbour (1,1) is the only
      open one, so the new status ORs in site 1's TOP flag. */
  lemma Step3LookAround(s2: Sites)
    requires WellFormedSites(s2) && s2.n >= 2 && s2.openSites == 2
    requires s2.state[0] == TOP && s2.state[1] == TOP && forall j :: 1 < j < |s2.state| ==> s2.state[j] == BLOCKED
    requires s2.forest.root[0] == 1 && s2.forest.root[1] == 1 && s2.forest.size[1] == 2
    requires forall j :: 1 < j < |s2.state| ==> s2.forest.root[j] == j && s2.forest.size[j] == 1
    ensures GetId(s2.n, 2, 1) == s2.n && s2.n < |s2.state| && Merged(s2.forest, s2.n, 0).root[s2.n] == 1
    ensures LookAround(s2, s2.n, 2, 1) == (Status(true, true, s2.n == 2), Merged(s2.forest, s2.n, 0))
  {
    var n := s2.n;
    Grid.MulIsProduct(n, n);
    assert GetId(n, 1, 1) == 0 && GetId(n, 2, 1) == n && GetId(n, 2, 2) == n + 1;
    var a := (Flags(2, n), s2.forest);
    LookAroundVisits(s2, n, 2, 1);
    VisitSkips(s2.state, n, n, 2, 1, 0, -1, a);
    VisitJoins(s2.state, n, n, 2, 1, -1, 0, a, 0);
    var f := Merged(s2.forest, n, 0);
    assert f.root[n] == 1;
    var b := (Status(true, true, n == 2), f);
    if n > 2 {
      assert GetId(n, 3, 1) == 2 * n;
    }
    VisitSkips(s2.state, n, n, 2, 1, 1, 0, b);
    VisitSkips(s2.state, n, n, 2, 1, 0, 1, b);
  }

  /** The grid after step 1 of the script. */
  predicate Stage1(s: Sites)
  {
    WellFormedSites(s) && s.n >= 2 && s.openSites == 1 && CountOpen(s.state) == 1 && !s.percolates
    && s.state[0] == TOP && (forall j :: 0 < j < |s.state| ==> s.state[j] == BLOCKED)
    && (forall j :: 0 <= j < |s.state| ==> s.forest.root[j] == j && s.forest.size[j] == 1)
  }

  /** The grid after step 2 of the script. */
  predicate Stage2(s: Sites)
  {
    WellFormedSites(s) && s.n >= 2 && s.openSites == 2 && CountOpen(s.state) == 2
    && s.state[0] == TOP && s.state[1] == TOP && (forall j :: 1 < j < |s.state| ==> s.state[j] == BLOCKED)
    && s.forest.root[0] == 1 && s.forest.root[1] == 1 && s.forest.size[1] == 2
    && (forall j :: 1 < j < |s.state| ==> s.forest.root[j] == j && s.forest.size[j] == 1)
  }

  lemma ReachStage1(n: int)
    requires n >= 2
    ensures Create(n).Ok? && Opened(Create(n).value, 1, 1).Ok? && Stage1(Opened(Create(n).value, 1, 1).value)
  {
    var s0 := Create(n).value;
    ScriptStep1(n);
    Grid.MulIsProduct(n, n);
    CountOpenNone(s0.state);
    CountOpenUpdate(s0.state, 0, TOP);
  }

  lemma ReachStage2(s1: Sites)
    requires Stage1(s1)
    ensures Opened(s1, 1, 2).Ok? && Stage2(Opened(s1, 1, 2).value)
  {
    ScriptStep2(s1);
    Grid.MulIsProduct(s1.n, s1.n);
    CountOpenUpdate(s1.state, 1, TOP);
    var f := Merged(s1.forest, 1, 0);
    assert f == Forest(Relink(s1.forest.root, 0, 1), s1.forest.size[1 := 2]);
  }

  lemma ReachStage3(s2: Sites)
    requires Stage2(s2)
    ensures Opened(s2, 2, 1).Ok?
    ensures var s3 := Opened(s2, 2, 1).value;
      PercolationSites.IsOpen(s3, 2, 1) == Ok(false) && s3.openSites == 3 && CountOpen(s3.state) == 2
  {
    var n := s2.n;
    ScriptStep3(s2);
    Grid.MulIsProduct(n, n);
    assert GetId(n, 2, 1) == n;
    CountOpenUpdate(s2.state, 1, Status(true, true, n == 2));
  }

  /** On every grid of size n >= 2, open(1,1), open(1,2), open(2,1) leaves site
      (2,1) blocked: its root is then (1,2), which receives the status instead,
      so `isOpen(2, 1)` answers false while three sites are counted as open. */
  lemma OpenLeavesSiteBlocked(n: int)
    requires n >= 2
    ensures Create(n).Ok?
    ensures var s0 := Create(n).value;
      Opened(s0, 1, 1).Ok? && Opened(Opened(s0, 1, 1).value, 1, 2).Ok?
      && Opened(Opened(Opened(s0, 1, 1).value, 1, 2).value, 2, 1).Ok?
    ensures var s3 := Opened(Opened(Opened(Create(n).value, 1, 1).value, 1, 2).value, 2, 1).value;
      PercolationSites.IsOpen(s3, 2, 1) == Ok(false) && s3.openSites == 3 && CountOpen(s3.state) == 2
  {
    ReachStage1(n);
    var s1 := Opened(Create(n).value, 1, 1).value;
    ReachStage2(s1);
    ReachStage3(Opened(s1, 1, 2).value);
  }

  /** The grid object: a status byte per site, the union-find structure over
      the sites, the open-site counter and the `percolates` flag. */
  class Percolation {
    const n: int
    const state: array<Status>
    const connections: UF
    var numberOfOpenSites: int
    var percolates: bool

    ghost predicate Valid()
      reads this, state, connections, connections.parent, connections.size
    {
      connections.Valid() && n > 0 && state.Length == Grid.Area(n) && |connections.root| == state.Length
      && numberOfOpenSites >= 0
    }

    /** A valid grid object holds a well-formed grid value. */
    lemma ViewWellFormed()
      requires Valid()
      ensures WellFormedSites(View())
    {
    }

    /** The grid as a value. */
    ghost function View(): Sites
      reads this, state, connections, connections.size
    {
      Sites(n, state[..], connections.Abstract(), numberOfOpenSites, percolates)
    }

    /** `new Percolation(n)` for n > 0; `New` rejects the other sizes. */
    constructor(n: int)
      requires n > 0
      ensures Valid() && fresh(state) && fresh(connections) && fresh(connections.parent) && fresh(connections.size)
      ensures Create(n) == Ok(View())
    {
      Grid.MulIsProduct(n, n);
      this.n := n;
      state := new Status[n * n](_ => BLOCKED);
      connections := new UF(n * n);
      numberOfOpenSites := 0;
      percolates := false;
      new;
      assert state[..] == seq(Grid.Area(n), _ => BLOCKED);
    }

    /** `open(row, col)`. */
    method Open(row: int, col: int) returns (o: Outcome)
      requires Valid()
      modifies this, state, connections, connections.parent, connections.size
      ensures Valid()
      ensures o.Pass? ==> Opened(old(View()), row, col) == Ok(View())
      ensures o.Fail? ==> Opened(old(View()), row, col) == Err(o.error) && View() == old(View())
    {
      if row <= 0 || row > n || col <= 0 || col > n {
        return Fail(IllegalArgument);
      }
      var siteId := (row - 1) * n + (col - 1);
      assert siteId == GetId(n, row, col);
      if state[siteId] != BLOCKED {
        ViewWellFormed();
        return Pass;
      }
      OpenSite(siteId, row, col);
      return Pass;
    }

    /** The part of `open` that runs on a blocked site: count it, join it with
        its open neighbours and store the combined status. */
    method OpenSite(siteId: int, row: int, col: int)
      requires Valid() && ValidPosition(n, row, col) && siteId == GetId(n, row, col) && state[siteId] == BLOCKED
      modifies this, state, connections, connections.parent, connections.size
      ensures Valid()
      ensures WellFormedSites(old(View())) && Opened(old(View()), row, col) == Ok(View())
    {
      ViewWellFormed();
      ghost var s := View();
      var siteState := CombinedStatus(siteId, row, col);
      ghost var f := connections.Abstract();
      Store(siteId, siteState);
      ghost var root := f.root[siteId];
      assert View() == Sites(n, if root == 0 then s.state[siteId := siteState] else s.state[root := siteState], f,
                             s.openSites + 1, s.percolates || Percolated(siteState));
      OpenedBlocked(s, row, col, siteState, f);
    }

    /** The status `open` computes for the site: its own flags from its row,
        then the look-around loop over its neighbours. */
    method CombinedStatus(siteId: int, row: int, col: int) returns (siteState: Status)
      requires Valid() && ValidPosition(n, row, col) && siteId == GetId(n, row, col)
      modifies connections, connections.parent, connections.size
      ensures Valid() && WellFormedSites(old(View()))
      ensures (siteState, connections.Abstract()) == LookAround(old(View()), siteId, row, col)
    {
      ViewWellFormed();
      siteState := Status(true, false, false);
      if row == 1 {
        siteState := Or(siteState, Status(false, true, false));
      }
      if row == n {
        siteState := Or(siteState, Status(false, false, true));
      }
      assert siteState == Flags(row, n);
      siteState := LookAroundLoop(siteId, row, col, siteState);
    }

    /** The end of `open`: the combined status goes to the site when its root
        is site 0 and to the root otherwise; the site is counted and
        `percolates` is updated. */
    method Store(siteId: int, siteState: Status)
      requires Valid() && 0 <= siteId < state.Length
      modifies this, state
      ensures Valid() && connections.Abstract() == old(connections.Abstract())
      ensures var root := connections.root[siteId];
        state[..] == if root == 0 then old(state[..])[siteId := siteState] else old(state[..])[root := siteState]
      ensures numberOfOpenSites == old(numberOfOpenSites) + 1
      ensures percolates == (old(percolates) || Percolated(siteState))
    {
      var siteComponentId := connections.Find(siteId);
      if siteComponentId == 0 {
        state[siteId] := siteState;
      } else {
        state[siteComponentId] := siteState;
      }
      numberOfOpenSites := numberOfOpenSites + 1;
      if !percolates {
        percolates := Percolated(siteState);
      }
    }

    /** The look-around loop of `open`: visits the four neighbours of the site
        `siteId` at (row, col). */
    method LookAroundLoop(siteId: int, row: int, col: int, siteState0: Status) returns (siteState: Status)
      requires Valid() && ValidPosition(n, row, col) && siteId == GetId(n, row, col)
      modifies connections, connections.parent, connections.size
      ensures Valid() && |connections.root| == old(|connections.root|)
      ensures (siteState, connections.Abstract()) == Scan(state[..], n, siteId, row, col, -3, (siteState0, old(connections.Abstract())))
    {
      siteState := siteState0;
      var i := -3;
      while i <= 3
        invariant -3 <= i <= 5
        invariant Valid() && |connections.root| == old(|connections.root|)
        invariant Scan(state[..], n, siteId, row, col, i, (siteState, connections.Abstract()))
               == Scan(state[..], n, siteId, row, col, -3, (siteState0, old(connections.Abstract())))
      {
        ghost var acc := (siteState, connections.Abstract());
        ScanStep(state[..], n, siteId, row, col, i, acc);
        var dy := JavaInt.Rem(i, 3);
        var dx := JavaInt.Div(i, 2);
        siteState := Neighbour(siteId, row, col, dy, dx, siteState);
        assert (siteState, connections.Abstract()) == Turn(state[..], n, siteId, row, col, i, acc);
        i := i + 2;
      }
    }

    /** One turn of the look-around loop, at offset (dy, dx). */
    method Neighbour(siteId: int, row: int, col: int, dy: int, dx: int, siteState0: Status) returns (siteState: Status)
      requires Valid() && 0 <= siteId < state.Length
      modifies connections, connections.parent, connections.size
      ensures Valid() && |connections.root| == old(|connections.root|)
      ensures (siteState, connections.Abstract()) == Visit(state[..], n, siteId, row, col, dy, dx, (siteState0, old(connections.Abstract())))
    {
      siteState := siteState0;
      var y := row + dy;
      var x := col + dx;
      if y >= 1 && y <= n && x >= 1 && x <= n {
        var neighborId := (y - 1) * n + (x - 1);
        assert neighborId == GetId(n, y, x);
        if state[neighborId] != BLOCKED {
          var r := connections.Find(neighborId);
          siteState := Or(siteState, state[r]);
          connections.Union(siteId, neighborId);
        }
      }
    }

    /** `isOpen(row, col)`. */
    method IsOpen(row: int, col: int) returns (r: Result<bool>)
      requires Valid()
      ensures r == PercolationSites.IsOpen(View(), row, col)
    {
      if row <= 0 || row > n || col <= 0 || col > n {
        return Err(IllegalArgument);
      }
      var siteId := (row - 1) * n + (col - 1);
      assert siteId == GetId(n, row, col);
      return Ok(state[siteId] != BLOCKED);
    }

    /** `isFull(row, col)`. */
    method IsFull(row: int, col: int) returns (r: Result<bool>)
      requires Valid()
      ensures r == PercolationSites.IsFull(View(), row, col)
    {
      if row <= 0 || row > n || col <= 0 || col > n {
        return Err(IllegalArgument);
      }
      var siteId := (row - 1) * n + (col - 1);
      assert siteId == GetId(n, row, col);
      var root := connections.Find(siteId);
      return Ok(state[root].top);
    }

    /** `numberOfOpenSites()`. */
    method NumberOfOpenSites() returns (c: int)
      requires Valid()
      ensures c == View().openSites
    {
      return numberOfOpenSites;
    }

    /** `percolates()`. */
    method Percolates() returns (p: bool)
      requires Valid()
      ensures p == View().percolates
    {
      return percolates;
    }
  }

  /** `new Percolation(n)`, with the exception for n <= 0 as an error value. */
  method New(n: int) returns (r: Result<Percolation>)
    ensures r.Err? <==> Create(n).Err?
    ensures r.Err? ==> r == Err(Create(n).error)
    ensures r.Ok? ==> fresh(r.value) && r.value.Valid() && Create(n) == Ok(r.value.View())
  {
    if n <= 0 {
      return Err(IllegalArgument);
    }
    var p := new Percolation(n);
    return Ok(p);
  }
}
