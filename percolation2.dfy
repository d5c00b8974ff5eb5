/** The revised percolation grid (assignments/percolation). `open` visits the
    upper and left neighbours, then the lower and right ones, recording each
    open neighbour's root status in a four-slot array, and writes the combined
    status to BOTH the site and its root. */
module PercolationV2 {
  import opened Wrappers
  import Grid
  import opened UnionFind
  import opened PercolationSites

  /** Four blocked slots, as `new byte[4]` creates them. */
  const NO_NEIGHBOURS: seq<Status> := [BLOCKED, BLOCKED, BLOCKED, BLOCKED]

  /** One neighbour at (y, x): an open neighbour in the grid has the status at
      its current root recorded in `slot` and is then united with the site.
      Positions outside the grid and blocked sites change nothing. */
  function Visit(state: seq<Status>, n: int, id: int, y: int, x: int, slot: int, acc: (seq<Status>, Forest)): (r: (seq<Status>, Forest))
    requires n > 0 && |state| == |acc.1.root| == Grid.Area(n) && Bounded(acc.1) && 0 <= id < |state|
    requires |acc.0| == 4 && 0 <= slot < 4
    ensures Bounded(r.1) && |r.1.root| == |state| && |r.0| == 4
    ensures !ValidPosition(n, y, x) ==> r == acc
  {
    if ValidPosition(n, y, x) && state[GetId(n, y, x)] != BLOCKED then
      var nid := GetId(n, y, x);
      (acc.0[slot := state[acc.1.root[nid]]], Merged(acc.1, id, nid))
    else acc
  }

  /** Turn i of the look-around loop: the vertical neighbour (row + i, col)
      into slot i + 1, then the horizontal one (row, col + i) into slot i + 2;
      a counter past 1 is after the loop's end. */
  function Turn(state: seq<Status>, n: int, id: int, row: int, col: int, i: int, acc: (seq<Status>, Forest)): (r: (seq<Status>, Forest))
    requires n > 0 && |state| == |acc.1.root| == Grid.Area(n) && Bounded(acc.1) && 0 <= id < |state|
    requires |acc.0| == 4 && -1 <= i
    ensures Bounded(r.1) && |r.1.root| == |state| && |r.0| == 4
  {
    if i > 1 then acc
    else Visit(state, n, id, row, col + i, i + 2, Visit(state, n, id, row + i, col, i + 1, acc))
  }

  /** The look-around loop from counter i on: i is -1 or 1, so at most two
      turns remain. */
  function Scan(state: seq<Status>, n: int, id: int, row: int, col: int, i: int, acc: (seq<Status>, Forest)): (r: (seq<Status>, Forest))
    requires n > 0 && |state| == |acc.1.root| == Grid.Area(n) && Bounded(acc.1) && 0 <= id < |state|
    requires |acc.0| == 4 && -1 <= i
    ensures Bounded(r.1) && |r.1.root| == |state| && |r.0| == 4
  {
    Turn(state, n, id, row, col, i + 2, Turn(state, n, id, row, col, i, acc))
  }

  /** One turn of the loop, unfolded. */
  lemma ScanStep(state: seq<Status>, n: int, id: int, row: int, col: int, i: int, acc: (seq<Status>, Forest))
    requires n > 0 && |state| == |acc.1.root| == Grid.Area(n) && Bounded(acc.1) && 0 <= id < |state|
    requires |acc.0| == 4 && -1 <= i
    ensures Scan(state, n, id, row, col, i, acc) == Scan(state, n, id, row, col, i + 2, Turn(state, n, id, row, col, i, acc))
  {
  }

  /** The neighbour statuses and the forest the look-around loop of
      `open(row, col)` ends with. */
  function LookAround(s: Sites, id: int, row: int, col: int): (r: (seq<Status>, Forest))
    requires WellFormedSites(s) && 0 <= id < |s.state|
    ensures Bounded(r.1) && |r.1.root| == |s.state| && |r.0| == 4
  {
    Scan(s.state, s.n, id, row, col, -1, (NO_NEIGHBOURS, s.forest))
  }

  /** `status | ns[0] | ns[1] | ns[2] | ns[3]`. */
  function Combine(status: Status, ns: seq<Status>): (c: Status)
    requires |ns| == 4
    ensures Covers(c, status) && forall k :: 0 <= k < 4 ==> Covers(c, ns[k])
  {
    Or(Or(Or(Or(status, ns[0]), ns[1]), ns[2]), ns[3])
  }

  /** `open(row, col)`: rejects positions outside the grid, leaves an open site
      alone, and otherwise counts the site, joins it with its open neighbours and
      writes the combined status to the site and then to its root. */
  function Opened(s: Sites, row: int, col: int): (r: Result<Sites>)
    requires WellFormedSites(s)
    ensures r.Err? <==> !ValidPosition(s.n, row, col)
    ensures r.Err? ==> r.error == IllegalArgument
    ensures r.Ok? ==> WellFormedSites(r.value) && r.value.n == s.n
    ensures ValidPosition(s.n, row, col) && s.state[GetId(s.n, row, col)] != BLOCKED ==> r == Ok(s)
    ensures r.Ok? ==> r.value.openSites == s.openSites + (if s.state[GetId(s.n, row, col)] == BLOCKED then 1 else 0)
    ensures r.Ok? && s.percolates ==> r.value.percolates
    ensures r.Ok? ==> forall j :: 0 <= j < |s.state| && s.state[j] != BLOCKED ==> r.value.state[j] != BLOCKED
    ensures r.Ok? ==> r.value.state[GetId(s.n, row, col)] != BLOCKED
  {
    if !ValidPosition(s.n, row, col) then Err(IllegalArgument)
    else
      var id := GetId(s.n, row, col);
      if s.state[id] != BLOCKED then Ok(s)
      else
        var (ns, f) := LookAround(s, id, row, col);
        var status := Combine(Flags(row, s.n), ns);
        Ok(Sites(s.n, s.state[id := status][f.root[id] := status], f, s.openSites + 1, s.percolates || Percolated(status)))
  }

  /** `open` on a blocked site, spelled out: the combined status is written
      to the site and then to its root, the count grows and `percolates` is
      updated. */
  lemma OpenedBlocked(s: Sites, row: int, col: int, status: Status, f: Forest)
    requires WellFormedSites(s) && ValidPosition(s.n, row, col) && s.state[GetId(s.n, row, col)] == BLOCKED
    requires var (ns, f') := LookAround(s, GetId(s.n, row, col), row, col);
      f == f' && status == Combine(Flags(row, s.n), ns)
    ensures var id := GetId(s.n, row, col);
      Opened(s, row, col) == Ok(Sites(s.n, s.state[id := status][f.root[id] := status], f, s.openSites + 1,
                                      s.percolates || Percolated(status)))
  {
  }

  /** After `open(row, col)` the site is open. */
  lemma OpenedIsOpen(s: Sites, row: int, col: int)
    requires WellFormedSites(s) && ValidPosition(s.n, row, col)
    ensures Opened(s, row, col).Ok? && PercolationSites.IsOpen(Opened(s, row, col).value, row, col) == Ok(true)
  {
  }

  /** A site freshly opened in row 1 is full: its root's status carries TOP. */
  lemma OpenedTopRowFull(s: Sites, col: int)
    requires WellFormedSites(s) && ValidPosition(s.n, 1, col) && s.state[GetId(s.n, 1, col)] == BLOCKED
    ensures Opened(s, 1, col).Ok? && PercolationSites.IsFull(Opened(s, 1, col).value, 1, col) == Ok(true)
  {
  }

  /** The site's new status: OPEN, TOP in row 1, BOTTOM in row n, and every
      bit of every recorded neighbour status; `percolates` is set exactly when
      it was already or the status has both TOP and BOTTOM. */
  lemma OpenedStatus(s: Sites, row: int, col: int)
    requires WellFormedSites(s) && ValidPosition(s.n, row, col) && s.state[GetId(s.n, row, col)] == BLOCKED
    ensures var id := GetId(s.n, row, col);
      var (ns, f) := LookAround(s, id, row, col);
      var st := Opened(s, row, col).value.state[id];
      st == Opened(s, row, col).value.state[f.root[id]]
      && st.open && (st.top <==> row == 1 || exists k :: 0 <= k < 4 && ns[k].top)
      && (st.bottom <==> row == s.n || exists k :: 0 <= k < 4 && ns[k].bottom)
      && (Opened(s, row, col).value.percolates <==> s.percolates || (st.top && st.bottom))
  {
    var id := GetId(s.n, row, col);
    var (ns, f) := LookAround(s, id, row, col);
    var st := Combine(Flags(row, s.n), ns);
    assert st.top <==> row == 1 || ns[0].top || ns[1].top || ns[2].top || ns[3].top;
    assert st.bottom <==> row == s.n || ns[0].bottom || ns[1].bottom || ns[2].bottom || ns[3].bottom;
  }

  /** Every element that is not its own root has a root whose status is not
      0, except possibly where that root is `id`. */
  ghost predicate RootsOpenExcept(state: seq<Status>, f: Forest, id: int)
    requires |f.root| == |state| && Bounded(f)
  {
    forall j :: 0 <= j < |state| ==> f.root[j] == j || f.root[j] == id || state[f.root[j]] != BLOCKED
  }

  /** The invariant the revised `open` keeps: the counter is the number of
      non-zero status bytes, and the root of every non-trivial component has a
      non-zero status. */
  ghost predicate Consistent(s: Sites)
  {
    WellFormedSites(s) && s.openSites == CountOpen(s.state)
    && forall j :: 0 <= j < |s.state| ==> s.forest.root[j] == j || s.state[s.forest.root[j]] != BLOCKED
  }

  /** Uniting the site with an open neighbour keeps every component root open
      or equal to the site. */
  lemma MergedKeepsRootsOpen(state: seq<Status>, f: Forest, id: int, nid: int)
    requires |f.root| == |state| && Bounded(f) && 0 <= id < |state| && 0 <= nid < |state|
    requires RootsOpenExcept(state, f, id) && state[nid] != BLOCKED
    ensures RootsOpenExcept(state, Merged(f, id, nid), id)
  {
    var g := Merged(f, id, nid);
    var rp, rq := f.root[id], f.root[nid];
    assert rp == id || state[rp] != BLOCKED;
    assert rq == nid || rq == id || state[rq] != BLOCKED;
    forall j | 0 <= j < |state|
      ensures g.root[j] == j || g.root[j] == id || state[g.root[j]] != BLOCKED
    {
      assert g.root[j] == f.root[j] || g.root[j] == rp || g.root[j] == rq;
    }
  }

  lemma VisitKeepsRootsOpen(state: seq<Status>, n: int, id: int, y: int, x: int, slot: int, acc: (seq<Status>, Forest))
    requires n > 0 && |state| == |acc.1.root| == Grid.Area(n) && Bounded(acc.1) && 0 <= id < |state|
    requires |acc.0| == 4 && 0 <= slot < 4 && RootsOpenExcept(state, acc.1, id)
    ensures RootsOpenExcept(state, Visit(state, n, id, y, x, slot, acc).1, id)
  {
    if ValidPosition(n, y, x) && state[GetId(n, y, x)] != BLOCKED {
      MergedKeepsRootsOpen(state, acc.1, id, GetId(n, y, x));
    }
  }

  lemma TurnKeepsRootsOpen(state: seq<Status>, n: int, id: int, row: int, col: int, i: int, acc: (seq<Status>, Forest))
    requires n > 0 && |state| == |acc.1.root| == Grid.Area(n) && Bounded(acc.1) && 0 <= id < |state|
    requires |acc.0| == 4 && -1 <= i && RootsOpenExcept(state, acc.1, id)
    ensures RootsOpenExcept(state, Turn(state, n, id, row, col, i, acc).1, id)
  {
    if i <= 1 {
      VisitKeepsRootsOpen(state, n, id, row + i, col, i + 1, acc);
      VisitKeepsRootsOpen(state, n, id, row, col + i, i + 2, Visit(state, n, id, row + i, col, i + 1, acc));
    }
  }

  /** The look-around loop keeps every component root open or equal to the
      site being opened. */
  lemma LookAroundKeepsRootsOpen(s: Sites, id: int, row: int, col: int)
    requires Consistent(s) && 0 <= id < |s.state|
    ensures RootsOpenExcept(s.state, LookAround(s, id, row, col).1, id)
  {
    var acc := (NO_NEIGHBOURS, s.forest);
    TurnKeepsRootsOpen(s.state, s.n, id, row, col, -1, acc);
    TurnKeepsRootsOpen(s.state, s.n, id, row, col, 1, Turn(s.state, s.n, id, row, col, -1, acc));
  }

  /** A new grid is consistent. */
  lemma CreateConsistent(n: int)
    requires n > 0
    ensures Create(n).Ok? && Consistent(Create(n).value)
  {
    CountOpenNone(Create(n).value.state);
  }

  /** `open` keeps the grid consistent: in particular `numberOfOpenSites()` is
      always the number of sites `isOpen` reports. */
  lemma OpenedConsistent(s: Sites, row: int, col: int)
    requires Consistent(s)
    ensures Opened(s, row, col).Ok? ==> Consistent(Opened(s, row, col).value)
  {
    if ValidPosition(s.n, row, col) && s.state[GetId(s.n, row, col)] == BLOCKED {
      var id := GetId(s.n, row, col);
      var (ns, f) := LookAround(s, id, row, col);
      var st := Combine(Flags(row, s.n), ns);
      var r := f.root[id];
      LookAroundKeepsRootsOpen(s, id, row, col);
      var state1 := s.state[id := st];
      var state2 := state1[r := st];
      assert Opened(s, row, col).value.state == state2;
      CountOpenUpdate(s.state, id, st);
      assert r == id || s.state[r] != BLOCKED;
      CountOpenUpdate(state1, r, st);
      forall j | 0 <= j < |state2|
        ensures f.root[j] == j || state2[f.root[j]] != BLOCKED
      {
        assert f.root[j] == j || f.root[j] == id || s.state[f.root[j]] != BLOCKED;
      }
    }
  }

  /** The revised grid object: a status byte per site, the union-find
      structure, the open-site counter and the sticky `percolates` flag. */
  class Percolation {
    const n: int
    const state: array<Status>
    const connections: UF
    var numberOfOpenSites: int
    var percolates: bool

    /** The shape of the object, which the steps inside `open` keep. */
    ghost predicate Shaped()
      reads this, state, connections, connections.parent, connections.size
    {
      connections.Valid() && n > 0 && state.Length == Grid.Area(n) && |connections.root| == state.Length
      && numberOfOpenSites >= 0
    }

    /** The object invariant: shaped, and its grid value consistent. */
    ghost predicate Valid()
      reads this, state, connections, connections.parent, connections.size
    {
      Shaped() && Consistent(View())
    }

    /** The grid as a value. */
    ghost function View(): Sites
      reads this, state, connections, connections.size
    {
      Sites(n, state[..], connections.Abstract(), numberOfOpenSites, percolates)
    }

    /** A shaped grid object holds a well-formed grid value. */
    lemma ViewWellFormed()
      requires Shaped()
      ensures WellFormedSites(View())
    {
    }

    /** `new Percolation(n)` for n > 0; `New` rejects the other sizes. */
    constructor(n: int)
      requires n > 0
      ensures Valid() && fresh(state) && fresh(connections) && fresh(connections.parent) && fresh(connections.size)
      ensures Create(n) == Ok(View())
    {
      Grid.MulIsProduct(n, n);
      this.n := n;
      state := new Status[n * n](_ => BLOCKED);
      connections := new UF(n * n);
      numberOfOpenSites := 0;
      percolates := false;
      new;
      assert state[..] == seq(Grid.Area(n), _ => BLOCKED);
      CreateConsistent(n);
    }

    /** `open(row, col)`. */
    method Open(row: int, col: int) returns (o: Outcome)
      requires Valid()
      modifies this, state, connections, connections.parent, connections.size
      ensures Valid()
      ensures o.Pass? ==> Opened(old(View()), row, col) == Ok(View())
      ensures o.Fail? ==> Opened(old(View()), row, col) == Err(o.error) && View() == old(View())
    {
      if row <= 0 || row > n || col <= 0 || col > n {
        return Fail(IllegalArgument);
      }
      var siteId := (row - 1) * n + (col - 1);
      assert siteId == GetId(n, row, col);
      if state[siteId] != BLOCKED {
        return Pass;
      }
      ghost var s := View();
      OpenSite(siteId, row, col);
      OpenedConsistent(s, row, col);
      return Pass;
    }

    /** The part of `open` that runs on a blocked site: count it, join it with
        its open neighbours and store the combined status. */
    method OpenSite(siteId: int, row: int, col: int)
      requires Shaped() && ValidPosition(n, row, col) && siteId == GetId(n, row, col) && state[siteId] == BLOCKED
      modifies this, state, connections, connections.parent, connections.size
      ensures Shaped()
      ensures WellFormedSites(old(View())) && Opened(old(View()), row, col) == Ok(View())
    {
      ViewWellFormed();
      ghost var s := View();
      var status := CombinedStatus(siteId, row, col);
      ghost var f := connections.Abstract();
      Store(siteId, status);
      assert View() == Sites(n, s.state[siteId := status][f.root[siteId] := status], f, s.openSites + 1,
                             s.percolates || Percolated(status));
      OpenedBlocked(s, row, col, status, f);
    }

    /** The status `open` computes for the site: its own flags from its row,
        combined with what the look-around loop records of its neighbours. */
    method CombinedStatus(siteId: int, row: int, col: int) returns (status: Status)
      requires Shaped() && ValidPosition(n, row, col) && siteId == GetId(n, row, col)
      modifies connections, connections.parent, connections.size
      ensures Shaped() && WellFormedSites(old(View()))
      ensures var (ns, f) := LookAround(old(View()), siteId, row, col);
        status == Combine(Flags(row, n), ns) && connections.Abstract() == f
    {
      ViewWellFormed();
      status := Status(true, false, false);
      if row == 1 {
        status := Or(status, Status(false, true, false));
      }
      if row == n {
        status := Or(status, Status(false, false, true));
      }
      assert status == Flags(row, n);
      status := Gather(siteId, row, col, status);
    }

    /** The look-around loop over a fresh four-slot array, then the site's
        status combined with the recorded neighbour statuses. */
    method Gather(siteId: int, row: int, col: int, status0: Status) returns (status: Status)
      requires Shaped() && ValidPosition(n, row, col) && siteId == GetId(n, row, col)
      modifies connections, connections.parent, connections.size
      ensures Shaped() && |connections.root| == old(|connections.root|)
      ensures var (ns, f) := Scan(state[..], n, siteId, row, col, -1, (NO_NEIGHBOURS, old(connections.Abstract())));
        status == Combine(status0, ns) && connections.Abstract() == f
    {
      var neighborStates := new Status[4](_ => BLOCKED);
      assert neighborStates[..] == NO_NEIGHBOURS;
      LookAroundLoop(siteId, row, col, neighborStates);
      status := Combine(status0, neighborStates[..]);
    }

    /** The end of `open`: the combined status goes to the site and then to
        its root; the site is counted and `percolates` is updated. */
    method Store(siteId: int, newState: Status)
      requires Shaped() && 0 <= siteId < state.Length
      modifies this, state
      ensures Shaped() && connections.Abstract() == old(connections.Abstract())
      ensures state[..] == old(state[..])[siteId := newState][connections.root[siteId] := newState]
      ensures numberOfOpenSites == old(numberOfOpenSites) + 1
      ensures percolates == (old(percolates) || Percolated(newState))
    {
      numberOfOpenSites := numberOfOpenSites + 1;
      state[siteId] := newState;
      var root := connections.Find(siteId);
      state[root] := newState;
      if !percolates {
        percolates := Percolated(newState);
      }
    }

    /** The look-around loop of `open`: for i = -1 and i = 1, the vertical
        neighbour and then the horizontal one. */
    method LookAroundLoop(siteId: int, row: int, col: int, neighborStates: array<Status>)
      requires Shaped() && ValidPosition(n, row, col) && siteId == GetId(n, row, col)
      requires neighborStates.Length == 4 && neighborStates != state
      modifies connections, connections.parent, connections.size, neighborStates
      ensures Shaped() && |connections.root| == old(|connections.root|)
      ensures (neighborStates[..], connections.Abstract())
           == Scan(state[..], n, siteId, row, col, -1, (old(neighborStates[..]), old(connections.Abstract())))
    {
      var i := -1;
      while i <= 1
        invariant -1 <= i <= 3 && i % 2 == 1
        invariant Shaped() && |connections.root| == old(|connections.root|)
        invariant Scan(state[..], n, siteId, row, col, i, (neighborStates[..], connections.Abstract()))
               == Scan(state[..], n, siteId, row, col, -1, (old(neighborStates[..]), old(connections.Abstract())))
      {
        ScanStep(state[..], n, siteId, row, col, i, (neighborStates[..], connections.Abstract()));
        LookAroundTurn(siteId, row, col, i, neighborStates);
        i := i + 2;
      }
    }

    /** One turn of the look-around loop: the vertical neighbour (row + i,
        col), then the horizontal one (row, col + i). */
    method LookAroundTurn(siteId: int, row: int, col: int, i: int, neighborStates: array<Status>)
      requires Shaped() && 0 <= siteId < state.Length && -1 <= i <= 1
      requires neighborStates.Length == 4 && neighborStates != state
      modifies connections, connections.parent, connections.size, neighborStates
      ensures Shaped() && |connections.root| == old(|connections.root|)
      ensures (neighborStates[..], connections.Abstract())
           == Turn(state[..], n, siteId, row, col, i, (old(neighborStates[..]), old(connections.Abstract())))
    {
      var y := row + i;
      Neighbour(siteId, y, col, i + 1, neighborStates);
      var x := col + i;
      Neighbour(siteId, row, x, i + 2, neighborStates);
    }

    /** One neighbour of the look-around loop, at (y, x), recorded in `slot`. */
    method Neighbour(siteId: int, y: int, x: int, slot: int, neighborStates: array<Status>)
      requires Shaped() && 0 <= siteId < state.Length
      requires neighborStates.Length == 4 && neighborStates != state && 0 <= slot < 4
      modifies connections, connections.parent, connections.size, neighborStates
      ensures Shaped() && |connections.root| == old(|connections.root|)
      ensures (neighborStates[..], connections.Abstract())
           == Visit(state[..], n, siteId, y, x, slot, (old(neighborStates[..]), old(connections.Abstract())))
    {
      if y >= 1 && y <= n && x >= 1 && x <= n {
        var neighborId := (y - 1) * n + (x - 1);
        assert neighborId == GetId(n, y, x);
        if state[neighborId] != BLOCKED {
          var r := connections.Find(neighborId);
          neighborStates[slot] := state[r];
          connections.Union(siteId, neighborId);
        }
      }
    }

    /** `isOpen(row, col)`. */
    method IsOpen(row: int, col: int) returns (r: Result<bool>)
      requires Valid()
      ensures r == PercolationSites.IsOpen(View(), row, col)
    {
      if row <= 0 || row > n || col <= 0 || col > n {
        return Err(IllegalArgument);
      }
      var siteId := (row - 1) * n + (col - 1);
      assert siteId == GetId(n, row, col);
      return Ok(state[siteId] != BLOCKED);
    }

    /** `isFull(row, col)`. */
    method IsFull(row: int, col: int) returns (r: Result<bool>)
      requires Valid()
      ensures r == PercolationSites.IsFull(View(), row, col)
    {
      if row <= 0 || row > n || col <= 0 || col > n {
        return Err(IllegalArgument);
      }
      var siteId := (row - 1) * n + (col - 1);
      assert siteId == GetId(n, row, col);
      var root := connections.Find(siteId);
      return Ok(state[root].top);
    }

    /** `numberOfOpenSites()`: always the number of open sites. */
    method NumberOfOpenSites() returns (c: int)
      requires Valid()
      ensures c == View().openSites == CountOpen(View().state)
    {
      return numberOfOpenSites;
    }

    /** `percolates()`. */
    method Percolates() returns (p: bool)
      requires Valid()
      ensures p == View().percolates
    {
      return percolates;
    }
  }

  /** `new Percolation(n)`, with the exception for n <= 0 as an error value. */
  method New(n: int) returns (r: Result<Percolation>)
    ensures r.Err? <==> Create(n).Err?
    ensures r.Err? ==> r == Err(Create(n).error)
    ensures r.Ok? ==> fresh(r.value) && r.value.Valid() && Create(n) == Ok(r.value.View())
  {
    if n <= 0 {
      return Err(IllegalArgument);
    }
    var p := new Percolation(n);
    return Ok(p);
  }
}
