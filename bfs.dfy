/** The breadth-first search inside assignments/p2-1-wordnet/src/SAP.java
    (the nested class `BFS`): from one or several sources it fills `marked`,
    `edgeTo` and `distTo`. A digraph is its adjacency lists, each in the order
    `adj(v)` yields them; the library `Queue` is a sequence. */
module BreadthFirst {
  import opened Wrappers

  /** `Integer.MAX_VALUE`, the distance of a vertex not reached. */
  const INFINITY := 2147483647

  /** Every endpoint is a vertex, and the vertex count is a Java int. */
  predicate Graph(G: seq<seq<int>>)
  {
    |G| <= INFINITY && forall u, k :: 0 <= u < |G| && 0 <= k < |G[u]| ==> 0 <= G[u][k] < |G|
  }

  /** The number of marked vertices. */
  function CountMarked(m: seq<bool>): (c: nat)
    ensures c <= |m|
  {
    if m == [] then 0 else CountMarked(m[..|m| - 1]) + (if m[|m| - 1] then 1 else 0)
  }

  lemma {:induction false} CountMarkedUpdate(m: seq<bool>, w: int)
    requires 0 <= w < |m| && !m[w]
    ensures CountMarked(m[w := true]) == CountMarked(m) + 1
    decreases |m|
  {
    var last := |m| - 1;
    if w == last {
      assert m[w := true][..last] == m[..last];
    } else {
      assert m[w := true][..last] == m[..last][w := true];
      CountMarkedUpdate(m[..last], w);
    }
  }

  lemma {:induction false} CountMarkedNone(m: seq<bool>)
    requires forall x :: 0 <= x < |m| ==> !m[x]
    ensures CountMarked(m) == 0
    decreases |m|
  {
    if m != [] {
      CountMarkedNone(m[..|m| - 1]);
    }
  }

  /** What the search knows about vertex x: `edgeTo` is a vertex (0 where never
      written); an unmarked vertex is at INFINITY; a marked one is at a
      distance below the number of marked vertices, at distance 0 only if it
      is a source, and otherwise one edge further than its marked `edgeTo`. */
  ghost predicate Settled(G: seq<seq<int>>, S: seq<int>, m: seq<bool>, e: seq<int>, d: seq<int>, x: int)
    requires |m| == |e| == |d| == |G| && 0 <= x < |G|
  {
    0 <= e[x] < |G|
    && (!m[x] ==> d[x] == INFINITY && e[x] == 0)
    && (m[x] ==> 0 <= d[x] < CountMarked(m))
    && (m[x] && d[x] == 0 ==> x in S)
    && (m[x] && d[x] > 0 ==> m[e[x]] && x in G[e[x]] && d[x] == d[e[x]] + 1)
  }

  /** The breadth-first tree: every source is marked at distance 0 and every
      vertex is settled. */
  ghost predicate Tree(G: seq<seq<int>>, S: seq<int>, m: seq<bool>, e: seq<int>, d: seq<int>)
  {
    |m| == |e| == |d| == |G|
    && (forall y :: 0 <= y < |G| ==> 0 <= e[y] < |G|)
    && (forall s :: s in S ==> 0 <= s < |G| && m[s] && d[s] == 0)
    && forall x :: 0 <= x < |G| ==> Settled(G, S, m, e, d, x)
  }

  /** Every marked vertex is a source: true until the first dequeue. */
  ghost predicate OnlySources(m: seq<bool>, S: seq<int>)
  {
    forall x :: 0 <= x < |m| && m[x] ==> x in S
  }

  /** The invariant of the first loop of `bfs`, over the sources seen so far. */
  ghost predicate Seeded(G: seq<seq<int>>, S: seq<int>, m: seq<bool>, e: seq<int>, d: seq<int>)
  {
    Graph(G) && Tree(G, S, m, e, d) && OnlySources(m, S)
  }

  /** Every successor of x is marked, at most one edge further than x. */
  ghost predicate Expanded(G: seq<seq<int>>, m: seq<bool>, d: seq<int>, x: int)
    requires Graph(G) && |m| == |d| == |G| && 0 <= x < |G|
  {
    forall k :: 0 <= k < |G[x]| ==> m[G[x][k]] && d[G[x][k]] <= d[x] + 1
  }

  /** The loop invariant of `bfs` between two dequeues: the queue holds marked
      vertices in order of distance, spanning at most one level, no marked
      vertex is more than one level past the head, and every marked vertex
      not in the queue has been expanded. */
  ghost predicate Outer(G: seq<seq<int>>, S: seq<int>, m: seq<bool>, e: seq<int>, d: seq<int>, q: seq<int>)
  {
    Graph(G) && Tree(G, S, m, e, d)
    && (forall k :: 0 <= k < |q| ==> 0 <= q[k] < |G| && m[q[k]])
    && (forall k, l :: 0 <= k <= l < |q| ==> d[q[k]] <= d[q[l]])
    && (|q| > 0 ==> d[q[|q| - 1]] <= d[q[0]] + 1 && forall x :: 0 <= x < |G| && m[x] ==> d[x] <= d[q[0]] + 1)
    && (forall x :: 0 <= x < |G| && m[x] && x !in q ==> Expanded(G, m, d, x))
  }

  /** The invariant of the inner loop over the successors of u: the first k
      successors are done, and the queue lies within one level of u. */
  ghost predicate Inner(G: seq<seq<int>>, S: seq<int>, m: seq<bool>, e: seq<int>, d: seq<int>, q: seq<int>, u: int, k: int)
  {
    Graph(G) && Tree(G, S, m, e, d) && 0 <= u < |G| && m[u] && 0 <= k <= |G[u]|
    && (forall j :: 0 <= j < |q| ==> 0 <= q[j] < |G| && m[q[j]] && d[u] <= d[q[j]] <= d[u] + 1)
    && (forall j, l :: 0 <= j <= l < |q| ==> d[q[j]] <= d[q[l]])
    && (forall x :: 0 <= x < |G| && m[x] ==> d[x] <= d[u] + 1)
    && (forall x :: 0 <= x < |G| && m[x] && x !in q && x != u ==> Expanded(G, m, d, x))
    && (forall j :: 0 <= j < k ==> m[G[u][j]] && d[G[u][j]] <= d[u] + 1)
  }

  /** The state `new BFS` starts `bfs` from: nothing marked, every distance
      INFINITY, every `edgeTo` 0. */
  lemma SeedStart(G: seq<seq<int>>)
    requires Graph(G)
    ensures Seeded(G, [], seq(|G|, _ => false), seq(|G|, _ => 0), seq(|G|, _ => INFINITY))
  {
    CountMarkedNone(seq(|G|, _ => false));
  }

  /** Marking one more source at distance 0. */
  lemma SeedStep(G: seq<seq<int>>, S: seq<int>, m: seq<bool>, e: seq<int>, d: seq<int>, s: int)
    requires Seeded(G, S, m, e, d) && 0 <= s < |G|
    ensures Seeded(G, S + [s], m[s := true], e, d[s := 0])
  {
    var m', d', S' := m[s := true], d[s := 0], S + [s];
    if !m[s] {
      CountMarkedUpdate(m, s);
    } else {
      assert Settled(G, S, m, e, d, s);
      assert m' == m;
    }
    forall x | 0 <= x < |G|
      ensures Settled(G, S', m', e, d', x)
    {
      assert Settled(G, S, m, e, d, x);
    }
    assert forall t :: t in S' ==> t in S || t == s;
    assert OnlySources(m', S');
  }

  /** Once every source is marked, the queue holding them all, in order,
      satisfies the invariant of the main loop. */
  lemma SeedEnd(G: seq<seq<int>>, S: seq<int>, m: seq<bool>, e: seq<int>, d: seq<int>)
    requires Seeded(G, S, m, e, d)
    ensures Outer(G, S, m, e, d, S)
  {
    forall k | 0 <= k < |S|
      ensures 0 <= S[k] < |G| && m[S[k]] && d[S[k]] == 0
    {
      assert S[k] in S;
    }
    forall x | 0 <= x < |G| && m[x]
      ensures d[x] == 0 && x in S
    {
      assert Settled(G, S, m, e, d, x);
    }
  }

  /** Dequeueing the head u starts the inner loop. */
  lemma InnerStart(G: seq<seq<int>>, S: seq<int>, m: seq<bool>, e: seq<int>, d: seq<int>, q: seq<int>)
    requires Outer(G, S, m, e, d, q) && |q| > 0
    ensures Inner(G, S, m, e, d, q[1..], q[0], 0)
  {
    forall x | 0 <= x < |G| && m[x] && x !in q[1..] && x != q[0]
      ensures Expanded(G, m, d, x)
    {
      assert x !in q;
    }
  }

  /** An already marked successor needs nothing. */
  lemma InnerSkip(G: seq<seq<int>>, S: seq<int>, m: seq<bool>, e: seq<int>, d: seq<int>, q: seq<int>, u: int, k: int)
    requires Inner(G, S, m, e, d, q, u, k) && k < |G[u]| && m[G[u][k]]
    ensures Inner(G, S, m, e, d, q, u, k + 1)
  {
  }

  /** An expanded vertex stays expanded when an unmarked vertex is marked. */
  lemma ExpandedKept(G: seq<seq<int>>, m: seq<bool>, d: seq<int>, x: int, w: int, dw: int)
    requires Graph(G) && |m| == |d| == |G| && 0 <= x < |G| && 0 <= w < |G| && !m[w] && x != w
    requires Expanded(G, m, d, x)
    ensures Expanded(G, m[w := true], d[w := dw], x)
  {
    forall k | 0 <= k < |G[x]|
      ensures m[w := true][G[x][k]] && d[w := dw][G[x][k]] <= d[w := dw][x] + 1
    {
      assert m[G[x][k]];
    }
  }

  /** Marking the unmarked successor w of u: `edgeTo[w] = u`,
      `distTo[w] = distTo[u] + 1`, and w joins the queue. */
  lemma InnerMark(G: seq<seq<int>>, S: seq<int>, m: seq<bool>, e: seq<int>, d: seq<int>, q: seq<int>, u: int, k: int)
    requires Inner(G, S, m, e, d, q, u, k) && k < |G[u]| && !m[G[u][k]]
    ensures var w := G[u][k];
      Inner(G, S, m[w := true], e[w := u], d[w := d[u] + 1], q + [w], u, k + 1)
  {
    var w := G[u][k];
    var m', e', d', q' := m[w := true], e[w := u], d[w := d[u] + 1], q + [w];
    assert w in G[u];
    MarkTree(G, S, m, e, d, u, w);
    forall x | 0 <= x < |G| && m'[x] && x !in q' && x != u
      ensures Expanded(G, m', d', x)
    {
      ExpandedKept(G, m, d, x, w, d[u] + 1);
    }
    assert w in G[u];
  }

  /** Reaching the unmarked successor w of the marked vertex u keeps the
      tree. */
  lemma MarkTree(G: seq<seq<int>>, S: seq<int>, m: seq<bool>, e: seq<int>, d: seq<int>, u: int, w: int)
    requires Graph(G) && Tree(G, S, m, e, d) && 0 <= u < |G| && m[u] && 0 <= w < |G| && !m[w] && w in G[u]
    ensures Tree(G, S, m[w := true], e[w := u], d[w := d[u] + 1])
  {
    var m', e', d' := m[w := true], e[w := u], d[w := d[u] + 1];
    CountMarkedUpdate(m, w);
    assert Settled(G, S, m, e, d, u);
    forall x | 0 <= x < |G|
      ensures Settled(G, S, m', e', d', x)
    {
      assert Settled(G, S, m, e, d, x);
      if x != w && m[x] && d[x] > 0 {
        assert Settled(G, S, m, e, d, e[x]);
      }
    }
  }

  /** After the last successor, u is expanded and the outer invariant holds
      again. */
  lemma InnerEnd(G: seq<seq<int>>, S: seq<int>, m: seq<bool>, e: seq<int>, d: seq<int>, q: seq<int>, u: int)
    requires 0 <= u < |G| && Inner(G, S, m, e, d, q, u, |G[u]|)
    ensures Outer(G, S, m, e, d, q)
  {
    assert Expanded(G, m, d, u);
  }

  /** The result of a finished search: the invariant with an empty queue. */
  ghost predicate Searched(G: seq<seq<int>>, S: seq<int>, m: seq<bool>, e: seq<int>, d: seq<int>)
  {
    Outer(G, S, m, e, d, [])
  }

  /** p is a directed path of G that starts at a source. */
  ghost predicate Walk(G: seq<seq<int>>, S: seq<int>, p: seq<int>)
  {
    |p| > 0 && p[0] in S && (forall i :: 0 <= i < |p| ==> 0 <= p[i] < |G|)
    && forall i :: 0 <= i < |p| - 1 ==> p[i + 1] in G[p[i]]
  }

  /** Every vertex at the end of a walk from a source is marked, at a distance
      no larger than the walk's length. */
  lemma {:induction false} WalkReachesMarked(G: seq<seq<int>>, S: seq<int>, m: seq<bool>, e: seq<int>, d: seq<int>, p: seq<int>)
    requires Searched(G, S, m, e, d) && Walk(G, S, p)
    ensures m[p[|p| - 1]] && d[p[|p| - 1]] <= |p| - 1
    decreases |p|
  {
    if |p| > 1 {
      var p' := p[..|p| - 1];
      assert Walk(G, S, p');
      WalkReachesMarked(G, S, m, e, d, p');
      var y, x := p[|p| - 2], p[|p| - 1];
      assert x in G[y];
      var k :| 0 <= k < |G[y]| && G[y][k] == x;
      assert Expanded(G, m, d, y);
    }
  }

  /** The walk back along `edgeTo` from a marked vertex to a source, in the
      order a `Stack` built by pushing from x yields it. */
  ghost function TreePath(G: seq<seq<int>>, S: seq<int>, m: seq<bool>, e: seq<int>, d: seq<int>, x: int): (p: seq<int>)
    requires Tree(G, S, m, e, d) && 0 <= x < |G| && m[x]
    ensures Walk(G, S, p) && p[|p| - 1] == x && |p| == d[x] + 1
    decreases d[x]
  {
    assert Settled(G, S, m, e, d, x);
    if d[x] == 0 then [x]
    else
      TreePath(G, S, m, e, d, e[x]) + [x]
  }

  /** What a finished search means: a vertex is marked exactly when some
      walk from a source reaches it, INFINITY marks exactly the others, and
      `distTo` is the length of a shortest such walk. */
  lemma SearchedDistances(G: seq<seq<int>>, S: seq<int>, m: seq<bool>, e: seq<int>, d: seq<int>, x: int)
    requires Searched(G, S, m, e, d) && 0 <= x < |G|
    ensures d[x] == INFINITY <==> !m[x]
    ensures m[x] <==> exists p :: Walk(G, S, p) && p[|p| - 1] == x
    ensures m[x] ==> Walk(G, S, TreePath(G, S, m, e, d, x)) && |TreePath(G, S, m, e, d, x)| == d[x] + 1
    ensures forall p :: Walk(G, S, p) && p[|p| - 1] == x ==> d[x] <= |p| - 1
  {
    assert Settled(G, S, m, e, d, x);
    if m[x] {
      var p := TreePath(G, S, m, e, d, x);
      assert Walk(G, S, p) && p[|p| - 1] == x;
    }
    forall p | Walk(G, S, p) && p[|p| - 1] == x
      ensures m[x] && d[x] <= |p| - 1
    {
      WalkReachesMarked(G, S, m, e, d, p);
    }
  }

  /** In a finished search the distances are finite exactly on the marked
      vertices, and never negative there. */
  lemma SearchedFinite(G: seq<seq<int>>, S: seq<int>, m: seq<bool>, e: seq<int>, d: seq<int>)
    requires Searched(G, S, m, e, d)
    ensures forall x :: 0 <= x < |G| ==> (m[x] <==> d[x] != INFINITY) && (m[x] ==> d[x] >= 0)
  {
    forall x | 0 <= x < |G|
      ensures (m[x] <==> d[x] != INFINITY) && (m[x] ==> d[x] >= 0)
    {
      assert Settled(G, S, m, e, d, x);
    }
  }

  /** Two finished searches from the same sources agree on `marked` and
      `distTo`: the contracts determine them. */
  lemma SearchedUnique(G: seq<seq<int>>, S: seq<int>, m1: seq<bool>, e1: seq<int>, d1: seq<int>, m2: seq<bool>, e2: seq<int>, d2: seq<int>)
    requires Searched(G, S, m1, e1, d1) && Searched(G, S, m2, e2, d2)
    ensures m1 == m2 && d1 == d2
  {
    forall x | 0 <= x < |G|
      ensures m1[x] == m2[x] && d1[x] == d2[x]
    {
      SearchedDistances(G, S, m1, e1, d1, x);
      SearchedDistances(G, S, m2, e2, d2, x);
      if m1[x] {
        WalkReachesMarked(G, S, m2, e2, d2, TreePath(G, S, m1, e1, d1, x));
      }
      if m2[x] {
        WalkReachesMarked(G, S, m1, e1, d1, TreePath(G, S, m2, e2, d2, x));
      }
    }
  }

  /** `pathTo(v)` as written: push x and step to `edgeTo[x]` until a vertex
      at distance 0; the stack yields the pushed vertices in reverse. The
      loop has no bound of its own, so `fuel` counts its steps. */
  function WalkBack(e: seq<int>, d: seq<int>, x: int, fuel: nat): (r: Result<seq<int>>)
    requires |e| == |d| && 0 <= x < |d| && forall y :: 0 <= y < |e| ==> 0 <= e[y] < |d|
    ensures r.Ok? ==> |r.value| > 0 && r.value[|r.value| - 1] == x
    ensures r.Ok? ==> (forall i :: 0 <= i < |r.value| ==> 0 <= r.value[i] < |d|) && d[r.value[0]] == 0
    decreases fuel
  {
    if fuel == 0 then Err(OutOfFuel)
    else if d[x] == 0 then Ok([x])
    else match WalkBack(e, d, e[x], fuel - 1)
      case Ok(p) => Ok(p + [x])
      case Err(err) => Err(err)
  }

  /** On a finished search the walk back from a marked vertex is the tree
      path, given one step more than its distance. */
  lemma {:induction false} WalkBackMarked(G: seq<seq<int>>, S: seq<int>, m: seq<bool>, e: seq<int>, d: seq<int>, x: int, fuel: nat)
    requires Searched(G, S, m, e, d) && 0 <= x < |G| && m[x] && fuel > d[x]
    ensures WalkBack(e, d, x, fuel) == Ok(TreePath(G, S, m, e, d, x))
    decreases fuel
  {
    assert Settled(G, S, m, e, d, x);
    if d[x] != 0 {
      WalkBackMarked(G, S, m, e, d, e[x], fuel - 1);
    }
  }

  /** As written, `pathTo` of an unmarked vertex never ends when vertex 0 is
      unmarked too: `edgeTo` of both is 0 and neither is at distance 0. */
  lemma {:induction false} PathToUnreachedLoops(G: seq<seq<int>>, S: seq<int>, m: seq<bool>, e: seq<int>, d: seq<int>, x: int, fuel: nat)
    requires Searched(G, S, m, e, d) && 0 <= x < |G| && !m[x] && !m[0]
    ensures WalkBack(e, d, x, fuel) == Err(OutOfFuel)
    decreases fuel
  {
    assert Settled(G, S, m, e, d, x) && Settled(G, S, m, e, d, 0);
    if fuel > 0 {
      PathToUnreachedLoops(G, S, m, e, d, 0, fuel - 1);
    }
  }

  /** As written, `pathTo` of an unmarked vertex x, on a search from vertex
      0, returns the two-vertex "path" 0, x, whether or not there is an edge. */
  lemma PathToUnreachedInvents(G: seq<seq<int>>, S: seq<int>, m: seq<bool>, e: seq<int>, d: seq<int>, x: int)
    requires Searched(G, S, m, e, d) && 0 <= x < |G| && !m[x] && 0 in S
    ensures WalkBack(e, d, x, 2) == Ok([0, x]) && !exists p :: Walk(G, S, p) && p[|p| - 1] == x
  {
    assert Settled(G, S, m, e, d, x) && Settled(G, S, m, e, d, 0);
    assert e[x] == 0 && d[x] != 0 && d[0] == 0;
    assert WalkBack(e, d, 0, 1) == Ok([0]);
    assert [0] + [x] == [0, x];
    SearchedDistances(G, S, m, e, d, x);
  }

  /** The search object: the three arrays of `BFS`, and, as ghost constants,
      the graph and the sources it searched from. */
  class Bfs {
    const marked: array<bool>
    const edgeTo: array<int>
    const distTo: array<int>
    ghost const graph: seq<seq<int>>
    ghost const sources: seq<int>

    ghost predicate Valid()
      reads marked, edgeTo, distTo
    {
      Searched(graph, sources, marked[..], edgeTo[..], distTo[..])
    }

    /** `new BFS(G, sources)` once the sources are valid: allocate, set every
        distance to INFINITY, then search. */
    constructor(G: seq<seq<int>>, S: seq<int>)
      requires Graph(G) && forall s :: s in S ==> 0 <= s < |G|
      ensures Valid() && graph == G && sources == S
      ensures fresh(marked) && fresh(edgeTo) && fresh(distTo)
    {
      graph, sources := G, S;
      marked := new bool[|G|](_ => false);
      distTo := new int[|G|](_ => 0);
      edgeTo := new int[|G|](_ => 0);
      new;
      assert marked[..] == seq(|G|, _ => false) && edgeTo[..] == seq(|G|, _ => 0);
      var v := 0;
      while v < |G|
        invariant 0 <= v <= |G| && forall x :: 0 <= x < v ==> distTo[x] == INFINITY
        invariant marked[..] == seq(|G|, _ => false) && edgeTo[..] == seq(|G|, _ => 0)
      {
        distTo[v] := INFINITY;
        v := v + 1;
      }
      assert distTo[..] == seq(|G|, _ => INFINITY);
      SeedStart(G);
      var q := Seed(G, S);
      Explore(G, S, q);
    }

    /** The first loop of `bfs(G, sources)`: each source is marked at
        distance 0 and enqueued. */
    method Seed(G: seq<seq<int>>, S: seq<int>) returns (q: seq<int>)
      requires marked.Length == edgeTo.Length == distTo.Length == |G| && edgeTo != distTo
      requires Seeded(G, [], marked[..], edgeTo[..], distTo[..])
      requires forall s :: s in S ==> 0 <= s < |G|
      modifies marked, distTo
      ensures Outer(G, S, marked[..], edgeTo[..], distTo[..], q) && q == S
    {
      q := [];
      var i := 0;
      while i < |S|
        invariant 0 <= i <= |S| && q == S[..i]
        invariant Seeded(G, q, marked[..], edgeTo[..], distTo[..])
      {
        var s := S[i];
        assert s in S;
        SeedStep(G, q, marked[..], edgeTo[..], distTo[..], s);
        marked[s] := true;
        distTo[s] := 0;
        q := q + [s];
        assert S[..i + 1] == S[..i] + [s];
        i := i + 1;
      }
      assert S[..|S|] == S;
      SeedEnd(G, S, marked[..], edgeTo[..], distTo[..]);
    }

    /** The main loop of `bfs`: dequeue a vertex and expand it until the
        queue is empty. */
    method Explore(G: seq<seq<int>>, S: seq<int>, q0: seq<int>)
      requires marked.Length == edgeTo.Length == distTo.Length == |G| && edgeTo != distTo
      requires Outer(G, S, marked[..], edgeTo[..], distTo[..], q0)
      modifies marked, edgeTo, distTo
      ensures Searched(G, S, marked[..], edgeTo[..], distTo[..])
    {
      var q := q0;
      while q != []
        invariant Outer(G, S, marked[..], edgeTo[..], distTo[..], q)
        decreases |G| - CountMarked(marked[..]), |q|
      {
        var v := q[0];
        InnerStart(G, S, marked[..], edgeTo[..], distTo[..], q);
        q := Expand(G, S, v, q[1..]);
      }
    }

    /** The inner loop of `bfs` over `adj(v)`: each unmarked successor w gets
        `edgeTo[w] = v`, `distTo[w] = distTo[v] + 1`, is marked and is
        enqueued. */
    method Expand(G: seq<seq<int>>, S: seq<int>, v: int, q0: seq<int>) returns (q: seq<int>)
      requires marked.Length == edgeTo.Length == distTo.Length == |G| && edgeTo != distTo
      requires Inner(G, S, marked[..], edgeTo[..], distTo[..], q0, v, 0)
      modifies marked, edgeTo, distTo
      ensures Outer(G, S, marked[..], edgeTo[..], distTo[..], q)
      ensures CountMarked(marked[..]) > old(CountMarked(marked[..])) || (CountMarked(marked[..]) == old(CountMarked(marked[..])) && q == q0)
    {
      ghost var c0 := CountMarked(marked[..]);
      q := q0;
      var k := 0;
      while k < |G[v]|
        invariant marked.Length == |G| && 0 <= v < |G|
        invariant Inner(G, S, marked[..], edgeTo[..], distTo[..], q, v, k)
        invariant CountMarked(marked[..]) > c0 || (CountMarked(marked[..]) == c0 && q == q0)
      {
        q := Relax(G, S, v, q, k);
        k := k + 1;
      }
      InnerEnd(G, S, marked[..], edgeTo[..], distTo[..], q, v);
    }

    /** One turn of the inner loop: the successor w at position k of
        `adj(v)` is reached through v unless already marked. */
    method Relax(G: seq<seq<int>>, S: seq<int>, v: int, q0: seq<int>, k: int) returns (q: seq<int>)
      requires marked.Length == edgeTo.Length == distTo.Length == |G| && edgeTo != distTo
      requires Inner(G, S, marked[..], edgeTo[..], distTo[..], q0, v, k) && k < |G[v]|
      modifies marked, edgeTo, distTo
      ensures Inner(G, S, marked[..], edgeTo[..], distTo[..], q, v, k + 1)
      ensures CountMarked(marked[..]) == old(CountMarked(marked[..])) + 1 || (marked[..] == old(marked[..]) && q == q0)
    {
      var w := G[v][k];
      ghost var m, e, d := marked[..], edgeTo[..], distTo[..];
      if !marked[w] {
        InnerMark(G, S, m, e, d, q0, v, k);
        CountMarkedUpdate(m, w);
        Visit(w, v);
        assert marked[..] == m[w := true] && edgeTo[..] == e[w := v] && distTo[..] == d[w := d[v] + 1];
        q := q0 + [w];
      } else {
        InnerSkip(G, S, m, e, d, q0, v, k);
        q := q0;
      }
    }

    /** The three writes for a newly reached vertex w. */
    method Visit(w: int, v: int)
      requires marked.Length == edgeTo.Length == distTo.Length && edgeTo != distTo && 0 <= w < marked.Length && 0 <= v < marked.Length
      modifies marked, edgeTo, distTo
      ensures marked[..] == old(marked[..])[w := true] && edgeTo[..] == old(edgeTo[..])[w := v]
      ensures distTo[..] == old(distTo[..])[w := old(distTo[v]) + 1]
    {
      edgeTo[w] := v;
      distTo[w] := distTo[v] + 1;
      marked[w] := true;
    }

    /** `pathTo(v)` with the missing check added: an unreached vertex has no
        path (None); for a reached one the walk back along `edgeTo` ends at a
        source after `distTo[v]` steps and is a shortest walk to v. */
    method PathTo(v: int) returns (r: Result<Option<seq<int>>>)
      requires Valid()
      ensures r.Err? <==> !(0 <= v < marked.Length)
      ensures r.Err? ==> r.error == IllegalArgument
      ensures r.Ok? ==> (r.value.None? <==> !marked[v])
      ensures r.Ok? && r.value.Some? ==> r.value.value == TreePath(graph, sources, marked[..], edgeTo[..], distTo[..], v)
    {
      if v < 0 || v >= marked.Length {
        return Err(IllegalArgument);
      }
      if !marked[v] {
        return Ok(None);
      }
      var path := WalkTree(v);
      return Ok(Some(path));
    }

    /** The loop of `pathTo` on a reached vertex: it steps back along
        `edgeTo` and stops at a source. */
    method WalkTree(v: int) returns (path: seq<int>)
      requires Tree(graph, sources, marked[..], edgeTo[..], distTo[..]) && 0 <= v < marked.Length && marked[v]
      ensures path == TreePath(graph, sources, marked[..], edgeTo[..], distTo[..], v)
    {
      ghost var m, e, d := marked[..], edgeTo[..], distTo[..];
      path := [];
      var x := v;
      assert Settled(graph, sources, m, e, d, x);
      while distTo[x] != 0
        invariant 0 <= x < |graph| && m[x] && Settled(graph, sources, m, e, d, x)
        invariant TreePath(graph, sources, m, e, d, x) + path == TreePath(graph, sources, m, e, d, v)
        decreases distTo[x]
      {
        path := [x] + path;
        x := edgeTo[x];
        assert Settled(graph, sources, m, e, d, x);
      }
      path := [x] + path;
    }

    /** `ancestors()`: push every marked vertex in increasing order onto a
        stack, which yields them in decreasing order. */
    method Ancestors() returns (stack: seq<int>)
      ensures stack == MarkedBelow(marked[..], marked.Length)
    {
      stack := [];
      var i := 0;
      while i < marked.Length
        invariant 0 <= i <= marked.Length && stack == MarkedBelow(marked[..], i)
      {
        if marked[i] {
          stack := [i] + stack;
        }
        i := i + 1;
      }
    }
  }

  /** The marked vertices below i, largest first. */
  function MarkedBelow(m: seq<bool>, i: int): (r: seq<int>)
    requires 0 <= i <= |m|
    ensures forall k :: 0 <= k < |r| ==> 0 <= r[k] < i && m[r[k]]
  {
    if i == 0 then []
    else if m[i - 1] then [i - 1] + MarkedBelow(m, i - 1)
    else MarkedBelow(m, i - 1)
  }

  /** Each element is larger than every later one. */
  predicate Decreasing(r: seq<int>)
  {
    forall k, l :: 0 <= k < l < |r| ==> r[k] > r[l]
  }

  /** The stack holds every marked vertex below i, each once, largest
      first. */
  lemma {:induction false} MarkedBelowDecreasing(m: seq<bool>, i: int)
    requires 0 <= i <= |m|
    ensures forall x :: 0 <= x < i && m[x] ==> x in MarkedBelow(m, i)
    ensures Decreasing(MarkedBelow(m, i))
    decreases i
  {
    if i > 0 {
      MarkedBelowDecreasing(m, i - 1);
      var r' := MarkedBelow(m, i - 1);
      if m[i - 1] {
        var r := [i - 1] + r';
        assert MarkedBelow(m, i) == r;
        forall k, l | 0 <= k < l < |r|
          ensures r[k] > r[l]
        {
          assert r[l] == r'[l - 1] && r'[l - 1] < i - 1;
          if k > 0 {
            assert r[k] == r'[k - 1] && r'[k - 1] > r'[l - 1];
          }
        }
      }
    }
  }

  /** `validateVertices(vertices)`: null, or any vertex outside [0, ml),
      is rejected. */
  method ValidateVertices(vertices: Option<seq<int>>, ml: int) returns (o: Outcome)
    ensures o.Pass? <==> vertices.Some? && forall v :: v in vertices.value ==> 0 <= v < ml
    ensures o.Fail? ==> o.error == IllegalArgument
  {
    if vertices.None? {
      return Fail(IllegalArgument);
    }
    var vs := vertices.value;
    var i := 0;
    while i < |vs|
      invariant 0 <= i <= |vs| && forall j :: 0 <= j < i ==> 0 <= vs[j] < ml
    {
      if vs[i] < 0 || vs[i] >= ml {
        assert vs[i] in vs;
        return Fail(IllegalArgument);
      }
      i := i + 1;
    }
    return Pass;
  }

  /** `new BFS(G, s)`: `validateVertex(s)` then a search from s alone. */
  method NewBfs(G: seq<seq<int>>, s: int) returns (r: Result<Bfs>)
    requires Graph(G)
    ensures r.Err? <==> !(0 <= s < |G|)
    ensures r.Err? ==> r.error == IllegalArgument
    ensures r.Ok? ==> fresh(r.value.marked) && fresh(r.value.edgeTo) && fresh(r.value.distTo)
    ensures r.Ok? ==> r.value.Valid() && r.value.graph == G && r.value.sources == [s]
  {
    if s < 0 || s >= |G| {
      return Err(IllegalArgument);
    }
    var b := new Bfs(G, [s]);
    return Ok(b);
  }

  /** `new BFS(G, sources)`: `validateVertices(sources)` then a search from
      all of them. */
  method NewMultiBfs(G: seq<seq<int>>, sources: Option<seq<int>>) returns (r: Result<Bfs>)
    requires Graph(G)
    ensures r.Err? <==> !(sources.Some? && forall v :: v in sources.value ==> 0 <= v < |G|)
    ensures r.Err? ==> r.error == IllegalArgument
    ensures r.Ok? ==> fresh(r.value.marked) && fresh(r.value.edgeTo) && fresh(r.value.distTo)
    ensures r.Ok? ==> r.value.Valid() && r.value.graph == G && r.value.sources == sources.value
  {
    var o := ValidateVertices(sources, |G|);
    if o.Fail? {
      return Err(o.error);
    }
    var b := new Bfs(G, sources.value);
    return Ok(b);
  }
}
