/** The shortest ancestral path of assignments/p2-1-wordnet/src/SAP.java: two
    breadth-first searches, then a scan over the vertices the first one
    reached for the least sum of the two distances. */
module Sap {
  import opened Wrappers
  import opened BreadthFirst

  /** a is reached by both searches: marked by the v search and at a finite
      distance in the w search. */
  predicate Common(vm: seq<bool>, wd: seq<int>, a: int)
    requires |vm| == |wd| && 0 <= a < |vm|
  {
    vm[a] && wd[a] != INFINITY
  }

  /** Distances of common vertices are never negative. */
  predicate NonNegative(vm: seq<bool>, vd: seq<int>, wd: seq<int>)
    requires |vm| == |vd| == |wd|
  {
    forall a :: 0 <= a < |vm| && Common(vm, wd, a) ==> vd[a] >= 0 && wd[a] >= 0
  }

  /** The reference answer over the vertices below i, defined in increasing
      order: the least sum of the two distances over common vertices, paired
      with the largest vertex that attains it; (-1, -1) when no vertex is
      common. */
  function Best(vm: seq<bool>, vd: seq<int>, wd: seq<int>, i: int): (r: (int, int))
    requires |vm| == |vd| == |wd| && 0 <= i <= |vm|
    ensures r == (-1, -1) || (0 <= r.1 < i && Common(vm, wd, r.1) && r.0 == vd[r.1] + wd[r.1])
  {
    if i == 0 then (-1, -1)
    else
      var b := Best(vm, vd, wd, i - 1);
      if Common(vm, wd, i - 1) && (b.0 == -1 || vd[i - 1] + wd[i - 1] <= b.0) then (vd[i - 1] + wd[i - 1], i - 1)
      else b
  }

  /** What the reference answer means: -1 exactly when no vertex below i is
      common; otherwise a common vertex whose sum is the least, and every
      larger common vertex has a strictly larger sum. */
  lemma {:induction false} BestIsLeast(vm: seq<bool>, vd: seq<int>, wd: seq<int>, i: int)
    requires |vm| == |vd| == |wd| && 0 <= i <= |vm| && NonNegative(vm, vd, wd)
    ensures var (len, anc) := Best(vm, vd, wd, i);
      (len == -1 <==> forall a :: 0 <= a < i ==> !Common(vm, wd, a))
      && (len == -1 ==> anc == -1)
      && (len != -1 ==>
            0 <= anc < i && Common(vm, wd, anc) && len == vd[anc] + wd[anc] && len >= 0
            && (forall a :: 0 <= a < i && Common(vm, wd, a) ==> len <= vd[a] + wd[a])
            && (forall a :: anc < a < i && Common(vm, wd, a) ==> len < vd[a] + wd[a]))
    decreases i
  {
    if i > 0 {
      BestIsLeast(vm, vd, wd, i - 1);
    }
  }

  /** The reference answer does not depend on which side is v: a vertex is
      common to (v, w) exactly when it is common to (w, v), with the same
      sum. */
  lemma {:induction false} BestSymmetric(vm: seq<bool>, vd: seq<int>, wm: seq<bool>, wd: seq<int>, i: int)
    requires |vm| == |vd| == |wm| == |wd| && 0 <= i <= |vm|
    requires forall a :: 0 <= a < |vm| ==> (vm[a] <==> vd[a] != INFINITY) && (wm[a] <==> wd[a] != INFINITY)
    ensures Best(vm, vd, wd, i) == Best(wm, wd, vd, i)
    decreases i
  {
    if i > 0 {
      BestSymmetric(vm, vd, wm, wd, i - 1);
    }
  }

  /** The body of the loops of `length(BFS, BFS)` and `ancestor(BFS, BFS)`:
      a vertex at a finite distance from w replaces the answer when its sum
      is strictly smaller, or when there is none yet. */
  function Step(vd: seq<int>, wd: seq<int>, acc: (int, int), a: int): (int, int)
    requires |vd| == |wd| && 0 <= a < |vd|
  {
    if wd[a] != INFINITY && (vd[a] + wd[a] < acc.0 || acc.0 == -1) then (vd[a] + wd[a], a) else acc
  }

  /** The loop over the vertices l in the order the `ancestors()` stack
      yields them, from the answer acc. */
  function Scan(vd: seq<int>, wd: seq<int>, l: seq<int>, acc: (int, int)): (int, int)
    requires |vd| == |wd| && forall k :: 0 <= k < |l| ==> 0 <= l[k] < |vd|
  {
    if l == [] then acc else Scan(vd, wd, l[1..], Step(vd, wd, acc, l[0]))
  }

  /** The better of two answers; the first wins a tie. */
  function Combine(acc: (int, int), b: (int, int)): (int, int)
  {
    if b.0 != -1 && (acc.0 == -1 || b.0 < acc.0) then b else acc
  }

  /** Scanning the marked vertices below i largest first, as the stack
      yields them, from the answer acc, gives the better of acc and the
      reference answer. */
  lemma {:induction false} ScanMarkedBelow(vm: seq<bool>, vd: seq<int>, wd: seq<int>, i: int, acc: (int, int))
    requires |vm| == |vd| == |wd| && 0 <= i <= |vm| && NonNegative(vm, vd, wd) && acc.0 >= -1
    ensures Scan(vd, wd, MarkedBelow(vm, i), acc) == Combine(acc, Best(vm, vd, wd, i))
    decreases i
  {
    if i > 0 {
      var x := i - 1;
      var l := MarkedBelow(vm, x);
      var b := Best(vm, vd, wd, x);
      if vm[x] {
        assert MarkedBelow(vm, i) == [x] + l;
        assert ([x] + l)[1..] == l;
        var acc' := Step(vd, wd, acc, x);
        assert Scan(vd, wd, [x] + l, acc) == Scan(vd, wd, l, acc');
        ScanMarkedBelow(vm, vd, wd, x, acc');
        if wd[x] != INFINITY {
          assert Common(vm, wd, x);
          var s := vd[x] + wd[x];
          assert s >= 0;
          assert b.0 == -1 || b.0 >= 0 by {
            if b != (-1, -1) {
              assert Common(vm, wd, b.1);
            }
          }
          assert Best(vm, vd, wd, i) == if b.0 == -1 || s <= b.0 then (s, x) else b;
          assert acc' == if s < acc.0 || acc.0 == -1 then (s, x) else acc;
          CombineStep(acc, b, s, x);
        } else {
          assert acc' == acc && Best(vm, vd, wd, i) == b;
        }
      } else {
        assert MarkedBelow(vm, i) == l && Best(vm, vd, wd, i) == b;
        ScanMarkedBelow(vm, vd, wd, x, acc);
      }
    }
  }

  /** Taking x first and then the best answer b equals taking acc against
      the answer b extended with x, x winning a tie with b. */
  lemma CombineStep(acc: (int, int), b: (int, int), s: int, x: int)
    requires acc.0 >= -1 && s >= 0 && (b.0 == -1 || b.0 >= 0)
    ensures Combine(if s < acc.0 || acc.0 == -1 then (s, x) else acc, b)
         == Combine(acc, if b.0 == -1 || s <= b.0 then (s, x) else b)
  {
  }

  /** A vertex at the end of a walk from each source set is common, and the
      two walks are together no shorter than its sum. */
  lemma WalksMeetAtCommon(G: seq<seq<int>>, V: seq<int>, W: seq<int>, vm: seq<bool>, ve: seq<int>, vd: seq<int>, wm: seq<bool>, we: seq<int>, wd: seq<int>, p: seq<int>, p': seq<int>)
    requires Searched(G, V, vm, ve, vd) && Searched(G, W, wm, we, wd)
    requires Walk(G, V, p) && Walk(G, W, p') && p[|p| - 1] == p'[|p'| - 1]
    ensures Common(vm, wd, p[|p| - 1]) && vd[p[|p| - 1]] + wd[p[|p| - 1]] <= |p| - 1 + |p'| - 1
  {
    var a := p[|p| - 1];
    SearchedDistances(G, V, vm, ve, vd, a);
    SearchedDistances(G, W, wm, we, wd, a);
  }

  /** The shortest ancestral path: the reference answer over two finished
      searches is -1 exactly when no vertex is reached from both source
      sets; otherwise its vertex is reached from both by walks whose lengths
      add up to the answer, and no two walks from the two source sets that
      end at the same vertex are shorter together. */
  lemma ShortestAncestralPath(G: seq<seq<int>>, V: seq<int>, W: seq<int>, vm: seq<bool>, ve: seq<int>, vd: seq<int>, wm: seq<bool>, we: seq<int>, wd: seq<int>)
    requires Searched(G, V, vm, ve, vd) && Searched(G, W, wm, we, wd)
    ensures var (len, anc) := Best(vm, vd, wd, |G|);
      (len == -1 <==> forall p, p' :: Walk(G, V, p) && Walk(G, W, p') ==> p[|p| - 1] != p'[|p'| - 1])
      && (len != -1 ==>
            0 <= anc < |G| && vm[anc] && wm[anc]
            && |TreePath(G, V, vm, ve, vd, anc)| - 1 + |TreePath(G, W, wm, we, wd, anc)| - 1 == len)
      && (forall p, p' :: Walk(G, V, p) && Walk(G, W, p') && p[|p| - 1] == p'[|p'| - 1] ==> 0 <= len <= |p| - 1 + |p'| - 1)
  {
    SearchedFinite(G, V, vm, ve, vd);
    SearchedFinite(G, W, wm, we, wd);
    BestIsLeast(vm, vd, wd, |G|);
    var (len, anc) := Best(vm, vd, wd, |G|);
    forall p, p' | Walk(G, V, p) && Walk(G, W, p') && p[|p| - 1] == p'[|p'| - 1]
      ensures Common(vm, wd, p[|p| - 1]) && 0 <= len <= |p| - 1 + |p'| - 1
    {
      WalksMeetAtCommon(G, V, W, vm, ve, vd, wm, we, wd, p, p');
    }
    if len != -1 {
      TreePathsMeet(G, V, W, vm, ve, vd, wm, we, wd, anc);
    }
  }

  /** The tree paths of both searches to a common vertex are walks that meet
      there, of lengths its two distances. */
  lemma TreePathsMeet(G: seq<seq<int>>, V: seq<int>, W: seq<int>, vm: seq<bool>, ve: seq<int>, vd: seq<int>, wm: seq<bool>, we: seq<int>, wd: seq<int>, a: int)
    requires Searched(G, V, vm, ve, vd) && Searched(G, W, wm, we, wd) && 0 <= a < |G| && Common(vm, wd, a)
    ensures wm[a]
    ensures var p, p' := TreePath(G, V, vm, ve, vd, a), TreePath(G, W, wm, we, wd, a);
      Walk(G, V, p) && Walk(G, W, p') && p[|p| - 1] == p'[|p'| - 1] && |p| - 1 + |p'| - 1 == vd[a] + wd[a]
  {
    SearchedFinite(G, W, wm, we, wd);
  }

  /** length(v, w) == length(w, v) and ancestor(v, w) == ancestor(w, v) for
      any two finished searches. */
  lemma SapSymmetric(G: seq<seq<int>>, V: seq<int>, W: seq<int>, vm: seq<bool>, ve: seq<int>, vd: seq<int>, wm: seq<bool>, we: seq<int>, wd: seq<int>)
    requires Searched(G, V, vm, ve, vd) && Searched(G, W, wm, we, wd)
    ensures Best(vm, vd, wd, |G|) == Best(wm, wd, vd, |G|)
  {
    SearchedFinite(G, V, vm, ve, vd);
    SearchedFinite(G, W, wm, we, wd);
    BestSymmetric(vm, vd, wm, wd, |G|);
  }

  /** The answer for the source sets V and W, whatever finished searches
      from them are used; `SearchedUnique` makes it one answer. */
  ghost predicate IsAnswer(G: seq<seq<int>>, V: seq<int>, W: seq<int>, r: (int, int))
  {
    forall vm, ve, vd, wm, we, wd ::
      Searched(G, V, vm, ve, vd) && Searched(G, W, wm, we, wd) ==> r == Best(vm, vd, wd, |G|)
  }

  /** `SAP`: it keeps a copy of the digraph and never changes it. */
  class Sap {
    const dg: seq<seq<int>>

    constructor(G: seq<seq<int>>)
      requires Graph(G)
      ensures dg == G
    {
      dg := G;
    }

    /** `length(BFS, BFS)` and `ancestor(BFS, BFS)`: one scan over the
        vertices the v search reached, largest first, keeping the least sum
        and the vertex that first attains it. The source writes the two as
        separate loops that differ only in whether the vertex is kept. */
    static method Shortest(v: Bfs, w: Bfs) returns (minLength: int, ancestor: int)
      requires v.Valid() && w.Valid() && v.graph == w.graph
      ensures (minLength, ancestor) == Best(v.marked[..], v.distTo[..], w.distTo[..], v.marked.Length)
    {
      ghost var vm, vd, wd := v.marked[..], v.distTo[..], w.distTo[..];
      SearchedFinite(v.graph, v.sources, vm, v.edgeTo[..], vd);
      SearchedFinite(w.graph, w.sources, w.marked[..], w.edgeTo[..], wd);
      var ancestors := v.Ancestors();
      minLength, ancestor := ScanLoop(ancestors, v.distTo, w.distTo);
      ScanMarkedBelow(vm, vd, wd, |vm|, (-1, -1));
    }

    /** The loop itself, over the stack as it yields the vertices. */
    static method ScanLoop(ancestors: seq<int>, vDist: array<int>, wDist: array<int>) returns (minLength: int, ancestor: int)
      requires vDist.Length == wDist.Length && forall k :: 0 <= k < |ancestors| ==> 0 <= ancestors[k] < vDist.Length
      ensures (minLength, ancestor) == Scan(vDist[..], wDist[..], ancestors, (-1, -1))
    {
      ghost var vd, wd := vDist[..], wDist[..];
      minLength, ancestor := -1, -1;
      var k := 0;
      while k < |ancestors|
        invariant 0 <= k <= |ancestors|
        invariant Scan(vd, wd, ancestors[k..], (minLength, ancestor)) == Scan(vd, wd, ancestors, (-1, -1))
      {
        var a := ancestors[k];
        assert ancestors[k..][1..] == ancestors[k + 1..];
        var wDistToA := wDist[a];
        if wDistToA != INFINITY {
          var length := vDist[a] + wDistToA;
          if length < minLength || minLength == -1 {
            minLength, ancestor := length, a;
          }
        }
        k := k + 1;
      }
    }

    /** Scans the two searches and names the answer for their sources. */
    static method Answer(G: seq<seq<int>>, v: Bfs, w: Bfs) returns (minLength: int, ancestor: int)
      requires v.Valid() && w.Valid() && v.graph == w.graph == G
      ensures IsAnswer(G, v.sources, w.sources, (minLength, ancestor))
      ensures ancestor == -1 || 0 <= ancestor < |G|
    {
      minLength, ancestor := Shortest(v, w);
      forall vm, ve, vd, wm, we, wd | Searched(G, v.sources, vm, ve, vd) && Searched(G, w.sources, wm, we, wd)
        ensures (minLength, ancestor) == Best(vm, vd, wd, |G|)
      {
        SearchedUnique(G, v.sources, vm, ve, vd, v.marked[..], v.edgeTo[..], v.distTo[..]);
        SearchedUnique(G, w.sources, wm, we, wd, w.marked[..], w.edgeTo[..], w.distTo[..]);
      }
    }

    /** `length(int, int)`: both vertices are validated, then the least sum
        of distances to a common vertex, or -1. */
    method Length(v: int, w: int) returns (r: Result<int>)
      requires Graph(dg)
      ensures r.Err? <==> !(0 <= v < |dg| && 0 <= w < |dg|)
      ensures r.Err? ==> r.error == IllegalArgument
      ensures r.Ok? ==> exists anc :: IsAnswer(dg, [v], [w], (r.value, anc))
    {
      var bv := NewBfs(dg, v);
      if bv.Err? {
        return Err(bv.error);
      }
      var bw := NewBfs(dg, w);
      if bw.Err? {
        return Err(bw.error);
      }
      var len, anc := Answer(dg, bv.value, bw.value);
      return Ok(len);
    }

    /** `ancestor(int, int)`: both vertices are validated, then a common
        vertex on a shortest ancestral path, or -1. */
    method Ancestor(v: int, w: int) returns (r: Result<int>)
      requires Graph(dg)
      ensures r.Err? <==> !(0 <= v < |dg| && 0 <= w < |dg|)
      ensures r.Err? ==> r.error == IllegalArgument
      ensures r.Ok? ==> exists len :: IsAnswer(dg, [v], [w], (len, r.value))
      ensures r.Ok? ==> -1 <= r.value < |dg|
    {
      var bv := NewBfs(dg, v);
      if bv.Err? {
        return Err(bv.error);
      }
      var bw := NewBfs(dg, w);
      if bw.Err? {
        return Err(bw.error);
      }
      var len, anc := Answer(dg, bv.value, bw.value);
      return Ok(anc);
    }

    /** `length(Iterable, Iterable)`: null or an invalid vertex in either
        set is rejected; then the least sum over both source sets. */
    method LengthOfSets(v: Option<seq<int>>, w: Option<seq<int>>) returns (r: Result<int>)
      requires Graph(dg)
      ensures r.Err? <==> !(ValidSet(v, |dg|) && ValidSet(w, |dg|))
      ensures r.Err? ==> r.error == IllegalArgument
      ensures r.Ok? ==> exists anc :: IsAnswer(dg, v.value, w.value, (r.value, anc))
    {
      var bv := NewMultiBfs(dg, v);
      if bv.Err? {
        return Err(bv.error);
      }
      var bw := NewMultiBfs(dg, w);
      if bw.Err? {
        return Err(bw.error);
      }
      var len, anc := Answer(dg, bv.value, bw.value);
      return Ok(len);
    }

    /** `ancestor(Iterable, Iterable)`, validated as above. */
    method AncestorOfSets(v: Option<seq<int>>, w: Option<seq<int>>) returns (r: Result<int>)
      requires Graph(dg)
      ensures r.Err? <==> !(ValidSet(v, |dg|) && ValidSet(w, |dg|))
      ensures r.Err? ==> r.error == IllegalArgument
      ensures r.Ok? ==> exists len :: IsAnswer(dg, v.value, w.value, (len, r.value))
      ensures r.Ok? ==> -1 <= r.value < |dg|
    {
      var bv := NewMultiBfs(dg, v);
      if bv.Err? {
        return Err(bv.error);
      }
      var bw := NewMultiBfs(dg, w);
      if bw.Err? {
        return Err(bw.error);
      }
      var len, anc := Answer(dg, bv.value, bw.value);
      return Ok(anc);
    }
  }

  /** A source set `validateVertices` accepts: not null, every vertex in
      range. */
  predicate ValidSet(vs: Option<seq<int>>, n: int)
  {
    vs.Some? && forall v :: v in vs.value ==> 0 <= v < n
  }
}
