/** Weighted quick-union without path compression, the union-find structure both
    percolation grids keep their sites in (the library class
    `WeightedQuickUnionUF`, whose source is not part of this model).

    What a client can observe is captured by `Forest`: the root `find` returns
    for every element and the size recorded at every root, which decides the
    direction of the next link. */
module UnionFind {

  datatype Forest = Forest(root: seq<int>, size: seq<int>)

  /** Every element names a root in range. */
  predicate Bounded(f: Forest)
  {
    |f.root| == |f.size| && forall i :: 0 <= i < |f.root| ==> 0 <= f.root[i] < |f.root|
  }

  /** Besides, a root is its own root. */
  predicate WellFormed(f: Forest)
  {
    Bounded(f) && forall i :: 0 <= i < |f.root| ==> f.root[f.root[i]] == f.root[i]
  }

  /** n singleton components of size 1, as the constructor builds them. */
  function Singletons(n: nat): (f: Forest)
    ensures WellFormed(f) && |f.root| == n
    ensures forall i :: 0 <= i < n ==> f.root[i] == i && f.size[i] == 1
  {
    Forest(seq(n, i => i), seq(n, i => 1))
  }

  /** The roots after the component rooted at `from` is hung under `to`. */
  function Relink(root: seq<int>, from: int, to: int): (r: seq<int>)
    ensures |r| == |root|
    ensures forall i :: 0 <= i < |root| ==> r[i] == if root[i] == from then to else root[i]
  {
    seq(|root|, i requires 0 <= i < |root| => if root[i] == from then to else root[i])
  }

  /** `union(p, q)`: nothing when p and q share a root; otherwise the root of the
      smaller tree goes under the other, and on equal sizes q's root goes under
      p's. The surviving root's size grows by the other's. */
  function Merged(f: Forest, p: int, q: int): (g: Forest)
    requires Bounded(f) && 0 <= p < |f.root| && 0 <= q < |f.root|
    ensures Bounded(g) && |g.root| == |f.root|
  {
    var rp, rq := f.root[p], f.root[q];
    if rp == rq then f
    else if f.size[rp] < f.size[rq] then Forest(Relink(f.root, rp, rq), f.size[rq := f.size[rq] + f.size[rp]])
    else Forest(Relink(f.root, rq, rp), f.size[rp := f.size[rp] + f.size[rq]])
  }

  /** A union keeps the forest well formed and its length. */
  lemma MergedWellFormed(f: Forest, p: int, q: int)
    requires WellFormed(f) && 0 <= p < |f.root| && 0 <= q < |f.root|
    ensures WellFormed(Merged(f, p, q)) && |Merged(f, p, q).root| == |f.root|
  {
  }

  /** After a union p and q share a root: the old root of p when p's tree was
      not smaller, the old root of q otherwise. */
  lemma MergedRoot(f: Forest, p: int, q: int)
    requires WellFormed(f) && 0 <= p < |f.root| && 0 <= q < |f.root|
    ensures Merged(f, p, q).root[p] == Merged(f, p, q).root[q]
    ensures Merged(f, p, q).root[p] == if f.size[f.root[p]] < f.size[f.root[q]] then f.root[q] else f.root[p]
  {
  }

  /** A union joins exactly the components of p and q: two elements share a root
      afterwards iff they did before or each was in one of the two joined
      components. */
  lemma MergedConnects(f: Forest, p: int, q: int, i: int, j: int)
    requires WellFormed(f) && 0 <= p < |f.root| && 0 <= q < |f.root|
    requires 0 <= i < |f.root| && 0 <= j < |f.root|
    ensures var g := Merged(f, p, q);
      g.root[i] == g.root[j] <==>
        (f.root[i] == f.root[j]
         || ((f.root[i] == f.root[p] || f.root[i] == f.root[q]) && (f.root[j] == f.root[p] || f.root[j] == f.root[q])))
  {
  }

  /** The parent links as a forest: each element's chain of parents ends in its
      root, and `depth` is that chain's length, which bounds `find`'s loop. */
  ghost predicate Linked(parent: seq<int>, root: seq<int>, depth: seq<nat>)
  {
    |parent| == |root| == |depth|
    && (forall i :: 0 <= i < |root| ==> 0 <= parent[i] < |root| && 0 <= root[i] < |root|)
    && (forall i {:trigger parent[root[i]]} :: 0 <= i < |root| ==> parent[root[i]] == root[i])
    && (forall i :: 0 <= i < |root| && parent[i] == i ==> root[i] == i && depth[i] == 0)
    && (forall i {:trigger root[parent[i]]} {:trigger depth[parent[i]]} :: 0 <= i < |root| && parent[i] != i ==>
          root[i] == root[parent[i]] && depth[i] == depth[parent[i]] + 1)
  }

  /** The depths after the tree rooted at `child` is hung one level lower. */
  ghost function Deepen(root: seq<int>, depth: seq<nat>, child: int): (d: seq<nat>)
    requires |depth| == |root|
    ensures |d| == |root|
    ensures forall i :: 0 <= i < |root| ==> d[i] == if root[i] == child then depth[i] + 1 else depth[i]
  {
    seq(|root|, i requires 0 <= i < |root| => if root[i] == child then depth[i] + 1 else depth[i])
  }

  /** The roots of a parent-link forest form a well-formed `Forest`. */
  lemma LinkedWellFormed(parent: seq<int>, root: seq<int>, depth: seq<nat>, size: seq<int>)
    requires Linked(parent, root, depth) && |size| == |root|
    ensures WellFormed(Forest(root, size))
  {
    forall i | 0 <= i < |root|
      ensures root[root[i]] == root[i]
    {
      assert parent[root[i]] == root[i];
    }
  }

  /** Linking one root under another keeps the parent links a forest. */
  lemma LinkKeepsForest(parent: seq<int>, root: seq<int>, depth: seq<nat>, child: int, r: int)
    requires Linked(parent, root, depth)
    requires 0 <= child < |root| && 0 <= r < |root| && child != r && root[child] == child && root[r] == r
    ensures Linked(parent[child := r], Relink(root, child, r), Deepen(root, depth, child))
  {
    var parent', root', depth' := parent[child := r], Relink(root, child, r), Deepen(root, depth, child);
    forall i | 0 <= i < |root| && parent'[i] != i
      ensures root'[i] == root'[parent'[i]] && depth'[i] == depth'[parent'[i]] + 1
    {
      if i != child {
        assert parent'[i] == parent[i];
      }
    }
  }

  /** The parent-link forest itself. `root` and `depth` are ghost: the root each
      element's parent chain ends in, and that chain's length. */
  class UF {
    const parent: array<int>
    const size: array<int>
    ghost var root: seq<int>
    ghost var depth: seq<nat>

    ghost predicate Valid()
      reads this, parent, size
    {
      parent != size && size.Length == parent.Length && Linked(parent[..], root, depth)
    }

    ghost function Abstract(): Forest
      reads this, size
    {
      Forest(root, size[..])
    }

    /** `new WeightedQuickUnionUF(n)`: every element its own root, every size 1. */
    constructor(n: nat)
      ensures Valid() && fresh(parent) && fresh(size)
      ensures Abstract() == Singletons(n)
    {
      parent := new int[n](i => i);
      size := new int[n](i => 1);
      root := seq(n, i => i);
      depth := seq(n, i => 0);
    }

    /** The parent links always describe a well-formed forest. */
    lemma AbstractWellFormed()
      requires Valid()
      ensures WellFormed(Abstract())
    {
      LinkedWellFormed(parent[..], root, depth, size[..]);
    }

    /** `find(p)`: follow parent links to the root. */
    method Find(p: int) returns (r: int)
      requires Valid() && 0 <= p < |root|
      ensures r == root[p]
    {
      r := p;
      while parent[r] != r
        invariant 0 <= r < |root| && root[r] == root[p]
        decreases depth[r]
      {
        r := parent[r];
      }
    }

    /** `union(p, q)` by size. */
    method Union(p: int, q: int)
      requires Valid() && 0 <= p < |root| && 0 <= q < |root|
      modifies this, parent, size
      ensures Valid() && |root| == old(|root|)
      ensures Abstract() == Merged(old(Abstract()), p, q)
    {
      var rp := Find(p);
      var rq := Find(q);
      ghost var f := Abstract();
      LinkedWellFormed(parent[..], root, depth, size[..]);
      if rp == rq {
        return;
      }
      if size[rp] < size[rq] {
        Link(rp, rq);
        assert Abstract() == Forest(Relink(f.root, rp, rq), f.size[rq := f.size[rq] + f.size[rp]]);
      } else {
        Link(rq, rp);
        assert Abstract() == Forest(Relink(f.root, rq, rp), f.size[rp := f.size[rp] + f.size[rq]]);
      }
    }

    /** Hangs root `child` under root `r` and adds its size to r's. */
    method Link(child: int, r: int)
      requires Valid() && 0 <= child < |root| && 0 <= r < |root| && child != r
      requires root[child] == child && root[r] == r
      modifies this, parent, size
      ensures Valid() && |root| == old(|root|)
      ensures root == Relink(old(root), child, r)
      ensures size[..] == old(size[..])[r := old(size[r]) + old(size[child])]
    {
      LinkKeepsForest(parent[..], root, depth, child, r);
      parent[child] := r;
      size[r] := size[r] + size[child];
      depth := Deepen(root, depth, child);
      root := Relink(root, child, r);
    }
  }
}
