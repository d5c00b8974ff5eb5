/** assignments/5-kd-trees/src/KdTree.java: a 2d-tree set of points, a binary
    search tree whose nodes split alternately on x (vertical divider) and on
    y (horizontal divider), with ties going to the left/bottom subtree. The
    coordinates are compared only, so they are modelled as reals. */
module KdTrees {
  import opened Wrappers

  /** `Point2D`: equal when both coordinates are. */
  datatype Point2D = Point2D(x: real, y: real)

  /** The coordinate a node splits on: x below a vertical divider. */
  function Coord(p: Point2D, isV: bool): real
  {
    if isV then p.x else p.y
  }

  /** `Double.compare` on ordinary numbers. */
  function Compare(a: real, b: real): (r: int)
    ensures r <= 0 <==> a <= b
    ensures r == 0 <==> a == b
  {
    if a < b then -1 else if a == b then 0 else 1
  }

  /** The shape of a subtree: the value each node's fields describe. */
  datatype Tree = Leaf | Node(p: Point2D, left: Tree, right: Tree)

  /** The points stored in a subtree. */
  function Points(t: Tree): set<Point2D>
  {
    match t
    case Leaf => {}
    case Node(p, l, r) => {p} + Points(l) + Points(r)
  }

  /** The number of nodes. */
  function CountNodes(t: Tree): nat
  {
    match t
    case Leaf => 0
    case Node(_, l, r) => 1 + CountNodes(l) + CountNodes(r)
  }

  /** The search-tree order of a subtree whose root splits on `isV`: the
      left/bottom subtree is at or below the divider, the right/top one
      strictly above, and the children split on the other axis. */
  predicate Ordered(t: Tree, isV: bool)
  {
    match t
    case Leaf => true
    case Node(p, l, r) =>
      && (forall q :: q in Points(l) ==> Coord(q, isV) <= Coord(p, isV))
      && (forall q :: q in Points(r) ==> Coord(q, isV) > Coord(p, isV))
      && Ordered(l, !isV) && Ordered(r, !isV)
  }

  /** The private `insert`, on the value: a missing child becomes a new
      node; otherwise the point goes down the side its coordinate picks. */
  function Inserted(t: Tree, isV: bool, q: Point2D): (r: Tree)
    ensures Points(r) == Points(t) + {q}
    ensures CountNodes(r) == CountNodes(t) + 1
  {
    match t
    case Leaf => Node(q, Leaf, Leaf)
    case Node(p, l, r) =>
      if Compare(Coord(q, isV), Coord(p, isV)) <= 0 then Node(p, Inserted(l, !isV, q), r)
      else Node(p, l, Inserted(r, !isV, q))
  }

  /** Inserting keeps the search-tree order. */
  lemma {:induction false} InsertedOrdered(t: Tree, isV: bool, q: Point2D)
    requires Ordered(t, isV)
    ensures Ordered(Inserted(t, isV, q), isV)
  {
    match t
    case Leaf =>
    case Node(p, l, r) =>
      if Compare(Coord(q, isV), Coord(p, isV)) <= 0 {
        InsertedOrdered(l, !isV, q);
      } else {
        InsertedOrdered(r, !isV, q);
      }
  }

  /** The invariant of a whole tree: ordered from a vertical divider at the
      root, and n counts both its distinct points and its nodes, so no point
      is stored twice. */
  predicate Sound(t: Tree, n: int)
  {
    Ordered(t, true) && n == |Points(t)| == CountNodes(t)
  }

  /** Adding a point the tree lacks keeps it sound and counts one more. */
  lemma InsertedSound(t: Tree, n: int, q: Point2D)
    requires Sound(t, n) && q !in Points(t)
    ensures Sound(Inserted(t, true, q), n + 1)
  {
    InsertedOrdered(t, true, q);
    assert |Points(t) + {q}| == |Points(t)| + 1;
  }

  /** A node of the tree; `model` is the subtree it roots and `Repr` the
      nodes of that subtree. */
  class KdNode {
    const p: Point2D
    var left: KdNode?
    var right: KdNode?
    ghost var model: Tree
    ghost var Repr: set<object>

    ghost predicate Valid()
      reads this, Repr
      decreases Repr
    {
      && this in Repr
      && (left != null ==> left in Repr && left.Repr <= Repr && this !in left.Repr && left.Valid())
      && (right != null ==> right in Repr && right.Repr <= Repr && this !in right.Repr && right.Valid())
      && (left != null && right != null ==> left.Repr !! right.Repr)
      && model == Node(p, Sub(left), Sub(right))
    }

    /** `new Node(point)`: a leaf. */
    constructor(point: Point2D)
      ensures Valid() && fresh(Repr) && p == point && model == Node(point, Leaf, Leaf)
    {
      p := point;
      left, right := null, null;
      model := Node(point, Leaf, Leaf);
      Repr := {this};
    }

    /** `insert(intoNode, isV, point)`: the point goes left when its
        coordinate is at most this node's, and becomes a new leaf where the
        child is missing. */
    method Insert(isV: bool, point: Point2D)
      requires Valid()
      modifies Repr
      ensures Valid() && fresh(Repr - old(Repr))
      ensures model == Inserted(old(model), isV, point)
      decreases Repr
    {
      var cmp := if isV then Compare(point.x, p.x) else Compare(point.y, p.y);
      if cmp <= 0 {
        if left == null {
          left := new KdNode(point);
        } else {
          left.Insert(!isV, point);
        }
        Repr := Repr + left.Repr;
      } else {
        if right == null {
          right := new KdNode(point);
        } else {
          right.Insert(!isV, point);
        }
        Repr := Repr + right.Repr;
      }
      model := Node(p, Sub(left), Sub(right));
    }
  }

  /** The subtree a possibly missing child roots. */
  ghost function Sub(n: KdNode?): Tree
    reads n
  {
    if n == null then Leaf else n.model
  }

  /** `find(node, isV, point)`: the node holding the point, or null. It only
      ever looks on one side of each divider, and in an ordered tree that is
      enough: it finds the point exactly when the subtree holds it. */
  function Find(node: KdNode?, isV: bool, point: Point2D): (r: KdNode?)
    reads if node == null then {} else node.Repr
    requires node == null || node.Valid()
    ensures r != null ==> node != null && r in node.Repr && r.p == point
    ensures Ordered(Sub(node), isV) ==> (r != null <==> point in Points(Sub(node)))
    decreases if node == null then {} else node.Repr
  {
    if node == null then null
    else if node.p == point then node
    else
      var cmp := if isV then Compare(point.x, node.p.x) else Compare(point.y, node.p.y);
      if cmp <= 0 then Find(node.left, !isV, point) else Find(node.right, !isV, point)
  }

  /** `KdTree`: the root and the count of distinct points inserted. */
  class KdTree {
    var root: KdNode?
    var size: int
    ghost var Repr: set<object>

    /** The points of the set. */
    ghost function Contents(): set<Point2D>
      reads this, root
    {
      Points(Sub(root))
    }

    ghost predicate Valid()
      reads this, Repr
    {
      && this in Repr
      && (root != null ==> root in Repr && root.Repr <= Repr && this !in root.Repr && root.Valid())
      && Sound(Sub(root), size)
    }

    /** `new KdTree()`: the empty set. */
    constructor()
      ensures Valid() && fresh(Repr) && Contents() == {}
    {
      root, size := null, 0;
      Repr := {this};
    }

    /** `isEmpty()`. */
    method IsEmpty() returns (b: bool)
      requires Valid()
      ensures b <==> Contents() == {}
    {
      b := size == 0;
    }

    /** `size()`: the number of distinct points. */
    method Size() returns (n: int)
      requires Valid()
      ensures n == |Contents()|
    {
      n := size;
    }

    /** `contains(p)`: null is rejected. */
    method Contains(point: Option<Point2D>) returns (r: Result<bool>)
      requires Valid()
      ensures point.None? <==> r.Err?
      ensures r.Err? ==> r.error == IllegalArgument
      ensures r.Ok? ==> (r.value <==> point.value in Contents())
    {
      if point.None? {
        return Err(IllegalArgument);
      }
      return Ok(Find(root, true, point.value) != null);
    }

    /** `insert(p)`: null is rejected; the first point becomes the root; a
        point already in the set changes nothing; any other goes down from
        the root, splitting first on x, and the size grows by one. */
    method Insert(point: Option<Point2D>) returns (o: Outcome)
      requires Valid()
      modifies Repr
      ensures Valid() && fresh(Repr - old(Repr))
      ensures point.None? <==> o.Fail?
      ensures o.Fail? ==> o.error == IllegalArgument && Contents() == old(Contents())
      ensures point.Some? ==> Contents() == old(Contents()) + {point.value}
      ensures size == old(size) + (if point.Some? && point.value !in old(Contents()) then 1 else 0)
    {
      if point.None? {
        return Fail(IllegalArgument);
      }
      var q := point.value;
      if root == null {
        PlantRoot(q);
        return Pass;
      }
      if Find(root, true, q) != null {
        assert Contents() + {q} == Contents();
        return Pass;
      }
      AddBelowRoot(q);
      return Pass;
    }

    /** The first point of `insert(p)` becomes the root. */
    method PlantRoot(q: Point2D)
      requires Valid() && root == null
      modifies this
      ensures Valid() && fresh(Repr - old(Repr))
      ensures Contents() == {q} && size == 1
    {
      root := new KdNode(q);
      size := 1;
      Repr := Repr + root.Repr;
    }

    /** The last two statements of `insert(p)`, for a point not in the set. */
    method AddBelowRoot(q: Point2D)
      requires Valid() && root != null && q !in Contents()
      modifies Repr
      ensures Valid() && fresh(Repr - old(Repr))
      ensures Contents() == old(Contents()) + {q} && size == old(size) + 1
    {
      InsertedSound(root.model, size, q);
      ghost var after := Inserted(root.model, true, q);
      root.Insert(true, q);
      Repr := Repr + root.Repr;
      size := size + 1;
      assert Sub(root) == after;
    }
  }

  /** The two-point check of `main`: both points are counted. */
  method InsertTwoPoints() returns (empty: bool, n: int)
    ensures !empty && n == 2
  {
    var kd := new KdTree();
    var o := kd.Insert(Some(Point2D(0.5, 0.5)));
    o := kd.Insert(Some(Point2D(0.2, 0.2)));
    empty := kd.IsEmpty();
    n := kd.Size();
  }
}
