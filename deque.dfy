/** The double-ended queue of assignments/2-queues: a circular doubly linked
    list through a sentinel node `master` (whose `next` is the first element and
    whose `prev` is the last), plus a size counter. Java's `null` item is
    `None`. */
module Deques {
  import opened Wrappers

  class Node<T> {
    const item: Option<T>
    var next: Node?<T>
    var prev: Node?<T>

    constructor(value: Option<T>)
      ensures item == value && next == null && prev == null
    {
      item := value;
      next := null;
      prev := null;
    }
  }

  /** No node occurs twice in the ring. */
  ghost predicate Distinct<T>(ring: seq<Node<T>>)
  {
    forall i, j :: 0 <= i < j < |ring| ==> ring[i] != ring[j]
  }

  /** Every node of the ring is in the footprint. */
  ghost predicate Within<T>(ring: seq<Node<T>>, repr: set<object>)
  {
    forall i :: 0 <= i < |ring| ==> ring[i] in repr
  }

  lemma InsertWithin<T>(ring: seq<Node<T>>, repr: set<object>, k: int, added: Node<T>)
    requires Within(ring, repr) && 0 <= k < |ring|
    ensures Within(ring[..k + 1] + [added] + ring[k + 1..], repr + {added})
  {
    var r := ring[..k + 1] + [added] + ring[k + 1..];
    forall i | 0 <= i < |r|
      ensures r[i] in repr + {added}
    {
      if i < k + 1 {
        assert r[i] == ring[i];
      } else if k + 1 < i {
        assert r[i] == ring[i - 1];
      }
    }
  }

  lemma RemoveWithin<T>(ring: seq<Node<T>>, repr: set<object>, k: int)
    requires Within(ring, repr) && 0 <= k < |ring|
    ensures Within(ring[..k] + ring[k + 1..], repr)
  {
    var r := ring[..k] + ring[k + 1..];
    forall i | 0 <= i < |r|
      ensures r[i] in repr
    {
      if i < k {
        assert r[i] == ring[i];
      } else {
        assert r[i] == ring[i + 1];
      }
    }
  }

  /** The nodes after the sentinel carry the items in order. */
  ghost predicate Holds<T>(ring: seq<Node<T>>, items: seq<T>)
  {
    |ring| == |items| + 1 && forall i :: 1 <= i < |ring| ==> ring[i].item == Some(items[i - 1])
  }

  /** Every node's `next` is the following node of the ring and that node's
      `prev` is it; the last node closes the circle back to the first. */
  ghost predicate Linked<T>(ring: seq<Node<T>>)
    reads ring
  {
    |ring| > 0
    && (forall i :: 0 <= i < |ring| - 1 ==> ring[i].next == ring[i + 1] && ring[i + 1].prev == ring[i])
    && ring[|ring| - 1].next == ring[0] && ring[0].prev == ring[|ring| - 1]
  }

  lemma InsertDistinct<T>(ring: seq<Node<T>>, k: int, added: Node<T>)
    requires Distinct(ring) && 0 <= k < |ring| && added !in ring
    ensures Distinct(ring[..k + 1] + [added] + ring[k + 1..])
  {
    var r := ring[..k + 1] + [added] + ring[k + 1..];
    forall i, j | 0 <= i < j < |r|
      ensures r[i] != r[j]
    {
      if i != k + 1 && j != k + 1 {
        var i', j' := if i < k + 1 then i else i - 1, if j < k + 1 then j else j - 1;
        assert r[i] == ring[i'] && r[j] == ring[j'];
      } else if i == k + 1 {
        assert r[j] == ring[j - 1];
      } else {
        assert r[i] == ring[i];
      }
    }
  }

  lemma InsertHolds<T>(ring: seq<Node<T>>, items: seq<T>, k: int, added: Node<T>, x: T)
    requires Holds(ring, items) && 0 <= k < |ring| && added.item == Some(x)
    ensures Holds(ring[..k + 1] + [added] + ring[k + 1..], items[..k] + [x] + items[k..])
  {
    var r, its := ring[..k + 1] + [added] + ring[k + 1..], items[..k] + [x] + items[k..];
    forall i | 1 <= i < |r|
      ensures r[i].item == Some(its[i - 1])
    {
      if i < k + 1 {
        assert r[i] == ring[i] && its[i - 1] == items[i - 1];
      } else if k + 1 < i {
        assert r[i] == ring[i - 1] && its[i - 1] == items[i - 2];
      }
    }
  }

  lemma RemoveDistinct<T>(ring: seq<Node<T>>, k: int)
    requires Distinct(ring) && 0 <= k < |ring|
    ensures Distinct(ring[..k] + ring[k + 1..])
  {
    var r := ring[..k] + ring[k + 1..];
    forall i, j | 0 <= i < j < |r|
      ensures r[i] != r[j]
    {
      var i', j' := if i < k then i else i + 1, if j < k then j else j + 1;
      assert r[i] == ring[i'] && r[j] == ring[j'];
    }
  }

  lemma RemoveHolds<T>(ring: seq<Node<T>>, items: seq<T>, k: int)
    requires Holds(ring, items) && 1 <= k < |ring|
    ensures Holds(ring[..k] + ring[k + 1..], items[..k - 1] + items[k..])
  {
    var r, its := ring[..k] + ring[k + 1..], items[..k - 1] + items[k..];
    forall i | 1 <= i < |r|
      ensures r[i].item == Some(its[i - 1])
    {
      if i < k {
        assert r[i] == ring[i] && its[i - 1] == items[i - 1];
      } else {
        assert r[i] == ring[i + 1] && its[i - 1] == items[i];
      }
    }
  }

  class Deque<T> {
    const master: Node<T>
    var size: int
    /** The ring in order: the sentinel, then the nodes front to back. */
    ghost var nodes: seq<Node<T>>
    /** The items front to back. */
    ghost var Contents: seq<T>
    ghost var Repr: set<object>

    ghost predicate Valid()
      reads this, Repr
    {
      this in Repr && |nodes| == |Contents| + 1 && nodes[0] == master && size == |Contents|
      && Within(nodes, Repr)
      && Distinct(nodes) && Holds(nodes, Contents) && Linked(nodes)
    }

    /** `new Deque()`: the sentinel alone, linked to itself. */
    constructor()
      ensures Valid() && fresh(Repr) && Contents == []
    {
      var m := new Node(None);
      m.next := m;
      m.prev := m;
      master := m;
      size := 0;
      nodes := [m];
      Contents := [];
      Repr := {this, m};
    }

    /** `isEmpty()`: the sentinel's successor is the sentinel itself. */
    method IsEmpty() returns (b: bool)
      requires Valid()
      ensures b <==> Contents == []
    {
      if |nodes| > 1 {
        assert nodes[1] != nodes[0];
      }
      return master.next == master;
    }

    /** `size()`. */
    method Size() returns (s: int)
      requires Valid()
      ensures s == |Contents|
    {
      return size;
    }

    /** The node that follows position k of the ring. */
    ghost function Successor(k: int): Node<T>
      reads this
      requires 0 <= k < |nodes|
    {
      if k + 1 < |nodes| then nodes[k + 1] else nodes[0]
    }

    /** `insert(item, after, before)`, where `after` is position k of the ring
        and `before` its successor: the item goes in as element k. */
    method Insert(item: Option<T>, after: Node<T>, before: Node<T>, ghost k: int) returns (o: Outcome)
      requires Valid() && 0 <= k < |nodes| && after == nodes[k] && before == Successor(k)
      modifies Repr
      ensures Valid() && fresh(Repr - old(Repr))
      ensures item.None? ==> o == Fail(IllegalArgument) && Contents == old(Contents)
      ensures item.Some? ==> o == Pass && Contents == old(Contents)[..k] + [item.value] + old(Contents)[k..]
    {
      if item.None? {
        return Fail(IllegalArgument);
      }
      var newNode := new Node(item);
      Splice(newNode, after, before, k);
      return Pass;
    }

    /** The body of `insert` for a non-null item: `added` is linked in after
        position k and counted. */
    method Splice(added: Node<T>, after: Node<T>, before: Node<T>, ghost k: int)
      requires Valid() && 0 <= k < |nodes| && after == nodes[k] && before == Successor(k)
      requires added !in Repr && added.item.Some?
      modifies Repr, added
      ensures Valid() && Repr == old(Repr) + {added}
      ensures Contents == old(Contents)[..k] + [added.item.value] + old(Contents)[k..]
    {
      ghost var ring := nodes;
      InsertDistinct(ring, k, added);
      InsertHolds(ring, Contents, k, added, added.item.value);
      InsertWithin(ring, Repr, k, added);
      nodes, Contents, Repr := ring[..k + 1] + [added] + ring[k + 1..], Contents[..k] + [added.item.value] + Contents[k..], Repr + {added};
      Link(ring, k, after, added, before);
      size := size + 1;
    }

    /** The four link updates of `insert`: `added` goes between position k
        of the ring and its successor, which leaves the longer ring linked. */
    static method Link(ghost ring: seq<Node<T>>, ghost k: int, after: Node<T>, added: Node<T>, before: Node<T>)
      requires Linked(ring) && Distinct(ring) && 0 <= k < |ring| && added !in ring
      requires after == ring[k] && before == (if k + 1 < |ring| then ring[k + 1] else ring[0])
      modifies after, added, before
      ensures Linked(ring[..k + 1] + [added] + ring[k + 1..])
    {
      added.prev := after;
      added.next := before;
      after.next := added;
      before.prev := added;
      var r := ring[..k + 1] + [added] + ring[k + 1..];
      forall i | 0 <= i < |r| - 1
        ensures r[i].next == r[i + 1] && r[i + 1].prev == r[i]
      {
        if i < k {
          assert r[i] == ring[i] != after && r[i + 1] == ring[i + 1] != before;
        } else if k + 1 < i {
          assert r[i] == ring[i - 1] != after && r[i + 1] == ring[i] != before;
        }
      }
    }

    /** `remove(node)`, where `node` is position k of the ring: on an empty
        deque NoSuchElementException, otherwise element k - 1 is unlinked and
        returned. */
    method Remove(node: Node<T>, ghost k: int) returns (r: Result<T>)
      requires Valid() && 0 <= k < |nodes| && node == nodes[k] && (|nodes| > 1 ==> 1 <= k)
      modifies Repr
      ensures Valid() && Repr == old(Repr)
      ensures old(Contents) == [] ==> r == Err(NoSuchElement) && Contents == old(Contents)
      ensures old(Contents) != [] ==> r == Ok(old(Contents)[k - 1]) && Contents == old(Contents)[..k - 1] + old(Contents)[k..]
    {
      var empty := IsEmpty();
      if empty {
        return Err(NoSuchElement);
      }
      ghost var ring := nodes;
      var before, after := node.prev, node.next;
      assert before == ring[k - 1] && after == Successor(k);
      RemoveDistinct(ring, k);
      RemoveHolds(ring, Contents, k);
      RemoveWithin(ring, Repr, k);
      nodes, Contents := ring[..k] + ring[k + 1..], Contents[..k - 1] + Contents[k..];
      Unlink(ring, k, before, after);
      size := size - 1;
      return Ok(node.item.value);
    }

    /** The two link updates of `remove`: the node at position k of the ring
        is bypassed, which leaves the shorter ring linked. */
    static method Unlink(ghost ring: seq<Node<T>>, ghost k: int, before: Node<T>, after: Node<T>)
      requires Linked(ring) && Distinct(ring) && 1 <= k < |ring|
      requires before == ring[k - 1] && after == (if k + 1 < |ring| then ring[k + 1] else ring[0])
      modifies before, after
      ensures Linked(ring[..k] + ring[k + 1..])
    {
      before.next := after;
      after.prev := before;
      var r := ring[..k] + ring[k + 1..];
      forall i | 0 <= i < |r| - 1
        ensures r[i].next == r[i + 1] && r[i + 1].prev == r[i]
      {
        if i < k - 1 {
          assert r[i] == ring[i] != before && r[i + 1] == ring[i + 1] != after;
        } else if k - 1 < i {
          assert r[i] == ring[i + 1] != before && r[i + 1] == ring[i + 2] != after;
        }
      }
    }

    /** `addFirst(item)`. */
    method AddFirst(item: Option<T>) returns (o: Outcome)
      requires Valid()
      modifies Repr
      ensures Valid() && fresh(Repr - old(Repr))
      ensures item.None? ==> o == Fail(IllegalArgument) && Contents == old(Contents)
      ensures item.Some? ==> o == Pass && Contents == [item.value] + old(Contents)
    {
      assert master.next == Successor(0);
      o := Insert(item, master, master.next, 0);
    }

    /** `addLast(item)`. */
    method AddLast(item: Option<T>) returns (o: Outcome)
      requires Valid()
      modifies Repr
      ensures Valid() && fresh(Repr - old(Repr))
      ensures item.None? ==> o == Fail(IllegalArgument) && Contents == old(Contents)
      ensures item.Some? ==> o == Pass && Contents == old(Contents) + [item.value]
    {
      o := Insert(item, master.prev, master, |nodes| - 1);
      assert old(Contents)[..|old(Contents)|] == old(Contents);
    }

    /** `removeFirst()`. */
    method RemoveFirst() returns (r: Result<T>)
      requires Valid()
      modifies Repr
      ensures Valid() && Repr == old(Repr)
      ensures old(Contents) == [] ==> r == Err(NoSuchElement) && Contents == old(Contents)
      ensures old(Contents) != [] ==> r == Ok(old(Contents)[0]) && Contents == old(Contents)[1..]
    {
      assert master.next == Successor(0);
      r := Remove(master.next, if |nodes| > 1 then 1 else 0);
    }

    /** `removeLast()`. */
    method RemoveLast() returns (r: Result<T>)
      requires Valid()
      modifies Repr
      ensures Valid() && Repr == old(Repr)
      ensures old(Contents) == [] ==> r == Err(NoSuchElement) && Contents == old(Contents)
      ensures old(Contents) != [] ==> r == Ok(old(Contents)[|old(Contents)| - 1]) && Contents == old(Contents)[..|old(Contents)| - 1]
    {
      r := Remove(master.prev, |nodes| - 1);
      assert old(Contents)[|old(Contents)|..] == [];
    }

    /** `iterator()`. */
    method Iterator() returns (it: DequeIterator<T>)
      requires Valid()
      ensures fresh(it) && it.Valid() && it.deque == this && it.position == 0
    {
      it := new DequeIterator(this);
    }
  }

  /** `QueueIterator`: walks the ring from the sentinel's successor until it
      is back at the sentinel. */
  class DequeIterator<T> {
    const deque: Deque<T>
    var next: Node<T>
    /** How many items have been returned. */
    ghost var position: int

    ghost predicate Valid()
      reads this, deque, deque.Repr
    {
      deque.Valid() && 0 <= position <= |deque.Contents| && next == deque.Successor(position)
    }

    constructor(d: Deque<T>)
      requires d.Valid()
      ensures Valid() && deque == d && position == 0
    {
      deque := d;
      assert d.master.next == d.Successor(0);
      next := d.master.next;
      position := 0;
    }

    /** `hasNext()`: the walk has not reached the sentinel. */
    method HasNext() returns (b: bool)
      requires Valid()
      ensures b <==> position < |deque.Contents|
    {
      return next != deque.master;
    }

    /** `next()`: the item at the current position, or NoSuchElementException
        past the end. */
    method Next() returns (r: Result<T>)
      requires Valid()
      modifies this
      ensures Valid()
      ensures old(position) == |deque.Contents| ==> r == Err(NoSuchElement) && position == old(position)
      ensures old(position) < |deque.Contents| ==> r == Ok(deque.Contents[old(position)]) && position == old(position) + 1
    {
      var more := HasNext();
      if !more {
        return Err(NoSuchElement);
      }
      r := Ok(next.item.value);
      assert next.next == deque.Successor(position + 1);
      next := next.next;
      position := position + 1;
    }
  }

  /** The iteration check of the deque's own self-test: addLast(12),
      addLast(13), addFirst(11), then the iterator yields 11, 12, 13 and a
      fourth `next()` fails. */
  method IterationOrder() returns (first: Result<int>, second: Result<int>, third: Result<int>, fourth: Result<int>)
    ensures first == Ok(11) && second == Ok(12) && third == Ok(13) && fourth == Err(NoSuchElement)
  {
    var d := new Deque<int>();
    var o := d.AddLast(Some(12));
    o := d.AddLast(Some(13));
    o := d.AddFirst(Some(11));
    assert d.Contents == [11, 12, 13];
    var it := d.Iterator();
    first := it.Next();
    second := it.Next();
    third := it.Next();
    fourth := it.Next();
  }

  /** The add/remove checks of the self-test: one item added at either end
      comes back from either end and leaves the deque empty. */
  method AddThenRemove(x: int, front: bool, back: bool) returns (r: Result<int>, size: int)
    ensures r == Ok(x) && size == 0
  {
    var d := new Deque<int>();
    var o;
    if front {
      o := d.AddFirst(Some(x));
    } else {
      o := d.AddLast(Some(x));
    }
    if back {
      r := d.RemoveLast();
    } else {
      r := d.RemoveFirst();
    }
    size := d.Size();
  }
}
