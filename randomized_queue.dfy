/** The randomized queue of assignments/2-queues: a resizing array buffer
    `s` whose first `n` slots hold the items, with random removal by moving the
    last item into the hole and a Fisher-Yates shuffled iterator. Every draw of
    `StdRandom.uniform` is a caller-supplied index in the legal range; Java's
    `null` is `None`. */
module RandomizedQueues {
  import opened Wrappers

  /** `p` with the elements at a and b exchanged. */
  function Swap<X>(p: seq<X>, a: int, b: int): (r: seq<X>)
    requires 0 <= a < |p| && 0 <= b < |p|
    ensures |r| == |p| && r[a] == p[b] && r[b] == p[a]
    ensures forall t :: 0 <= t < |p| && t != a && t != b ==> r[t] == p[t]
  {
    p[a := p[b]][b := p[a]]
  }

  /** Legal draws for a Fisher-Yates pass over m elements: draw j, used when
      the pass is at position j, lies in [0, j]. */
  predicate LegalDraws(draws: seq<int>, m: int)
  {
    |draws| == m && forall j :: 0 < j < m ==> 0 <= draws[j] <= j
  }

  /** The Fisher-Yates pass of `shuffle` from position j down to 1: position j
      is exchanged with position draws[j]. */
  function Shuffled<X>(p: seq<X>, draws: seq<int>, j: int): (r: seq<X>)
    requires LegalDraws(draws, |p|) && -1 <= j < |p|
    ensures |r| == |p|
    decreases j
  {
    if j <= 0 then p else Shuffled(Swap(p, draws[j], j), draws, j - 1)
  }

  lemma SwapPermutes<X>(p: seq<X>, a: int, b: int)
    requires 0 <= a < |p| && 0 <= b < |p|
    ensures multiset(Swap(p, a, b)) == multiset(p)
  {
    if a != b {
      calc {
        multiset(Swap(p, a, b));
        multiset(p[a := p[b]]) - multiset{p[a := p[b]][b]} + multiset{p[a]};
        multiset(p) - multiset{p[a]} + multiset{p[b]} - multiset{p[b]} + multiset{p[a]};
      }
    }
  }

  /** The shuffle permutes its input. */
  lemma {:induction false} ShuffledPermutes<X>(p: seq<X>, draws: seq<int>, j: int)
    requires LegalDraws(draws, |p|) && -1 <= j < |p|
    ensures multiset(Shuffled(p, draws, j)) == multiset(p)
    decreases j
  {
    if j > 0 {
      SwapPermutes(p, draws[j], j);
      ShuffledPermutes(Swap(p, draws[j], j), draws, j - 1);
    }
  }

  /** Every element of p is an index below m. */
  predicate Indexes(p: seq<int>, m: int)
  {
    forall t :: 0 <= t < |p| ==> 0 <= p[t] < m
  }

  /** The items of c picked out by the indices p, in the order of p. */
  function Gather<X>(c: seq<X>, p: seq<int>): (r: seq<X>)
    requires Indexes(p, |c|)
    ensures |r| == |p| && forall t :: 0 <= t < |p| ==> r[t] == c[p[t]]
  {
    seq(|p|, t requires 0 <= t < |p| => c[p[t]])
  }

  /** 0, 1, ..., m - 1: the index array the iterator starts from. */
  function Range(m: nat): (r: seq<int>)
    ensures |r| == m && forall t :: 0 <= t < m ==> r[t] == t
  {
    seq(m, t => t)
  }

  /** Shuffling indices and then picking items is shuffling the items with
      the same draws. */
  lemma {:induction false} GatherShuffled<X>(c: seq<X>, p: seq<int>, draws: seq<int>, j: int)
    requires Indexes(p, |c|) && LegalDraws(draws, |p|) && -1 <= j < |p|
    ensures Indexes(Shuffled(p, draws, j), |c|)
    ensures Gather(c, Shuffled(p, draws, j)) == Shuffled(Gather(c, p), draws, j)
    decreases j
  {
    if j > 0 {
      var q := Swap(p, draws[j], j);
      assert Gather(c, q) == Swap(Gather(c, p), draws[j], j);
      GatherShuffled(c, q, draws, j - 1);
    }
  }

  /** The iterator's order: each item exactly once, in the order the same
      draws would shuffle the items themselves into. */
  lemma IteratorOrder<X>(c: seq<X>, draws: seq<int>)
    requires LegalDraws(draws, |c|)
    ensures Indexes(Shuffled(Range(|c|), draws, |c| - 1), |c|)
    ensures Gather(c, Shuffled(Range(|c|), draws, |c| - 1)) == Shuffled(c, draws, |c| - 1)
  {
    GatherShuffled(c, Range(|c|), draws, |c| - 1);
    GatherRange(c);
  }

  /** Picking every index in order gives the items back. */
  lemma GatherRange<X>(c: seq<X>)
    ensures Indexes(Range(|c|), |c|) && Gather(c, Range(|c|)) == c
  {
    assert Gather(c, Range(|c|)) == c;
  }

  /** `shuffle(indices)` with the draws given: a Fisher-Yates pass from the last
      position down to position 1. */
  method Shuffle(indices: array<int>, draws: seq<int>)
    requires LegalDraws(draws, indices.Length)
    modifies indices
    ensures indices[..] == Shuffled(old(indices[..]), draws, indices.Length - 1)
  {
    var j := indices.Length - 1;
    while j > 0
      invariant -1 <= j < indices.Length
      invariant Shuffled(indices[..], draws, j) == Shuffled(old(indices[..]), draws, indices.Length - 1)
    {
      var k := draws[j];
      ghost var before := indices[..];
      var previous := indices[k];
      indices[k] := indices[j];
      indices[j] := previous;
      assert indices[..] == Swap(before, k, j);
      j := j - 1;
    }
  }

  class RandomizedQueue<T> {
    var n: int
    var s: array<Option<T>>
    /** The items in slot order. */
    ghost var Contents: seq<T>

    /** The buffer holds at least one slot, the first n slots hold the items and
        the slots past n are null. */
    ghost predicate Valid()
      reads this, s
    {
      1 <= s.Length && 0 <= n <= s.Length && |Contents| == n
      && (forall j :: 0 <= j < n ==> s[j] == Some(Contents[j]))
      && (forall j :: n <= j < s.Length ==> s[j] == None)
    }

    /** `new RandomizedQueue()`: one null slot. */
    constructor()
      ensures Valid() && Contents == [] && s.Length == 1 && fresh(s)
    {
      n := 0;
      s := new Option<T>[1](_ => None);
      Contents := [];
    }

    /** `isEmpty()`. */
    method IsEmpty() returns (b: bool)
      requires Valid()
      ensures b <==> Contents == []
    {
      return n == 0;
    }

    /** `size()`. */
    method Size() returns (m: int)
      requires Valid()
      ensures m == |Contents|
    {
      return n;
    }

    /** `enqueue(item)`: null is rejected; a full buffer doubles first. */
    method Enqueue(item: Option<T>) returns (o: Outcome)
      requires Valid()
      modifies this, s
      ensures Valid() && (s == old(s) || fresh(s))
      ensures item.None? ==> o == Fail(IllegalArgument) && Contents == old(Contents) && s == old(s)
      ensures item.Some? ==> o == Pass && Contents == old(Contents) + [item.value]
      ensures item.Some? ==> s.Length == if old(n) == old(s.Length) then 2 * old(s.Length) else old(s.Length)
    {
      if item.None? {
        return Fail(IllegalArgument);
      }
      if n == s.Length {
        Resize(s.Length * 2);
      }
      s[n] := item;
      n := n + 1;
      Contents := Contents + [item.value];
      return Pass;
    }

    /** `dequeue()` with `choice` standing for `StdRandom.uniform(n)`, which
        rejects n = 0 with IllegalArgumentException: the chosen item is
        returned, the last item moves into its slot, and a buffer left a
        quarter full halves. */
    method Dequeue(choice: int) returns (r: Result<T>)
      requires Valid() && (n > 0 ==> 0 <= choice < n)
      modifies this, s
      ensures Valid() && (s == old(s) || fresh(s))
      ensures old(n) == 0 ==> r == Err(IllegalArgument) && Contents == old(Contents) && s == old(s)
      ensures old(n) > 0 ==> r == Ok(old(Contents)[choice])
      ensures old(n) > 0 ==> Contents == old(Contents)[choice := old(Contents)[old(n) - 1]][..old(n) - 1]
      ensures old(n) > 0 ==> multiset(Contents) == multiset(old(Contents)) - multiset{old(Contents)[choice]}
      ensures old(n) > 0 ==> s.Length == if n > 0 && n == old(s.Length) / 4 then old(s.Length) / 2 else old(s.Length)
    {
      if n == 0 {
        return Err(IllegalArgument);
      }
      var value := RemoveAt(choice);
      if n > 0 && n == s.Length / 4 {
        Resize(s.Length / 2);
      }
      return Ok(value);
    }

    /** The first half of `dequeue`: the item at `choice` is taken out and the
        last item moved into its slot. */
    method RemoveAt(choice: int) returns (value: T)
      requires Valid() && 0 <= choice < n
      modifies this, s
      ensures Valid() && s == old(s) && n == old(n) - 1 && value == old(Contents)[choice]
      ensures Contents == old(Contents)[choice := old(Contents)[old(n) - 1]][..old(n) - 1]
      ensures multiset(Contents) == multiset(old(Contents)) - multiset{old(Contents)[choice]}
    {
      ghost var c := Contents;
      MoveLastPermutes(c, choice);
      value := s[choice].value;
      n := n - 1;
      s[choice] := s[n];
      s[n] := None;
      Contents := c[choice := c[n]][..n];
      assert forall j :: 0 <= j < n ==> s[j] == Some(Contents[j]) by {
        forall j | 0 <= j < n
          ensures s[j] == Some(Contents[j])
        {
          if j != choice {
            assert s[j] == old(s[j]);
          }
        }
      }
    }

    /** `sample()` with `choice` standing for `StdRandom.uniform(n)`. */
    method Sample(choice: int) returns (r: Result<T>)
      requires Valid() && (n > 0 ==> 0 <= choice < n)
      ensures n == 0 ==> r == Err(IllegalArgument)
      ensures n > 0 ==> r == Ok(Contents[choice])
    {
      if n == 0 {
        return Err(IllegalArgument);
      }
      return Ok(s[choice].value);
    }

    /** `resize(capacity)`: a fresh buffer of the given size holding the
        first n items in order. */
    method Resize(capacity: int)
      requires Valid() && n <= capacity && 1 <= capacity
      modifies this
      ensures Valid() && fresh(s) && s.Length == capacity
      ensures n == old(n) && Contents == old(Contents) && s[..n] == old(s[..n])
    {
      var copy := new Option<T>[capacity](_ => None);
      var i := 0;
      while i < n
        invariant Valid() && n == old(n) && s == old(s) && Contents == old(Contents)
        invariant 0 <= i <= n
        invariant forall j :: 0 <= j < i ==> copy[j] == s[j]
        invariant forall j :: i <= j < capacity ==> copy[j] == None
      {
        copy[i] := s[i];
        i := i + 1;
      }
      s := copy;
    }

    /** `iterator()` with the draws of its shuffle. */
    method Iterator(draws: seq<int>) returns (it: RandomizedQueueIterator<T>)
      requires Valid() && LegalDraws(draws, |Contents|)
      ensures fresh(it) && fresh(it.indices) && it.Valid() && it.queue == this && it.i == 0
      ensures it.Order == Shuffled(Contents, draws, |Contents| - 1)
      ensures multiset(it.Order) == multiset(Contents)
    {
      it := new RandomizedQueueIterator(this, draws);
    }
  }

  /** Moving the last item into slot `choice` and dropping the last slot
      removes exactly the item that was at `choice`. */
  lemma MoveLastPermutes<X>(c: seq<X>, choice: int)
    requires 0 <= choice < |c|
    ensures multiset(c[choice := c[|c| - 1]][..|c| - 1]) == multiset(c) - multiset{c[choice]}
  {
    var m := |c| - 1;
    var d := c[choice := c[m]];
    assert d == d[..m] + [c[m]];
    assert multiset(d) == multiset(d[..m]) + multiset{c[m]};
    assert c == c[..choice] + [c[choice]] + c[choice + 1..];
    assert d == c[..choice] + [c[m]] + c[choice + 1..];
    assert multiset(d) == multiset(c) - multiset{c[choice]} + multiset{c[m]};
  }

  /** The first loop of the iterator's constructor: slot indices 0 .. n - 1. */
  method Identity(n: nat) returns (a: array<int>)
    ensures fresh(a) && a[..] == Range(n)
  {
    a := new int[n];
    var k := 0;
    while k < n
      invariant 0 <= k <= n
      invariant forall t :: 0 <= t < k ==> a[t] == t
    {
      a[k] := k;
      k := k + 1;
    }
  }

  /** `RandomizedQueueIterator`: a shuffled array of slot indices and a
      cursor. */
  class RandomizedQueueIterator<T> {
    const queue: RandomizedQueue<T>
    const indices: array<int>
    var i: int
    /** The items in the order this iterator yields them. */
    ghost const Order: seq<T>

    ghost predicate Valid()
      reads this, indices, queue, queue.s
    {
      queue.Valid() && indices.Length == queue.n && 0 <= i <= queue.n
      && Indexes(indices[..], queue.n)
      && Order == Gather(queue.Contents, indices[..])
    }

    /** The constructor: indices 0 .. n - 1, then shuffled. */
    constructor(q: RandomizedQueue<T>, draws: seq<int>)
      requires q.Valid() && LegalDraws(draws, |q.Contents|)
      ensures Valid() && queue == q && i == 0 && fresh(indices)
      ensures Order == Shuffled(q.Contents, draws, |q.Contents| - 1)
      ensures multiset(Order) == multiset(q.Contents)
    {
      queue := q;
      var a := Identity(q.n);
      indices := a;
      Shuffle(a, draws);
      IteratorOrder(q.Contents, draws);
      ShuffledPermutes(q.Contents, draws, |q.Contents| - 1);
      Order := Gather(q.Contents, a[..]);
      i := 0;
    }

    /** `hasNext()`. */
    method HasNext() returns (b: bool)
      requires Valid()
      ensures b <==> i < |Order|
    {
      return i < queue.n;
    }

    /** `next()`: the next item in `Order`, or NoSuchElementException at the
        end. */
    method Next() returns (r: Result<T>)
      requires Valid()
      modifies this
      ensures Valid()
      ensures old(i) == |Order| ==> r == Err(NoSuchElement) && i == old(i)
      ensures old(i) < |Order| ==> r == Ok(Order[old(i)]) && i == old(i) + 1
    {
      if i == queue.n {
        return Err(NoSuchElement);
      }
      r := Ok(queue.s[indices[i]].value);
      i := i + 1;
    }
  }

  /** The "enqueue dequeue" check of the self-test: a single item comes back
      and leaves the queue empty. */
  method EnqueueDequeue(x: int) returns (r: Result<int>, empty: bool)
    ensures r == Ok(x) && empty
  {
    var q := new RandomizedQueue<int>();
    var o := q.Enqueue(Some(x));
    r := q.Dequeue(0);
    empty := q.IsEmpty();
  }
}
