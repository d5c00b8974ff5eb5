/** `Outcast.outcast` of assignments/p2-1-wordnet/src/Outcast.java: the noun
    whose distances to all the others add up to the most. The WordNet
    distance is a parameter, and the `IllegalArgumentException` it throws
    for an unknown noun is its `Err`. */
module Outcasts {
  import opened Wrappers

  /** The distance between nouns a and b, or 0 where the call fails (the
      totals only matter when none fails). */
  function Dist(nouns: seq<string>, distance: (string, string) -> Result<int>, a: int, b: int): int
    requires 0 <= a < |nouns| && 0 <= b < |nouns|
  {
    var r := distance(nouns[a], nouns[b]);
    if r.Ok? then r.value else 0
  }

  /** Every call `outcast` makes succeeds: one per pair, the earlier noun
      first. */
  predicate AllDefined(nouns: seq<string>, distance: (string, string) -> Result<int>)
  {
    forall a, b :: 0 <= a < b < |nouns| ==> distance(nouns[a], nouns[b]).Ok?
  }

  /** Sum over k < j of the cached distance from noun k to noun i. */
  function Before(nouns: seq<string>, distance: (string, string) -> Result<int>, i: int, j: int): int
    requires 0 <= j <= i < |nouns|
  {
    if j == 0 then 0 else Before(nouns, distance, i, j - 1) + Dist(nouns, distance, j - 1, i)
  }

  /** Sum over i < k < j of the distance from noun i to noun k. */
  function After(nouns: seq<string>, distance: (string, string) -> Result<int>, i: int, j: int): int
    requires 0 <= i < j <= |nouns|
  {
    if j == i + 1 then 0 else After(nouns, distance, i, j - 1) + Dist(nouns, distance, i, j - 1)
  }

  /** The total `d` of noun i: the earlier nouns' distances read from the
      cache, then the later ones computed. */
  function Total(nouns: seq<string>, distance: (string, string) -> Result<int>, i: int): int
    requires 0 <= i < |nouns|
  {
    Before(nouns, distance, i, i) + After(nouns, distance, i, |nouns|)
  }

  /** Sum over k < j, k != i, of the distance from noun i to noun k: the
      total as the assignment states it. */
  function Row(nouns: seq<string>, distance: (string, string) -> Result<int>, i: int, j: int): int
    requires 0 <= i < |nouns| && 0 <= j <= |nouns|
  {
    if j == 0 then 0
    else Row(nouns, distance, i, j - 1) + (if j - 1 == i then 0 else Dist(nouns, distance, i, j - 1))
  }

  predicate Symmetric(nouns: seq<string>, distance: (string, string) -> Result<int>)
  {
    forall a, b :: 0 <= a < |nouns| && 0 <= b < |nouns| ==> Dist(nouns, distance, a, b) == Dist(nouns, distance, b, a)
  }

  /** With a symmetric distance, reading the earlier distances from the
      cache gives the plain sum of distances to every other noun. */
  lemma {:induction false} TotalIsRow(nouns: seq<string>, distance: (string, string) -> Result<int>, i: int)
    requires 0 <= i < |nouns| && Symmetric(nouns, distance)
    ensures Total(nouns, distance, i) == Row(nouns, distance, i, |nouns|)
  {
    BeforeIsRow(nouns, distance, i, i);
    AfterIsRow(nouns, distance, i, |nouns|);
  }

  lemma {:induction false} BeforeIsRow(nouns: seq<string>, distance: (string, string) -> Result<int>, i: int, j: int)
    requires 0 <= j <= i < |nouns| && Symmetric(nouns, distance)
    ensures Before(nouns, distance, i, j) == Row(nouns, distance, i, j)
    decreases j
  {
    if j > 0 {
      BeforeIsRow(nouns, distance, i, j - 1);
    }
  }

  lemma {:induction false} AfterIsRow(nouns: seq<string>, distance: (string, string) -> Result<int>, i: int, j: int)
    requires 0 <= i < j <= |nouns|
    ensures After(nouns, distance, i, j) == Row(nouns, distance, i, j) - Row(nouns, distance, i, i + 1)
    decreases j
  {
    if j > i + 1 {
      AfterIsRow(nouns, distance, i, j - 1);
    }
  }

  /** Noun k is the outcast: its total is not negative, no total is larger,
      and every earlier total is smaller. */
  predicate IsOutcast(nouns: seq<string>, distance: (string, string) -> Result<int>, k: int)
  {
    0 <= k < |nouns| && Total(nouns, distance, k) >= 0
    && (forall i :: 0 <= i < |nouns| ==> Total(nouns, distance, i) <= Total(nouns, distance, k))
    && (forall i :: 0 <= i < k ==> Total(nouns, distance, i) < Total(nouns, distance, k))
  }

  /** The number of distance calls made by the first i rows. */
  function Calls(n: int, i: int): int
    requires 0 <= i <= n
  {
    if i == 0 then 0 else Calls(n, i - 1) + (n - i)
  }

  lemma {:induction false} CallsTriangle(n: int, i: int)
    requires 0 <= i <= n
    ensures 2 * Calls(n, i) == i * (2 * n - i - 1)
    decreases i
  {
    if i > 0 {
      CallsTriangle(n, i - 1);
    }
  }

  /** `outcast(nouns)`: null or empty input is rejected; a failing distance
      call ends it with that call's error; otherwise the result is the first
      noun of largest total, or null when every total is negative. Each pair
      is measured once: N(N-1)/2 calls. */
  method Outcast(nouns: Option<seq<string>>, distance: (string, string) -> Result<int>) returns (r: Result<Option<string>>, ghost calls: int)
    ensures r.Err? <==> nouns.None? || |nouns.value| == 0 || !AllDefined(nouns.value, distance)
    ensures nouns.None? || |nouns.value| == 0 ==> r == Err(IllegalArgument)
    ensures r.Err? && nouns.Some? && |nouns.value| > 0 ==>
      exists a, b :: 0 <= a < b < |nouns.value| && distance(nouns.value[a], nouns.value[b]) == Err(r.error)
    ensures r.Ok? ==> 2 * calls == |nouns.value| * (|nouns.value| - 1)
    ensures r.Ok? ==> (r.value.None? <==> forall i :: 0 <= i < |nouns.value| ==> Total(nouns.value, distance, i) < 0)
    ensures r.Ok? && r.value.Some? ==> exists k :: IsOutcast(nouns.value, distance, k) && r.value.value == nouns.value[k]
  {
    calls := 0;
    if nouns.None? || |nouns.value| == 0 {
      return Err(IllegalArgument), calls;
    }
    var ns := nouns.value;
    var n := |ns|;
    var cache := new int[n, n]((_, _) => 0);
    var maxD := -1;
    var maxNoun: Option<string> := None;
    ghost var k := -1;
    var i := 0;
    while i < n
      invariant 0 <= i <= n && cache.Length0 == n && cache.Length1 == n
      invariant forall a, b :: 0 <= b < i && b < a < n ==> cache[a, b] == Dist(ns, distance, b, a)
      invariant forall a, b :: 0 <= a < i && a < b < n ==> distance(ns[a], ns[b]).Ok?
      invariant calls == Calls(n, i)
      invariant maxNoun.None? ==> maxD == -1 && forall a :: 0 <= a < i ==> Total(ns, distance, a) < 0
      invariant maxNoun.Some? ==> 0 <= k < i && maxNoun.value == ns[k] && maxD == Total(ns, distance, k) >= 0
      invariant maxNoun.Some? ==> forall a :: 0 <= a < i ==> Total(ns, distance, a) <= maxD
      invariant maxNoun.Some? ==> forall a :: 0 <= a < k ==> Total(ns, distance, a) < maxD
    {
      var d := RowTotal(ns, distance, cache, i);
      if d.Err? {
        return Err(d.error), calls;
      }
      calls := calls + (n - 1 - i);
      if d.value > maxD {
        maxD, maxNoun := d.value, Some(ns[i]);
        k := i;
      }
      i := i + 1;
    }
    CallsTriangle(n, n);
    if maxNoun.Some? {
      assert IsOutcast(ns, distance, k);
    }
    return Ok(maxNoun), calls;
  }

  /** The body of the outer loop for noun i: add the cached distances from
      the earlier nouns, then measure the later ones, caching each. */
  method RowTotal(ns: seq<string>, distance: (string, string) -> Result<int>, cache: array2<int>, i: int) returns (d: Result<int>)
    requires 0 <= i < |ns| == cache.Length0 == cache.Length1
    requires forall a, b :: 0 <= b < i && b < a < |ns| ==> cache[a, b] == Dist(ns, distance, b, a)
    modifies cache
    ensures d.Ok? <==> forall b :: i < b < |ns| ==> distance(ns[i], ns[b]).Ok?
    ensures d.Err? ==> exists b :: i < b < |ns| && distance(ns[i], ns[b]) == Err(d.error)
    ensures d.Ok? ==> d.value == Total(ns, distance, i)
    ensures d.Ok? ==> forall a, b :: 0 <= b <= i && b < a < |ns| ==> cache[a, b] == Dist(ns, distance, b, a)
  {
    var total := 0;
    var j := 0;
    while j < i
      invariant 0 <= j <= i && total == Before(ns, distance, i, j)
    {
      total := total + cache[i, j];
      j := j + 1;
    }
    j := i + 1;
    while j < |ns|
      invariant i + 1 <= j <= |ns| && total == Before(ns, distance, i, i) + After(ns, distance, i, j)
      invariant forall a, b :: 0 <= b < i && b < a < |ns| ==> cache[a, b] == Dist(ns, distance, b, a)
      invariant forall a :: i < a < j ==> cache[a, i] == Dist(ns, distance, i, a)
      invariant forall b :: i < b < j ==> distance(ns[i], ns[b]).Ok?
    {
      var dist := distance(ns[i], ns[j]);
      if dist.Err? {
        return Err(dist.error);
      }
      cache[j, i] := dist.value;
      total := total + dist.value;
      j := j + 1;
    }
    return Ok(total);
  }
}
