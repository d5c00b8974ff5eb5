/** A point with integer coordinates from the collinear-points exercise: its
    natural order (by y, then by x) and its text form. */
module Point {
  import JavaText

  datatype Point = Point(x: int, y: int)

  /** `compareTo`: 0 for equal points, -1 when `p` is below `q` or level with it
      and to its left, +1 otherwise. */
  function CompareTo(p: Point, q: Point): (r: int)
    ensures r == -1 || r == 0 || r == 1
    ensures r == 0 <==> p == q
  {
    if p.x == q.x && p.y == q.y then 0
    else if p.y < q.y || (p.y == q.y && p.x < q.x) then -1
    else 1
  }

  /** The documented order: `p` is less than `q` iff y0 < y1, or y0 = y1 and x0 < x1. */
  lemma CompareToLess(p: Point, q: Point)
    ensures CompareTo(p, q) < 0 <==> p.y < q.y || (p.y == q.y && p.x < q.x)
    ensures CompareTo(p, q) > 0 <==> q.y < p.y || (q.y == p.y && q.x < p.x)
  {
  }

  lemma CompareToAntisymmetric(p: Point, q: Point)
    ensures CompareTo(p, q) == -CompareTo(q, p)
  {
  }

  lemma CompareToTransitive(p: Point, q: Point, r: Point)
    requires CompareTo(p, q) <= 0 && CompareTo(q, r) <= 0
    ensures CompareTo(p, r) <= 0
    ensures CompareTo(p, r) == 0 ==> p == q == r
  {
  }

  /** The checks the exercise runs against the point (1, 1). */
  lemma CompareToFixtures()
    ensures CompareTo(Point(1, 1), Point(1, 1)) == 0
    ensures CompareTo(Point(1, 1), Point(1, 3)) < 0
    ensures CompareTo(Point(1, 1), Point(1, -1)) > 0
    ensures CompareTo(Point(1, 1), Point(2, 1)) < 0
    ensures CompareTo(Point(1, 1), Point(0, 1)) > 0
    ensures CompareTo(Point(1, 1), Point(2, -1)) > 0
    ensures CompareTo(Point(1, 1), Point(-2, -1)) > 0
    ensures CompareTo(Point(1, 1), Point(2, 3)) < 0
    ensures CompareTo(Point(1, 1), Point(-2, 3)) < 0
  {
  }

  /** `toString`: "(x, y)". */
  function ToString(p: Point): (s: string)
    ensures |s| >= 6 && s[0] == '(' && s[|s| - 1] == ')'
  {
    "(" + JavaText.IntToString(p.x) + ", " + JavaText.IntToString(p.y) + ")"
  }

  /** Different points never print the same. */
  lemma {:induction false} ToStringInjective(p: Point, q: Point)
    requires ToString(p) == ToString(q)
    ensures p == q
  {
    var a, b := JavaText.IntToString(p.x), JavaText.IntToString(p.y);
    var c, d := JavaText.IntToString(q.x), JavaText.IntToString(q.y);
    NoComma(p.x);
    NoComma(q.x);
    Regroup(a, b);
    Regroup(c, d);
    Unwrap(a + [','] + (" " + b), c + [','] + (" " + d));
    SplitAtFirst(a, " " + b, c, " " + d);
    assert b == (" " + b)[1..] == (" " + d)[1..] == d;
    IntToStringInjective(p.x, q.x);
    IntToStringInjective(p.y, q.y);
  }

  lemma Regroup(a: string, b: string)
    ensures "(" + a + ", " + b + ")" == "(" + (a + [','] + (" " + b)) + ")"
  {
    assert ", " + b == [','] + (" " + b);
  }

  lemma Unwrap(x: string, y: string)
    requires "(" + x + ")" == "(" + y + ")"
    ensures x == y
  {
    var s := "(" + x + ")";
    assert x == s[1..|s| - 1] == y;
  }

  lemma NoComma(i: int)
    ensures ',' !in JavaText.IntToString(i)
  {
  }

  /** Two strings split at their first comma agree on both sides. */
  lemma SplitAtFirst(a: string, b: string, c: string, d: string)
    requires ',' !in a && ',' !in c
    requires a + [','] + b == c + [','] + d
    ensures a == c && b == d
  {
    var s := a + [','] + b;
    assert s[|a|] == ',' && s[|c|] == ',';
    assert a == s[..|a|] == c;
    assert b == s[|a| + 1..] == d;
  }

  lemma IntToStringInjective(i: int, j: int)
    requires JavaText.IntToString(i) == JavaText.IntToString(j)
    ensures i == j
  {
    var s := JavaText.IntToString(i);
    JavaText.DigitsRoundTrip(if i < 0 then -i else i);
    JavaText.DigitsRoundTrip(if j < 0 then -j else j);
    if i < 0 {
      assert s[1..] == JavaText.NatDigits(-i) == JavaText.NatDigits(-j);
    }
  }
}
