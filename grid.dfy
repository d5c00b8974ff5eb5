/** Row-major flattening of an n-by-n grid of cells, shared by the puzzle board
    and the percolation grid: cell (r, c) lives at index r * n + c.

    The product is spelled out as repeated addition (`Mul`) so that code walking
    the grid row by row only ever needs the step `Mul(r + 1, n) == Mul(r, n) + n`;
    `MulIsProduct` connects it to `*` inside the few lemmas below that divide. */
module Grid {

  function Mul(a: nat, k: nat): nat
  {
    if a <= 0 then 0 else Mul(a - 1, k) + k
  }

  lemma {:induction false} MulIsProduct(a: nat, k: nat)
    ensures Mul(a, k) == a * k
  {
    if a > 0 {
      MulIsProduct(a - 1, k);
    }
  }

  /** Number of cells of an n-by-n grid. */
  function Area(n: nat): nat { Mul(n, n) }

  /** Flat index of cell (r, c). */
  function Index(n: nat, r: nat, c: nat): nat { Mul(r, n) + c }

  lemma MulLe(a: nat, b: nat, k: nat)
    requires a <= b
    ensures a * k <= b * k
  {
  }

  /** A cell of the grid lands inside the flat array. */
  lemma IndexInRange(n: nat, r: nat, c: nat)
    requires r < n && c < n
    ensures Index(n, r, c) < Area(n)
  {
    MulIsProduct(r, n);
    MulIsProduct(n, n);
    MulLe(r + 1, n, n);
  }

  /** Positions up to the end of the last row stay within the grid. */
  lemma IndexAtMost(n: nat, r: nat, c: nat)
    requires r < n && c <= n
    ensures Index(n, r, c) <= Area(n)
  {
    MulIsProduct(r, n);
    MulIsProduct(n, n);
    MulLe(r + 1, n, n);
  }

  /** The end of row r is the start of row r + 1, still within the grid. */
  lemma RowEnd(n: nat, r: nat)
    requires r < n
    ensures Index(n, r, n) == Index(n, r + 1, 0) <= Area(n)
  {
    IndexAtMost(n, r, n);
  }

  /** Row and column are recovered from the flat index. */
  lemma IndexRowCol(n: nat, r: nat, c: nat)
    requires c < n
    ensures Index(n, r, c) / n == r && Index(n, r, c) % n == c
  {
    MulIsProduct(r, n);
    DivUnique(r * n + c, n, r, c);
  }

  /** Euclidean division has only one quotient and remainder. */
  lemma DivUnique(i: nat, n: nat, q: nat, m: nat)
    requires m < n && i == q * n + m
    ensures i / n == q && i % n == m
  {
    var q', m' := i / n, i % n;
    if q' > q {
      MulLe(q + 1, q', n);
    } else if q' < q {
      MulLe(q' + 1, q, n);
    }
  }

  /** The flat index is rebuilt from its row and column. */
  lemma RowColIndex(n: nat, i: nat)
    requires n > 0
    ensures Index(n, i / n, i % n) == i
  {
    MulIsProduct(i / n, n);
  }

  /** A flat index inside the grid has its row below n. */
  lemma RowInRange(n: nat, i: nat)
    requires n > 0 && i < Area(n)
    ensures i / n < n
  {
    MulIsProduct(n, n);
    if i / n >= n {
      MulLe(n, i / n, n);
    }
  }

  /** The cell one row below a flat index i, when there is one, is in the next
      row and the same column. */
  lemma NextRow(n: nat, i: nat)
    requires n > 0 && i + n < Area(n)
    ensures i / n + 1 < n && Index(n, i / n + 1, i % n) == i + n
  {
    RowColIndex(n, i);
    assert Mul(i / n + 1, n) == Mul(i / n, n) + n;
    IndexRowCol(n, i / n + 1, i % n);
    RowInRange(n, i + n);
  }

  /** Distinct cells have distinct indices. */
  lemma IndexInjective(n: nat, r1: nat, c1: nat, r2: nat, c2: nat)
    requires c1 < n && c2 < n
    requires Index(n, r1, c1) == Index(n, r2, c2)
    ensures r1 == r2 && c1 == c2
  {
    IndexRowCol(n, r1, c1);
    IndexRowCol(n, r2, c2);
  }
}
