/** Java's `int` operators where they differ from Dafny's: `/` and `%` truncate
    toward zero, while Dafny's are Euclidean. */
module JavaInt {

  const INT_MIN: int := -0x8000_0000
  const INT_MAX: int := 0x7FFF_FFFF

  predicate InRange(x: int) { INT_MIN <= x <= INT_MAX }

  function Abs(x: int): (r: nat)
    ensures r == x || r == -x
  {
    if x < 0 then -x else x
  }

  /** Java `a / b`: the quotient rounded toward zero. */
  function Div(a: int, b: int): (q: int)
    requires b != 0
    ensures q == 0 || (q < 0 <==> (a < 0) != (b < 0))
    ensures a >= 0 && b > 0 ==> q == a / b
  {
    var q0 := Abs(a) / Abs(b);
    NatDivBounds(Abs(a), Abs(b));
    if (a < 0) == (b < 0) then q0 else -q0
  }

  lemma NatDivBounds(x: nat, y: nat)
    requires y > 0
    ensures x / y >= 0 && (x / y) * y <= x < (x / y) * y + y
  {
  }

  /** Java `a % b`: the magnitude is |a| mod |b| and the sign is that of `a`. */
  function Rem(a: int, b: int): (r: int)
    requires b != 0
    ensures Abs(r) < Abs(b)
    ensures r == 0 || (r < 0 <==> a < 0)
    ensures a >= 0 && b > 0 ==> r == a % b
  {
    if a < 0 then -(Abs(a) % Abs(b)) else Abs(a) % Abs(b)
  }

  /** The quotient is `a / b` rounded toward zero: its magnitude is the largest
      multiple of |b| not above |a|. */
  lemma DivBounds(a: int, b: int)
    requires b != 0
    ensures Abs(Div(a, b)) * Abs(b) <= Abs(a) < Abs(Div(a, b)) * Abs(b) + Abs(b)
  {
    NatDivBounds(Abs(a), Abs(b));
  }

  lemma NatDivMod(x: nat, y: nat)
    requires y > 0
    ensures x == (x / y) * y + x % y
  {
  }

  lemma MulSigns(q: int, y: int)
    ensures (-q) * y == -(q * y) && q * (-y) == -(q * y) && (-q) * (-y) == q * y
  {
  }

  /** Quotient and remainder rebuild the dividend, as Java guarantees. */
  lemma DivRem(a: int, b: int)
    requires b != 0
    ensures Div(a, b) * b + Rem(a, b) == a
  {
    var x, y := Abs(a), Abs(b);
    NatDivMod(x, y);
    MulSigns(x / y, y);
  }
}
