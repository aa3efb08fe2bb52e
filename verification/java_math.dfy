/**
 * Java's integer division on `long`, which truncates toward zero, unlike
 * Dafny's Euclidean `/`.
 */
module JavaMath {
  /** `a / b` for a positive divisor, rounded toward zero. */
  function Div(a: int, b: int): (q: int)
    requires b > 0
    ensures a >= 0 ==> 0 <= q && q * b <= a < (q + 1) * b
    ensures a < 0 ==> q <= 0 && (q - 1) * b < a <= q * b
  {
    if a >= 0 then
      FloorBounds(a, b);
      a / b
    else
      FloorBounds(-a, b);
      NegatedBounds((-a) / b, b);
      -((-a) / b)
  }

  lemma FloorBounds(a: nat, b: int)
    requires b > 0
    ensures 0 <= a / b && (a / b) * b <= a < (a / b + 1) * b
  {
    var q, r := a / b, a % b;
    assert a == q * b + r;
    assert (q + 1) * b == q * b + b;
  }

  lemma NegatedBounds(p: int, b: int)
    ensures (-p - 1) * b == -((p + 1) * b) && (-p) * b == -(p * b)
  {
  }
}
