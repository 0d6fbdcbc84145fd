/** Facts about integer division and multiplication that the solver does
    not find by itself. */
module Arith {

  /** x / b is the q with q*b <= x < (q+1)*b. */
  lemma DivIs(x: nat, b: nat, q: nat)
    requires b > 0 && q * b <= x < q * b + b
    ensures x / b == q
  {
    var d := x / b;
    assert d * b <= x < d * b + b;
    MulLe(d + 1, q, b);
    MulLe(q + 1, d, b);
  }

  lemma DivMono(x: nat, y: nat, b: nat)
    requires b > 0 && x <= y
    ensures x / b <= y / b
  {
    MulLe(y / b + 1, x / b, b);
  }

  /** Multiplying by a non-negative number keeps the order. */
  lemma MulLe(a: nat, b: nat, c: nat)
    ensures a <= b ==> a * c <= b * c
  {
  }

  /** Squares grow with their sides. */
  lemma SquareMono(a: nat, b: nat)
    requires a * a >= b * b
    ensures a >= b
  {
    if a < b {
      MulLe(a, b, a);
      MulLe(a, b, b);
    }
  }
}
