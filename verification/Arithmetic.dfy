/** Facts about products and quotients that the solver needs one at a time. */
module Arithmetic {
  lemma MulMono(d: nat, x: int, y: int)
    requires x <= y
    ensures d * x <= d * y
  {
  }

  lemma Minus(x: int, y: int, z: int)
    ensures x * (y - z) == x * y - x * z
  {
  }

  lemma Cancel(u: nat, x: int, y: int)
    requires u * x < u * y
    ensures x < y
  {
    if x >= y { MulMono(u, y, x); }
  }

  lemma FloorBounds(n: nat, d: nat)
    requires d > 0
    ensures d * (n / d) <= n < d * (n / d + 1)
  {
  }

  lemma DivUnique(x: nat, d: nat, q: nat, r: nat)
    requires d > 0 && r < d && x == d * q + r
    ensures x / d == q && x % d == r
  {
    var p := x / d;
    FloorBounds(x, d);
    if p < q { MulMono(d, p + 1, q); }
    if q < p { MulMono(d, q + 1, p); }
  }

  /** Multiples of d that differ are at least d apart. */
  lemma MultiplesApart(d: nat, a: int, b: int)
    requires d * a < d * b
    ensures d * a + d <= d * b
  {
    Cancel(d, a, b);
    MulMono(d, a + 1, b);
  }
}
