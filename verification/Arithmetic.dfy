/** Facts about products, quotients and remainders that the solver does not find by itself. */
module Arithmetic {
  function Min(a: int, b: int): int {
    if a < b then a else b
  }

  function Max(a: int, b: int): int {
    if a > b then a else b
  }

  lemma MulMonotonic(a: int, b: int, d: int)
    requires a <= b && 0 <= d
    ensures a * d <= b * d
  {
  }

  lemma MulStep(a: int, b: int)
    ensures a * (b + 1) == a * b + a
  {
  }

  lemma Distribute(a: int, b: int, d: int)
    ensures (a + b) * d == a * d + b * d
  {
  }

  lemma Associate(a: int, b: int, c: int)
    ensures a * b * c == a * (b * c) == b * (a * c)
  {
  }

  /** Quotient and remainder are the only ones. */
  lemma DivMod(q: nat, d: nat, r: nat)
    requires r < d
    ensures (q * d + r) / d == q && (q * d + r) % d == r
  {
    var a := q * d + r;
    var q', r' := a / d, a % d;
    assert a == q' * d + r';
    assert (q' - q) * d == q' * d - q * d;
    if q' > q {
      MulMonotonic(1, q' - q, d);
    } else if q' < q {
      MulMonotonic(1, q - q', d);
    }
  }

  lemma Parts(v: nat, d: nat)
    requires d >= 1
    ensures v / d >= 0 && 0 <= v % d < d && v == v / d * d + v % d
  {
  }

  /** A remainder by a product is that of the quotient, followed by that of the number. */
  lemma ModProduct(v: nat, b: nat, p: nat)
    requires b >= 1 && p >= 1
    ensures b * p >= 1 && (v / b % p) * b + v % b == v % (b * p) && v / b / p == v / (b * p)
  {
    Parts(v, b);
    Parts(v / b, p);
    ThreeDigits(v / b / p, p, v / b % p, b, v % b);
  }

  /** A number of three digits, the lower two of weight `b * p`. */
  lemma ThreeDigits(q: nat, p: nat, r: nat, b: nat, x: nat)
    requires r < p && x < b
    ensures b * p >= 1 && ((q * p + r) * b + x) / (b * p) == q && ((q * p + r) * b + x) % (b * p) == r * b + x
  {
    Weights(q, p, r, b, x);
    DivMod(q, b * p, r * b + x);
  }

  lemma Weights(q: nat, p: nat, r: nat, b: nat, x: nat)
    requires r < p && x < b
    ensures (q * p + r) * b + x == q * (b * p) + (r * b + x) && r * b + x < b * p
  {
    Distribute(q * p, r, b);
    Associate(q, p, b);
    MulMonotonic(r + 1, p, b);
    Distribute(r, 1, b);
  }
}
