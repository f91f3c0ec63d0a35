/** Powers of two and of the 64-bit limb base, with the few facts of integer division the project needs. */
module Powers {

  function Pow2(n: nat): (r: nat)
    ensures r > 0
  {
    if n == 0 then 1 else 2 * Pow2(n - 1)
  }

  lemma {:induction false} Pow2Add(a: nat, b: nat)
    ensures Pow2(a + b) == Pow2(a) * Pow2(b)
  {
    if a > 0 {
      Pow2Add(a - 1, b);
      assert Pow2(a + b) == 2 * Pow2(a - 1 + b);
    }
  }

  lemma Pow2Monotone(a: nat, b: nat)
    requires a <= b
    ensures Pow2(a) <= Pow2(b)
  {
    Pow2Add(a, b - a);
    MulGrows(Pow2(a), Pow2(b - a));
  }

  lemma Pow2StrictlyMonotone(a: nat, b: nat)
    requires a < b
    ensures 2 * Pow2(a) <= Pow2(b)
  {
    Pow2Monotone(a + 1, b);
  }

  lemma MulGrows(a: nat, b: nat)
    requires b >= 1
    ensures a <= a * b
  {
  }

  lemma MulMonotone(a: int, b: int, k: int)
    requires a <= b && k >= 0
    ensures a * k <= b * k
  {
  }

  lemma MulStrict(a: int, b: int, k: int)
    requires a < b && k > 0
    ensures a * k < b * k
  {
  }

  lemma MulCancel(a: int, b: int, k: int)
    requires k > 0 && a * k == b * k
    ensures a == b
  {
  }

  /** The floor quotient, by repeated subtraction: it is characterized by its two inequalities alone. */
  function Quotient(n: nat, d: nat): (q: nat)
    requires d > 0
    ensures q * d <= n < q * d + d
  {
    if n < d then 0 else
      var q := Quotient(n - d, d);
      assert (q + 1) * d == q * d + d;
      q + 1
  }

  lemma QuotientUnique(n: nat, d: nat, q: nat)
    requires d > 0 && q * d <= n < q * d + d
    ensures Quotient(n, d) == q
  {
    var q' := Quotient(n, d);
    if q < q' {
      MulMonotone(q + 1, q', d);
    } else if q' < q {
      MulMonotone(q' + 1, q, d);
    }
  }

  /** n << k */
  function ShiftLeft(n: nat, k: nat): nat
    decreases k
  {
    if k == 0 then n else ShiftLeft(2 * n, k - 1)
  }

  /** n >> k */
  function ShiftRight(n: nat, k: nat): nat {
    if k == 0 then n else ShiftRight(n / 2, k - 1)
  }

  lemma {:induction false} ShiftLeftIsProduct(n: nat, k: nat)
    ensures ShiftLeft(n, k) == n * Pow2(k)
    decreases k
  {
    if k > 0 {
      ShiftLeftIsProduct(2 * n, k - 1);
    }
  }

  lemma {:induction false} ShiftRightExact(n: nat, k: nat)
    ensures ShiftRight(n * Pow2(k), k) == n
  {
    if k > 0 {
      assert n * Pow2(k) == 2 * (n * Pow2(k - 1));
      ShiftRightExact(n, k - 1);
    }
  }

  function Max(a: int, b: int): int {
    if a >= b then a else b
  }

  function Min(a: int, b: int): int {
    if a <= b then a else b
  }

  lemma Commute(a: int, b: int)
    ensures a * b == b * a
  {
  }

  lemma CommuteReal(a: real, b: real)
    ensures a * b == b * a
  {
  }

  lemma DifferenceOfSquares(u: real, v: real, d: real, s: real)
    requires d == u - v && s == u + v
    ensures u * u - v * v == d * s
  {
  }

  lemma PositiveProduct(a: real, b: real)
    requires a > 0.0 && b > 0.0
    ensures a * b > 0.0
  {
  }

  lemma SquaresOrdered(u: nat, v: nat)
    ensures u < v <==> u * u < v * v
    ensures u == v <==> u * u == v * v
  {
    if u < v {
      assert u * u <= u * v;
      assert u * v < v * v;
    } else if v < u {
      assert v * v <= v * u;
      assert v * u < u * u;
    }
  }

  /** Euclid's characterization of quotient and remainder. */
  lemma DivUnique(n: int, d: int, q: int, r: int)
    requires d > 0 && n == q * d + r && 0 <= r < d
    ensures n / d == q && n % d == r
  {
    var q', r' := n / d, n % d;
    assert n == q' * d + r';
    if q < q' {
      MulMonotone(q + 1, q', d);
    } else if q' < q {
      MulMonotone(q' + 1, q, d);
    }
  }
}
