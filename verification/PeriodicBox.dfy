/** Whole turns of a box, over the reals. */
module PeriodicBox {

  lemma ScaledQuotient(x: real, k: real)
    requires k > 0.0
    ensures k * (x / k) == x
  {
  }

  lemma ScaleOrder(a: real, b: real, k: real)
    requires k > 0.0
    ensures a < b ==> k * a < k * b
    ensures a <= b ==> k * a <= k * b
  {
  }

  lemma PositiveQuotient(a: real, b: real)
    requires a > 0.0 && b > 0.0
    ensures a / b > 0.0
  {
  }

  lemma Cancel(k: real, u: real, v: real)
    requires k > 0.0 && k * u == k * v
    ensures u == v
  {
    ScaleOrder(u, v, k);
    ScaleOrder(v, u, k);
  }

  /** What is left of x after taking out k as often as an integer near the quotient says. */
  lemma Remains(x: real, k: real, q: real, t: real)
    requires k > 0.0 && k * q == x
    ensures t <= q < t + 1.0 ==> 0.0 <= x - k * t < k
    ensures t - 1.0 < q <= t ==> -k < x - k * t <= 0.0
  {
    NextMultiple(k, t);
    ProductOrder(k, t, q, k * t, x);
    ProductOrder(k, q, t, x, k * t);
    ProductOrder(k, q, t + 1.0, x, k * t + k);
    ProductOrder(k, t - 1.0, q, k * t - k, x);
  }

  lemma ProductOrder(k: real, a: real, b: real, ka: real, kb: real)
    requires k > 0.0 && ka == k * a && kb == k * b
    ensures a < b ==> ka < kb
    ensures a <= b ==> ka <= kb
  {
    ScaleOrder(a, b, k);
  }

  lemma NextMultiple(k: real, t: real)
    ensures k * (t + 1.0) == k * t + k && k * (t - 1.0) == k * t - k
  {
  }

  lemma Fraction(x: real, k: real, q: real, t: real, d: real)
    requires k * q == x && d == q - t
    ensures x - k * t == k * d
  {
    assert k * q - k * t == k * (q - t);
  }

  /** A whole number of turns of the box. */
  ghost function Turns(box: real, k: int): real
    decreases if k < 0 then -k else k
  {
    if k == 0 then 0.0 else if k > 0 then Turns(box, k - 1) + box else Turns(box, k + 1) - box
  }

  lemma {:induction false} TurnsIsProduct(box: real, k: int)
    ensures Turns(box, k) == box * (k as real)
    decreases if k < 0 then -k else k
  {
    if k > 0 {
      TurnsIsProduct(box, k - 1);
      NextProduct(box, k - 1);
    } else if k < 0 {
      TurnsIsProduct(box, k + 1);
      NextProduct(box, k);
    }
  }

  lemma NextProduct(box: real, k: int)
    ensures box * ((k + 1) as real) == box * (k as real) + box
  {
    assert (k + 1) as real == k as real + 1.0;
  }

  lemma PreviousTurn(box: real, k: int)
    ensures Turns(box, k) == Turns(box, k - 1) + box
  {
  }

  lemma {:induction false} TurnsSubtract(box: real, a: int, b: int)
    ensures Turns(box, a - b) == Turns(box, a) - Turns(box, b)
    decreases if b < 0 then -b else b
  {
    if b > 0 {
      TurnsSubtract(box, a, b - 1);
      PreviousTurn(box, a - b + 1);
    } else if b < 0 {
      TurnsSubtract(box, a, b + 1);
      PreviousTurn(box, a - b);
    }
  }

  lemma {:induction false} TurnsGrow(box: real, k: int)
    requires box > 0.0
    ensures k > 0 ==> Turns(box, k) >= box
    ensures k < 0 ==> Turns(box, k) <= -box
    decreases if k < 0 then -k else k
  {
    if k > 1 {
      TurnsGrow(box, k - 1);
    } else if k < -1 {
      TurnsGrow(box, k + 1);
    }
  }

  lemma TurnsOrder(box: real, a: int, b: int)
    requires box > 0.0
    ensures a <= b ==> Turns(box, a) <= Turns(box, b)
    ensures a < b ==> Turns(box, a) < Turns(box, b)
  {
    TurnsSubtract(box, b, a);
    TurnsGrow(box, b - a);
  }

  /** The floor of a quotient, as a position between two multiples of the divisor. */
  lemma FloorInTurns(x: real, step: real)
    requires step > 0.0
    ensures Turns(step, (x / step).Floor) <= x < Turns(step, (x / step).Floor + 1)
  {
    var f := (x / step).Floor;
    ScaledQuotient(x, step);
    Remains(x, step, x / step, f as real);
    TurnsIsProduct(step, f);
    PreviousTurn(step, f + 1);
  }
}
