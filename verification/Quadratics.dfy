/** One quadratic W*c*c - 2*c*S + Q over the reals: its value by vertex, and sums of quadratics. */
module Quadratics {
  import opened Powers
  import opened Collections

  ghost function Quadratic(w: int, s: int, q: int, c: real): real {
    q as real - 2.0 * c * s as real + c * c * w as real
  }

  ghost function Mean(w: int, s: int): real
    requires w > 0
  {
    s as real / w as real
  }

  /** The least value of the quadratic, (W*Q - S*S)/W. */
  ghost function Lowest(w: int, s: int, q: int): real
    requires w > 0
  {
    (w * q - s * s) as real / w as real
  }

  lemma VertexIdentity(w: real, m: real, q: real, low: real, c: real, d: real, e: real)
    requires w > 0.0 && w * low == w * q - (w * m) * (w * m) && d == c - m && e == w * (d * d)
    ensures q - 2.0 * c * (w * m) + c * c * w == low + e
  {
    assert w * low == w * (q - m * (w * m));
    assert low == q - m * (w * m);
    assert w * ((c - m) * (c - m)) == c * c * w - 2.0 * c * (w * m) + m * (w * m);
  }

  lemma NegativeProduct(a: real, b: real)
    requires a < 0.0 && b < 0.0
    ensures a * b > 0.0
  {
  }

  lemma WeightedSquareSign(w: real, d: real, e: real)
    requires w > 0.0 && e == w * (d * d)
    ensures d != 0.0 ==> e > 0.0
    ensures d == 0.0 ==> e == 0.0
  {
    if d > 0.0 {
      PositiveProduct(w, d);
      PositiveProduct(w * d, d);
    } else if d < 0.0 {
      assert w * d < 0.0;
      NegativeProduct(w * d, d);
    }
  }

  /** Completing the square: the value exceeds the least one by W times the squared distance to S/W. */
  lemma VertexForm(w: int, s: int, q: int, c: real) returns (excess: real)
    requires w > 0
    ensures Quadratic(w, s, q, c) == Lowest(w, s, q) + excess
    ensures excess >= 0.0 && (excess == 0.0 <==> c == Mean(w, s))
  {
    var wr, m, low := w as real, Mean(w, s), Lowest(w, s, q);
    var d := c - m;
    excess := wr * (d * d);
    WeightedSquareSign(wr, d, excess);
    assert wr * m == s as real;
    assert wr * low == (w * q - s * s) as real;
    assert (w * q - s * s) as real == wr * q as real - (wr * m) * (wr * m);
    VertexIdentity(wr, m, q as real, low, c, d, excess);
  }

  /** The quadratic lies above its least value and meets it only at S/W. */
  lemma AboveLowest(w: int, s: int, q: int, c: real)
    requires w > 0
    ensures Lowest(w, s, q) <= Quadratic(w, s, q, c)
    ensures Quadratic(w, s, q, c) <= Lowest(w, s, q) <==> c == Mean(w, s)
  {
    var excess := VertexForm(w, s, q, c);
  }

  /** Integer comparison of the scaled minima is comparison of the minima. */
  lemma LowestOrder(w: int, s: int, q: int, s': int, q': int)
    requires w > 0
    ensures Lowest(w, s, q) <= Lowest(w, s', q') <==> w * q - s * s <= w * q' - s' * s'
    ensures Lowest(w, s, q) == Lowest(w, s', q') <==> w * q - s * s == w * q' - s' * s'
  {
    QuotientOrder(w * q - s * s, w * q' - s' * s', w);
  }

  lemma QuotientOrder(a: int, b: int, w: int)
    requires w > 0
    ensures a as real / w as real <= b as real / w as real <==> a <= b
    ensures a as real / w as real == b as real / w as real <==> a == b
  {
  }

  /** Integer comparison of S with multiples of W locates S/W. */
  lemma MeanOrder(w: int, s: int, k: int)
    requires w > 0
    ensures w * k <= s <==> k as real <= Mean(w, s)
    ensures s <= w * k <==> Mean(w, s) <= k as real
  {
    assert (w * k) as real / w as real == k as real;
    QuotientOrder(w * k, s, w);
    QuotientOrder(s, w * k, w);
  }

  lemma {:induction false} QuadraticSum<T>(f: T -> real, w: T -> int, l: T -> int, q: T -> int, c: real, s: seq<T>)
    requires forall x :: x in s ==> f(x) == Quadratic(w(x), l(x), q(x), c)
    ensures SumReal(f, s) == Quadratic(SumInt(w, s), SumInt(l, s), SumInt(q, s), c)
  {
    if s != [] {
      var x, rest := s[0], s[1..];
      QuadraticSum(f, w, l, q, c, rest);
      AddQuadratics(w(x), l(x), q(x), SumInt(w, rest), SumInt(l, rest), SumInt(q, rest), c);
      assert f(x) == Quadratic(w(x), l(x), q(x), c) by { assert x in s; }
    }
  }

  lemma {:induction false} QuadraticBound<T>(f: T -> real, w: T -> int, l: T -> int, q: T -> int, c: real, s: seq<T>)
    requires forall x :: x in s ==> f(x) <= Quadratic(w(x), l(x), q(x), c)
    ensures SumReal(f, s) <= Quadratic(SumInt(w, s), SumInt(l, s), SumInt(q, s), c)
  {
    if s != [] {
      var x, rest := s[0], s[1..];
      QuadraticBound(f, w, l, q, c, rest);
      AddQuadratics(w(x), l(x), q(x), SumInt(w, rest), SumInt(l, rest), SumInt(q, rest), c);
      assert f(x) <= Quadratic(w(x), l(x), q(x), c) by { assert x in s; }
    }
  }

  lemma AddQuadratics(w: int, s: int, q: int, w': int, s': int, q': int, c: real)
    ensures Quadratic(w + w', s + s', q + q', c) == Quadratic(w, s, q, c) + Quadratic(w', s', q', c)
  {
    assert 2.0 * c * (s + s') as real == 2.0 * c * s as real + 2.0 * c * s' as real;
    assert c * c * (w + w') as real == c * c * w as real + c * c * w' as real;
  }

  lemma ExpandSquare(w: int, l: int, c: real)
    ensures w as real * ((l as real - c) * (l as real - c)) == Quadratic(w, w * l, w * l * l, c)
  {
    var wr, lr := w as real, l as real;
    assert (w * l) as real == wr * lr;
    assert (w * l * l) as real == wr * lr * lr;
    ExpandRealSquare(wr, lr, c);
  }

  lemma ExpandRealSquare(w: real, l: real, c: real)
    ensures w * ((l - c) * (l - c)) == w * l * l - 2.0 * c * (w * l) + c * c * w
  {
  }
}
