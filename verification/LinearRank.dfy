/** Linear rank of integer vectors in three dimensions, and the incremental span that computes it. */
module LinearRank {
  datatype Vec = Vec(x: int, y: int, z: int)

  const ZERO := Vec(0, 0, 0)

  function Plus(a: Vec, b: Vec): Vec {
    Vec(a.x + b.x, a.y + b.y, a.z + b.z)
  }

  function Times(k: int, a: Vec): Vec {
    Vec(k * a.x, k * a.y, k * a.z)
  }

  function Cross(a: Vec, b: Vec): Vec {
    Vec(a.y * b.z - a.z * b.y, a.z * b.x - a.x * b.z, a.x * b.y - a.y * b.x)
  }

  function Dot(a: Vec, b: Vec): int {
    a.x * b.x + a.y * b.y + a.z * b.z
  }

  /** The six-term expansion of the 3x3 determinant. */
  function Det(a: Vec, b: Vec, c: Vec): int {
    a.x * b.y * c.z + a.y * b.z * c.x + a.z * b.x * c.y - a.z * b.y * c.x - a.y * b.x * c.z - a.x * b.z * c.y
  }

  // ---- rank by definition ----

  ghost function Combination(coefficients: seq<int>, family: seq<Vec>): Vec
    requires |coefficients| == |family|
  {
    if family == [] then ZERO
    else Plus(Times(coefficients[0], family[0]), Combination(coefficients[1..], family[1..]))
  }

  ghost predicate AllZero(coefficients: seq<int>) {
    forall i :: 0 <= i < |coefficients| ==> coefficients[i] == 0
  }

  /** No nontrivial integer combination vanishes (equivalently, none over the rationals). */
  ghost predicate Independent(family: seq<Vec>) {
    forall k: seq<int> :: |k| == |family| && Combination(k, family) == ZERO ==> AllZero(k)
  }

  ghost predicate DrawnFrom(family: seq<Vec>, vectors: seq<Vec>) {
    forall v :: v in family ==> v in vectors
  }

  /** Some independent family has r members drawn from the vectors, and none has r + 1. */
  ghost predicate HasRank(vectors: seq<Vec>, r: nat) {
    && (exists family :: |family| == r && DrawnFrom(family, vectors) && Independent(family))
    && !(exists family :: |family| == r + 1 && DrawnFrom(family, vectors) && Independent(family))
  }

  // ---- dependence by minors ----

  lemma Combination1(p: int, a: Vec)
    ensures Combination([p], [a]) == Times(p, a)
  {
    assert [p][1..] == [] && [a][1..] == [];
  }

  lemma Combination2(p: int, q: int, a: Vec, b: Vec)
    ensures Combination([p, q], [a, b]) == Plus(Times(p, a), Times(q, b))
  {
    assert [p, q][1..] == [q] && [a, b][1..] == [b];
    Combination1(q, b);
  }

  lemma Combination3(p: int, q: int, r: int, a: Vec, b: Vec, c: Vec)
    ensures Combination([p, q, r], [a, b, c]) == Plus(Times(p, a), Plus(Times(q, b), Times(r, c)))
  {
    assert [p, q, r][1..] == [q, r] && [a, b, c][1..] == [b, c];
    Combination2(q, r, b, c);
  }

  lemma ProductZero(a: int, b: int)
    ensures a * b == 0 <==> a == 0 || b == 0
  {
  }

  /** A vanishing combination of two vectors makes each coefficient times the cross product vanish. */
  lemma CombinationCross(p: int, q: int, a: Vec, b: Vec)
    requires Plus(Times(p, a), Times(q, b)) == ZERO
    ensures Times(p, Cross(a, b)) == ZERO && Times(q, Cross(a, b)) == ZERO
  {
    ScaledMinor(p, q, a.y, a.z, b.y, b.z);
    ScaledMinor(p, q, a.z, a.x, b.z, b.x);
    ScaledMinor(p, q, a.x, a.y, b.x, b.y);
  }

  lemma ScaledMinor(p: int, q: int, a: int, a': int, b: int, b': int)
    requires p * a + q * b == 0 && p * a' + q * b' == 0
    ensures p * (a * b' - a' * b) == 0 && q * (a * b' - a' * b) == 0
  {
    assert p * (a * b' - a' * b) == (p * a + q * b) * b' - (p * a' + q * b') * b;
    assert q * (a * b' - a' * b) == a * (p * a' + q * b') - a' * (p * a + q * b);
  }

  lemma TimesZero(k: int, a: Vec)
    ensures Times(k, a) == ZERO <==> k == 0 || a == ZERO
  {
    ProductZero(k, a.x);
    ProductZero(k, a.y);
    ProductZero(k, a.z);
  }

  lemma IndependentSingle(a: Vec)
    requires a != ZERO
    ensures Independent([a])
  {
    forall k: seq<int> | |k| == 1 && Combination(k, [a]) == ZERO
      ensures AllZero(k)
    {
      SingleKills(k, a);
    }
  }

  lemma CombinationOfOne(k: seq<int>, family: seq<Vec>)
    requires |k| == 1 && |family| == 1
    ensures Combination(k, family) == Times(k[0], family[0])
  {
    assert Combination(k[1..], family[1..]) == ZERO;
  }

  lemma SingleKills(k: seq<int>, a: Vec)
    requires |k| == 1 && Combination(k, [a]) == ZERO && a != ZERO
    ensures AllZero(k)
  {
    assert k[0] == 0 by {
      CombinationOfOne(k, [a]);
      NonzeroTimes(k[0], a);
    }
    OnlyZero(k);
  }

  lemma OnlyZero(k: seq<int>)
    requires |k| == 1 && k[0] == 0
    ensures AllZero(k)
  {
  }

  lemma NonzeroTimes(p: int, a: Vec)
    requires Times(p, a) == ZERO && a != ZERO
    ensures p == 0
  {
    TimesZero(p, a);
  }

  lemma DependentSingle(a: Vec)
    requires a == ZERO
    ensures !Independent([a])
  {
    Combination1(1, a);
    assert Combination([1], [a]) == ZERO && !AllZero([1]) by { assert [1][0] == 1; }
  }

  lemma IndependentPair(a: Vec, b: Vec)
    requires Cross(a, b) != ZERO
    ensures Independent([a, b])
  {
    var n := Cross(a, b);
    forall k: seq<int> | |k| == 2 && Combination(k, [a, b]) == ZERO
      ensures AllZero(k)
    {
      assert k == [k[0], k[1]];
      Combination2(k[0], k[1], a, b);
      CombinationCross(k[0], k[1], a, b);
      TimesZero(k[0], n);
      TimesZero(k[1], n);
    }
  }

  /** Coefficients of a nontrivial vanishing combination of two parallel vectors. */
  ghost function Parallel(a: Vec, b: Vec): (int, int) {
    if a.x != 0 then (b.x, -a.x) else if a.y != 0 then (b.y, -a.y) else if a.z != 0 then (b.z, -a.z) else (1, 0)
  }

  lemma ParallelVanishes(a: Vec, b: Vec)
    requires Cross(a, b) == ZERO
    ensures Plus(Times(Parallel(a, b).0, a), Times(Parallel(a, b).1, b)) == ZERO
    ensures Parallel(a, b) != (0, 0)
  {
  }

  lemma DependentPair(a: Vec, b: Vec)
    requires Cross(a, b) == ZERO
    ensures !Independent([a, b])
  {
    ParallelVanishes(a, b);
    var (p, q) := Parallel(a, b);
    Combination2(p, q, a, b);
    assert Combination([p, q], [a, b]) == ZERO;
    assert !AllZero([p, q]) by { assert [p, q][0] == p && [p, q][1] == q; }
  }

  // ---- the determinant ----

  /** The minors of two columns annihilate both columns. */
  lemma MinorsKill(a: int, a': int, b: int, b': int, c: int, c': int)
    ensures (b * c' - b' * c) * a + ((c * a' - c' * a) * b + (a * b' - a' * b) * c) == 0
    ensures (b * c' - b' * c) * a' + ((c * a' - c' * a) * b' + (a * b' - a' * b) * c') == 0
  {
  }

  /** Expansion of the determinant along each column. */
  lemma DetByColumns(a: Vec, b: Vec, c: Vec)
    ensures Cross(b, c).x * a.x + (Cross(c, a).x * b.x + Cross(a, b).x * c.x) == Det(a, b, c)
    ensures Cross(b, c).y * a.y + (Cross(c, a).y * b.y + Cross(a, b).y * c.y) == Det(a, b, c)
    ensures Cross(b, c).z * a.z + (Cross(c, a).z * b.z + Cross(a, b).z * c.z) == Det(a, b, c)
  {
    ColumnExpansion(a.x, b.x, c.x, a.y, b.y, c.y, a.z, b.z, c.z);
    ColumnExpansion(a.y, b.y, c.y, a.z, b.z, c.z, a.x, b.x, c.x);
    ColumnExpansion(a.z, b.z, c.z, a.x, b.x, c.x, a.y, b.y, c.y);
    Six(a.x, b.x, c.x, a.y, b.y, c.y, a.z, b.z, c.z);
    Six(a.y, b.y, c.y, a.z, b.z, c.z, a.x, b.x, c.x);
  }

  lemma ColumnExpansion(a: int, b: int, c: int, a': int, b': int, c': int, a'': int, b'': int, c'': int)
    ensures (b' * c'' - b'' * c') * a + ((c' * a'' - c'' * a') * b + (a' * b'' - a'' * b') * c)
      == a * b' * c'' + a' * b'' * c + a'' * b * c' - a'' * b' * c - a' * b * c'' - a * b'' * c'
  {
  }

  /** The six terms do not change when the coordinates are rotated. */
  lemma Six(a: int, b: int, c: int, a': int, b': int, c': int, a'': int, b'': int, c'': int)
    ensures a' * b'' * c + a'' * b * c' + a * b' * c'' - a * b'' * c' - a'' * b' * c - a' * b * c''
      == a * b' * c'' + a' * b'' * c + a'' * b * c' - a'' * b' * c - a' * b * c'' - a * b'' * c'
  {
  }

  /** Expansion along rows: each vector against the cross product of the other two. */
  lemma DetByRows(a: Vec, b: Vec, c: Vec)
    ensures Dot(a, Cross(b, c)) == Det(a, b, c)
    ensures Dot(b, Cross(b, c)) == 0 && Dot(c, Cross(b, c)) == 0
  {
    DotCross(a, b, c);
    CrossOrthogonal(b, c);
  }

  lemma DotCross(a: Vec, b: Vec, c: Vec)
    ensures Dot(a, Cross(b, c)) == Det(a, b, c)
  {
  }

  lemma CrossOrthogonal(b: Vec, c: Vec)
    ensures Dot(b, Cross(b, c)) == 0 && Dot(c, Cross(b, c)) == 0
  {
  }

  lemma DetCyclic(a: Vec, b: Vec, c: Vec)
    ensures Det(a, b, c) == Det(b, c, a) == Det(c, a, b)
  {
    DetRotated(a, b, c);
    DetRotated(b, c, a);
  }

  lemma DetRotated(a: Vec, b: Vec, c: Vec)
    ensures Det(a, b, c) == Det(b, c, a)
  {
    Rotated(a.x, b.y, c.z);
    Rotated(a.y, b.z, c.x);
    Rotated(a.z, b.x, c.y);
    Rotated(a.z, b.y, c.x);
    Rotated(a.y, b.x, c.z);
    Rotated(a.x, b.z, c.y);
  }

  lemma Rotated(u: int, v: int, w: int)
    ensures u * v * w == v * w * u
  {
  }

  /** With a vanishing determinant the cofactors of any one coordinate give a vanishing combination. */
  lemma CofactorsCombine(a: Vec, b: Vec, c: Vec)
    requires Det(a, b, c) == 0
    ensures Plus(Times(Cross(b, c).x, a), Plus(Times(Cross(c, a).x, b), Times(Cross(a, b).x, c))) == ZERO
    ensures Plus(Times(Cross(b, c).y, a), Plus(Times(Cross(c, a).y, b), Times(Cross(a, b).y, c))) == ZERO
    ensures Plus(Times(Cross(b, c).z, a), Plus(Times(Cross(c, a).z, b), Times(Cross(a, b).z, c))) == ZERO
  {
    DetByColumns(a, b, c);
    MinorsKill(a.y, a.z, b.y, b.z, c.y, c.z);
    MinorsKill(a.z, a.x, b.z, b.x, c.z, c.x);
    MinorsKill(a.x, a.y, b.x, b.y, c.x, c.y);
  }

  lemma CombinationDot(p: int, q: int, r: int, a: Vec, b: Vec, c: Vec, n: Vec)
    requires Plus(Times(p, a), Plus(Times(q, b), Times(r, c))) == ZERO
    ensures p * Dot(a, n) + q * Dot(b, n) + r * Dot(c, n) == 0
  {
    DotLinear(p, q, r, a, b, c, n);
  }

  lemma DotLinear(p: int, q: int, r: int, a: Vec, b: Vec, c: Vec, n: Vec)
    ensures p * Dot(a, n) + q * Dot(b, n) + r * Dot(c, n)
      == Dot(Plus(Times(p, a), Plus(Times(q, b), Times(r, c))), n)
  {
    Regroup(p, q, r, a.x, b.x, c.x, n.x);
    Regroup(p, q, r, a.y, b.y, c.y, n.y);
    Regroup(p, q, r, a.z, b.z, c.z, n.z);
    SumOfThree(p, a.x * n.x, a.y * n.y, a.z * n.z);
    SumOfThree(q, b.x * n.x, b.y * n.y, b.z * n.z);
    SumOfThree(r, c.x * n.x, c.y * n.y, c.z * n.z);
  }

  lemma Regroup(p: int, q: int, r: int, a: int, b: int, c: int, n: int)
    ensures (p * a + (q * b + r * c)) * n == p * (a * n) + q * (b * n) + r * (c * n)
  {
  }

  lemma SumOfThree(p: int, u: int, v: int, w: int)
    ensures p * (u + v + w) == p * u + p * v + p * w
  {
  }

  /** A vanishing combination of three vectors makes each coefficient times the determinant vanish. */
  lemma CombinationDet(p: int, q: int, r: int, a: Vec, b: Vec, c: Vec)
    requires Plus(Times(p, a), Plus(Times(q, b), Times(r, c))) == ZERO
    ensures p * Det(a, b, c) == 0 && q * Det(a, b, c) == 0 && r * Det(a, b, c) == 0
  {
    DetCyclic(a, b, c);
    DetByRows(a, b, c);
    DetByRows(b, c, a);
    DetByRows(c, a, b);
    CombinationDot(p, q, r, a, b, c, Cross(b, c));
    CombinationDot(p, q, r, a, b, c, Cross(c, a));
    CombinationDot(p, q, r, a, b, c, Cross(a, b));
  }

  lemma IndependentTriple(a: Vec, b: Vec, c: Vec)
    requires Det(a, b, c) != 0
    ensures Independent([a, b, c])
  {
    forall k: seq<int> | |k| == 3 && Combination(k, [a, b, c]) == ZERO
      ensures AllZero(k)
    {
      TripleKills(k, a, b, c);
    }
  }

  lemma TripleKills(k: seq<int>, a: Vec, b: Vec, c: Vec)
    requires |k| == 3 && Combination(k, [a, b, c]) == ZERO && Det(a, b, c) != 0
    ensures AllZero(k)
  {
    assert k == [k[0], k[1], k[2]];
    Combination3(k[0], k[1], k[2], a, b, c);
    CombinationDet(k[0], k[1], k[2], a, b, c);
    var d := Det(a, b, c);
    ProductZero(k[0], d);
    ProductZero(k[1], d);
    ProductZero(k[2], d);
  }

  lemma DependentTripleBy(a: Vec, b: Vec, c: Vec, p: int, q: int, r: int)
    requires Plus(Times(p, a), Plus(Times(q, b), Times(r, c))) == ZERO && (p != 0 || q != 0 || r != 0)
    ensures !Independent([a, b, c])
  {
    Combination3(p, q, r, a, b, c);
    assert Combination([p, q, r], [a, b, c]) == ZERO;
    assert !AllZero([p, q, r]) by { assert [p, q, r][0] == p && [p, q, r][1] == q && [p, q, r][2] == r; }
  }

  lemma DependentTriple(a: Vec, b: Vec, c: Vec)
    requires Det(a, b, c) == 0
    ensures !Independent([a, b, c])
  {
    var n, m, l := Cross(a, b), Cross(b, c), Cross(c, a);
    if n == ZERO {
      ParallelVanishes(a, b);
      DependentTripleBy(a, b, c, Parallel(a, b).0, Parallel(a, b).1, 0);
    } else {
      CofactorsCombine(a, b, c);
      if n.x != 0 {
        DependentTripleBy(a, b, c, m.x, l.x, n.x);
      } else if n.y != 0 {
        DependentTripleBy(a, b, c, m.y, l.y, n.y);
      } else {
        DependentTripleBy(a, b, c, m.z, l.z, n.z);
      }
    }
  }

  // ---- vectors parallel to one, or in the plane of two ----

  lemma CancelNonzero(k: int, a: int)
    requires k != 0 && k * a == 0
    ensures a == 0
  {
  }

  /** Two vectors parallel to a nonzero third are parallel to each other. */
  lemma ParallelTransitive(u: Vec, a: Vec, b: Vec)
    requires u != ZERO && Cross(u, a) == ZERO && Cross(u, b) == ZERO
    ensures Cross(a, b) == ZERO
  {
    var n := Cross(a, b);
    ParallelMinor(u, a, b);
    if u.x != 0 {
      CancelNonzero(u.x, n.x); CancelNonzero(u.x, n.y); CancelNonzero(u.x, n.z);
    } else if u.y != 0 {
      CancelNonzero(u.y, n.x); CancelNonzero(u.y, n.y); CancelNonzero(u.y, n.z);
    } else {
      CancelNonzero(u.z, n.x); CancelNonzero(u.z, n.y); CancelNonzero(u.z, n.z);
    }
  }

  /** Each coordinate of u times the cross product of two vectors parallel to u vanishes. */
  lemma ParallelMinor(u: Vec, a: Vec, b: Vec)
    requires Cross(u, a) == ZERO && Cross(u, b) == ZERO
    ensures Times(u.x, Cross(a, b)) == ZERO && Times(u.y, Cross(a, b)) == ZERO && Times(u.z, Cross(a, b)) == ZERO
  {
    MinorScaled(u.x, u.y, a.x, a.y, b.x, b.y);
    MinorScaled(u.y, u.z, a.y, a.z, b.y, b.z);
    MinorScaled(u.z, u.x, a.z, a.x, b.z, b.x);
    MinorThird(u.z, u.x, u.y, a.z, a.x, a.y, b.z, b.x, b.y);
    MinorThird(u.x, u.y, u.z, a.x, a.y, a.z, b.x, b.y, b.z);
    MinorThird(u.y, u.z, u.x, a.y, a.z, a.x, b.y, b.z, b.x);
  }

  lemma MinorScaled(u: int, v: int, a: int, a': int, b: int, b': int)
    requires u * a' - v * a == 0 && u * b' - v * b == 0
    ensures u * (a * b' - a' * b) == 0 && v * (a * b' - a' * b) == 0
  {
    assert u * (a * b' - a' * b) == a * (u * b' - v * b) - b * (u * a' - v * a);
    assert v * (a * b' - a' * b) == a' * (u * b' - v * b) - b' * (u * a' - v * a);
  }

  lemma MinorThird(w: int, u: int, v: int, c: int, a: int, a': int, d: int, b: int, b': int)
    requires w * a - u * c == 0 && w * a' - v * c == 0 && w * b - u * d == 0 && w * b' - v * d == 0
    requires u * b' - v * b == 0
    ensures w * (a * b' - a' * b) == 0
  {
    assert w * (a * b' - a' * b) == b' * (w * a - u * c) - b * (w * a' - v * c) + c * (u * b' - v * b);
  }

  /** Three vectors orthogonal to a nonzero normal have a vanishing determinant. */
  lemma CoplanarTriple(n: Vec, a: Vec, b: Vec, c: Vec)
    requires n != ZERO && Dot(n, a) == 0 && Dot(n, b) == 0 && Dot(n, c) == 0
    ensures Det(a, b, c) == 0
  {
    NormalTimesDet(n, a, b, c);
    if n.x != 0 {
      CancelNonzero(n.x, Det(a, b, c));
    } else if n.y != 0 {
      CancelNonzero(n.y, Det(a, b, c));
    } else {
      CancelNonzero(n.z, Det(a, b, c));
    }
  }

  /** n times the determinant is the combination of the three cross products by the dot products with n. */
  lemma NormalTimesDet(n: Vec, a: Vec, b: Vec, c: Vec)
    requires Dot(n, a) == 0 && Dot(n, b) == 0 && Dot(n, c) == 0
    ensures n.x * Det(a, b, c) == 0 && n.y * Det(a, b, c) == 0 && n.z * Det(a, b, c) == 0
  {
    DetByColumns(a, b, c);
    MinorsKill(a.y, a.z, b.y, b.z, c.y, c.z);
    MinorsKill(a.z, a.x, b.z, b.x, c.z, c.x);
    MinorsKill(a.x, a.y, b.x, b.y, c.x, c.y);
    var d := Det(a, b, c);
    NormalRow(n, a, b, c, Cross(b, c).x, Cross(c, a).x, Cross(a, b).x, d, 0, 0);
    NormalRow(n, a, b, c, Cross(b, c).y, Cross(c, a).y, Cross(a, b).y, 0, d, 0);
    NormalRow(n, a, b, c, Cross(b, c).z, Cross(c, a).z, Cross(a, b).z, 0, 0, d);
  }

  lemma NormalRow(n: Vec, a: Vec, b: Vec, c: Vec, m: int, l: int, k: int, dx: int, dy: int, dz: int)
    requires Dot(n, a) == 0 && Dot(n, b) == 0 && Dot(n, c) == 0
    requires m * a.x + (l * b.x + k * c.x) == dx
    requires m * a.y + (l * b.y + k * c.y) == dy && m * a.z + (l * b.z + k * c.z) == dz
    ensures n.x * dx + n.y * dy + n.z * dz == 0
  {
    NormalByMinors(n, a, b, c, m, l, k);
  }

  lemma NormalByMinors(n: Vec, a: Vec, b: Vec, c: Vec, m: int, l: int, k: int)
    requires Dot(n, a) == 0 && Dot(n, b) == 0 && Dot(n, c) == 0
    ensures n.x * (m * a.x + (l * b.x + k * c.x)) + n.y * (m * a.y + (l * b.y + k * c.y)) +
      n.z * (m * a.z + (l * b.z + k * c.z)) == 0
  {
    MinorRow(n.x, m, l, k, a.x, b.x, c.x);
    MinorRow(n.y, m, l, k, a.y, b.y, c.y);
    MinorRow(n.z, m, l, k, a.z, b.z, c.z);
    SumOfThree(m, n.x * a.x, n.y * a.y, n.z * a.z);
    SumOfThree(l, n.x * b.x, n.y * b.y, n.z * b.z);
    SumOfThree(k, n.x * c.x, n.y * c.y, n.z * c.z);
  }

  lemma MinorRow(n: int, m: int, l: int, k: int, a: int, b: int, c: int)
    ensures n * (m * a + (l * b + k * c)) == m * (n * a) + l * (n * b) + k * (n * c)
  {
  }

  // ---- four vectors in three dimensions ----

  lemma CombinationOfFour(k: seq<int>, f: seq<Vec>)
    requires |k| == 4 && |f| == 4
    ensures Combination(k, f) == Plus(Times(k[0], f[0]), Combination([k[1], k[2], k[3]], [f[1], f[2], f[3]]))
  {
    assert k[1..] == [k[1], k[2], k[3]] && f[1..] == [f[1], f[2], f[3]];
  }

  /** One coordinate of Cramer's rule, by the minors of that coordinate. */
  lemma CramerRow(d: Vec, m: Vec, l: Vec, n: Vec, a: int, b: int, c: int, dx: int, dy: int, dz: int)
    requires m.x * a + (l.x * b + n.x * c) == dx
    requires m.y * a + (l.y * b + n.y * c) == dy && m.z * a + (l.z * b + n.z * c) == dz
    ensures Dot(d, m) * a + (Dot(d, l) * b + Dot(d, n) * c) == d.x * dx + d.y * dy + d.z * dz
  {
    MinorRow(d.x, m.x, l.x, n.x, a, b, c);
    MinorRow(d.y, m.y, l.y, n.y, a, b, c);
    MinorRow(d.z, m.z, l.z, n.z, a, b, c);
    SpreadDot(d, m, a);
    SpreadDot(d, l, b);
    SpreadDot(d, n, c);
  }

  lemma SpreadDot(d: Vec, m: Vec, a: int)
    ensures Dot(d, m) * a == m.x * (d.x * a) + m.y * (d.y * a) + m.z * (d.z * a)
  {
  }

  /** Cramer's rule: d times the determinant is a combination of a, b and c. */
  lemma Cramer(d: Vec, a: Vec, b: Vec, c: Vec)
    ensures Plus(Times(Dot(d, Cross(b, c)), a), Plus(Times(Dot(d, Cross(c, a)), b), Times(Dot(d, Cross(a, b)), c)))
      == Times(Det(a, b, c), d)
  {
    DetByColumns(a, b, c);
    MinorsKill(a.y, a.z, b.y, b.z, c.y, c.z);
    MinorsKill(a.z, a.x, b.z, b.x, c.z, c.x);
    MinorsKill(a.x, a.y, b.x, b.y, c.x, c.y);
    var m, l, n, e := Cross(b, c), Cross(c, a), Cross(a, b), Det(a, b, c);
    CramerRow(d, m, l, n, a.x, b.x, c.x, e, 0, 0);
    CramerRow(d, m, l, n, a.y, b.y, c.y, 0, e, 0);
    CramerRow(d, m, l, n, a.z, b.z, c.z, 0, 0, e);
  }

  lemma FourDependentBy(f: seq<Vec>, p: int, q: int, r: int, e: int)
    requires |f| == 4 && (p != 0 || q != 0 || r != 0 || e != 0)
    requires Plus(Times(p, f[1]), Plus(Times(q, f[2]), Times(r, f[3]))) == Times(e, f[0])
    ensures !Independent(f)
  {
    var k := [-e, p, q, r];
    CombinationOfFour(k, f);
    Combination3(p, q, r, f[1], f[2], f[3]);
    NegatedTimes(e, f[0]);
    assert Combination(k, f) == ZERO;
    assert !AllZero(k) by { assert k[0] == -e && k[1] == p && k[2] == q && k[3] == r; }
  }

  lemma NegatedTimes(e: int, a: Vec)
    ensures Plus(Times(-e, a), Times(e, a)) == ZERO
  {
    Negated(e, a.x);
    Negated(e, a.y);
    Negated(e, a.z);
  }

  lemma Negated(e: int, a: int)
    ensures -e * a + e * a == 0
  {
  }

  /** No four vectors are independent. */
  lemma FourDependent(f: seq<Vec>)
    requires |f| == 4
    ensures !Independent(f)
  {
    if Det(f[1], f[2], f[3]) != 0 {
      FourByCramer(f);
    } else {
      FourByTriple(f);
    }
  }

  lemma FourByCramer(f: seq<Vec>)
    requires |f| == 4 && Det(f[1], f[2], f[3]) != 0
    ensures !Independent(f)
  {
    Cramer(f[0], f[1], f[2], f[3]);
    FourDependentBy(f, Dot(f[0], Cross(f[2], f[3])), Dot(f[0], Cross(f[3], f[1])), Dot(f[0], Cross(f[1], f[2])),
      Det(f[1], f[2], f[3]));
  }

  lemma Vanishing(f: seq<Vec>) returns (k: seq<int>)
    requires !Independent(f)
    ensures |k| == |f| && Combination(k, f) == ZERO && !AllZero(k)
  {
    k :| |k| == |f| && Combination(k, f) == ZERO && !AllZero(k);
  }

  lemma CombinationOfThree(k: seq<int>, a: Vec, b: Vec, c: Vec)
    requires |k| == 3
    ensures Combination(k, [a, b, c]) == Plus(Times(k[0], a), Plus(Times(k[1], b), Times(k[2], c)))
  {
    assert k == [k[0], k[1], k[2]];
    Combination3(k[0], k[1], k[2], a, b, c);
  }

  lemma FourExtended(f: seq<Vec>, k: seq<int>)
    requires |f| == 4 && |k| == 3 && Combination(k, [f[1], f[2], f[3]]) == ZERO && !AllZero(k)
    ensures !Independent(f)
  {
    CombinationOfThree(k, f[1], f[2], f[3]);
    SomeNonzero(k);
    ZeroTimes(f[0]);
    FourDependentBy(f, k[0], k[1], k[2], 0);
  }

  lemma SomeNonzero(k: seq<int>)
    requires |k| == 3 && !AllZero(k)
    ensures k[0] != 0 || k[1] != 0 || k[2] != 0
  {
  }

  lemma ZeroTimes(a: Vec)
    ensures Times(0, a) == ZERO
  {
  }

  lemma FourByTriple(f: seq<Vec>)
    requires |f| == 4 && Det(f[1], f[2], f[3]) == 0
    ensures !Independent(f)
  {
    DependentTriple(f[1], f[2], f[3]);
    var k := Vanishing([f[1], f[2], f[3]]);
    FourExtended(f, k);
  }

  // ---- the incremental span ----

  datatype Span = Span(rank: nat, first: Vec, second: Vec)

  const EMPTY := Span(0, ZERO, ZERO)

  /** One displacement fed to the span. */
  function Step(s: Span, v: Vec): Span {
    if s.rank >= 3 || v == ZERO then s
    else if s.rank == 0 then Span(1, v, s.second)
    else if s.rank == 1 then if Cross(s.first, v) == ZERO then s else Span(2, s.first, v)
    else if Det(s.first, s.second, v) == 0 then s else s.(rank := 3)
  }

  function Run(vectors: seq<Vec>): Span {
    if vectors == [] then EMPTY else Step(Run(vectors[..|vectors| - 1]), vectors[|vectors| - 1])
  }

  ghost predicate Spans(s: Span, vectors: seq<Vec>) {
    && s.rank <= 3
    && (s.rank == 0 ==> forall v :: v in vectors ==> v == ZERO)
    && (s.rank >= 1 ==> s.first in vectors && s.first != ZERO)
    && (s.rank == 1 ==> forall v :: v in vectors ==> Cross(s.first, v) == ZERO)
    && (s.rank >= 2 ==> s.second in vectors && Cross(s.first, s.second) != ZERO)
    && (s.rank == 2 ==> forall v :: v in vectors ==> Det(s.first, s.second, v) == 0)
    && (s.rank == 3 ==> exists v :: v in vectors && Det(s.first, s.second, v) != 0)
  }

  lemma ParallelHasNoDet(a: Vec, b: Vec, v: Vec)
    requires Cross(a, v) == ZERO
    ensures Det(a, b, v) == 0
  {
    DetCyclic(a, b, v);
    DotCross(b, v, a);
    CrossFlip(v, a);
  }

  lemma CrossFlip(a: Vec, b: Vec)
    ensures Cross(a, b) == Times(-1, Cross(b, a))
  {
  }

  lemma RepeatedHasNoDet(a: Vec, b: Vec)
    ensures Det(a, b, b) == 0
  {
    DotCross(a, b, b);
  }

  lemma ZeroHasNoDet(a: Vec, b: Vec)
    ensures Det(a, b, ZERO) == 0
  {
  }

  lemma StepSpans(s: Span, vectors: seq<Vec>, v: Vec)
    requires Spans(s, vectors)
    ensures Spans(Step(s, v), vectors + [v])
  {
    var all := vectors + [v];
    assert forall w :: w in all <==> w in vectors || w == v;
    if v == ZERO {
      ZeroHasNoDet(s.first, s.second);
    } else if s.rank == 1 && Cross(s.first, v) != ZERO {
      forall w | w in all
        ensures Det(s.first, v, w) == 0
      {
        if w == v {
          RepeatedHasNoDet(s.first, v);
        } else {
          ParallelHasNoDet(s.first, v, w);
        }
      }
    }
  }

  lemma {:induction false} RunSpans(vectors: seq<Vec>)
    ensures Spans(Run(vectors), vectors)
  {
    if vectors != [] {
      var n := |vectors| - 1;
      RunSpans(vectors[..n]);
      StepSpans(Run(vectors[..n]), vectors[..n], vectors[n]);
      assert vectors == vectors[..n] + [vectors[n]];
    }
  }

  lemma RankWitness(s: Span, vectors: seq<Vec>)
    requires Spans(s, vectors)
    ensures exists family :: |family| == s.rank && DrawnFrom(family, vectors) && Independent(family)
  {
    if s.rank == 0 {
      assert Independent([]);
      assert DrawnFrom([], vectors);
    } else if s.rank == 1 {
      IndependentSingle(s.first);
      assert DrawnFrom([s.first], vectors);
    } else if s.rank == 2 {
      IndependentPair(s.first, s.second);
      assert DrawnFrom([s.first, s.second], vectors);
    } else {
      var v :| v in vectors && Det(s.first, s.second, v) != 0;
      IndependentTriple(s.first, s.second, v);
      assert DrawnFrom([s.first, s.second, v], vectors);
    }
  }

  lemma NoLargerFamily(s: Span, vectors: seq<Vec>, family: seq<Vec>)
    requires Spans(s, vectors) && |family| == s.rank + 1 && DrawnFrom(family, vectors)
    ensures !Independent(family)
  {
    if s.rank == 0 {
      assert family == [family[0]] && family[0] in vectors;
      DependentSingle(family[0]);
    } else if s.rank == 1 {
      assert family == [family[0], family[1]] && family[0] in vectors && family[1] in vectors;
      ParallelTransitive(s.first, family[0], family[1]);
      DependentPair(family[0], family[1]);
    } else if s.rank == 2 {
      assert family == [family[0], family[1], family[2]];
      assert family[0] in vectors && family[1] in vectors && family[2] in vectors;
      var n := Cross(s.first, s.second);
      NormalDot(s.first, s.second, family[0]);
      NormalDot(s.first, s.second, family[1]);
      NormalDot(s.first, s.second, family[2]);
      CoplanarTriple(n, family[0], family[1], family[2]);
      DependentTriple(family[0], family[1], family[2]);
    } else {
      FourDependent(family);
    }
  }

  lemma NormalDot(a: Vec, b: Vec, v: Vec)
    ensures Dot(Cross(a, b), v) == Det(a, b, v)
  {
  }

  /** However the vectors are ordered, the span's rank is their linear rank. */
  lemma RunHasRank(vectors: seq<Vec>)
    ensures HasRank(vectors, Run(vectors).rank)
  {
    RunSpans(vectors);
    RankWitness(Run(vectors), vectors);
    forall family | |family| == Run(vectors).rank + 1 && DrawnFrom(family, vectors)
      ensures !Independent(family)
    {
      NoLargerFamily(Run(vectors), vectors, family);
    }
  }

  ghost predicate PairsCollinear(vectors: seq<Vec>) {
    forall a, b :: a in vectors && b in vectors ==> Cross(a, b) == ZERO
  }

  ghost predicate TriplesCoplanar(vectors: seq<Vec>) {
    forall a, b, c :: a in vectors && b in vectors && c in vectors ==> Det(a, b, c) == 0
  }

  lemma LowRankCollinear(s: Span, vectors: seq<Vec>, a: Vec, b: Vec)
    requires Spans(s, vectors) && s.rank <= 1 && a in vectors && b in vectors
    ensures Cross(a, b) == ZERO
  {
    if s.rank == 1 {
      ParallelTransitive(s.first, a, b);
    } else {
      ZeroCross(b);
    }
  }

  lemma ZeroCross(b: Vec)
    ensures Cross(ZERO, b) == ZERO
  {
  }

  lemma LowRankCoplanar(s: Span, vectors: seq<Vec>, a: Vec, b: Vec, c: Vec)
    requires Spans(s, vectors) && s.rank <= 2 && a in vectors && b in vectors && c in vectors
    ensures Det(a, b, c) == 0
  {
    if s.rank == 2 {
      NormalDot(s.first, s.second, a);
      NormalDot(s.first, s.second, b);
      NormalDot(s.first, s.second, c);
      CoplanarTriple(Cross(s.first, s.second), a, b, c);
    } else {
      LowRankCollinear(s, vectors, a, c);
      ParallelHasNoDet(a, b, c);
    }
  }

  /** The span stays at rank <= 1 exactly when every pair is collinear, at rank <= 2 when every triple is coplanar. */
  lemma RunByMinors(vectors: seq<Vec>)
    ensures Run(vectors).rank <= 1 <==> PairsCollinear(vectors)
    ensures Run(vectors).rank <= 2 <==> TriplesCoplanar(vectors)
  {
    var s := Run(vectors);
    RunSpans(vectors);
    if s.rank <= 1 {
      forall a, b | a in vectors && b in vectors
        ensures Cross(a, b) == ZERO
      {
        LowRankCollinear(s, vectors, a, b);
      }
    } else {
      assert Cross(s.first, s.second) != ZERO && s.first in vectors && s.second in vectors;
    }
    if s.rank <= 2 {
      forall a, b, c | a in vectors && b in vectors && c in vectors
        ensures Det(a, b, c) == 0
      {
        LowRankCoplanar(s, vectors, a, b, c);
      }
    }
  }
}
