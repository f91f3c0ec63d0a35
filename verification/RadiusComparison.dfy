/** The comparison of an exact torus distance with a radius: an interval filter, and exact squares when it abstains. */
module RadiusComparison {
  import opened Powers
  import opened Collections
  import opened Binary64
  import opened CenterRounding
  import opened BinaryBox
  import PairBins

  // ---- outward rounding ----

  function RoundDown(bits: nat): nat {
    if bits == 0 then 0 else bits - 1
  }

  function RoundUp(bits: nat): nat {
    if bits >= INFINITY then bits else bits + 1
  }

  /** Outward rounding moves to the neighbouring value, and stays at zero and at infinity. */
  lemma OutwardIsNeighbour(bits: nat, other: nat)
    ensures Units(other) < Units(bits) ==> Units(other) <= Units(RoundDown(bits)) < Units(bits)
    ensures bits < INFINITY && Units(other) > Units(bits) ==> Units(bits) < Units(RoundUp(bits)) <= Units(other)
    ensures RoundDown(0) == 0 && RoundUp(INFINITY) == INFINITY
  {
    UnitsOrder(other, bits);
    UnitsOrder(bits, other);
    if other < bits {
      UnitsOrder(other, bits - 1);
      UnitsOrder(bits - 1, other);
      UnitsOrder(bits - 1, bits);
    }
    if bits < other {
      UnitsOrder(bits, bits + 1);
      UnitsOrder(other, bits + 1);
      UnitsOrder(bits + 1, other);
    }
  }

  function Add(a: nat, b: nat): nat {
    if a >= INFINITY || b >= INFINITY then INFINITY else RoundedBits(Units(a) + Units(b), 1, -1074)
  }

  /** The rounded square of a value. */
  function Multiply(a: nat): nat {
    if a >= INFINITY then INFINITY else RoundedBits(Units(a) * Units(a), 1, -2148)
  }

  function MinBits(a: nat, b: nat): nat {
    if b < a then b else a
  }

  function MaxBits(a: nat, b: nat): nat {
    if a < b then b else a
  }

  /** bits is a lower bound of n, in units of 2^-1074. */
  ghost predicate Below(bits: nat, n: int) {
    Units(bits) <= n
  }

  /** bits is an upper bound of n; infinity bounds everything. */
  ghost predicate Above(bits: nat, n: int) {
    bits < INFINITY ==> n <= Units(bits)
  }

  lemma NearestBounds(bits: nat, t: real)
    requires NearestEven(bits, t) && t >= 0.0
    ensures Units(RoundDown(bits)) as real <= t
    ensures RoundUp(bits) < INFINITY ==> t <= Units(RoundUp(bits)) as real
  {
    if bits > 0 {
      UnitsIncrease(bits - 1, bits);
      assert Distance(bits, t) <= Distance(bits - 1, t);
    } else {
      assert Units(0) == 0;
    }
    if bits + 1 < INFINITY {
      UnitsIncrease(bits, bits + 1);
      assert Distance(bits, t) <= Distance(bits + 1, t);
    }
  }

  /** One pattern to each side of a rounded result encloses the exact one, overflow included. */
  lemma RoundedBounds(num: nat, quantum: int, t: real)
    requires t == Exact(num, 1, quantum + 1074)
    ensures Units(RoundDown(RoundedBits(num, 1, quantum))) as real <= t
    ensures RoundUp(RoundedBits(num, 1, quantum)) < INFINITY ==>
      t <= Units(RoundUp(RoundedBits(num, 1, quantum))) as real
  {
    RoundIsNearestEven(num, 1, quantum);
    ExactNonNegative(num, 1, quantum + 1074);
    match RoundCenterRational(num, 1, quantum)
    case Finite(bits) => NearestBounds(bits, t);
    case Overflow => UnitsIncrease(INFINITY - 1, INFINITY);
  }

  lemma SumBounds(n: nat)
    ensures Below(RoundDown(RoundedBits(n, 1, -1074)), n) && Above(RoundUp(RoundedBits(n, 1, -1074)), n)
  {
    WholeIsExact(n);
    RoundedBounds(n, -1074, n as real);
  }

  /** The unit of a square in units of a value: 2^1074. */
  const UNIT_SHIFT := 2148 / 2

  /** A product, in units of 2^-2148, against a value. */
  lemma SquareBounds(n: nat, scale: nat)
    requires scale == Pow2(UNIT_SHIFT)
    ensures Product(Units(RoundDown(RoundedBits(n, 1, -2148))), scale) <= n
    ensures RoundUp(RoundedBits(n, 1, -2148)) < INFINITY ==>
      n <= Product(Units(RoundUp(RoundedBits(n, 1, -2148))), scale)
  {
    ScaledBounds(n, -2148, -UNIT_SHIFT, scale, Units(RoundDown(RoundedBits(n, 1, -2148))),
      Units(RoundUp(RoundedBits(n, 1, -2148))));
  }

  lemma ScaledBounds(n: nat, quantum: int, e: int, scale: nat, low: nat, high: nat)
    requires e < 0 && e == quantum + 1074 && scale == Pow2(-e)
    requires low == Units(RoundDown(RoundedBits(n, 1, quantum))) && high == Units(RoundUp(RoundedBits(n, 1, quantum)))
    ensures Product(low, scale) <= n
    ensures RoundUp(RoundedBits(n, 1, quantum)) < INFINITY ==> n <= Product(high, scale)
  {
    var t := Exact(n, 1, e);
    RoundedBounds(n, quantum, t);
    ScaledExact(n, e, scale, t);
    ProductBounds(t, scale, n, low, high);
  }

  lemma ProductBounds(t: real, scale: nat, n: nat, low: nat, high: nat)
    requires scale > 0 && t * scale as real == n as real
    ensures low as real <= t ==> Product(low, scale) <= n
    ensures t <= high as real ==> n <= Product(high, scale)
  {
    CompareQuotient(t, scale, n, low);
    CompareQuotient(t, scale, n, high);
  }

  lemma ScaledExact(n: nat, e: int, scale: nat, t: real)
    requires e < 0 && scale == Pow2(-e) && t == Exact(n, 1, e)
    ensures t * scale as real == n as real
  {
    assert n * Up(e) == n && 1 * Down(e) == scale;
  }

  // ---- one axis ----

  /** Rounded bounds of an axis distance. */
  function LowerAxis(high: nat, low: nat, box: nat): nat
    requires Units(low) <= Units(high) <= Units(box)
  {
    MinBits(RoundDown(Subtract(high, low)), RoundDown(Add(RoundDown(Subtract(box, high)), low)))
  }

  function UpperAxis(high: nat, low: nat, box: nat): nat
    requires Units(low) <= Units(high) <= Units(box)
  {
    MinBits(RoundUp(Subtract(high, low)), RoundUp(Add(RoundUp(Subtract(box, high)), low)))
  }

  lemma AddIsRounded(a: nat, b: nat, n: nat)
    requires a < INFINITY && b < INFINITY && n == Units(a) + Units(b)
    ensures Add(a, b) == RoundedBits(n, 1, -1074)
  {
  }

  lemma AddBounds(a: nat, b: nat)
    requires a < INFINITY && b < INFINITY
    ensures Below(RoundDown(Add(a, b)), Units(a) + Units(b)) && Above(RoundUp(Add(a, b)), Units(a) + Units(b))
  {
    AddIsRounded(a, b, Units(a) + Units(b));
    BoundsOfRounded(Add(a, b), Units(a) + Units(b));
  }

  lemma BoundsOfRounded(bits: nat, n: nat)
    requires bits == RoundedBits(n, 1, -1074)
    ensures Below(RoundDown(bits), n) && Above(RoundUp(bits), n)
  {
    SumBounds(n);
  }

  lemma AddBelow(a: nat, b: nat, m: nat)
    requires a < INFINITY && b < INFINITY && Below(a, m)
    ensures Below(RoundDown(Add(a, b)), m + Units(b))
  {
    AddBounds(a, b);
    BoundsMoved(RoundDown(Add(a, b)), Units(a), m, Units(b));
  }

  lemma AddAbove(a: nat, b: nat, m: nat)
    requires b < INFINITY && Above(a, m)
    ensures Above(RoundUp(Add(a, b)), m + Units(b))
  {
    if a < INFINITY {
      AddBounds(a, b);
      BoundsMoved(RoundUp(Add(a, b)), Units(a), m, Units(b));
    }
  }

  lemma BoundsMoved(bits: nat, u: nat, m: nat, v: nat)
    ensures u <= m && Below(bits, u + v) ==> Below(bits, m + v)
    ensures m <= u && Above(bits, u + v) ==> Above(bits, m + v)
  {
  }

  lemma SubtractBounds(high: nat, low: nat)
    requires Units(low) <= Units(high)
    ensures Below(RoundDown(Subtract(high, low)), Units(high) - Units(low))
    ensures Above(RoundUp(Subtract(high, low)), Units(high) - Units(low))
    ensures RoundDown(Subtract(high, low)) < INFINITY
  {
    SumBounds(Units(high) - Units(low));
  }

  /** The bounds enclose the shorter way round. */
  lemma AxisBounds(high: nat, low: nat, box: nat)
    requires low <= high < box < INFINITY
    ensures Units(low) <= Units(high) <= Units(box)
    ensures Below(LowerAxis(high, low, box), AxisDistance(high, low, box))
    ensures Above(UpperAxis(high, low, box), AxisDistance(high, low, box))
    ensures LowerAxis(high, low, box) < INFINITY
  {
    UnitsOrder(low, high);
    UnitsOrder(high, box);
    SubtractBounds(high, low);
    SubtractBounds(box, high);
    AddBelow(RoundDown(Subtract(box, high)), low, Units(box) - Units(high));
    AddAbove(RoundUp(Subtract(box, high)), low, Units(box) - Units(high));
    UnitsOrder(RoundDown(Subtract(high, low)), RoundDown(Add(RoundDown(Subtract(box, high)), low)));
    UnitsOrder(RoundUp(Subtract(high, low)), RoundUp(Add(RoundUp(Subtract(box, high)), low)));
  }

  // ---- how tight the bounds of an axis are ----

  /** The value of an upper bound; an overflowed one stands for the largest finite value here. */
  ghost function Capped(bits: nat): nat {
    if bits < INFINITY then Units(bits) else Units(INFINITY - 1)
  }

  /** Neighbours differ by one unit, or by at most 2^-52 of the smaller. */
  lemma LastPlace(bits: nat)
    ensures HIDDEN * (Units(bits + 1) - Units(bits)) <= HIDDEN + Units(bits)
  {
    UnitsStep(bits);
    UnitsAsProduct(bits);
    if UnitShift(bits) > 0 {
      MulMonotone(HIDDEN, Significand(bits), Pow2(UnitShift(bits)));
    }
  }

  /** A whole number lies at its nearest value, or between that and the neighbour on its side. */
  lemma NearestBrackets(bits: nat, n: nat)
    requires NearestEven(bits, n as real) && n < Units(INFINITY)
    ensures Units(bits) <= n ==> n < Units(bits + 1)
    ensures Units(bits) > n ==> bits > 0 && Units(bits - 1) < n
  {
    if Units(bits) <= n {
      NotBeyondNext(bits, n);
    } else {
      NotBelowPrevious(bits, n);
    }
  }

  lemma NotBeyondNext(bits: nat, n: nat)
    requires NearestEven(bits, n as real) && Units(bits) <= n < Units(INFINITY)
    ensures n < Units(bits + 1)
  {
    UnitsIncrease(bits, bits + 1);
    if bits + 1 < INFINITY {
      assert Distance(bits, n as real) <= Distance(bits + 1, n as real);
    }
  }

  lemma NotBelowPrevious(bits: nat, n: nat)
    requires NearestEven(bits, n as real) && Units(bits) > n
    ensures bits > 0 && Units(bits - 1) < n
  {
    assert Units(0) == 0;
    UnitsIncrease(bits - 1, bits);
    assert Distance(bits, n as real) <= Distance(bits - 1, n as real);
  }

  lemma FiniteOrBeyond(n: nat)
    ensures RoundedBits(n, 1, -1074) < INFINITY ==>
      NearestEven(RoundedBits(n, 1, -1074), n as real) && n < Units(INFINITY)
    ensures RoundedBits(n, 1, -1074) >= INFINITY ==>
      RoundedBits(n, 1, -1074) == INFINITY && n >= Units(INFINITY - 1)
  {
    WholeIsExact(n);
    RoundIsNearestEven(n, 1, -1074);
    UnitsIncrease(INFINITY - 1, INFINITY);
  }

  lemma DownFrom(r: nat, n: nat)
    requires r < INFINITY && NearestEven(r, n as real) && n < Units(INFINITY) && Units(RoundDown(r)) <= n
    ensures HIDDEN * (n - Units(RoundDown(r))) <= 2 * (HIDDEN + n)
  {
    NearestBrackets(r, n);
    LastPlace(r);
    if r > 0 {
      LastPlace(r - 1);
    }
  }

  /** Rounding a sum and then down loses at most two last places. */
  lemma DownIsTight(n: nat)
    requires n < Units(INFINITY)
    ensures HIDDEN * (n - Units(RoundDown(RoundedBits(n, 1, -1074)))) <= 2 * (HIDDEN + n)
  {
    FiniteOrBeyond(n);
    SumBounds(n);
    if RoundedBits(n, 1, -1074) < INFINITY {
      DownFrom(RoundedBits(n, 1, -1074), n);
    } else {
      LastPlace(INFINITY - 1);
    }
  }

  lemma UpFrom(r: nat, n: nat)
    requires r < INFINITY && NearestEven(r, n as real) && n < Units(INFINITY)
    ensures HIDDEN * (Capped(RoundUp(r)) - n) <= 3 * (HIDDEN + n)
  {
    NearestBrackets(r, n);
    LastPlace(r);
    if r > 0 {
      LastPlace(r - 1);
    }
  }

  /** Rounding a sum and then up adds at most three. */
  lemma UpIsTight(n: nat)
    ensures HIDDEN * (Capped(RoundUp(RoundedBits(n, 1, -1074))) - n) <= 3 * (HIDDEN + n)
  {
    FiniteOrBeyond(n);
    if RoundedBits(n, 1, -1074) < INFINITY {
      UpFrom(RoundedBits(n, 1, -1074), n);
    }
  }

  lemma LowerChain(x: nat, low: nat, first: nat, last: nat)
    requires HIDDEN * (x - first) <= 2 * (HIDDEN + x) && first <= x
    requires HIDDEN * (first + low - last) <= 2 * (HIDDEN + first + low)
    ensures HIDDEN * (x + low - last) <= 4 * (HIDDEN + x + low)
  {
  }

  lemma UpperChain(x: nat, low: nat, first: nat, last: nat)
    requires HIDDEN * (first - x) <= 3 * (HIDDEN + x)
    requires HIDDEN * (last - (first + low)) <= 3 * (HIDDEN + first + low)
    ensures HIDDEN * (last - (x + low)) <= 7 * (HIDDEN + x + low)
  {
  }

  lemma AcrossBelow(first: nat, low: nat, x: nat)
    requires first < INFINITY && low < INFINITY && Units(first) <= x && x + Units(low) < Units(INFINITY)
    requires HIDDEN * (x - Units(first)) <= 2 * (HIDDEN + x)
    ensures HIDDEN * (x + Units(low) - Units(RoundDown(Add(first, low)))) <= 4 * (HIDDEN + x + Units(low))
  {
    DownIsTight(Units(first) + Units(low));
    LowerChain(x, Units(low), Units(first), Units(RoundDown(Add(first, low))));
  }

  lemma SumAboveIsTight(a: nat, b: nat, n: nat)
    requires a < INFINITY && b < INFINITY && n == Units(a) + Units(b)
    ensures HIDDEN * (Capped(RoundUp(Add(a, b))) - n) <= 3 * (HIDDEN + n)
  {
    AddIsRounded(a, b, n);
    UpIsTight(n);
  }

  lemma AcrossAbove(first: nat, low: nat, x: nat, l: nat)
    requires low < INFINITY && l == Units(low) && HIDDEN * (Capped(first) - x) <= 3 * (HIDDEN + x)
    ensures HIDDEN * (Capped(RoundUp(Add(first, low))) - (x + l)) <= 7 * (HIDDEN + x + l)
  {
    if first < INFINITY {
      SumAboveIsTight(first, low, Units(first) + l);
      UpperChain(x, l, Units(first), Capped(RoundUp(Add(first, low))));
    }
  }

  lemma SubtractIsRounded(high: nat, low: nat, x: nat)
    requires Units(low) <= Units(high) && x == Units(high) - Units(low)
    ensures Subtract(high, low) == RoundedBits(x, 1, -1074)
  {
  }

  lemma FirstAbove(box: nat, high: nat, x: nat)
    requires Units(high) <= Units(box) && x == Units(box) - Units(high)
    ensures HIDDEN * (Capped(RoundUp(Subtract(box, high))) - x) <= 3 * (HIDDEN + x)
  {
    SubtractIsRounded(box, high, x);
    UpIsTight(x);
  }

  lemma FirstBelow(box: nat, high: nat, x: nat)
    requires box < INFINITY && Units(high) <= Units(box) && x == Units(box) - Units(high)
    ensures RoundDown(Subtract(box, high)) < INFINITY && Units(RoundDown(Subtract(box, high))) <= x < Units(INFINITY)
    ensures HIDDEN * (x - Units(RoundDown(Subtract(box, high)))) <= 2 * (HIDDEN + x)
  {
    UnitsIncrease(box, INFINITY);
    SubtractBounds(box, high);
    DownIsTight(x);
  }

  lemma LowerWays(high: nat, low: nat, box: nat, direct: nat, x: nat)
    requires Units(low) <= Units(high) <= Units(box) && box < INFINITY && low < INFINITY && high < INFINITY
    requires direct == Units(high) - Units(low) && x == Units(box) - Units(high)
    ensures HIDDEN * (direct - Units(RoundDown(Subtract(high, low)))) <= 4 * (HIDDEN + direct)
    ensures HIDDEN * (x + Units(low) - Units(RoundDown(Add(RoundDown(Subtract(box, high)), low)))) <=
      4 * (HIDDEN + x + Units(low))
  {
    UnitsIncrease(box, INFINITY);
    FirstBelow(high, low, direct);
    FirstBelow(box, high, x);
    AcrossBelow(RoundDown(Subtract(box, high)), low, x);
  }

  lemma UpperWays(high: nat, low: nat, box: nat, direct: nat, x: nat, l: nat)
    requires l == Units(low) <= Units(high) <= Units(box) && low < INFINITY
    requires direct == Units(high) - l && x == Units(box) - Units(high)
    ensures HIDDEN * (Capped(RoundUp(Subtract(high, low))) - direct) <= 7 * (HIDDEN + direct)
    ensures HIDDEN * (Capped(RoundUp(Add(RoundUp(Subtract(box, high)), low))) - (x + l)) <= 7 * (HIDDEN + x + l)
  {
    FirstAbove(high, low, direct);
    FirstAbove(box, high, x);
    AcrossAbove(RoundUp(Subtract(box, high)), low, x, l);
  }

  /** The bounds of an axis are off by a few last places at most. */
  ghost predicate Close(lower: nat, upper: nat, d: int) {
    HIDDEN * (d - Units(lower)) <= 4 * (HIDDEN + d) && HIDDEN * (Capped(upper) - d) <= 7 * (HIDDEN + d)
  }

  lemma CappedOrder(a: nat, b: nat)
    requires a <= b
    ensures Capped(a) <= Capped(b)
  {
    UnitsOrder(b, a);
    if a < INFINITY {
      UnitsOrder(INFINITY - 1, a);
    }
  }

  /** The lesser of two bounds is as close to the lesser of two distances as either was to its own. */
  lemma LesserIsClose(lower: nat, upper: nat, direct: nat, across: nat, d: nat, a: nat, b: nat, u: nat, v: nat)
    requires (d == direct || d == across) && d <= direct && d <= across && (lower == a || lower == b)
    requires upper <= u && upper <= v
    requires HIDDEN * (direct - a) <= 4 * (HIDDEN + direct) && HIDDEN * (across - b) <= 4 * (HIDDEN + across)
    requires HIDDEN * (u - direct) <= 7 * (HIDDEN + direct) && HIDDEN * (v - across) <= 7 * (HIDDEN + across)
    ensures HIDDEN * (d - lower) <= 4 * (HIDDEN + d) && HIDDEN * (upper - d) <= 7 * (HIDDEN + d)
  {
  }

  lemma LesserWay(high: nat, low: nat, box: nat)
    requires Units(low) <= Units(high) <= Units(box)
    ensures var direct, across := Units(high) - Units(low), Units(box) - Units(high) + Units(low);
      && AxisDistance(high, low, box) == if direct <= across then direct else across
  {
  }

  lemma AxisIsClose(high: nat, low: nat, box: nat)
    requires low <= high < box < INFINITY
    ensures Units(low) <= Units(high) <= Units(box)
    ensures Close(LowerAxis(high, low, box), UpperAxis(high, low, box), AxisDistance(high, low, box))
  {
    UnitsOrder(low, high);
    UnitsOrder(high, box);
    LesserWay(high, low, box);
    CloseWays(high, low, box, Units(high) - Units(low), Units(box) - Units(high), Units(low),
      AxisDistance(high, low, box));
  }

  lemma CloseWays(high: nat, low: nat, box: nat, direct: nat, x: nat, l: nat, d: nat)
    requires low <= high < box < INFINITY && l == Units(low) <= Units(high) <= Units(box)
    requires direct == Units(high) - l && x == Units(box) - Units(high) && d == Min(direct, x + l)
    ensures Close(LowerAxis(high, low, box), UpperAxis(high, low, box), d)
  {
    var u, v := RoundUp(Subtract(high, low)), RoundUp(Add(RoundUp(Subtract(box, high)), low));
    LowerWays(high, low, box, direct, x);
    UpperWays(high, low, box, direct, x, l);
    CappedOrder(UpperAxis(high, low, box), u);
    CappedOrder(UpperAxis(high, low, box), v);
    LesserIsClose(Units(LowerAxis(high, low, box)), Capped(UpperAxis(high, low, box)), direct, x + l, d,
      Units(RoundDown(Subtract(high, low))), Units(RoundDown(Add(RoundDown(Subtract(box, high)), low))), Capped(u),
      Capped(v));
  }

  lemma AxisSymmetric(a: nat, b: nat, box: nat)
    ensures AxisDistance(a, b, box) == AxisDistance(MaxBits(a, b), MinBits(a, b), box)
  {
  }

  // ---- the running bounds ----

  /** A sum in units of 2^-2148 is not below a value, or not above it. */
  ghost predicate SquaresBelow(bits: nat, sum: int) {
    Product(Units(bits), Pow2(UNIT_SHIFT)) <= sum
  }

  ghost predicate SquaresAbove(bits: nat, sum: int) {
    bits < INFINITY ==> sum <= Product(Units(bits), Pow2(UNIT_SHIFT))
  }

  lemma MultiplyBelow(a: nat, d: nat)
    requires a < INFINITY && Below(a, d)
    ensures SquaresBelow(RoundDown(Multiply(a)), Squared(d)) && RoundDown(Multiply(a)) < INFINITY
  {
    MultiplyBounds(a, Units(a) * Units(a));
    SquareAtLeast(Units(a), d);
  }

  lemma MultiplyBounds(a: nat, n: nat)
    requires a < INFINITY && n == Units(a) * Units(a)
    ensures SquaresBelow(RoundDown(Multiply(a)), n) && SquaresAbove(RoundUp(Multiply(a)), n)
  {
    SquareBounds(n, Pow2(UNIT_SHIFT));
  }

  lemma MultiplyAbove(a: nat, d: nat)
    requires Above(a, d)
    ensures SquaresAbove(RoundUp(Multiply(a)), Squared(d))
  {
    if a < INFINITY {
      MultiplyBounds(a, Units(a) * Units(a));
      SquareAtLeast(d, Units(a));
      SquaredIs(Units(a));
    }
  }

  lemma SquareAtLeast(u: nat, v: nat)
    requires u <= v
    ensures u * u <= Squared(v) && Squared(u) <= Squared(v)
  {
    SquaredIs(u);
    SquaredOrder(u, v);
  }

  lemma ProductOrder(a: nat, b: nat, k: nat)
    requires k > 0
    ensures a <= b <==> Product(a, k) <= Product(b, k)
    ensures Product(a + b, k) == Product(a, k) + Product(b, k)
  {
    if a <= b {
      MulMonotone(a, b, k);
    } else {
      MulStrict(b, a, k);
    }
  }

  lemma SumBelow(a: nat, b: nat, s: int, t: int)
    requires a < INFINITY && b < INFINITY && SquaresBelow(a, s) && SquaresBelow(b, t)
    ensures SquaresBelow(RoundDown(Add(a, b)), s + t) && RoundDown(Add(a, b)) < INFINITY
  {
    SumBounds(Units(a) + Units(b));
    LowerProducts(Units(a), Units(b), Units(RoundDown(Add(a, b))), Pow2(UNIT_SHIFT), s, t);
  }

  lemma SumAbove(a: nat, b: nat, s: int, t: int)
    requires SquaresAbove(a, s) && SquaresAbove(b, t)
    ensures SquaresAbove(RoundUp(Add(a, b)), s + t)
  {
    if a < INFINITY && b < INFINITY {
      SumBounds(Units(a) + Units(b));
      if RoundUp(Add(a, b)) < INFINITY {
        UpperProducts(Units(a), Units(b), Units(RoundUp(Add(a, b))), Pow2(UNIT_SHIFT), s, t);
      }
    }
  }

  lemma LowerProducts(x: nat, y: nat, z: nat, k: nat, s: int, t: int)
    requires k > 0 && z <= x + y && Product(x, k) <= s && Product(y, k) <= t
    ensures Product(z, k) <= s + t
  {
    ProductOrder(x, y, k);
    ProductOrder(z, x + y, k);
  }

  lemma UpperProducts(x: nat, y: nat, z: nat, k: nat, s: int, t: int)
    requires k > 0 && x + y <= z && s <= Product(x, k) && t <= Product(y, k)
    ensures s + t <= Product(z, k)
  {
    ProductOrder(x, y, k);
    ProductOrder(x + y, z, k);
  }

  /** What two values enclose is ordered as they are. */
  lemma Separated(upper: nat, lower: nat, s: int, t: int)
    requires upper < lower < INFINITY && SquaresAbove(upper, s) && SquaresBelow(lower, t)
    ensures s < t
  {
    UnitsIncrease(upper, lower);
    ProductOrder(Units(lower), Units(upper), Pow2(UNIT_SHIFT));
  }

  // ---- the filter ----

  function Coordinate(v: Vec3<nat>, axis: nat): nat
    requires axis < 3
  {
    if axis == 0 then v.x else if axis == 1 then v.y else v.z
  }

  /** The exact squared distance along the first axes. */
  ghost function PartialSquare(from: Vec3<nat>, to: Vec3<nat>, box: nat, axes: nat): int
    requires axes <= 3
  {
    if axes == 0 then 0
    else
      PartialSquare(from, to, box, axes - 1) +
        Squared(AxisDistance(Coordinate(from, axes - 1), Coordinate(to, axes - 1), box))
  }

  lemma PartialIsWhole(from: Vec3<nat>, to: Vec3<nat>, box: nat, axis: nat)
    requires axis < 3
    ensures PartialSquare(from, to, box, 3) == SquaredDistance(from, to, box)
    ensures Squared(AxisDistance(Coordinate(from, axis), Coordinate(to, axis), box)) <= SquaredDistance(from, to, box)
  {
    SquareNotNegative(AxisDistance(from.x, to.x, box));
    SquareNotNegative(AxisDistance(from.y, to.y, box));
    SquareNotNegative(AxisDistance(from.z, to.z, box));
    assert PartialSquare(from, to, box, 1) == Squared(AxisDistance(from.x, to.x, box));
    assert PartialSquare(from, to, box, 2) ==
           PartialSquare(from, to, box, 1) + Squared(AxisDistance(from.y, to.y, box));
  }

  lemma OutsideOneAxis(lower: nat, radius: nat, d: nat)
    requires radius < lower && Below(lower, d)
    ensures Squared(Units(radius)) < Squared(d)
  {
    UnitsIncrease(radius, lower);
    SquaredOrder(Units(radius), d);
  }

  /** The rounded bounds of one axis. */
  method BoundAxis(a: nat, b: nat, box: nat) returns (lower: nat, upper: nat)
    requires a < box && b < box < INFINITY
    ensures lower < INFINITY && AxisDistance(a, b, box) >= 0
    ensures Below(lower, AxisDistance(a, b, box)) && Above(upper, AxisDistance(a, b, box))
    ensures Close(lower, upper, AxisDistance(a, b, box))
  {
    var high, low := MaxBits(a, b), MinBits(a, b);
    AxisIsClose(high, low, box);
    AxisBounds(high, low, box);
    AxisSymmetric(a, b, box);
    AxisWithinHalf(a, b, box);
    lower := LowerAxis(high, low, box);
    upper := UpperAxis(high, low, box);
  }

  /** Add one axis to the running bounds. */
  method ExtendBounds(normLower: nat, normUpper: nat, lower: nat, upper: nat, ghost sum: int, ghost d: nat)
    returns (nextLower: nat, nextUpper: nat)
    requires normLower < INFINITY && SquaresBelow(normLower, sum) && SquaresAbove(normUpper, sum)
    requires lower < INFINITY && Below(lower, d) && Above(upper, d)
    ensures nextLower < INFINITY && SquaresBelow(nextLower, sum + Squared(d))
    ensures SquaresAbove(nextUpper, sum + Squared(d))
  {
    MultiplyBelow(lower, d);
    MultiplyAbove(upper, d);
    SumBelow(normLower, RoundDown(Multiply(lower)), sum, Squared(d));
    SumAbove(normUpper, RoundUp(Multiply(upper)), sum, Squared(d));
    nextLower := RoundDown(Add(normLower, RoundDown(Multiply(lower))));
    nextUpper := RoundUp(Add(normUpper, RoundUp(Multiply(upper))));
  }

  /** Bounds of the distance along the first axes. */
  ghost predicate Encloses(lower: nat, upper: nat, from: Vec3<nat>, to: Vec3<nat>, box: nat, axes: nat)
    requires axes <= 3
  {
    && lower < INFINITY && SquaresBelow(lower, PartialSquare(from, to, box, axes))
    && SquaresAbove(upper, PartialSquare(from, to, box, axes))
  }

  /** Take in one axis, unless it alone is outside the radius. */
  method NextAxis(from: Vec3<nat>, to: Vec3<nat>, box: nat, radius: nat, axis: nat, normLower: nat, normUpper: nat)
    returns (outside: bool, nextLower: nat, nextUpper: nat)
    requires box < INFINITY && InBox(from, box) && InBox(to, box) && axis < 3
    requires Encloses(normLower, normUpper, from, to, box, axis)
    ensures outside ==> Squared(Units(radius)) < SquaredDistance(from, to, box)
    ensures !outside ==> Encloses(nextLower, nextUpper, from, to, box, axis + 1)
  {
    ghost var d := AxisDistance(Coordinate(from, axis), Coordinate(to, axis), box);
    var lower, upper := BoundAxis(Coordinate(from, axis), Coordinate(to, axis), box);
    if lower > radius {
      OutsideOneAxis(lower, radius, d);
      PartialIsWhole(from, to, box, axis);
      return true, 0, 0;
    }
    outside := false;
    nextLower, nextUpper := ExtendBounds(normLower, normUpper, lower, upper, PartialSquare(from, to, box, axis), d);
  }

  lemma NothingEnclosed(from: Vec3<nat>, to: Vec3<nat>, box: nat)
    ensures Encloses(0, 0, from, to, box, 0)
  {
    assert Units(0) == 0;
  }

  /** Disjoint intervals decide the sign; otherwise the filter abstains. */
  method FilteredCompare(from: Vec3<nat>, to: Vec3<nat>, box: nat, radius: nat) returns (sign: Option<int>)
    requires box < INFINITY && radius < INFINITY && InBox(from, box) && InBox(to, box)
    ensures sign.Some? ==> sign.value == Compare(SquaredDistance(from, to, box), Squared(Units(radius)))
  {
    var normLower: nat, normUpper: nat := 0, 0;
    NothingEnclosed(from, to, box);
    for axis := 0 to 3
      invariant Encloses(normLower, normUpper, from, to, box, axis)
    {
      var outside;
      outside, normLower, normUpper := NextAxis(from, to, box, radius, axis, normLower, normUpper);
      if outside {
        return Some(1);
      }
    }
    PartialIsWhole(from, to, box, 0);
    sign := DecideByBounds(normLower, normUpper, radius, SquaredDistance(from, to, box));
  }

  method DecideByBounds(normLower: nat, normUpper: nat, radius: nat, ghost d2: int) returns (sign: Option<int>)
    requires radius < INFINITY && normLower < INFINITY && SquaresBelow(normLower, d2) && SquaresAbove(normUpper, d2)
    ensures sign.Some? ==> sign.value == Compare(d2, Squared(Units(radius)))
  {
    MultiplyBelow(radius, Units(radius));
    MultiplyAbove(radius, Units(radius));
    var square := Multiply(radius);
    if normUpper < RoundDown(square) {
      Separated(normUpper, RoundDown(square), d2, Squared(Units(radius)));
      return Some(-1);
    }
    if normLower > RoundUp(square) {
      Separated(RoundUp(square), normLower, Squared(Units(radius)), d2);
      return Some(1);
    }
    sign := None;
  }

  // ---- the comparison ----

  datatype Relation = Related(sign: int) | InvalidEndpoints

  ghost predicate Comparable(from: Vec3<nat>, to: Vec3<nat>, box: nat, radius: nat) {
    && 0 < box < INFINITY && radius < INFINITY
    && from.x < box && from.y < box && from.z < box && to.x < box && to.y < box && to.z < box
  }

  /** The sign of the exact distance minus the radius, whether or not the filter could tell. */
  method DistanceToRadius(from: Vec3<nat>, to: Vec3<nat>, box: nat, radius: nat) returns (relation: Relation)
    ensures relation == if Comparable(from, to, box, radius)
                        then Related(Compare(SquaredDistance(from, to, box), Squared(Units(radius))))
                        else InvalidEndpoints
  {
    if box == 0 || box >= INFINITY || radius >= INFINITY {
      return InvalidEndpoints;
    }
    if from.x >= box || from.y >= box || from.z >= box || to.x >= box || to.y >= box || to.z >= box {
      return InvalidEndpoints;
    }
    var filtered := FilteredCompare(from, to, box, radius);
    if filtered.Some? {
      return Related(filtered.value);
    }
    var squares := new SignedSquares();
    squares.AddDistance(from, to, box);
    squares.SubtractProduct(Units(radius), Units(radius));
    SquaredIs(Units(radius));
    relation := Related(Compare(squares.positive, squares.negative));
  }

  // ---- the same relation over the reals ----

  function PointOf(v: Vec3<nat>): PairBins.Point {
    PairBins.Point(Units(v.x) as real, Units(v.y) as real, Units(v.z) as real)
  }

  lemma RealAxis(u: nat, v: nat, w: nat, d: int)
    requires var t := if u <= v then v - u else u - v;
      d == if 2 * t <= w then t else w - t
    ensures PairBins.AxisDistance(u as real, v as real, w as real) == d as real
  {
  }

  lemma NamedAxes(p: PairBins.Point, q: PairBins.Point, w: real, dx: real, dy: real, dz: real)
    requires dx == PairBins.AxisDistance(p.x, q.x, w) && dy == PairBins.AxisDistance(p.y, q.y, w)
    requires dz == PairBins.AxisDistance(p.z, q.z, w)
    ensures PairBins.SquaredDistance(p, q, w) == dx * dx + dy * dy + dz * dz
  {
  }

  lemma CastSum(a: real, b: real, c: real, x: int, y: int, z: int)
    requires a == x as real && b == y as real && c == z as real
    ensures a + b + c == (x + y + z) as real
  {
  }

  /** One axis of the real distance and its square, as the exact one has them. */
  lemma RealTerm(a: nat, b: nat, box: nat) returns (d: real)
    ensures d == PairBins.AxisDistance(Units(a) as real, Units(b) as real, Units(box) as real)
    ensures d * d == Squared(AxisDistance(a, b, box)) as real
  {
    d := PairBins.AxisDistance(Units(a) as real, Units(b) as real, Units(box) as real);
    RealAxis(Units(a), Units(b), Units(box), AxisDistance(a, b, box));
    SquaredCast(AxisDistance(a, b, box), d);
  }

  lemma RealDistance(from: Vec3<nat>, to: Vec3<nat>, box: nat)
    ensures PairBins.SquaredDistance(PointOf(from), PointOf(to), Units(box) as real) ==
            SquaredDistance(from, to, box) as real
  {
    var dx := RealTerm(from.x, to.x, box);
    var dy := RealTerm(from.y, to.y, box);
    var dz := RealTerm(from.z, to.z, box);
    NamedAxes(PointOf(from), PointOf(to), Units(box) as real, dx, dy, dz);
    CastSum(dx * dx, dy * dy, dz * dz, Squared(AxisDistance(from.x, to.x, box)),
      Squared(AxisDistance(from.y, to.y, box)), Squared(AxisDistance(from.z, to.z, box)));
  }

  lemma RealRelation(d2: int, u: nat, square: int)
    requires square == Squared(u)
    ensures PairBins.Relation(d2 as real, u as real) == Compare(d2, square)
  {
    SquaredCast(u, u as real);
  }

  /**
   * Measured in units of 2^-1074, wrapped coordinates are points of the real box, and the comparison of their real
   * distance with a radius is the exact comparison of the values.
   */
  lemma RelationIsExact(from: Vec3<nat>, to: Vec3<nat>, box: nat, radius: nat)
    requires Comparable(from, to, box, radius)
    ensures PairBins.InBox(PointOf(from), Units(box) as real) && PairBins.InBox(PointOf(to), Units(box) as real)
    ensures var d2 := PairBins.SquaredDistance(PointOf(from), PointOf(to), Units(box) as real);
      && d2 == SquaredDistance(from, to, box) as real
      && PairBins.Relation(d2, Units(radius) as real) ==
         Compare(SquaredDistance(from, to, box), Squared(Units(radius)))
  {
    RealInBox(from, box);
    RealInBox(to, box);
    RealDistance(from, to, box);
    RealRelation(SquaredDistance(from, to, box), Units(radius), Squared(Units(radius)));
  }

  lemma RealInBox(v: Vec3<nat>, box: nat)
    requires InBox(v, box)
    ensures PairBins.InBox(PointOf(v), Units(box) as real)
  {
    UnitsOrder(v.x, box);
    UnitsOrder(v.y, box);
    UnitsOrder(v.z, box);
  }
}
