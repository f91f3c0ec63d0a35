/** The mesh cell of a binary64 coordinate: the rounded cell size, the rounded quotient, and when both are exact. */
module MeshCells {
  import opened Powers
  import opened Binary64
  import opened CenterRounding

  /** The exponent of the unit of values, negated: 1 is 2^1074 units. */
  const ONE_EXPONENT := 2148 / 2

  /** The rounded width of a cell. */
  function CellSize(box: nat, planes: nat): nat
    requires planes > 0
  {
    RoundedBits(Units(box), planes, -1074)
  }

  /** The whole part of the rounded quotient of a coordinate by the cell size. */
  function RoundedCell(coordinate: nat, size: nat): nat
    requires Units(size) > 0
  {
    Quotient(Units(RoundedBits(Units(coordinate), Units(size), 0)), Pow2(ONE_EXPONENT))
  }

  /** A quotient that reaches the number of cells belongs to the last. */
  function ClampedCell(coordinate: nat, size: nat, planes: nat): (cell: nat)
    requires Units(size) > 0 && planes > 0
    ensures cell < planes
  {
    var cell := RoundedCell(coordinate, size);
    if cell >= planes then planes - 1 else cell
  }

  // ---- rounding is monotone ----

  lemma NearestEvenOrdered(a: nat, u: real, b: nat, v: real)
    requires u <= v && NearestEven(a, u) && NearestEven(b, v)
    ensures a <= b
  {
    if b < a {
      UnitsIncrease(b, a);
      assert Distance(a, u) <= Distance(b, u) && Distance(b, v) <= Distance(a, v);
      assert u == v;
      NearestEvenUnique(a, b, u);
    }
  }

  lemma ExactOrdered(u: nat, v: nat, d: nat, e: int)
    requires d > 0 && u <= v
    ensures Exact(u, d, e) <= Exact(v, d, e)
  {
    MulMonotone(u, v, Up(e));
    QuotientOrdered((u * Up(e)) as real, (v * Up(e)) as real, (d * Down(e)) as real);
  }

  lemma QuotientOrdered(a: real, b: real, k: real)
    requires k > 0.0 && a <= b
    ensures a / k <= b / k
  {
  }

  lemma RoundedOrdered(u: nat, v: nat, d: nat)
    requires d > 0 && u <= v
    ensures RoundedBits(u, d, 0) <= RoundedBits(v, d, 0)
  {
    RoundIsNearestEven(u, d, 0);
    RoundIsNearestEven(v, d, 0);
    ExactOrdered(u, v, d, 1074);
    match (RoundCenterRational(u, d, 0), RoundCenterRational(v, d, 0))
    case (Finite(a), Finite(b)) => NearestEvenOrdered(a, Exact(u, d, 1074), b, Exact(v, d, 1074));
    case (_, _) =>
  }

  lemma QuotientMonotone(m: nat, n: nat, d: nat)
    requires d > 0 && m <= n
    ensures Quotient(m, d) <= Quotient(n, d)
  {
    if Quotient(n, d) < Quotient(m, d) {
      MulMonotone(Quotient(n, d) + 1, Quotient(m, d), d);
    }
  }

  /** A larger coordinate is never in an earlier cell. */
  lemma CellMonotone(a: nat, b: nat, size: nat, planes: nat)
    requires a <= b && Units(size) > 0 && planes > 0
    ensures ClampedCell(a, size, planes) <= ClampedCell(b, size, planes)
  {
    UnitsOrder(a, b);
    RoundedOrdered(Units(a), Units(b), Units(size));
    UnitsOrder(RoundedBits(Units(a), Units(size), 0), RoundedBits(Units(b), Units(size), 0));
    QuotientMonotone(Units(RoundedBits(Units(a), Units(size), 0)), Units(RoundedBits(Units(b), Units(size), 0)),
      Pow2(ONE_EXPONENT));
  }

  // ---- the exact cell ----

  ghost predicate IsValue(n: nat) {
    exists bits :: Units(bits) == n
  }

  /** The position of a plane, from a cell size in units. */
  function PlaneUnits(plane: nat, size: nat): nat {
    plane * size
  }

  /** The cell size is exact, and so is every plane position. */
  ghost predicate PlanesAreValues(box: nat, planes: nat)
    requires planes > 0
  {
    var size := Units(CellSize(box, planes));
    && PlaneUnits(planes, size) == Units(box)
    && forall k: nat {:trigger PlaneUnits(k, size)} :: k <= planes ==> IsValue(PlaneUnits(k, size))
  }

  /** Whole numbers up to 2^53 are values. */
  lemma WholeIsValue(n: nat) returns (bits: nat)
    requires n < 2 * HIDDEN
    ensures Units(bits) == n * Pow2(ONE_EXPONENT)
  {
    bits := Representable(n, ONE_EXPONENT);
  }

  lemma PatternBelow(bits: nat) returns (g: nat)
    requires bits > 0
    ensures g > 0 && Units(bits) == Units(bits - 1) + g && Units(bits) <= 2 * HIDDEN * g
    ensures g > 1 ==> HIDDEN * g < Units(bits)
  {
    g := Pow2(UnitShift(bits - 1));
    UnitsStep(bits - 1);
    UnitsAsProduct(bits - 1);
    var m := Significand(bits - 1);
    MulMonotone(m + 1, 2 * HIDDEN, g);
    assert (m + 1) * g == m * g + g;
    if g > 1 {
      assert UnitShift(bits - 1) > 0;
      MulMonotone(HIDDEN, m, g);
    }
  }

  lemma ExactTimes(u: nat, s: nat, e: nat, t: real)
    requires s > 0 && t == Exact(u, s, e)
    ensures t * s as real == (u * Pow2(e)) as real
  {
    FractionTimes(u, s, Up(e), Down(e), t);
  }

  lemma FractionTimes(u: nat, s: nat, up: nat, down: nat, t: real)
    requires s > 0 && down == 1 && t == (u * up) as real / (s * down) as real
    ensures t * s as real == (u * up) as real
  {
    assert s * down == s;
    TimesQuotient((u * up) as real, s as real);
  }

  lemma TimesQuotient(a: real, k: real)
    requires k > 0.0
    ensures (a / k) * k == a
  {
  }

  /** The quotient of a coordinate below a plane position stays below the midpoint under the number of that plane. */
  lemma BelowMidpoint(u: nat, s: nat, n: nat, one: nat, g: nat, h: nat, plane: nat, whole: nat)
    requires s > 0 && n > 0 && plane == n * s && whole == n * one && u + g <= plane
    requires plane <= 2 * HIDDEN * g && HIDDEN * h < whole
    ensures 2 * (u * one) < (2 * whole - h) * s
  {
    ScaledGap(s, n, one, g, h, plane, whole);
    MulMonotone(u, plane - g, one);
    GapProducts(s, n, one, g, h, plane, whole);
  }

  /** h * s < 2 * g * one, from the sizes of the two gaps. */
  lemma ScaledGap(s: nat, n: nat, one: nat, g: nat, h: nat, plane: nat, whole: nat)
    requires n > 0 && g > 0 && plane == n * s && whole == n * one
    requires plane <= 2 * HIDDEN * g && HIDDEN * h < whole
    ensures h * s < 2 * (g * one)
  {
    MulMonotone(plane, 2 * HIDDEN * g, h);
    MulStrict(HIDDEN * h, whole, 2 * g);
    assert 2 * HIDDEN * g * h == HIDDEN * h * (2 * g);
    assert whole * (2 * g) == n * (2 * (g * one));
    assert plane * h == n * (h * s);
    if h * s >= 2 * (g * one) {
      MulMonotone(2 * (g * one), h * s, n);
      Commute(n, h * s);
      Commute(n, 2 * (g * one));
    }
  }

  lemma GapProducts(s: nat, n: nat, one: nat, g: nat, h: nat, plane: nat, whole: nat)
    requires plane == n * s && whole == n * one && g <= plane && h * s < 2 * (g * one)
    ensures 2 * ((plane - g) * one) < (2 * whole - h) * s
  {
    assert (plane - g) * one == plane * one - g * one;
    assert (2 * whole - h) * s == 2 * (whole * s) - h * s;
    assert plane * one == whole * s;
  }

  /** bits is the rounded value of a quotient t. */
  ghost predicate RoundsTo(u: nat, s: nat, t: real, bits: nat) {
    s > 0 && t * s as real == (u * Pow2(ONE_EXPONENT)) as real && NearestEven(bits, t)
  }

  /** The gap below a positive whole number is small against it. */
  lemma GapBelowWhole(k: nat, n: nat) returns (h: nat)
    requires k > 0 && n > 0 && Units(k) == n * Pow2(ONE_EXPONENT)
    ensures h > 0 && Units(k) == Units(k - 1) + h && HIDDEN * h < Units(k)
  {
    h := PatternBelow(k);
    OneIsLarge();
    MulMonotone(1, n, Pow2(ONE_EXPONENT));
  }

  /** Below the midpoint under a value, rounding does not reach it. */
  lemma NotReached(t: real, bits: nat, k: nat, h: nat)
    requires NearestEven(bits, t) && k > 0 && k < INFINITY && Units(k) == Units(k - 1) + h && h > 0
    requires 2.0 * t < (2 * Units(k) - h) as real
    ensures Units(bits) < Units(k)
  {
    assert Distance(bits, t) <= Distance(k - 1, t);
  }

  /** The rounded quotient stays below the number of the next plane. */
  lemma BelowNextPlane(t: real, u: nat, s: nat, bits: nat, plane: nat, k: nat, n: nat)
    requires RoundsTo(u, s, t, bits) && n > 0 && 0 < k < INFINITY && Units(k) == n * Pow2(ONE_EXPONENT)
    requires plane > 0 && Units(plane) == n * s && u <= Units(plane - 1)
    ensures Units(bits) < Units(k)
  {
    var g := PatternBelow(plane);
    var h := GapBelowWhole(k, n);
    RatioBelowMidpoint(t, u, s, n, Pow2(ONE_EXPONENT), g, h, Units(plane), Units(k));
    NotReached(t, bits, k, h);
  }

  lemma RatioBelowMidpoint(t: real, u: nat, s: nat, n: nat, one: nat, g: nat, h: nat, plane: nat, whole: nat)
    requires s > 0 && n > 0 && t * s as real == (u * one) as real && plane == n * s && whole == n * one
    requires u + g <= plane <= 2 * HIDDEN * g && HIDDEN * h < whole
    ensures 2.0 * t < (2 * whole - h) as real
  {
    BelowMidpoint(u, s, n, one, g, h, plane, whole);
    ScaledBelow(t, s, u * one, 2 * whole - h);
  }

  lemma OneIsLarge()
    ensures HIDDEN < Pow2(ONE_EXPONENT)
  {
    HiddenIsPower();
    Pow2Monotone(53, ONE_EXPONENT);
  }

  lemma ScaledBelow(t: real, s: nat, n: nat, m: int)
    requires s > 0 && t * s as real == n as real && 2 * n < m * s
    ensures 2.0 * t < m as real
  {
    DoubledQuotient(t, s, n);
    CompareQuotient(2.0 * t, s, 2 * n, m);
  }

  /** The rounded quotient does not fall below the number of the plane before. */
  lemma AboveOwnPlane(t: real, u: nat, s: nat, bits: nat, k: nat, n: nat, low: nat)
    requires RoundsTo(u, s, t, bits) && k < INFINITY && Units(k) == n * Pow2(ONE_EXPONENT) && low == n * s && low <= u
    ensures Units(k) <= Units(bits)
  {
    RatioNotBelow(t, u, s, n, low, Pow2(ONE_EXPONENT), Units(k));
    NearestToItself(k);
    NearestEvenOrdered(k, Units(k) as real, bits, t);
    UnitsOrder(k, bits);
  }

  lemma RatioNotBelow(t: real, u: nat, s: nat, n: nat, low: nat, one: nat, whole: nat)
    requires s > 0 && t * s as real == (u * one) as real && low == n * s && low <= u && whole == n * one
    ensures whole as real <= t
  {
    MulMonotone(low, u, one);
    MulAssociated(n, s, one, whole);
    CompareQuotient(t, s, u * one, whole);
  }

  lemma MulAssociated(n: nat, s: nat, one: nat, whole: nat)
    requires whole == n * one
    ensures whole * s == (n * s) * one
  {
  }

  lemma WholeIsFinite(n: nat, k: nat)
    requires n < 2 * HIDDEN && Units(k) == n * Pow2(ONE_EXPONENT)
    ensures k < INFINITY
  {
    LargestWhole();
    AboveWhole(Pow2(TOP_SHIFT));
    MulMonotone(n, 2 * HIDDEN, Pow2(ONE_EXPONENT));
    NotAbove(k, Pow2(TOP_SHIFT));
  }

  lemma LargestWhole()
    ensures 2 * HIDDEN * Pow2(ONE_EXPONENT) <= Pow2(TOP_SHIFT)
  {
    HiddenIsPower();
    PowersProduct(53, ONE_EXPONENT, TOP_SHIFT, 2 * HIDDEN);
  }

  lemma PowersProduct(a: nat, b: nat, c: nat, p: nat)
    requires a + b <= c && p == Pow2(a)
    ensures p * Pow2(b) <= Pow2(c)
  {
    Pow2Add(a, b);
    Pow2Monotone(a + b, c);
  }

  lemma NotAbove(k: nat, top: nat)
    requires Units(k) <= top < Units(INFINITY)
    ensures k < INFINITY
  {
    if k >= INFINITY {
      UnitsOrder(INFINITY, k);
    }
  }

  /** Infinity stands for 2^52 * 2^2046. */
  const TOP_SHIFT := 2047 - 1

  lemma AboveWhole(top: nat)
    requires top == Pow2(TOP_SHIFT)
    ensures top < Units(INFINITY)
  {
    AssembleUnits(HIDDEN, TOP_SHIFT);
    MulStrict(1, HIDDEN, top);
  }

  /** The finite pattern of a whole number. */
  lemma WholePattern(n: nat) returns (k: nat)
    requires n < 2 * HIDDEN
    ensures Units(k) == n * Pow2(ONE_EXPONENT) && k < INFINITY && (n > 0 ==> k > 0)
  {
    k := WholeIsValue(n);
    WholeIsFinite(n, k);
    if n > 0 {
      MulMonotone(1, n, Pow2(ONE_EXPONENT));
      assert Units(0) == 0;
    }
  }

  /** A quotient below a whole number rounds to a finite value. */
  lemma NearestQuotient(u: nat, s: nat, n: nat, ns: nat) returns (bits: nat, t: real)
    requires s > 0 && ns == n * s && u < ns && n < 2 * HIDDEN
    ensures bits == RoundedBits(u, s, 0) && t == Exact(u, s, ONE_EXPONENT) && NearestEven(bits, t)
  {
    t := Exact(u, s, ONE_EXPONENT);
    ExactTimes(u, s, ONE_EXPONENT, t);
    QuotientIsFinite(u, s, n, ns, t);
    bits := RoundedQuotient(u, s, t);
  }

  lemma QuotientRounds(u: nat, s: nat, n: nat, ns: nat) returns (bits: nat, t: real)
    requires s > 0 && ns == n * s && u < ns && n < 2 * HIDDEN
    ensures bits == RoundedBits(u, s, 0) && RoundsTo(u, s, t, bits)
  {
    bits, t := NearestQuotient(u, s, n, ns);
    ExactTimes(u, s, ONE_EXPONENT, t);
  }

  lemma RoundedQuotient(u: nat, s: nat, t: real) returns (bits: nat)
    requires s > 0 && t == Exact(u, s, ONE_EXPONENT) && t < OverflowThreshold()
    ensures bits == RoundedBits(u, s, 0) && NearestEven(bits, t)
  {
    RoundIsNearestEven(u, s, 0);
    bits := RoundedBits(u, s, 0);
  }

  lemma QuotientIsFinite(u: nat, s: nat, n: nat, ns: nat, t: real)
    requires s > 0 && ns == n * s && u < ns && n < 2 * HIDDEN && t * s as real == (u * Pow2(ONE_EXPONENT)) as real
    ensures t < OverflowThreshold()
  {
    var k := WholePattern(n);
    RatioBelow(t, u, s, n, ns, Pow2(ONE_EXPONENT), Units(k));
    BelowBoxDoesNotOverflow(k, t);
  }

  lemma RatioBelow(t: real, u: nat, s: nat, n: nat, ns: nat, one: nat, whole: nat)
    requires s > 0 && one > 0 && t * s as real == (u * one) as real
    requires ns == n * s && u < ns && whole == n * one
    ensures t < whole as real
  {
    MulStrict(u, ns, one);
    MulAssociated(n, s, one, whole);
    CompareQuotient(t, s, u * one, whole);
  }

  /** The rounded quotient has the whole part n when the coordinate lies between planes n and n + 1. */
  lemma BitsBetween(u: nat, s: nat, t: real, bits: nat, n: nat, low: nat, plane: nat)
    requires RoundsTo(u, s, t, bits) && n + 1 < 2 * HIDDEN && low == n * s && low <= u
    requires plane > 0 && Units(plane) == (n + 1) * s && u <= Units(plane - 1)
    ensures Quotient(Units(bits), Pow2(ONE_EXPONENT)) == n
  {
    var before := WholePattern(n);
    var after := WholePattern(n + 1);
    BelowNextPlane(t, u, s, bits, plane, after, n + 1);
    AboveOwnPlane(t, u, s, bits, before, n, low);
    WholePart(Units(bits), n, Pow2(ONE_EXPONENT));
  }

  lemma WholePart(v: nat, n: nat, one: nat)
    requires one > 0 && n * one <= v < (n + 1) * one
    ensures Quotient(v, one) == n
  {
    QuotientUnique(v, one, n);
  }

  /** The cell is the number of the last plane not above the coordinate, whenever the next plane is a value. */
  lemma CellBetween(w: nat, size: nat, n: nat, low: nat, plane: nat, high: nat)
    requires Units(size) > 0 && n + 1 < 2 * HIDDEN && low == n * Units(size) && low <= Units(w)
    requires Units(w) < Units(plane) == high == (n + 1) * Units(size)
    ensures RoundedCell(w, size) == n
  {
    BelowPlane(w, plane);
    BetweenGives(Units(w), size, Units(size), n, low, plane, high);
  }

  lemma BelowPlane(w: nat, plane: nat)
    requires Units(w) < Units(plane)
    ensures plane > 0 && Units(w) <= Units(plane - 1)
  {
    UnitsOrder(plane, w);
    UnitsOrder(w, plane - 1);
  }

  lemma BetweenGives(u: nat, size: nat, s: nat, n: nat, low: nat, plane: nat, high: nat)
    requires s == Units(size) > 0 && n + 1 < 2 * HIDDEN && low == n * s && low <= u
    requires plane > 0 && u < Units(plane) == high == (n + 1) * s && u <= Units(plane - 1)
    ensures Quotient(Units(RoundedBits(u, s, 0)), Pow2(ONE_EXPONENT)) == n
  {
    var bits, t := QuotientRounds(u, s, n + 1, high);
    BitsBetween(u, s, t, bits, n, low, plane);
  }

  /** Where all plane positions are values, the rounded cell is the exact one, and nothing is clamped. */
  lemma CellIsExact(w: nat, box: nat, planes: nat)
    requires 0 < planes < 2 * HIDDEN && w < box && Units(CellSize(box, planes)) > 0 && PlanesAreValues(box, planes)
    ensures RoundedCell(w, CellSize(box, planes)) == Quotient(Units(w), Units(CellSize(box, planes))) < planes
  {
    UnitsIncrease(w, box);
    ExactCell(w, CellSize(box, planes), Units(CellSize(box, planes)), planes, Units(box));
  }

  lemma ExactCell(w: nat, size: nat, s: nat, planes: nat, b: nat)
    requires s == Units(size) > 0 && planes < 2 * HIDDEN && Units(w) < b == PlaneUnits(planes, s)
    requires forall k: nat {:trigger PlaneUnits(k, s)} :: k <= planes ==> IsValue(PlaneUnits(k, s))
    ensures RoundedCell(w, size) == Quotient(Units(w), s) < planes
  {
    var n := Quotient(Units(w), s);
    NextPlane(Units(w), s, n, planes, b);
    var high := PlaneUnits(n + 1, s);
    assert IsValue(high);
    var plane :| Units(plane) == high;
    CellBetween(w, size, n, PlaneUnits(n, s), plane, high);
  }

  lemma NextPlane(u: nat, s: nat, n: nat, planes: nat, b: nat)
    requires s > 0 && n == Quotient(u, s) && u < b == PlaneUnits(planes, s)
    ensures n < planes && PlaneUnits(n, s) <= u < PlaneUnits(n + 1, s)
  {
    if n >= planes {
      MulMonotone(planes, n, s);
    }
  }

  /** Enough trailing zeros in the cell size make every plane position a value. */
  lemma ShortSizeSuffices(box: nat, planes: nat)
    requires 0 < planes && PlaneUnits(planes, Units(CellSize(box, planes))) == Units(box)
    requires PlaneUnits(planes, Significand(CellSize(box, planes))) < 2 * HIDDEN
    ensures PlanesAreValues(box, planes)
  {
    forall k: nat | k <= planes
      ensures IsValue(PlaneUnits(k, Units(CellSize(box, planes))))
    {
      ShortMultiple(k, planes, CellSize(box, planes));
    }
  }

  lemma ShortMultiple(k: nat, planes: nat, size: nat)
    requires k <= planes && PlaneUnits(planes, Significand(size)) < 2 * HIDDEN
    ensures IsValue(PlaneUnits(k, Units(size)))
  {
    UnitsAsProduct(size);
    MulMonotone(k, planes, Significand(size));
    var bits := Representable(PlaneUnits(k, Significand(size)), UnitShift(size));
    MulAssociate(k, Significand(size), Pow2(UnitShift(size)));
  }

  // ---- what holds for every box ----

  /** Rounding down loses at most a third. */
  lemma RoundedIsLarge(bits: nat, t: real)
    requires NearestEven(bits, t) && t < OverflowThreshold() && Units(bits) > 0
    ensures 2.0 * t <= (3 * Units(bits)) as real
  {
    UnitsStep(bits);
    UnitsAsProduct(bits);
    MulMonotone(1, Significand(bits), Pow2(UnitShift(bits)));
    if bits + 1 < INFINITY {
      assert Distance(bits, t) <= Distance(bits + 1, t);
    }
  }

  lemma SizeIsLarge(box: nat, planes: nat)
    requires planes > 0 && box < INFINITY && Units(CellSize(box, planes)) > 0
    ensures 2 * Units(box) <= PlaneUnits(planes, 3 * Units(CellSize(box, planes)))
  {
    var t := Exact(Units(box), planes, 0);
    ExactTimes(Units(box), planes, 0, t);
    RoundIsNearestEven(Units(box), planes, -1074);
    match RoundCenterRational(Units(box), planes, -1074)
    case Finite(bits) =>
      RoundedIsLarge(bits, t);
      ScaledLarge(t, planes, Units(box), 3 * Units(bits));
    case Overflow =>
      UnitsIncrease(box, INFINITY);
      MulMonotone(1, planes, 3 * Units(INFINITY));
  }

  lemma ScaledLarge(t: real, planes: nat, b: nat, m: nat)
    requires planes > 0 && t * planes as real == (b * Pow2(0)) as real && 2.0 * t <= m as real
    ensures 2 * b <= PlaneUnits(planes, m)
  {
    DoubledQuotient(t, planes, b);
    CompareQuotient(2.0 * t, planes, 2 * b, m);
    Commute(planes, m);
  }

  /** The quotient is never far beyond the last cell, so its conversion to an index is safe. */
  lemma QuotientFits(w: nat, box: nat, planes: nat)
    requires 0 < 2 * planes < 2 * HIDDEN && w < box < INFINITY && Units(CellSize(box, planes)) > 0
    ensures RoundedCell(w, CellSize(box, planes)) <= 2 * planes
  {
    UnitsIncrease(w, box);
    SizeIsLarge(box, planes);
    CellWithin(w, CellSize(box, planes), Units(CellSize(box, planes)), planes);
  }

  lemma CellWithin(w: nat, size: nat, s: nat, planes: nat)
    requires 0 < 2 * planes < 2 * HIDDEN && s == Units(size) > 0 && 2 * Units(w) < PlaneUnits(planes, 3 * s)
    ensures RoundedCell(w, size) <= 2 * planes
  {
    WithinTwice(Units(w), s, planes);
    var bits, t := QuotientRounds(Units(w), s, 2 * planes, PlaneUnits(2 * planes, s));
    BitsWithin(Units(w), s, t, bits, 2 * planes, PlaneUnits(2 * planes, s));
  }

  lemma BitsWithin(u: nat, s: nat, t: real, bits: nat, n: nat, ns: nat)
    requires RoundsTo(u, s, t, bits) && n < 2 * HIDDEN && ns == n * s && u < ns
    ensures Quotient(Units(bits), Pow2(ONE_EXPONENT)) <= n
  {
    var k := WholePattern(n);
    RatioBelow(t, u, s, n, ns, Pow2(ONE_EXPONENT), Units(k));
    BelowWhole(t, bits, k);
    QuotientMonotone(Units(bits), Units(k), Pow2(ONE_EXPONENT));
    QuotientUnique(Units(k), Pow2(ONE_EXPONENT), n);
  }

  lemma WithinTwice(u: nat, s: nat, planes: nat)
    requires 2 * u < PlaneUnits(planes, 3 * s)
    ensures u < PlaneUnits(2 * planes, s)
  {
    assert PlaneUnits(planes, 3 * s) == 3 * PlaneUnits(planes, s);
    assert PlaneUnits(2 * planes, s) == 2 * PlaneUnits(planes, s);
  }

  lemma BelowWhole(t: real, bits: nat, k: nat)
    requires NearestEven(bits, t) && k < INFINITY && t < Units(k) as real
    ensures Units(bits) <= Units(k)
  {
    NearestToItself(k);
    NearestEvenOrdered(bits, t, k, Units(k) as real);
    UnitsOrder(bits, k);
  }

  lemma SizeIsNearest(box: nat, planes: nat, exact: real)
    requires planes > 0 && box < INFINITY && exact == Exact(Units(box), planes, 0)
    ensures CellSize(box, planes) < INFINITY && NearestEven(CellSize(box, planes), exact)
  {
    RoundIsNearestEven(Units(box), planes, -1074);
    ExactTimes(Units(box), planes, 0, exact);
    PartOfBox(exact, planes, Units(box));
    BelowNextDoesNotOverflow(box);
  }

  lemma PartOfBox(t: real, planes: nat, b: nat)
    requires planes > 0 && t * planes as real == (b * Pow2(0)) as real
    ensures t <= b as real
  {
    if t > b as real {
      StrictProduct(b as real, t, planes as real);
    }
  }

  lemma StrictProduct(a: real, b: real, k: real)
    requires 0.0 <= a < b && k >= 1.0
    ensures a < b * k
  {
  }

  /** The whole part of a value, by its units. */
  ghost predicate IsWholePart(bits: nat, one: nat, n: nat) {
    n * one <= Units(bits) < n * one + one
  }

  lemma WholePartOf(bits: nat, one: nat, n: nat)
    requires one > 0 && n == Quotient(Units(bits), one)
    ensures IsWholePart(bits, one, n)
  {
  }

  /**
   * What the cell in use is: the whole part of the correctly rounded quotient by the correctly rounded cell size, or
   * the last cell when that whole part is none of the mesh.
   */
  lemma CellIsRoundedQuotient(w: nat, box: nat, planes: nat) returns (quotient: nat, n: nat)
    requires 0 < 2 * planes < 2 * HIDDEN && w < box < INFINITY && Units(CellSize(box, planes)) > 0
    ensures NearestEven(CellSize(box, planes), Exact(Units(box), planes, 0))
    ensures NearestEven(quotient, Exact(Units(w), Units(CellSize(box, planes)), ONE_EXPONENT))
    ensures IsWholePart(quotient, Pow2(ONE_EXPONENT), n)
    ensures ClampedCell(w, CellSize(box, planes), planes) == if n < planes then n else planes - 1
  {
    SizeIsNearest(box, planes, Exact(Units(box), planes, 0));
    UnitsIncrease(w, box);
    SizeIsLarge(box, planes);
    WithinTwice(Units(w), Units(CellSize(box, planes)), planes);
    quotient, n := WholePartOfQuotient(w, CellSize(box, planes), Units(CellSize(box, planes)), planes, 2 * planes);
  }

  lemma WholePartOfQuotient(w: nat, size: nat, s: nat, planes: nat, most: nat) returns (quotient: nat, n: nat)
    requires s == Units(size) > 0 && planes > 0 && most < 2 * HIDDEN && Units(w) < PlaneUnits(most, s)
    ensures NearestEven(quotient, Exact(Units(w), s, ONE_EXPONENT))
    ensures IsWholePart(quotient, Pow2(ONE_EXPONENT), n)
    ensures ClampedCell(w, size, planes) == if n < planes then n else planes - 1
  {
    var t;
    quotient, t := NearestQuotient(Units(w), s, most, PlaneUnits(most, s));
    n := RoundedCell(w, size);
    WholePartOf(quotient, Pow2(ONE_EXPONENT), n);
  }

  // ---- small boxes ----

  lemma SmallUnits(n: nat)
    requires n < HIDDEN
    ensures Units(n) == n
  {
    FieldsOf(n, 0, n);
  }

  /** At least one and fewer than three halves of a unit for each plane: a cell size of one unit. */
  lemma UnitCells(box: nat, planes: nat)
    requires 0 < planes <= box < HIDDEN && 2 * box < 3 * planes
    ensures CellSize(box, planes) == 1 && Units(1) == 1 && Units(box) == box
  {
    SmallUnits(1);
    SmallUnits(2);
    SmallUnits(box);
    var t := Exact(box, planes, 0);
    ExactTimes(box, planes, 0, t);
    NearOne(t, box, planes);
    RoundIsNearestEven(box, planes, -1074);
    assert Units(0) == 0;
    NeighboursSuffice(1, t);
    BelowBoxDoesNotOverflow(2, t);
    NearestEvenUnique(RoundedBits(box, planes, -1074), 1, t);
  }

  lemma NearOne(t: real, box: nat, planes: nat)
    requires 0 < planes <= box && 2 * box < 3 * planes && t * planes as real == (box * Pow2(0)) as real
    ensures 1.0 <= t && 2.0 * t < 3.0
  {
    CompareQuotient(t, planes, box, 1);
    DoubledQuotient(t, planes, box);
    CompareQuotient(2.0 * t, planes, 2 * box, 3);
  }

  /** With cells of one unit, a coordinate of n units is in cell n. */
  lemma UnitCell(n: nat)
    requires n + 1 < HIDDEN
    ensures Units(1) == 1 && Units(n) == n && RoundedCell(n, 1) == n
  {
    SmallUnits(1);
    SmallUnits(n);
    SmallUnits(n + 1);
    CellBetween(n, 1, n, n, n + 1, n + 1);
  }

  /**
   * In the box of five units over four planes the coordinate 1 is placed in cell 1, though it lies below the position
   * 5/4 of plane 1, and the quotient of the coordinate 4 is beyond the last cell and clamped.
   */
  lemma RoundingMisplaces(box: nat, planes: nat)
    requires box == 5 && planes == 4
    ensures CellSize(box, planes) == 1 && Units(1) == 1 && Units(box) == 5
    ensures ClampedCell(1, CellSize(box, planes), planes) == 1 && planes * Units(1) < 1 * Units(box)
    ensures RoundedCell(4, CellSize(box, planes)) == 4 && ClampedCell(4, CellSize(box, planes), planes) == 3
  {
    UnitCells(box, planes);
    UnitCell(1);
    UnitCell(4);
  }
}
