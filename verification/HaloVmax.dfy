/** The correctly rounded shell radius and the exact shell sweep of the maximum circular velocity. */
module HaloVmax {
  import opened Powers
  import opened Collections
  import opened Binary64
  import opened CenterRounding
  import opened BinaryBox

  // Squared distances are integers in units of 2^-2148, the square of the unit of binary64 values.

  function Square(bits: nat): nat {
    Units(bits) * Units(bits)
  }

  lemma SquaresIncrease(a: nat, b: nat)
    requires a < b
    ensures Square(a) < Square(b)
  {
    UnitsIncrease(a, b);
    SquaresOrdered(Units(a), Units(b));
  }

  /**
   * bits is the nearest value to the square root of d2, even on a tie: four times d2 lies between the
   * squares of the sums with its two neighbours.
   */
  ghost predicate NearestRoot(bits: nat, d2: nat) {
    && (bits > 0 ==>
          var low := Units(bits - 1) + Units(bits);
          low * low <= 4 * d2 && (low * low == 4 * d2 ==> bits % 2 == 0))
    && var high := Units(bits) + Units(bits + 1);
       4 * d2 <= high * high && (4 * d2 == high * high ==> bits % 2 == 0)
  }

  lemma RootCompare(t: real, d2: nat, s: nat)
    requires t >= 0.0 && t * t == d2 as real
    ensures s * s < 4 * d2 <==> s as real < 2.0 * t
    ensures s * s == 4 * d2 <==> s as real == 2.0 * t
  {
    RealSquareOrder(s as real, 2.0 * t);
    DoubledSquare(t, d2 as real);
    CastProduct(s, s);
  }

  lemma RealSquareOrder(u: real, v: real)
    requires u >= 0.0 && v >= 0.0
    ensures u < v <==> u * u < v * v
    ensures u == v <==> u * u == v * v
  {
    DifferenceOfSquares(u, v, u - v, u + v);
    if u + v > 0.0 {
      SignOfProduct(u - v, u + v);
    }
  }

  lemma SignOfProduct(a: real, b: real)
    requires b > 0.0
    ensures a * b < 0.0 <==> a < 0.0
    ensures a * b == 0.0 <==> a == 0.0
  {
  }

  lemma DoubledSquare(t: real, d: real)
    requires t * t == d
    ensures (2.0 * t) * (2.0 * t) == 4.0 * d
  {
  }

  /** The integer condition is rounding to nearest even of the real square root. */
  lemma NearestRootIsNearestEven(bits: nat, d2: nat, t: real)
    requires bits < INFINITY && t >= 0.0 && t * t == d2 as real && NearestRoot(bits, d2)
    ensures NearestEven(bits, t)
  {
    if bits > 0 {
      RootCompare(t, d2, Units(bits - 1) + Units(bits));
    }
    RootCompare(t, d2, Units(bits) + Units(bits + 1));
    NeighboursSuffice(bits, t);
  }

  lemma MidpointsOrdered(a: nat, b: nat)
    requires a < b
    ensures Units(a) + Units(a + 1) <= Units(b - 1) + Units(b)
    ensures a + 1 < b ==> Units(a) + Units(a + 1) < Units(b - 1) + Units(b)
  {
    if a + 1 < b {
      UnitsIncrease(a, b - 1);
      UnitsIncrease(a + 1, b);
    }
  }

  lemma Squeezed(s: nat, u: nat, d2: nat)
    requires u >= s && 4 * d2 <= s * s && u * u <= 4 * d2
    ensures u == s && s * s == 4 * d2
  {
    SquaresOrdered(s, u);
  }

  /** There is one nearest value. */
  lemma NearestRootUnique(a: nat, b: nat, d2: nat)
    requires NearestRoot(a, d2) && NearestRoot(b, d2)
    ensures a == b
  {
    if a < b {
      NoSecondRoot(a, b, d2);
    } else if b < a {
      NoSecondRoot(b, a, d2);
    }
  }

  lemma NoSecondRoot(low: nat, high: nat, d2: nat)
    requires low < high && NearestRoot(low, d2)
    ensures !NearestRoot(high, d2)
  {
    MidpointsOrdered(low, high);
    NotBoth(low, high, d2, Units(low) + Units(low + 1), Units(high - 1) + Units(high));
  }

  /** Midpoints as plain numbers: a root cannot be at most one and at least another, unless both are it. */
  lemma NotBoth(low: nat, high: nat, d2: nat, s: nat, u: nat)
    requires low < high && s <= u && (low + 1 < high ==> s < u)
    requires 4 * d2 <= s * s && (4 * d2 == s * s ==> low % 2 == 0)
    ensures !(u * u <= 4 * d2 && (u * u == 4 * d2 ==> high % 2 == 0))
  {
    if u * u <= 4 * d2 {
      Squeezed(s, u, d2);
    }
  }

  // ---- bracketing ----

  datatype Radius = Rounded(bits: nat) | NotRepresentable | NegativeSquare

  /** Compare the exact squared distance positive - negative with the square of a value. */
  method CompareRadius(positive: nat, negative: nat, bits: nat) returns (relation: int)
    requires negative <= positive
    ensures relation == Compare(positive - negative, Square(bits))
  {
    var u := Units(bits);
    var rhs := negative + u * u;
    relation := Compare(positive, rhs);
  }

  /** The unique adjacent pair around the root. */
  ghost predicate Brackets(lower: nat, d2: nat) {
    Square(lower) <= d2 < Square(lower + 1)
  }

  method Descend(positive: nat, negative: nat, seed: nat) returns (lower: nat, relation: int)
    requires negative < positive && positive - negative < Square(seed)
    ensures lower < seed && Brackets(lower, positive - negative)
    ensures relation == Compare(positive - negative, Square(lower))
  {
    ghost var d2: nat := positive - negative;
    assert seed > 0;
    lower := seed - 1;
    relation := CompareRadius(positive, negative, lower);
    while relation < 0
      invariant lower < seed && d2 < Square(lower + 1) && relation == Compare(d2, Square(lower))
      decreases lower
    {
      assert lower != 0;
      lower := lower - 1;
      relation := CompareRadius(positive, negative, lower);
    }
  }

  method Ascend(positive: nat, negative: nat, seed: nat) returns (ok: bool, lower: nat, relation: int)
    requires negative < positive && Square(seed) < positive - negative && seed < INFINITY
    ensures ok <==> positive - negative <= Square(INFINITY - 1)
    ensures ok ==> lower + 1 < INFINITY && Square(lower) < positive - negative <= Square(lower + 1)
    ensures ok ==> relation == Compare(positive - negative, Square(lower + 1))
  {
    ghost var d2: nat := positive - negative;
    lower := seed;
    if lower + 1 >= INFINITY {
      return false, lower, 1;
    }
    relation := CompareRadius(positive, negative, lower + 1);
    while relation > 0
      invariant lower + 1 < INFINITY && Square(lower) < d2 && relation == Compare(d2, Square(lower + 1))
      decreases INFINITY - lower
    {
      lower := lower + 1;
      if lower + 1 >= INFINITY {
        return false, lower, relation;
      }
      relation := CompareRadius(positive, negative, lower + 1);
    }
    if lower + 1 < INFINITY - 1 {
      SquaresIncrease(lower + 1, INFINITY - 1);
    }
    ok := true;
  }

  lemma LowerChosen(lower: nat, d2: nat, s: nat)
    requires Brackets(lower, d2) && s == Units(lower) + Units(lower + 1)
    requires 4 * d2 <= s * s && (4 * d2 == s * s ==> lower % 2 == 0)
    ensures NearestRoot(lower, d2)
  {
    BracketMidpoints(lower, d2);
  }

  lemma UpperChosen(lower: nat, d2: nat, s: nat)
    requires Brackets(lower, d2) && s == Units(lower) + Units(lower + 1)
    requires s * s <= 4 * d2 && (4 * d2 == s * s ==> lower % 2 == 1)
    ensures NearestRoot(lower + 1, d2)
  {
    BracketMidpoints(lower, d2);
    UpperParity(lower);
    ByMidpoints(lower + 1, d2, s, Units(lower + 1) + Units(lower + 2));
  }

  lemma UpperParity(lower: nat)
    ensures lower % 2 == 1 ==> (lower + 1) % 2 == 0
  {
  }

  lemma ByMidpoints(bits: nat, d2: nat, low: nat, high: nat)
    requires bits > 0 && low == Units(bits - 1) + Units(bits) && high == Units(bits) + Units(bits + 1)
    requires low * low <= 4 * d2 && (low * low == 4 * d2 ==> bits % 2 == 0) && 4 * d2 < high * high
    ensures NearestRoot(bits, d2)
  {
  }

  /** Choose between adjacent values by the exact midpoint. */
  method ChooseByMidpoint(positive: nat, negative: nat, lower: nat) returns (bits: nat)
    requires negative < positive && Brackets(lower, positive - negative)
    ensures bits == lower || bits == lower + 1
    ensures NearestRoot(bits, positive - negative)
  {
    ghost var s := Units(lower) + Units(lower + 1);
    var midpoint := MidpointSquare(negative, Units(lower), Units(lower + 1));
    bits := if 4 * positive < midpoint then lower
            else if 4 * positive > midpoint then lower + 1
            else if lower % 2 == 0 then lower else lower + 1;
    if bits == lower {
      LowerChosen(lower, positive - negative, s);
    } else {
      UpperChosen(lower, positive - negative, s);
    }
  }

  /** Four times the negative part plus (u + v)^2, from exact squares and products. */
  method MidpointSquare(negative: nat, u: nat, v: nat) returns (midpoint: nat)
    ensures midpoint == 4 * negative + (u + v) * (u + v)
  {
    midpoint := negative + negative + negative + negative + u * u + v * v + u * v + u * v;
    SumSquared(u, v);
  }

  lemma SumSquared(u: nat, v: nat)
    ensures (u + v) * (u + v) == u * u + v * v + u * v + u * v
  {
  }

  /** The outer midpoints of a bracketing pair are strictly outside. */
  lemma BracketMidpoints(lower: nat, d2: nat)
    requires Brackets(lower, d2)
    ensures lower > 0 ==>
      var low := Units(lower - 1) + Units(lower);
      low * low < 4 * d2
    ensures var high := Units(lower + 1) + Units(lower + 2);
      4 * d2 < high * high
  {
    if lower > 0 {
      UnitsIncrease(lower - 1, lower);
      BelowDoubled(Units(lower - 1) + Units(lower), Units(lower), d2);
    }
    UnitsIncrease(lower + 1, lower + 2);
    AboveDoubled(Units(lower + 1) + Units(lower + 2), Units(lower + 1), d2);
  }

  lemma BelowDoubled(s: nat, u: nat, d2: nat)
    requires s < 2 * u && u * u <= d2
    ensures s * s < 4 * d2
  {
    SquaresOrdered(s, 2 * u);
    assert (2 * u) * (2 * u) == 4 * (u * u);
  }

  lemma AboveDoubled(s: nat, u: nat, d2: nat)
    requires s > 2 * u && u * u > d2
    ensures s * s > 4 * d2
  {
    SquaresOrdered(2 * u, s);
    assert (2 * u) * (2 * u) == 4 * (u * u);
  }

  /** An exact root is its own nearest value. */
  lemma ExactRoot(bits: nat, d2: nat)
    requires Square(bits) == d2
    ensures NearestRoot(bits, d2)
  {
    if bits > 0 {
      UnitsIncrease(bits - 1, bits);
      BelowDoubled(Units(bits - 1) + Units(bits), Units(bits), d2);
    }
    UnitsIncrease(bits, bits + 1);
    ExactHigh(Units(bits) + Units(bits + 1), Units(bits), d2);
  }

  lemma ExactHigh(s: nat, u: nat, d2: nat)
    requires s > 2 * u && u * u == d2
    ensures s * s > 4 * d2
  {
    SquaresOrdered(2 * u, s);
    assert (2 * u) * (2 * u) == 4 * (u * u);
  }

  /**
   * From any positive finite seed, the value nearest to the root of an exact square. It is refused exactly when the
   * root exceeds the largest finite value.
   */
  method RoundedRoot(positive: nat, negative: nat, seed: nat) returns (radius: Radius)
    ensures radius == NegativeSquare <==> positive < negative
    ensures positive == negative ==> radius == Rounded(0)
    ensures positive > negative && !(0 < seed < INFINITY) ==> radius == NotRepresentable
    ensures positive > negative && 0 < seed < INFINITY ==>
      (radius == NotRepresentable <==> positive - negative > Square(INFINITY - 1))
    ensures radius.Rounded? ==>
      positive >= negative && radius.bits < INFINITY && NearestRoot(radius.bits, positive - negative)
  {
    if positive < negative {
      return NegativeSquare;
    }
    if positive == negative {
      ExactRoot(0, 0);
      return Rounded(0);
    }
    if seed == 0 || seed >= INFINITY {
      return NotRepresentable;
    }
    ghost var d2: nat := positive - negative;
    var lower, relation;
    relation := CompareRadius(positive, negative, seed);
    SeedInside(seed);
    if relation == 0 {
      ExactRoot(seed, d2);
      return Rounded(seed);
    }
    if relation < 0 {
      lower, relation := Descend(positive, negative, seed);
      if relation == 0 {
        ExactRoot(lower, d2);
        return Rounded(lower);
      }
    } else {
      var ok;
      ok, lower, relation := Ascend(positive, negative, seed);
      if !ok {
        return NotRepresentable;
      }
      if relation == 0 {
        ExactRoot(lower + 1, d2);
        return Rounded(lower + 1);
      }
    }
    var bits := ChooseByMidpoint(positive, negative, lower);
    radius := Rounded(bits);
  }

  lemma SeedInside(seed: nat)
    requires seed < INFINITY
    ensures Square(seed) <= Square(INFINITY - 1)
  {
    if seed < INFINITY - 1 {
      SquaresIncrease(seed, INFINITY - 1);
    }
  }

  // ---- the shell radius ----

  /** A squared distance whose root does not exceed the largest finite value. */
  ghost predicate Reachable(d2: nat) {
    d2 <= Square(INFINITY - 1)
  }

  /** Every squared distance inside a finite box is reachable. */
  lemma DistanceReachable(from: Vec3<nat>, to: Vec3<nat>, box: nat)
    requires box < INFINITY && InBox(from, box) && InBox(to, box)
    ensures SquaredDistance(from, to, box) >= 0 && Reachable(SquaredDistance(from, to, box))
  {
    DistanceWithinBox(from, to, box);
    SquaredIs(Units(box));
    if box < INFINITY - 1 {
      SquaresIncrease(box, INFINITY - 1);
    }
    BelowThreeQuarters(SquaredDistance(from, to, box), Squared(Units(box)), Square(box), Square(INFINITY - 1));
  }

  lemma BelowThreeQuarters(d2: nat, b: nat, b': nat, limit: nat)
    requires 4 * d2 <= 3 * b && b == b' <= limit
    ensures d2 <= limit
  {
  }

  // ---- the seed of the root ----

  /** The exact root rounded to nearest, ties to even: what the square root instruction returns. */
  function SquareRoot(d2: nat): (bits: nat)
    requires d2 < Square(INFINITY)
    ensures NearestRoot(bits, d2)
  {
    var lower := FloorRoot(d2, 0, INFINITY);
    var s := Units(lower) + Units(lower + 1);
    if 4 * d2 < s * s || (4 * d2 == s * s && lower % 2 == 0) then
      LowerChosen(lower, d2, s);
      lower
    else
      UpperChosen(lower, d2, s);
      lower + 1
  }

  function FloorRoot(d2: nat, low: nat, high: nat): (lower: nat)
    requires low < high && Square(low) <= d2 < Square(high)
    ensures Brackets(lower, d2)
    decreases high - low
  {
    if low + 1 == high then low
    else
      var middle := (low + high) / 2;
      if Square(middle) <= d2 then FloorRoot(d2, middle, high) else FloorRoot(d2, low, middle)
  }

  /** significand * 2^exponent with a significand of 53 bits. */
  datatype Dyadic = Dyadic(significand: nat, exponent: int)

  /** A positive exact square rounded to 53 bits, ties to even. */
  function PositiveDifference(d2: nat): Dyadic
    requires d2 > 0
  {
    var high: int := Msb(d2);
    if high <= 52 then Dyadic(d2 * Pow2(52 - high), high - 52)
    else
      var significand := RoundHalfEven(d2, Pow2(high - 52));
      if significand == 2 * HIDDEN then Dyadic(HIDDEN, high - 51) else Dyadic(significand, high - 52)
  }

  /** bits times 2^exponent, rounded. */
  function Scale(bits: nat, exponent: int): nat {
    RoundedBits(Units(bits), 1, exponent - 1074)
  }

  /** The mantissa in [1/2, 2) whose exponent is even, in units of 2^-2148; the mantissa in [1/2, 1) has 53 bits. */
  function EvenMantissa(dyadic: Dyadic): nat {
    dyadic.significand * Pow2(if dyadic.exponent % 2 == 0 then 2 * MANTISSA_SHIFT + 54 else 2 * MANTISSA_SHIFT + 53)
  }

  const MANTISSA_SHIFT := 1074 - 53

  /** Half of the even exponent that goes with it. */
  function HalfExponent(dyadic: Dyadic): int {
    (if dyadic.exponent % 2 == 0 then dyadic.exponent + 52 else dyadic.exponent + 53) / 2 - 1074
  }

  /** The estimate of the root: the rounded root of the mantissa, scaled by half of the exponent. */
  function Seed(d2: nat): nat
    requires d2 > 0
  {
    var dyadic := PositiveDifference(d2);
    DyadicRange(d2);
    MantissaRange(dyadic, Pow2(2 * MANTISSA_SHIFT));
    Scale(SquareRoot(EvenMantissa(dyadic)), HalfExponent(dyadic))
  }

  lemma DyadicRange(d2: nat)
    requires d2 > 0
    ensures var dyadic := PositiveDifference(d2);
      HIDDEN <= dyadic.significand < 2 * HIDDEN && dyadic.exponent >= -52
  {
    HiddenIsPower();
    var high := Msb(d2);
    if high <= 52 {
      Pow2Add(high, 52 - high);
      NormalizedRange(d2, Pow2(high), Pow2(52 - high));
    } else {
      HiddenTimes(high - 52);
      RoundedRange(d2, Pow2(high - 52), RoundHalfEven(d2, Pow2(high - 52)));
    }
  }

  /** The 53 bits are the square itself if they suffice, and otherwise the sorting key's: the nearest, ties to even. */
  lemma DifferenceIsNearest(d2: nat)
    requires d2 > 0
    ensures var dyadic := PositiveDifference(d2);
      && HIDDEN <= dyadic.significand < 2 * HIDDEN
      && (dyadic.exponent <= 0 ==> dyadic.significand == d2 * Pow2(-dyadic.exponent))
      && (dyadic.exponent > 0 ==> Assemble(dyadic.significand, dyadic.exponent) == DistanceKey(d2))
  {
    DyadicRange(d2);
  }

  /** The root of the mantissa times two to the half exponent is the root of the whole: both factors are exact. */
  lemma ExponentIsHalved(dyadic: Dyadic)
    requires dyadic.exponent >= -52
    ensures dyadic.exponent >= 2 * HalfExponent(dyadic)
    ensures EvenMantissa(dyadic) == dyadic.significand * Pow2(dyadic.exponent - 2 * HalfExponent(dyadic))
  {
  }

  lemma NormalizedRange(d2: nat, p: nat, k: nat)
    requires p <= d2 < 2 * p && p * k == HIDDEN && k > 0
    ensures HIDDEN <= d2 * k < 2 * HIDDEN
  {
    MulMonotone(p, d2, k);
    MulStrict(d2, 2 * p, k);
    assert (2 * p) * k == 2 * (p * k);
  }

  lemma RoundedRange(d2: nat, p: nat, q: nat)
    requires p > 0 && HIDDEN * p <= d2 < 2 * (HIDDEN * p) && q == RoundHalfEven(d2, p)
    ensures HIDDEN <= q <= 2 * HIDDEN
  {
    HalfEvenMultiples(d2, p);
    WithinMultiples(d2, p, q, HIDDEN, 2 * HIDDEN);
  }

  /** Half a multiple away from a number between two multiples is between them. */
  lemma WithinMultiples(n: nat, p: nat, q: nat, low: nat, high: nat)
    requires p > 0 && low * p <= n <= high * p
    requires 2 * n <= (2 * q + 1) * p && (2 * q - 1) * p <= 2 * n
    ensures low <= q <= high
  {
    assert (2 * low - 1) * p == 2 * (low * p) - p && (2 * high + 1) * p == 2 * (high * p) + p;
    if q < low {
      MulMonotone(2 * q + 1, 2 * low - 1, p);
    } else if q > high {
      MulMonotone(2 * high + 1, 2 * q - 1, p);
    }
  }

  /** A value below 1 by its significand, and its square. */
  lemma PatternSquare(m: nat, p: nat)
    requires HIDDEN <= m < 2 * HIDDEN && p == Pow2(2 * MANTISSA_SHIFT)
    ensures Units(Assemble(m, MANTISSA_SHIFT)) == m * Pow2(MANTISSA_SHIFT)
    ensures Square(Assemble(m, MANTISSA_SHIFT)) == Product(m * m, p)
  {
    AssembleUnits(m, MANTISSA_SHIFT);
    Pow2Add(MANTISSA_SHIFT, MANTISSA_SHIFT);
    SquareOfProduct(m, Pow2(MANTISSA_SHIFT));
  }

  lemma SquareOfProduct(m: nat, k: nat)
    ensures (m * k) * (m * k) == Product(m * m, k * k)
  {
    assert (m * k) * (m * k) == m * (k * (m * k));
    assert k * (m * k) == m * (k * k);
  }

  /** The pattern of 3/2. */
  const THREE_HALVES := Assemble(HIDDEN + HIDDEN / 2, MANTISSA_SHIFT + 1)

  lemma ThreeHalvesSquare(p: nat)
    requires p == Pow2(2 * MANTISSA_SHIFT)
    ensures THREE_HALVES < INFINITY && Units(THREE_HALVES) == 3 * HIDDEN * Pow2(MANTISSA_SHIFT)
    ensures Square(THREE_HALVES) == Product(9 * HIDDEN * HIDDEN, p)
  {
    Pow2Add(MANTISSA_SHIFT, MANTISSA_SHIFT);
    ThreeHalvesOf(MANTISSA_SHIFT, Pow2(MANTISSA_SHIFT));
  }

  lemma ThreeHalvesOf(k: nat, u: nat)
    requires u == Pow2(k)
    ensures Units(Assemble(HIDDEN + HIDDEN / 2, k + 1)) == 3 * HIDDEN * u
    ensures Square(Assemble(HIDDEN + HIDDEN / 2, k + 1)) == Product(9 * HIDDEN * HIDDEN, u * u)
  {
    AssembleUnits(HIDDEN + HIDDEN / 2, k + 1);
    SquareOfProduct(3 * HIDDEN, u);
  }

  /** The mantissa in multiples of the square of 2^1021, the last place of values below 1. */
  lemma MantissaRange(dyadic: Dyadic, p: nat)
    requires HIDDEN <= dyadic.significand < 2 * HIDDEN && p == Pow2(2 * MANTISSA_SHIFT)
    ensures EvenMantissa(dyadic) ==
            Product(dyadic.significand * (if dyadic.exponent % 2 == 0 then 4 * HIDDEN else 2 * HIDDEN), p)
    ensures Product(2 * HIDDEN * HIDDEN, p) <= EvenMantissa(dyadic) < Product(8 * HIDDEN * HIDDEN, p)
    ensures EvenMantissa(dyadic) < Square(INFINITY)
  {
    HiddenIsPower();
    var scale := if dyadic.exponent % 2 == 0 then 4 * HIDDEN else 2 * HIDDEN;
    Pow2Add(2 * MANTISSA_SHIFT, 53);
    Pow2Add(2 * MANTISSA_SHIFT, 54);
    ScaledMantissa(dyadic.significand, scale, p, EvenMantissa(dyadic));
    BelowSquareOfInfinity(dyadic.significand * scale, p);
  }

  lemma BelowSquareOfInfinity(n: nat, p: nat)
    requires p == Pow2(2 * MANTISSA_SHIFT) && 2 * HIDDEN * HIDDEN <= n < 8 * HIDDEN * HIDDEN
    ensures Product(2 * HIDDEN * HIDDEN, p) <= Product(n, p) < Product(8 * HIDDEN * HIDDEN, p)
    ensures Product(n, p) < Square(INFINITY)
  {
    MulStrict(n, 8 * HIDDEN * HIDDEN, p);
    MulMonotone(2 * HIDDEN * HIDDEN, n, p);
    ThreeHalvesSquare(p);
    MulMonotone(8 * HIDDEN * HIDDEN, 9 * HIDDEN * HIDDEN, p);
    SquaresIncrease(THREE_HALVES, INFINITY);
  }

  lemma ScaledMantissa(significand: nat, scale: nat, p: nat, m: nat)
    requires m == significand * (p * scale)
    ensures m == Product(significand * scale, p)
  {
  }

  /** Rounded roots are ordered as their squares. */
  lemma RootOrdered(a: nat, x: nat, b: nat, y: nat)
    requires x <= y && NearestRoot(a, x) && NearestRoot(b, y)
    ensures a <= b
  {
    if b < a {
      MidpointsOrdered(b, a);
      SquaresOrdered(Units(b) + Units(b + 1), Units(a - 1) + Units(a));
      NearestRootUnique(a, b, x);
    }
  }

  /** The largest finite value is all ones times 2^2045, and squares up to its square round below 2^1024 * 2^1024. */
  lemma DyadicBound(d2: nat)
    requires d2 > 0 && Reachable(d2)
    ensures var dyadic := PositiveDifference(d2);
      && dyadic.exponent <= TOP_EXPONENT + 53
      && (dyadic.exponent == TOP_EXPONENT + 53 ==> dyadic.significand <= 2 * HIDDEN - 2)
  {
    var p := Pow2(TOP_EXPONENT);
    var high: int := Msb(d2);
    LargestSquare(p);
    HiddenIsPower();
    Pow2Add(TOP_EXPONENT, 53);
    Pow2Add(TOP_EXPONENT + 53, 53);
    if high >= TOP_EXPONENT + 106 {
      Pow2Monotone(TOP_EXPONENT + 106, high);
      MulStrict((2 * HIDDEN - 1) * (2 * HIDDEN - 1), 4 * HIDDEN * HIDDEN, p);
      FourTimes(p, Pow2(TOP_EXPONENT + 106));
    } else if high == TOP_EXPONENT + 105 {
      HalfEvenMultiples(d2, Pow2(high - 52));
      TopRounds(d2, p, Pow2(high - 52), RoundHalfEven(d2, Pow2(high - 52)));
    }
  }

  const TOP_EXPONENT := 2 * (2046 - 1)

  lemma FourTimes(p: nat, t: nat)
    requires t == p * (2 * HIDDEN) * (2 * HIDDEN)
    ensures t == 4 * HIDDEN * HIDDEN * p
  {
  }

  lemma LargestSquare(p: nat)
    requires p == Pow2(TOP_EXPONENT)
    ensures Units(INFINITY - 1) == (2 * HIDDEN - 1) * Pow2(TOP_EXPONENT / 2)
    ensures Square(INFINITY - 1) == Product((2 * HIDDEN - 1) * (2 * HIDDEN - 1), p)
  {
    AssembleUnits(2 * HIDDEN - 1, TOP_EXPONENT / 2);
    assert INFINITY - 1 == Assemble(2 * HIDDEN - 1, TOP_EXPONENT / 2);
    Pow2Add(TOP_EXPONENT / 2, TOP_EXPONENT / 2);
    SquareOfProduct(2 * HIDDEN - 1, Pow2(TOP_EXPONENT / 2));
  }

  /** The square of the largest value rounds down. */
  lemma TopRounds(d2: nat, p: nat, unit: nat, q: nat)
    requires p > 0 && unit == p * (2 * HIDDEN) && d2 <= Product((2 * HIDDEN - 1) * (2 * HIDDEN - 1), p)
    requires (2 * q - 1) * unit <= 2 * d2
    ensures q <= 2 * HIDDEN - 2
  {
    assert Product((2 * HIDDEN - 1) * (2 * HIDDEN - 1), p) == (2 * HIDDEN - 2) * unit + p;
    assert (4 * HIDDEN - 3) * unit == 2 * ((2 * HIDDEN - 2) * unit) + unit;
    if q > 2 * HIDDEN - 2 {
      MulMonotone(4 * HIDDEN - 3, 2 * q - 1, unit);
    }
  }

  /** The root of a mantissa from 1/2 on exceeds 1/2. */
  lemma MantissaRootLow(m: nat, r: nat, p: nat)
    requires p == Pow2(2 * MANTISSA_SHIFT) && NearestRoot(r, m) && Product(2 * HIDDEN * HIDDEN, p) <= m
    ensures (HIDDEN + 1) * Pow2(MANTISSA_SHIFT) <= Units(r)
  {
    PatternSquare(HIDDEN + 1, p);
    MulMonotone((HIDDEN + 1) * (HIDDEN + 1), 2 * HIDDEN * HIDDEN, p);
    RootAbove(m, r, Assemble(HIDDEN + 1, MANTISSA_SHIFT));
  }

  /** Below 2 it does not exceed 3/2. */
  lemma MantissaRootHigh(m: nat, r: nat, p: nat)
    requires p == Pow2(2 * MANTISSA_SHIFT) && NearestRoot(r, m) && m < Product(8 * HIDDEN * HIDDEN, p)
    ensures Units(r) <= 3 * HIDDEN * Pow2(MANTISSA_SHIFT)
  {
    ThreeHalvesSquare(p);
    MulMonotone(8 * HIDDEN * HIDDEN, 9 * HIDDEN * HIDDEN, p);
    RootBelow(m, r, THREE_HALVES);
  }

  /** Up to the last but one value below 1 it stays below 1. */
  lemma MantissaRootTop(m: nat, r: nat, p: nat)
    requires p == Pow2(2 * MANTISSA_SHIFT) && NearestRoot(r, m)
    requires m <= Product((2 * HIDDEN - 1) * (2 * HIDDEN - 1), p)
    ensures Units(r) <= (2 * HIDDEN - 1) * Pow2(MANTISSA_SHIFT)
  {
    PatternSquare(2 * HIDDEN - 1, p);
    RootBelow(m, r, Assemble(2 * HIDDEN - 1, MANTISSA_SHIFT));
  }

  lemma TopMantissa(significand: nat, p: nat)
    requires significand <= 2 * HIDDEN - 2
    ensures Product(significand * (2 * HIDDEN), p) <= Product((2 * HIDDEN - 1) * (2 * HIDDEN - 1), p)
  {
    MulMonotone(significand * (2 * HIDDEN), (2 * HIDDEN - 1) * (2 * HIDDEN - 1), p);
  }

  lemma RootBelow(d2: nat, r: nat, bits: nat)
    requires NearestRoot(r, d2) && d2 <= Square(bits)
    ensures Units(r) <= Units(bits)
  {
    ExactRoot(bits, Square(bits));
    RootOrdered(r, d2, bits, Square(bits));
    UnitsOrder(bits, r);
  }

  lemma RootAbove(d2: nat, r: nat, bits: nat)
    requires NearestRoot(r, d2) && d2 >= Square(bits)
    ensures Units(r) >= Units(bits)
  {
    ExactRoot(bits, Square(bits));
    RootOrdered(bits, Square(bits), r, d2);
    UnitsOrder(r, bits);
  }

  /** More than half of the least value does not round to zero. */
  lemma ScalePositive(bits: nat, exponent: int)
    requires 2 * Units(bits) > Down(exponent) && Units(bits) > 0
    ensures Scale(bits, exponent) > 0
  {
    RoundIsNearestEven(Units(bits), 1, exponent - 1074);
    AboveHalf(Units(bits), exponent);
    assert Units(0) == 0 && Units(1) == 1;
    var t := Exact(Units(bits), 1, exponent);
    assert Distance(0, t) == t && (t <= 1.0 ==> Distance(1, t) < t) && (t > 1.0 ==> Distance(1, t) < t);
  }

  lemma AboveHalf(u: nat, e: int)
    requires 2 * u > Down(e) && u > 0
    ensures Exact(u, 1, e) > 0.5
  {
    MulMonotone(1, Up(e), u);
    QuotientAbove(u * Up(e), 1 * Down(e));
  }

  lemma QuotientAbove(a: nat, b: nat)
    requires b > 0 && 2 * a > b
    ensures a as real / b as real > 0.5
  {
    CompareQuotient(a as real / b as real, b, a, 0);
    RealHalf(a as real, b as real, a as real / b as real);
  }

  lemma RealHalf(a: real, b: real, x: real)
    requires b > 0.0 && 2.0 * a > b && x * b == a
    ensures x > 0.5
  {
    if x <= 0.5 {
      ScaleOrderReal(x, 0.5, b);
    }
  }

  /** A scaled value that does not exceed the largest finite one stays finite. */
  lemma ScaleFinite(bits: nat, exponent: int)
    requires Product(Units(bits), Up(exponent)) <= Units(INFINITY - 1)
    ensures Scale(bits, exponent) < INFINITY
  {
    RoundIsNearestEven(Units(bits), 1, exponent - 1074);
    BelowNextDoesNotOverflow(INFINITY - 1);
    QuotientBelow(Product(Units(bits), Up(exponent)), 1 * Down(exponent), Units(INFINITY - 1));
  }

  lemma QuotientBelow(a: nat, b: nat, limit: nat)
    requires b > 0 && a <= limit
    ensures a as real / b as real <= limit as real
  {
    var x := a as real / b as real;
    if x > limit as real {
      ScaleOrderReal(x, limit as real, b as real);
      MulGrows(limit, b);
      CastProduct(limit, b);
    }
  }

  /** The seed is a positive finite value for every distance that has a finite root. */
  lemma SeedIsUsable(d2: nat)
    requires d2 > 0 && Reachable(d2)
    ensures 0 < Seed(d2) < INFINITY
  {
    var dyadic := PositiveDifference(d2);
    DyadicRange(d2);
    DyadicBound(d2);
    MantissaRange(dyadic, Pow2(2 * MANTISSA_SHIFT));
    ScaledRoot(dyadic, SquareRoot(EvenMantissa(dyadic)));
  }

  lemma ScaleIsNearest(bits: nat, exponent: int)
    requires Scale(bits, exponent) < INFINITY
    ensures NearestEven(Scale(bits, exponent), Exact(Units(bits), 1, exponent))
  {
    RoundIsNearestEven(Units(bits), 1, exponent - 1074);
  }

  /** What the seed is: the nearest root of the mantissa, scaled by half of the exponent and rounded to the nearest. */
  lemma SeedIsRoundedRoot(d2: nat) returns (root: nat)
    requires d2 > 0 && Reachable(d2)
    ensures NearestRoot(root, EvenMantissa(PositiveDifference(d2)))
    ensures NearestEven(Seed(d2), Exact(Units(root), 1, HalfExponent(PositiveDifference(d2))))
  {
    var dyadic := PositiveDifference(d2);
    DyadicRange(d2);
    MantissaRange(dyadic, Pow2(2 * MANTISSA_SHIFT));
    root := SquareRoot(EvenMantissa(dyadic));
    SeedIsUsable(d2);
    ScaleIsNearest(root, HalfExponent(dyadic));
  }

  lemma ScaledRoot(dyadic: Dyadic, r: nat)
    requires HIDDEN <= dyadic.significand < 2 * HIDDEN && -52 <= dyadic.exponent <= TOP_EXPONENT + 53
    requires dyadic.exponent == TOP_EXPONENT + 53 ==> dyadic.significand <= 2 * HIDDEN - 2
    requires NearestRoot(r, EvenMantissa(dyadic))
    ensures 0 < Scale(r, HalfExponent(dyadic)) < INFINITY
  {
    var p, m, e := Pow2(2 * MANTISSA_SHIFT), EvenMantissa(dyadic), HalfExponent(dyadic);
    MantissaRange(dyadic, p);
    MantissaRootLow(m, r, p);
    MantissaRootHigh(m, r, p);
    if e == MANTISSA_SHIFT + 3 {
      TopMantissa(dyadic.significand, p);
      MantissaRootTop(m, r, p);
    }
    ScaledInside(r, e);
  }

  lemma ScaledInside(r: nat, e: int)
    requires -1074 <= e <= MANTISSA_SHIFT + 3
    requires (HIDDEN + 1) * Pow2(MANTISSA_SHIFT) <= Units(r) <= 3 * HIDDEN * Pow2(MANTISSA_SHIFT)
    requires e == MANTISSA_SHIFT + 3 ==> Units(r) <= (2 * HIDDEN - 1) * Pow2(MANTISSA_SHIFT)
    ensures 0 < Scale(r, e) < INFINITY
  {
    LargestSquare(Pow2(TOP_EXPONENT));
    AboveDown(Units(r), e, Pow2(MANTISSA_SHIFT));
    BelowLargest(Units(r), e, Pow2(MANTISSA_SHIFT));
    ScalePositive(r, e);
    ScaleFinite(r, e);
  }

  lemma AboveDown(u: nat, e: int, k: nat)
    requires -1074 <= e && k == Pow2(MANTISSA_SHIFT) && (HIDDEN + 1) * k <= u
    ensures 2 * u > Down(e) && u > 0
  {
    HiddenIsPower();
    Pow2Add(53, MANTISSA_SHIFT);
    Pow2Monotone(if e >= 0 then 0 else -e, 53 + MANTISSA_SHIFT);
  }

  lemma BelowLargest(u: nat, e: int, k: nat)
    requires e <= MANTISSA_SHIFT + 3 && k == Pow2(MANTISSA_SHIFT) && u <= 3 * HIDDEN * k
    requires e == MANTISSA_SHIFT + 3 ==> u <= (2 * HIDDEN - 1) * k
    ensures Product(u, Up(e)) <= (2 * HIDDEN - 1) * Pow2(TOP_EXPONENT / 2)
  {
    var top := e == MANTISSA_SHIFT + 3;
    var limit := MANTISSA_SHIFT + if top then 3 else 2;
    Pow2Monotone(if e >= 0 then e else 0, limit);
    MulMonotone(Up(e), Pow2(limit), u);
    Commute(u, Pow2(limit));
    Commute(u, Up(e));
    Pow2Add(MANTISSA_SHIFT, MANTISSA_SHIFT + 3);
    ScaledTop(u, k, Pow2(MANTISSA_SHIFT + 2), top);
  }

  lemma ScaledTop(u: nat, k: nat, half: nat, top: bool)
    requires u <= if top then (2 * HIDDEN - 1) * k else 3 * HIDDEN * k
    ensures u * (if top then 2 * half else half) <= (2 * HIDDEN - 1) * (k * (2 * half))
  {
    MulMonotone(u, if top then (2 * HIDDEN - 1) * k else 3 * HIDDEN * k, half);
    assert 3 * HIDDEN * k * half <= (2 * HIDDEN - 1) * k * half * 2;
  }

  method EstimateRoot(d2: nat) returns (seed: nat)
    requires d2 > 0 && Reachable(d2)
    ensures seed == Seed(d2) && 0 < seed < INFINITY
  {
    SeedIsUsable(d2);
    seed := Seed(d2);
  }

  /** The shell radius: the value nearest to the torus distance. No distance in a finite box is refused. */
  method CanonicalPeriodicRadius(center: Vec3<nat>, position: Vec3<nat>, box: nat) returns (radius: Radius)
    requires box < INFINITY && InBox(center, box) && InBox(position, box)
    ensures SquaredDistance(center, position, box) >= 0 && radius.Rounded? && radius.bits < INFINITY
    ensures NearestRoot(radius.bits, SquaredDistance(center, position, box))
  {
    var squares := new SignedSquares();
    squares.AddDistance(center, position, box);
    DistanceReachable(center, position, box);
    var estimate := 0;
    if squares.positive > squares.negative {
      estimate := EstimateRoot(squares.positive - squares.negative);
    }
    radius := RoundedRoot(squares.positive, squares.negative, estimate);
  }

  // ---- the members in distance order ----

  datatype Particle = Particle(position: Vec3<Double>, mass: Double)

  /** A member of the halo: its particle and the descriptive radius it was found at. */
  datatype Neighbor = Neighbor(index: nat, radius: Double)

  /** A cached member: its wrapped position, exact squared distance to the center and exact mass. */
  datatype Member = Member(neighbor: Neighbor, position: Vec3<nat>, d2: nat, mass: nat)

  ghost predicate FiniteVector(v: Vec3<Double>) {
    v.x.IsFinite() && v.y.IsFinite() && v.z.IsFinite()
  }

  ghost function Wrapped(v: Vec3<Double>, box: nat): Vec3<nat>
    requires FiniteVector(v) && 0 < box < INFINITY
  {
    Vec3(Wrap(v.x, box), Wrap(v.y, box), Wrap(v.z, box))
  }

  method WrapVector(v: Vec3<Double>, box: nat) returns (w: Vec3<nat>)
    requires FiniteVector(v) && 0 < box < INFINITY
    ensures w == Wrapped(v, box) && InBox(w, box)
  {
    WrapRange(v.x, box);
    WrapRange(v.y, box);
    WrapRange(v.z, box);
    w := Vec3(Wrap(v.x, box), Wrap(v.y, box), Wrap(v.z, box));
  }

  ghost predicate Fits(particles: seq<Particle>, n: Neighbor) {
    n.index < |particles| && FiniteVector(particles[n.index].position)
  }

  /** The distance and mass of a member by their meaning. */
  ghost predicate Measures(center: Vec3<nat>, box: nat, particles: seq<Particle>, m: Member) {
    && 0 < box < INFINITY && Fits(particles, m.neighbor)
    && m.position == Wrapped(particles[m.neighbor.index].position, box)
    && m.d2 == SquaredDistance(center, m.position, box)
    && m.mass == Units(particles[m.neighbor.index].mass.bits)
  }

  ghost predicate AllMeasure(center: Vec3<nat>, box: nat, particles: seq<Particle>, members: seq<Neighbor>,
                             s: seq<Member>)
  {
    && |s| == |members|
    && forall i :: 0 <= i < |s| ==> s[i].neighbor == members[i] && Measures(center, box, particles, s[i])
  }

  method CacheMember(center: Vec3<nat>, box: nat, particles: seq<Particle>, n: Neighbor) returns (m: Member)
    requires 0 < box < INFINITY && InBox(center, box) && Fits(particles, n)
    ensures m.neighbor == n && Measures(center, box, particles, m)
  {
    var position := WrapVector(particles[n.index].position, box);
    var squares := new SignedSquares();
    squares.AddDistance(center, position, box);
    DistanceReachable(center, position, box);
    m := Member(n, position, squares.positive - squares.negative, Units(particles[n.index].mass.bits));
  }

  method CacheAll(center: Vec3<nat>, box: nat, particles: seq<Particle>, members: seq<Neighbor>)
    returns (s: seq<Member>)
    requires 0 < box < INFINITY && InBox(center, box) && forall n :: n in members ==> Fits(particles, n)
    ensures AllMeasure(center, box, particles, members, s)
  {
    s := [];
    for i := 0 to |members|
      invariant AllMeasure(center, box, particles, members[..i], s)
    {
      var m := CacheMember(center, box, particles, members[i]);
      s := s + [m];
    }
    assert members[..|members|] == members;
  }

  /** A rounded sorting key: different keys prove the exact order, equal keys prove nothing. */
  ghost predicate Monotone(key: nat -> int) {
    forall a, b :: a <= b ==> key(a) <= key(b)
  }

  /** The order of the sort: rounded keys first, then the exact distances, then the particle index. */
  predicate Closer(key: nat -> int, lhs: Member, rhs: Member) {
    if key(lhs.d2) != key(rhs.d2) then key(lhs.d2) < key(rhs.d2)
    else if lhs.d2 != rhs.d2 then lhs.d2 < rhs.d2
    else lhs.neighbor.index < rhs.neighbor.index
  }

  /** The key in use: the distance rounded to 53 bits, ties to even, as a pattern whose exponent has no upper end. */
  function DistanceKey(d2: nat): nat {
    var shift := KeyShift(d2);
    Assemble(RoundHalfEven(d2, Pow2(shift)), shift)
  }

  function RoundedKey(): nat -> int {
    (d2: nat) => DistanceKey(d2)
  }

  function KeyShift(d2: nat): nat {
    if d2 == 0 || Msb(d2) <= 52 then 0 else Msb(d2) - 52
  }

  lemma KeyIsNearest(d2: nat)
    ensures BetweenMidpoints(DistanceKey(d2), d2 as real)
  {
    KeyRange(d2);
    RoundedAtShift(d2, KeyShift(d2), Pow2(KeyShift(d2)));
  }

  lemma RoundedAtShift(n: nat, k: nat, p: nat)
    requires p == Pow2(k) && n < 2 * HIDDEN * p && (k > 0 ==> n >= HIDDEN * p)
    ensures BetweenMidpoints(Assemble(RoundHalfEven(n, p), k), n as real)
  {
    var x := n as real / p as real;
    KeyQuotient(n, p, x);
    QuotientMidpoints(n, p, k, p, x, n as real);
  }

  lemma KeyQuotient(d2: nat, p: nat, x: real)
    requires p > 0 && x == d2 as real / p as real && d2 < 2 * HIDDEN * p
    ensures x * p as real == d2 as real && 0.0 <= x < (2 * HIDDEN) as real
    ensures d2 >= HIDDEN * p ==> x >= HIDDEN as real
  {
    CompareQuotient(x, p, d2, 0);
    CompareQuotient(x, p, d2, 2 * HIDDEN);
    CompareQuotient(x, p, d2, HIDDEN);
  }

  lemma KeyRange(d2: nat)
    ensures d2 < 2 * HIDDEN * Pow2(KeyShift(d2))
    ensures KeyShift(d2) > 0 ==> d2 >= HIDDEN * Pow2(KeyShift(d2))
  {
    if d2 > 0 {
      if Msb(d2) <= 52 {
        Pow2Monotone(Msb(d2), 52);
        HiddenIsPower();
      } else {
        HiddenTimes(KeyShift(d2));
      }
    }
  }

  lemma HiddenTimes(k: nat)
    ensures HIDDEN * Pow2(k) == Pow2(52 + k)
  {
    HiddenIsPower();
    Pow2Add(52, k);
  }

  lemma NearestOrdered(a: nat, b: nat, u: real, v: real)
    requires u <= v && BetweenMidpoints(a, u) && BetweenMidpoints(b, v)
    ensures a <= b
  {
    if b < a {
      MidpointsOrdered(b, a);
    }
  }

  /** Correct rounding is monotone. */
  lemma DistanceKeyIsMonotone()
    ensures Monotone(RoundedKey())
  {
    forall a: nat, b: nat | a <= b
      ensures RoundedKey()(a) <= RoundedKey()(b)
    {
      KeyIsNearest(a);
      KeyIsNearest(b);
      NearestOrdered(DistanceKey(a), DistanceKey(b), a as real, b as real);
    }
  }

  /** Distance and index as one number, for indices below the owned count. */
  function Rank(owned: nat): Member -> int {
    (m: Member) => m.d2 * owned + m.neighbor.index
  }

  lemma RankOrder(owned: nat, a: nat, i: nat, b: nat, j: nat)
    requires i < owned && j < owned
    ensures a < b ==> a * owned + i < b * owned + j
  {
    if a < b {
      MulMonotone(a + 1, b, owned);
      assert (a + 1) * owned == a * owned + owned;
    }
  }

  /** For any monotone key the comparator is the exact order of distance, then index. */
  lemma CloserIsExact(key: nat -> int, owned: nat, lhs: Member, rhs: Member)
    requires Monotone(key) && lhs.neighbor.index < owned && rhs.neighbor.index < owned
    ensures Closer(key, lhs, rhs) <==> Rank(owned)(lhs) < Rank(owned)(rhs)
  {
    RankOrder(owned, lhs.d2, lhs.neighbor.index, rhs.d2, rhs.neighbor.index);
    RankOrder(owned, rhs.d2, rhs.neighbor.index, lhs.d2, lhs.neighbor.index);
    assert lhs.d2 <= rhs.d2 ==> key(lhs.d2) <= key(rhs.d2);
    assert rhs.d2 <= lhs.d2 ==> key(rhs.d2) <= key(lhs.d2);
  }

  ghost predicate AllMembers(center: Vec3<nat>, box: nat, particles: seq<Particle>, s: seq<Member>) {
    InBox(center, box) && forall i :: 0 <= i < |s| ==> Measures(center, box, particles, s[i])
  }

  /** The comparator as it runs: the rounded keys, and the exact distances only when they are equal. */
  method Precedes(center: Vec3<nat>, box: nat, ghost particles: seq<Particle>, key: nat -> int, lhs: Member,
                  rhs: Member)
    returns (precedes: bool)
    requires InBox(center, box) && Measures(center, box, particles, lhs) && Measures(center, box, particles, rhs)
    ensures precedes <==> Closer(key, lhs, rhs)
  {
    if key(lhs.d2) != key(rhs.d2) {
      return key(lhs.d2) < key(rhs.d2);
    }
    var relation := DistancesCompare(center, lhs.position, rhs.position, box);
    precedes := if relation != 0 then relation < 0 else lhs.neighbor.index < rhs.neighbor.index;
  }

  /** Two members are on one shell when their keys and then their exact distances agree. */
  method SameShell(center: Vec3<nat>, box: nat, ghost particles: seq<Particle>, key: nat -> int, lhs: Member,
                   rhs: Member)
    returns (same: bool)
    requires InBox(center, box) && Measures(center, box, particles, lhs) && Measures(center, box, particles, rhs)
    ensures same <==> lhs.d2 == rhs.d2
  {
    if key(lhs.d2) != key(rhs.d2) {
      return false;
    }
    var relation := DistancesCompare(center, lhs.position, rhs.position, box);
    same := relation == 0;
  }

  ghost function MeasuredAt(center: Vec3<nat>, box: nat, particles: seq<Particle>): (nat, Member) -> bool {
    (i: nat, m: Member) => InBox(center, box) && Measures(center, box, particles, m)
  }

  /** A rank by its values, for loops that need not know what they are. */
  ghost predicate Ranks(rank: Member -> int, owned: nat) {
    forall m: Member {:trigger Rank(owned)(m)} :: rank(m) == Rank(owned)(m)
  }

  /** The comparator on members known to be measured: the exact order. */
  method IsBefore(center: Vec3<nat>, box: nat, ghost particles: seq<Particle>, key: nat -> int,
                  ghost rank: Member -> int, x: Member, y: Member, ghost i: nat, ghost j: nat,
                  ghost known: (nat, Member) -> bool)
    returns (before: bool)
    requires Monotone(key) && Ranks(rank, |particles|)
    requires known(i, x) && known(j, y) && Grants(known, MeasuredAt(center, box, particles))
    ensures before <==> rank(x) < rank(y)
  {
    assert MeasuredAt(center, box, particles)(i, x) && MeasuredAt(center, box, particles)(j, y);
    before := Precedes(center, box, particles, key, x, y);
    CloserIsExact(key, |particles|, x, y);
    assert rank(x) == Rank(|particles|)(x) && rank(y) == Rank(|particles|)(y);
  }

  /** Insert a member behind everything it does not precede. */
  method InsertMember(center: Vec3<nat>, box: nat, ghost particles: seq<Particle>, key: nat -> int, s: seq<Member>,
                      x: Member)
    returns (r: seq<Member>)
    requires Monotone(key) && AllMembers(center, box, particles, s) && Measures(center, box, particles, x)
    requires SortedBy(Rank(|particles|), s)
    ensures multiset(r) == multiset(s + [x]) && SortedBy(Rank(|particles|), r)
  {
    ghost var rank := Rank(|particles|);
    var k := InsertionPoint(center, box, particles, key, rank, s, x, MeasuredAt(center, box, particles));
    r := InsertAt(rank, s, k, x);
  }

  /** Behind everything the member does not precede. */
  method InsertionPoint(center: Vec3<nat>, box: nat, ghost particles: seq<Particle>, key: nat -> int,
                        ghost rank: Member -> int, s: seq<Member>, x: Member, ghost known: (nat, Member) -> bool)
    returns (k: nat)
    requires Monotone(key) && Ranks(rank, |particles|) && known(|s|, x)
    requires (forall i :: 0 <= i < |s| ==> known(i, s[i])) && Grants(known, MeasuredAt(center, box, particles))
    ensures k <= |s| && (k == |s| || rank(x) <= rank(s[k])) && (k == 0 || rank(s[k - 1]) <= rank(x))
  {
    k := |s|;
    while k > 0
      invariant 0 <= k <= |s|
      invariant k == |s| || rank(x) <= rank(s[k])
    {
      var before := IsBefore(center, box, particles, key, rank, x, s[k - 1], |s|, k - 1, known);
      if !before {
        return;
      }
      k := k - 1;
    }
  }

  lemma MembersPermuted(center: Vec3<nat>, box: nat, particles: seq<Particle>, a: seq<Member>, b: seq<Member>)
    requires multiset(a) == multiset(b) && AllMembers(center, box, particles, a)
    ensures AllMembers(center, box, particles, b)
  {
    forall i | 0 <= i < |b|
      ensures Measures(center, box, particles, b[i])
    {
      assert b[i] in multiset(a);
    }
  }

  /** The sort by rounded keys puts the members in exact distance order, ties by particle index. */
  method SortMembers(center: Vec3<nat>, box: nat, ghost particles: seq<Particle>, key: nat -> int, s: seq<Member>)
    returns (r: seq<Member>)
    requires Monotone(key) && AllMembers(center, box, particles, s)
    ensures multiset(r) == multiset(s) && SortedBy(Rank(|particles|), r)
  {
    r := [];
    for n := 0 to |s|
      invariant multiset(r) == multiset(s[..n]) && SortedBy(Rank(|particles|), r)
    {
      assert s[..n + 1] == s[..n] + [s[n]];
      MembersPermuted(center, box, particles, s[..n], r);
      r := InsertMember(center, box, particles, key, r, s[n]);
    }
    assert s[..|s|] == s;
  }

  // ---- the shell sweep ----

  ghost function MassOf(): Member -> int {
    (m: Member) => m.mass
  }

  ghost function MassWithin(d2: nat): Member -> int {
    (m: Member) => if m.d2 <= d2 then m.mass else 0
  }

  /** The mass inside the closed sphere through a distance. */
  ghost function Enclosed(members: seq<Member>, d2: nat): int {
    SumInt(MassWithin(d2), members)
  }

  ghost predicate ByDistance(s: seq<Member>) {
    forall i, j :: 0 <= i < j < |s| ==> s[i].d2 <= s[j].d2
  }

  /** The enclosed mass does not depend on the order of the members. */
  lemma EnclosedPermuted(a: seq<Member>, b: seq<Member>, d2: nat)
    requires multiset(a) == multiset(b)
    ensures Enclosed(a, d2) == Enclosed(b, d2)
  {
    SumIntPermutation(MassWithin(d2), a, b);
  }

  lemma {:induction false} NothingBeyond(s: seq<Member>, d2: nat)
    requires forall m :: m in s ==> m.d2 > d2
    ensures SumInt(MassWithin(d2), s) == 0
  {
    if s != [] {
      assert s[0] in s;
      NothingBeyond(s[1..], d2);
    }
  }

  /** In distance order the enclosed mass is the running sum at the end of the shell. */
  lemma EnclosedIsPrefix(s: seq<Member>, end: nat, d2: nat)
    requires end <= |s| && (forall i :: 0 <= i < end ==> s[i].d2 <= d2) && (forall i :: end <= i < |s| ==> s[i].d2 > d2)
    ensures Enclosed(s, d2) == SumInt(MassOf(), s[..end])
  {
    assert s == s[..end] + s[end..];
    SumIntAppend(MassWithin(d2), s[..end], s[end..]);
    NothingBeyond(s[end..], d2);
    SumIntCongruence(MassWithin(d2), MassOf(), s[..end]);
  }

  datatype Best = NoBest | Best(score: real, radius: nat)

  // The sweep argument only needs what rounding to nearest guarantees about radii.

  ghost predicate Proper(near: (nat, nat) -> bool) {
    && (forall a, b, d2 {:trigger near(a, d2), near(b, d2)} :: near(a, d2) && near(b, d2) ==> a == b)
    && (forall d2 :: near(0, d2) <==> d2 == 0)
  }

  ghost function Nearest(): (nat, nat) -> bool {
    (bits: nat, d2: nat) => NearestRoot(bits, d2)
  }

  lemma NearestIsProper()
    ensures Proper(Nearest())
  {
    forall a, b, d2 | Nearest()(a, d2) && Nearest()(b, d2)
      ensures a == b
    {
      NearestRootUnique(a, b, d2);
    }
    forall d2
      ensures Nearest()(0, d2) <==> d2 == 0
    {
      if d2 == 0 {
        ExactRoot(0, 0);
      }
      if NearestRoot(0, d2) {
        ZeroRadius(d2);
      }
    }
  }

  lemma ZeroRadius(d2: nat)
    requires NearestRoot(0, d2)
    ensures d2 == 0
  {
  }

  /** A member's candidate: a positive radius nearest to its distance. */
  ghost predicate Candidate(near: (nat, nat) -> bool, m: Member, r: nat) {
    r > 0 && near(r, m.d2)
  }

  /** The score of a member's radius, with the full mass inside its own distance. */
  ghost function ValueAt(members: seq<Member>, score: (int, int) -> real, m: Member, r: nat): real {
    score(Enclosed(members, m.d2), r)
  }

  /** m attains best, no candidate of the pool exceeds it, and ties go to the nearest. */
  ghost predicate Attains(near: (nat, nat) -> bool, members: seq<Member>, score: (int, int) -> real, pool: seq<Member>,
                          best: Best, m: Member)
  {
    && best.Best? && m in pool && Candidate(near, m, best.radius) &&
      best.score == ValueAt(members, score, m, best.radius)
    && forall q, r: nat {:trigger Candidate(near, q, r)} :: q in pool && Candidate(near, q, r) ==>
      ValueAt(members, score, q, r) <= best.score && (ValueAt(members, score, q, r) == best.score ==> m.d2 <= q.d2)
  }

  /** The brute-force maximum over a pool of members. */
  ghost predicate IsMaximum(near: (nat, nat) -> bool, members: seq<Member>, score: (int, int) -> real,
                            pool: seq<Member>, best: Best)
  {
    match best
    case NoBest => forall q :: q in pool ==> q.d2 == 0
    case Best(_, _) => exists m :: Attains(near, members, score, pool, best, m)
  }

  lemma NoCandidateAtCenter(near: (nat, nat) -> bool, m: Member, r: nat)
    requires Proper(near) && m.d2 == 0
    ensures !Candidate(near, m, r)
  {
    assert near(0, 0);
  }

  /** A shell at the center changes nothing. */
  lemma CenterShell(near: (nat, nat) -> bool, members: seq<Member>, score: (int, int) -> real, pool: seq<Member>,
                    shell: seq<Member>, best: Best)
    requires Proper(near) && IsMaximum(near, members, score, pool, best) && forall q :: q in shell ==> q.d2 == 0
    ensures IsMaximum(near, members, score, pool + shell, best)
  {
    if best.Best? {
      var m :| Attains(near, members, score, pool, best, m);
      forall q, r: nat | q in shell
        ensures !Candidate(near, q, r)
      {
        NoCandidateAtCenter(near, q, r);
      }
      assert Attains(near, members, score, pool + shell, best, m);
    }
  }

  lemma ShellValue(near: (nat, nat) -> bool, members: seq<Member>, score: (int, int) -> real, m: Member, radius: nat,
                   q: Member, r: nat)
    requires Proper(near) && near(radius, m.d2) && q.d2 == m.d2 && Candidate(near, q, r)
    ensures ValueAt(members, score, q, r) == ValueAt(members, score, m, radius)
  {
  }

  /** A shell away from the center offers one more value. */
  lemma NewShell(near: (nat, nat) -> bool, members: seq<Member>, score: (int, int) -> real, pool: seq<Member>,
                 shell: seq<Member>, m: Member, radius: nat, best: Best, next: Best)
    requires Proper(near) && IsMaximum(near, members, score, pool, best)
    requires m in shell && radius > 0 && near(radius, m.d2)
    requires (forall q :: q in shell ==> q.d2 == m.d2) && forall q :: q in pool ==> q.d2 <= m.d2
    requires next == if best.NoBest? || ValueAt(members, score, m, radius) > best.score
                     then Best(ValueAt(members, score, m, radius), radius) else best
    ensures IsMaximum(near, members, score, pool + shell, next)
  {
    forall q, r: nat | q in shell && Candidate(near, q, r)
      ensures ValueAt(members, score, q, r) == ValueAt(members, score, m, radius)
    {
      ShellValue(near, members, score, m, radius, q, r);
    }
    if best.NoBest? {
      forall q, r: nat | q in pool
        ensures !Candidate(near, q, r)
      {
        NoCandidateAtCenter(near, q, r);
      }
      assert Attains(near, members, score, pool + shell, next, m);
    } else {
      var k :| Attains(near, members, score, pool, best, k);
      assert Attains(near, members, score, pool + shell, next, if next == best then k else m);
    }
  }

  /** The maximum does not depend on the order of the members. */
  lemma MaximumPermuted(near: (nat, nat) -> bool, a: seq<Member>, b: seq<Member>, score: (int, int) -> real, best: Best)
    requires multiset(a) == multiset(b) && IsMaximum(near, a, score, a, best)
    ensures IsMaximum(near, b, score, b, best)
  {
    forall m: Member
      ensures m in a <==> m in b
    {
      assert m in a <==> m in multiset(a);
      assert m in b <==> m in multiset(b);
    }
    forall m: Member, r: nat
      ensures ValueAt(a, score, m, r) == ValueAt(b, score, m, r)
    {
      EnclosedPermuted(a, b, m.d2);
    }
    if best.Best? {
      var m :| Attains(near, a, score, a, best, m);
      assert Attains(near, b, score, b, best, m);
    }
  }

  /** The shell test inside the sweep, for members known to be measured. */
  method OnShell(center: Vec3<nat>, box: nat, ghost particles: seq<Particle>, key: nat -> int, s: seq<Member>, i: nat,
                 j: nat, ghost known: (nat, Member) -> bool)
    returns (same: bool)
    requires i < |s| && j < |s| && known(i, s[i]) && known(j, s[j]) && Grants(known, MeasuredAt(center, box, particles))
    ensures same <==> s[i].d2 == s[j].d2
  {
    assert MeasuredAt(center, box, particles)(i, s[i]);
    assert MeasuredAt(center, box, particles)(j, s[j]);
    same := SameShell(center, box, particles, key, s[i], s[j]);
  }

  /** The end of the maximal run of equal exact distances beginning at a position. */
  method ShellEnd(center: Vec3<nat>, box: nat, ghost particles: seq<Particle>, key: nat -> int, s: seq<Member>,
                  begin: nat, ghost known: (nat, Member) -> bool)
    returns (end: nat)
    requires begin < |s| && (forall i :: 0 <= i < |s| ==> known(i, s[i]))
    requires Grants(known, MeasuredAt(center, box, particles))
    ensures begin < end <= |s| && (forall j :: begin <= j < end ==> s[j].d2 == s[begin].d2)
    ensures end < |s| ==> s[end].d2 != s[begin].d2
  {
    end := begin + 1;
    while end < |s|
      invariant begin < end <= |s| && forall j :: begin <= j < end ==> s[j].d2 == s[begin].d2
    {
      var same := OnShell(center, box, particles, key, s, begin, end, known);
      if !same {
        return;
      }
      end := end + 1;
    }
  }

  /** Add the masses of a shell. */
  method ShellMass(s: seq<Member>, begin: nat, end: nat, mass: int) returns (total: int)
    requires begin <= end <= |s| && mass == SumInt(MassOf(), s[..begin])
    ensures total == SumInt(MassOf(), s[..end])
  {
    total := mass;
    for index := begin to end
      invariant total == SumInt(MassOf(), s[..index])
    {
      assert s[..index + 1] == s[..index] + [s[index]];
      SumIntAppend(MassOf(), s[..index], [s[index]]);
      total := total + s[index].mass;
    }
  }

  /** The end of the shell of equal distances beginning at a position, and the mass of the closed sphere through it. */
  method TakeShell(center: Vec3<nat>, box: nat, ghost particles: seq<Particle>, key: nat -> int, s: seq<Member>,
                   begin: nat, mass: int, ghost known: (nat, Member) -> bool)
    returns (end: nat, total: int)
    requires ByDistance(s) && begin < |s| && mass == SumInt(MassOf(), s[..begin])
    requires (forall i :: 0 <= i < |s| ==> known(i, s[i])) && Grants(known, MeasuredAt(center, box, particles))
    ensures begin < end <= |s| && (forall j :: begin <= j < end ==> s[j].d2 == s[begin].d2)
    ensures total == Enclosed(s, s[begin].d2) == SumInt(MassOf(), s[..end])
  {
    end := ShellEnd(center, box, particles, key, s, begin, known);
    total := ShellMass(s, begin, end, mass);
    EnclosedIsPrefix(s, end, s[begin].d2);
  }

  lemma ShellSplit(s: seq<Member>, begin: nat, end: nat)
    requires ByDistance(s) && begin < end <= |s| && forall j :: begin <= j < end ==> s[j].d2 == s[begin].d2
    ensures s[..end] == s[..begin] + s[begin..end] && s[begin] in s[begin..end] && s[begin] in s
    ensures forall q :: q in s[begin..end] ==> q.d2 == s[begin].d2
    ensures forall q :: q in s[..begin] ==> q.d2 <= s[begin].d2
  {
    assert s[begin..end][0] == s[begin];
  }

  /** The logarithm of every member's circular velocity is finite. */
  ghost predicate AllFinite(near: (nat, nat) -> bool, members: seq<Member>, finite: (int, int) -> bool,
                            pool: seq<Member>)
  {
    forall q, r: nat {:trigger Candidate(near, q, r)} :: q in pool && Candidate(near, q, r) ==>
      finite(Enclosed(members, q.d2), r)
  }

  /** One member of a shell decides for all. */
  lemma ShellFinite(near: (nat, nat) -> bool, members: seq<Member>, finite: (int, int) -> bool, shell: seq<Member>,
                    m: Member, radius: nat)
    requires Proper(near) && m in shell && near(radius, m.d2) && forall q :: q in shell ==> q.d2 == m.d2
    ensures AllFinite(near, members, finite, shell) <==> radius == 0 || finite(Enclosed(members, m.d2), radius)
  {
    if radius > 0 {
      assert Candidate(near, m, radius);
    }
    forall q, r: nat | q in shell && Candidate(near, q, r)
      ensures r == radius
    {
    }
  }

  /**
   * Visit the shells in distance order; the sweep fails exactly when the logarithm of some circular velocity is not
   * finite. The radius is never refused.
   */
  method SweepShells(center: Vec3<nat>, box: nat, ghost particles: seq<Particle>, key: nat -> int, s: seq<Member>,
                     score: (int, int) -> real, finite: (int, int) -> bool, ghost known: (nat, Member) -> bool)
    returns (error: Option<VmaxError>, best: Best)
    requires ByDistance(s)
    requires (forall i :: 0 <= i < |s| ==> known(i, s[i])) && Grants(known, MeasuredAt(center, box, particles))
    ensures error == if AllFinite(Nearest(), s, finite, s) then None else Some(InvalidVelocity)
    ensures error.None? ==> IsMaximum(Nearest(), s, score, s, best)
  {
    best := NoBest;
    var mass, begin: nat := 0, 0;
    NearestIsProper();
    while begin < |s|
      invariant begin <= |s| && mass == SumInt(MassOf(), s[..begin])
      invariant IsMaximum(Nearest(), s, score, s[..begin], best) && AllFinite(Nearest(), s, finite, s[..begin])
    {
      var end, total := TakeShell(center, box, particles, key, s, begin, mass, known);
      ShellSplit(s, begin, end);
      error, best := VisitShell(center, box, particles, s, score, finite, s[..begin], s[begin..end], s[begin], total,
        best, begin, known);
      if error.Some? {
        return;
      }
      mass, begin := total, end;
    }
    assert s[..|s|] == s;
    error := None;
  }

  /** Evaluate one complete shell; shells at the center are skipped. */
  method VisitShell(center: Vec3<nat>, box: nat, ghost particles: seq<Particle>, ghost s: seq<Member>,
                    score: (int, int) -> real, finite: (int, int) -> bool, ghost pool: seq<Member>,
                    ghost shell: seq<Member>, m: Member, total: int, best: Best, ghost begin: nat,
                    ghost known: (nat, Member) -> bool)
    returns (error: Option<VmaxError>, next: Best)
    requires known(begin, m) && Grants(known, MeasuredAt(center, box, particles))
    requires Proper(Nearest()) && IsMaximum(Nearest(), s, score, pool, best) && m in shell
    requires (forall q :: q in shell ==> q.d2 == m.d2)
    requires (forall q :: q in pool ==> q.d2 <= m.d2) && total == Enclosed(s, m.d2)
    ensures error == if AllFinite(Nearest(), s, finite, shell) then None else Some(InvalidVelocity)
    ensures error.None? ==> IsMaximum(Nearest(), s, score, pool + shell, next)
  {
    next := best;
    assert MeasuredAt(center, box, particles)(begin, m);
    var radius := CanonicalPeriodicRadius(center, m.position, box);
    if radius == NotRepresentable {
      return Some(RadiusOverflow), best;
    }
    assert Nearest()(radius.bits, m.d2);
    ShellFinite(Nearest(), s, finite, shell, m, radius.bits);
    if radius.bits == 0 {
      CenterShell(Nearest(), s, score, pool, shell, best);
      return None, best;
    }
    if !finite(total, radius.bits) {
      return Some(InvalidVelocity), best;
    }
    var v := score(total, radius.bits);
    next := if best.NoBest? || v > best.score then Best(v, radius.bits) else best;
    NewShell(Nearest(), s, score, pool, shell, m, radius.bits, best, next);
    error := None;
  }

  lemma SortedByDistance(owned: nat, s: seq<Member>)
    requires SortedBy(Rank(owned), s) && forall m :: m in s ==> m.neighbor.index < owned
    ensures ByDistance(s)
  {
    forall i, j | 0 <= i < j < |s|
      ensures s[i].d2 <= s[j].d2
    {
      assert s[i] in s && s[j] in s;
      assert Rank(owned)(s[i]) <= Rank(owned)(s[j]);
      RankOrder(owned, s[j].d2, s[j].neighbor.index, s[i].d2, s[i].neighbor.index);
    }
  }

  // ---- the whole computation ----

  datatype VmaxError = InvalidBox | InvalidCenter | InvalidScale | IndexOutOfRange | RepeatedMember | InvalidRadius
    | InvalidPosition | InvalidMass | RadiusOverflow | InvalidVelocity

  datatype Check = Passed | Complaint(error: VmaxError)

  datatype Vmax = Computed(best: Best) | Refused(error: VmaxError)

  ghost predicate RadiusSound(n: Neighbor) {
    n.radius.IsFinite() && SignedUnits(n.radius) >= 0
  }

  /** Finite and above zero. */
  ghost predicate Positive(d: Double) {
    d.IsFinite() && SignedUnits(d) > 0
  }

  /** A member in range with a finite radius not below zero, a finite position and a finite positive mass. */
  ghost predicate SoundMember(particles: seq<Particle>, n: Neighbor) {
    && n.index < |particles| && RadiusSound(n)
    && FiniteVector(particles[n.index].position) && Positive(particles[n.index].mass)
  }

  ghost predicate Repeats(members: seq<Neighbor>, i: nat)
    requires i < |members|
  {
    exists j :: 0 <= j < i && members[j].index == members[i].index
  }

  /** All members are sound, and none is named twice. */
  ghost predicate AllSound(particles: seq<Particle>, members: seq<Neighbor>) {
    && (forall i :: 0 <= i < |members| ==> SoundMember(particles, members[i]))
    && forall i, j :: 0 <= i < j < |members| ==> members[i].index != members[j].index
  }

  /** What a complaint says of a member: the first thing wrong with it, in this order. */
  ghost predicate Offends(particles: seq<Particle>, members: seq<Neighbor>, i: nat, error: VmaxError)
    requires i < |members|
  {
    var n := members[i];
    if n.index >= |particles| then error == IndexOutOfRange
    else
      match error
      case RepeatedMember => Repeats(members, i)
      case InvalidRadius => !Repeats(members, i) && !RadiusSound(n)
      case InvalidPosition =>
        !Repeats(members, i) && RadiusSound(n) && !FiniteVector(particles[n.index].position)
      case InvalidMass =>
        && !Repeats(members, i) && RadiusSound(n) && FiniteVector(particles[n.index].position)
        && !Positive(particles[n.index].mass)
      case _ => false
  }

  /** The complaint is about the first member that is not in order. */
  ghost predicate FirstOffence(particles: seq<Particle>, members: seq<Neighbor>, i: nat, error: VmaxError) {
    i < |members| && AllSound(particles, members[..i]) && Offends(particles, members, i, error)
  }

  lemma SoundSoFar(particles: seq<Particle>, members: seq<Neighbor>, i: nat)
    requires i < |members| && AllSound(particles, members[..i])
    requires SoundMember(particles, members[i]) && !Repeats(members, i)
    ensures AllSound(particles, members[..i + 1])
  {
    var before, after := members[..i], members[..i + 1];
    forall j, k | 0 <= j < k < |after|
      ensures after[j].index != after[k].index
    {
      assert k < i ==> before[j].index != before[k].index;
    }
    forall j | 0 <= j < |after|
      ensures SoundMember(particles, after[j])
    {
      assert j < i ==> before[j] == after[j];
    }
  }

  /** A member that is not in order spoils the whole. */
  lemma OffenceSpoils(particles: seq<Particle>, members: seq<Neighbor>, i: nat, error: VmaxError)
    requires i < |members| && Offends(particles, members, i, error)
    ensures !AllSound(particles, members)
  {
  }

  /** The checks of all members, in order, up to the first complaint. */
  method CheckMembers(particles: seq<Particle>, members: seq<Neighbor>) returns (check: Check)
    ensures check == Passed <==> AllSound(particles, members)
    ensures check.Complaint? ==> exists i :: FirstOffence(particles, members, i, check.error)
  {
    var seen: set<nat> := {};
    for i := 0 to |members|
      invariant AllSound(particles, members[..i])
      invariant forall index :: index in seen <==> exists j :: 0 <= j < i && members[j].index == index
    {
      check := CheckMember(particles, members, i, members[i].index in seen);
      if check.Complaint? {
        OffenceSpoils(particles, members, i, check.error);
        assert FirstOffence(particles, members, i, check.error);
        return;
      }
      seen := seen + {members[i].index};
      SoundSoFar(particles, members, i);
    }
    assert members[..|members|] == members;
    check := Passed;
  }

  method CheckMember(particles: seq<Particle>, members: seq<Neighbor>, i: nat, seen: bool) returns (check: Check)
    requires i < |members| && (seen <==> Repeats(members, i))
    ensures check == Passed <==> SoundMember(particles, members[i]) && !seen
    ensures check.Complaint? ==> Offends(particles, members, i, check.error)
  {
    var n := members[i];
    if n.index >= |particles| {
      return Complaint(IndexOutOfRange);
    }
    if seen {
      return Complaint(RepeatedMember);
    }
    SignOfUnits(n.radius);
    if !n.radius.IsFinite() || (n.radius.negative && n.radius.bits > 0) {
      return Complaint(InvalidRadius);
    }
    var position := particles[n.index].position;
    if !position.x.IsFinite() || !position.y.IsFinite() || !position.z.IsFinite() {
      return Complaint(InvalidPosition);
    }
    var mass := particles[n.index].mass;
    SignOfUnits(mass);
    if !mass.IsFinite() || mass.negative || mass.bits == 0 {
      return Complaint(InvalidMass);
    }
    check := Passed;
  }

  ghost predicate ValidInput(particles: seq<Particle>, center: Vec3<Double>, box: Double, members: seq<Neighbor>,
                             scale: Double)
  {
    box.IsPositive() && FiniteVector(center) && scale.IsPositive() && AllSound(particles, members)
  }

  lemma MembersFit(particles: seq<Particle>, members: seq<Neighbor>)
    requires AllSound(particles, members)
    ensures forall n :: n in members ==> Fits(particles, n)
  {
  }

  function NeighborOf(): Member -> Neighbor {
    (m: Member) => m.neighbor
  }

  /** The answer for measured members: the brute-force maximum over all of them. */
  ghost predicate Answers(center: Vec3<nat>, box: nat, particles: seq<Particle>, members: seq<Neighbor>,
                          score: (int, int) -> real, best: Best)
  {
    exists s :: AllMeasure(center, box, particles, members, s) && IsMaximum(Nearest(), s, score, s, best)
  }

  /** Exact distance order, ties by particle index. */
  ghost predicate InDistanceOrder(center: Vec3<nat>, box: nat, particles: seq<Particle>, members: seq<Neighbor>) {
    exists s :: AllMeasure(center, box, particles, members, s) && SortedBy(Rank(|particles|), s)
  }

  lemma Reordered(center: Vec3<nat>, box: nat, particles: seq<Particle>, members: seq<Neighbor>, s: seq<Member>,
                  sorted: seq<Member>, after: seq<Neighbor>)
    requires AllMeasure(center, box, particles, members, s) && multiset(sorted) == multiset(s)
    requires |after| == |sorted| && forall i :: 0 <= i < |sorted| ==> after[i] == sorted[i].neighbor
    ensures multiset(after) == multiset(members) && AllMeasure(center, box, particles, after, sorted)
  {
    MapPermuted(NeighborOf(), sorted, s);
    assert Map(NeighborOf(), sorted) == after && Map(NeighborOf(), s) == members;
    forall i | 0 <= i < |sorted|
      ensures Measures(center, box, particles, sorted[i])
    {
      assert sorted[i] in multiset(s);
    }
  }

  /** Every member's circular velocity has a finite logarithm. */
  ghost predicate Evaluable(center: Vec3<nat>, box: nat, particles: seq<Particle>, members: seq<Neighbor>,
                            finite: (int, int) -> bool)
  {
    exists s :: AllMeasure(center, box, particles, members, s) && AllFinite(Nearest(), s, finite, s)
  }

  lemma MeasuredUnique(center: Vec3<nat>, box: nat, particles: seq<Particle>, members: seq<Neighbor>, a: seq<Member>,
                       b: seq<Member>)
    requires AllMeasure(center, box, particles, members, a) && AllMeasure(center, box, particles, members, b)
    ensures a == b
  {
    forall i | 0 <= i < |a|
      ensures a[i] == b[i]
    {
      assert a[i].neighbor == b[i].neighbor && Measures(center, box, particles, a[i]);
    }
  }

  lemma FinitePermuted(a: seq<Member>, b: seq<Member>, finite: (int, int) -> bool)
    requires multiset(a) == multiset(b)
    ensures AllFinite(Nearest(), a, finite, a) <==> AllFinite(Nearest(), b, finite, b)
  {
    forall m: Member
      ensures m in a <==> m in b
    {
      assert m in a <==> m in multiset(a);
      assert m in b <==> m in multiset(b);
    }
    forall m: Member
      ensures Enclosed(a, m.d2) == Enclosed(b, m.d2)
    {
      EnclosedPermuted(a, b, m.d2);
    }
  }

  /**
   * The members are put in exact distance order, and the maximum over complete exact shells is the brute-force maximum
   * over all members, for any score. Valid input is refused exactly when the logarithm of some circular velocity is not
   * finite; no radius is. Invalid input changes nothing.
   */
  method ComputeVmax(particles: seq<Particle>, center: Vec3<Double>, box: Double, members: array<Neighbor>,
                     scale: Double, key: nat -> int, score: (int, int) -> real, finite: (int, int) -> bool)
    returns (vmax: Vmax)
    requires Monotone(key)
    modifies members
    ensures !box.IsPositive() ==> vmax == Refused(InvalidBox)
    ensures box.IsPositive() && !FiniteVector(center) ==> vmax == Refused(InvalidCenter)
    ensures box.IsPositive() && FiniteVector(center) && !scale.IsPositive() ==> vmax == Refused(InvalidScale)
    ensures box.IsPositive() && FiniteVector(center) && scale.IsPositive() && !AllSound(particles, old(members[..])) ==>
      vmax.Refused? && exists i :: FirstOffence(particles, old(members[..]), i, vmax.error)
    ensures !ValidInput(particles, center, box, old(members[..]), scale) ==> members[..] == old(members[..])
    ensures ValidInput(particles, center, box, old(members[..]), scale) ==>
      var origin := Wrapped(center, box.bits);
      && multiset(members[..]) == multiset(old(members[..]))
      && InDistanceOrder(origin, box.bits, particles, members[..])
      && (vmax.Computed? <==> Evaluable(origin, box.bits, particles, old(members[..]), finite))
      && (vmax.Refused? ==> vmax.error == InvalidVelocity)
      && (vmax.Computed? ==> Answers(origin, box.bits, particles, old(members[..]), score, vmax.best))
  {
    if !box.IsPositive() {
      return Refused(InvalidBox);
    }
    if !center.x.IsFinite() || !center.y.IsFinite() || !center.z.IsFinite() {
      return Refused(InvalidCenter);
    }
    if !scale.IsPositive() {
      return Refused(InvalidScale);
    }
    var check := CheckMembers(particles, members[..]);
    if check.Complaint? {
      return Refused(check.error);
    }
    var origin := WrapVector(center, box.bits);
    MembersFit(particles, members[..]);
    vmax := SortAndSweep(particles, origin, box.bits, members, key, score, finite);
  }

  method SortAndSweep(particles: seq<Particle>, center: Vec3<nat>, box: nat, members: array<Neighbor>, key: nat -> int,
                      score: (int, int) -> real, finite: (int, int) -> bool) returns (vmax: Vmax)
    requires Monotone(key) && 0 < box < INFINITY && InBox(center, box) && forall n :: n in members[..] ==>
      Fits(particles, n)
    modifies members
    ensures multiset(members[..]) == multiset(old(members[..]))
    ensures InDistanceOrder(center, box, particles, members[..])
    ensures vmax.Computed? <==> Evaluable(center, box, particles, old(members[..]), finite)
    ensures vmax.Refused? ==> vmax.error == InvalidVelocity
    ensures vmax.Computed? ==> Answers(center, box, particles, old(members[..]), score, vmax.best)
  {
    ghost var before := members[..];
    var cached := CacheAll(center, box, particles, members[..]);
    var sorted := SortMembers(center, box, particles, key, cached);
    SameLength(sorted, cached);
    forall i | 0 <= i < members.Length {
      members[i] := sorted[i].neighbor;
    }
    Reordered(center, box, particles, before, cached, sorted, members[..]);
    MembersPermuted(center, box, particles, cached, sorted);
    SortedByDistance(|particles|, sorted);
    var error, best := SweepShells(center, box, particles, key, sorted, score, finite,
      MeasuredAt(center, box, particles));
    FinitePermuted(sorted, cached, finite);
    EvaluableCached(center, box, particles, before, cached, finite);
    if error.Some? {
      return Refused(error.value);
    }
    MaximumPermuted(Nearest(), sorted, cached, score, best);
    vmax := Computed(best);
  }

  lemma EvaluableCached(center: Vec3<nat>, box: nat, particles: seq<Particle>, members: seq<Neighbor>,
                        cached: seq<Member>, finite: (int, int) -> bool)
    requires AllMeasure(center, box, particles, members, cached)
    ensures Evaluable(center, box, particles, members, finite) <==> AllFinite(Nearest(), cached, finite, cached)
  {
    if s :| AllMeasure(center, box, particles, members, s) && AllFinite(Nearest(), s, finite, s) {
      MeasuredUnique(center, box, particles, members, s, cached);
    }
  }
}
