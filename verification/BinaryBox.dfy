/** Wrapping and exact torus distances of binary64 coordinates in a binary64 box. */
module BinaryBox {
  import opened Powers
  import opened Binary64
  import opened CenterRounding
  import opened TorusObjective

  // ---- math::wrap ----

  /** The exact remainder of a magnitude, taken from the box when the coordinate is negative. */
  function Folded(units: nat, box: nat, negative: bool): nat
    requires box > 0
  {
    var rest := units - Quotient(units, box) * box;
    if negative && rest > 0 then box - rest else rest
  }

  /** Rounding of a folded magnitude; the box edge becomes 0. */
  function Settled(units: nat, box: nat): nat {
    match RoundCenterRational(units, 1, -1074)
    case Finite(bits) => if bits >= box then 0 else bits
    case Overflow => 0
  }

  /** Map x into [0, box): an exact remainder, plus one rounded addition of the box when x is negative. */
  function Wrap(x: Double, box: nat): nat
    requires x.IsFinite() && 0 < box < INFINITY
  {
    if !x.negative && x.bits < box then x.bits
    else
      PositiveUnits(box);
      Settled(Folded(Units(x.bits), Units(box), x.negative), box)
  }

  lemma WrapRange(x: Double, box: nat)
    requires x.IsFinite() && 0 < box < INFINITY
    ensures 0 <= Wrap(x, box) < box
  {
  }

  /** The rounded center, the box edge being the point 0. */
  ghost predicate RoundedOntoCircle(bits: nat, box: nat, c: real) {
    exists b: nat :: NearestEven(b, c) && b <= box && bits == if b == box then 0 else b
  }

  lemma RoundStaysInBox(b: nat, box: nat, c: real)
    requires box < INFINITY && NearestEven(b, c) && c < Units(box) as real
    ensures b <= box
  {
    assert Distance(b, c) <= Distance(box, c);
    if b > box {
      UnitsIncrease(box, b);
    }
  }

  lemma WrapOfRounded(bits: nat, box: nat)
    requires bits <= box && 0 < box < INFINITY
    ensures Wrap(Double(false, bits), box) == if bits == box then 0 else bits
  {
    if bits == box {
      PositiveUnits(box);
      QuotientUnique(Units(box), Units(box), 1);
    }
  }

  lemma FoldedIsRemainder(u: nat, b: nat, negative: bool, signed: int) returns (k: int)
    requires b > 0 && if negative then signed + u == 0 else signed == u
    ensures Folded(u, b, negative) < b && signed == Folded(u, b, negative) + k * b
  {
    var q := Quotient(u, b);
    k := if !negative then q else if u - q * b > 0 then -q - 1 else -q;
  }

  lemma SettledIsRounded(t: nat, box: nat)
    requires 0 < box < INFINITY && t < Units(box)
    ensures RoundedOntoCircle(Settled(t, box), box, t as real)
  {
    RoundIsNearestEven(t, 1, -1074);
    WholeIsExact(t);
    BelowBoxDoesNotOverflow(box, t as real);
    RoundStaysInBox(RoundCenterRational(t, 1, -1074).bits, box, t as real);
  }

  lemma SettledValue(bits: nat, box: nat)
    requires bits < box < INFINITY
    ensures Settled(Units(bits), box) == bits
  {
    ValueIsExact(bits);
  }

  /** The remainder of a nonnegative coordinate is a value, so nothing rounds. */
  lemma RemainderIsExact(x: nat, box: nat)
    requires box <= x < INFINITY && 0 < box
    ensures Units(box) > 0
    ensures Units(Settled(Folded(Units(x), Units(box), false), box)) == Folded(Units(x), Units(box), false)
  {
    PositiveUnits(box);
    var bits := LeftoverIsValue(box, x, Quotient(Units(x), Units(box)));
    UnitsOrder(bits, box);
    SettledValue(bits, box);
  }

  /**
   * Wrapping shifts by a whole number of boxes. A nonnegative coordinate comes out exactly; for a negative one only
   * the last addition rounds, to the nearest, the box edge being 0.
   */
  lemma WrapIsRemainder(x: Double, box: nat) returns (t: nat, k: int)
    requires x.IsFinite() && 0 < box < INFINITY
    ensures t < Units(box) && SignedUnits(x) == t + k * Units(box)
    ensures !x.negative ==> Units(Wrap(x, box)) == t
    ensures RoundedOntoCircle(Wrap(x, box), box, t as real)
  {
    if !x.negative && x.bits < box {
      t, k := Units(x.bits), 0;
      UnitsIncrease(x.bits, box);
      NearestToItself(x.bits);
    } else {
      PositiveUnits(box);
      t := Folded(Units(x.bits), Units(box), x.negative);
      k := FoldedIsRemainder(Units(x.bits), Units(box), x.negative, SignedUnits(x));
      SettledIsRounded(t, box);
      if !x.negative {
        RemainderIsExact(x.bits, box);
      }
    }
  }

  ghost predicate Apart(x: int, y: int, box: nat, boxes: int) {
    x == y + boxes * box
  }

  /** Two coordinates a whole number of boxes apart. */
  ghost predicate BoxesApart(x: Double, y: Double, box: nat) {
    exists k: int :: Apart(SignedUnits(x), SignedUnits(y), Units(box), k)
  }

  lemma SameResidue(t: nat, u: nat, b: nat, m: int)
    requires t < b && u < b && t == u + m * b
    ensures t == u
  {
    if m > 0 {
      MulMonotone(1, m, b);
    } else if m < 0 {
      MulMonotone(m, -1, b);
    }
  }

  /** Numbers are whole boxes apart exactly when their remainders are equal. */
  lemma RemaindersDecide(x: int, y: int, b: nat, t: nat, k: int, u: nat, l: int)
    requires t < b && u < b && x == t + k * b && y == u + l * b
    ensures (exists m: int :: Apart(x, y, b, m)) <==> t == u
  {
    if m: int :| Apart(x, y, b, m) {
      Shifted(k, l, m, b);
      SameResidue(t, u, b, l - k + m);
    }
    if t == u {
      Shifted(l, k, 0, b);
      assert Apart(x, y, b, k - l);
    }
  }

  lemma Shifted(k: int, l: int, m: int, b: nat)
    ensures (l - k + m) * b == l * b - k * b + m * b
  {
  }

  lemma RoundedOntoCircleUnique(a: nat, b: nat, box: nat, c: real)
    requires RoundedOntoCircle(a, box, c) && RoundedOntoCircle(b, box, c)
    ensures a == b
  {
    var p: nat :| NearestEven(p, c) && p <= box && a == if p == box then 0 else p;
    var q: nat :| NearestEven(q, c) && q <= box && b == if q == box then 0 else q;
    NearestEvenUnique(p, q, c);
  }

  /**
   * Coordinates whole boxes apart wrap to the same point; nonnegative ones do so only then. A negative coordinate can
   * also be rounded onto the point of another (WrapMerges).
   */
  lemma WrapDecides(x: Double, y: Double, box: nat)
    requires x.IsFinite() && y.IsFinite() && 0 < box < INFINITY
    ensures BoxesApart(x, y, box) ==> Wrap(x, box) == Wrap(y, box)
    ensures !x.negative && !y.negative ==> (Wrap(x, box) == Wrap(y, box) <==> BoxesApart(x, y, box))
  {
    var t, k := WrapIsRemainder(x, box);
    var u, l := WrapIsRemainder(y, box);
    RemaindersDecide(SignedUnits(x), SignedUnits(y), Units(box), t, k, u, l);
    SameRemainder(x, y, box, t, u);
  }

  lemma SameRemainder(x: Double, y: Double, box: nat, t: nat, u: nat)
    requires x.IsFinite() && y.IsFinite() && 0 < box < INFINITY
    requires RoundedOntoCircle(Wrap(x, box), box, t as real) && RoundedOntoCircle(Wrap(y, box), box, u as real)
    ensures t == u ==> Wrap(x, box) == Wrap(y, box)
  {
    if t == u {
      RoundedOntoCircleUnique(Wrap(x, box), Wrap(y, box), box, t as real);
    }
  }

  /** A box of 2^55 units: the value below it is four units away. */
  ghost predicate IsWide(box: nat) {
    0 < box < INFINITY && Units(box) == 8 * HIDDEN && Units(box - 1) == 8 * HIDDEN - 4
  }

  lemma WideBoxExists(shift: nat) returns (box: nat)
    requires shift == 3
    ensures IsWide(box)
  {
    box := Assemble(HIDDEN, shift);
    AssembleUnits(HIDDEN, shift);
    AssembleUnits(2 * HIDDEN - 1, shift - 1);
    assert box - 1 == Assemble(2 * HIDDEN - 1, shift - 1);
    assert Pow2(shift) == 8 && Pow2(shift - 1) == 4;
  }

  lemma NoWholeBox(k: int, b: nat)
    requires b > 1
    ensures -1 != k * b
  {
    if k < 0 {
      MulMonotone(k, -1, b);
    }
  }

  /** In a wide box the coordinate of minus one unit is rounded onto the box edge, the point of zero. */
  lemma WrapMerges() returns (box: nat, x: Double, y: Double)
    ensures IsWide(box) && x.IsFinite() && y.IsFinite()
    ensures Wrap(x, box) == Wrap(y, box) && !BoxesApart(x, y, box)
  {
    box := WideBoxExists(3);
    x, y := Double(true, 1), Double(false, 0);
    MergesOntoZero(box, x, y);
  }

  lemma MergesOntoZero(box: nat, x: Double, y: Double)
    requires IsWide(box) && x == Double(true, 1) && y == Double(false, 0)
    ensures Wrap(x, box) == Wrap(y, box) == 0 && !BoxesApart(x, y, box)
  {
    assert Units(1) == 1 && Units(0) == 0;
    var t, k := WrapIsRemainder(x, box);
    assert t == Units(box) - 1 + (-1 - k) * Units(box);
    SameResidue(t, Units(box) - 1, Units(box), -1 - k);
    UnitsIncrease(box, box + 1);
    NeighboursSuffice(box, t as real);
    RoundedOntoCircleUnique(Wrap(x, box), 0, box, t as real);
    forall m: int
      ensures !Apart(SignedUnits(x), SignedUnits(y), Units(box), m)
    {
      NoWholeBox(m, Units(box));
    }
  }

  // ---- the shorter way round ----

  datatype Route = Direct | AcrossBoundary | CutLocus

  datatype Classified = Classified(route: Route) | NotCanonical

  /** The rounded half of the box. */
  function Half(box: nat): nat {
    RoundedBits(Units(box), 2, -1074)
  }

  lemma HalfIsNearest(box: nat, half: real)
    requires 0 < box < INFINITY && 2.0 * half == Units(box) as real
    ensures Half(box) < INFINITY && NearestEven(Half(box), half)
  {
    RoundIsNearestEven(Units(box), 2, -1074);
    PositiveUnits(box);
    HalfIsExact(Units(box), half);
    BelowBoxDoesNotOverflow(box, half);
  }

  lemma HalfIsExact(n: nat, half: real)
    requires 2.0 * half == n as real
    ensures Exact(n, 2, 0) == half
  {
    assert Up(0) == 1 && Down(0) == 1;
  }

  /** The rounded difference of two magnitudes. */
  function Subtract(high: nat, low: nat): nat
    requires Units(low) <= Units(high)
  {
    RoundedBits(Units(high) - Units(low), 1, -1074)
  }

  /** Sterbenz: a difference that does not exceed the smaller operand is exact. */
  lemma SubtractIsExact(high: nat, low: nat)
    requires low <= high < INFINITY && 0 <= Units(high) - Units(low) <= Units(low)
    ensures Units(Subtract(high, low)) == Units(high) - Units(low)
  {
    var bits := DifferenceIsValue(high, low);
    SubtractGives(high, low, bits);
  }

  lemma DifferenceIsValue(high: nat, low: nat) returns (bits: nat)
    requires low <= high && 0 <= Units(high) - Units(low) <= Units(low)
    ensures bits <= low && Units(bits) == Units(high) - Units(low)
  {
    bits := LeftoverIsValue(low, high, 1);
    UnitsOrder(low, bits);
  }

  lemma SubtractGives(high: nat, low: nat, bits: nat)
    requires bits < INFINITY && Units(high) - Units(low) == Units(bits)
    ensures Subtract(high, low) == bits
  {
    ValueIsExact(bits);
  }

  /** The exact relation between the two ways round. */
  ghost function ExactRoute(high: nat, low: nat, box: nat): Route {
    var twice := 2 * (Units(high) - Units(low));
    if twice < Units(box) then Direct else if twice > Units(box) then AcrossBoundary else CutLocus
  }

  /** The square, by its differences. */
  ghost function Squared(d: int): int
    decreases if d < 0 then 1 - d else d
  {
    if d < 0 then Squared(-d) else if d == 0 then 0 else Squared(d - 1) + 2 * d - 1
  }

  lemma {:induction false} SquaredIs(d: int)
    ensures Squared(d) == d * d
    decreases if d < 0 then 1 - d else d
  {
    if d < 0 {
      SquaredIs(-d);
    } else if d > 0 {
      SquaredIs(d - 1);
    }
  }

  function Product(u: nat, v: nat): nat {
    u * v
  }

  function Compare(a: int, b: int): int {
    if a < b then -1 else if a > b then 1 else 0
  }

  /** The exact accumulators of a signed sum of products: what was added and what was subtracted. */
  class SignedSquares {
    var positive: nat
    var negative: nat

    constructor ()
      ensures positive == negative == 0
    {
      positive, negative := 0, 0;
    }

    function Value(): int
      reads this
    {
      positive - negative
    }

    method AddProduct(u: nat, v: nat)
      modifies this
      ensures Value() == old(Value()) + Product(u, v)
    {
      positive := positive + Product(u, v);
    }

    method SubtractProduct(u: nat, v: nat)
      modifies this
      ensures Value() == old(Value()) - Product(u, v)
    {
      negative := negative + Product(u, v);
    }

    method AddDirect(high: nat, low: nat)
      modifies this
      ensures Value() == old(Value()) + Squared(Units(high) - Units(low))
    {
      var h: int, l: int := Units(high), Units(low);
      AddProduct(h, h);
      AddProduct(l, l);
      SubtractProduct(h, l);
      SubtractProduct(h, l);
      SquareOfDifference(h, l, h - l);
    }

    method AddAcross(box: nat, high: nat, low: nat)
      modifies this
      ensures Value() == old(Value()) + Squared(Units(box) - Units(high) + Units(low))
    {
      var b: int, h: int, l: int := Units(box), Units(high), Units(low);
      AddProduct(b, b);
      AddProduct(h, h);
      AddProduct(l, l);
      AddProduct(b, l);
      AddProduct(b, l);
      SubtractProduct(b, h);
      SubtractProduct(b, h);
      SubtractProduct(h, l);
      SubtractProduct(h, l);
      SquareAcross(b, h, l, b - h + l);
    }

    /** Add the squared axis distance along the shorter way; equal coordinates add nothing. */
    method AddAxis(from: nat, to: nat, box: nat)
      requires from < box < INFINITY && to < box
      modifies this
      ensures Value() == old(Value()) + Squared(AxisDistance(from, to, box))
    {
      UnitsOrder(from, to);
      UnitsOrder(0, box);
      if from == to {
        return;
      }
      var found := ShortestRoute(from, to, box);
      var high, low := if from > to then from else to, if from > to then to else from;
      if found == Classified(AcrossBoundary) {
        AddAcross(box, high, low);
      } else {
        AddDirect(high, low);
      }
    }

    method AddDistance(from: Vec3<nat>, to: Vec3<nat>, box: nat)
      requires box < INFINITY && InBox(from, box) && InBox(to, box)
      modifies this
      ensures Value() == old(Value()) + SquaredDistance(from, to, box)
    {
      AddAxis(from.x, to.x, box);
      AddAxis(from.y, to.y, box);
      AddAxis(from.z, to.z, box);
    }
  }

  lemma SquaredOrder(u: nat, v: nat)
    ensures u < v <==> Squared(u) < Squared(v)
    ensures u == v <==> Squared(u) == Squared(v)
  {
    SquaredIs(u);
    SquaredIs(v);
    SquaresOrdered(u, v);
  }

  lemma SquareOfDifference(h: nat, l: nat, d: int)
    requires d == h - l
    ensures Squared(d) == Product(h, h) + Product(l, l) - Product(h, l) - Product(h, l)
  {
    SquaredIs(d);
  }

  lemma SquareAcross(b: nat, h: nat, l: nat, d: int)
    requires d == b - h + l
    ensures Squared(d) == Product(b, b) + Product(h, h) + Product(l, l) + Product(b, l) + Product(b, l)
      - Product(b, h) - Product(b, h) - Product(h, l) - Product(h, l)
  {
    SquareOfSum(b - h, l, d, (b - h) * l);
    SquareOfDifference(b, h, b - h);
    ProductOfDifference(b, h, l);
  }

  lemma SquareOfSum(a: int, l: nat, d: int, al: int)
    requires d == a + l && al == a * l
    ensures Squared(d) == Squared(a) + Product(l, l) + 2 * al
  {
    SquaredIs(a);
    SquaredIs(d);
    Binomial(a, l, d);
  }

  lemma Expand(x: int, a: int, b: int, sum: int)
    requires sum == a + b
    ensures x * sum == x * a + x * b
  {
  }

  lemma Binomial(a: int, l: int, d: int)
    requires d == a + l
    ensures d * d == a * a + l * l + 2 * (a * l)
  {
    Expand(d, a, l, d);
    Expand(a, a, l, d);
    Expand(l, a, l, d);
    Commute(d, a);
    Commute(d, l);
    Commute(l, a);
  }

  lemma ProductOfDifference(b: nat, h: nat, l: nat)
    ensures (b - h) * l == Product(b, l) - Product(h, l)
  {
  }

  /** Compare two signed sums without subtracting. */
  method CompareSigned(lhs: SignedSquares, rhs: SignedSquares) returns (relation: int)
    ensures relation == Compare(lhs.Value(), rhs.Value())
  {
    relation := Compare(lhs.positive + rhs.negative, lhs.negative + rhs.positive);
  }

  /** The route between wrapped coordinates, by the half box where that is a value, otherwise by exact squares. */
  method ShortestRoute(from: nat, to: nat, box: nat) returns (found: Classified)
    ensures found == if 0 < box < INFINITY && from < box && to < box
                     then Classified(ExactRoute(if from > to then from else to, if from > to then to else from, box))
                     else NotCanonical
  {
    if box == 0 || box >= INFINITY || from >= box || to >= box {
      return NotCanonical;
    }
    var high, low := if from > to then from else to, if from > to then to else from;
    var half := Half(box);
    var route;
    if 0 < half < INFINITY && Units(half) + Units(half) == Units(box) {
      route := RouteByHalf(high, low, half, box);
    } else {
      route := RouteBySquares(high, low, box);
    }
    found := Classified(route);
  }

  method RouteByHalf(high: nat, low: nat, half: nat, box: nat) returns (route: Route)
    requires low <= high < box < INFINITY && 2 * Units(half) == Units(box)
    ensures route == ExactRoute(high, low, box)
  {
    UnitsOrder(high, half);
    UnitsOrder(high, box);
    if high < half {
      return Direct;
    }
    var threshold := Subtract(high, half);
    SubtractIsExact(high, half);
    UnitsOrder(low, threshold);
    route := if low > threshold then Direct else if low < threshold then AcrossBoundary else CutLocus;
  }

  method RouteBySquares(high: nat, low: nat, box: nat) returns (route: Route)
    requires low <= high < box
    ensures route == ExactRoute(high, low, box)
  {
    var direct := new SignedSquares();
    var across := new SignedSquares();
    direct.AddDirect(high, low);
    across.AddAcross(box, high, low);
    var relation := CompareSigned(direct, across);
    UnitsOrder(low, high);
    UnitsOrder(high, box);
    SquaredOrder(Units(high) - Units(low), Units(box) - Units(high) + Units(low));
    route := if relation < 0 then Direct else if relation > 0 then AcrossBoundary else CutLocus;
  }

  // ---- the exact torus distance ----

  ghost predicate InBox(p: Vec3<nat>, box: nat) {
    p.x < box && p.y < box && p.z < box
  }

  /** The shorter way round between two wrapped coordinates, in units of 2^-1074. */
  ghost function AxisDistance(a: nat, b: nat, box: nat): int {
    var direct := if Units(a) <= Units(b) then Units(b) - Units(a) else Units(a) - Units(b);
    if 2 * direct <= Units(box) then direct else Units(box) - direct
  }

  /** The squared distance on the torus, in units of 2^-2148. */
  ghost function SquaredDistance(from: Vec3<nat>, to: Vec3<nat>, box: nat): int {
    Squared(AxisDistance(from.x, to.x, box)) + Squared(AxisDistance(from.y, to.y, box)) +
      Squared(AxisDistance(from.z, to.z, box))
  }

  /** Its axis terms are the squared distance on the circle ... */
  lemma AxisIsTorus(a: nat, b: nat, box: nat)
    requires a < box && b < box
    ensures Squared(AxisDistance(a, b, box)) as real ==
      TorusSquare(Units(a) as real, Units(box) as real, Units(b) as real)
  {
    WholeTorus(Units(a), Units(b), Units(box), AxisDistance(a, b, box));
  }

  lemma WholeTorus(u: nat, v: nat, b: nat, d: int)
    requires var t := if u <= v then v - u else u - v;
      d == if 2 * t <= b then t else b - t
    ensures Squared(d) as real == TorusSquare(u as real, b as real, v as real)
  {
    var t := if u as real <= v as real then v as real - u as real else u as real - v as real;
    SquaredCast(d, if 2.0 * t <= b as real then t else b as real - t);
  }

  lemma SquaredCast(d: int, r: real)
    requires r == d as real
    ensures Squared(d) as real == r * r
  {
    SquaredIs(d);
  }

  /** ... hence the least over all periodic images. */
  lemma AxisIsLeast(a: nat, b: nat, box: nat, k: int)
    requires a < box && b < box
    ensures Squared(AxisDistance(a, b, box)) <= Squared(Units(a) + k * Units(box) - Units(b))
  {
    UnitsOrder(a, box);
    UnitsOrder(b, box);
    AxisIsTorus(a, b, box);
    LeastOfImages(Units(a), Units(b), Units(box), k, Units(a) + k * Units(box), Squared(AxisDistance(a, b, box)));
  }

  lemma LeastOfImages(u: nat, v: nat, b: nat, k: int, image: int, square: int)
    requires u < b && v < b && image == u + k * b && square as real == TorusSquare(u as real, b as real, v as real)
    ensures square <= Squared(image - v)
  {
    TorusSquareIsLeast(u, b, v as real, k, image);
    BelowSquare(square, image - v, image as real - v as real);
  }

  lemma BelowSquare(square: int, d: int, r: real)
    requires r == d as real && square as real <= r * r
    ensures square <= Squared(d)
  {
    SquaredCast(d, r);
  }

  lemma AxisWithinHalf(a: nat, b: nat, box: nat)
    requires a < box && b < box
    ensures 0 <= 2 * AxisDistance(a, b, box) <= Units(box)
    ensures 4 * Squared(AxisDistance(a, b, box)) <= Squared(Units(box))
  {
    UnitsOrder(a, box);
    UnitsOrder(b, box);
    HalfSquared(AxisDistance(a, b, box), Units(box));
  }

  lemma HalfSquared(d: nat, u: nat)
    requires 2 * d <= u
    ensures 4 * Squared(d) <= Squared(u)
  {
    SquaredIs(d);
    SquaredIs(u);
    SquaresOrdered(2 * d, u);
    assert (2 * d) * (2 * d) == 4 * (d * d);
  }

  /** No distance exceeds three quarters of the squared box, and none is negative. */
  lemma DistanceWithinBox(from: Vec3<nat>, to: Vec3<nat>, box: nat)
    requires InBox(from, box) && InBox(to, box)
    ensures 0 <= 4 * SquaredDistance(from, to, box) <= 3 * Squared(Units(box))
  {
    AxisWithinHalf(from.x, to.x, box);
    AxisWithinHalf(from.y, to.y, box);
    AxisWithinHalf(from.z, to.z, box);
    SquareNotNegative(AxisDistance(from.x, to.x, box));
    SquareNotNegative(AxisDistance(from.y, to.y, box));
    SquareNotNegative(AxisDistance(from.z, to.z, box));
  }

  lemma SquareNotNegative(d: int)
    ensures Squared(d) >= 0
  {
    SquaredIs(d);
  }

  /** Compare two exact distances from one origin. */
  method DistancesCompare(origin: Vec3<nat>, lhs: Vec3<nat>, rhs: Vec3<nat>, box: nat) returns (relation: int)
    requires box < INFINITY && InBox(origin, box) && InBox(lhs, box) && InBox(rhs, box)
    ensures relation == Compare(SquaredDistance(origin, lhs, box), SquaredDistance(origin, rhs, box))
  {
    var left := new SignedSquares();
    var right := new SignedSquares();
    left.AddDistance(origin, lhs, box);
    right.AddDistance(origin, rhs, box);
    relation := CompareSigned(left, right);
  }
}
