/** The periodic intrinsic mass center along each axis, from binary64 samples to a binary64 result. */
module PeriodicCenter {
  import opened Powers
  import opened Collections
  import opened Binary64
  import opened Quadratics
  import opened TorusObjective
  import opened CenterTheory
  import opened CenterScan
  import opened CenterRounding
  import opened BinaryBox

  function Component<T>(v: Vec3<T>, axis: int): T {
    if axis == 0 then v.x else if axis == 1 then v.y else v.z
  }

  /** A recorded sample: raw bits of the wrapped, hence nonnegative, coordinates and of the weight. */
  datatype Recorded = Recorded(position: Vec3<nat>, weight: nat)

  datatype CenterError =
    | InvalidWeight | InvalidPosition | UnpopulatedAxis | InvalidBox
    | NonUniqueMinimum | NegativeMinimum | NoCandidateFound | NotRepresentable

  datatype AddResult = Added | Rejected(error: CenterError)

  datatype CenterResult = CenterAt(bits: nat) | Failed(error: CenterError)

  // ---- the exact objective in units of 2^-1074 ----

  ghost function ExactTerm(axis: int, box: nat, c: real): Recorded -> real {
    (s: Recorded) =>
      Units(s.weight) as real * TorusSquare(Units(Component(s.position, axis)) as real, Units(box) as real, c)
  }

  /** Sum of weight times squared torus distance from the recorded samples to c, all exact. */
  ghost function ExactObjective(samples: seq<Recorded>, axis: int, box: nat, c: real): real {
    SumReal(ExactTerm(axis, box, c), samples)
  }

  ghost function ExactObjectiveAt(samples: seq<Recorded>, axis: int, box: nat): real -> real {
    c => ExactObjective(samples, axis, box, c)
  }

  /** c is the only minimizer of an objective on the circle. */
  ghost predicate IsOnlyCenter(spread: real -> real, box: nat, c: real) {
    UniquelyMinimizes(spread, Units(box) as real, c)
  }

  ghost predicate UniqueMinimizer(samples: seq<Recorded>, axis: int, box: nat, c: real) {
    IsOnlyCenter(ExactObjectiveAt(samples, axis, box), box, c)
  }

  ghost predicate Populated(samples: seq<Recorded>, box: nat) {
    && 0 < box < INFINITY
    && forall s :: s in samples ==>
         && 0 < s.weight < INFINITY
         && s.position.x < box && s.position.y < box && s.position.z < box
  }

  // ---- removing common powers of two ----

  ghost predicate Shifts(samples: seq<Recorded>, axis: int, box: nat, coordinateShift: int, weightShift: int) {
    && 0 <= coordinateShift <= LowBit(box) && 0 <= weightShift
    && forall s :: s in samples ==>
         && weightShift <= LowBit(s.weight)
         && (Component(s.position, axis) != 0 ==> coordinateShift <= LowBit(Component(s.position, axis)) + 1)
  }

  ghost predicate Limits(s: Recorded, axis: int, coordinateShift: int) {
    Component(s.position, axis) != 0 && coordinateShift == LowBit(Component(s.position, axis)) + 1
  }

  /** No larger powers could be removed: the box or a coordinate limits the one, a weight the other. */
  ghost predicate NoneLarger(samples: seq<Recorded>, axis: int, box: nat, coordinateShift: int, weightShift: int) {
    && (coordinateShift == LowBit(box) || exists s :: s in samples && Limits(s, axis, coordinateShift))
    && (weightShift == INT_MAX || exists s :: s in samples && weightShift == LowBit(s.weight))
  }

  ghost predicate ShiftsUpTo(samples: seq<Recorded>, n: nat, axis: int, box: nat, coordinateShift: int,
                             weightShift: int)
  {
    && n <= |samples| && Shifts(samples[..n], axis, box, coordinateShift, weightShift)
    && NoneLarger(samples[..n], axis, box, coordinateShift, weightShift)
  }

  /** One sample lowers each power to what it allows. */
  ghost predicate Lowers(s: Recorded, axis: int, cs: int, ws: int, cs': int, ws': int) {
    && ws' == Min(ws, LowBit(s.weight)) && cs' <= cs
    && if Component(s.position, axis) == 0 then cs' == cs
       else cs' == Min(cs, LowBit(Component(s.position, axis)) + 1)
  }

  lemma NextShifts(samples: seq<Recorded>, n: nat, axis: int, box: nat, cs: int, ws: int, cs': int, ws': int)
    requires n < |samples| && ShiftsUpTo(samples, n, axis, box, cs, ws) && Lowers(samples[n], axis, cs, ws, cs', ws')
    ensures ShiftsUpTo(samples, n + 1, axis, box, cs', ws')
  {
    var before, after := samples[..n], samples[..n + 1];
    assert after == before + [samples[n]];
    assert samples[n] in after && forall s :: s in after <==> s in before || s == samples[n];
    assert LowBit(samples[n].weight) >= 0 && LowBit(Component(samples[n].position, axis)) >= 0;
  }

  lemma SignificandOfNonzero(bits: nat)
    ensures Significand(bits) == 0 <==> bits == 0
  {
  }

  function Decode(s: Recorded, axis: int, coordinateShift: int, weightShift: int): Sample {
    Sample(IntegerUnits(Component(s.position, axis), coordinateShift - 1), IntegerUnits(s.weight, weightShift))
  }

  function DecodeAll(samples: seq<Recorded>, axis: int, coordinateShift: int, weightShift: int): seq<Sample> {
    seq(|samples|, i requires 0 <= i < |samples| => Decode(samples[i], axis, coordinateShift, weightShift))
  }

  /** The decoded coordinates, weights and box are exact, and half the box is an integer. */
  lemma DecodeIsExact(samples: seq<Recorded>, axis: int, box: nat, cs: int, ws: int, i: int)
    requires Populated(samples, box) && Shifts(samples, axis, box, cs, ws) && 0 <= i < |samples|
    ensures var s := Decode(samples[i], axis, cs, ws);
      && s.coordinate * Pow2(cs) == 2 * Units(Component(samples[i].position, axis))
      && s.weight * Pow2(ws) == Units(samples[i].weight)
  {
    assert samples[i] in samples;
    var x := Component(samples[i].position, axis);
    SignificandOfNonzero(x);
    IntegerUnitsExact(x, cs - 1);
    IntegerUnitsExact(samples[i].weight, ws);
    HalveProduct(IntegerUnits(samples[i].weight, ws), Pow2(ws), Pow2(ws + 1), Units(samples[i].weight));
  }

  lemma HalveProduct(a: nat, p: nat, p': nat, u: nat)
    requires p' == 2 * p && a * p' == 2 * u
    ensures a * p == u
  {
  }

  lemma BoxIsExact(box: nat, cs: int)
    requires 0 < box < INFINITY && 0 <= cs <= LowBit(box)
    ensures IntegerUnits(box, cs - 1) * Pow2(cs) == 2 * Units(box)
    ensures IntegerUnits(box, cs - 1) % 2 == 0 && IntegerUnits(box, cs - 1) > 0
  {
    SignificandOfNonzero(box);
    IntegerUnitsExact(box, cs - 1);
    IntegerUnitsEven(box, cs - 1);
    PositiveUnits(box);
  }

  /** The decoded problem carries the exact values: lengths in units of p/2, weights in units of q. */
  ghost predicate ExactlyDecoded(samples: seq<Recorded>, axis: int, box: nat, decoded: seq<Sample>, b: nat, p: nat,
                                 q: nat)
  {
    && |decoded| == |samples| && b * p == 2 * Units(box) && p > 0 && q > 0
    && forall i :: 0 <= i < |samples| ==>
         && decoded[i].coordinate >= 0 && decoded[i].weight >= 0
         && decoded[i].coordinate * p == 2 * Units(Component(samples[i].position, axis))
         && decoded[i].weight * q == Units(samples[i].weight)
  }

  lemma DecodeAllExact(samples: seq<Recorded>, axis: int, box: nat, cs: int, ws: int)
    requires Populated(samples, box) && Shifts(samples, axis, box, cs, ws)
    ensures ExactlyDecoded(samples, axis, box, DecodeAll(samples, axis, cs, ws), IntegerUnits(box, cs - 1), Pow2(cs),
      Pow2(ws))
  {
    BoxIsExact(box, cs);
    forall i | 0 <= i < |samples|
      ensures var d := DecodeAll(samples, axis, cs, ws)[i];
        && d.coordinate * Pow2(cs) == 2 * Units(Component(samples[i].position, axis))
        && d.weight * Pow2(ws) == Units(samples[i].weight)
    {
      DecodeIsExact(samples, axis, box, cs, ws, i);
    }
  }

  lemma ExactlyDecodedValid(samples: seq<Recorded>, axis: int, box: nat, decoded: seq<Sample>, b: nat, p: nat, q: nat)
    requires Populated(samples, box) && ExactlyDecoded(samples, axis, box, decoded, b, p, q) && b % 2 == 0
    ensures ValidSamples(decoded, b)
  {
    PositiveUnits(box);
    forall d | d in decoded
      ensures 0 <= d.coordinate < b && d.weight > 0
    {
      var i :| 0 <= i < |decoded| && decoded[i] == d;
      assert samples[i] in samples;
      UnitsIncrease(Component(samples[i].position, axis), box);
      PositiveUnits(samples[i].weight);
      DecodedOrder(d.coordinate, b, p);
    }
  }

  lemma DecodedOrder(a: nat, b: nat, p: nat)
    requires p > 0 && a * p < b * p
    ensures a < b
  {
    if b <= a {
      MulMonotone(b, a, p);
    }
  }

  // ---- the decoded objective is the exact one, scaled ----

  lemma TorusScale(x: real, box: real, c: real, h: real)
    requires h > 0.0
    ensures TorusSquare(x * h, box * h, c * h) == (h * h) * TorusSquare(x, box, c)
  {
    var t := if x <= c then c - x else x - c;
    ScaleOrderReal(x, c, h);
    ScaleOrderReal(2.0 * t, box, h);
    var t' := if x * h <= c * h then c * h - x * h else x * h - c * h;
    assert t' == t * h;
    assert 2.0 * t * h == 2.0 * t';
    var y := if 2.0 * t <= box then t else box - t;
    var y' := if 2.0 * t' <= box * h then t' else box * h - t';
    assert y' == y * h;
    SquareOfProduct(y, h, y');
  }

  lemma SquareOfProduct(y: real, h: real, y': real)
    requires y' == y * h
    ensures y' * y' == (h * h) * (y * y)
  {
  }

  /** One term is the other, scaled, at every position. */
  ghost predicate Scales<A, B>(f: A -> real, a: seq<A>, g: B -> real, b: seq<B>, k: real) {
    |a| == |b| && forall i :: 0 <= i < |a| ==> f(a[i]) == k * g(b[i])
  }

  lemma {:induction false} SumRealScale<A, B>(f: A -> real, a: seq<A>, g: B -> real, b: seq<B>, k: real)
    requires Scales(f, a, g, b, k)
    ensures SumReal(f, a) == k * SumReal(g, b)
  {
    if a != [] {
      assert forall i :: 0 <= i < |a[1..]| ==> a[1..][i] == a[i + 1] && b[1..][i] == b[i + 1];
      SumRealScale(f, a[1..], g, b[1..], k);
      assert f(a[0]) == k * g(b[0]);
    }
  }

  lemma RealCoordinate(a: nat, p: nat, u: nat)
    requires a * p == 2 * u
    ensures a as real * (p as real / 2.0) == u as real
  {
    assert (a * p) as real == a as real * p as real;
  }

  lemma TermScale(w: real, k: real, t: real, h: real, t': real, kk: real, v: real)
    requires t' == (h * h) * t && kk == k * (h * h) && v == w * t
    ensures (w * k) * t' == kk * v
  {
  }

  /** How one decoded sample stands to the recorded one: weights by k, lengths by h. */
  ghost predicate Decodes(s: Recorded, axis: int, d: Sample, h: real, k: real) {
    && Units(s.weight) as real == d.weight as real * k
    && Units(Component(s.position, axis)) as real == d.coordinate as real * h
  }

  lemma ScaledTerm(w: real, k: real, x: real, b: real, h: real, c: real, w': real, x': real, b': real, c': real,
                   kk: real, v: real)
    requires h > 0.0 && w' == w * k && x' == x * h && b' == b * h && c' == c * h && kk == k * (h * h)
    requires v == w * TorusSquare(x, b, c)
    ensures w' * TorusSquare(x', b', c') == kk * v
  {
    assert b' == b * h;
    TorusScale(x, b, c, h);
    TermScale(w, k, TorusSquare(x, b, c), h, TorusSquare(x', b', c'), kk, v);
  }

  lemma DecodeMatches(s: Recorded, axis: int, d: Sample, p: nat, q: nat, h: real, k: real)
    requires d.coordinate >= 0 && d.weight >= 0
    requires d.coordinate * p == 2 * Units(Component(s.position, axis)) && d.weight * q == Units(s.weight)
    requires h == p as real / 2.0 && k == q as real
    ensures Decodes(s, axis, d, h, k)
  {
    RealProducts(d.coordinate, p, Units(Component(s.position, axis)), d.weight, q, Units(s.weight));
  }

  lemma RealProducts(x: nat, p: nat, u: nat, w: nat, q: nat, v: nat)
    requires x * p == 2 * u && w * q == v
    ensures u as real == x as real * (p as real / 2.0)
    ensures v as real == w as real * q as real
  {
    RealCoordinate(x, p, u);
    CastProduct(w, q);
  }

  lemma ExactTermIs(axis: int, box: nat, c: real, s: Recorded, w: real, x: real, r: real)
    requires w == Units(s.weight) as real && x == Units(Component(s.position, axis)) as real && r == Units(box) as real
    ensures ExactTerm(axis, box, c)(s) == w * TorusSquare(x, r, c)
  {
  }

  lemma TorusTermIs(b: int, c: real, d: Sample, w: real, x: real, r: real)
    requires w == d.weight as real && x == d.coordinate as real && r == b as real
    ensures TorusTerm(b, c)(d) == w * TorusSquare(x, r, c)
  {
  }

  lemma ScaledSample(s: Recorded, axis: int, box: nat, d: Sample, b: int, h: real, k: real, kk: real, c: real, c': real,
                     w: real, x: real, r: real, w': real, x': real, b': real)
    requires h > 0.0 && b' == r * h && w' == w * k && x' == x * h && kk == k * (h * h) && c' == c * h
    requires w == d.weight as real && x == d.coordinate as real && r == b as real
    requires w' == Units(s.weight) as real
    requires x' == Units(Component(s.position, axis)) as real && b' == Units(box) as real
    ensures ExactTerm(axis, box, c')(s) == kk * TorusTerm(b, c)(d)
  {
    var v := w * TorusSquare(x, r, c);
    ScaledTerm(w, k, x, r, h, c, w', x', b', c', kk, v);
    TorusTermIs(b, c, d, w, x, r);
    ExactTermIs(axis, box, c', s, w', x', b');
  }

  lemma MatchedTerm(s: Recorded, axis: int, box: nat, d: Sample, b: int, h: real, k: real, kk: real, c: real, c': real)
    requires h > 0.0 && Units(box) as real == b as real * h && Decodes(s, axis, d, h, k)
    requires kk == k * (h * h) && c' == c * h
    ensures ExactTerm(axis, box, c')(s) == kk * TorusTerm(b, c)(d)
  {
    ScaledSample(s, axis, box, d, b, h, k, kk, c, c', d.weight as real, d.coordinate as real, b as real,
      Units(s.weight) as real, Units(Component(s.position, axis)) as real, Units(box) as real);
  }

  lemma ScaledObjective(samples: seq<Recorded>, axis: int, box: nat, decoded: seq<Sample>, b: int, kk: real, c: real,
                        c': real)
    requires Scales(ExactTerm(axis, box, c'), samples, TorusTerm(b, c), decoded, kk)
    ensures ExactObjective(samples, axis, box, c') == kk * Objective(decoded, b, c)
  {
    SumRealScale(ExactTerm(axis, box, c'), samples, TorusTerm(b, c), decoded, kk);
  }

  lemma AllMatched(samples: seq<Recorded>, axis: int, box: nat, decoded: seq<Sample>, b: int, h: real, k: real,
                   kk: real, c: real, c': real)
    requires h > 0.0 && |decoded| == |samples| && Units(box) as real == b as real * h
    requires forall i :: 0 <= i < |samples| ==> Decodes(samples[i], axis, decoded[i], h, k)
    requires kk == k * (h * h) && c' == c * h
    ensures Scales(ExactTerm(axis, box, c'), samples, TorusTerm(b, c), decoded, kk)
  {
    forall i | 0 <= i < |samples|
      ensures ExactTerm(axis, box, c')(samples[i]) == kk * TorusTerm(b, c)(decoded[i])
    {
      MatchedTerm(samples[i], axis, box, decoded[i], b, h, k, kk, c, c');
    }
  }

  lemma PositiveScale(p: real, h: real)
    requires p > 0.0 && h > 0.0
    ensures p * (h * h) > 0.0
  {
    WeightedSquareSign(p, h, p * (h * h));
  }

  // ---- the result ----

  ghost function TimesBy(h: real): real -> real {
    c => c * h
  }

  ghost function DividedBy(h: real): real -> real
    requires h != 0.0
  {
    c => c / h
  }

  lemma TimesByIs(h: real, c: real)
    ensures TimesBy(h)(c) == c * h
  {
  }

  /** The rational the center is rounded from is the decoded mean in units of 2^-1074. */
  lemma ExactIsScaledMean(num: nat, w: nat, cs: nat, h: real)
    requires w > 0 && h == Pow2(cs) as real / 2.0
    ensures Exact(num, w, cs - 1) == TimesBy(h)(Mean(w, num))
  {
    TimesByIs(h, Mean(w, num));
    if cs == 0 {
      assert Down(-1) == Pow2(1);
      HalvedQuotient(num, w, h);
    } else {
      assert Up(cs - 1) == Pow2(cs - 1) && Down(cs - 1) == 1;
      ScaledQuotient(num, w, Pow2(cs - 1), h);
    }
  }

  lemma HalvedQuotient(num: nat, w: nat, h: real)
    requires w > 0 && 2.0 * h == 1.0
    ensures num as real / (w * 2) as real == Mean(w, num) * h
  {
  }

  lemma ScaledQuotient(num: nat, w: nat, p: nat, h: real)
    requires w > 0 && h == p as real
    ensures (num * p) as real / w as real == Mean(w, num) * h
  {
    CastProduct(num, p);
  }

  lemma TimesAndDivided(h: real, c: real)
    requires h != 0.0
    ensures DividedBy(h)(TimesBy(h)(c)) == c && TimesBy(h)(DividedBy(h)(c)) == c
  {
  }

  /** Equal up to a positive factor and a change of unit, two objectives have corresponding minimizers. */
  lemma ScalingRescales(f: real -> real, scaled: real, g: real -> real, end: real, h: real, kk: real)
    requires h > 0.0 && kk > 0.0 && scaled == end * h
    requires forall c, c' :: c' == TimesBy(h)(c) ==> f(c') == kk * g(c)
    ensures Rescales(f, scaled, g, end, TimesBy(h), DividedBy(h))
  {
    forall c
      ensures DividedBy(h)(TimesBy(h)(c)) == c && TimesBy(h)(DividedBy(h)(c)) == c
    {
      TimesAndDivided(h, c);
    }
    forall c
      ensures 0.0 <= c < end <==> 0.0 <= TimesBy(h)(c) < scaled
    {
      ScaleOrderReal(0.0, c, h);
      ScaleOrderReal(end, c, h);
    }
    forall c, c'
      ensures f(TimesBy(h)(c)) <= f(TimesBy(h)(c')) <==> g(c) <= g(c')
    {
      ScaledOrder(f(TimesBy(h)(c)), f(TimesBy(h)(c')), g(c), g(c'), kk);
    }
  }

  lemma ScaledOrder(u: real, v: real, a: real, b: real, k: real)
    requires k > 0.0 && u == k * a && v == k * b
    ensures u <= v <==> a <= b
  {
    ScaleOrderReal(a, b, k);
    CommuteReal(a, k);
    CommuteReal(b, k);
  }

  lemma ScaledObjectives(samples: seq<Recorded>, axis: int, box: nat, decoded: seq<Sample>, b: int, h: real, k: real,
                         kk: real)
    requires h > 0.0 && |decoded| == |samples| && Units(box) as real == b as real * h
    requires forall i :: 0 <= i < |samples| ==> Decodes(samples[i], axis, decoded[i], h, k)
    requires kk == k * (h * h)
    ensures forall c, c' :: c' == TimesBy(h)(c) ==>
      ExactObjectiveAt(samples, axis, box)(c') == kk * ObjectiveAt(decoded, b)(c)
  {
    forall c, c' | c' == TimesBy(h)(c)
      ensures ExactObjectiveAt(samples, axis, box)(c') == kk * ObjectiveAt(decoded, b)(c)
    {
      ScaledAt(samples, axis, box, decoded, b, h, k, kk, c, c');
    }
  }

  lemma ScaledAt(samples: seq<Recorded>, axis: int, box: nat, decoded: seq<Sample>, b: int, h: real, k: real, kk: real,
                 c: real, c': real)
    requires h > 0.0 && |decoded| == |samples| && Units(box) as real == b as real * h
    requires forall i :: 0 <= i < |samples| ==> Decodes(samples[i], axis, decoded[i], h, k)
    requires kk == k * (h * h) && c' == TimesBy(h)(c)
    ensures ExactObjectiveAt(samples, axis, box)(c') == kk * ObjectiveAt(decoded, b)(c)
  {
    TimesByIs(h, c);
    AllMatched(samples, axis, box, decoded, b, h, k, kk, c, c');
    ScaledObjective(samples, axis, box, decoded, b, kk, c, c');
    ObjectivesAt(samples, axis, box, decoded, b, c, c');
  }

  lemma ObjectivesAt(samples: seq<Recorded>, axis: int, box: nat, decoded: seq<Sample>, b: int, c: real, c': real)
    ensures ExactObjectiveAt(samples, axis, box)(c') == ExactObjective(samples, axis, box, c')
    ensures ObjectiveAt(decoded, b)(c) == Objective(decoded, b, c)
  {
  }

  /** The decoded problem is the recorded one in another unit. */
  lemma DecodingRescales(samples: seq<Recorded>, axis: int, box: nat, decoded: seq<Sample>, b: nat, p: nat, q: nat,
                         h: real)
    requires ExactlyDecoded(samples, axis, box, decoded, b, p, q) && h == p as real / 2.0
    ensures Rescales(ExactObjectiveAt(samples, axis, box), Units(box) as real, ObjectiveAt(decoded, b), b as real,
              TimesBy(h), DividedBy(h))
  {
    var k := q as real;
    var kk := k * (h * h);
    PositiveScale(k, h);
    RealCoordinate(b, p, Units(box));
    forall i | 0 <= i < |samples|
      ensures Decodes(samples[i], axis, decoded[i], h, k)
    {
      DecodeMatches(samples[i], axis, decoded[i], p, q, h, k);
    }
    ScaledObjectives(samples, axis, box, decoded, b, h, k, kk);
    ScalingRescales(ExactObjectiveAt(samples, axis, box), Units(box) as real, ObjectiveAt(decoded, b), b as real, h,
      kk);
  }

  lemma TwoMinimizers(samples: seq<Recorded>, axis: int, box: nat, decoded: seq<Sample>, b: nat, p: nat, q: nat)
    requires ExactlyDecoded(samples, axis, box, decoded, b, p, q)
    requires TwoCenters(decoded, b)
    ensures !exists c :: UniqueMinimizer(samples, axis, box, c)
  {
    var h := p as real / 2.0;
    DecodingRescales(samples, axis, box, decoded, b, p, q, h);
    var c, c' :| c != c' && IsCenter(decoded, b, c) && IsCenter(decoded, b, c');
    TwoMinimizersScale(ExactObjectiveAt(samples, axis, box), Units(box) as real, ObjectiveAt(decoded, b), b as real,
      TimesBy(h), DividedBy(h), c, c');
  }

  lemma OnlyMinimizer(samples: seq<Recorded>, axis: int, box: nat, decoded: seq<Sample>, b: nat, p: nat, q: nat,
                      m: real, h: real)
    requires ExactlyDecoded(samples, axis, box, decoded, b, p, q) && h == p as real / 2.0
    requires UniquelyMinimizes(ObjectiveAt(decoded, b), b as real, m)
    ensures UniqueMinimizer(samples, axis, box, TimesBy(h)(m))
  {
    DecodingRescales(samples, axis, box, decoded, b, p, q, h);
    UniqueMinimizerScales(ExactObjectiveAt(samples, axis, box), Units(box) as real, ObjectiveAt(decoded, b), b as real,
      TimesBy(h), DividedBy(h), m);
  }

  /** The rounded mean is representable, does not leave the box, and is the nearest binary64 to the minimizer. */
  lemma RoundedCenter(w: int, num: int, cs: nat, box: nat, c: real)
    requires w > 0 && 0 < box < INFINITY && num >= 0
    requires c == Exact(num, w, cs - 1) && c < Units(box) as real
    ensures RoundCenterRational(num, w, cs - 1075).Finite?
    ensures RoundedOntoCircle(Wrap(Double(false, RoundCenterRational(num, w, cs - 1075).bits), box), box, c)
  {
    RoundIsNearestEven(num, w, cs - 1075);
    BelowBoxDoesNotOverflow(box, c);
    var b := RoundCenterRational(num, w, cs - 1075).bits;
    RoundStaysInBox(b, box, c);
    WrapOfRounded(b, box);
  }

  lemma CenterNumeratorNonNegative(decoded: seq<Sample>, b: int, w: int, num: int)
    requires w > 0 && UniquelyMinimizes(ObjectiveAt(decoded, b), b as real, Mean(w, num))
    ensures num >= 0
  {
    MeanOrder(w, num, 0);
  }

  // ---- the objective of each axis, by the name of its coordinate ----

  /** Weight times squared torus distance along x. */
  ghost function TermX(box: nat, c: real): Recorded -> real {
    (s: Recorded) => Units(s.weight) as real * TorusSquare(Units(s.position.x) as real, Units(box) as real, c)
  }

  ghost function TermY(box: nat, c: real): Recorded -> real {
    (s: Recorded) => Units(s.weight) as real * TorusSquare(Units(s.position.y) as real, Units(box) as real, c)
  }

  ghost function TermZ(box: nat, c: real): Recorded -> real {
    (s: Recorded) => Units(s.weight) as real * TorusSquare(Units(s.position.z) as real, Units(box) as real, c)
  }

  /** The weighted sum of squared torus distances from the x coordinates of the samples to a point. */
  ghost function SpreadX(samples: seq<Recorded>, box: nat): real -> real {
    c => SumReal(TermX(box, c), samples)
  }

  ghost function SpreadY(samples: seq<Recorded>, box: nat): real -> real {
    c => SumReal(TermY(box, c), samples)
  }

  ghost function SpreadZ(samples: seq<Recorded>, box: nat): real -> real {
    c => SumReal(TermZ(box, c), samples)
  }

  /** The answer for an objective: its only minimizer, rounded, or a refusal where it has none or several. */
  ghost predicate Answers(spread: real -> real, box: nat, result: CenterResult) {
    match result
    case CenterAt(bits) => exists c :: IsOnlyCenter(spread, box, c) && RoundedOntoCircle(bits, box, c)
    case Failed(error) => error == NonUniqueMinimum && !exists c :: IsOnlyCenter(spread, box, c)
  }

  ghost predicate Same(f: real -> real, g: real -> real) {
    forall c :: f(c) == g(c)
  }

  lemma SameMinimizer(f: real -> real, g: real -> real, end: real, c: real)
    requires Same(f, g) && Minimizes(f, end, c)
    ensures Minimizes(g, end, c)
  {
  }

  lemma SameOnlyMinimizer(f: real -> real, g: real -> real, end: real, c: real)
    requires Same(f, g) && UniquelyMinimizes(f, end, c)
    ensures UniquelyMinimizes(g, end, c)
  {
    SameMinimizer(f, g, end, c);
    forall e | Minimizes(g, end, e)
      ensures e == c
    {
      assert Same(g, f);
      SameMinimizer(g, f, end, e);
    }
  }

  lemma SameCenter(f: real -> real, g: real -> real, box: nat, c: real)
    requires Same(f, g)
    ensures IsOnlyCenter(f, box, c) <==> IsOnlyCenter(g, box, c)
  {
    assert Same(g, f);
    if IsOnlyCenter(f, box, c) {
      SameOnlyMinimizer(f, g, Units(box) as real, c);
    }
    if IsOnlyCenter(g, box, c) {
      SameOnlyMinimizer(g, f, Units(box) as real, c);
    }
  }

  lemma SameAnswers(f: real -> real, g: real -> real, box: nat, result: CenterResult)
    requires Same(f, g) && Answers(f, box, result)
    ensures Answers(g, box, result)
  {
    forall c
      ensures IsOnlyCenter(f, box, c) <==> IsOnlyCenter(g, box, c)
    {
      SameCenter(f, g, box, c);
    }
  }

  lemma SameSum(f: Recorded -> real, g: Recorded -> real, samples: seq<Recorded>)
    requires forall s :: f(s) == g(s)
    ensures SumReal(f, samples) == SumReal(g, samples)
  {
    SumRealScale(f, samples, g, samples, 1.0);
  }

  /** The objective of an axis is the one of its coordinate. */
  lemma TermOfX(box: nat, c: real, s: Recorded)
    ensures ExactTerm(0, box, c)(s) == TermX(box, c)(s)
  {
  }

  lemma SpreadAtX(samples: seq<Recorded>, box: nat, c: real)
    ensures ExactObjectiveAt(samples, 0, box)(c) == SpreadX(samples, box)(c)
  {
    forall s
      ensures ExactTerm(0, box, c)(s) == TermX(box, c)(s)
    {
      TermOfX(box, c, s);
    }
    SameSum(ExactTerm(0, box, c), TermX(box, c), samples);
  }

  lemma SpreadOfX(samples: seq<Recorded>, box: nat)
    ensures Same(ExactObjectiveAt(samples, 0, box), SpreadX(samples, box))
  {
    forall c
      ensures ExactObjectiveAt(samples, 0, box)(c) == SpreadX(samples, box)(c)
    {
      SpreadAtX(samples, box, c);
    }
  }

  lemma TermOfY(box: nat, c: real, s: Recorded)
    ensures ExactTerm(1, box, c)(s) == TermY(box, c)(s)
  {
  }

  lemma SpreadAtY(samples: seq<Recorded>, box: nat, c: real)
    ensures ExactObjectiveAt(samples, 1, box)(c) == SpreadY(samples, box)(c)
  {
    forall s
      ensures ExactTerm(1, box, c)(s) == TermY(box, c)(s)
    {
      TermOfY(box, c, s);
    }
    SameSum(ExactTerm(1, box, c), TermY(box, c), samples);
  }

  lemma SpreadOfY(samples: seq<Recorded>, box: nat)
    ensures Same(ExactObjectiveAt(samples, 1, box), SpreadY(samples, box))
  {
    forall c
      ensures ExactObjectiveAt(samples, 1, box)(c) == SpreadY(samples, box)(c)
    {
      SpreadAtY(samples, box, c);
    }
  }

  lemma TermOfZ(box: nat, c: real, s: Recorded)
    ensures ExactTerm(2, box, c)(s) == TermZ(box, c)(s)
  {
  }

  lemma SpreadAtZ(samples: seq<Recorded>, box: nat, c: real)
    ensures ExactObjectiveAt(samples, 2, box)(c) == SpreadZ(samples, box)(c)
  {
    forall s
      ensures ExactTerm(2, box, c)(s) == TermZ(box, c)(s)
    {
      TermOfZ(box, c, s);
    }
    SameSum(ExactTerm(2, box, c), TermZ(box, c), samples);
  }

  lemma SpreadOfZ(samples: seq<Recorded>, box: nat)
    ensures Same(ExactObjectiveAt(samples, 2, box), SpreadZ(samples, box))
  {
    forall c
      ensures ExactObjectiveAt(samples, 2, box)(c) == SpreadZ(samples, box)(c)
    {
      SpreadAtZ(samples, box, c);
    }
  }

  lemma AxisAnswered(samples: seq<Recorded>, axis: int, box: nat, result: CenterResult)
    requires result.CenterAt? ==>
      exists c :: UniqueMinimizer(samples, axis, box, c) && RoundedOntoCircle(result.bits, box, c)
    requires result.Failed? ==>
      result.error == NonUniqueMinimum && !exists c :: UniqueMinimizer(samples, axis, box, c)
    ensures Answers(ExactObjectiveAt(samples, axis, box), box, result)
  {
    var exact := ExactObjectiveAt(samples, axis, box);
    assert forall c :: IsOnlyCenter(exact, box, c) <==> UniqueMinimizer(samples, axis, box, c);
  }

  /** The answer along an axis is the answer for its coordinate. */
  lemma AnswersAxis(samples: seq<Recorded>, axis: int, box: nat, result: CenterResult)
    requires 0 <= axis < 3
    requires result.CenterAt? ==>
      exists c :: UniqueMinimizer(samples, axis, box, c) && RoundedOntoCircle(result.bits, box, c)
    requires result.Failed? ==>
      result.error == NonUniqueMinimum && !exists c :: UniqueMinimizer(samples, axis, box, c)
    ensures axis == 0 ==> Answers(SpreadX(samples, box), box, result)
    ensures axis == 1 ==> Answers(SpreadY(samples, box), box, result)
    ensures axis == 2 ==> Answers(SpreadZ(samples, box), box, result)
  {
    AxisAnswered(samples, axis, box, result);
    if axis == 0 {
      SpreadOfX(samples, box);
      SameAnswers(ExactObjectiveAt(samples, 0, box), SpreadX(samples, box), box, result);
    } else if axis == 1 {
      SpreadOfY(samples, box);
      SameAnswers(ExactObjectiveAt(samples, 1, box), SpreadY(samples, box), box, result);
    } else {
      SpreadOfZ(samples, box);
      SameAnswers(ExactObjectiveAt(samples, 2, box), SpreadZ(samples, box), box, result);
    }
  }

  class PeriodicIntrinsicCenterAccumulator {
    var samples: seq<Recorded>

    constructor ()
      ensures samples == []
    {
      samples := [];
    }

    method Add(position: Vec3<Double>, weight: Double, box: Double) returns (outcome: AddResult)
      modifies this
      ensures outcome.Added? <==>
        weight.IsPositive() && box.IsPositive()
        && position.x.IsFinite() && position.y.IsFinite() && position.z.IsFinite()
      ensures outcome.Rejected? ==>
        && samples == old(samples)
        && outcome.error == if weight.IsPositive() then InvalidPosition else InvalidWeight
      ensures outcome.Added? ==>
        && samples == old(samples) + [Recorded(
             Vec3(Wrap(position.x, box.bits), Wrap(position.y, box.bits), Wrap(position.z, box.bits)), weight.bits)]
        && (old(samples) == [] || Populated(old(samples), box.bits) ==> Populated(samples, box.bits))
    {
      if !weight.IsFinite() || weight.negative || weight.bits == 0 {
        return Rejected(InvalidWeight);
      }
      if !box.IsPositive() || !position.x.IsFinite() || !position.y.IsFinite() || !position.z.IsFinite() {
        return Rejected(InvalidPosition);
      }
      WrapRange(position.x, box.bits);
      WrapRange(position.y, box.bits);
      WrapRange(position.z, box.bits);
      samples := samples + [Recorded(
        Vec3(Wrap(position.x, box.bits), Wrap(position.y, box.bits), Wrap(position.z, box.bits)), weight.bits)];
      outcome := Added;
    }

    method CommonShifts(axis: int, box: nat) returns (coordinateShift: int, weightShift: int)
      requires samples != [] && Populated(samples, box)
      ensures Shifts(samples, axis, box, coordinateShift, weightShift)
      ensures NoneLarger(samples, axis, box, coordinateShift, weightShift)
    {
      weightShift := INT_MAX;
      coordinateShift := LowBit(box);
      for n := 0 to |samples|
        invariant ShiftsUpTo(samples, n, axis, box, coordinateShift, weightShift)
      {
        coordinateShift, weightShift := Tighten(n, axis, box, coordinateShift, weightShift);
      }
      assert samples[..|samples|] == samples;
    }

    /** Take in one sample. */
    method Tighten(n: nat, axis: int, box: nat, coordinateShift: int, weightShift: int)
      returns (coordinateNext: int, weightNext: int)
      requires n < |samples| && ShiftsUpTo(samples, n, axis, box, coordinateShift, weightShift)
      ensures ShiftsUpTo(samples, n + 1, axis, box, coordinateNext, weightNext)
    {
      var sample := samples[n];
      weightNext := Min(weightShift, LowBit(sample.weight));
      coordinateNext := coordinateShift;
      var coordinate := Component(sample.position, axis);
      if coordinate != 0 {
        coordinateNext := Min(coordinateShift, LowBit(coordinate) + 1);
      }
      NextShifts(samples, n, axis, box, coordinateShift, weightShift, coordinateNext, weightNext);
    }

    method Axis(axis: int, box: Double) returns (result: CenterResult)
      requires box.IsPositive() ==> Populated(samples, box.bits)
      ensures axis < 0 || axis >= 3 || samples == [] ==> result == Failed(UnpopulatedAxis)
      ensures 0 <= axis < 3 && samples != [] && !box.IsPositive() ==> result == Failed(InvalidBox)
      ensures axis == 0 && samples != [] && box.IsPositive() ==> Answers(SpreadX(samples, box.bits), box.bits, result)
      ensures axis == 1 && samples != [] && box.IsPositive() ==> Answers(SpreadY(samples, box.bits), box.bits, result)
      ensures axis == 2 && samples != [] && box.IsPositive() ==> Answers(SpreadZ(samples, box.bits), box.bits, result)
    {
      if axis < 0 || axis >= 3 || samples == [] {
        return Failed(UnpopulatedAxis);
      }
      if !box.IsPositive() {
        return Failed(InvalidBox);
      }
      result := CenterAlong(axis, box.bits);
      AnswersAxis(samples, axis, box.bits, result);
    }

    /** The center along an axis of a populated accumulator: decode, scan, round. */
    method CenterAlong(axis: int, box: nat) returns (result: CenterResult)
      requires samples != [] && Populated(samples, box)
      ensures result.CenterAt? ==>
        exists c :: UniqueMinimizer(samples, axis, box, c) && RoundedOntoCircle(result.bits, box, c)
      ensures result.Failed? ==>
        result.error == NonUniqueMinimum && !exists c :: UniqueMinimizer(samples, axis, box, c)
    {
      var cs, ws := CommonShifts(axis, box);
      var integerBox := IntegerUnits(box, cs - 1);
      var decoded := DecodeAll(samples, axis, cs, ws);
      BoxIsExact(box, cs);
      DecodeAllExact(samples, axis, box, cs, ws);
      ExactlyDecodedValid(samples, axis, box, decoded, integerBox, Pow2(cs), Pow2(ws));
      var outcome, w := Scan(decoded, integerBox);
      if outcome.NegativeObjective? {
        return Failed(NegativeMinimum);
      }
      if outcome.NoCandidate? {
        return Failed(NoCandidateFound);
      }
      if outcome.NonUniqueCenter? {
        TwoMinimizers(samples, axis, box, decoded, integerBox, Pow2(cs), Pow2(ws));
        return Failed(NonUniqueMinimum);
      }
      result := RoundedResult(box, cs, ws, decoded, integerBox, w, outcome.numerator, axis);
    }

    /** The tail of axis: round the unique mean, and fold a result of box onto 0. */
    method RoundedResult(box: nat, cs: nat, ghost ws: nat, ghost decoded: seq<Sample>, ghost integerBox: nat, w: int,
                         numerator: int, ghost axis: int)
      returns (result: CenterResult)
      requires 0 < box < INFINITY && w > 0
      requires ExactlyDecoded(samples, axis, box, decoded, integerBox, Pow2(cs), Pow2(ws))
      requires UniquelyMinimizes(ObjectiveAt(decoded, integerBox), integerBox as real, Mean(w, numerator))
      ensures result.CenterAt?
      ensures exists c :: UniqueMinimizer(samples, axis, box, c) && RoundedOntoCircle(result.bits, box, c)
    {
      CenterNumeratorNonNegative(decoded, integerBox, w, numerator);
      ghost var h := Pow2(cs) as real / 2.0;
      ghost var c := TimesBy(h)(Mean(w, numerator));
      OnlyMinimizer(samples, axis, box, decoded, integerBox, Pow2(cs), Pow2(ws), Mean(w, numerator), h);
      ExactIsScaledMean(numerator, w, cs, h);
      RoundedCenter(w, numerator, cs, box, c);
      var rounded := RoundCenterRational(numerator, w, cs - 1075);
      if rounded.Overflow? {
        return Failed(NotRepresentable);
      }
      result := CenterAt(Wrap(Double(false, rounded.bits), box));
    }
  }
}
