/** Which particles a slab can see within a search radius: integer-gap pruning and the nearest periodic image. */
module SlabVisibility {
  import opened Powers
  import opened Binary64
  import opened PeriodicBox
  import opened SlabLayout

  /** One rank's slab, as planes and as a coordinate interval. */
  datatype Interval = Interval(start: nat, count: nat, lo: real, hi: real)

  function SlabInterval(t: Topology, rank: nat): Interval
    requires t.Valid() && rank < t.Size()
  {
    var start, end := SlabStart(t.ends, rank), t.ends[rank];
    StartBeforeEnd(t, rank);
    Interval(start, end - start, PlanePosition(t, start), PlanePosition(t, end))
  }

  lemma StartBeforeEnd(t: Topology, rank: nat)
    requires t.Valid() && rank < t.Size()
    ensures SlabStart(t.ends, rank) <= t.ends[rank] <= t.planes
  {
    assert rank > 0 ==> t.ends[rank - 1] <= t.ends[rank];
    assert rank < |t.ends| - 1 ==> t.ends[rank] <= t.ends[|t.ends| - 1];
  }

  // ---- the torus distance to a slab ----

  /** Some periodic image of x is within r of some point of the closed slab interval. */
  ghost predicate Sees(box: real, slab: Interval, x: real, r: real) {
    exists k: int, s: real :: Reaches(box, slab, x, r, k, s)
  }

  ghost predicate Reaches(box: real, slab: Interval, x: real, r: real, k: int, s: real) {
    slab.lo <= s <= slab.hi && -r <= x + Turns(box, k) - s <= r
  }

  /** Round to the nearest integer, halves away from zero. */
  function Round(q: real): int {
    if q >= 0.0 then (q + 0.5).Floor else -((-q + 0.5).Floor)
  }

  lemma RoundNear(q: real)
    ensures -0.5 <= q - Round(q) as real <= 0.5
  {
  }

  /** A number half way between two integers goes to the one farther from zero. */
  lemma RoundsHalfAway(q: real, n: int)
    requires q == n as real + 0.5
    ensures Round(q) == if n >= 0 then n + 1 else n
  {
  }

  function NearestImage(box: real, slab: Interval, x: real): real
    requires box > 0.0
  {
    var center := 0.5 * (slab.lo + slab.hi);
    var delta := x - center;
    center + (delta - (Round(delta / box) as real) * box)
  }

  function DistanceToSlab(slab: Interval, image: real): real {
    if image < slab.lo then slab.lo - image else if image > slab.hi then image - slab.hi else 0.0
  }

  lemma HalfScaled(k: real, d: real)
    requires k > 0.0 && -0.5 <= d <= 0.5
    ensures -0.5 * k <= k * d <= 0.5 * k
  {
    ScaleOrder(-0.5, d, k);
    ScaleOrder(d, 0.5, k);
  }

  lemma RoundedTurns(box: real, k: int)
    ensures (k as real) * box == Turns(box, k)
  {
    TurnsIsProduct(box, k);
    CommuteReal(k as real, box);
  }

  /** The displacement after removing the rounded number of turns is at most half the box. */
  lemma ReducedDelta(delta: real, box: real)
    requires box > 0.0
    ensures -0.5 * box <= delta - Turns(box, Round(delta / box)) <= 0.5 * box
  {
    ScaledQuotient(delta, box);
    RoundNear(delta / box);
    ReducedBy(delta, box, delta / box, Round(delta / box));
  }

  lemma ReducedBy(delta: real, box: real, q: real, k: int)
    requires box > 0.0 && box * q == delta && -0.5 <= q - k as real <= 0.5
    ensures -0.5 * box <= delta - Turns(box, k) <= 0.5 * box
  {
    TurnsIsProduct(box, k);
    Fraction(delta, box, q, k as real, q - k as real);
    HalfScaled(box, q - k as real);
  }

  /** The image chosen is an image, and no image lies closer to the slab center. */
  lemma NearestImageMinimal(box: real, slab: Interval, x: real, k: int)
    requires box > 0.0
    ensures var center := 0.5 * (slab.lo + slab.hi);
      var chosen, other := NearestImage(box, slab, x) - center, x + Turns(box, k) - center;
      (if chosen < 0.0 then -chosen else chosen) <= (if other < 0.0 then -other else other)
    ensures NearestImage(box, slab, x) == x + Turns(box, -Round((x - 0.5 * (slab.lo + slab.hi)) / box))
  {
    var center := 0.5 * (slab.lo + slab.hi);
    var delta := x - center;
    ReducedDelta(delta, box);
    RoundedTurns(box, Round(delta / box));
    FewestTurns(delta, box, Round(delta / box), k, NearestImage(box, slab, x) - center);
    NegatedTurns(box, Round(delta / box));
  }

  lemma NegatedTurns(box: real, k: int)
    ensures Turns(box, -k) == -Turns(box, k)
  {
    TurnsSubtract(box, 0, k);
  }

  lemma FewestTurns(delta: real, box: real, m: int, k: int, chosen: real)
    requires box > 0.0 && chosen == delta - Turns(box, m) && -0.5 * box <= chosen <= 0.5 * box
    ensures var other := delta + Turns(box, k);
      (if chosen < 0.0 then -chosen else chosen) <= (if other < 0.0 then -other else other)
  {
    NegatedTurns(box, m);
    TurnsSubtract(box, k, -m);
    TurnsGrow(box, k + m);
  }

  /** Closer to the center of an interval is closer to the interval. */
  lemma CloserToCenter(slab: Interval, y: real, z: real)
    requires slab.lo <= slab.hi
    requires var center := 0.5 * (slab.lo + slab.hi);
      (if y - center < 0.0 then center - y else y - center) <= (if z - center < 0.0 then center - z else z - center)
    ensures DistanceToSlab(slab, y) <= DistanceToSlab(slab, z)
  {
  }

  /** The center-nearest image realizes the torus distance: the test on it alone decides visibility. */
  lemma NearestImageDecides(box: real, slab: Interval, x: real, r: real)
    requires box > 0.0 && slab.lo <= slab.hi && r >= 0.0
    ensures DistanceToSlab(slab, NearestImage(box, slab, x)) <= r <==> Sees(box, slab, x, r)
  {
    var image := NearestImage(box, slab, x);
    if DistanceToSlab(slab, image) <= r {
      NearestImageMinimal(box, slab, x, 0);
      var s := if image < slab.lo then slab.lo else if image > slab.hi then slab.hi else image;
      assert Reaches(box, slab, x, r, -Round((x - 0.5 * (slab.lo + slab.hi)) / box), s);
    }
    if Sees(box, slab, x, r) {
      var k: int, s: real :| Reaches(box, slab, x, r, k, s);
      NearestImageMinimal(box, slab, x, k);
      CloserToCenter(slab, image, x + Turns(box, k));
    }
  }

  // ---- pruning by whole planes ----

  /** Planes between two slabs, the shorter way round. */
  function GapPlanes(lhs: Interval, rhs: Interval, planes: nat): int {
    var lhsEnd, rhsEnd := lhs.start + lhs.count, rhs.start + rhs.count;
    if lhsEnd <= rhs.start then Min(rhs.start - lhsEnd, planes - (rhsEnd - lhs.start))
    else if rhsEnd <= lhs.start then Min(lhs.start - rhsEnd, planes - (lhsEnd - rhs.start))
    else 0
  }

  /** Planes between two runs of planes on a line. */
  ghost function PlanesBetween(a: int, aEnd: int, b: int, bEnd: int): int {
    if aEnd <= b then b - aEnd else if bEnd <= a then a - bEnd else 0
  }

  /** Planes between a slab and another one moved by a number of planes. */
  ghost function PlanesToImage(lhs: Interval, rhs: Interval, moved: int): int {
    PlanesBetween(lhs.start, lhs.start + lhs.count, rhs.start + moved, rhs.start + rhs.count + moved)
  }

  lemma WholeMoves(planes: nat, m: int)
    ensures m >= 1 ==> m * planes >= planes
    ensures m <= -1 ==> m * planes + planes <= 0
  {
    if m >= 1 {
      MulMonotone(1, m, planes);
    } else if m <= -1 {
      MulMonotone(m, -1, planes);
    }
  }

  /** The gap is the number of planes to the nearest periodic image of the other slab. */
  lemma GapIsLeast(lhs: Interval, rhs: Interval, planes: nat, m: int)
    requires lhs.start + lhs.count <= planes && rhs.start + rhs.count <= planes
    ensures GapPlanes(lhs, rhs, planes) <= PlanesToImage(lhs, rhs, m * planes)
    ensures exists k: int :: GapPlanes(lhs, rhs, planes) == PlanesToImage(lhs, rhs, k * planes)
  {
    WholeMoves(planes, m);
    var gap, there, back := GapPlanes(lhs, rhs, planes), 1 * planes, (-1) * planes;
    assert gap == PlanesToImage(lhs, rhs, 0 * planes) || gap == PlanesToImage(lhs, rhs, there)
      || gap == PlanesToImage(lhs, rhs, back);
  }

  /** The gap between two slabs, times the number of planes. */
  function GapLength(box: real, planes: nat, a: Interval, b: Interval): real {
    box * (GapPlanes(a, b, planes) as real)
  }

  predicate GapWithin(box: real, planes: nat, a: Interval, b: Interval, r: real) {
    GapLength(box, planes, a, b) <= r * (planes as real)
  }

  predicate CanExchange(t: Topology, local: Interval, remote: Interval, r: real)
    requires t.Valid()
  {
    GapWithin(BoxLength(t), t.planes, local, remote, r)
  }

  /** Positions between two bounds, measured in plane widths. */
  ghost predicate Between(width: real, a: int, x: real, b: int) {
    Turns(width, a) <= x <= Turns(width, b)
  }

  lemma WholeTurns(width: real, n: nat, box: real, k: int)
    requires width > 0.0 && Turns(width, n) == box && n > 0
    ensures k <= 0 ==> Turns(box, k) <= 0.0
    ensures k >= 1 ==> Turns(box, k) >= box
  {
    TurnsOrder(width, 0, n);
    TurnsOrder(box, k, 0);
    TurnsGrow(box, k);
  }

  lemma DirectGap(width: real, x: real, s: real, xb: int, sa: int, gap: int)
    requires width > 0.0 && x <= Turns(width, xb) && Turns(width, sa) <= s && gap <= sa - xb
    ensures s - x >= Turns(width, gap)
  {
    TurnsSubtract(width, sa, xb);
    TurnsOrder(width, gap, sa - xb);
  }

  lemma TurnsDifference(width: real, a: int, b: int, c: int)
    requires c == a - b
    ensures Turns(width, c) == Turns(width, a) - Turns(width, b)
  {
    TurnsSubtract(width, a, b);
  }

  lemma WrappedGap(width: real, n: nat, box: real, x: real, s: real, xa: int, sb: int, gap: int)
    requires width > 0.0 && Turns(width, n) == box && Turns(width, xa) <= x
    requires s <= Turns(width, sb) && gap <= n - (sb - xa)
    ensures x + box - s >= Turns(width, gap)
  {
    var rest := SpanLeft(width, n, xa, sb);
    TurnsOrder(width, gap, rest);
  }

  lemma SpanLeft(width: real, n: nat, xa: int, sb: int) returns (rest: int)
    ensures rest == n - (sb - xa) && Turns(width, rest) == Turns(width, n) - (Turns(width, sb) - Turns(width, xa))
  {
    var span := sb - xa;
    rest := n - span;
    TurnsDifference(width, sb, xa, span);
    TurnsDifference(width, n, span, rest);
  }

  /** Any image of a point left of an interval is at least the periodic gap away. */
  lemma GapSeparates(width: real, n: nat, box: real, x: real, s: real, k: int, xa: int, xb: int, sa: int, sb: int,
                     gap: int)
    requires width > 0.0 && n > 0 && Turns(width, n) == box
    requires Between(width, xa, x, xb) && Between(width, sa, s, sb) && xb <= sa
    requires gap <= sa - xb && gap <= n - (sb - xa)
    ensures x + Turns(box, k) - s <= -Turns(width, gap) || x + Turns(box, k) - s >= Turns(width, gap)
  {
    DirectGap(width, x, s, xb, sa, gap);
    WrappedGap(width, n, box, x, s, xa, sb, gap);
    WholeTurns(width, n, box, k);
  }

  lemma SlabPositions(t: Topology, rank: nat)
    requires t.Valid() && rank < t.Size()
    ensures var slab := SlabInterval(t, rank);
      var width := BoxLength(t) / t.planes as real;
      && width > 0.0 && Turns(width, t.planes) == BoxLength(t)
      && slab.lo == Turns(width, slab.start) && slab.hi == Turns(width, slab.start + slab.count)
      && slab.lo <= slab.hi && slab.start + slab.count <= t.planes
  {
    CellWidth(t);
    StartBeforeEnd(t, rank);
    PlaneInTurns(t, SlabStart(t.ends, rank));
    PlaneInTurns(t, t.ends[rank]);
    PlaneOrder(t, SlabStart(t.ends, rank), t.ends[rank]);
  }

  lemma GapFromDistance(width: real, n: nat, box: real, gap: int, r: real)
    requires Turns(width, n) == box && Turns(width, gap) <= r && n > 0
    ensures box * (gap as real) <= r * (n as real)
  {
    TurnsIsProduct(width, n);
    TurnsIsProduct(width, gap);
    Rearrange(width, n as real, gap as real, r, Turns(width, gap), box);
  }

  lemma Rearrange(width: real, n: real, gap: real, r: real, span: real, box: real)
    requires span == width * gap && box == width * n && span <= r && n > 0.0
    ensures box * gap <= r * n
  {
    ThreeFactors(width, n, gap, span, box);
    ScaleOrder(span, r, n);
    CommuteReal(n, r);
  }

  lemma ThreeFactors(width: real, n: real, gap: real, span: real, box: real)
    requires span == width * gap && box == width * n
    ensures box * gap == n * span
  {
  }

  lemma NegatedReach(box: real, x: real, s: real, k: int)
    ensures s + Turns(box, -k) - x == -(x + Turns(box, k) - s)
  {
    NegatedTurns(box, k);
  }

  /** A slab in cell widths. */
  ghost predicate Measured(width: real, n: nat, box: real, slab: Interval) {
    && width > 0.0 && n > 0 && Turns(width, n) == box
    && slab.lo == Turns(width, slab.start) && slab.hi == Turns(width, slab.start + slab.count)
  }

  lemma SlabInWidths(t: Topology, rank: nat)
    requires t.Valid() && rank < t.Size()
    ensures Measured(BoxLength(t) / t.planes as real, t.planes, BoxLength(t), SlabInterval(t, rank))
  {
    SlabPositions(t, rank);
  }

  /** Pruning loses nothing: a slab that sees a particle of the local slab is a candidate. */
  lemma PruningIsSafe(t: Topology, local: nat, remote: nat, x: real, r: real)
    requires t.Valid() && local < t.Size() && remote < t.Size() && r >= 0.0
    requires SlabInterval(t, local).lo <= x <= SlabInterval(t, local).hi
    requires Sees(BoxLength(t), SlabInterval(t, remote), x, r)
    ensures CanExchange(t, SlabInterval(t, local), SlabInterval(t, remote), r)
  {
    SlabInWidths(t, local);
    SlabInWidths(t, remote);
    MeasuredCandidate(t, BoxLength(t) / t.planes as real, SlabInterval(t, local), SlabInterval(t, remote), x, r);
  }

  lemma MeasuredCandidate(t: Topology, width: real, a: Interval, b: Interval, x: real, r: real)
    requires t.Valid() && r >= 0.0 && a.lo <= x <= a.hi && Sees(BoxLength(t), b, x, r)
    requires Measured(width, t.planes, BoxLength(t), a) && Measured(width, t.planes, BoxLength(t), b)
    ensures CanExchange(t, a, b, r)
  {
    SeenIsCandidate(width, t.planes, BoxLength(t), a, b, x, r);
  }

  lemma SeenIsCandidate(width: real, n: nat, box: real, a: Interval, b: Interval, x: real, r: real)
    requires Measured(width, n, box, a) && Measured(width, n, box, b) && r >= 0.0
    requires a.lo <= x <= a.hi && Sees(box, b, x, r)
    ensures GapWithin(box, n, a, b, r)
  {
    var k: int, s: real :| Reaches(box, b, x, r, k, s);
    SeenGap(width, n, box, a, b, x, r, k, s);
    GapReached(width, n, box, a, b, r);
  }

  lemma GapReached(width: real, n: nat, box: real, a: Interval, b: Interval, r: real)
    requires Turns(width, n) == box && Turns(width, GapPlanes(a, b, n)) <= r && n > 0
    ensures GapWithin(box, n, a, b, r)
  {
    GapFromDistance(width, n, box, GapPlanes(a, b, n), r);
  }

  lemma SeenGap(width: real, n: nat, box: real, a: Interval, b: Interval, x: real, r: real, k: int, s: real)
    requires width > 0.0 && n > 0 && Turns(width, n) == box && r >= 0.0
    requires a.lo == Turns(width, a.start) && a.hi == Turns(width, a.start + a.count)
    requires b.lo == Turns(width, b.start) && b.hi == Turns(width, b.start + b.count)
    requires a.lo <= x <= a.hi && Reaches(box, b, x, r, k, s)
    ensures Turns(width, GapPlanes(a, b, n)) <= r
  {
    var aEnd, bEnd := a.start + a.count, b.start + b.count;
    var gap := GapPlanes(a, b, n);
    if aEnd <= b.start {
      GapSeparates(width, n, box, x, s, k, a.start, aEnd, b.start, bEnd, gap);
    } else if bEnd <= a.start {
      NegatedReach(box, x, s, k);
      GapSeparates(width, n, box, s, x, -k, b.start, bEnd, a.start, aEnd, gap);
    }
  }

  /** Remote slabs worth testing, in rank order. */
  method CandidateSlabs(t: Topology, rank: nat, r: real) returns (candidates: seq<nat>)
    requires t.Valid() && rank < t.Size()
    ensures forall i, j :: 0 <= i < j < |candidates| ==> candidates[i] < candidates[j]
    ensures forall d: nat :: d in candidates <==>
      d < t.Size() && d != rank && CanExchange(t, SlabInterval(t, rank), SlabInterval(t, d), r)
  {
    candidates := [];
    for d := 0 to t.Size()
      invariant forall i :: 0 <= i < |candidates| ==> candidates[i] < d
      invariant forall i, j :: 0 <= i < j < |candidates| ==> candidates[i] < candidates[j]
      invariant forall e: nat :: e in candidates <==>
        e < d && e != rank && CanExchange(t, SlabInterval(t, rank), SlabInterval(t, e), r)
    {
      if d != rank && CanExchange(t, SlabInterval(t, rank), SlabInterval(t, d), r) {
        candidates := candidates + [d];
      }
    }
  }

  // ---- what pruning may lose ----

  /** Every radius at which the slab sees x reaches the gap. */
  ghost predicate BoundsRadius(box: real, slab: Interval, x: real, gap: real, planes: real) {
    forall r: real {:trigger Sees(box, slab, x, r)} :: r >= 0.0 && Sees(box, slab, x, r) ==> gap <= r * planes
  }

  /** Whatever slab sees x, at any radius, is a candidate for the local slab. */
  ghost predicate NothingPruned(box: real, planes: nat, local: Interval, slabs: seq<Interval>, x: real) {
    forall slab :: slab in slabs ==> BoundsRadius(box, slab, x, GapLength(box, planes, local, slab), planes as real)
  }

  /** A bound on every radius that sees x is a bound on the distance. */
  lemma AtItsDistance(box: real, slab: Interval, x: real, gap: real, planes: real)
    requires box > 0.0 && slab.lo <= slab.hi && planes > 0.0
    ensures BoundsRadius(box, slab, x, gap, planes) <==>
            gap <= DistanceToSlab(slab, NearestImage(box, slab, x)) * planes
  {
    var distance := DistanceToSlab(slab, NearestImage(box, slab, x));
    SeenFrom(box, slab, x, distance);
    RadiusFrom(box, slab, x, gap, planes, distance);
  }

  /** A slab sees a coordinate from its distance on. */
  lemma SeenFrom(box: real, slab: Interval, x: real, distance: real)
    requires box > 0.0 && slab.lo <= slab.hi && distance == DistanceToSlab(slab, NearestImage(box, slab, x))
    ensures distance >= 0.0
    ensures forall r: real {:trigger Sees(box, slab, x, r)} :: r >= 0.0 ==> (Sees(box, slab, x, r) <==> distance <= r)
  {
    forall r: real | r >= 0.0
      ensures Sees(box, slab, x, r) <==> distance <= r
    {
      NearestImageDecides(box, slab, x, r);
    }
  }

  lemma RadiusFrom(box: real, slab: Interval, x: real, gap: real, planes: real, distance: real)
    requires planes > 0.0 && distance >= 0.0
    requires forall r: real {:trigger Sees(box, slab, x, r)} :: r >= 0.0 ==> (Sees(box, slab, x, r) <==> distance <= r)
    ensures BoundsRadius(box, slab, x, gap, planes) <==> gap <= distance * planes
  {
    assert Sees(box, slab, x, distance);
    if gap <= distance * planes {
      forall r: real | r >= 0.0 && Sees(box, slab, x, r)
        ensures gap <= r * planes
      {
        LargerRadius(distance, r, planes);
      }
    }
  }

  /** The whole-plane gap to a slab does not exceed the distance to it. */
  ghost predicate GapWithinDistance(box: real, planes: nat, local: Interval, slab: Interval, x: real)
    requires box > 0.0
  {
    GapLength(box, planes, local, slab) <= DistanceToSlab(slab, NearestImage(box, slab, x)) * planes as real
  }

  lemma NonePrunedExactly(box: real, planes: nat, local: Interval, slab: Interval, x: real)
    requires box > 0.0 && planes > 0 && slab.lo <= slab.hi
    ensures BoundsRadius(box, slab, x, GapLength(box, planes, local, slab), planes as real) <==>
            GapWithinDistance(box, planes, local, slab, x)
  {
    AtItsDistance(box, slab, x, GapLength(box, planes, local, slab), planes as real);
  }

  /** Pruning loses nothing of a coordinate, at any radius, exactly when no slab is nearer than the gap to it. */
  lemma {:induction false} NothingPrunedExactly(box: real, planes: nat, local: Interval, slabs: seq<Interval>, x: real)
    requires box > 0.0 && planes > 0 && forall slab :: slab in slabs ==> slab.lo <= slab.hi
    ensures NothingPruned(box, planes, local, slabs, x) <==>
            forall slab :: slab in slabs ==> GapWithinDistance(box, planes, local, slab, x)
  {
    if slabs != [] {
      NothingPrunedExactly(box, planes, local, slabs[1..], x);
      NonePrunedExactly(box, planes, local, slabs[0], x);
      assert forall slab :: slab in slabs <==> slab == slabs[0] || slab in slabs[1..];
    }
  }

  lemma LargerRadius(a: real, b: real, planes: real)
    requires a <= b && planes > 0.0
    ensures a * planes <= b * planes
  {
  }

  /** Nothing is pruned for a coordinate inside the local slab. */
  lemma InsideNothingPruned(width: real, planes: nat, box: real, local: Interval, slabs: seq<Interval>, x: real)
    requires Measured(width, planes, box, local) && local.lo <= x <= local.hi
    requires forall slab :: slab in slabs ==> Measured(width, planes, box, slab)
    ensures NothingPruned(box, planes, local, slabs, x)
  {
    forall slab, r: real | slab in slabs && r >= 0.0 && Sees(box, slab, x, r)
      ensures GapLength(box, planes, local, slab) <= r * planes as real
    {
      SeenIsCandidate(width, planes, box, local, slab, x, r);
    }
  }

  /**
   * In the box of five units over four planes, the coordinate 1 belongs to rank 1; rank 3 is one unit away around the
   * torus, but one plane is 5/4, so at radius 1 it sees the coordinate and is pruned.
   */
  lemma PrunedThoughVisible(t: Topology, x: Double)
    requires FiveUnits(t) && x == Double(false, 1)
    ensures Owner(t, x) == 1 && Position(t, x) == 1.0
    ensures Sees(BoxLength(t), SlabInterval(t, 3), 1.0, 1.0)
    ensures !CanExchange(t, SlabInterval(t, 1), SlabInterval(t, 3), 1.0)
  {
    OutsideOwner(t, x);
    FiveUnitsLength(t);
    FromRankOne(t);
  }

  lemma FromRankOne(t: Topology)
    requires t.Valid() && t.planes == 4 && t.ends == [1, 2, 3, 4] && BoxLength(t) == 5.0
    ensures Sees(5.0, SlabInterval(t, 3), 1.0, 1.0) && !CanExchange(t, SlabInterval(t, 1), SlabInterval(t, 3), 1.0)
  {
    LastSlab(t, SlabInterval(t, 3));
    OnePlaneAway(t, SlabInterval(t, 1), SlabInterval(t, 3));
  }

  lemma LastSlab(t: Topology, slab: Interval)
    requires t.Valid() && t.planes == 4 && t.ends == [1, 2, 3, 4] && BoxLength(t) == 5.0 && slab == SlabInterval(t, 3)
    ensures Sees(5.0, slab, 1.0, 1.0)
  {
    assert PlanePosition(t, 3) == 3.75 && PlanePosition(t, 4) == 5.0;
    AcrossTheEdge(slab);
  }

  lemma AcrossTheEdge(slab: Interval)
    requires slab.lo <= 5.0 <= slab.hi
    ensures Sees(5.0, slab, 1.0, 1.0)
  {
    assert Turns(5.0, 1) == Turns(5.0, 0) + 5.0;
    assert Reaches(5.0, slab, 1.0, 1.0, 1, 5.0);
  }

  lemma OnePlaneAway(t: Topology, a: Interval, b: Interval)
    requires t.Valid() && t.planes == 4 && BoxLength(t) == 5.0
    requires a.start == 1 && a.count == 1 && b.start == 3 && b.count == 1
    ensures !CanExchange(t, a, b, 1.0)
  {
    assert GapPlanes(a, b, 4) == 1;
  }
}
