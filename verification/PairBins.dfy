/** Exact torus distances and the half-open radial bin of a pair. */
module PairBins {
  import opened Powers

  datatype Point = Point(x: real, y: real, z: real)

  ghost predicate InBox(p: Point, box: real) {
    0.0 <= p.x < box && 0.0 <= p.y < box && 0.0 <= p.z < box
  }

  function Abs(a: real): real {
    if a < 0.0 then -a else a
  }

  /** The shorter way round the box between two canonical coordinates. */
  function AxisDistance(a: real, b: real, box: real): real {
    var direct := Abs(a - b);
    if direct <= box - direct then direct else box - direct
  }

  /** The squared torus distance, compared without rounding. */
  function SquaredDistance(p: Point, q: Point, box: real): real {
    var dx, dy, dz := AxisDistance(p.x, q.x, box), AxisDistance(p.y, q.y, box), AxisDistance(p.z, q.z, box);
    dx * dx + dy * dy + dz * dz
  }

  // ---- bins ----

  /** Finite, non-negative, strictly increasing edges of at least one bin. */
  ghost predicate IsLayout(edges: seq<real>) {
    && |edges| >= 2 && edges[0] >= 0.0
    && forall i, j :: 0 <= i < j < |edges| ==> edges[i] < edges[j]
  }

  /** Comparison of the exact distance with an edge radius: negative when the distance is smaller. */
  function Relation(d2: real, edge: real): int {
    if d2 < edge * edge then -1 else if d2 > edge * edge then 1 else 0
  }

  datatype Bin = InBin(index: nat) | NoBin

  /** The half-open bin of a distance by its meaning; the final edge is out of range. */
  ghost predicate IsBin(edges: seq<real>, d2: real, bin: Bin)
    requires |edges| >= 2
  {
    match bin
    case InBin(i) => i + 1 < |edges| && Relation(d2, edges[i]) >= 0 && Relation(d2, edges[i + 1]) < 0
    case NoBin => Relation(d2, edges[0]) < 0 || Relation(d2, edges[|edges| - 1]) >= 0
  }

  lemma SquareStrict(a: real, b: real)
    requires 0.0 <= a < b
    ensures a * a < b * b
  {
    DifferenceOfSquares(b, a, b - a, b + a);
    PositiveProduct(b - a, b + a);
  }

  lemma RelationMonotone(edges: seq<real>, d2: real, i: nat, j: nat)
    requires IsLayout(edges) && i <= j < |edges|
    ensures Relation(d2, edges[i]) < 0 ==> Relation(d2, edges[j]) < 0
    ensures Relation(d2, edges[j]) >= 0 ==> Relation(d2, edges[i]) >= 0
  {
    if i < j {
      SquareStrict(edges[i], edges[j]);
    }
  }

  /** A distance has exactly one bin outcome. */
  lemma BinUnique(edges: seq<real>, d2: real, a: Bin, b: Bin)
    requires IsLayout(edges) && IsBin(edges, d2, a) && IsBin(edges, d2, b)
    ensures a == b
  {
    match (a, b)
    case (InBin(i), InBin(j)) =>
      if i < j {
        RelationMonotone(edges, d2, i + 1, j);
      } else if j < i {
        RelationMonotone(edges, d2, j + 1, i);
      }
    case (InBin(i), NoBin) =>
      RelationMonotone(edges, d2, 0, i);
      RelationMonotone(edges, d2, i + 1, |edges| - 1);
    case (NoBin, InBin(j)) =>
      RelationMonotone(edges, d2, 0, j);
      RelationMonotone(edges, d2, j + 1, |edges| - 1);
    case (NoBin, NoBin) =>
  }

  /** A distance in range has a bin. */
  lemma BinExists(edges: seq<real>, d2: real) returns (b: nat)
    requires IsLayout(edges) && !IsBin(edges, d2, NoBin)
    ensures IsBin(edges, d2, InBin(b))
  {
    b := 0;
    while Relation(d2, edges[b + 1]) >= 0
      invariant b + 1 < |edges| && Relation(d2, edges[b]) >= 0
      decreases |edges| - b
    {
      b := b + 1;
    }
  }

  /** The first edge in a range strictly above the distance. */
  method FirstStrictlyAbove(edges: seq<real>, d2: real, begin: nat, end: nat) returns (first: nat)
    requires IsLayout(edges) && begin <= end <= |edges|
    ensures begin <= first <= end
    ensures first > begin ==> Relation(d2, edges[first - 1]) >= 0
    ensures first < end ==> Relation(d2, edges[first]) < 0
  {
    first := begin;
    var last := end;
    while first < last
      invariant begin <= first <= last <= end
      invariant first > begin ==> Relation(d2, edges[first - 1]) >= 0
      invariant last < end ==> Relation(d2, edges[last]) < 0
    {
      var middle := first + (last - first) / 2;
      if Relation(d2, edges[middle]) < 0 {
        last := middle;
      } else {
        first := middle + 1;
      }
    }
  }

  /** A rounded distance: any finite number at all, or not finite. */
  datatype Approximate = Finite(value: real) | NotFinite

  /** The bin suggested by a rounded distance. */
  method HintedBin(edges: seq<real>, value: real) returns (hint: nat)
    requires IsLayout(edges)
    ensures hint + 1 < |edges|
    ensures if value < edges[0] then hint == 0
            else edges[hint] <= value && (hint + 2 < |edges| ==> value < edges[hint + 1])
  {
    var upper := 0;
    while upper < |edges| && edges[upper] <= value
      invariant 0 <= upper <= |edges|
      invariant upper > 0 ==> edges[upper - 1] <= value
    {
      upper := upper + 1;
    }
    hint := if upper == 0 then 0 else if upper == |edges| then |edges| - 2 else upper - 1;
  }

  /** The exact bin of a pair, whatever the rounded distance suggested. */
  method LocatePeriodicExact(edges: seq<real>, d2: real, approximate: Approximate) returns (bin: Bin)
    requires IsLayout(edges)
    ensures IsBin(edges, d2, bin)
  {
    var firstAbove;
    if approximate.Finite? {
      var hint := HintedBin(edges, approximate.value);
      var lower, upper := Relation(d2, edges[hint]), Relation(d2, edges[hint + 1]);
      if lower >= 0 && upper < 0 {
        return InBin(hint);
      }
      if lower < 0 {
        firstAbove := FirstStrictlyAbove(edges, d2, 0, hint + 1);
      } else {
        firstAbove := FirstStrictlyAbove(edges, d2, hint + 1, |edges|);
      }
    } else {
      firstAbove := FirstStrictlyAbove(edges, d2, 0, |edges|);
    }
    if firstAbove == 0 || firstAbove == |edges| {
      return NoBin;
    }
    bin := InBin(firstAbove - 1);
  }

  // ---- near pairs are near on every axis ----

  lemma SquareNonNegative(a: real)
    ensures a * a >= 0.0
  {
  }

  lemma RootBelow(a: real, radius: real)
    requires a * a < radius * radius && radius >= 0.0
    ensures a < radius
  {
    if a > radius {
      SquareStrict(radius, a);
    }
  }

  /** Within a radius, every axis distance is below the radius. */
  lemma AxesWithin(p: Point, q: Point, box: real, radius: real)
    requires radius >= 0.0 && Relation(SquaredDistance(p, q, box), radius) < 0
    ensures AxisDistance(p.x, q.x, box) < radius
    ensures AxisDistance(p.y, q.y, box) < radius && AxisDistance(p.z, q.z, box) < radius
  {
    ThreeSquares(AxisDistance(p.x, q.x, box), AxisDistance(p.y, q.y, box), AxisDistance(p.z, q.z, box), radius);
  }

  lemma ThreeSquares(a: real, b: real, c: real, radius: real)
    requires radius >= 0.0 && a * a + b * b + c * c < radius * radius
    ensures a < radius && b < radius && c < radius
  {
    SquareNonNegative(a);
    SquareNonNegative(b);
    SquareNonNegative(c);
    RootBelow(a, radius);
    RootBelow(b, radius);
    RootBelow(c, radius);
  }
}
