/** Ownership of mesh planes by ranks, and the rank owning a binary64 coordinate. */
module SlabLayout {
  import opened Powers
  import opened Binary64
  import opened MeshCells
  import opened PeriodicBox
  import BinaryBox

  datatype Slab = Slab(start: nat, count: nat)

  /** Quotient and remainder split of the planes. */
  function FallbackSlab(planes: nat, rank: nat, size: nat): Slab
    requires size > 0 && rank < size
  {
    var quotient, remainder := planes / size, planes % size;
    Slab(rank * quotient + (if rank < remainder then rank else remainder), quotient + if rank < remainder then 1 else 0)
  }

  function SlabStart(ends: seq<nat>, rank: nat): nat
    requires rank < |ends|
  {
    if rank == 0 then 0 else ends[rank - 1]
  }

  /** Exclusive end planes of a contiguous cover, zero-width slabs included. */
  predicate IsTable(ends: seq<nat>, planes: nat) {
    && ends != [] && ends[|ends| - 1] == planes
    && forall i, j :: 0 <= i < j < |ends| ==> ends[i] <= ends[j]
  }

  /** The slabs tile the planes in rank order. */
  ghost predicate Tiles(slabs: seq<Slab>, planes: nat) {
    && slabs != []
    && slabs[0].start == 0
    && (forall r :: 0 < r < |slabs| ==> slabs[r].start == slabs[r - 1].start + slabs[r - 1].count)
    && slabs[|slabs| - 1].start + slabs[|slabs| - 1].count == planes
  }

  datatype Table = Table(ends: seq<nat>) | NotContiguous | NotCovering

  lemma {:induction false} EndsInside(slabs: seq<Slab>, planes: nat, r: nat)
    requires Tiles(slabs, planes) && r < |slabs|
    ensures slabs[r].start + slabs[r].count <= planes
    decreases |slabs| - r
  {
    if r < |slabs| - 1 {
      EndsInside(slabs, planes, r + 1);
    }
  }

  /** The ends of the first slabs, each slab beginning where the previous one ended. */
  ghost predicate Chained(slabs: seq<Slab>, ends: seq<nat>) {
    && |ends| <= |slabs|
    && forall r {:trigger slabs[r]} :: 0 <= r < |ends| ==>
      slabs[r].start == SlabStart(ends, r) && ends[r] == slabs[r].start + slabs[r].count
  }

  lemma {:induction false} ChainedMonotone(slabs: seq<Slab>, ends: seq<nat>, i: nat, j: nat)
    requires Chained(slabs, ends) && i <= j < |ends|
    ensures ends[i] <= ends[j]
    decreases j - i
  {
    if i < j {
      ChainedMonotone(slabs, ends, i, j - 1);
      assert slabs[j].start == SlabStart(ends, j);
    }
  }

  lemma ChainedTiles(slabs: seq<Slab>, ends: seq<nat>, planes: nat)
    requires Chained(slabs, ends) && |ends| == |slabs| > 0
    ensures Tiles(slabs, planes) <==> ends[|ends| - 1] == planes
    ensures ends[|ends| - 1] == planes ==> IsTable(ends, planes)
  {
    forall i, j | 0 <= i < j < |ends|
      ensures ends[i] <= ends[j]
    {
      ChainedMonotone(slabs, ends, i, j);
    }
    assert slabs[0].start == SlabStart(ends, 0);
    forall r | 0 < r < |slabs|
      ensures slabs[r].start == slabs[r - 1].start + slabs[r - 1].count
    {
      assert slabs[r].start == SlabStart(ends, r) == ends[r - 1];
    }
  }

  lemma BrokenChain(slabs: seq<Slab>, ends: seq<nat>, planes: nat)
    requires Chained(slabs, ends) && |ends| < |slabs| && Tiles(slabs, planes)
    ensures slabs[|ends|].start == if ends == [] then 0 else ends[|ends| - 1]
    ensures slabs[|ends|].start + slabs[|ends|].count <= planes
  {
    EndsInside(slabs, planes, |ends|);
    if ends != [] {
      var r := |ends| - 1;
      assert ends[r] == slabs[r].start + slabs[r].count;
      assert slabs[r + 1].start == slabs[r + 1 - 1].start + slabs[r + 1 - 1].count;
    }
  }

  /** Build the end-plane table; refused exactly when the slabs do not tile the planes. */
  method BuildTable(slabs: seq<Slab>, planes: nat) returns (table: Table)
    requires slabs != []
    ensures table.Table? <==> Tiles(slabs, planes)
    ensures table.Table? ==> IsTable(table.ends, planes) && |table.ends| == |slabs| && Chained(slabs, table.ends)
  {
    var ends: seq<nat> := [];
    var expectedStart := 0;
    for owner := 0 to |slabs|
      invariant |ends| == owner && Chained(slabs, ends)
      invariant expectedStart == if owner == 0 then 0 else ends[owner - 1]
    {
      var slab := slabs[owner];
      if Tiles(slabs, planes) {
        BrokenChain(slabs, ends, planes);
      }
      if slab.start != expectedStart || slab.start > planes || slab.count > planes - slab.start {
        return NotContiguous;
      }
      ends := ends + [slab.start + slab.count];
      expectedStart := slab.start + slab.count;
    }
    ChainedTiles(slabs, ends, planes);
    if expectedStart != planes {
      return NotCovering;
    }
    table := Table(ends);
  }

  lemma DivisionParts(planes: nat, size: nat)
    requires size > 0
    ensures planes == size * (planes / size) + planes % size && planes % size < size
  {
  }

  lemma NextMultiple(r: nat, q: nat)
    ensures (r + 1) * q == r * q + q
  {
  }

  function FallbackSlabs(planes: nat, size: nat): seq<Slab>
    requires size > 0
  {
    seq(size, r requires 0 <= r < size => FallbackSlab(planes, r, size))
  }

  lemma FallbackNext(planes: nat, size: nat, r: nat)
    requires size > 0 && r + 1 < size
    ensures var a, b := FallbackSlab(planes, r, size), FallbackSlab(planes, r + 1, size);
      b.start == a.start + a.count
  {
    NextMultiple(r, planes / size);
  }

  lemma FallbackLast(planes: nat, size: nat)
    requires size > 0
    ensures var last := FallbackSlab(planes, size - 1, size);
      last.start + last.count == planes
  {
    NextMultiple(size - 1, planes / size);
    DivisionParts(planes, size);
  }

  /** The deterministic split always tiles the planes, with widths differing by at most one, the wider slabs first. */
  lemma FallbackTiles(planes: nat, size: nat)
    requires size > 0
    ensures Tiles(FallbackSlabs(planes, size), planes)
    ensures forall a, b :: 0 <= a < size && 0 <= b < size ==>
      FallbackSlabs(planes, size)[a].count <= FallbackSlabs(planes, size)[b].count + 1
    ensures forall a, b :: 0 <= a <= b < size ==>
      FallbackSlabs(planes, size)[a].count >= FallbackSlabs(planes, size)[b].count
  {
    var s := FallbackSlabs(planes, size);
    forall r | 0 < r < size
      ensures s[r].start == s[r - 1].start + s[r - 1].count
    {
      FallbackNext(planes, size, r - 1);
    }
    FallbackLast(planes, size);
  }

  // ---- the owner of a coordinate ----

  /** The mesh dimension has to fit the int-based transform interface. */
  const MAXIMUM_PLANES := 0x7FFF_FFFF

  /**
   * The ownership topology of one run: the pattern of the box, its mesh planes, the cell of a wrapped coordinate and
   * the table of slab ends. The cell is an abstract function: proofs about ownership do not see its arithmetic.
   */
  datatype Topology = Topology(box: nat, planes: nat, cell: nat -> nat, ends: seq<nat>)
  {
    ghost predicate Valid() {
      && 0 < box < INFINITY && 0 < planes <= MAXIMUM_PLANES && IsTable(ends, planes)
      && forall w: nat :: cell(w) < planes
    }

    /** The cell in use: the rounded quotient by the rounded cell size, clamped to the last plane. */
    ghost predicate Measured() {
      && planes > 0 && Units(CellSize(box, planes)) > 0
      && forall w: nat {:trigger cell(w)} :: cell(w) == ClampedCell(w, CellSize(box, planes), planes)
    }

    function Size(): nat {
      |ends|
    }
  }

  /** The topology of a box whose cell size does not vanish. */
  function TopologyOf(box: nat, planes: nat, ends: seq<nat>): (t: Topology)
    requires 0 < box < INFINITY && 0 < planes <= MAXIMUM_PLANES && Units(CellSize(box, planes)) > 0
    requires IsTable(ends, planes)
    ensures t.Valid() && t.Measured()
  {
    Topology(box, planes, (w: nat) => CellRule(w, box, planes), ends)
  }

  function CellRule(w: nat, box: nat, planes: nat): nat {
    if planes == 0 || Units(CellSize(box, planes)) == 0 then 0 else ClampedCell(w, CellSize(box, planes), planes)
  }

  // ---- canonical coordinates ----

  /** 0 <= x < box, the negative zero included. */
  predicate IsCanonical(x: Double, box: nat) {
    x.bits == 0 || (!x.negative && x.bits < box)
  }

  /** These are the values from zero to below the box. */
  lemma CanonicalByValue(x: Double, box: nat)
    requires box > 0
    ensures IsCanonical(x, box) <==> 0 <= SignedUnits(x) < Units(box)
  {
    SignOfUnits(x);
    UnitsOrder(x.bits, box);
    PositiveUnits(box);
  }

  /** A wrapped coordinate; values already inside are kept, and so are those that are no number. */
  function CanonicalCoordinate(x: Double, box: nat): Double {
    if !x.IsFinite() || box == 0 || box >= INFINITY || IsCanonical(x, box) then x
    else Double(false, BinaryBox.Wrap(x, box))
  }

  /** The magnitude of a wrapped coordinate; what is no number has none. */
  function WrappedBits(x: Double, box: nat): nat {
    if x.IsFinite() && 0 < box < INFINITY then BinaryBox.Wrap(x, box) else 0
  }

  lemma CanonicalIsWrapped(x: Double, box: nat)
    requires x.IsFinite() && 0 < box < INFINITY
    ensures var c := CanonicalCoordinate(x, box);
      c.IsFinite() && IsCanonical(c, box) && c.bits == WrappedBits(x, box) < box
    ensures if IsCanonical(x, box) then CanonicalCoordinate(x, box) == x else !CanonicalCoordinate(x, box).negative
    ensures CanonicalCoordinate(CanonicalCoordinate(x, box), box) == CanonicalCoordinate(x, box)
    ensures WrappedBits(CanonicalCoordinate(x, box), box) == WrappedBits(x, box)
  {
    BinaryBox.WrapRange(x, box);
    ZeroWraps(box);
  }

  lemma ZeroWraps(box: nat)
    requires 0 < box < INFINITY
    ensures BinaryBox.Wrap(Double(true, 0), box) == 0 && BinaryBox.Wrap(Double(false, 0), box) == 0
  {
    PositiveUnits(box);
  }

  lemma CanonicalTwice(x: Double, box: nat)
    ensures CanonicalCoordinate(CanonicalCoordinate(x, box), box) == CanonicalCoordinate(x, box)
    ensures WrappedBits(CanonicalCoordinate(x, box), box) == WrappedBits(x, box)
  {
    if x.IsFinite() && 0 < box < INFINITY {
      CanonicalIsWrapped(x, box);
    }
  }

  // ---- cells and owners ----

  function CellOf(t: Topology, x: Double): (cell: nat)
    requires t.Valid()
    ensures cell < t.planes
  {
    t.cell(WrappedBits(x, t.box))
  }

  /** The coordinate and the box as real numbers of units. */
  function Position(t: Topology, x: Double): real {
    Units(WrappedBits(x, t.box)) as real
  }

  function BoxLength(t: Topology): real {
    Units(t.box) as real
  }

  lemma PositiveBox(t: Topology)
    requires t.Valid()
    ensures BoxLength(t) > 0.0
  {
    PositiveUnits(t.box);
  }

  /** The planes divide the box into cells of one exact width. */
  lemma CellWidth(t: Topology)
    requires t.Valid()
    ensures BoxLength(t) / t.planes as real > 0.0
    ensures Turns(BoxLength(t) / t.planes as real, t.planes) == BoxLength(t)
  {
    PositiveBox(t);
    WidthOf(BoxLength(t), t.planes);
  }

  lemma WidthOf(box: real, planes: nat)
    requires box > 0.0 && planes > 0
    ensures box / planes as real > 0.0
    ensures Turns(box / planes as real, planes) == box
  {
    PositiveQuotient(box, planes as real);
    TurnsIsProduct(box / planes as real, planes);
    ScaledQuotient(box, planes as real);
  }

  /** The first rank whose slab ends beyond the cell. */
  function FirstBeyond(ends: seq<nat>, cell: nat): (r: nat)
    requires ends != [] && cell < ends[|ends| - 1]
    ensures r < |ends| && cell < ends[r] && forall q :: 0 <= q < r ==> ends[q] <= cell
  {
    if cell < ends[0] then 0
    else
      assert ends[1..][|ends| - 2] == ends[|ends| - 1];
      var rest := FirstBeyond(ends[1..], cell);
      assert forall q :: 0 < q < rest + 1 ==> ends[q] == ends[1..][q - 1];
      rest + 1
  }

  lemma FirstBeyondUnique(ends: seq<nat>, cell: nat, r: nat)
    requires ends != [] && cell < ends[|ends| - 1] && r <= |ends|
    requires (forall q :: 0 <= q < r ==> ends[q] <= cell) && (r < |ends| ==> cell < ends[r])
    ensures FirstBeyond(ends, cell) == r
  {
    var first := FirstBeyond(ends, cell);
  }

  function Owner(t: Topology, x: Double): (r: nat)
    requires t.Valid()
    ensures r < t.Size()
  {
    FirstBeyond(t.ends, CellOf(t, x))
  }

  ghost predicate InSlab(t: Topology, r: nat, cell: nat) {
    r < |t.ends| && SlabStart(t.ends, r) <= cell < t.ends[r]
  }

  /** The owner is the one rank whose slab contains the cell; an empty slab owns nothing. */
  lemma OwnerIsUnique(t: Topology, x: Double)
    requires t.Valid()
    ensures forall r :: 0 <= r < t.Size() ==> (r == Owner(t, x) <==> InSlab(t, r, CellOf(t, x)))
  {
    var owner, cell := Owner(t, x), CellOf(t, x);
    assert InSlab(t, owner, cell);
    forall r | 0 <= r < t.Size()
      ensures r == owner <==> InSlab(t, r, cell)
    {
      if r < owner {
        assert t.ends[r] <= cell;
      } else if owner < r {
        assert t.ends[owner] <= t.ends[r - 1];
      }
    }
  }

  lemma OwnerOfWrapped(t: Topology, x: Double)
    requires t.Valid()
    ensures Owner(t, CanonicalCoordinate(x, t.box)) == Owner(t, x)
  {
    CanonicalTwice(x, t.box);
  }

  /** Binary search for the first slab end beyond a cell. */
  method UpperBound(ends: seq<nat>, cell: nat) returns (rank: nat)
    requires ends != [] && cell < ends[|ends| - 1] && forall i, j :: 0 <= i < j < |ends| ==> ends[i] <= ends[j]
    ensures rank == FirstBeyond(ends, cell)
  {
    var low, high := 0, |ends|;
    while low < high
      invariant 0 <= low <= high <= |ends|
      invariant forall q :: 0 <= q < low ==> ends[q] <= cell
      invariant forall q :: high <= q < |ends| ==> cell < ends[q]
    {
      var middle := (low + high) / 2;
      if ends[middle] <= cell {
        low := middle + 1;
      } else {
        high := middle;
      }
    }
    FirstBeyondUnique(ends, cell, low);
    rank := low;
  }

  /** The rank owning a coordinate. */
  method OwnerRank(t: Topology, x: Double) returns (rank: nat)
    requires t.Valid()
    ensures rank == Owner(t, x)
  {
    rank := UpperBound(t.ends, CellOf(t, x));
  }

  // ---- slabs as coordinate intervals ----

  /** The exact position of a plane. */
  function PlanePosition(t: Topology, plane: nat): real
    requires t.planes > 0
  {
    BoxLength(t) * (plane as real) / (t.planes as real)
  }

  lemma PlaneInTurns(t: Topology, plane: nat)
    requires t.planes > 0
    ensures PlanePosition(t, plane) == Turns(BoxLength(t) / t.planes as real, plane)
  {
    PlaneOf(BoxLength(t), t.planes, plane);
  }

  lemma PlaneOf(box: real, planes: nat, plane: nat)
    requires planes > 0
    ensures box * (plane as real) / (planes as real) == Turns(box / planes as real, plane)
  {
    TurnsIsProduct(box / planes as real, plane);
    ScaledQuotient(box, planes as real);
    QuotientOfProduct(box, plane as real, planes as real, box / planes as real);
  }

  lemma QuotientOfProduct(a: real, b: real, c: real, q: real)
    requires c > 0.0 && c * q == a
    ensures a * b / c == q * b
  {
    Reassociate(a, b, c, q, q * b);
    RealQuotientUnique(a * b, c, q * b);
  }

  lemma Reassociate(a: real, b: real, c: real, q: real, r: real)
    requires c * q == a && r == q * b
    ensures a * b == c * r
  {
    assert (c * q) * b == c * (q * b);
  }

  lemma RealQuotientUnique(a: real, c: real, q: real)
    requires c > 0.0 && a == c * q
    ensures a / c == q
  {
    ScaledQuotient(a, c);
    Cancel(c, a / c, q);
  }

  lemma PlaneOrder(t: Topology, a: nat, b: nat)
    requires t.planes > 0 && BoxLength(t) > 0.0 && a <= b
    ensures PlanePosition(t, a) <= PlanePosition(t, b)
  {
    PlanesOrdered(BoxLength(t), t.planes, a, b);
  }

  lemma PlanesOrdered(box: real, planes: nat, a: nat, b: nat)
    requires box > 0.0 && planes > 0 && a <= b
    ensures box * (a as real) / (planes as real) <= box * (b as real) / (planes as real)
  {
    WidthOf(box, planes);
    PlaneOf(box, planes, a);
    PlaneOf(box, planes, b);
    TurnsOrder(box / planes as real, a, b);
  }

  /** The wrapped coordinate lies between the planes bounding its owner's slab. */
  ghost predicate WithinOwner(t: Topology, x: Double)
    requires t.Valid()
  {
    PlanePosition(t, SlabStart(t.ends, Owner(t, x))) <= Position(t, x) < PlanePosition(t, t.ends[Owner(t, x)])
  }

  /** Every coordinate lies between the planes bounding its cell. */
  ghost predicate ExactCells(t: Topology)
    requires t.planes > 0
  {
    forall w: nat {:trigger t.cell(w)} :: w < t.box ==>
      PlanePosition(t, t.cell(w)) <= Units(w) as real < PlanePosition(t, t.cell(w) + 1)
  }

  /** With exact cells every coordinate lies inside its owner's bounds. */
  lemma OwnerBounds(t: Topology, x: Double)
    requires t.Valid() && ExactCells(t)
    ensures WithinOwner(t, x)
  {
    if x.IsFinite() {
      BinaryBox.WrapRange(x, t.box);
    }
    WithinSlab(t, x, CellOf(t, x));
  }

  lemma WithinSlab(t: Topology, x: Double, cell: nat)
    requires t.Valid() && cell == CellOf(t, x) && PlanePosition(t, cell) <= Position(t, x) < PlanePosition(t, cell + 1)
    ensures WithinOwner(t, x)
  {
    OwnerIsUnique(t, x);
    PositiveBox(t);
    BoundsOfCell(t, cell, Owner(t, x), Position(t, x));
  }

  lemma BoundsOfCell(t: Topology, cell: nat, owner: nat, x: real)
    requires t.planes > 0 && BoxLength(t) > 0.0 && InSlab(t, owner, cell)
    requires PlanePosition(t, cell) <= x < PlanePosition(t, cell + 1)
    ensures PlanePosition(t, SlabStart(t.ends, owner)) <= x < PlanePosition(t, t.ends[owner])
  {
    PlaneOrder(t, SlabStart(t.ends, owner), cell);
    PlaneOrder(t, cell + 1, t.ends[owner]);
  }

  /** Where the cell size and all plane positions are values, the cells in use are exact. */
  lemma ValuesGiveExactCells(t: Topology)
    requires t.Valid() && t.Measured() && PlanesAreValues(t.box, t.planes)
    ensures ExactCells(t)
  {
    var size := CellSize(t.box, t.planes);
    QuotientsInUse(t.box, t.planes, size, t.cell);
    QuotientsAreExact(t, Units(size));
  }

  lemma QuotientsInUse(box: nat, planes: nat, size: nat, cell: nat -> nat)
    requires 0 < planes <= MAXIMUM_PLANES && size == CellSize(box, planes) && Units(size) > 0
    requires PlanesAreValues(box, planes) && forall w: nat {:trigger cell(w)} :: cell(w) == ClampedCell(w, size, planes)
    ensures forall w: nat {:trigger cell(w)} :: w < box ==> cell(w) == Quotient(Units(w), Units(size))
  {
    forall w: nat | w < box
      ensures cell(w) == Quotient(Units(w), Units(size))
    {
      CellIsExact(w, box, planes);
    }
  }

  lemma QuotientsAreExact(t: Topology, size: nat)
    requires t.planes > 0 && size > 0 && PlaneUnits(t.planes, size) == Units(t.box)
    requires forall w: nat {:trigger t.cell(w)} :: w < t.box ==> t.cell(w) == Quotient(Units(w), size)
    ensures ExactCells(t)
  {
    forall w: nat | w < t.box
      ensures PlanePosition(t, t.cell(w)) <= Units(w) as real < PlanePosition(t, t.cell(w) + 1)
    {
      BetweenPlanes(t, size, t.cell(w), Units(w));
    }
  }

  lemma BetweenPlanes(t: Topology, size: nat, cell: nat, u: nat)
    requires t.planes > 0 && size > 0 && PlaneUnits(t.planes, size) == Units(t.box) && cell == Quotient(u, size)
    ensures PlanePosition(t, cell) <= u as real < PlanePosition(t, cell + 1)
  {
    ExactPlane(t, size, cell);
    ExactPlane(t, size, cell + 1);
    NextUnits(cell, size);
  }

  lemma NextUnits(cell: nat, size: nat)
    ensures PlaneUnits(cell + 1, size) == PlaneUnits(cell, size) + size
    ensures PlaneUnits(cell, size) == cell * size
  {
  }

  /** An exact cell size gives exact plane positions. */
  lemma ExactPlane(t: Topology, size: nat, plane: nat)
    requires t.planes > 0 && PlaneUnits(t.planes, size) == Units(t.box)
    ensures PlanePosition(t, plane) == PlaneUnits(plane, size) as real
  {
    PlaneQuotient(Units(t.box), t.planes, size, plane);
  }

  lemma PlaneQuotient(b: nat, planes: nat, size: nat, plane: nat)
    requires planes > 0 && b == planes * size
    ensures b as real * (plane as real) / (planes as real) == PlaneUnits(plane, size) as real
  {
    CastPlane(plane, size);
    CastPlane(planes, size);
    QuotientOfProduct(b as real, plane as real, planes as real, size as real);
  }

  lemma CastPlane(plane: nat, size: nat)
    ensures PlaneUnits(plane, size) as real == size as real * plane as real
  {
  }

  // ---- a coordinate outside its owner's bounds ----

  /** A box of five units over four planes, one to a rank. */
  ghost predicate FiveUnits(t: Topology) {
    t.Valid() && t.Measured() && t.box == 5 && t.planes == 4 && t.ends == [1, 2, 3, 4]
  }

  lemma FiveUnitsExist(box: nat, planes: nat) returns (t: Topology)
    requires box == 5 && planes == 4
    ensures FiveUnits(t)
  {
    var ends := FourEnds(planes);
    UnitCells(box, planes);
    t := TopologyExists(box, planes, ends);
  }

  lemma FourEnds(planes: nat) returns (ends: seq<nat>)
    requires planes == 4
    ensures ends == [1, 2, 3, 4] && IsTable(ends, planes)
  {
    ends := [1, 2, 3, 4];
  }

  lemma TopologyExists(box: nat, planes: nat, ends: seq<nat>) returns (t: Topology)
    requires 0 < box < INFINITY && 0 < planes <= MAXIMUM_PLANES && Units(CellSize(box, planes)) > 0
    requires IsTable(ends, planes)
    ensures t.Valid() && t.Measured() && t.box == box && t.planes == planes && t.ends == ends
  {
    t := TopologyOf(box, planes, ends);
  }

  /** There the coordinate of one unit belongs to rank 1, whose slab begins at 5/4. */
  lemma OutsideOwner(t: Topology, x: Double)
    requires FiveUnits(t) && x == Double(false, 1)
    ensures Owner(t, x) == 1 && Position(t, x) == 1.0 && PlanePosition(t, 1) == 1.25 && !WithinOwner(t, x)
  {
    RoundingMisplaces(t.box, t.planes);
    assert t.cell(1) == 1;
    InSecondSlab(t, x);
  }

  lemma InSecondSlab(t: Topology, x: Double)
    requires t.Valid() && t.box == 5 && t.planes == 4 && t.ends == [1, 2, 3, 4] && x == Double(false, 1)
    requires t.cell(1) == 1 && Units(1) == 1 && Units(5) == 5
    ensures Owner(t, x) == 1 && Position(t, x) == 1.0 && PlanePosition(t, 1) == 1.25 && !WithinOwner(t, x)
  {
    assert WrappedBits(x, t.box) == 1;
    OwnerIsUnique(t, x);
    assert InSlab(t, 1, 1);
  }

  lemma FiveUnitsLength(t: Topology)
    requires FiveUnits(t)
    ensures BoxLength(t) == 5.0
  {
    SmallUnits(5);
  }
}
