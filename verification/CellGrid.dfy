/** The periodic cell grid: cells of points, and neighbour lists that contain every near point's cell. */
module CellGrid {
  import opened Powers
  import opened Collections
  import opened PeriodicBox
  import opened PairBins

  const MAXIMUM_CELLS_PER_DIMENSION := 1024

  // ---- cell identifiers ----

  function CellId(x: nat, y: nat, z: nat, n: nat): nat {
    (x * n + y) * n + z
  }

  lemma DivideExactly(q: nat, n: nat, r: nat)
    requires r < n
    ensures (q * n + r) / n == q && (q * n + r) % n == r
  {
    DivUnique(q * n + r, n, q, r);
  }

  datatype Cell = Cell(x: nat, y: nat, z: nat)

  function DecodeCellId(id: nat, n: nat): Cell
    requires n > 0
  {
    var z := id % n;
    var rest := id / n;
    Cell(rest / n, rest % n, z)
  }

  /** Decoding recovers the coordinates a cell identifier was built from. */
  lemma DecodeEncoded(x: nat, y: nat, z: nat, n: nat)
    requires x < n && y < n && z < n
    ensures DecodeCellId(CellId(x, y, z, n), n) == Cell(x, y, z)
  {
    DivideExactly(x * n + y, n, z);
    DivideExactly(x, n, y);
  }

  /** Remainder truncated toward zero, then moved into range. */
  function PeriodicCellIndex(value: int, n: nat): int
    requires n > 0
  {
    var wrapped := if value >= 0 then value % n else -((-value) % n);
    if wrapped < 0 then wrapped + n else wrapped
  }

  lemma PeriodicInRange(value: int, n: nat)
    requires n > 0
    ensures 0 <= PeriodicCellIndex(value, n) < n
  {
  }

  /** One turn of the grid either way leads back to the same cell. */
  lemma PeriodicTurn(c: nat, n: nat)
    requires c < n
    ensures PeriodicCellIndex(c, n) == c && PeriodicCellIndex(c + n, n) == c && PeriodicCellIndex(c - n, n) == c
  {
    DivideExactly(0, n, c);
    DivideExactly(1, n, c);
    if c > 0 {
      DivideExactly(0, n, n - c);
    } else {
      DivideExactly(1, n, 0);
    }
  }

  // ---- cells of coordinates ----

  function Ceiling(q: real): int {
    -((-q).Floor)
  }

  function CellOfCoordinate(coordinate: real, width: real, n: nat): (index: int)
    requires width > 0.0 && n > 0
    ensures index < n
  {
    var raw := (coordinate / width).Floor;
    if raw < n then raw else n - 1
  }

  lemma CoordinateCell(coordinate: real, width: real, n: nat)
    requires width > 0.0 && n > 0 && 0.0 <= coordinate < Turns(width, n)
    ensures 0 <= CellOfCoordinate(coordinate, width, n) < n
    ensures var c := CellOfCoordinate(coordinate, width, n);
      Turns(width, c) <= coordinate < Turns(width, c + 1)
  {
    var f := (coordinate / width).Floor;
    FloorInTurns(coordinate, width);
    TurnsOrder(width, f + 1, 0);
    TurnsOrder(width, n, f);
  }

  /** A coordinate at or beyond the end of the last cell is put into that cell. */
  lemma BeyondIsLast(coordinate: real, width: real, n: nat)
    requires width > 0.0 && n > 0 && Turns(width, n) <= coordinate
    ensures CellOfCoordinate(coordinate, width, n) == n - 1
  {
    var f := (coordinate / width).Floor;
    FloorInTurns(coordinate, width);
    TurnsOrder(width, f + 1, n);
  }

  /** The reach just covers the radius: that many cell widths are at least as long, and one less is not. */
  lemma ReachCovers(radius: real, width: real)
    requires width > 0.0
    ensures Turns(width, Ceiling(radius / width) - 1) < radius <= Turns(width, Ceiling(radius / width))
  {
    var f := (-(radius / width)).Floor;
    NegatedQuotient(radius, width);
    FloorInTurns(-radius, width);
    TurnsSubtract(width, 0, f);
    TurnsSubtract(width, 0, f + 1);
  }

  lemma NegatedQuotient(a: real, b: real)
    requires b > 0.0
    ensures (-a) / b == -(a / b)
  {
    ScaledQuotient(a, b);
    ScaledQuotient(-a, b);
    Cancel(b, (-a) / b, -(a / b));
  }

  lemma CellsApart(a: real, b: real, ca: int, cb: int, width: real, k: int)
    requires width > 0.0 && b < a + Turns(width, k)
    requires Turns(width, cb) <= b && a < Turns(width, ca + 1)
    ensures cb <= ca + k
  {
    TurnsSubtract(width, ca + 1 + k, ca + 1);
    TurnsOrder(width, ca + 1 + k, cb);
  }

  /** The offset between the cells of near coordinates: direct, or one turn up or down. */
  lemma NearOffset(a: real, b: real, box: real, width: real, n: nat, radius: real, k: int, ca: int, cb: int)
    returns (d: int)
    requires width > 0.0 && Turns(width, n) == box && radius <= Turns(width, k) && AxisDistance(a, b, box) < radius
    requires 0.0 <= a < box && 0.0 <= b < box
    requires Turns(width, ca) <= a < Turns(width, ca + 1) && Turns(width, cb) <= b < Turns(width, cb + 1)
    ensures -k <= d <= k && (ca + d == cb || ca + d == cb + n || ca + d == cb - n)
  {
    if Abs(a - b) <= box - Abs(a - b) {
      CellsApart(a, b, ca, cb, width, k);
      CellsApart(b, a, cb, ca, width, k);
      d := cb - ca;
    } else if a > b {
      ShiftedCell(width, cb, n);
      ShiftedCell(width, cb + 1, n);
      CellsApart(a, b + box, ca, cb + n, width, k);
      CellsApart(b + box, a, cb + n, ca, width, k);
      d := cb + n - ca;
    } else {
      ShiftedCell(width, cb - n, n);
      ShiftedCell(width, cb + 1 - n, n);
      CellsApart(a, b - box, ca, cb - n, width, k);
      CellsApart(b - box, a, cb - n, ca, width, k);
      d := cb - n - ca;
    }
  }

  lemma ShiftedCell(width: real, c: int, n: nat)
    ensures Turns(width, c + n) == Turns(width, c) + Turns(width, n)
  {
    TurnsSubtract(width, c + n, n);
  }

  /** Near coordinates lie in cells within the reach, directly or around the box. */
  lemma NearCells(a: real, b: real, box: real, width: real, n: nat, radius: real, k: int) returns (d: int)
    requires width > 0.0 && n > 0 && Turns(width, n) == box && 0.0 <= a < box && 0.0 <= b < box
    requires radius <= Turns(width, k) && AxisDistance(a, b, box) < radius
    ensures -k <= d <= k && PeriodicCellIndex(CellOfCoordinate(a, width, n) + d, n) == CellOfCoordinate(b, width, n)
  {
    CoordinateCell(a, width, n);
    CoordinateCell(b, width, n);
    d := NearOffset(a, b, box, width, n, radius, k, CellOfCoordinate(a, width, n), CellOfCoordinate(b, width, n));
    PeriodicTurn(CellOfCoordinate(b, width, n), n);
  }

  // ---- neighbour lists ----

  function NatKey(id: nat): int {
    id
  }

  /** Sort and erase repetitions. */
  method SortUnique(ids: seq<nat>) returns (unique: seq<nat>)
    ensures StrictlyIncreasing(unique) && forall c :: c in unique <==> c in ids
  {
    var sorted := Sort(NatKey, ids);
    unique := [];
    for i := 0 to |sorted|
      invariant StrictlyIncreasing(unique) && (i > 0 ==> unique != [] && unique[|unique| - 1] == sorted[i - 1])
      invariant i == 0 ==> unique == []
      invariant forall c :: c in unique <==> c in sorted[..i]
    {
      assert sorted[..i + 1] == sorted[..i] + [sorted[i]];
      if i > 0 {
        assert NatKey(sorted[i - 1]) <= NatKey(sorted[i]);
        assert sorted[i - 1] in sorted[..i];
      }
      if i == 0 || sorted[i] != sorted[i - 1] {
        unique := unique + [sorted[i]];
      }
    }
    assert sorted[..|sorted|] == sorted;
    forall c
      ensures c in sorted <==> c in ids
    {
      assert c in sorted <==> c in multiset(sorted);
      assert c in ids <==> c in multiset(ids);
    }
  }

  function NeighborId(cell: Cell, dx: int, dy: int, dz: int, n: nat): nat
    requires n > 0
  {
    PeriodicInRange(cell.x + dx, n);
    PeriodicInRange(cell.y + dy, n);
    PeriodicInRange(cell.z + dz, n);
    CellId(PeriodicCellIndex(cell.x + dx, n), PeriodicCellIndex(cell.y + dy, n), PeriodicCellIndex(cell.z + dz, n), n)
  }

  /** The list contains the cell at every offset within the reach. */
  ghost predicate Surrounds(ids: seq<nat>, cell: Cell, n: nat, reach: int)
    requires n > 0
  {
    forall dx, dy, dz :: -reach <= dx <= reach && -reach <= dy <= reach && -reach <= dz <= reach ==>
      NeighborId(cell, dx, dy, dz, n) in ids
  }

  ghost predicate AtOffset(id: nat, cell: Cell, n: nat, reach: int, dx: int, dy: int, dz: int)
    requires n > 0
  {
    -reach <= dx <= reach && -reach <= dy <= reach && -reach <= dz <= reach && NeighborId(cell, dx, dy, dz, n) == id
  }

  /** The identifier belongs to a cell at some offset within the reach. */
  ghost predicate Near(id: nat, cell: Cell, n: nat, reach: int)
    requires n > 0
  {
    exists dx, dy, dz :: AtOffset(id, cell, n, reach, dx, dy, dz)
  }

  ghost predicate AllNear(ids: seq<nat>, cell: Cell, n: nat, reach: int)
    requires n > 0
  {
    forall id :: id in ids ==> Near(id, cell, n, reach)
  }

  /** Exactly the cells within the reach, each once although offsets may wrap onto the same cell. */
  method NeighborCellIds(id: nat, n: nat, reach: int) returns (ids: seq<nat>)
    requires n > 0 && reach >= 0
    ensures StrictlyIncreasing(ids)
    ensures Surrounds(ids, DecodeCellId(id, n), n, reach) && AllNear(ids, DecodeCellId(id, n), n, reach)
  {
    var cell := DecodeCellId(id, n);
    var all: seq<nat> := [];
    for dx := -reach to reach + 1
      invariant AllNear(all, cell, n, reach)
      invariant forall a, b, c :: -reach <= a < dx && -reach <= b <= reach && -reach <= c <= reach ==>
        NeighborId(cell, a, b, c, n) in all
    {
      var plane := NeighborPlane(cell, dx, n, reach);
      all := all + plane;
    }
    ids := SortUnique(all);
  }

  method NeighborPlane(cell: Cell, dx: int, n: nat, reach: int) returns (plane: seq<nat>)
    requires n > 0 && -reach <= dx <= reach
    ensures forall b, c :: -reach <= b <= reach && -reach <= c <= reach ==> NeighborId(cell, dx, b, c, n) in plane
    ensures AllNear(plane, cell, n, reach)
  {
    plane := [];
    for dy := -reach to reach + 1
      invariant AllNear(plane, cell, n, reach)
      invariant forall b, c :: -reach <= b < dy && -reach <= c <= reach ==> NeighborId(cell, dx, b, c, n) in plane
    {
      var row := NeighborRow(cell, dx, dy, n, reach);
      plane := plane + row;
    }
  }

  method NeighborRow(cell: Cell, dx: int, dy: int, n: nat, reach: int) returns (row: seq<nat>)
    requires n > 0 && -reach <= dx <= reach && -reach <= dy <= reach
    ensures forall c :: -reach <= c <= reach ==> NeighborId(cell, dx, dy, c, n) in row
    ensures AllNear(row, cell, n, reach)
  {
    row := [];
    for dz := -reach to reach + 1
      invariant forall c :: -reach <= c < dz ==> NeighborId(cell, dx, dy, c, n) in row
      invariant AllNear(row, cell, n, reach)
    {
      assert AtOffset(NeighborId(cell, dx, dy, dz, n), cell, n, reach, dx, dy, dz);
      row := row + [NeighborId(cell, dx, dy, dz, n)];
    }
  }

  // ---- the grid of a point set ----

  datatype Grid = Grid(n: nat, width: real, reach: int, pointCells: seq<nat>,
                       occupied: map<nat, seq<nat>>, neighbors: map<nat, seq<nat>>)

  /** The indices of the points in one cell, in order. */
  ghost function IndicesOf(cells: seq<nat>, c: nat): (indices: seq<nat>)
    ensures forall j :: j in indices ==> j < |cells|
  {
    if cells == [] then []
    else
      var last := |cells| - 1;
      IndicesOf(cells[..last], c) + if cells[last] == c then [last] else []
  }

  lemma {:induction false} IndicesMembers(cells: seq<nat>, c: nat, j: nat)
    ensures j in IndicesOf(cells, c) <==> j < |cells| && cells[j] == c
  {
    if cells != [] {
      IndicesMembers(cells[..|cells| - 1], c, j);
    }
  }

  lemma {:induction false} IndicesIncrease(cells: seq<nat>, c: nat)
    ensures StrictlyIncreasing(IndicesOf(cells, c))
  {
    if cells != [] {
      var before := IndicesOf(cells[..|cells| - 1], c);
      IndicesIncrease(cells[..|cells| - 1], c);
      forall i | 0 <= i < |before|
        ensures before[i] < |cells| - 1
      {
        assert before[i] in before;
      }
    }
  }

  function PointCell(p: Point, width: real, n: nat, box: real): nat
    requires width > 0.0 && n > 0 && Turns(width, n) == box && InBox(p, box)
  {
    CoordinateCell(p.x, width, n);
    CoordinateCell(p.y, width, n);
    CoordinateCell(p.z, width, n);
    CellId(CellOfCoordinate(p.x, width, n), CellOfCoordinate(p.y, width, n), CellOfCoordinate(p.z, width, n), n)
  }

  ghost predicate AllInBox(points: seq<Point>, box: real) {
    forall p :: p in points ==> InBox(p, box)
  }

  /** A grid over the points: cells partition them, and neighbour lists reach at least the radius. */
  ghost predicate IsGrid(grid: Grid, points: seq<Point>, box: real, radius: real) {
    && AllInBox(points, box)
    && grid.width > 0.0 && grid.n > 0 && Turns(grid.width, grid.n) == box && radius <= Turns(grid.width, grid.reach)
    && |grid.pointCells| == |points|
    && (forall i :: 0 <= i < |points| ==>
      points[i] in points && grid.pointCells[i] == PointCell(points[i], grid.width, grid.n, box))
    && (forall c :: c in grid.occupied ==> grid.occupied[c] == IndicesOf(grid.pointCells, c))
    && (forall i :: 0 <= i < |points| ==> grid.pointCells[i] in grid.occupied)
    && grid.neighbors.Keys == grid.occupied.Keys
    && (forall c :: c in grid.neighbors ==> StrictlyIncreasing(grid.neighbors[c]))
    && (forall c :: c in grid.neighbors ==> Surrounds(grid.neighbors[c], DecodeCellId(c, grid.n), grid.n, grid.reach))
  }

  method Occupy(cells: seq<nat>) returns (occupied: map<nat, seq<nat>>)
    ensures forall c :: c in occupied ==> occupied[c] == IndicesOf(cells, c)
    ensures forall i :: 0 <= i < |cells| ==> cells[i] in occupied
  {
    occupied := map[];
    for i := 0 to |cells|
      invariant forall c {:trigger Lists(occupied, cells[..i], c)} :: Lists(occupied, cells[..i], c)
      invariant forall k :: 0 <= k < i ==> cells[k] in occupied
    {
      var id := cells[i];
      var next := occupied[id := (if id in occupied then occupied[id] else []) + [i]];
      ghost var seen := cells[..i + 1];
      forall c: nat {:trigger Lists(next, seen, c)}
        ensures Lists(next, seen, c)
      {
        assert Lists(occupied, cells[..i], c);
        ListsSnoc(occupied, cells, i, next, c);
      }
      occupied := next;
    }
    assert cells[..|cells|] == cells;
    forall c | c in occupied
      ensures occupied[c] == IndicesOf(cells, c)
    {
      assert Lists(occupied, cells[..|cells|], c);
    }
  }

  /** The entry of a cell holds its indices; a cell without an entry has none. */
  ghost predicate Lists(occupied: map<nat, seq<nat>>, cells: seq<nat>, c: nat) {
    (if c in occupied then occupied[c] else []) == IndicesOf(cells, c)
  }

  lemma ListsSnoc(occupied: map<nat, seq<nat>>, cells: seq<nat>, i: nat, next: map<nat, seq<nat>>, c: nat)
    requires i < |cells| && Lists(occupied, cells[..i], c)
    requires next == occupied[cells[i] := (if cells[i] in occupied then occupied[cells[i]] else []) + [i]]
    ensures Lists(next, cells[..i + 1], c)
  {
    assert cells[..i + 1][..i] == cells[..i];
  }

  method NeighborLists(keys: set<nat>, n: nat, reach: int) returns (neighbors: map<nat, seq<nat>>)
    requires n > 0 && reach >= 0
    ensures neighbors.Keys == keys
    ensures forall c :: c in neighbors ==> StrictlyIncreasing(neighbors[c])
    ensures forall c :: c in neighbors ==> Surrounds(neighbors[c], DecodeCellId(c, n), n, reach)
    ensures forall c :: c in neighbors ==> AllNear(neighbors[c], DecodeCellId(c, n), n, reach)
  {
    neighbors := map[];
    var rest := keys;
    while rest != {}
      invariant rest <= keys && neighbors.Keys == keys - rest
      invariant forall c :: c in neighbors ==> StrictlyIncreasing(neighbors[c])
      invariant forall c :: c in neighbors ==> Surrounds(neighbors[c], DecodeCellId(c, n), n, reach)
      invariant forall c :: c in neighbors ==> AllNear(neighbors[c], DecodeCellId(c, n), n, reach)
      decreases rest
    {
      var id :| id in rest;
      var ids := NeighborCellIds(id, n, reach);
      neighbors := neighbors[id := ids];
      rest := rest - {id};
    }
  }

  function CellsPerDimension(box: real, radius: real): (n: nat)
    requires box > 0.0 && radius > 0.0
    ensures 1 <= n <= MAXIMUM_CELLS_PER_DIMENSION
  {
    var ratio := box / radius;
    var desired := if ratio >= MAXIMUM_CELLS_PER_DIMENSION as real then MAXIMUM_CELLS_PER_DIMENSION
                   else if ratio >= 1.0 then ratio.Floor else 1;
    AtLeastOne(desired)
  }

  function AtLeastOne(count: int): (r: nat)
    ensures r >= 1 && r >= count && (r == 1 || r == count)
  {
    if count < 1 then 1 else count
  }

  /** As many cells as radii fit into the box, but at least one and at most 1024. */
  ghost predicate FillsBox(n: nat, box: real, radius: real) {
    if box < radius then n == 1
    else if radius * 1024.0 <= box then n == 1024
    else radius * n as real <= box < radius * (n as real + 1.0)
  }

  lemma CellsFillBox(box: real, radius: real)
    requires box > 0.0 && radius > 0.0
    ensures FillsBox(CellsPerDimension(box, radius), box, radius)
  {
    var ratio := box / radius;
    ScaledQuotient(box, radius);
    ProductOrder(radius, ratio, 1.0, box, radius);
    ProductOrder(radius, 1.0, ratio, radius, box);
    ProductOrder(radius, ratio, 1024.0, box, radius * 1024.0);
    ProductOrder(radius, 1024.0, ratio, radius * 1024.0, box);
    var f := ratio.Floor as real;
    ProductOrder(radius, f, ratio, radius * f, box);
    ProductOrder(radius, ratio, f + 1.0, box, radius * (f + 1.0));
  }

  lemma WidthOfCells(box: real, n: nat)
    requires box > 0.0 && n > 0
    ensures box / n as real > 0.0 && Turns(box / n as real, n) == box
  {
    PositiveQuotient(box, n as real);
    TurnsIsProduct(box / n as real, n);
    ScaledQuotient(box, n as real);
  }

  lemma CeilingPositive(radius: real, width: real)
    requires radius > 0.0 && width > 0.0
    ensures Ceiling(radius / width) >= 1
  {
    PositiveQuotient(radius, width);
  }

  method PointCells(points: seq<Point>, width: real, n: nat, ghost box: real) returns (cells: seq<nat>)
    requires AllInBox(points, box) && width > 0.0 && n > 0 && Turns(width, n) == box
    ensures |cells| == |points|
    ensures forall i :: 0 <= i < |points| ==> points[i] in points && cells[i] == PointCell(points[i], width, n, box)
  {
    cells := [];
    for i := 0 to |points|
      invariant |cells| == i
      invariant forall k :: 0 <= k < i ==> points[k] in points && cells[k] == PointCell(points[k], width, n, box)
    {
      assert points[i] in points;
      var id := CellOfPoint(points[i], width, n, box);
      cells := cells + [id];
    }
  }

  method CellOfPoint(p: Point, width: real, n: nat, ghost box: real) returns (id: nat)
    requires InBox(p, box) && width > 0.0 && n > 0 && Turns(width, n) == box
    ensures id == PointCell(p, width, n, box)
  {
    CoordinateCell(p.x, width, n);
    CoordinateCell(p.y, width, n);
    CoordinateCell(p.z, width, n);
    id := CellId(CellOfCoordinate(p.x, width, n), CellOfCoordinate(p.y, width, n), CellOfCoordinate(p.z, width, n), n);
  }

  // ---- no identifier and no reach overflows ----

  /** The bound all cell identifiers stay below: 1024 cells in each of three dimensions. */
  const CELL_LIMIT := MAXIMUM_CELLS_PER_DIMENSION * MAXIMUM_CELLS_PER_DIMENSION * MAXIMUM_CELLS_PER_DIMENSION

  /** An identifier and both of its partial products fit 30 bits. */
  lemma CellIdFits(x: nat, y: nat, z: nat, n: nat)
    requires x < n && y < n && z < n <= MAXIMUM_CELLS_PER_DIMENSION
    ensures x * n + y < MAXIMUM_CELLS_PER_DIMENSION * MAXIMUM_CELLS_PER_DIMENSION
    ensures CellId(x, y, z, n) < CELL_LIMIT == 0x4000_0000
  {
    Combined(x, y, n, MAXIMUM_CELLS_PER_DIMENSION, MAXIMUM_CELLS_PER_DIMENSION);
    Combined(x * n + y, z, n, MAXIMUM_CELLS_PER_DIMENSION * MAXIMUM_CELLS_PER_DIMENSION, MAXIMUM_CELLS_PER_DIMENSION);
  }

  lemma Combined(a: nat, r: nat, n: nat, limit: nat, most: nat)
    requires a < limit && r < n <= most
    ensures a * n + r < limit * most
  {
    MulMonotone(a, limit - 1, n);
    MulMonotone(n, most, limit);
    assert (limit - 1) * n == limit * n - n;
  }

  /** Cells at least as wide as the radius are reached over at most one, and the margin adds one. */
  lemma ReachIsTwo(box: real, radius: real, n: nat)
    requires 0.0 < radius <= box && n == CellsPerDimension(box, radius)
    ensures box / n as real > 0.0 && Ceiling(radius / (box / n as real)) == 1
  {
    WidthOfCells(box, n);
    var width := box / n as real;
    RatioAtLeast(box, radius, n);
    WidthAtLeast(box, n as real, width, radius);
    QuotientWithinOne(radius, width);
  }

  lemma RatioAtLeast(box: real, radius: real, n: nat)
    requires 0.0 < radius <= box && n == CellsPerDimension(box, radius)
    ensures n as real * radius <= box
  {
    var ratio := box / radius;
    ScaledQuotient(box, radius);
    ScaleOrder(1.0, ratio, radius);
    ScaleOrder(ratio, 1.0, radius);
    ScaleOrder(n as real, ratio, radius);
  }

  lemma WidthAtLeast(box: real, n: real, width: real, radius: real)
    requires n > 0.0 && width == box / n && n * radius <= box
    ensures radius <= width
  {
    ScaledQuotient(box, n);
    ScaleOrder(width, radius, n);
  }

  lemma QuotientWithinOne(radius: real, width: real)
    requires 0.0 < radius <= width
    ensures 0.0 < radius / width <= 1.0
  {
    PositiveQuotient(radius, width);
    ScaledQuotient(radius, width);
    ScaleOrder(1.0, radius / width, width);
  }

  /** Every listed cell is within the reach of its own, and no identifier comes near 64 bits. */
  ghost predicate Tight(grid: Grid)
    requires 0 < grid.n
  {
    && grid.n <= MAXIMUM_CELLS_PER_DIMENSION
    && AllFit(grid.pointCells)
    && (forall c :: c in grid.neighbors ==> AllFit(grid.neighbors[c]))
    && (forall c :: c in grid.neighbors ==> AllNear(grid.neighbors[c], DecodeCellId(c, grid.n), grid.n, grid.reach))
  }

  ghost predicate AllFit(ids: seq<nat>) {
    forall i :: 0 <= i < |ids| ==> ids[i] < CELL_LIMIT
  }

  lemma NearFits(id: nat, cell: Cell, n: nat, reach: int)
    requires 0 < n <= MAXIMUM_CELLS_PER_DIMENSION && Near(id, cell, n, reach)
    ensures id < CELL_LIMIT
  {
    var dx, dy, dz :| AtOffset(id, cell, n, reach, dx, dy, dz);
    PeriodicInRange(cell.x + dx, n);
    PeriodicInRange(cell.y + dy, n);
    PeriodicInRange(cell.z + dz, n);
    CellIdFits(PeriodicCellIndex(cell.x + dx, n), PeriodicCellIndex(cell.y + dy, n), PeriodicCellIndex(cell.z + dz, n),
      n);
  }

  lemma NeighborsFit(neighbors: map<nat, seq<nat>>, n: nat, reach: int)
    requires 0 < n <= MAXIMUM_CELLS_PER_DIMENSION
    requires forall c :: c in neighbors ==> AllNear(neighbors[c], DecodeCellId(c, n), n, reach)
    ensures forall c :: c in neighbors ==> AllFit(neighbors[c])
  {
    forall c, i | c in neighbors && 0 <= i < |neighbors[c]|
      ensures neighbors[c][i] < CELL_LIMIT
    {
      NearFits(neighbors[c][i], DecodeCellId(c, n), n, reach);
    }
  }

  lemma PointCellFits(p: Point, width: real, n: nat, box: real)
    requires width > 0.0 && 0 < n <= MAXIMUM_CELLS_PER_DIMENSION && Turns(width, n) == box && InBox(p, box)
    ensures PointCell(p, width, n, box) < CELL_LIMIT
  {
    CoordinateCell(p.x, width, n);
    CoordinateCell(p.y, width, n);
    CoordinateCell(p.z, width, n);
    CellIdFits(CellOfCoordinate(p.x, width, n), CellOfCoordinate(p.y, width, n), CellOfCoordinate(p.z, width, n), n);
  }

  /**
   * Any radius gives a grid whose lists cover it, with one cell of margin. A radius within the box, the only ones the
   * options admit, has reach 2, so neither the reach nor the count of neighbour cells overflows.
   */
  method BuildCellGrid(points: seq<Point>, box: real, radius: real) returns (grid: Grid)
    requires box > 0.0 && radius > 0.0 && AllInBox(points, box)
    ensures IsGrid(grid, points, box, radius) && Tight(grid) && FillsBox(grid.n, box, radius)
    ensures Turns(grid.width, grid.reach - 2) < radius <= Turns(grid.width, grid.reach - 1)
    ensures radius <= box ==> grid.reach == 2
  {
    var n := CellsPerDimension(box, radius);
    var width := box / n as real;
    CellsFillBox(box, radius);
    WidthOfCells(box, n);
    CeilingPositive(radius, width);
    var reach := Ceiling(radius / width) + 1;
    ReachCovers(radius, width);
    TurnsOrder(width, reach - 1, reach);
    var cells := PointCells(points, width, n, box);
    var occupied := Occupy(cells);
    var neighbors := NeighborLists(occupied.Keys, n, reach);
    grid := Grid(n, width, reach, cells, occupied, neighbors);
    if radius <= box {
      ReachIsTwo(box, radius, n);
    }
    PointCellsFit(points, cells, width, n, box);
    NeighborsFit(neighbors, n, reach);
  }

  lemma PointCellsFit(points: seq<Point>, cells: seq<nat>, width: real, n: nat, box: real)
    requires AllInBox(points, box) && width > 0.0 && 0 < n <= MAXIMUM_CELLS_PER_DIMENSION && Turns(width, n) == box
    requires |cells| == |points|
    requires forall i :: 0 <= i < |points| ==> points[i] in points && cells[i] == PointCell(points[i], width, n, box)
    ensures AllFit(cells)
  {
    forall i | 0 <= i < |cells|
      ensures cells[i] < CELL_LIMIT
    {
      PointCellFits(points[i], width, n, box);
    }
  }

  // ---- the grid loses no near pair ----

  /** The cell of every point nearer than the radius is in the neighbour list. */
  lemma NearIsNeighbor(grid: Grid, points: seq<Point>, box: real, radius: real, i: nat, j: nat)
    requires IsGrid(grid, points, box, radius) && radius >= 0.0 && i < |points| && j < |points|
    requires Relation(SquaredDistance(points[i], points[j], box), radius) < 0
    ensures grid.pointCells[i] in grid.neighbors
    ensures grid.pointCells[j] in grid.neighbors[grid.pointCells[i]]
  {
    var p, q := points[i], points[j];
    assert p in points && q in points;
    AxesWithin(p, q, box, radius);
    var dx := NearCells(p.x, q.x, box, grid.width, grid.n, radius, grid.reach);
    var dy := NearCells(p.y, q.y, box, grid.width, grid.n, radius, grid.reach);
    var dz := NearCells(p.z, q.z, box, grid.width, grid.n, radius, grid.reach);
    CoordinateCell(p.x, grid.width, grid.n);
    CoordinateCell(p.y, grid.width, grid.n);
    CoordinateCell(p.z, grid.width, grid.n);
    DecodeEncoded(CellOfCoordinate(p.x, grid.width, grid.n), CellOfCoordinate(p.y, grid.width, grid.n),
      CellOfCoordinate(p.z, grid.width, grid.n), grid.n);
    assert NeighborId(DecodeCellId(grid.pointCells[i], grid.n), dx, dy, dz, grid.n) == grid.pointCells[j];
  }
}
