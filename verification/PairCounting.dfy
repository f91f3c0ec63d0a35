/** Counting point pairs per radial bin over the cell grid, equal to counting all pairs. */
module PairCounting {
  import opened Collections
  import opened PairBins
  import opened CellGrid

  /** What is counted: one bin, or every pair in range. */
  datatype Kind = OneBin(index: nat) | AnyBin

  /** The points, the box and the bin edges of one count. */
  datatype Catalog = Catalog(points: seq<Point>, box: real, edges: seq<real>)
  {
    ghost predicate Valid() {
      AllInBox(points, box) && IsLayout(edges) && box > 0.0
    }
  }

  ghost predicate Counts(c: Catalog, kind: Kind, i: nat, j: nat)
    requires |c.edges| >= 2 && i < |c.points| && j < |c.points|
  {
    var d2 := SquaredDistance(c.points[i], c.points[j], c.box);
    match kind
    case OneBin(b) => IsBin(c.edges, d2, InBin(b))
    case AnyBin => !IsBin(c.edges, d2, NoBin)
  }

  /** One for every partner j > i of point i that counts. */
  ghost function Row(c: Catalog, kind: Kind, i: nat): nat -> int
    requires |c.edges| >= 2
  {
    (j: nat) => if i < j < |c.points| && Counts(c, kind, i, j) then 1 else 0
  }

  ghost function Rows(c: Catalog, kind: Kind): nat -> int
    requires |c.edges| >= 2
  {
    (i: nat) => SumBelow(|c.points|, Row(c, kind, i))
  }

  /** The number of unordered pairs that count, over all pairs of points. */
  ghost function BruteForce(c: Catalog, kind: Kind): int
    requires |c.edges| >= 2
  {
    SumBelow(|c.points|, Rows(c, kind))
  }

  // ---- every pair in range is in one bin ----

  ghost function BinCounts(c: Catalog): nat -> int
    requires |c.edges| >= 2
  {
    (b: nat) => BruteForce(c, OneBin(b))
  }

  /** The rows of the bins, for one point or for one pair. */
  ghost function BinRows(c: Catalog, i: nat): nat -> (nat -> int)
    requires |c.edges| >= 2
  {
    (b: nat) => Row(c, OneBin(b), i)
  }

  ghost function BinTotals(c: Catalog): nat -> (nat -> int)
    requires |c.edges| >= 2
  {
    (b: nat) => Rows(c, OneBin(b))
  }

  lemma PairInOneBin(c: Catalog, i: nat, j: nat)
    requires c.Valid()
    ensures SumBelow(|c.edges| - 1, AtIndex(BinRows(c, i), j)) == Row(c, AnyBin, i)(j)
  {
    var bins, at := |c.edges| - 1, AtIndex(BinRows(c, i), j);
    if i < j < |c.points| && Counts(c, AnyBin, i, j) {
      var d2 := SquaredDistance(c.points[i], c.points[j], c.box);
      var b := BinExists(c.edges, d2);
      forall a | 0 <= a < bins
        ensures at(a) == if a == b then 1 else 0
      {
        if IsBin(c.edges, d2, InBin(a)) {
          BinUnique(c.edges, d2, InBin(a), InBin(b));
        }
      }
      SumBelowSingle(bins, at, b);
    } else {
      forall a | 0 <= a < bins
        ensures at(a) == 0
      {
        if i < j < |c.points| && Counts(c, OneBin(a), i, j) {
          BinUniqueOutcome(c, a, i, j);
        }
      }
      SumBelowZero(bins, at);
    }
  }

  lemma RowInBins(c: Catalog, i: nat)
    requires c.Valid()
    ensures SumBelow(|c.edges| - 1, AtIndex(BinTotals(c), i)) == Rows(c, AnyBin)(i)
  {
    var bins, n := |c.edges| - 1, |c.points|;
    forall j | 0 <= j < n
      ensures Row(c, AnyBin, i)(j) == SumBelow(bins, AtIndex(BinRows(c, i), j))
    {
      PairInOneBin(c, i, j);
    }
    SumBelowExchange(bins, n, BinRows(c, i), Row(c, AnyBin, i));
    SumBelowMonotone(bins, AtIndex(BinTotals(c), i), UpTo(BinRows(c, i), n));
    SumBelowMonotone(bins, UpTo(BinRows(c, i), n), AtIndex(BinTotals(c), i));
  }

  /** The brute-force counts of the bins add up to the number of pairs in range. */
  lemma BinsPartitionPairs(c: Catalog)
    requires c.Valid()
    ensures SumBelow(|c.edges| - 1, BinCounts(c)) == BruteForce(c, AnyBin)
  {
    var bins, n := |c.edges| - 1, |c.points|;
    forall i | 0 <= i < n
      ensures Rows(c, AnyBin)(i) == SumBelow(bins, AtIndex(BinTotals(c), i))
    {
      RowInBins(c, i);
    }
    SumBelowExchange(bins, n, BinTotals(c), Rows(c, AnyBin));
    SumBelowMonotone(bins, BinCounts(c), UpTo(BinTotals(c), n));
    SumBelowMonotone(bins, UpTo(BinTotals(c), n), BinCounts(c));
  }

  // ---- sums over visited indices ----

  ghost predicate Distinct(visited: seq<nat>) {
    forall i, j :: 0 <= i < j < |visited| ==> visited[i] != visited[j]
  }

  ghost function Restricted(f: nat -> int, visited: seq<nat>): nat -> int {
    (j: nat) => if j in visited then f(j) else 0
  }

  ghost function Only(f: nat -> int, k: nat): nat -> int {
    (j: nat) => if j == k then f(k) else 0
  }

  /** Summing over distinct visited indices is summing over the range, restricted to them. */
  lemma {:induction false} SumVisited(f: nat -> int, visited: seq<nat>, n: nat)
    requires Distinct(visited) && forall k :: k in visited ==> k < n
    ensures SumInt(f, visited) == SumBelow(n, Restricted(f, visited))
  {
    if visited == [] {
      SumBelowZero(n, Restricted(f, visited));
    } else {
      var k, rest := visited[0], visited[1..];
      assert k in visited && forall j :: j in rest ==> j in visited;
      assert k !in rest;
      SumVisited(f, rest, n);
      SumBelowSingle(n, Only(f, k), k);
      forall j | 0 <= j < n
        ensures Restricted(f, visited)(j) == Only(f, k)(j) + Restricted(f, rest)(j)
      {
        assert j in visited <==> j == k || j in rest;
      }
      SumBelowAdd(n, Only(f, k), Restricted(f, rest), Restricted(f, visited));
    }
  }

  /** Visiting every index that counts, each once, sums the whole row. */
  lemma VisitedAll(f: nat -> int, visited: seq<nat>, n: nat)
    requires Distinct(visited) && forall k :: k in visited ==> k < n
    requires forall j :: 0 <= j < n && j !in visited ==> f(j) == 0
    ensures SumInt(f, visited) == SumBelow(n, f)
  {
    SumVisited(f, visited, n);
    SumBelowMonotone(n, f, Restricted(f, visited));
    SumBelowMonotone(n, Restricted(f, visited), f);
  }

  // ---- what one point visits ----

  /** The points in the listed cells, cell by cell. */
  ghost function Visit(grid: Grid, cells: seq<nat>): seq<nat> {
    if cells == [] then []
    else
      var last := cells[|cells| - 1];
      Visit(grid, cells[..|cells| - 1]) + if last in grid.occupied then grid.occupied[last] else []
  }

  lemma {:induction false} VisitMembers(grid: Grid, cells: seq<nat>, j: nat)
    requires forall c :: c in grid.occupied ==> grid.occupied[c] == IndicesOf(grid.pointCells, c)
    requires forall i :: 0 <= i < |grid.pointCells| ==> grid.pointCells[i] in grid.occupied
    ensures j in Visit(grid, cells) <==> j < |grid.pointCells| && grid.pointCells[j] in cells
  {
    if cells != [] {
      var last := cells[|cells| - 1];
      VisitMembers(grid, cells[..|cells| - 1], j);
      IndicesMembers(grid.pointCells, last, j);
      assert cells == cells[..|cells| - 1] + [last];
    }
  }

  lemma JoinDistinct(a: seq<nat>, b: seq<nat>)
    requires Distinct(a) && StrictlyIncreasing(b) && forall k :: k in a ==> k !in b
    ensures Distinct(a + b)
  {
    forall i, j | 0 <= i < j < |a + b|
      ensures (a + b)[i] != (a + b)[j]
    {
      assert i < |a| ==> a[i] in a;
      assert j >= |a| ==> b[j - |a|] in b;
    }
  }

  /** No point is visited twice: the listed cells are distinct and partition the points. */
  lemma {:induction false} VisitDistinct(grid: Grid, cells: seq<nat>)
    requires forall c :: c in grid.occupied ==> grid.occupied[c] == IndicesOf(grid.pointCells, c)
    requires forall i :: 0 <= i < |grid.pointCells| ==> grid.pointCells[i] in grid.occupied
    requires StrictlyIncreasing(cells)
    ensures Distinct(Visit(grid, cells))
  {
    if cells != [] {
      var n := |cells| - 1;
      var last := cells[n];
      VisitDistinct(grid, cells[..n]);
      if last in grid.occupied {
        IndicesIncrease(grid.pointCells, last);
        forall k | k in Visit(grid, cells[..n])
          ensures k !in grid.occupied[last]
        {
          VisitMembers(grid, cells[..n], k);
          IndicesMembers(grid.pointCells, last, k);
        }
        JoinDistinct(Visit(grid, cells[..n]), grid.occupied[last]);
      } else {
        assert Visit(grid, cells) == Visit(grid, cells[..n]);
      }
    }
  }

  ghost predicate Ready(c: Catalog, grid: Grid) {
    c.Valid() && IsGrid(grid, c.points, c.box, c.edges[|c.edges| - 1])
  }

  /** The visited indices of one point sum to its full row. */
  lemma RowByGrid(c: Catalog, grid: Grid, kind: Kind, i: nat)
    requires Ready(c, grid) && i < |c.points|
    ensures grid.pointCells[i] in grid.neighbors
    ensures SumInt(Row(c, kind, i), Visit(grid, grid.neighbors[grid.pointCells[i]])) ==
      SumBelow(|c.points|, Row(c, kind, i))
  {
    assert grid.pointCells[i] in grid.occupied;
    var cells := grid.neighbors[grid.pointCells[i]];
    var visited := Visit(grid, cells);
    VisitDistinct(grid, cells);
    forall k | k in visited
      ensures k < |c.points|
    {
      VisitMembers(grid, cells, k);
    }
    forall j | 0 <= j < |c.points| && j !in visited
      ensures Row(c, kind, i)(j) == 0
    {
      VisitMembers(grid, cells, j);
      FarCountsNothing(c, grid, kind, i, j);
    }
    VisitedAll(Row(c, kind, i), visited, |c.points|);
  }

  lemma FarCountsNothing(c: Catalog, grid: Grid, kind: Kind, i: nat, j: nat)
    requires Ready(c, grid) && i < |c.points| && j < |c.points| && grid.pointCells[i] in grid.neighbors
    requires grid.pointCells[j] !in grid.neighbors[grid.pointCells[i]]
    ensures !Counts(c, kind, i, j)
  {
    var d2 := SquaredDistance(c.points[i], c.points[j], c.box);
    var top := |c.edges| - 1;
    if Relation(d2, c.edges[top]) < 0 {
      LastEdgePositive(c.edges);
      NearIsNeighbor(grid, c.points, c.box, c.edges[top], i, j);
    }
    if kind.OneBin? && IsBin(c.edges, d2, InBin(kind.index)) {
      RelationMonotone(c.edges, d2, kind.index + 1, top);
    }
  }

  lemma LastEdgePositive(edges: seq<real>)
    requires IsLayout(edges)
    ensures edges[|edges| - 1] > 0.0
  {
  }

  /** A pair in one bin is in range, so no bin holds more than the total. */
  lemma BinBelowTotal(c: Catalog, b: nat, i: nat)
    requires c.Valid()
    ensures forall j: nat :: Row(c, OneBin(b), i)(j) <= Row(c, AnyBin, i)(j)
    ensures SumBelow(|c.points|, Row(c, OneBin(b), i)) <= SumBelow(|c.points|, Row(c, AnyBin, i))
  {
    forall j: nat
      ensures Row(c, OneBin(b), i)(j) <= Row(c, AnyBin, i)(j)
    {
      if i < j < |c.points| && Counts(c, OneBin(b), i, j) {
        BinUniqueOutcome(c, b, i, j);
      }
    }
    SumBelowMonotone(|c.points|, Row(c, OneBin(b), i), Row(c, AnyBin, i));
  }

  lemma BinUniqueOutcome(c: Catalog, b: nat, i: nat, j: nat)
    requires c.Valid() && i < |c.points| && j < |c.points| && Counts(c, OneBin(b), i, j)
    ensures Counts(c, AnyBin, i, j)
  {
    var d2 := SquaredDistance(c.points[i], c.points[j], c.box);
    if IsBin(c.edges, d2, NoBin) {
      BinUnique(c.edges, d2, InBin(b), NoBin);
    }
  }

  // ---- counters ----

  datatype Tally = Tally(bins: seq<nat>, total: nat)

  function Amount(t: Tally, kind: Kind): int {
    match kind
    case OneBin(b) => if b < |t.bins| then t.bins[b] else 0
    case AnyBin => t.total
  }

  ghost function BinAt(t: Tally): nat -> int {
    (b: nat) => Amount(t, OneBin(b))
  }

  lemma BinsAddUp(c: Catalog, t: Tally)
    requires c.Valid() && forall kind :: Amount(t, kind) == BruteForce(c, kind)
    ensures SumBelow(|c.edges| - 1, BinAt(t)) == t.total
  {
    var bins := |c.edges| - 1;
    SumBelowMonotone(bins, BinAt(t), BinCounts(c));
    SumBelowMonotone(bins, BinCounts(c), BinAt(t));
    BinsPartitionPairs(c);
    assert Amount(t, AnyBin) == BruteForce(c, AnyBin);
  }

  ghost predicate Bounded(c: Catalog, t: Tally, most: nat)
    requires |c.edges| >= 2
  {
    |t.bins| + 1 == |c.edges| && forall kind :: Amount(t, kind) <= most
  }

  /** Some counter cannot hold the amount added to it. */
  ghost predicate Exceeds(t: Tally, added: Kind -> int, most: nat) {
    exists kind :: Amount(t, kind) + added(kind) > most
  }

  /** Every counter grew by the amount added to it. */
  ghost predicate Grown(before: Tally, after: Tally, added: Kind -> int) {
    forall kind :: Amount(after, kind) == Amount(before, kind) + added(kind)
  }

  ghost function PairAmounts(c: Catalog, i: nat, j: nat): Kind -> int
    requires |c.edges| >= 2
  {
    (kind: Kind) => Row(c, kind, i)(j)
  }

  ghost function ListAmounts(c: Catalog, i: nat, list: seq<nat>): Kind -> int
    requires |c.edges| >= 2
  {
    (kind: Kind) => SumInt(Row(c, kind, i), list)
  }

  ghost function RowAmounts(c: Catalog, i: nat): Kind -> int
    requires |c.edges| >= 2
  {
    (kind: Kind) => Rows(c, kind)(i)
  }

  /** Count one pair; false when a counter is full. */
  method RecordDistance(c: Catalog, approximate: Approximate, i: nat, j: nat, t: Tally, most: nat)
    returns (ok: bool, next: Tally)
    requires c.Valid() && i < j < |c.points| && Bounded(c, t, most)
    ensures ok ==> Bounded(c, next, most) && Grown(t, next, PairAmounts(c, i, j))
    ensures !ok ==> Exceeds(t, PairAmounts(c, i, j), most)
  {
    var d2 := SquaredDistance(c.points[i], c.points[j], c.box);
    var bin := LocatePeriodicExact(c.edges, d2, approximate);
    PairCounted(c, i, j, bin);
    match bin
    case NoBin =>
      return true, t;
    case InBin(b) =>
      if t.bins[b] == most || t.total == most {
        assert t.bins[b] == most ==> Amount(t, OneBin(b)) + PairAmounts(c, i, j)(OneBin(b)) > most;
        assert t.total == most ==> Amount(t, AnyBin) + PairAmounts(c, i, j)(AnyBin) > most;
        return false, t;
      }
      next := Tally(t.bins[b := t.bins[b] + 1], t.total + 1);
      assert Amount(t, OneBin(b)) <= most && Amount(t, AnyBin) <= most;
      forall kind
        ensures Amount(next, kind) == Amount(t, kind) + PairAmounts(c, i, j)(kind) && Amount(next, kind) <= most
      {
        assert Amount(t, kind) <= most;
      }
      ok := true;
  }

  lemma PairCounted(c: Catalog, i: nat, j: nat, bin: Bin)
    requires c.Valid() && i < j < |c.points| && IsBin(c.edges, SquaredDistance(c.points[i], c.points[j], c.box), bin)
    ensures forall kind ::
      PairAmounts(c, i, j)(kind) == (if bin.InBin? && kind in {OneBin(bin.index), AnyBin} then 1 else 0)
  {
    forall kind
      ensures PairAmounts(c, i, j)(kind) == if bin.InBin? && (kind == OneBin(bin.index) || kind == AnyBin) then 1 else 0
    {
      KindCounted(c, i, j, bin, kind);
    }
  }

  lemma KindCounted(c: Catalog, i: nat, j: nat, bin: Bin, kind: Kind)
    requires c.Valid() && i < j < |c.points| && IsBin(c.edges, SquaredDistance(c.points[i], c.points[j], c.box), bin)
    ensures Row(c, kind, i)(j) == if bin.InBin? && (kind == OneBin(bin.index) || kind == AnyBin) then 1 else 0
  {
    var d2 := SquaredDistance(c.points[i], c.points[j], c.box);
    if kind.OneBin? && IsBin(c.edges, d2, InBin(kind.index)) {
      BinUnique(c.edges, d2, InBin(kind.index), bin);
    }
    if kind.AnyBin? && IsBin(c.edges, d2, NoBin) {
      BinUnique(c.edges, d2, NoBin, bin);
    }
  }

  lemma {:induction false} ListNonNegative(c: Catalog, kind: Kind, i: nat, list: seq<nat>)
    requires |c.edges| >= 2
    ensures SumInt(Row(c, kind, i), list) >= 0
  {
    if list != [] {
      ListNonNegative(c, kind, i, list[1..]);
    }
  }

  lemma ListSnoc(c: Catalog, kind: Kind, i: nat, list: seq<nat>, m: nat)
    requires |c.edges| >= 2 && m < |list|
    ensures SumInt(Row(c, kind, i), list[..m + 1]) == SumInt(Row(c, kind, i), list[..m]) + Row(c, kind, i)(list[m])
    ensures SumInt(Row(c, kind, i), list[..m + 1]) <= SumInt(Row(c, kind, i), list)
  {
    SumIntPrefix(Row(c, kind, i), list, m);
    ListNonNegative(c, kind, i, list[m + 1..]);
  }

  lemma Accumulate(c: Catalog, i: nat, list: seq<nat>, m: nat, t: Tally, current: Tally, next: Tally)
    requires |c.edges| >= 2 && m < |list| && Grown(t, current, ListAmounts(c, i, list[..m]))
    requires Grown(current, next, PairAmounts(c, i, list[m]))
    ensures Grown(t, next, ListAmounts(c, i, list[..m + 1]))
  {
    forall kind
      ensures Amount(next, kind) == Amount(t, kind) + ListAmounts(c, i, list[..m + 1])(kind)
    {
      ListSnoc(c, kind, i, list, m);
      assert Amount(current, kind) == Amount(t, kind) + ListAmounts(c, i, list[..m])(kind);
      assert Amount(next, kind) == Amount(current, kind) + PairAmounts(c, i, list[m])(kind);
    }
  }

  lemma FailEarly(c: Catalog, i: nat, list: seq<nat>, m: nat, t: Tally, current: Tally, most: nat)
    requires |c.edges| >= 2 && m < |list| && Grown(t, current, ListAmounts(c, i, list[..m]))
    requires Exceeds(current, PairAmounts(c, i, list[m]), most)
    ensures Exceeds(t, ListAmounts(c, i, list), most)
  {
    var kind :| Amount(current, kind) + PairAmounts(c, i, list[m])(kind) > most;
    ListSnoc(c, kind, i, list, m);
    assert Amount(current, kind) == Amount(t, kind) + ListAmounts(c, i, list[..m])(kind);
    assert Amount(t, kind) + ListAmounts(c, i, list)(kind) > most;
  }

  /** Count the partners of point i within one cell, skipping itself and lower indices. */
  method CountCell(c: Catalog, approximate: (nat, nat) -> Approximate, i: nat, members: seq<nat>, t: Tally, most: nat)
    returns (ok: bool, next: Tally)
    requires c.Valid() && i < |c.points| && Bounded(c, t, most) && forall j :: j in members ==> j < |c.points|
    ensures ok ==> Bounded(c, next, most) && Grown(t, next, ListAmounts(c, i, members))
    ensures !ok ==> Exceeds(t, ListAmounts(c, i, members), most)
  {
    next := t;
    for m := 0 to |members|
      invariant Bounded(c, next, most) && Grown(t, next, ListAmounts(c, i, members[..m]))
    {
      var j := members[m];
      assert j in members;
      ghost var current := next;
      if j > i {
        ok, next := RecordDistance(c, approximate(i, j), i, j, next, most);
        if !ok {
          FailEarly(c, i, members, m, t, current, most);
          return;
        }
      }
      Accumulate(c, i, members, m, t, current, next);
    }
    assert members[..|members|] == members;
    ok := true;
  }

  lemma VisitStep(grid: Grid, cells: seq<nat>, k: nat)
    requires k < |cells|
    ensures Visit(grid, cells[..k + 1])
      == Visit(grid, cells[..k]) + if cells[k] in grid.occupied then grid.occupied[cells[k]] else []
  {
    assert cells[..k + 1][..k] == cells[..k];
  }

  lemma {:induction false} VisitGrows(c: Catalog, grid: Grid, kind: Kind, i: nat, cells: seq<nat>, k: nat)
    requires |c.edges| >= 2 && k <= |cells|
    ensures SumInt(Row(c, kind, i), Visit(grid, cells[..k])) <= SumInt(Row(c, kind, i), Visit(grid, cells))
    decreases |cells| - k
  {
    if k == |cells| {
      assert cells[..k] == cells;
    } else {
      VisitStep(grid, cells, k);
      var more := if cells[k] in grid.occupied then grid.occupied[cells[k]] else [];
      SumIntAppend(Row(c, kind, i), Visit(grid, cells[..k]), more);
      ListNonNegative(c, kind, i, more);
      VisitGrows(c, grid, kind, i, cells, k + 1);
    }
  }

  lemma JoinLists(c: Catalog, i: nat, a: seq<nat>, b: seq<nat>, t: Tally, current: Tally, next: Tally)
    requires |c.edges| >= 2 && Grown(t, current, ListAmounts(c, i, a)) && Grown(current, next, ListAmounts(c, i, b))
    ensures Grown(t, next, ListAmounts(c, i, a + b))
  {
    forall kind
      ensures Amount(next, kind) == Amount(t, kind) + ListAmounts(c, i, a + b)(kind)
    {
      SumIntAppend(Row(c, kind, i), a, b);
      assert Amount(current, kind) == Amount(t, kind) + ListAmounts(c, i, a)(kind);
      assert Amount(next, kind) == Amount(current, kind) + ListAmounts(c, i, b)(kind);
    }
  }

  lemma FailInCell(c: Catalog, grid: Grid, i: nat, cells: seq<nat>, k: nat, t: Tally, current: Tally, most: nat)
    requires |c.edges| >= 2 && k < |cells| && cells[k] in grid.occupied
    requires Grown(t, current, ListAmounts(c, i, Visit(grid, cells[..k])))
    requires Exceeds(current, ListAmounts(c, i, grid.occupied[cells[k]]), most)
    ensures Exceeds(t, ListAmounts(c, i, Visit(grid, cells)), most)
  {
    var kind :| Amount(current, kind) + ListAmounts(c, i, grid.occupied[cells[k]])(kind) > most;
    VisitStep(grid, cells, k);
    SumIntAppend(Row(c, kind, i), Visit(grid, cells[..k]), grid.occupied[cells[k]]);
    VisitGrows(c, grid, kind, i, cells, k + 1);
    assert Amount(current, kind) == Amount(t, kind) + ListAmounts(c, i, Visit(grid, cells[..k]))(kind);
    assert Amount(t, kind) + ListAmounts(c, i, Visit(grid, cells))(kind) > most;
  }

  lemma RowIs(c: Catalog, kind: Kind, i: nat)
    requires |c.edges| >= 2
    ensures Rows(c, kind)(i) == SumBelow(|c.points|, Row(c, kind, i))
  {
  }

  lemma RowAmountIs(c: Catalog, i: nat, kind: Kind)
    requires |c.edges| >= 2
    ensures RowAmounts(c, i)(kind) == Rows(c, kind)(i)
  {
  }

  lemma ListAmountIs(c: Catalog, i: nat, list: seq<nat>, kind: Kind)
    requires |c.edges| >= 2
    ensures ListAmounts(c, i, list)(kind) == SumInt(Row(c, kind, i), list)
  {
  }

  lemma AmountsAgree(c: Catalog, i: nat, list: seq<nat>, kind: Kind)
    requires |c.edges| >= 2 && SumInt(Row(c, kind, i), list) == SumBelow(|c.points|, Row(c, kind, i))
    ensures ListAmounts(c, i, list)(kind) == RowAmounts(c, i)(kind)
  {
    RowIs(c, kind, i);
    RowAmountIs(c, i, kind);
    ListAmountIs(c, i, list, kind);
  }

  lemma RowsByGrid(c: Catalog, grid: Grid, i: nat) returns (cells: seq<nat>)
    requires Ready(c, grid) && i < |c.points|
    ensures grid.pointCells[i] in grid.neighbors && cells == grid.neighbors[grid.pointCells[i]]
    ensures forall kind :: ListAmounts(c, i, Visit(grid, cells))(kind) == RowAmounts(c, i)(kind)
  {
    RowByGrid(c, grid, AnyBin, i);
    cells := grid.neighbors[grid.pointCells[i]];
    forall kind
      ensures ListAmounts(c, i, Visit(grid, cells))(kind) == RowAmounts(c, i)(kind)
    {
      RowByGrid(c, grid, kind, i);
      AmountsAgree(c, i, Visit(grid, cells), kind);
    }
  }

  lemma OccupiedInside(c: Catalog, grid: Grid, cell: nat)
    requires Ready(c, grid) && cell in grid.occupied
    ensures forall j :: j in grid.occupied[cell] ==> j < |c.points|
  {
  }

  /** Visit the partners of one point through its neighbour cells. */
  method CountPoint(c: Catalog, grid: Grid, approximate: (nat, nat) -> Approximate, i: nat, t: Tally, most: nat)
    returns (ok: bool, next: Tally)
    requires Ready(c, grid) && i < |c.points| && Bounded(c, t, most)
    ensures ok ==> Bounded(c, next, most) && Grown(t, next, RowAmounts(c, i))
    ensures !ok ==> Exceeds(t, RowAmounts(c, i), most)
  {
    next := t;
    var cell := grid.pointCells[i];
    ghost var listed := RowsByGrid(c, grid, i);
    if cell !in grid.neighbors {
      return false, t;
    }
    var cells := grid.neighbors[cell];
    for k := 0 to |cells|
      invariant Bounded(c, next, most) && Grown(t, next, ListAmounts(c, i, Visit(grid, cells[..k])))
    {
      VisitStep(grid, cells, k);
      if cells[k] in grid.occupied {
        ghost var current := next;
        OccupiedInside(c, grid, cells[k]);
        ok, next := CountCell(c, approximate, i, grid.occupied[cells[k]], next, most);
        if !ok {
          FailInCell(c, grid, i, cells, k, t, current, most);
          SameAmounts(t, ListAmounts(c, i, Visit(grid, cells)), RowAmounts(c, i), most);
          return;
        }
        JoinLists(c, i, Visit(grid, cells[..k]), grid.occupied[cells[k]], t, current, next);
      } else {
        assert Visit(grid, cells[..k + 1]) == Visit(grid, cells[..k]);
      }
    }
    assert cells[..|cells|] == cells;
    ok := true;
  }

  lemma SameAmounts(t: Tally, a: Kind -> int, b: Kind -> int, most: nat)
    requires Exceeds(t, a, most) && forall kind :: a(kind) == b(kind)
    ensures Exceeds(t, b, most)
  {
    var kind :| Amount(t, kind) + a(kind) > most;
    assert Amount(t, kind) + b(kind) > most;
  }

  // ---- workers ----

  /** The rows one worker counts under an assignment of points to workers. */
  ghost function WorkerRows(c: Catalog, kind: Kind, assign: nat -> nat, w: nat): nat -> int
    requires |c.edges| >= 2
  {
    (i: nat) => if assign(i) == w then Rows(c, kind)(i) else 0
  }

  ghost function WorkerTotals(c: Catalog, kind: Kind, assign: nat -> nat, n: nat): nat -> int
    requires |c.edges| >= 2
  {
    (w: nat) => SumBelow(n, WorkerRows(c, kind, assign, w))
  }

  lemma RowNonNegative(c: Catalog, kind: Kind, i: nat)
    requires |c.edges| >= 2
    ensures Rows(c, kind)(i) >= 0
  {
    SumBelowNonnegative(|c.points|, Row(c, kind, i));
  }

  /** Splitting the rows over workers loses and repeats none, for any assignment. */
  lemma {:induction false} WorkersCover(c: Catalog, kind: Kind, assign: nat -> nat, workers: nat, n: nat)
    requires |c.edges| >= 2 && forall i :: assign(i) < workers
    ensures SumBelow(workers, WorkerTotals(c, kind, assign, n)) == SumBelow(n, Rows(c, kind))
  {
    if n == 0 {
      SumBelowZero(workers, WorkerTotals(c, kind, assign, 0));
    } else {
      WorkersCover(c, kind, assign, workers, n - 1);
      var last := (w: nat) => if w == assign(n - 1) then Rows(c, kind)(n - 1) else 0;
      SumBelowSingle(workers, last, assign(n - 1));
      SumBelowAdd(workers, WorkerTotals(c, kind, assign, n - 1), last, WorkerTotals(c, kind, assign, n));
    }
  }

  lemma {:induction false} PrefixBelow(f: nat -> int, m: nat, n: nat)
    requires m <= n && forall i :: 0 <= i < n ==> f(i) >= 0
    ensures SumBelow(m, f) <= SumBelow(n, f)
    decreases n
  {
    if m < n {
      PrefixBelow(f, m, n - 1);
    }
  }

  /** One worker never counts more than there is. */
  lemma WorkerBelow(c: Catalog, kind: Kind, assign: nat -> nat, w: nat, m: nat)
    requires |c.edges| >= 2 && m <= |c.points|
    ensures SumBelow(m, WorkerRows(c, kind, assign, w)) <= BruteForce(c, kind)
  {
    forall i | 0 <= i < |c.points|
      ensures 0 <= WorkerRows(c, kind, assign, w)(i) <= Rows(c, kind)(i)
    {
      RowNonNegative(c, kind, i);
    }
    PrefixBelow(WorkerRows(c, kind, assign, w), m, |c.points|);
    SumBelowMonotone(|c.points|, WorkerRows(c, kind, assign, w), Rows(c, kind));
  }

  /** The total bounds every bin. */
  lemma BruteBelowTotal(c: Catalog, kind: Kind)
    requires c.Valid()
    ensures BruteForce(c, kind) <= BruteForce(c, AnyBin)
  {
    if kind.OneBin? {
      forall i | 0 <= i < |c.points|
        ensures Rows(c, kind)(i) <= Rows(c, AnyBin)(i)
      {
        BinBelowTotal(c, kind.index, i);
      }
      SumBelowMonotone(|c.points|, Rows(c, kind), Rows(c, AnyBin));
    }
  }

  ghost predicate LocalsAre(c: Catalog, assign: nat -> nat, locals: seq<Tally>, n: nat)
    requires |c.edges| >= 2
  {
    forall w, kind :: 0 <= w < |locals| ==> Amount(locals[w], kind) == SumBelow(n, WorkerRows(c, kind, assign, w))
  }

  datatype PairCounts = Counted(tally: Tally) | Overflow

  function ZeroTally(bins: nat): Tally {
    Tally(seq(bins, _ => 0), 0)
  }

  lemma RowOverflow(c: Catalog, assign: nat -> nat, locals: seq<Tally>, i: nat, most: nat)
    requires c.Valid() && i < |c.points| && assign(i) < |locals| && LocalsAre(c, assign, locals, i)
    requires Exceeds(locals[assign(i)], RowAmounts(c, i), most)
    ensures BruteForce(c, AnyBin) > most
  {
    var w := assign(i);
    var kind :| Amount(locals[w], kind) + RowAmounts(c, i)(kind) > most;
    assert Amount(locals[w], kind) == SumBelow(i, WorkerRows(c, kind, assign, w));
    WorkerBelow(c, kind, assign, w, i + 1);
    BruteBelowTotal(c, kind);
  }

  lemma LocalsStep(c: Catalog, assign: nat -> nat, locals: seq<Tally>, i: nat, next: Tally)
    requires |c.edges| >= 2 && assign(i) < |locals| && LocalsAre(c, assign, locals, i)
    requires Grown(locals[assign(i)], next, RowAmounts(c, i))
    ensures LocalsAre(c, assign, locals[assign(i) := next], i + 1)
  {
    var after := locals[assign(i) := next];
    forall w, kind | 0 <= w < |after|
      ensures Amount(after[w], kind) == SumBelow(i + 1, WorkerRows(c, kind, assign, w))
    {
      assert Amount(locals[w], kind) == SumBelow(i, WorkerRows(c, kind, assign, w));
      assert w == assign(i) ==> Amount(next, kind) == Amount(locals[w], kind) + RowAmounts(c, i)(kind);
    }
  }

  /** Every point is counted by the worker it is assigned to, in that worker's own counters. */
  method CountLocally(c: Catalog, grid: Grid, approximate: (nat, nat) -> Approximate, workers: nat, assign: nat -> nat,
                      most: nat)
    returns (ok: bool, locals: seq<Tally>)
    requires Ready(c, grid) && forall i :: assign(i) < workers
    ensures AllBounded(c, locals, workers, most)
    ensures ok ==> LocalsAre(c, assign, locals, |c.points|)
    ensures !ok ==> BruteForce(c, AnyBin) > most
  {
    locals := seq(workers, _ => ZeroTally(|c.edges| - 1));
    ok := true;
    for outer := 0 to |c.points|
      invariant ok && AllBounded(c, locals, workers, most) && LocalsAre(c, assign, locals, outer)
    {
      ok, locals := CountLocal(c, grid, approximate, outer, workers, assign, locals, most);
      if !ok {
        return;
      }
    }
  }

  /** The worker of one outer point counts it into its own counters. */
  method CountLocal(c: Catalog, grid: Grid, approximate: (nat, nat) -> Approximate, outer: nat, workers: nat,
                    assign: nat -> nat, locals: seq<Tally>, most: nat)
    returns (ok: bool, next: seq<Tally>)
    requires Ready(c, grid) && outer < |c.points| && assign(outer) < workers
    requires AllBounded(c, locals, workers, most) && LocalsAre(c, assign, locals, outer)
    ensures AllBounded(c, next, workers, most)
    ensures ok ==> LocalsAre(c, assign, next, outer + 1)
    ensures !ok ==> BruteForce(c, AnyBin) > most
  {
    var w := assign(outer);
    var tally;
    ok, tally := CountPoint(c, grid, approximate, outer, locals[w], most);
    if ok {
      LocalsStep(c, assign, locals, outer, tally);
      next := locals[w := tally];
    } else {
      RowOverflow(c, assign, locals, outer, most);
      next := locals;
    }
  }

  ghost predicate AllBounded(c: Catalog, locals: seq<Tally>, workers: nat, most: nat)
    requires |c.edges| >= 2
  {
    |locals| == workers && forall w :: 0 <= w < workers ==> Bounded(c, locals[w], most)
  }

  /** Add one worker's counters; false when a sum does not fit. */
  method AddTally(c: Catalog, a: Tally, b: Tally, most: nat) returns (ok: bool, sum: Tally)
    requires c.Valid() && Bounded(c, a, most) && Bounded(c, b, most)
    ensures ok ==> Bounded(c, sum, most) && forall kind :: Amount(sum, kind) == Amount(a, kind) + Amount(b, kind)
    ensures !ok ==> exists kind :: Amount(a, kind) + Amount(b, kind) > most
  {
    if a.total + b.total > most {
      assert Amount(a, AnyBin) + Amount(b, AnyBin) > most;
      return false, a;
    }
    var bins: seq<nat> := [];
    for bin := 0 to |a.bins|
      invariant |bins| == bin && forall k :: 0 <= k < bin ==> bins[k] == a.bins[k] + b.bins[k] <= most
    {
      if a.bins[bin] + b.bins[bin] > most {
        assert Amount(a, OneBin(bin)) + Amount(b, OneBin(bin)) > most;
        return false, a;
      }
      bins := bins + [a.bins[bin] + b.bins[bin]];
    }
    ok, sum := true, Tally(bins, a.total + b.total);
  }

  ghost predicate MergedUpTo(c: Catalog, assign: nat -> nat, merged: Tally, w: nat)
    requires |c.edges| >= 2
  {
    forall kind :: Amount(merged, kind) == SumBelow(w, WorkerTotals(c, kind, assign, |c.points|))
  }

  lemma MergeOverflow(c: Catalog, assign: nat -> nat, workers: nat, merged: Tally, w: nat, local: Tally, most: nat)
    requires c.Valid() && w < workers && (forall i :: assign(i) < workers) && MergedUpTo(c, assign, merged, w)
    requires forall kind :: Amount(local, kind) == SumBelow(|c.points|, WorkerRows(c, kind, assign, w))
    requires exists kind :: Amount(merged, kind) + Amount(local, kind) > most
    ensures BruteForce(c, AnyBin) > most
  {
    var kind :| Amount(merged, kind) + Amount(local, kind) > most;
    var totals := WorkerTotals(c, kind, assign, |c.points|);
    assert Amount(merged, kind) == SumBelow(w, totals);
    assert Amount(local, kind) == totals(w);
    TotalsBelow(c, kind, assign, workers, w, totals);
    BruteBelowTotal(c, kind);
  }

  lemma TotalsBelow(c: Catalog, kind: Kind, assign: nat -> nat, workers: nat, w: nat, totals: nat -> int)
    requires |c.edges| >= 2 && w < workers && (forall i :: assign(i) < workers)
    requires totals == WorkerTotals(c, kind, assign, |c.points|)
    ensures SumBelow(w, totals) + totals(w) <= BruteForce(c, kind)
  {
    forall v | 0 <= v < workers
      ensures totals(v) >= 0
    {
      WorkerNonNegative(c, kind, assign, v);
    }
    PrefixBelow(totals, w + 1, workers);
    WorkersCover(c, kind, assign, workers, |c.points|);
  }

  lemma WorkerNonNegative(c: Catalog, kind: Kind, assign: nat -> nat, w: nat)
    requires |c.edges| >= 2
    ensures SumBelow(|c.points|, WorkerRows(c, kind, assign, w)) >= 0
  {
    forall i | 0 <= i < |c.points|
      ensures WorkerRows(c, kind, assign, w)(i) >= 0
    {
      RowNonNegative(c, kind, i);
    }
    SumBelowNonnegative(|c.points|, WorkerRows(c, kind, assign, w));
  }

  /**
   * Count all pairs over the grid with any number of workers and any assignment: every bin and the total are the
   * brute-force counts over unordered pairs, or the total does not fit the counters.
   */
  method CountAuto(c: Catalog, grid: Grid, approximate: (nat, nat) -> Approximate, workers: nat, assign: nat -> nat,
                   most: nat)
    returns (counts: PairCounts)
    requires Ready(c, grid) && forall i :: assign(i) < workers
    ensures counts.Counted? <==> BruteForce(c, AnyBin) <= most
    ensures counts.Counted? ==> |counts.tally.bins| + 1 == |c.edges| && counts.tally.total == BruteForce(c, AnyBin)
    ensures counts.Counted? ==> forall b :: 0 <= b < |c.edges| - 1 ==> counts.tally.bins[b] == BruteForce(c, OneBin(b))
    ensures counts.Counted? ==> SumBelow(|c.edges| - 1, BinAt(counts.tally)) == counts.tally.total
  {
    var ok, locals := CountLocally(c, grid, approximate, workers, assign, most);
    if !ok {
      return Overflow;
    }
    var merged := ZeroTally(|c.edges| - 1);
    for w := 0 to workers
      invariant Bounded(c, merged, most) && MergedUpTo(c, assign, merged, w)
    {
      assert forall kind :: Amount(locals[w], kind) == SumBelow(|c.points|, WorkerRows(c, kind, assign, w));
      var fits, sum := AddTally(c, merged, locals[w], most);
      if !fits {
        MergeOverflow(c, assign, workers, merged, w, locals[w], most);
        return Overflow;
      }
      merged := sum;
    }
    forall kind
      ensures Amount(merged, kind) == BruteForce(c, kind) && Amount(merged, kind) <= most
    {
      WorkersCover(c, kind, assign, workers, |c.points|);
    }
    assert Amount(merged, AnyBin) == BruteForce(c, AnyBin);
    forall b | 0 <= b < |c.edges| - 1
      ensures merged.bins[b] == BruteForce(c, OneBin(b))
    {
      assert Amount(merged, OneBin(b)) == BruteForce(c, OneBin(b));
    }
    BinsAddUp(c, merged);
    counts := Counted(merged);
  }

  /** Build the grid for the outermost edge and count over it. */
  method CountPairs(c: Catalog, approximate: (nat, nat) -> Approximate, workers: nat, assign: nat -> nat, most: nat)
    returns (counts: PairCounts)
    requires c.Valid() && forall i :: assign(i) < workers
    ensures counts.Counted? <==> BruteForce(c, AnyBin) <= most
    ensures counts.Counted? ==> |counts.tally.bins| + 1 == |c.edges| && counts.tally.total == BruteForce(c, AnyBin)
    ensures counts.Counted? ==> forall b :: 0 <= b < |c.edges| - 1 ==> counts.tally.bins[b] == BruteForce(c, OneBin(b))
    ensures counts.Counted? ==> SumBelow(|c.edges| - 1, BinAt(counts.tally)) == counts.tally.total
  {
    LastEdgePositive(c.edges);
    var grid := BuildCellGrid(c.points, c.box, c.edges[|c.edges| - 1]);
    counts := CountAuto(c, grid, approximate, workers, assign, most);
  }
}
