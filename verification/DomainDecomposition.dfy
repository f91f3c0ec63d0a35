/** Collective repartition of particles over ranks: retain-all, sparse migration and route-all rebuild. */
module DomainDecomposition {
  import opened Collections
  import opened Binary64
  import opened MeshCells
  import opened ExchangeBuffer
  import opened SlabLayout
  import opened ParticleStores
  import BoundedMigration
  import CanonicalBuckets

  /** The owned part of one rank's store; with a uniform mass every particle represents that mass. */
  datatype Store = Store(uniform: Option<Double>, owned: seq<Body>)
  {
    ghost predicate Consistent() {
      uniform.Some? ==> forall p :: p in owned ==> p.state.mass == uniform.value
    }
  }

  /** One rank's live store: its mass representation and the array of its owned particles. */
  class RankStore {
    var uniform: Option<Double>
    var primary: array<Body>

    constructor (uniform: Option<Double>, particles: seq<Body>)
      ensures View() == Store(uniform, particles) && fresh(primary)
    {
      this.uniform := uniform;
      primary := new Body[|particles|](i requires 0 <= i < |particles| => particles[i]);
      new;
      assert primary[..] == particles;
    }

    function View(): Store
      reads this, primary
    {
      Store(uniform, primary[..])
    }
  }

  ghost function Arrays(ranks: seq<RankStore>): set<array<Body>>
    reads ranks
  {
    set r | 0 <= r < |ranks| :: ranks[r].primary
  }

  ghost predicate Different(x: RankStore, y: RankStore)
    reads x, y
  {
    x != y && x.primary != y.primary
  }

  /** Ranks share neither stores nor arrays. */
  ghost predicate Separate(ranks: seq<RankStore>)
    reads ranks
  {
    forall a, b {:trigger Different(ranks[a], ranks[b])} :: 0 <= a < |ranks| && 0 <= b < |ranks| && a != b ==>
      Different(ranks[a], ranks[b])
  }

  lemma ApartFrom(ranks: seq<RankStore>, r: nat)
    requires Separate(ranks) && r < |ranks|
    ensures forall q :: 0 <= q < |ranks| && q != r ==> ranks[q] != ranks[r] && ranks[q].primary != ranks[r].primary
  {
    forall q | 0 <= q < |ranks| && q != r
      ensures ranks[q] != ranks[r] && ranks[q].primary != ranks[r].primary
    {
      assert Different(ranks[q], ranks[r]);
    }
  }

  /** One rank taking over a new array stays separate from the others. */
  lemma StillSeparate(ranks: seq<RankStore>, r: nat)
    requires r < |ranks|
    requires forall a, b {:trigger Different(ranks[a], ranks[b])} ::
      0 <= a < |ranks| && 0 <= b < |ranks| && a != b && a != r && b != r ==> Different(ranks[a], ranks[b])
    requires forall q :: 0 <= q < |ranks| && q != r ==> ranks[q] != ranks[r] && ranks[q].primary != ranks[r].primary
    ensures Separate(ranks)
  {
    forall a, b {:trigger Different(ranks[a], ranks[b])} | 0 <= a < |ranks| && 0 <= b < |ranks| && a != b
      ensures Different(ranks[a], ranks[b])
    {
    }
  }

  /** What the ranks hold. */
  function Views(ranks: seq<RankStore>): (stores: seq<Store>)
    reads ranks, Arrays(ranks)
    ensures |stores| == |ranks| && forall r :: 0 <= r < |ranks| ==> stores[r] == ranks[r].View()
  {
    seq(|ranks|, r requires 0 <= r < |ranks| reads ranks, Arrays(ranks) => ranks[r].View())
  }

  /** Every rank still has its array, unchanged, and its mass representation. */
  twostate predicate Untouched(ranks: seq<RankStore>)
    reads ranks, Arrays(ranks)
  {
    forall r :: 0 <= r < |ranks| ==>
      ranks[r].primary == old(ranks[r].primary) && ranks[r].View() == old(ranks[r].View())
  }

  // ---- what a partition must publish ----

  /** All particles of the first n stores, wrapped. */
  ghost function AllWrapped(pl: Placement, stores: seq<Store>, n: nat): multiset<Body>
    requires n <= |stores|
  {
    if n == 0 then multiset{} else AllWrapped(pl, stores, n - 1) + multiset(WrappedAll(pl, stores[n - 1].owned))
  }

  /** The share of one rank: the global wrapped particles whose owner it is, each as often as it occurs. */
  ghost predicate IsShare(pl: Placement, stores: seq<Store>, r: nat, share: multiset<Body>)
  {
    forall p: Body :: share[p] == if pl.rank(p) == r then AllWrapped(pl, stores, |stores|)[p] else 0
  }

  /** A published store: exactly the rank's share, in strict identifier order. */
  ghost predicate IsPublished(pl: Placement, stores: seq<Store>, r: nat, owned: seq<Body>)
  {
    StrictIds(owned) && IsShare(pl, stores, r, multiset(owned))
  }

  lemma ShareUnique(pl: Placement, stores: seq<Store>, r: nat, a: multiset<Body>, b: multiset<Body>)
    requires IsShare(pl, stores, r, a) && IsShare(pl, stores, r, b)
    ensures a == b
  {
    assert forall p: Body :: a[p] == b[p];
  }

  /** There is only one store a rank can publish, whichever path built it. */
  lemma PublishedUnique(pl: Placement, stores: seq<Store>, r: nat, a: seq<Body>, b: seq<Body>)
    requires IsPublished(pl, stores, r, a) && IsPublished(pl, stores, r, b)
    ensures a == b
  {
    ShareUnique(pl, stores, r, multiset(a), multiset(b));
    StrictUnique(a, b);
  }

  /** Two places of the world hold the same stable identifier. */
  ghost predicate Twins(stores: seq<Store>, a: nat, i: nat, b: nat, j: nat) {
    && a < |stores| && b < |stores| && i < |stores[a].owned| && j < |stores[b].owned|
    && stores[a].owned[i].id == stores[b].owned[j].id
  }

  /** Stable identifiers are unique across all ranks. */
  ghost predicate GloballyDistinct(stores: seq<Store>) {
    forall a: nat, b: nat, i: nat, j: nat {:trigger Twins(stores, a, i, b, j)} :: Twins(stores, a, i, b, j) ==>
      a == b && i == j
  }

  lemma NotTwins(stores: seq<Store>, a: nat, i: nat, b: nat, j: nat)
    requires GloballyDistinct(stores) && a < |stores| && b < |stores| && i < |stores[a].owned| && j < |stores[b].owned|
    requires a != b || i != j
    ensures stores[a].owned[i].id != stores[b].owned[j].id
  {
    assert Twins(stores, a, i, b, j) <==> stores[a].owned[i].id == stores[b].owned[j].id;
  }

  // ---- shares as gathered selections ----

  /** The selections of all stores for one rank, by source. */
  ghost function Gathered(pl: Placement, stores: seq<Store>, r: nat, n: nat): seq<Body>
    requires n <= |stores|
  {
    if n == 0 then [] else Gathered(pl, stores, r, n - 1) + Mine(pl, stores[n - 1].owned, r)
  }

  lemma {:induction false} MineCounts(pl: Placement, owned: seq<Body>, r: nat, p: Body)
    requires pl.Valid()
    ensures multiset(Mine(pl, owned, r))[p] == if pl.rank(p) == r then multiset(WrappedAll(pl, owned))[p] else 0
  {
    if owned != [] {
      var n := |owned| - 1;
      MineCounts(pl, owned[..n], r, p);
      WrappedCounts(pl, owned, p);
      MineStep(pl, owned, r, p);
    }
  }

  lemma WrappedCounts(pl: Placement, owned: seq<Body>, p: Body)
    requires owned != []
    ensures multiset(WrappedAll(pl, owned))[p]
      == multiset(WrappedAll(pl, owned[..|owned| - 1]))[p] + if pl.canonical(owned[|owned| - 1]) == p then 1 else 0
  {
    CountLast(WrappedAll(pl, owned), p);
    assert WrappedAll(pl, owned)[..|owned| - 1] == WrappedAll(pl, owned[..|owned| - 1]);
  }

  lemma MineStep(pl: Placement, owned: seq<Body>, r: nat, p: Body)
    requires pl.Valid() && owned != []
    ensures multiset(Mine(pl, owned, r))[p] == multiset(Mine(pl, owned[..|owned| - 1], r))[p]
      + if pl.rank(p) == r && pl.canonical(owned[|owned| - 1]) == p then 1 else 0
  {
    var last := owned[|owned| - 1];
    assert pl.rank(pl.canonical(last)) == pl.rank(last);
    CountOfBoth(Mine(pl, owned[..|owned| - 1], r), if pl.rank(last) == r then [pl.canonical(last)] else [], p);
  }

  /** How often each store selects a particle for rank r. */
  ghost function Selected(pl: Placement, stores: seq<Store>, r: nat, p: Body): nat -> int {
    (s: nat) => if s < |stores| then multiset(Mine(pl, stores[s].owned, r))[p] else 0
  }

  /** How often the first n stores select a particle for rank r. */
  ghost function Tally(pl: Placement, stores: seq<Store>, r: nat, n: nat, p: Body): int {
    SumBelow(n, Selected(pl, stores, r, p))
  }

  /** How often a particle occurs in the selections of the first stores. */
  ghost function GatheredSoFar(pl: Placement, stores: seq<Store>, r: nat, p: Body): nat -> int {
    (n: nat) => if n <= |stores| then multiset(Gathered(pl, stores, r, n))[p] else 0
  }

  lemma GatheredGrows(pl: Placement, stores: seq<Store>, r: nat, i: nat, p: Body)
    requires i < |stores|
    ensures GatheredSoFar(pl, stores, r, p)(i + 1) == GatheredSoFar(pl, stores, r, p)(i) + Selected(pl, stores, r, p)(i)
  {
    GatheredStep(pl, stores, r, i + 1, p);
  }

  lemma TallyIsGathered(pl: Placement, stores: seq<Store>, r: nat, n: nat, p: Body)
    requires n <= |stores|
    ensures Tally(pl, stores, r, n, p) == multiset(Gathered(pl, stores, r, n))[p]
  {
    forall i | 0 <= i < n
      ensures GatheredSoFar(pl, stores, r, p)(i + 1) == GatheredSoFar(pl, stores, r, p)(i) +
        Selected(pl, stores, r, p)(i)
    {
      GatheredGrows(pl, stores, r, i, p);
    }
    SumBelowTelescopes(n, Selected(pl, stores, r, p), GatheredSoFar(pl, stores, r, p));
  }

  /** How often a particle owned by rank r occurs in the first stores. */
  ghost function OwnedSoFar(pl: Placement, stores: seq<Store>, r: nat, p: Body): nat -> int {
    (n: nat) => if n <= |stores| && pl.rank(p) == r then AllWrapped(pl, stores, n)[p] else 0
  }

  lemma OwnedGrows(pl: Placement, stores: seq<Store>, r: nat, i: nat, p: Body)
    requires pl.Valid() && i < |stores|
    ensures OwnedSoFar(pl, stores, r, p)(i + 1) == OwnedSoFar(pl, stores, r, p)(i) + Selected(pl, stores, r, p)(i)
  {
    MineCounts(pl, stores[i].owned, r, p);
    WrappedGrows(pl, stores, r, i, p);
  }

  lemma WrappedGrows(pl: Placement, stores: seq<Store>, r: nat, i: nat, p: Body)
    requires i < |stores|
    requires multiset(Mine(pl, stores[i].owned, r))[p]
      == if pl.rank(p) == r then multiset(WrappedAll(pl, stores[i].owned))[p] else 0
    ensures OwnedSoFar(pl, stores, r, p)(i + 1) == OwnedSoFar(pl, stores, r, p)(i) + Selected(pl, stores, r, p)(i)
  {
    AllWrappedStep(pl, stores, i + 1, p);
  }

  lemma TallyIsOwned(pl: Placement, stores: seq<Store>, r: nat, n: nat, p: Body)
    requires pl.Valid() && n <= |stores|
    ensures Tally(pl, stores, r, n, p) == if pl.rank(p) == r then AllWrapped(pl, stores, n)[p] else 0
  {
    forall i | 0 <= i < n
      ensures OwnedSoFar(pl, stores, r, p)(i + 1) == OwnedSoFar(pl, stores, r, p)(i) + Selected(pl, stores, r, p)(i)
    {
      OwnedGrows(pl, stores, r, i, p);
    }
    SumBelowTelescopes(n, Selected(pl, stores, r, p), OwnedSoFar(pl, stores, r, p));
  }

  lemma GatheredCounts(pl: Placement, stores: seq<Store>, r: nat, n: nat, p: Body)
    requires pl.Valid()
    requires n <= |stores|
    ensures multiset(Gathered(pl, stores, r, n))[p] == if pl.rank(p) == r then AllWrapped(pl, stores, n)[p] else 0
  {
    TallyIsGathered(pl, stores, r, n, p);
    TallyIsOwned(pl, stores, r, n, p);
  }

  lemma AllWrappedStep(pl: Placement, stores: seq<Store>, n: nat, p: Body)
    requires 0 < n <= |stores|
    ensures AllWrapped(pl, stores, n)[p]
      == AllWrapped(pl, stores, n - 1)[p] + multiset(WrappedAll(pl, stores[n - 1].owned))[p]
  {
  }

  lemma GatheredStep(pl: Placement, stores: seq<Store>, r: nat, n: nat, p: Body)
    requires 0 < n <= |stores|
    ensures multiset(Gathered(pl, stores, r, n))[p]
      == multiset(Gathered(pl, stores, r, n - 1))[p] + multiset(Mine(pl, stores[n - 1].owned, r))[p]
  {
    CountOfBoth(Gathered(pl, stores, r, n - 1), Mine(pl, stores[n - 1].owned, r), p);
  }

  /** How often rank r keeps a particle while n stores are gathered: in sparse mode its own selection, once passed. */
  ghost function Kept(pl: Placement, stores: seq<Store>, r: nat, n: nat, all: bool, p: Body): nat
    requires r < |stores|
  {
    if !all && r < n then multiset(Mine(pl, stores[r].owned, r))[p] else 0
  }

  lemma GatheredIsShare(pl: Placement, stores: seq<Store>, r: nat)
    requires pl.Valid()
    ensures IsShare(pl, stores, r, multiset(Gathered(pl, stores, r, |stores|)))
  {
    forall p: Body
      ensures multiset(Gathered(pl, stores, r, |stores|))[p]
        == if pl.rank(p) == r then AllWrapped(pl, stores, |stores|)[p] else 0
    {
      GatheredCounts(pl, stores, r, |stores|, p);
    }
  }

  /** Where a gathered particle comes from. */
  lemma {:induction false} GatheredOrigin(pl: Placement, stores: seq<Store>, r: nat, n: nat, p: Body)
    returns (s: nat, i: nat)
    requires n <= |stores| && p in Gathered(pl, stores, r, n)
    ensures s < n && i < |stores[s].owned| && pl.rank(stores[s].owned[i]) == r && p == pl.canonical(stores[s].owned[i])
  {
    if p in Mine(pl, stores[n - 1].owned, r) {
      s := n - 1;
      var k: nat :| k < |Mine(pl, stores[s].owned, r)| && Mine(pl, stores[s].owned, r)[k] == p;
      i := MineOrigin(pl, stores[s].owned, r, k);
    } else {
      s, i := GatheredOrigin(pl, stores, r, n - 1, p);
    }
  }

  lemma {:induction false} MineDistinct(pl: Placement, owned: seq<Body>, r: nat)
    requires pl.Valid()
    requires DistinctIds(owned)
    ensures DistinctIds(Mine(pl, owned, r))
  {
    if owned != [] {
      var n := |owned| - 1;
      MineDistinct(pl, owned[..n], r);
      forall k | 0 <= k < |Mine(pl, owned[..n], r)|
        ensures Mine(pl, owned[..n], r)[k].id != owned[n].id
      {
        var i := MineOrigin(pl, owned[..n], r, k);
      }
    }
  }

  lemma {:induction false} GatheredDistinct(pl: Placement, stores: seq<Store>, r: nat, n: nat)
    requires pl.Valid()
    requires n <= |stores| && GloballyDistinct(stores)
    ensures DistinctIds(Gathered(pl, stores, r, n))
  {
    if n > 0 {
      GatheredDistinct(pl, stores, r, n - 1);
      var before, mine := Gathered(pl, stores, r, n - 1), Mine(pl, stores[n - 1].owned, r);
      OwnedDistinct(stores, n - 1);
      MineDistinct(pl, stores[n - 1].owned, r);
      forall j, k | 0 <= j < |before| && 0 <= k < |mine|
        ensures before[j].id != mine[k].id
      {
        assert before[j] in before;
        var s, i := GatheredOrigin(pl, stores, r, n - 1, before[j]);
        var i' := MineOrigin(pl, stores[n - 1].owned, r, k);
        NotTwins(stores, s, i, n - 1, i');
      }
      JoinDistinct(before, mine);
    }
  }

  lemma OwnedDistinct(stores: seq<Store>, s: nat)
    requires GloballyDistinct(stores) && s < |stores|
    ensures DistinctIds(stores[s].owned)
  {
    forall i, j | 0 <= i < j < |stores[s].owned|
      ensures stores[s].owned[i].id != stores[s].owned[j].id
    {
      NotTwins(stores, s, i, s, j);
    }
  }

  lemma JoinDistinct(a: seq<Body>, b: seq<Body>)
    requires DistinctIds(a) && DistinctIds(b)
    requires forall j, k :: 0 <= j < |a| && 0 <= k < |b| ==> a[j].id != b[k].id
    ensures DistinctIds(a + b)
  {
  }

  lemma SplitDistinct(a: seq<Body>, b: seq<Body>)
    requires DistinctIds(a + b)
    ensures DistinctIds(a) && DistinctIds(b) && Apart(a, b)
  {
    var all := a + b;
    forall i, j | 0 <= i < j < |b|
      ensures b[i].id != b[j].id
    {
      assert all[|a| + i].id != all[|a| + j].id;
    }
    forall i, j | 0 <= i < j < |a|
      ensures a[i].id != a[j].id
    {
      assert all[i].id != all[j].id;
    }
    forall p, q | p in a && q in b
      ensures p.id != q.id
    {
      var i :| 0 <= i < |a| && a[i] == p;
      var j :| 0 <= j < |b| && b[j] == q;
      assert all[i].id != all[|a| + j].id;
    }
  }

  // ---- population ----

  ghost function MineSizes(pl: Placement, owned: seq<Body>): nat -> int
  {
    (r: nat) => |Mine(pl, owned, r)|
  }

  ghost function GatheredSizes(pl: Placement, stores: seq<Store>, n: nat): nat -> int
    requires n <= |stores|
  {
    (r: nat) => |Gathered(pl, stores, r, n)|
  }

  ghost function Single(k: nat): nat -> int {
    (r: nat) => if r == k then 1 else 0
  }

  lemma {:induction false} MineSizesSum(pl: Placement, owned: seq<Body>)
    requires pl.Valid()
    ensures SumBelow(pl.size, MineSizes(pl, owned)) == |owned|
  {
    if owned == [] {
      SumBelowZero(pl.size, MineSizes(pl, owned));
    } else {
      var n := |owned| - 1;
      var k := pl.rank(owned[n]);
      MineSizesSum(pl, owned[..n]);
      SumBelowSingle(pl.size, Single(k), k);
      SumBelowAdd(pl.size, MineSizes(pl, owned[..n]), Single(k), MineSizes(pl, owned));
    }
  }

  ghost function Population(stores: seq<Store>, n: nat): nat
    requires n <= |stores|
  {
    if n == 0 then 0 else Population(stores, n - 1) + |stores[n - 1].owned|
  }

  /** Every particle is selected by exactly one rank, so the shares have the size of the whole. */
  lemma {:induction false} GatheredPopulation(pl: Placement, stores: seq<Store>, n: nat)
    requires pl.Valid()
    requires n <= |stores|
    ensures SumBelow(pl.size, GatheredSizes(pl, stores, n)) == Population(stores, n)
  {
    if n == 0 {
      SumBelowZero(pl.size, GatheredSizes(pl, stores, 0));
    } else {
      GatheredPopulation(pl, stores, n - 1);
      MineSizesSum(pl, stores[n - 1].owned);
      SumBelowAdd(pl.size, GatheredSizes(pl, stores, n - 1), MineSizes(pl, stores[n - 1].owned),
        GatheredSizes(pl, stores, n));
    }
  }

  // ---- routing ----

  /** What a store sends to a destination: all of the destination's particles, or in sparse mode none to itself. */
  ghost function Outbound(pl: Placement, owned: seq<Body>, rank: nat, d: nat, all: bool): seq<Body>
  {
    if d == rank && !all then [] else Mine(pl, owned, d)
  }

  /** The outgoing records in store order. */
  ghost function Routes(pl: Placement, owned: seq<Body>, rank: nat, all: bool): (routed: seq<Routed<Phase>>)
    ensures |routed| <= |owned|
  {
    if owned == [] then []
    else
      var n := |owned| - 1;
      var d := pl.rank(owned[n]);
      Routes(pl, owned[..n], rank, all) + if all || d != rank then [Routed(d, pl.canonical(owned[n]))] else []
  }

  lemma RoutesSnoc(pl: Placement, owned: seq<Body>, i: nat, rank: nat, all: bool)
    requires i < |owned|
    ensures var d := pl.rank(owned[i]);
      Routes(pl, owned[..i + 1], rank, all)
      == Routes(pl, owned[..i], rank, all) + if all || d != rank then [Routed(d, pl.canonical(owned[i]))] else []
  {
    assert owned[..i + 1][..i] == owned[..i];
  }

  /** Each destination is routed exactly its selection. */
  lemma {:induction false} RoutesTo(pl: Placement, owned: seq<Body>, rank: nat, all: bool, d: nat)
    ensures To(Routes(pl, owned, rank, all), d) == Outbound(pl, owned, rank, d, all)
  {
    if owned != [] {
      var n := |owned| - 1;
      RoutesTo(pl, owned[..n], rank, all, d);
      var before := Routes(pl, owned[..n], rank, all);
      assert before + [] == before && Mine(pl, owned[..n], d) + [] == Mine(pl, owned[..n], d);
      ToSnoc(Routes(pl, owned[..n], rank, all), Routed(pl.rank(owned[n]), pl.canonical(owned[n])), d);
    }
  }

  lemma {:induction false} RoutesInside(pl: Placement, owned: seq<Body>, rank: nat, all: bool)
    requires pl.Valid()
    ensures DestinationsInside(Routes(pl, owned, rank, all), pl.size)
  {
    if owned != [] {
      RoutesInside(pl, owned[..|owned| - 1], rank, all);
    }
  }

  lemma {:induction false} RouteOrigin(pl: Placement, owned: seq<Body>, rank: nat, all: bool, k: nat) returns (i: nat)
    requires k < |Routes(pl, owned, rank, all)|
    ensures i < |owned| && Routes(pl, owned, rank, all)[k].particle == pl.canonical(owned[i])
  {
    var n := |owned| - 1;
    if k < |Routes(pl, owned[..n], rank, all)| {
      i := RouteOrigin(pl, owned[..n], rank, all, k);
    } else {
      i := n;
    }
  }

  lemma {:induction false} RoutesDistinct(pl: Placement, owned: seq<Body>, rank: nat, all: bool)
    requires pl.Valid()
    requires DistinctIds(owned)
    ensures DistinctRoutes(Routes(pl, owned, rank, all))
  {
    if owned != [] {
      var n := |owned| - 1;
      var before := Routes(pl, owned[..n], rank, all);
      RoutesDistinct(pl, owned[..n], rank, all);
      forall k | 0 <= k < |before|
        ensures before[k].particle.id != owned[n].id
      {
        var i := RouteOrigin(pl, owned[..n], rank, all, k);
      }
    }
  }

  /** Materialize the outgoing records; in sparse mode the ones staying here are skipped. */
  method BuildRoutes(t: Topology, ghost pl: Placement, owned: seq<Body>, rank: nat, all: bool)
    returns (routed: seq<Routed<Phase>>)
    requires Realizes(t, pl)
    ensures routed == Routes(pl, owned, rank, all)
  {
    routed := [];
    for i := 0 to |owned|
      invariant routed == Routes(pl, owned[..i], rank, all)
    {
      var particle, destination := Place(t, pl, owned[i]);
      RoutesSnoc(pl, owned, i, rank, all);
      if all || destination != rank {
        routed := routed + [Routed(destination, particle)];
      }
    }
    assert owned[..|owned|] == owned;
  }

  lemma {:induction false} ToCounts(routed: seq<Routed<Phase>>, d: int, p: Body)
    ensures multiset(To(routed, d))[p] == multiset(routed)[Routed(d, p)]
  {
    if routed != [] {
      var n := |routed| - 1;
      ToCounts(routed[..n], d, p);
      CountLast(routed, Routed(d, p));
    }
  }

  lemma ToPermuted(a: seq<Routed<Phase>>, b: seq<Routed<Phase>>, d: int)
    requires multiset(a) == multiset(b)
    ensures multiset(To(a, d)) == multiset(To(b, d))
  {
    forall p: Body
      ensures multiset(To(a, d))[p] == multiset(To(b, d))[p]
    {
      ToCounts(a, d, p);
      ToCounts(b, d, p);
    }
  }

  /** One rank's outgoing records in routing order, whatever they were before sorting. */
  ghost predicate RoutedFor(pl: Placement, owned: seq<Body>, rank: nat, all: bool, routed: seq<Routed<Phase>>)
  {
    && DestinationsInside(routed, pl.size) && RoutingOrder(routed) && |routed| <= |owned|
    && forall d: nat :: multiset(To(routed, d)) == multiset(Outbound(pl, owned, rank, d, all))
  }

  method RouteStore(t: Topology, ghost pl: Placement, owned: seq<Body>, rank: nat, all: bool)
    returns (ok: bool, routed: seq<Routed<Phase>>)
    requires Realizes(t, pl) && DistinctIds(owned)
    ensures ok && RoutedFor(pl, owned, rank, all, routed)
  {
    var built := BuildRoutes(t, pl, owned, rank, all);
    var records := new Routed<Phase>[|built|](i requires 0 <= i < |built| => built[i]);
    assert records[..] == built;
    RoutesInside(pl, owned, rank, all);
    RoutesDistinct(pl, owned, rank, all);
    var error := SortRouteRecords(records);
    routed := records[..];
    SortedRoutes(pl, owned, rank, all, routed);
    ok := error == NoError;
  }

  lemma SortedRoutes(pl: Placement, owned: seq<Body>, rank: nat, all: bool, routed: seq<Routed<Phase>>)
    requires pl.Valid()
    requires DistinctIds(owned) && multiset(routed) == multiset(Routes(pl, owned, rank, all)) && RoutingOrder(routed)
    ensures RoutedFor(pl, owned, rank, all, routed)
  {
    var built := Routes(pl, owned, rank, all);
    RoutesInside(pl, owned, rank, all);
    SameLength(built, routed);
    forall r | r in routed
      ensures 0 <= r.destination < pl.size
    {
      assert r in multiset(built);
    }
    forall d: nat
      ensures multiset(To(routed, d)) == multiset(Outbound(pl, owned, rank, d, all))
    {
      ToPermuted(built, routed, d);
      RoutesTo(pl, owned, rank, all, d);
    }
  }

  ghost predicate AllRouted(pl: Placement, stores: seq<Store>, all: bool, routed: seq<seq<Routed<Phase>>>)
  {
    |routed| == |stores| && forall s :: 0 <= s < |stores| ==> RoutedFor(pl, stores[s].owned, s, all, routed[s])
  }

  method RouteAll(t: Topology, ghost pl: Placement, stores: seq<Store>, all: bool)
    returns (ok: bool, routed: seq<seq<Routed<Phase>>>)
    requires Realizes(t, pl) && forall s :: 0 <= s < |stores| ==> DistinctIds(stores[s].owned)
    ensures ok && AllRouted(pl, stores, all, routed)
  {
    routed := [];
    ok := true;
    for s := 0 to |stores|
      invariant ok && |routed| == s
      invariant forall q :: 0 <= q < s ==> RoutedFor(pl, stores[q].owned, q, all, routed[q])
    {
      var fine, records := RouteStore(t, pl, stores[s].owned, s, all);
      ok := ok && fine;
      routed := routed + [records];
    }
  }

  // ---- transport ----

  /** Store s sends rank r exactly its selection for it. */
  ghost predicate Sends(pl: Placement, stores: seq<Store>, routed: seq<seq<Routed<Phase>>>, all: bool, s: nat, r: nat)
    requires s < |stores| && s < |routed|
  {
    multiset(To(routed[s], r)) == multiset(Outbound(pl, stores[s].owned, s, r, all))
  }

  ghost predicate AllSend(pl: Placement, stores: seq<Store>, routed: seq<seq<Routed<Phase>>>, all: bool, r: nat)
  {
    && |routed| == |stores|
    && forall s {:trigger Sends(pl, stores, routed, all, s, r)} :: 0 <= s < |stores| ==>
      Sends(pl, stores, routed, all, s, r)
  }

  lemma RoutedSend(pl: Placement, stores: seq<Store>, routed: seq<seq<Routed<Phase>>>, all: bool, r: nat)
    requires AllRouted(pl, stores, all, routed)
    ensures AllSend(pl, stores, routed, all, r)
  {
    forall s | 0 <= s < |stores|
      ensures Sends(pl, stores, routed, all, s, r)
    {
      assert RoutedFor(pl, stores[s].owned, s, all, routed[s]);
    }
  }

  /** What a rank has received after n sources, and one more source. */
  ghost function Inbox(limit: nat, routed: seq<seq<Routed<Phase>>>, n: nat, r: nat): seq<Body>
    requires n <= |routed|
  {
    BoundedMigration.World(limit, routed).Incoming(n, r)
  }

  lemma InboxStep(limit: nat, routed: seq<seq<Routed<Phase>>>, n: nat, r: nat, p: Body)
    requires 0 < n <= |routed|
    ensures multiset(Inbox(limit, routed, n, r))[p]
      == multiset(Inbox(limit, routed, n - 1, r))[p] + multiset(To(routed[n - 1], r))[p]
  {
    CountOfBoth(Inbox(limit, routed, n - 1, r), To(routed[n - 1], r), p);
  }

  /** What rank s sends, by destination, as often as each particle occurs. */
  ghost function Inboxed(routed: seq<seq<Routed<Phase>>>, r: nat, p: Body): nat -> int {
    (s: nat) => if s < |routed| then multiset(To(routed[s], r))[p] else 0
  }

  /** What stays on rank r in sparse mode. */
  ghost function Staying(pl: Placement, stores: seq<Store>, r: nat, all: bool, p: Body): nat -> int {
    (s: nat) => if !all && s == r && s < |stores| then multiset(Mine(pl, stores[s].owned, r))[p] else 0
  }

  /** Each store either keeps its selection or sends it. */
  lemma KeptOrSent(pl: Placement, stores: seq<Store>, routed: seq<seq<Routed<Phase>>>, r: nat, s: nat, all: bool,
                   p: Body)
    requires AllSend(pl, stores, routed, all, r) && s < |stores|
    ensures Selected(pl, stores, r, p)(s) == Staying(pl, stores, r, all, p)(s) + Inboxed(routed, r, p)(s)
  {
    assert Sends(pl, stores, routed, all, s, r);
  }

  lemma KeptIsStaying(pl: Placement, stores: seq<Store>, r: nat, n: nat, all: bool, p: Body)
    requires n <= |stores| && r < |stores|
    ensures Kept(pl, stores, r, n, all, p) == SumBelow(n, Staying(pl, stores, r, all, p))
  {
    if r < n {
      SumBelowSingle(n, Staying(pl, stores, r, all, p), r);
    } else {
      SumBelowZero(n, Staying(pl, stores, r, all, p));
    }
  }

  /** How often the first n ranks send a particle to rank r. */
  ghost function InboxTally(routed: seq<seq<Routed<Phase>>>, r: nat, n: nat, p: Body): int {
    SumBelow(n, Inboxed(routed, r, p))
  }

  ghost function InboxSoFar(limit: nat, routed: seq<seq<Routed<Phase>>>, r: nat, p: Body): nat -> int {
    (n: nat) => if n <= |routed| then multiset(Inbox(limit, routed, n, r))[p] else 0
  }

  lemma InboxGrows(limit: nat, routed: seq<seq<Routed<Phase>>>, r: nat, i: nat, p: Body)
    requires i < |routed|
    ensures InboxSoFar(limit, routed, r, p)(i + 1) == InboxSoFar(limit, routed, r, p)(i) + Inboxed(routed, r, p)(i)
  {
    InboxStep(limit, routed, i + 1, r, p);
  }

  lemma InboxTallyIsCount(limit: nat, routed: seq<seq<Routed<Phase>>>, r: nat, n: nat, p: Body)
    requires n <= |routed|
    ensures InboxTally(routed, r, n, p) == multiset(Inbox(limit, routed, n, r))[p]
  {
    forall i | 0 <= i < n
      ensures InboxSoFar(limit, routed, r, p)(i + 1) == InboxSoFar(limit, routed, r, p)(i) + Inboxed(routed, r, p)(i)
    {
      InboxGrows(limit, routed, r, i, p);
    }
    SumBelowTelescopes(n, Inboxed(routed, r, p), InboxSoFar(limit, routed, r, p));
  }

  lemma IncomingIsTally(pl: Placement, stores: seq<Store>, routed: seq<seq<Routed<Phase>>>, r: nat, n: nat, all: bool,
                        p: Body)
    requires AllSend(pl, stores, routed, all, r) && n <= |stores| && r < |stores|
    ensures Kept(pl, stores, r, n, all, p) + InboxTally(routed, r, n, p) == Tally(pl, stores, r, n, p)
  {
    KeptIsStaying(pl, stores, r, n, all, p);
    forall s | 0 <= s < n
      ensures Selected(pl, stores, r, p)(s) == Staying(pl, stores, r, all, p)(s) + Inboxed(routed, r, p)(s)
    {
      KeptOrSent(pl, stores, routed, r, s, all, p);
    }
    SumBelowAdd(n, Staying(pl, stores, r, all, p), Inboxed(routed, r, p), Selected(pl, stores, r, p));
  }

  /** What a rank keeps and what it receives are together every store's selection for it, in both modes. */
  lemma IncomingIsGathered(pl: Placement, stores: seq<Store>, limit: nat, routed: seq<seq<Routed<Phase>>>, r: nat,
                           n: nat, all: bool, p: Body)
    requires AllSend(pl, stores, routed, all, r) && n <= |stores| && r < |stores|
    ensures Kept(pl, stores, r, n, all, p) + multiset(Inbox(limit, routed, n, r))[p] ==
      multiset(Gathered(pl, stores, r, n))[p]
  {
    IncomingIsTally(pl, stores, routed, r, n, all, p);
    InboxTallyIsCount(limit, routed, r, n, p);
    TallyIsGathered(pl, stores, r, n, p);
  }

  /** Route-all: the received records are the rank's share. */
  lemma RouteAllShare(pl: Placement, stores: seq<Store>, limit: nat, routed: seq<seq<Routed<Phase>>>, r: nat)
    requires pl.Valid()
    requires AllRouted(pl, stores, true, routed) && r < |stores|
    ensures multiset(Inbox(limit, routed, |routed|, r)) == multiset(Gathered(pl, stores, r, |stores|))
  {
    RoutedSend(pl, stores, routed, true, r);
    forall p: Body
      ensures multiset(Inbox(limit, routed, |routed|, r))[p] == multiset(Gathered(pl, stores, r, |stores|))[p]
    {
      IncomingIsGathered(pl, stores, limit, routed, r, |stores|, true, p);
    }
  }

  /** Sparse: the retained and the received records together are the rank's share. */
  lemma SparseShare(pl: Placement, stores: seq<Store>, limit: nat, routed: seq<seq<Routed<Phase>>>, r: nat)
    requires pl.Valid()
    requires AllRouted(pl, stores, false, routed) && r < |stores|
    ensures multiset(Mine(pl, stores[r].owned, r) + Inbox(limit, routed, |routed|, r)) ==
      multiset(Gathered(pl, stores, r, |stores|))
  {
    RoutedSend(pl, stores, routed, false, r);
    var mine, inbox, gathered :=
      Mine(pl, stores[r].owned, r), Inbox(limit, routed, |routed|, r), Gathered(pl, stores, r, |stores|);
    forall p: Body
      ensures multiset(mine)[p] + multiset(inbox)[p] == multiset(gathered)[p]
    {
      IncomingIsGathered(pl, stores, limit, routed, r, |stores|, false, p);
    }
    SameCounts(mine, inbox, gathered);
  }

  lemma SameCounts(a: seq<Body>, b: seq<Body>, c: seq<Body>)
    requires forall p :: multiset(a)[p] + multiset(b)[p] == multiset(c)[p]
    ensures multiset(a + b) == multiset(c)
  {
    forall p
      ensures multiset(a + b)[p] == multiset(c)[p]
    {
      CountOfBoth(a, b, p);
    }
  }

  // ---- input validation and the agreed mass ----

  ghost predicate ValidStore(store: Store) {
    && (store.uniform.Some? ==> store.uniform.value.IsPositive())
    && (forall p :: p in store.owned ==> FinitePosition(p) && FiniteMomentum(p))
    && (store.uniform.None? ==> forall p :: p in store.owned ==> p.state.mass.IsPositive())
    && DistinctIds(store.owned)
  }

  method HasDistinctIds(owned: seq<Body>) returns (distinct: bool)
    ensures distinct <==> DistinctIds(owned)
  {
    var sorted := Sort(IdKey, owned);
    var i := 1;
    while i < |sorted|
      invariant 1 <= i
      invariant forall k :: 1 <= k < i && k < |sorted| ==> sorted[k - 1].id != sorted[k].id
    {
      if sorted[i - 1].id == sorted[i].id {
        if DistinctIds(owned) {
          DistinctPermuted(owned, sorted);
        }
        return false;
      }
      i := i + 1;
    }
    forall j, k | 0 <= j < k < |sorted|
      ensures sorted[j].id != sorted[k].id
    {
      assert IdKey(sorted[j]) <= IdKey(sorted[k - 1]) || j == k - 1;
      assert IdKey(sorted[k - 1]) <= IdKey(sorted[k]) && sorted[k - 1].id != sorted[k].id;
    }
    DistinctPermuted(sorted, owned);
    distinct := true;
  }

  /** Whether one particle passes the checks of its store. */
  ghost predicate PassesInput(uniform: Option<Double>, p: Body) {
    FinitePosition(p) && FiniteMomentum(p) && (uniform.Some? || p.state.mass.IsPositive())
  }

  method ValidateInput(store: Store) returns (ok: bool)
    ensures ok <==> ValidStore(store)
  {
    if store.uniform.Some? && !store.uniform.value.IsPositive() {
      return false;
    }
    for i := 0 to |store.owned|
      invariant forall k :: 0 <= k < i ==> PassesInput(store.uniform, store.owned[k])
    {
      var state := store.owned[i].state;
      assert store.owned[i] in store.owned;
      if !state.x.IsFinite() || !state.y.IsFinite() || !state.z.IsFinite() {
        return false;
      }
      if !state.px.IsFinite() || !state.py.IsFinite() || !state.pz.IsFinite() {
        return false;
      }
      if store.uniform.None? && !state.mass.IsPositive() {
        return false;
      }
    }
    ok := HasDistinctIds(store.owned);
  }

  method ValidateAll(stores: seq<Store>) returns (ok: bool)
    ensures ok <==> AllValid(stores)
  {
    ok := true;
    for s := 0 to |stores|
      invariant ok <==> forall q :: 0 <= q < s ==> ValidStore(stores[q])
    {
      var valid := ValidateInput(stores[s]);
      ok := ok && valid;
    }
  }

  datatype Agreement = Agreed(mass: Option<Double>) | Disagreement

  ghost predicate SomeExplicit(stores: seq<Store>) {
    exists s :: 0 <= s < |stores| && stores[s].owned != [] && stores[s].uniform.None?
  }

  /** Every nonempty store has this uniform mass, and there is one. */
  ghost predicate AllUniform(stores: seq<Store>, mass: Double) {
    && (exists s :: 0 <= s < |stores| && stores[s].owned != [])
    && forall s :: 0 <= s < |stores| && stores[s].owned != [] ==> stores[s].uniform == Some(mass)
  }

  /** Which mass representation survives: explicit if any nonempty store is explicit, else the one uniform mass. */
  method AgreeOnMass(stores: seq<Store>) returns (agreement: Agreement)
    ensures agreement == Agreed(None) <==>
      SomeExplicit(stores) || forall s :: 0 <= s < |stores| ==> stores[s].owned == []
    ensures forall m :: agreement == Agreed(Some(m)) <==> AllUniform(stores, m)
  {
    var anyExplicit := false;
    var source: nat := |stores|;
    for s := 0 to |stores|
      invariant anyExplicit <==> exists q :: 0 <= q < s && stores[q].owned != [] && stores[q].uniform.None?
      invariant source <= |stores| && (source < |stores| ==> stores[source].owned != [] && stores[source].uniform.Some?)
      invariant source == |stores| ==> forall q :: 0 <= q < s ==> stores[q].owned == [] || stores[q].uniform.None?
    {
      if stores[s].owned != [] && stores[s].uniform.None? {
        anyExplicit := true;
      }
      if stores[s].owned != [] && stores[s].uniform.Some? && source == |stores| {
        source := s;
      }
    }
    if anyExplicit || source == |stores| {
      return Agreed(None);
    }
    var mass := stores[source].uniform.value;
    for s := 0 to |stores|
      invariant forall q :: 0 <= q < s && stores[q].owned != [] ==> stores[q].uniform == Some(mass)
    {
      if stores[s].owned != [] && stores[s].uniform != Some(mass) {
        return Disagreement;
      }
    }
    agreement := Agreed(Some(mass));
  }

  /** What the agreement guarantees about the represented masses. */
  ghost predicate Represents(store: Store, mass: Double) {
    forall p :: p in store.owned ==> p.state.mass == mass
  }

  ghost predicate MassesAgree(stores: seq<Store>, mass: Option<Double>) {
    mass.Some? ==>
      forall s {:trigger Represents(stores[s], mass.value)} :: 0 <= s < |stores| ==> Represents(stores[s], mass.value)
  }

  // ---- received records ----

  ghost predicate Acceptable(t: Topology, pl: Placement, p: Body, rank: nat, mass: Option<Double>) {
    && CanonicalPosition(p, t.box) && Sound(p)
    && pl.rank(p) == rank && (mass.Some? ==> p.state.mass == mass.value)
  }

  ghost predicate AllAcceptable(t: Topology, pl: Placement, incoming: seq<Body>, rank: nat, mass: Option<Double>) {
    forall p :: p in incoming ==> Acceptable(t, pl, p, rank, mass)
  }

  /** Owner check of a canonical record. */
  method OwnerOfRecord(t: Topology, ghost pl: Placement, p: Body) returns (rank: nat)
    requires Realizes(t, pl)
    ensures rank == pl.rank(p)
  {
    assert Agrees(t, pl, p);
    rank := OwnerRank(t, p.state.x);
  }

  method AcceptRecord(t: Topology, ghost pl: Placement, p: Body, rank: nat, mass: Option<Double>) returns (ok: bool)
    requires Realizes(t, pl)
    ensures ok <==> Acceptable(t, pl, p, rank, mass)
  {
    var state := p.state;
    if !state.x.IsFinite() || !state.y.IsFinite() || !state.z.IsFinite() {
      return false;
    }
    if !IsCanonical(state.x, t.box) || !IsCanonical(state.y, t.box) || !IsCanonical(state.z, t.box) {
      return false;
    }
    if !state.mass.IsPositive() || !state.px.IsFinite() || !state.py.IsFinite() || !state.pz.IsFinite() {
      return false;
    }
    var owner := OwnerOfRecord(t, pl, p);
    ok := owner == rank && (mass.None? || p.state.mass == mass.value);
  }

  /** Sort the received records and check each of them and the strict identifier order. */
  method AcceptReceived(t: Topology, ghost pl: Placement, received: seq<Body>, rank: nat, mass: Option<Double>)
    returns (ok: bool, sorted: seq<Body>)
    requires Realizes(t, pl)
    ensures multiset(sorted) == multiset(received)
    ensures ok <==> AllAcceptable(t, pl, received, rank, mass) && DistinctIds(received)
    ensures ok ==> StrictIds(sorted)
  {
    sorted := Sort(IdKey, received);
    var distinct := HasDistinctIds(received);
    ok := distinct;
    for i := 0 to |sorted|
      invariant ok <==> distinct && AllAcceptable(t, pl, sorted[..i], rank, mass)
    {
      var fine := AcceptRecord(t, pl, sorted[i], rank, mass);
      assert sorted[..i + 1] == sorted[..i] + [sorted[i]];
      ok := ok && fine;
    }
    assert sorted[..|sorted|] == sorted;
    assert forall p :: p in sorted <==> p in multiset(received);
    if distinct {
      DistinctPermuted(received, sorted);
      SortedDistinctIsStrict(sorted);
    }
  }

  lemma CanonicalInBox(t: Topology, pl: Placement, p: Body)
    requires Realizes(t, pl) && Sound(p)
    ensures CanonicalPosition(pl.canonical(p), t.box) && Sound(pl.canonical(p))
  {
    assert Agrees(t, pl, p);
    CanonicalIsWrapped(p.state.x, t.box);
    CanonicalIsWrapped(p.state.y, t.box);
    CanonicalIsWrapped(p.state.z, t.box);
  }

  ghost predicate SoundStore(store: Store) {
    forall p :: p in store.owned ==> Sound(p)
  }

  ghost predicate AllSound(stores: seq<Store>) {
    forall s {:trigger SoundStore(stores[s])} :: 0 <= s < |stores| ==> SoundStore(stores[s])
  }

  lemma StoresSound(stores: seq<Store>)
    requires AllValid(stores) && AllConsistent(stores)
    ensures AllSound(stores)
  {
    forall s | 0 <= s < |stores|
      ensures SoundStore(stores[s])
    {
      assert ValidStore(stores[s]) && stores[s].Consistent();
    }
  }

  /** Whatever reaches its owner passes the receive validation. */
  lemma GatheredAcceptable(t: Topology, pl: Placement, stores: seq<Store>, r: nat, mass: Option<Double>)
    requires Realizes(t, pl) && AllSound(stores) && MassesAgree(stores, mass)
    ensures AllAcceptable(t, pl, Gathered(pl, stores, r, |stores|), r, mass)
  {
    forall p | p in Gathered(pl, stores, r, |stores|)
      ensures Acceptable(t, pl, p, r, mass)
    {
      var s, i := GatheredOrigin(pl, stores, r, |stores|, p);
      assert stores[s].owned[i] in stores[s].owned && SoundStore(stores[s]);
      assert mass.Some? ==> Represents(stores[s], mass.value);
      CanonicalInBox(t, pl, stores[s].owned[i]);
      assert pl.rank(pl.canonical(stores[s].owned[i])) == r;
    }
  }

  lemma PartAcceptable(t: Topology, pl: Placement, part: seq<Body>, whole: seq<Body>, r: nat, mass: Option<Double>)
    requires AllAcceptable(t, pl, whole, r, mass) && forall p :: p in part ==> p in multiset(whole)
    ensures AllAcceptable(t, pl, part, r, mass)
  {
  }

  // ---- the three paths ----

  datatype Outcome =
    | Published
    | InvalidInput
    | MassDisagreement
    | RoutingFailed
    | ReceiveRejected
    | PopulationChanged
    | MergeFailed
    | DuplicateIds
    | IdSetChanged

  /** A store keeps its particles: sorted, of the agreed representation, and all owned here. */
  ghost predicate Retainable(pl: Placement, store: Store, r: nat, mass: Option<Double>) {
    && StrictIds(store.owned)
    && (store.owned != [] ==> store.uniform == mass)
    && forall i :: 0 <= i < |store.owned| ==> pl.rank(store.owned[i]) == r
  }

  method IsStrict(owned: seq<Body>) returns (strict: bool)
    ensures strict <==> StrictIds(owned)
  {
    var i := 1;
    while i < |owned|
      invariant 1 <= i && (|owned| > 0 ==> i <= |owned|)
      invariant |owned| > 0 ==> StrictIds(owned[..i])
    {
      if owned[i - 1].id >= owned[i].id {
        return false;
      }
      i := i + 1;
    }
    assert |owned| > 0 ==> owned[..i] == owned;
    strict := true;
  }

  method CanRetain(t: Topology, ghost pl: Placement, store: Store, r: nat, mass: Option<Double>) returns (can: bool)
    requires Realizes(t, pl)
    ensures can <==> Retainable(pl, store, r, mass)
  {
    can := IsStrict(store.owned);
    if store.owned != [] && store.uniform != mass {
      can := false;
    }
    var i := 0;
    while i < |store.owned| && can
      invariant i <= |store.owned|
      invariant can ==> StrictIds(store.owned) && (store.owned != [] ==> store.uniform == mass)
      invariant can ==> forall k :: 0 <= k < i ==> pl.rank(store.owned[k]) == r
      invariant !can ==> !Retainable(pl, store, r, mass)
    {
      var owner := OwnerOfRecord(t, pl, store.owned[i]);
      if owner != r {
        can := false;
      }
      i := i + 1;
    }
  }

  ghost predicate OwnedHere(pl: Placement, owned: seq<Body>, r: nat) {
    forall i :: 0 <= i < |owned| ==> pl.rank(owned[i]) == r
  }

  ghost predicate AllOwnedHere(pl: Placement, stores: seq<Store>) {
    forall s {:trigger OwnedHere(pl, stores[s].owned, s)} :: 0 <= s < |stores| ==> OwnedHere(pl, stores[s].owned, s)
  }

  lemma SelectedWhenOwned(pl: Placement, stores: seq<Store>, r: nat, s: nat, p: Body)
    requires s < |stores| && OwnedHere(pl, stores[s].owned, s)
    ensures Selected(pl, stores, r, p)(s) == if r == s then multiset(WrappedAll(pl, stores[s].owned))[p] else 0
  {
    MineWhenOwned(pl, stores[s].owned, s, r);
  }

  lemma RetainedTally(pl: Placement, stores: seq<Store>, r: nat, p: Body)
    requires r < |stores| && AllOwnedHere(pl, stores)
    ensures Tally(pl, stores, r, |stores|, p) == multiset(WrappedAll(pl, stores[r].owned))[p]
  {
    forall s | 0 <= s < |stores|
      ensures Selected(pl, stores, r, p)(s) == if r == s then multiset(WrappedAll(pl, stores[s].owned))[p] else 0
    {
      SelectedWhenOwned(pl, stores, r, s, p);
    }
    SumBelowSingle(|stores|, Selected(pl, stores, r, p), r);
  }

  /** When every store is retainable, wrapping in place publishes every rank's share. */
  lemma RetainedGathered(pl: Placement, stores: seq<Store>, r: nat)
    requires r < |stores| && AllOwnedHere(pl, stores)
    ensures multiset(Gathered(pl, stores, r, |stores|)) == multiset(WrappedAll(pl, stores[r].owned))
  {
    forall p: Body
      ensures multiset(Gathered(pl, stores, r, |stores|))[p] == multiset(WrappedAll(pl, stores[r].owned))[p]
    {
      RetainedTally(pl, stores, r, p);
      TallyIsGathered(pl, stores, r, |stores|, p);
    }
  }

  lemma MineWhenOwned(pl: Placement, owned: seq<Body>, s: nat, r: nat)
    requires OwnedHere(pl, owned, s)
    ensures Mine(pl, owned, r) == if r == s then WrappedAll(pl, owned) else []
  {
    MineAll(pl, owned, s);
  }

  /** Wrapping keeps identifiers and order, so it neither makes nor breaks strict identifier order. */
  lemma WrappedOrder(pl: Placement, owned: seq<Body>)
    requires pl.Valid()
    ensures StrictIds(WrappedAll(pl, owned)) <==> StrictIds(owned)
  {
    var wrapped := WrappedAll(pl, owned);
    forall i | 0 <= i < |owned|
      ensures wrapped[i].id == owned[i].id
    {
      assert wrapped[i] == pl.canonical(owned[i]);
    }
  }

  lemma PublishedFromGathered(pl: Placement, stores: seq<Store>, r: nat, owned: seq<Body>)
    requires pl.Valid() && StrictIds(owned) && multiset(owned) == multiset(Gathered(pl, stores, r, |stores|))
    ensures IsPublished(pl, stores, r, owned)
  {
    GatheredIsShare(pl, stores, r);
  }

  ghost predicate AllPublished(pl: Placement, stores: seq<Store>, mass: Option<Double>, after: seq<Store>) {
    && |after| == |stores|
    && forall r :: 0 <= r < |stores| ==> after[r].uniform == mass && IsPublished(pl, stores, r, after[r].owned)
  }

  ghost function PublishedAt(pl: Placement, stores: seq<Store>, mass: Option<Double>): (nat, Store) -> bool {
    (r: nat, after: Store) => after.uniform == mass && IsPublished(pl, stores, r, after.owned)
  }

  lemma EachPublished(pl: Placement, stores: seq<Store>, mass: Option<Double>, after: seq<Store>)
    requires |after| == |stores| && forall r :: 0 <= r < |after| ==> PublishedAt(pl, stores, mass)(r, after[r])
    ensures AllPublished(pl, stores, mass, after)
  {
  }

  /** Wrap one rank's array in place, under the surviving mass representation. */
  method RetainRank(t: Topology, ghost pl: Placement, rank: RankStore, ghost stores: seq<Store>, r: nat,
                    mass: Option<Double>, ghost good: (nat, Store) -> bool)
    requires Realizes(t, pl) && AllRetainable(pl, stores, mass) && r < |stores| && rank.View() == stores[r]
    requires Implies(PublishedAt(pl, stores, mass), good)
    modifies rank`uniform, rank.primary
    ensures good(r, rank.View())
  {
    rank.uniform := mass;
    WrapInPlace(t, pl, rank.primary);
    RetainedPublished(pl, stores, mass, r);
    assert PublishedAt(pl, stores, mass)(r, rank.View());
  }

  method RetainAll(t: Topology, ghost pl: Placement, ranks: seq<RankStore>, ghost stores: seq<Store>,
                   mass: Option<Double>, ghost good: (nat, Store) -> bool)
    requires Realizes(t, pl) && Separate(ranks) && AllRetainable(pl, stores, mass)
    requires |ranks| == |stores| && forall r :: 0 <= r < |ranks| ==> ranks[r].View() == stores[r]
    requires Implies(PublishedAt(pl, stores, mass), good)
    modifies ranks, Arrays(ranks)
    ensures Separate(ranks) && forall r :: 0 <= r < |ranks| ==> ranks[r].primary == old(ranks[r].primary)
    ensures forall r :: 0 <= r < |ranks| ==> good(r, ranks[r].View())
  {
    for r := 0 to |ranks|
      invariant Separate(ranks) && forall q :: 0 <= q < |ranks| ==> ranks[q].primary == old(ranks[q].primary)
      invariant forall q :: 0 <= q < r ==> good(q, ranks[q].View())
      invariant forall q :: r <= q < |ranks| ==> ranks[q].View() == stores[q]
    {
      ApartFrom(ranks, r);
      RetainRank(t, pl, ranks[r], stores, r, mass, good);
    }
  }

  lemma RetainedPublished(pl: Placement, stores: seq<Store>, mass: Option<Double>, r: nat)
    requires pl.Valid() && r < |stores| && AllRetainable(pl, stores, mass)
    ensures PublishedAt(pl, stores, mass)(r, Store(mass, WrappedAll(pl, stores[r].owned)))
  {
    forall s | 0 <= s < |stores|
      ensures OwnedHere(pl, stores[s].owned, s)
    {
      assert Retainable(pl, stores[s], s, mass);
    }
    assert Retainable(pl, stores[r], r, mass);
    RetainedGathered(pl, stores, r);
    WrappedOrder(pl, stores[r].owned);
    PublishedFromGathered(pl, stores, r, WrappedAll(pl, stores[r].owned));
  }

  // ---- sparse migration ----

  /** One rank's side of a sparse migration after transport, before anything is changed. */
  datatype Staged = Staged(retained: nat, incoming: seq<Body>)

  ghost predicate IsStaged(pl: Placement, store: Store, r: nat, received: seq<Body>, staged: Staged) {
    && staged.retained == |Mine(pl, store.owned, r)|
    && StrictIds(staged.incoming) && multiset(staged.incoming) == multiset(received)
    && Apart(Mine(pl, store.owned, r), staged.incoming)
  }

  method StageReceived(t: Topology, ghost pl: Placement, store: Store, r: nat, received: seq<Body>,
                       mass: Option<Double>)
    returns (ok: bool, staged: Staged)
    requires Realizes(t, pl) && StrictIds(store.owned)
    ensures ok ==> IsStaged(pl, store, r, received, staged)
    ensures MayTake(t, pl, store, r, received, mass) ==> ok
  {
    var retained := CountRetained(t, pl, store.owned, r);
    var incoming;
    ok, incoming := AcceptReceived(t, pl, received, r, mass);
    staged := Staged(retained, incoming);
    if DistinctIds(Mine(pl, store.owned, r) + received) {
      SplitDistinct(Mine(pl, store.owned, r), received);
      ApartPermuted(Mine(pl, store.owned, r), received, incoming);
    }
    if ok {
      var collides := CollidesWithRetained(t, pl, store.owned, r, incoming);
      ok := !collides;
    }
  }

  lemma ApartPermuted(a: seq<Body>, b: seq<Body>, c: seq<Body>)
    requires Apart(a, b) && multiset(b) == multiset(c)
    ensures Apart(a, c)
  {
    forall p, q | p in a && q in c
      ensures p.id != q.id
    {
      assert q in multiset(b);
    }
  }

  ghost predicate AllStaged(pl: Placement, stores: seq<Store>, received: seq<seq<Body>>, staged: seq<Staged>) {
    && |staged| == |received| == |stores|
    && forall r :: 0 <= r < |stores| ==> IsStaged(pl, stores[r], r, received[r], staged[r])
  }

  /** The received records complete every rank's own selection to its share. */
  ghost predicate Completes(pl: Placement, stores: seq<Store>, received: seq<seq<Body>>) {
    && |received| == |stores|
    && forall r :: 0 <= r < |stores| ==>
      multiset(Mine(pl, stores[r].owned, r) + received[r]) == multiset(Gathered(pl, stores, r, |stores|))
  }

  /** No rank is to own two particles with one identifier; identifiers may still repeat between ranks. */
  ghost predicate SharesDistinct(pl: Placement, stores: seq<Store>) {
    forall r :: 0 <= r < |stores| ==> DistinctIds(Gathered(pl, stores, r, |stores|))
  }

  lemma GloballyDistinctShares(pl: Placement, stores: seq<Store>)
    requires pl.Valid() && GloballyDistinct(stores)
    ensures SharesDistinct(pl, stores)
  {
    forall r | 0 <= r < |stores|
      ensures DistinctIds(Gathered(pl, stores, r, |stores|))
    {
      GatheredDistinct(pl, stores, r, |stores|);
    }
  }

  /** Published stores have distinct identifiers, so the shares had. */
  lemma PublishedSharesDistinct(pl: Placement, stores: seq<Store>, mass: Option<Double>, after: seq<Store>)
    requires pl.Valid() && AllPublished(pl, stores, mass, after)
    ensures SharesDistinct(pl, stores)
  {
    forall r | 0 <= r < |stores|
      ensures DistinctIds(Gathered(pl, stores, r, |stores|))
    {
      var gathered := Gathered(pl, stores, r, |stores|);
      GatheredIsShare(pl, stores, r);
      ShareUnique(pl, stores, r, multiset(after[r].owned), multiset(gathered));
      StrictIsDistinct(after[r].owned);
      DistinctPermuted(after[r].owned, gathered);
    }
  }

  ghost predicate Legal(pl: Placement, stores: seq<Store>, mass: Option<Double>) {
    SharesDistinct(pl, stores) && AllSound(stores) && MassesAgree(stores, mass)
  }

  /** The received records are ones a rank may take. */
  ghost predicate MayTake(t: Topology, pl: Placement, store: Store, r: nat, received: seq<Body>, mass: Option<Double>) {
    DistinctIds(Mine(pl, store.owned, r) + received) && AllAcceptable(t, pl, received, r, mass)
  }

  /** Every rank validates what it received against its live store; this stage changes no store. */
  method StageAll(t: Topology, ghost pl: Placement, ranks: seq<RankStore>, ghost stores: seq<Store>,
                  received: seq<seq<Body>>, mass: Option<Double>, ghost legal: bool)
    returns (ok: bool, staged: seq<Staged>)
    requires Realizes(t, pl) && |ranks| == |received| == |stores|
    requires forall r :: 0 <= r < |ranks| ==> ranks[r].View() == stores[r]
    requires AllSorted(stores)
    requires legal ==> forall s :: 0 <= s < |stores| ==> MayTake(t, pl, stores[s], s, received[s], mass)
    ensures ok ==> AllStaged(pl, stores, received, staged)
    ensures legal ==> ok
  {
    staged := [];
    ok := true;
    for r := 0 to |ranks|
      invariant |staged| == r
      invariant ok ==> forall q :: 0 <= q < r ==> IsStaged(pl, stores[q], q, received[q], staged[q])
      invariant legal ==> ok
    {
      var fine, one := StageReceived(t, pl, ranks[r].View(), r, received[r], mass);
      ok := ok && fine;
      staged := staged + [one];
    }
  }

  lemma AllMayTake(t: Topology, pl: Placement, stores: seq<Store>, received: seq<seq<Body>>, mass: Option<Double>)
    requires Realizes(t, pl) && Completes(pl, stores, received) && Legal(pl, stores, mass)
    ensures forall s :: 0 <= s < |stores| ==> MayTake(t, pl, stores[s], s, received[s], mass)
  {
    forall s | 0 <= s < |stores|
      ensures MayTake(t, pl, stores[s], s, received[s], mass)
    {
      StagingSucceeds(t, pl, stores, received, s, mass);
    }
  }

  lemma StagingSucceeds(t: Topology, pl: Placement, stores: seq<Store>, received: seq<seq<Body>>, r: nat,
                        mass: Option<Double>)
    requires Realizes(t, pl) && Completes(pl, stores, received) && r < |stores|
    requires Legal(pl, stores, mass)
    ensures DistinctIds(Mine(pl, stores[r].owned, r) + received[r]) && AllAcceptable(t, pl, received[r], r, mass)
  {
    var gathered := Gathered(pl, stores, r, |stores|);
    var mine := Mine(pl, stores[r].owned, r);
    DistinctPermuted(gathered, mine + received[r]);
    GatheredAcceptable(t, pl, stores, r, mass);
    forall p | p in received[r]
      ensures p in multiset(gathered)
    {
      assert p in mine + received[r];
      assert p in multiset(mine + received[r]);
    }
    PartAcceptable(t, pl, received[r], gathered, r, mass);
  }

  // Populations before and after transport.

  method PopulationOf(stores: seq<Store>) returns (total: nat)
    ensures total == Population(stores, |stores|)
  {
    total := 0;
    for s := 0 to |stores|
      invariant total == Population(stores, s)
    {
      total := total + |stores[s].owned|;
    }
  }

  ghost function Sizes(sizes: seq<nat>): nat -> int {
    (r: nat) => if r < |sizes| then sizes[r] else 0
  }

  method TotalOf(sizes: seq<nat>) returns (total: int)
    ensures total == SumBelow(|sizes|, Sizes(sizes))
  {
    total := 0;
    for r := 0 to |sizes|
      invariant total == SumBelow(r, Sizes(sizes))
    {
      total := total + sizes[r];
    }
  }

  lemma {:induction false} SumBelowEqual(n: nat, f: nat -> int, g: nat -> int)
    requires forall i :: 0 <= i < n ==> f(i) == g(i)
    ensures SumBelow(n, f) == SumBelow(n, g)
  {
    if n > 0 {
      SumBelowEqual(n - 1, f, g);
    }
  }

  /** Shares of the right sizes have the size of the whole. */
  lemma SharesHavePopulation(pl: Placement, stores: seq<Store>, sizes: seq<nat>)
    requires pl.Valid() && |stores| == pl.size == |sizes|
    requires Each(ShareSized(pl, stores), sizes)
    ensures SumBelow(|sizes|, Sizes(sizes)) == Population(stores, |stores|)
  {
    AllShareSized(pl, stores, sizes);
    GatheredPopulation(pl, stores, |stores|);
    SumBelowEqual(pl.size, Sizes(sizes), GatheredSizes(pl, stores, |stores|));
  }

  ghost function ShareSized(pl: Placement, stores: seq<Store>): (nat, nat) -> bool {
    (r: nat, size: nat) => r < |stores| && size == |Gathered(pl, stores, r, |stores|)|
  }

  lemma FinalSize(pl: Placement, stores: seq<Store>, received: seq<seq<Body>>, staged: Staged, r: nat)
    requires CommitsAt(pl, stores, received)(r, staged)
    ensures ShareSized(pl, stores)(r, staged.retained + |staged.incoming|)
  {
    SameLength(staged.incoming, received[r]);
    SameLength(Mine(pl, stores[r].owned, r) + received[r], Gathered(pl, stores, r, |stores|));
  }

  ghost function ReceivedAt(pl: Placement, stores: seq<Store>): (nat, seq<Body>) -> bool {
    (r: nat, received: seq<Body>) =>
      r < |stores| && multiset(received) == multiset(Gathered(pl, stores, r, |stores|))
  }

  /** Whatever is ready has a good size. */
  ghost predicate Sized<T(!new)>(ready: (nat, T) -> bool, size: T -> nat, good: (nat, nat) -> bool) {
    forall r: nat, x: T {:trigger ready(r, x)} :: ready(r, x) ==> good(r, size(x))
  }

  ghost function FinalSizeOf(): Staged -> nat {
    (staged: Staged) => staged.retained + |staged.incoming|
  }

  ghost function LengthOf(): seq<Body> -> nat {
    (received: seq<Body>) => |received|
  }

  lemma AllShareSized(pl: Placement, stores: seq<Store>, sizes: seq<nat>)
    requires Each(ShareSized(pl, stores), sizes)
    ensures forall r :: 0 <= r < |sizes| ==> r < |stores| && sizes[r] == |Gathered(pl, stores, r, |stores|)|
  {
    EachAt<nat>(ShareSized(pl, stores), sizes);
  }

  method FinalSizes(staged: seq<Staged>, ghost ready: (nat, Staged) -> bool, ghost good: (nat, nat) -> bool)
    returns (sizes: seq<nat>)
    requires (forall r :: 0 <= r < |staged| ==> ready(r, staged[r])) && Sized(ready, FinalSizeOf(), good)
    ensures |sizes| == |staged| && Each(good, sizes)
  {
    sizes := [];
    for r := 0 to |staged|
      invariant |sizes| == r && Each(good, sizes)
    {
      var size := staged[r].retained + |staged[r].incoming|;
      EachSnoc<nat>(good, sizes, size);
      sizes := sizes + [size];
    }
  }

  lemma StagedSized(pl: Placement, stores: seq<Store>, received: seq<seq<Body>>)
    ensures Sized(CommitsAt(pl, stores, received), FinalSizeOf(), ShareSized(pl, stores))
  {
    forall r: nat, staged: Staged | CommitsAt(pl, stores, received)(r, staged)
      ensures ShareSized(pl, stores)(r, FinalSizeOf()(staged))
    {
      FinalSize(pl, stores, received, staged, r);
    }
  }

  /** A rank's staged side of a migration whose received records complete its selection to its share. */
  ghost function CommitsAt(pl: Placement, stores: seq<Store>, received: seq<seq<Body>>): (nat, Staged) -> bool {
    (r: nat, staged: Staged) =>
      && r < |stores| && r < |received| && StrictIds(stores[r].owned)
      && IsStaged(pl, stores[r], r, received[r], staged)
      && multiset(Mine(pl, stores[r].owned, r) + received[r]) == multiset(Gathered(pl, stores, r, |stores|))
  }

  lemma StagedCommits(pl: Placement, stores: seq<Store>, received: seq<seq<Body>>, staged: seq<Staged>)
    requires AllStaged(pl, stores, received, staged) && Completes(pl, stores, received) && AllSorted(stores)
    ensures forall r :: 0 <= r < |staged| ==> CommitsAt(pl, stores, received)(r, staged[r])
  {
    forall r | 0 <= r < |staged|
      ensures CommitsAt(pl, stores, received)(r, staged[r])
    {
      assert IsStaged(pl, stores[r], r, received[r], staged[r]);
    }
  }

  /** One rank's commit: take over the mass representation, then compact and merge its live array. */
  method CommitRank(t: Topology, ghost pl: Placement, rank: RankStore, ghost stores: seq<Store>,
                    ghost received: seq<seq<Body>>, r: nat, staged: Staged, mass: Option<Double>,
                    ghost ready: (nat, Staged) -> bool, ghost good: (nat, Store) -> bool)
    returns (ok: bool)
    requires Realizes(t, pl) && r < |stores| && rank.View() == stores[r] && ready(r, staged)
    requires Grants(ready, CommitsAt(pl, stores, received)) && Implies(PublishedAt(pl, stores, mass), good)
    modifies rank, rank.primary
    ensures ok && fresh(rank.primary) && good(r, rank.View())
  {
    assert CommitsAt(pl, stores, received)(r, staged);
    rank.uniform := mass;
    var published;
    ok, published := CommitSparse(t, pl, rank.primary, r, staged.retained, staged.incoming);
    MergedPublished(pl, stores, received, r, staged, published[..]);
    rank.primary := published;
    assert PublishedAt(pl, stores, mass)(r, rank.View());
  }

  /** Every rank commits what all ranks have validated. */
  method CommitAll(t: Topology, ghost pl: Placement, ranks: seq<RankStore>, ghost stores: seq<Store>,
                   ghost received: seq<seq<Body>>, staged: seq<Staged>, mass: Option<Double>,
                   ghost ready: (nat, Staged) -> bool, ghost good: (nat, Store) -> bool)
    returns (ok: bool)
    requires Realizes(t, pl) && Separate(ranks)
    requires |ranks| == |stores| && forall r :: 0 <= r < |ranks| ==> ranks[r].View() == stores[r]
    requires |staged| == |ranks| && forall r :: 0 <= r < |staged| ==> ready(r, staged[r])
    requires Grants(ready, CommitsAt(pl, stores, received)) && Implies(PublishedAt(pl, stores, mass), good)
    modifies ranks, Arrays(ranks)
    ensures ok && Separate(ranks) && forall r :: 0 <= r < |ranks| ==> good(r, ranks[r].View())
  {
    ok := true;
    for r := 0 to |ranks|
      invariant ok && Separate(ranks)
      invariant forall q :: 0 <= q < r ==> fresh(ranks[q].primary) && good(q, ranks[q].View())
      invariant forall q :: r <= q < |ranks| ==>
        ranks[q].primary == old(ranks[q].primary) && ranks[q].View() == stores[q]
    {
      ApartFrom(ranks, r);
      var fine := CommitRank(t, pl, ranks[r], stores, received, r, staged[r], mass, ready, good);
      ok := ok && fine;
      StillSeparate(ranks, r);
    }
  }

  lemma MergedPublished(pl: Placement, stores: seq<Store>, received: seq<seq<Body>>, r: nat, staged: Staged,
                        merged: seq<Body>)
    requires pl.Valid() && CommitsAt(pl, stores, received)(r, staged)
    requires StrictIds(merged) && multiset(merged) == multiset(Mine(pl, stores[r].owned, r)) + multiset(staged.incoming)
    ensures IsPublished(pl, stores, r, merged)
  {
    var mine := Mine(pl, stores[r].owned, r);
    assert multiset(mine + received[r]) == multiset(mine) + multiset(received[r]);
    PublishedFromGathered(pl, stores, r, merged);
  }

  lemma ExchangeReady(pl: Placement, stores: seq<Store>, all: bool, limit: nat, routed: seq<seq<Routed<Phase>>>)
    requires limit > 0 && |stores| == pl.size && AllRouted(pl, stores, all, routed)
    ensures BoundedMigration.World(limit, routed).Valid()
  {
    forall r | 0 <= r < |routed|
      ensures DestinationsInside(routed[r], |routed|) && RoutingOrder(routed[r])
    {
      assert RoutedFor(pl, stores[r].owned, r, all, routed[r]);
    }
  }

  /** Route what leaves every rank and exchange it. */
  method ExchangeSparse(t: Topology, ghost pl: Placement, stores: seq<Store>, limit: nat)
    returns (ok: bool, received: seq<seq<Body>>)
    requires Realizes(t, pl) && limit > 0 && |stores| == pl.size && AllSorted(stores)
    ensures ok && Completes(pl, stores, received)
  {
    StrictStoresDistinct(stores);
    var routed;
    ok, routed := RouteAll(t, pl, stores, false);
    ExchangeReady(pl, stores, false, limit, routed);
    received := BoundedMigration.Transport(limit, routed);
    ReceivedCompletes(pl, stores, limit, routed, received);
  }

  /** Every rank validates what completes its selection; distinct shares of legal masses are accepted. */
  method AcceptAll(t: Topology, ghost pl: Placement, ranks: seq<RankStore>, ghost stores: seq<Store>,
                   received: seq<seq<Body>>, mass: Option<Double>)
    returns (ok: bool, staged: seq<Staged>)
    requires Realizes(t, pl) && AllSorted(stores) && Completes(pl, stores, received)
    requires |ranks| == |stores| && forall r :: 0 <= r < |ranks| ==> ranks[r].View() == stores[r]
    ensures ok ==> AllStaged(pl, stores, received, staged)
    ensures Legal(pl, stores, mass) ==> ok
  {
    ghost var legal := Legal(pl, stores, mass);
    if legal {
      AllMayTake(t, pl, stores, received, mass);
    }
    ok, staged := StageAll(t, pl, ranks, stores, received, mass, legal);
  }

  /** The population after the migration, before it is carried out. */
  method FinalPopulation(ghost pl: Placement, ghost stores: seq<Store>, ghost received: seq<seq<Body>>,
                         staged: seq<Staged>)
    returns (total: int)
    requires pl.Valid() && |stores| == pl.size == |staged|
    requires forall r :: 0 <= r < |staged| ==> CommitsAt(pl, stores, received)(r, staged[r])
    ensures total == Population(stores, |stores|)
  {
    StagedSized(pl, stores, received);
    var sizes := FinalSizes(staged, CommitsAt(pl, stores, received), ShareSized(pl, stores));
    total := TotalOf(sizes);
    SharesHavePopulation(pl, stores, sizes);
  }

  /** The stages of a sparse migration before any store changes: route, exchange, validate, account. */
  method StageSparse(t: Topology, ghost pl: Placement, ranks: seq<RankStore>, ghost stores: seq<Store>,
                     mass: Option<Double>, limit: nat)
    returns (outcome: Outcome, staged: seq<Staged>, ghost received: seq<seq<Body>>)
    requires Realizes(t, pl) && limit > 0 && |ranks| == pl.size && AllSorted(stores)
    requires |ranks| == |stores| && forall r :: 0 <= r < |ranks| ==> ranks[r].View() == stores[r]
    ensures outcome == Published || outcome == ReceiveRejected
    ensures Legal(pl, stores, mass) ==> outcome == Published
    ensures outcome == Published ==>
      |staged| == |stores| && forall r :: 0 <= r < |staged| ==> CommitsAt(pl, stores, received)(r, staged[r])
  {
    var views := Views(ranks);
    assert views == stores;
    var before := PopulationOf(views);
    var routable, arrived := ExchangeSparse(t, pl, views, limit);
    received := arrived;
    if !routable {
      return RoutingFailed, [], received;
    }
    var ok;
    ok, staged := AcceptAll(t, pl, ranks, stores, arrived, mass);
    if !ok {
      return ReceiveRejected, staged, received;
    }
    StagedCommits(pl, stores, received, staged);
    var total := FinalPopulation(pl, stores, received, staged);
    if total != before {
      return PopulationChanged, staged, received;
    }
    outcome := Published;
  }

  /** Migrate only what leaves, merging into the retained records in place; nothing changes before all ranks agree. */
  method MigrateSparse(t: Topology, ghost pl: Placement, ranks: seq<RankStore>, ghost stores: seq<Store>,
                       mass: Option<Double>, limit: nat)
    returns (outcome: Outcome)
    requires Realizes(t, pl) && limit > 0 && |ranks| == pl.size && Separate(ranks) && AllSorted(stores)
    requires |ranks| == |stores| && forall r :: 0 <= r < |ranks| ==> ranks[r].View() == stores[r]
    requires AllSound(stores) && MassesAgree(stores, mass)
    modifies ranks, Arrays(ranks)
    ensures outcome == if SharesDistinct(pl, stores) then Published else ReceiveRejected
    ensures outcome == Published ==> Separate(ranks) && AllPublished(pl, stores, mass, Views(ranks))
    ensures outcome != Published ==> Untouched(ranks)
  {
    var staged;
    ghost var received;
    outcome, staged, received := StageSparse(t, pl, ranks, stores, mass, limit);
    if outcome == Published {
      var merged := CommitAll(t, pl, ranks, stores, received, staged, mass,
        CommitsAt(pl, stores, received), PublishedAt(pl, stores, mass));
      EachPublished(pl, stores, mass, Views(ranks));
      PublishedSharesDistinct(pl, stores, mass, Views(ranks));
      if !merged {
        outcome := MergeFailed;
      }
    }
  }

  lemma StrictStoresDistinct(stores: seq<Store>)
    requires AllSorted(stores)
    ensures forall s :: 0 <= s < |stores| ==> DistinctIds(stores[s].owned)
  {
    forall s | 0 <= s < |stores|
      ensures DistinctIds(stores[s].owned)
    {
      StrictIsDistinct(stores[s].owned);
    }
  }

  lemma StrictIsDistinct(owned: seq<Body>)
    requires StrictIds(owned)
    ensures DistinctIds(owned)
  {
  }

  lemma ReceivedCompletes(pl: Placement, stores: seq<Store>, limit: nat, routed: seq<seq<Routed<Phase>>>,
                          received: seq<seq<Body>>)
    requires pl.Valid() && AllRouted(pl, stores, false, routed) && |received| == |routed|
    requires forall d :: 0 <= d < |routed| ==>
      received[d] == BoundedMigration.World(limit, routed).Incoming(|routed|, d)
    ensures Completes(pl, stores, received)
  {
    forall r | 0 <= r < |stores|
      ensures multiset(Mine(pl, stores[r].owned, r) + received[r]) == multiset(Gathered(pl, stores, r, |stores|))
    {
      assert received[r] == Inbox(limit, routed, |routed|, r);
      SparseShare(pl, stores, limit, routed, r);
    }
  }

  // ---- route-all rebuild ----

  function IdsOf(owned: seq<Body>): (ids: seq<ParticleId>)
    ensures |ids| == |owned| && forall i :: 0 <= i < |ids| ==> ids[i] == owned[i].id
  {
    seq(|owned|, i requires 0 <= i < |owned| => owned[i].id)
  }

  function IdWorld(stores: seq<Store>): (world: seq<seq<ParticleId>>)
    ensures |world| == |stores| && forall s :: 0 <= s < |world| ==> world[s] == IdsOf(stores[s].owned)
  {
    seq(|stores|, s requires 0 <= s < |stores| => IdsOf(stores[s].owned))
  }

  lemma {:induction false} CountsAdd(world: seq<seq<ParticleId>>, n: nat, a: nat, b: nat, id: ParticleId)
    requires a < n <= |world| && b < n
    ensures CanonicalBuckets.GlobalCount(world, n, id) >= multiset(world[a])[id]
    ensures a != b ==> CanonicalBuckets.GlobalCount(world, n, id) >= multiset(world[a])[id] + multiset(world[b])[id]
  {
    if a < n - 1 {
      CountsAdd(world, n - 1, a, if b < n - 1 then b else a, id);
    } else if b < n - 1 {
      CountsAdd(world, n - 1, b, b, id);
    }
  }

  lemma IdAtMostOnce(stores: seq<Store>, s: nat, id: ParticleId)
    requires GloballyDistinct(stores) && s < |stores|
    ensures multiset(IdsOf(stores[s].owned))[id] <= 1
  {
    OwnedDistinct(stores, s);
    if multiset(IdsOf(stores[s].owned))[id] >= 2 {
      var i, j := TwoPositions(IdsOf(stores[s].owned), id);
    }
  }

  lemma {:induction false} CountAtMostOne(stores: seq<Store>, n: nat, id: ParticleId)
    requires GloballyDistinct(stores) && n <= |stores|
    ensures CanonicalBuckets.GlobalCount(IdWorld(stores), n, id) <= 1
    ensures CanonicalBuckets.GlobalCount(IdWorld(stores), n, id) == 1 ==>
      exists s, i :: 0 <= s < n && 0 <= i < |stores[s].owned| && stores[s].owned[i].id == id
  {
    if n > 0 {
      CountAtMostOne(stores, n - 1, id);
      IdAtMostOnce(stores, n - 1, id);
      var ids := IdsOf(stores[n - 1].owned);
      if multiset(ids)[id] >= 1 {
        assert id in ids;
        var i :| 0 <= i < |ids| && ids[i] == id;
        NotInEarlier(stores, n - 1, i);
      }
    }
  }

  lemma NotInEarlier(stores: seq<Store>, n: nat, i: nat)
    requires GloballyDistinct(stores) && n < |stores| && i < |stores[n].owned|
    ensures forall s, k :: 0 <= s < n && 0 <= k < |stores[s].owned| ==> stores[s].owned[k].id != stores[n].owned[i].id
  {
    forall s, k | 0 <= s < n && 0 <= k < |stores[s].owned|
      ensures stores[s].owned[k].id != stores[n].owned[i].id
    {
      NotTwins(stores, s, k, n, i);
    }
  }

  /** The canonical buckets see a repetition exactly when the stores are not globally distinct. */
  lemma UniqueIffDistinct(stores: seq<Store>)
    ensures CanonicalBuckets.UniqueIds(IdWorld(stores)) <==> GloballyDistinct(stores)
  {
    var world := IdWorld(stores);
    if GloballyDistinct(stores) {
      forall id: ParticleId
        ensures CanonicalBuckets.GlobalCount(world, |world|, id) <= 1
      {
        CountAtMostOne(stores, |stores|, id);
      }
    }
    if CanonicalBuckets.UniqueIds(world) {
      forall a: nat, b: nat, i: nat, j: nat {:trigger Twins(stores, a, i, b, j)} | Twins(stores, a, i, b, j)
        ensures a == b && i == j
      {
        SamePlace(stores, a, b, i, j);
      }
    }
  }

  lemma SamePlace(stores: seq<Store>, a: nat, b: nat, i: nat, j: nat)
    requires CanonicalBuckets.UniqueIds(IdWorld(stores)) && a < |stores| && b < |stores|
    requires i < |stores[a].owned| && j < |stores[b].owned| && stores[a].owned[i].id == stores[b].owned[j].id
    ensures a == b && i == j
  {
    var world, id := IdWorld(stores), stores[a].owned[i].id;
    assert world[a][i] == id && world[b][j] == id;
    assert id in multiset(world[a]) && id in multiset(world[b]);
    CountsAdd(world, |world|, a, b, id);
    assert CanonicalBuckets.GlobalCount(world, |world|, id) <= 1;
    if a == b && i != j {
      TwiceCounted(world[a], if i < j then i else j, if i < j then j else i);
    }
  }

  /** Stores holding exactly the shares keep identifiers distinct and the identifier set unchanged. */
  ghost predicate HoldsShares(pl: Placement, stores: seq<Store>, after: seq<Store>) {
    && |after| == |stores|
    && forall r :: 0 <= r < |stores| ==>
      StrictIds(after[r].owned) && multiset(after[r].owned) == multiset(Gathered(pl, stores, r, |stores|))
  }

  lemma AfterOrigin(pl: Placement, stores: seq<Store>, after: seq<Store>, r: nat, k: nat) returns (s: nat, i: nat)
    requires pl.Valid() && HoldsShares(pl, stores, after) && r < |stores| && k < |after[r].owned|
    ensures s < |stores| && i < |stores[s].owned| && pl.rank(stores[s].owned[i]) == r
    ensures after[r].owned[k] == pl.canonical(stores[s].owned[i]) && after[r].owned[k].id == stores[s].owned[i].id
  {
    assert after[r].owned[k] in multiset(Gathered(pl, stores, r, |stores|));
    s, i := GatheredOrigin(pl, stores, r, |stores|, after[r].owned[k]);
  }

  lemma AfterDistinct(pl: Placement, stores: seq<Store>, after: seq<Store>)
    requires pl.Valid() && HoldsShares(pl, stores, after) && GloballyDistinct(stores)
    ensures GloballyDistinct(after)
  {
    forall a: nat, b: nat, i: nat, j: nat {:trigger Twins(after, a, i, b, j)} | Twins(after, a, i, b, j)
      ensures a == b && i == j
    {
      var s, k := AfterOrigin(pl, stores, after, a, i);
      var s', k' := AfterOrigin(pl, stores, after, b, j);
      assert Twins(stores, s, k, s', k');
      StrictIsDistinct(after[a].owned);
    }
  }

  lemma {:induction false} AllWrappedHas(pl: Placement, stores: seq<Store>, n: nat, a: nat, b: nat, p: Body)
    requires a < n <= |stores| && b < n && a != b
    requires p in WrappedAll(pl, stores[a].owned) && p in WrappedAll(pl, stores[b].owned)
    ensures AllWrapped(pl, stores, n)[p] >= 2
  {
    AllWrappedStep(pl, stores, n, p);
    if a < n - 1 && b < n - 1 {
      AllWrappedHas(pl, stores, n - 1, a, b, p);
    } else {
      AllWrappedCounts(pl, stores, n - 1, if a < n - 1 then a else b, p);
      assert p in multiset(WrappedAll(pl, stores[n - 1].owned));
    }
  }

  lemma {:induction false} AllWrappedCounts(pl: Placement, stores: seq<Store>, n: nat, a: nat, p: Body)
    requires a < n <= |stores| && p in WrappedAll(pl, stores[a].owned)
    ensures AllWrapped(pl, stores, n)[p] >= multiset(WrappedAll(pl, stores[a].owned))[p] >= 1
  {
    AllWrappedStep(pl, stores, n, p);
    assert p in multiset(WrappedAll(pl, stores[a].owned));
    if a < n - 1 {
      AllWrappedCounts(pl, stores, n - 1, a, p);
    }
  }

  /** Two places that wrap to one particle make it occur twice. */
  lemma TwiceWrapped(pl: Placement, stores: seq<Store>, a: nat, i: nat, b: nat, j: nat)
    requires Twins(stores, a, i, b, j) && (a != b || i != j)
    requires pl.canonical(stores[a].owned[i]) == pl.canonical(stores[b].owned[j])
    ensures AllWrapped(pl, stores, |stores|)[pl.canonical(stores[a].owned[i])] >= 2
  {
    var p := pl.canonical(stores[a].owned[i]);
    assert WrappedAll(pl, stores[a].owned)[i] == p && WrappedAll(pl, stores[b].owned)[j] == p;
    if a != b {
      AllWrappedHas(pl, stores, |stores|, a, b, p);
    } else {
      TwiceCounted(WrappedAll(pl, stores[a].owned), if i < j then i else j, if i < j then j else i);
      AllWrappedCounts(pl, stores, |stores|, a, p);
    }
  }

  /** A published particle occurs once, so two places that wrap to it are the same place. */
  lemma WrappedOnce(pl: Placement, stores: seq<Store>, mass: Option<Double>, after: seq<Store>, p: Body)
    requires pl.Valid() && pl.size == |stores| && AllPublished(pl, stores, mass, after)
    ensures AllWrapped(pl, stores, |stores|)[p] <= 1
  {
    var r := pl.rank(p);
    assert IsPublished(pl, stores, r, after[r].owned);
    StrictIsDistinct(after[r].owned);
    AtMostOnce(after[r].owned, p);
  }

  lemma PublishedHas(pl: Placement, stores: seq<Store>, mass: Option<Double>, after: seq<Store>, s: nat, i: nat)
    returns (k: nat)
    requires pl.Valid() && pl.size == |stores| && AllPublished(pl, stores, mass, after)
    requires s < |stores| && i < |stores[s].owned|
    ensures var r := pl.rank(stores[s].owned[i]);
      r < |after| && k < |after[r].owned| && after[r].owned[k] == pl.canonical(stores[s].owned[i])
  {
    var p := pl.canonical(stores[s].owned[i]);
    var r := pl.rank(stores[s].owned[i]);
    assert WrappedAll(pl, stores[s].owned)[i] == p;
    AllWrappedCounts(pl, stores, |stores|, s, p);
    assert pl.rank(p) == r && IsPublished(pl, stores, r, after[r].owned);
    assert p in multiset(after[r].owned);
    k :| 0 <= k < |after[r].owned| && after[r].owned[k] == p;
  }

  /** Published identifiers are globally unique exactly when the identifiers given were. */
  lemma PublishedDistinct(pl: Placement, stores: seq<Store>, mass: Option<Double>, after: seq<Store>)
    requires pl.Valid() && pl.size == |stores| && AllPublished(pl, stores, mass, after)
    ensures GloballyDistinct(after) <==> GloballyDistinct(stores)
  {
    if GloballyDistinct(stores) {
      PublishedHoldsShares(pl, stores, mass, after);
      AfterDistinct(pl, stores, after);
    }
    if GloballyDistinct(after) {
      forall a: nat, b: nat, i: nat, j: nat {:trigger Twins(stores, a, i, b, j)} | Twins(stores, a, i, b, j)
        ensures a == b && i == j
      {
        var k := PublishedHas(pl, stores, mass, after, a, i);
        var l := PublishedHas(pl, stores, mass, after, b, j);
        assert Twins(after, pl.rank(stores[a].owned[i]), k, pl.rank(stores[b].owned[j]), l);
        WrappedOnce(pl, stores, mass, after, pl.canonical(stores[a].owned[i]));
        if a != b || i != j {
          TwiceWrapped(pl, stores, a, i, b, j);
        }
      }
    }
  }

  lemma PublishedHoldsShares(pl: Placement, stores: seq<Store>, mass: Option<Double>, after: seq<Store>)
    requires pl.Valid() && AllPublished(pl, stores, mass, after)
    ensures HoldsShares(pl, stores, after)
  {
    forall r | 0 <= r < |stores|
      ensures StrictIds(after[r].owned) && multiset(after[r].owned) == multiset(Gathered(pl, stores, r, |stores|))
    {
      assert IsPublished(pl, stores, r, after[r].owned);
      GatheredIsShare(pl, stores, r);
      ShareUnique(pl, stores, r, multiset(after[r].owned), multiset(Gathered(pl, stores, r, |stores|)));
    }
  }

  lemma {:induction false} GatheredHas(pl: Placement, stores: seq<Store>, r: nat, n: nat, s: nat, p: Body)
    requires s < n <= |stores| && p in Mine(pl, stores[s].owned, r)
    ensures p in Gathered(pl, stores, r, n)
  {
    if s < n - 1 {
      GatheredHas(pl, stores, r, n - 1, s, p);
    }
    InEither(Gathered(pl, stores, r, n - 1), Mine(pl, stores[n - 1].owned, r), p);
  }

  lemma AfterKeeps(pl: Placement, stores: seq<Store>, after: seq<Store>, s: nat, i: nat) returns (r: nat, k: nat)
    requires pl.Valid() && pl.size == |stores| && HoldsShares(pl, stores, after)
    requires s < |stores| && i < |stores[s].owned|
    ensures r < |after| && k < |after[r].owned| && after[r].owned[k].id == stores[s].owned[i].id
  {
    var p := stores[s].owned[i];
    r := pl.rank(p);
    MineHas(pl, stores[s].owned, r, i);
    GatheredHas(pl, stores, r, |stores|, s, pl.canonical(p));
    assert pl.canonical(p) in multiset(after[r].owned);
    k :| 0 <= k < |after[r].owned| && after[r].owned[k] == pl.canonical(p);
  }

  lemma AfterSameIds(pl: Placement, stores: seq<Store>, after: seq<Store>)
    requires pl.Valid() && pl.size == |stores| && HoldsShares(pl, stores, after)
    ensures CanonicalBuckets.SameIdSet(IdWorld(stores), IdWorld(after))
  {
    var before, later := IdWorld(stores), IdWorld(after);
    forall id: ParticleId
      ensures CanonicalBuckets.Held(before, id) <==> CanonicalBuckets.Held(later, id)
    {
      if CanonicalBuckets.Held(before, id) {
        var s :| 0 <= s < |before| && id in before[s];
        var i :| 0 <= i < |before[s]| && before[s][i] == id;
        var r, k := AfterKeeps(pl, stores, after, s, i);
        assert later[r][k] == id;
      }
      if CanonicalBuckets.Held(later, id) {
        var r :| 0 <= r < |later| && id in later[r];
        var k :| 0 <= k < |later[r]| && later[r][k] == id;
        var s, i := AfterOrigin(pl, stores, after, r, k);
        assert before[s][i] == id;
      }
    }
  }

  ghost predicate ReceivedShares(pl: Placement, stores: seq<Store>, received: seq<seq<Body>>) {
    && |received| == |stores|
    && forall r :: 0 <= r < |stores| ==> multiset(received[r]) == multiset(Gathered(pl, stores, r, |stores|))
  }

  ghost function RebuiltAt(pl: Placement, stores: seq<Store>, mass: Option<Double>): (nat, Store) -> bool {
    (r: nat, store: Store) =>
      && r < |stores| && store.uniform == mass && StrictIds(store.owned)
      && multiset(store.owned) == multiset(Gathered(pl, stores, r, |stores|))
  }

  lemma EachRebuilt(pl: Placement, stores: seq<Store>, mass: Option<Double>, rebuilt: seq<Store>)
    requires |rebuilt| == |stores| && Each(RebuiltAt(pl, stores, mass), rebuilt)
    ensures HoldsShares(pl, stores, rebuilt)
    ensures forall r :: 0 <= r < |rebuilt| ==> rebuilt[r].uniform == mass
  {
    EachAt(RebuiltAt(pl, stores, mass), rebuilt);
  }

  /** Build private stores from the received records; nothing is published yet. */
  method Rebuild(t: Topology, ghost pl: Placement, ghost stores: seq<Store>, received: seq<seq<Body>>,
                 mass: Option<Double>)
    returns (ok: bool, rebuilt: seq<Store>)
    requires Realizes(t, pl) && ReceivedShares(pl, stores, received)
    requires GloballyDistinct(stores) && AllSound(stores) && MassesAgree(stores, mass)
    ensures ok && HoldsShares(pl, stores, rebuilt)
    ensures forall r :: 0 <= r < |rebuilt| ==> rebuilt[r].uniform == mass
  {
    rebuilt := [];
    ok := true;
    for r := 0 to |received|
      invariant ok && |rebuilt| == r && Each(RebuiltAt(pl, stores, mass), rebuilt)
    {
      var fine, one := RebuildOne(t, pl, stores, received[r], r, mass);
      ok := ok && fine;
      EachSnoc(RebuiltAt(pl, stores, mass), rebuilt, one);
      rebuilt := rebuilt + [one];
    }
    EachRebuilt(pl, stores, mass, rebuilt);
  }

  method RebuildOne(t: Topology, ghost pl: Placement, ghost stores: seq<Store>, received: seq<Body>, r: nat,
                    mass: Option<Double>)
    returns (ok: bool, rebuilt: Store)
    requires Realizes(t, pl) && r < |stores| && multiset(received) == multiset(Gathered(pl, stores, r, |stores|))
    requires GloballyDistinct(stores) && AllSound(stores) && MassesAgree(stores, mass)
    ensures ok && RebuiltAt(pl, stores, mass)(r, rebuilt)
  {
    RebuildSucceeds(t, pl, stores, received, r, mass);
    var sorted;
    ok, sorted := AcceptReceived(t, pl, received, r, mass);
    rebuilt := Store(mass, sorted);
  }

  lemma RebuildSucceeds(t: Topology, pl: Placement, stores: seq<Store>, received: seq<Body>, r: nat,
                        mass: Option<Double>)
    requires Realizes(t, pl) && r < |stores| && multiset(received) == multiset(Gathered(pl, stores, r, |stores|))
    requires GloballyDistinct(stores) && AllSound(stores) && MassesAgree(stores, mass)
    ensures DistinctIds(received) && AllAcceptable(t, pl, received, r, mass)
  {
    var gathered := Gathered(pl, stores, r, |stores|);
    GatheredDistinct(pl, stores, r, |stores|);
    DistinctPermuted(gathered, received);
    GatheredAcceptable(t, pl, stores, r, mass);
    forall p | p in received
      ensures p in multiset(gathered)
    {
      assert p in multiset(received);
    }
    PartAcceptable(t, pl, received, gathered, r, mass);
  }

  lemma ReceivedAll(pl: Placement, stores: seq<Store>, limit: nat, routed: seq<seq<Routed<Phase>>>,
                    received: seq<seq<Body>>)
    requires pl.Valid() && AllRouted(pl, stores, true, routed) && |received| == |routed|
    requires forall d :: 0 <= d < |routed| ==>
      received[d] == BoundedMigration.World(limit, routed).Incoming(|routed|, d)
    ensures ReceivedShares(pl, stores, received)
  {
    forall r | 0 <= r < |stores|
      ensures multiset(received[r]) == multiset(Gathered(pl, stores, r, |stores|))
    {
      assert received[r] == Inbox(limit, routed, |routed|, r);
      RouteAllShare(pl, stores, limit, routed, r);
    }
  }

  method ReceivedSizes(received: seq<seq<Body>>, ghost ready: (nat, seq<Body>) -> bool, ghost good: (nat, nat) -> bool)
    returns (sizes: seq<nat>)
    requires (forall r :: 0 <= r < |received| ==> ready(r, received[r])) && Sized(ready, LengthOf(), good)
    ensures |sizes| == |received| && Each(good, sizes)
  {
    sizes := [];
    for r := 0 to |received|
      invariant |sizes| == r && Each(good, sizes)
    {
      EachSnoc<nat>(good, sizes, |received[r]|);
      sizes := sizes + [|received[r]|];
    }
  }

  lemma ReceivedSized(pl: Placement, stores: seq<Store>, received: seq<seq<Body>>)
    requires ReceivedShares(pl, stores, received)
    ensures forall r :: 0 <= r < |received| ==> ReceivedAt(pl, stores)(r, received[r])
    ensures Sized(ReceivedAt(pl, stores), LengthOf(), ShareSized(pl, stores))
  {
    forall r: nat, one: seq<Body> | ReceivedAt(pl, stores)(r, one)
      ensures ShareSized(pl, stores)(r, LengthOf()(one))
    {
      SameLength(one, Gathered(pl, stores, r, |stores|));
    }
  }

  lemma SharesPublished(pl: Placement, stores: seq<Store>, mass: Option<Double>, after: seq<Store>)
    requires pl.Valid() && HoldsShares(pl, stores, after) && forall r :: 0 <= r < |after| ==> after[r].uniform == mass
    ensures AllPublished(pl, stores, mass, after)
  {
    forall r | 0 <= r < |stores|
      ensures IsPublished(pl, stores, r, after[r].owned)
    {
      PublishedFromGathered(pl, stores, r, after[r].owned);
    }
  }

  /** Put the rebuilt stores in place of the live ones. */
  method PublishRebuilt(ranks: seq<RankStore>, rebuilt: seq<Store>)
    requires Separate(ranks) && |rebuilt| == |ranks|
    modifies ranks
    ensures Separate(ranks) && fresh(Arrays(ranks)) && Views(ranks) == rebuilt
  {
    for r := 0 to |ranks|
      invariant Separate(ranks)
      invariant forall q :: 0 <= q < r ==> fresh(ranks[q].primary) && ranks[q].View() == rebuilt[q]
      invariant forall q :: r <= q < |ranks| ==> ranks[q].primary == old(ranks[q].primary)
    {
      ApartFrom(ranks, r);
      var particles := rebuilt[r].owned;
      ranks[r].primary := new Body[|particles|](i requires 0 <= i < |particles| => particles[i]);
      ranks[r].uniform := rebuilt[r].uniform;
      assert ranks[r].primary[..] == particles;
      StillSeparate(ranks, r);
    }
    assert Views(ranks) == rebuilt;
  }

  /** Send every record to its owner and rebuild all stores; global identifier uniqueness is decided first. */
  method RebuildAll(t: Topology, ghost pl: Placement, ranks: seq<RankStore>, ghost stores: seq<Store>,
                    mass: Option<Double>, mix: ParticleId -> nat, chunk: nat, limit: nat)
    returns (outcome: Outcome)
    requires Realizes(t, pl) && limit > 0 && chunk > 0 && |ranks| == pl.size && Separate(ranks)
    requires |ranks| == |stores| && forall r :: 0 <= r < |ranks| ==> ranks[r].View() == stores[r]
    requires AllValid(stores) && AllSound(stores) && MassesAgree(stores, mass)
    modifies ranks
    ensures outcome == if GloballyDistinct(stores) then Published else DuplicateIds
    ensures outcome == Published ==> Separate(ranks) && AllPublished(pl, stores, mass, Views(ranks))
    ensures outcome != Published ==> Untouched(ranks)
  {
    ValidDistinct(stores);
    var views := Views(ranks);
    assert views == stores;
    var rebuilt;
    outcome, rebuilt := RebuildPrivately(t, pl, views, mass, mix, chunk, limit);
    if outcome == Published {
      PublishRebuilt(ranks, rebuilt);
    }
  }

  /** Everything the route-all path does before any live store is replaced. */
  method RebuildPrivately(t: Topology, ghost pl: Placement, stores: seq<Store>, mass: Option<Double>,
                          mix: ParticleId -> nat, chunk: nat, limit: nat)
    returns (outcome: Outcome, rebuilt: seq<Store>)
    requires Realizes(t, pl) && limit > 0 && chunk > 0 && |stores| == pl.size
    requires forall s :: 0 <= s < |stores| ==> DistinctIds(stores[s].owned)
    requires AllSound(stores) && MassesAgree(stores, mass)
    ensures outcome == if GloballyDistinct(stores) then Published else DuplicateIds
    ensures outcome == Published ==> AllPublished(pl, stores, mass, rebuilt)
  {
    var before := PopulationOf(stores);
    UniqueIffDistinct(stores);
    rebuilt := [];
    var capture := CanonicalBuckets.CaptureIdSet(mix, IdWorld(stores), chunk);
    if !capture.Captured? {
      return DuplicateIds, rebuilt;
    }
    var routable, routed := RouteAll(t, pl, stores, true);
    if !routable {
      return RoutingFailed, rebuilt;
    }
    ExchangeReady(pl, stores, true, limit, routed);
    var received := BoundedMigration.Transport(limit, routed);
    ReceivedAll(pl, stores, limit, routed, received);
    ReceivedSized(pl, stores, received);
    var sizes := ReceivedSizes(received, ReceivedAt(pl, stores), ShareSized(pl, stores));
    var total := TotalOf(sizes);
    SharesHavePopulation(pl, stores, sizes);
    if total != before {
      return PopulationChanged, rebuilt;
    }
    var ok;
    ok, rebuilt := Rebuild(t, pl, stores, received, mass);
    if !ok {
      return ReceiveRejected, rebuilt;
    }
    AfterDistinct(pl, stores, rebuilt);
    AfterSameIds(pl, stores, rebuilt);
    UniqueIffDistinct(rebuilt);
    var preserved :=
      CanonicalBuckets.RequireIdSetPreserved(mix, capture.buckets, IdWorld(stores), IdWorld(rebuilt), chunk);
    if preserved != CanonicalBuckets.Preserved {
      return IdSetChanged, rebuilt;
    }
    SharesPublished(pl, stores, mass, rebuilt);
    outcome := Published;
  }

  // ---- the collective operation ----

  lemma AgreedMasses(stores: seq<Store>, mass: Option<Double>)
    requires AllConsistent(stores) && (mass.Some? ==> AllUniform(stores, mass.value))
    ensures MassesAgree(stores, mass)
  {
    forall s | 0 <= s < |stores| && mass.Some?
      ensures Represents(stores[s], mass.value)
    {
      assert stores[s].Consistent();
    }
  }

  ghost predicate AllValid(stores: seq<Store>) {
    forall s {:trigger ValidStore(stores[s])} :: 0 <= s < |stores| ==> ValidStore(stores[s])
  }

  ghost predicate AllConsistent(stores: seq<Store>) {
    forall s {:trigger stores[s].Consistent()} :: 0 <= s < |stores| ==> stores[s].Consistent()
  }

  ghost predicate AllRetainable(pl: Placement, stores: seq<Store>, mass: Option<Double>) {
    forall s {:trigger Retainable(pl, stores[s], s, mass)} :: 0 <= s < |stores| ==> Retainable(pl, stores[s], s, mass)
  }

  ghost predicate AllSorted(stores: seq<Store>) {
    forall s {:trigger StrictIds(stores[s].owned)} :: 0 <= s < |stores| ==> StrictIds(stores[s].owned)
  }

  method AllCanRetain(t: Topology, ghost pl: Placement, stores: seq<Store>, mass: Option<Double>) returns (all: bool)
    requires Realizes(t, pl)
    ensures all <==> AllRetainable(pl, stores, mass)
  {
    all := true;
    for s := 0 to |stores|
      invariant all <==> forall q :: 0 <= q < s ==> Retainable(pl, stores[q], q, mass)
    {
      var can := CanRetain(t, pl, stores[s], s, mass);
      all := all && can;
    }
  }

  method AllStrict(stores: seq<Store>) returns (all: bool)
    ensures all <==> AllSorted(stores)
  {
    all := true;
    for s := 0 to |stores|
      invariant all <==> forall q :: 0 <= q < s ==> StrictIds(stores[q].owned)
    {
      var strict := IsStrict(stores[s].owned);
      all := all && strict;
    }
  }

  /** All nonempty stores are uniform, but not with one mass. */
  ghost predicate MassesDisagree(stores: seq<Store>) {
    && !SomeExplicit(stores)
    && (exists s :: 0 <= s < |stores| && stores[s].owned != [])
    && !(exists m :: AllUniform(stores, m))
  }

  /** The representation that survives: one uniform mass, or explicit masses. */
  ghost predicate Survives(stores: seq<Store>, mass: Option<Double>) {
    match mass
    case None => SomeExplicit(stores) || forall s :: 0 <= s < |stores| ==> stores[s].owned == []
    case Some(m) => AllUniform(stores, m)
  }

  /** What several ranks of valid stores are told: which path is admitted, and what that path requires. */
  ghost function PathVerdict(pl: Placement, stores: seq<Store>, mass: Option<Double>, canonical: bool): Outcome {
    if MassesDisagree(stores) then MassDisagreement
    else if AllRetainable(pl, stores, mass) then Published
    else if canonical && AllSorted(stores) then if SharesDistinct(pl, stores) then Published else ReceiveRejected
    else if GloballyDistinct(stores) then Published else DuplicateIds
  }

  /** The exact outcome of a partition; mass is the representation the stores agree on. */
  ghost function Verdict(pl: Placement, stores: seq<Store>, mass: Option<Double>, canonical: bool): Outcome {
    if !AllValid(stores) then InvalidInput
    else if |stores| == 1 then Published
    else PathVerdict(pl, stores, mass, canonical)
  }

  datatype Path = Refused | RetainPath | SparsePath | RouteAllPath

  /** What is known when a path was admitted. */
  ghost predicate Admitted(pl: Placement, stores: seq<Store>, mass: Option<Double>, canonical: bool, path: Path) {
    match path
    case Refused => PathVerdict(pl, stores, mass, canonical) == MassDisagreement
    case RetainPath => PathVerdict(pl, stores, mass, canonical) == Published && AllRetainable(pl, stores, mass)
    case SparsePath =>
      && AllSorted(stores)
      && PathVerdict(pl, stores, mass, canonical) == if SharesDistinct(pl, stores) then Published else ReceiveRejected
    case RouteAllPath =>
      PathVerdict(pl, stores, mass, canonical) == if GloballyDistinct(stores) then Published else DuplicateIds
  }

  /** Agree on the mass representation and choose the path; no store changes. */
  method ChoosePath(t: Topology, ghost pl: Placement, stores: seq<Store>, canonical: bool)
    returns (path: Path, mass: Option<Double>)
    requires Realizes(t, pl) && AllValid(stores) && AllConsistent(stores)
    ensures Admitted(pl, stores, mass, canonical, path)
    ensures path != Refused ==> PathVerdict(pl, stores, mass, canonical) != MassDisagreement
    ensures path != Refused ==> Survives(stores, mass) && AllSound(stores) && MassesAgree(stores, mass)
  {
    mass := None;
    StoresSound(stores);
    var agreement := AgreeOnMass(stores);
    if agreement.Disagreement? {
      return Refused, None;
    }
    mass := agreement.mass;
    AgreedMasses(stores, mass);
    var retain := AllCanRetain(t, pl, stores, mass);
    var sorted := AllStrict(stores);
    path := if retain then RetainPath else if canonical && sorted then SparsePath else RouteAllPath;
  }

  /** Carry out the admitted path on the live stores. */
  method FollowPath(t: Topology, ghost pl: Placement, ranks: seq<RankStore>, ghost stores: seq<Store>,
                    ghost canonical: bool, path: Path, mass: Option<Double>, mix: ParticleId -> nat, chunk: nat,
                    limit: nat)
    returns (outcome: Outcome)
    requires Realizes(t, pl) && limit > 0 && chunk > 0 && |ranks| == pl.size && Separate(ranks)
    requires |ranks| == |stores| && forall r :: 0 <= r < |ranks| ==> ranks[r].View() == stores[r]
    requires path != Refused && Admitted(pl, stores, mass, canonical, path)
    requires AllValid(stores) && AllSound(stores) && MassesAgree(stores, mass)
    modifies ranks, Arrays(ranks)
    ensures outcome == PathVerdict(pl, stores, mass, canonical)
    ensures outcome == Published ==> Separate(ranks) && AllPublished(pl, stores, mass, Views(ranks))
    ensures outcome != Published ==> Untouched(ranks)
  {
    if path == RetainPath {
      RetainAll(t, pl, ranks, stores, mass, PublishedAt(pl, stores, mass));
      EachPublished(pl, stores, mass, Views(ranks));
      outcome := Published;
    } else if path == SparsePath {
      outcome := MigrateSparse(t, pl, ranks, stores, mass, limit);
    } else {
      outcome := RebuildAll(t, pl, ranks, stores, mass, mix, chunk, limit);
    }
  }

  /** All paths on several ranks, for one abstract placement. */
  method Repartition(t: Topology, ghost pl: Placement, ranks: seq<RankStore>, stores: seq<Store>, canonical: bool,
                     mix: ParticleId -> nat, chunk: nat, limit: nat)
    returns (outcome: Outcome, mass: Option<Double>)
    requires Realizes(t, pl) && limit > 0 && chunk > 0 && |ranks| == pl.size && Separate(ranks)
    requires |ranks| == |stores| && forall r :: 0 <= r < |ranks| ==> ranks[r].View() == stores[r]
    requires AllValid(stores) && AllConsistent(stores)
    modifies ranks, Arrays(ranks)
    ensures outcome == PathVerdict(pl, stores, mass, canonical)
    ensures outcome != MassDisagreement ==> Survives(stores, mass)
    ensures outcome == Published ==> Separate(ranks) && AllPublished(pl, stores, mass, Views(ranks))
    ensures outcome != Published ==> Untouched(ranks)
  {
    var path;
    path, mass := ChoosePath(t, pl, stores, canonical);
    if path == Refused {
      return MassDisagreement, mass;
    }
    outcome := FollowPath(t, pl, ranks, stores, canonical, path, mass, mix, chunk, limit);
  }

  lemma ValidDistinct(stores: seq<Store>)
    requires AllValid(stores)
    ensures forall s :: 0 <= s < |stores| ==> DistinctIds(stores[s].owned)
  {
    forall s | 0 <= s < |stores|
      ensures DistinctIds(stores[s].owned)
    {
      assert ValidStore(stores[s]);
    }
  }

  /** What a partition of valid stores leaves behind when it publishes: wrapped in place on one rank, else shares. */
  ghost predicate Publishes(pl: Placement, stores: seq<Store>, mass: Option<Double>, after: seq<Store>) {
    if |stores| == 1
    then after == [Store(stores[0].uniform, WrappedAll(pl, stores[0].owned))]
    else AllPublished(pl, stores, mass, after)
  }

  // ---- what a partition carries over ----

  /** A quantity of particles, summed over one store. */
  ghost function Held(stores: seq<Store>, f: Body -> int): nat -> int {
    (s: nat) => if s < |stores| then SumInt(f, stores[s].owned) else 0
  }

  /** A quantity of particles, summed over all ranks. */
  ghost function Total(stores: seq<Store>, f: Body -> int): int {
    SumBelow(|stores|, Held(stores, f))
  }

  /** One for every copy of a particle. */
  ghost function Copies(p: Body): Body -> int {
    (q: Body) => if q == p then 1 else 0
  }

  /** One for every particle that p is the wrapped form of. */
  ghost function Origins(box: nat, p: Body): Body -> int {
    (q: Body) => if IsWrapped(box, q, p) then 1 else 0
  }

  /** What wrapping leaves alone. */
  datatype Motion = Motion(id: ParticleId, px: Double, py: Double, pz: Double, mass: Double)

  ghost predicate Has(q: Body, m: Motion) {
    && q.id == m.id && q.state.mass == m.mass
    && q.state.px == m.px && q.state.py == m.py && q.state.pz == m.pz
  }

  ghost function Moving(m: Motion): Body -> int {
    (q: Body) => if Has(q, m) then 1 else 0
  }

  /** Some particle is given that p is the wrapped form of. */
  ghost predicate Given(box: nat, before: seq<Store>, p: Body) {
    exists s, i :: 0 <= s < |before| && 0 <= i < |before[s].owned| && IsWrapped(box, before[s].owned[i], p)
  }

  /** Some rank holds the wrapped form of q. */
  ghost predicate StillHeld(box: nat, after: seq<Store>, q: Body) {
    exists r, k :: 0 <= r < |after| && 0 <= k < |after[r].owned| && IsWrapped(box, q, after[r].owned[k])
  }

  /**
   * No particle is lost, doubled or altered but by wrapping its coordinates: whatever is held afterwards comes from a
   * given particle, every given particle is held, each as often as it was given, and so are identifiers, momenta and
   * masses.
   */
  ghost predicate Carried(box: nat, before: seq<Store>, after: seq<Store>) {
    && (forall r, k :: 0 <= r < |after| && 0 <= k < |after[r].owned| ==> Given(box, before, after[r].owned[k]))
    && (forall s, i :: 0 <= s < |before| && 0 <= i < |before[s].owned| ==> StillHeld(box, after, before[s].owned[i]))
    && (forall p: Body {:trigger Copies(p)} :: Total(after, Copies(p)) == Total(before, Origins(box, p)))
    && (forall m: Motion {:trigger Moving(m)} :: Total(after, Moving(m)) == Total(before, Moving(m)))
  }

  /** A quantity after wrapping. */
  ghost function Then(pl: Placement, f: Body -> int): Body -> int {
    (p: Body) => f(pl.canonical(p))
  }

  ghost function MineSums(pl: Placement, owned: seq<Body>, f: Body -> int): nat -> int {
    (r: nat) => SumInt(f, Mine(pl, owned, r))
  }

  ghost function GatheredSums(pl: Placement, stores: seq<Store>, n: nat, f: Body -> int): nat -> int
    requires n <= |stores|
  {
    (r: nat) => SumInt(f, Gathered(pl, stores, r, n))
  }

  ghost function At(k: nat, value: int): nat -> int {
    (r: nat) => if r == k then value else 0
  }

  lemma MineSumStep(pl: Placement, owned: seq<Body>, f: Body -> int, r: nat)
    requires owned != []
    ensures var n := |owned| - 1;
      MineSums(pl, owned, f)(r) == MineSums(pl, owned[..n], f)(r)
        + At(pl.rank(owned[n]), Then(pl, f)(owned[n]))(r)
  {
    var n := |owned| - 1;
    var last := if pl.rank(owned[n]) == r then [pl.canonical(owned[n])] else [];
    SumIntAppend(f, Mine(pl, owned[..n], r), last);
  }

  /** Selecting by rank loses nothing. */
  lemma {:induction false} MineSumsSum(pl: Placement, owned: seq<Body>, f: Body -> int)
    requires pl.Valid()
    ensures SumBelow(pl.size, MineSums(pl, owned, f)) == SumInt(Then(pl, f), owned)
  {
    if owned == [] {
      SumBelowZero(pl.size, MineSums(pl, owned, f));
    } else {
      var n := |owned| - 1;
      var k, value := pl.rank(owned[n]), Then(pl, f)(owned[n]);
      MineSumsSum(pl, owned[..n], f);
      SumBelowSingle(pl.size, At(k, value), k);
      forall r | 0 <= r < pl.size
        ensures MineSums(pl, owned, f)(r) == MineSums(pl, owned[..n], f)(r) + At(k, value)(r)
      {
        MineSumStep(pl, owned, f, r);
      }
      SumBelowAdd(pl.size, MineSums(pl, owned[..n], f), At(k, value), MineSums(pl, owned, f));
      SumIntPrefix(Then(pl, f), owned, n);
      assert owned[..n + 1] == owned;
    }
  }

  lemma GatheredSumStep(pl: Placement, stores: seq<Store>, n: nat, f: Body -> int, r: nat)
    requires 0 < n <= |stores|
    ensures GatheredSums(pl, stores, n, f)(r) ==
      GatheredSums(pl, stores, n - 1, f)(r) + MineSums(pl, stores[n - 1].owned, f)(r)
  {
    SumIntAppend(f, Gathered(pl, stores, r, n - 1), Mine(pl, stores[n - 1].owned, r));
  }

  lemma OneMoreGathered(pl: Placement, stores: seq<Store>, n: nat, f: Body -> int)
    requires pl.Valid() && 0 < n <= |stores|
    ensures SumBelow(pl.size, GatheredSums(pl, stores, n, f)) ==
      SumBelow(pl.size, GatheredSums(pl, stores, n - 1, f)) + Held(stores, Then(pl, f))(n - 1)
  {
    var before, mine := GatheredSums(pl, stores, n - 1, f), MineSums(pl, stores[n - 1].owned, f);
    MineSumsSum(pl, stores[n - 1].owned, f);
    forall r | 0 <= r < pl.size
      ensures GatheredSums(pl, stores, n, f)(r) == before(r) + mine(r)
    {
      GatheredSumStep(pl, stores, n, f, r);
    }
    SumBelowAdd(pl.size, before, mine, GatheredSums(pl, stores, n, f));
  }

  lemma NothingGathered(pl: Placement, stores: seq<Store>, f: Body -> int)
    ensures SumBelow(pl.size, GatheredSums(pl, stores, 0, f)) == 0
  {
    SumBelowZero(pl.size, GatheredSums(pl, stores, 0, f));
  }

  lemma {:induction false} GatheredSumsSum(pl: Placement, stores: seq<Store>, n: nat, f: Body -> int)
    requires pl.Valid() && n <= |stores|
    ensures SumBelow(pl.size, GatheredSums(pl, stores, n, f)) == SumBelow(n, Held(stores, Then(pl, f)))
  {
    if n == 0 {
      NothingGathered(pl, stores, f);
    } else {
      GatheredSumsSum(pl, stores, n - 1, f);
      OneMoreGathered(pl, stores, n, f);
    }
  }

  lemma {:induction false} WrappedSum(pl: Placement, owned: seq<Body>, f: Body -> int)
    ensures SumInt(f, WrappedAll(pl, owned)) == SumInt(Then(pl, f), owned)
  {
    if owned != [] {
      WrappedSum(pl, owned[1..], f);
      assert WrappedAll(pl, owned)[1..] == WrappedAll(pl, owned[1..]);
    }
  }

  /** A publication holds in total what was given, wrapped. */
  lemma TotalCarried(pl: Placement, stores: seq<Store>, mass: Option<Double>, after: seq<Store>, f: Body -> int)
    requires pl.Valid() && pl.size == |stores| && Publishes(pl, stores, mass, after)
    ensures Total(after, f) == Total(stores, Then(pl, f))
  {
    if |stores| == 1 {
      WrappedSum(pl, stores[0].owned, f);
      SumBelowSingle(1, Held(after, f), 0);
      SumBelowSingle(1, Held(stores, Then(pl, f)), 0);
    } else {
      PublishedHoldsShares(pl, stores, mass, after);
      forall r | 0 <= r < |after|
        ensures Held(after, f)(r) == GatheredSums(pl, stores, |stores|, f)(r)
      {
        SumIntPermutation(f, after[r].owned, Gathered(pl, stores, r, |stores|));
      }
      SumBelowEqual(pl.size, Held(after, f), GatheredSums(pl, stores, |stores|, f));
      GatheredSumsSum(pl, stores, |stores|, f);
    }
  }

  lemma TotalEqual(stores: seq<Store>, f: Body -> int, g: Body -> int)
    requires forall p :: f(p) == g(p)
    ensures Total(stores, f) == Total(stores, g)
  {
    forall s | 0 <= s < |stores|
      ensures Held(stores, f)(s) == Held(stores, g)(s)
    {
      SumIntCongruence(f, g, stores[s].owned);
    }
    SumBelowEqual(|stores|, Held(stores, f), Held(stores, g));
  }

  lemma CopiesCarried(t: Topology, pl: Placement, stores: seq<Store>, mass: Option<Double>, after: seq<Store>, p: Body)
    requires Realizes(t, pl) && pl.size == |stores| && Publishes(pl, stores, mass, after)
    ensures Total(after, Copies(p)) == Total(stores, Origins(t.box, p))
  {
    TotalCarried(pl, stores, mass, after, Copies(p));
    forall q: Body
      ensures Then(pl, Copies(p))(q) == Origins(t.box, p)(q)
    {
      assert Agrees(t, pl, q);
    }
    TotalEqual(stores, Then(pl, Copies(p)), Origins(t.box, p));
  }

  lemma MotionCarried(t: Topology, pl: Placement, stores: seq<Store>, mass: Option<Double>, after: seq<Store>,
                      m: Motion)
    requires Realizes(t, pl) && pl.size == |stores| && Publishes(pl, stores, mass, after)
    ensures Total(after, Moving(m)) == Total(stores, Moving(m))
  {
    TotalCarried(pl, stores, mass, after, Moving(m));
    forall q: Body
      ensures Then(pl, Moving(m))(q) == Moving(m)(q)
    {
      assert Agrees(t, pl, q);
    }
    TotalEqual(stores, Then(pl, Moving(m)), Moving(m));
  }

  lemma HeldIsGiven(t: Topology, pl: Placement, stores: seq<Store>, mass: Option<Double>, after: seq<Store>, r: nat,
                    k: nat)
    requires Realizes(t, pl) && pl.size == |stores| && Publishes(pl, stores, mass, after)
    requires r < |after| && k < |after[r].owned|
    ensures Given(t.box, stores, after[r].owned[k])
  {
    var s, i := 0, k;
    if |stores| > 1 {
      PublishedHoldsShares(pl, stores, mass, after);
      s, i := AfterOrigin(pl, stores, after, r, k);
    }
    assert Agrees(t, pl, stores[s].owned[i]);
  }

  lemma GivenIsStillHeld(t: Topology, pl: Placement, stores: seq<Store>, mass: Option<Double>, after: seq<Store>,
                         s: nat, i: nat)
    requires Realizes(t, pl) && pl.size == |stores| && Publishes(pl, stores, mass, after)
    requires s < |stores| && i < |stores[s].owned|
    ensures StillHeld(t.box, after, stores[s].owned[i])
  {
    var r, k := 0, i;
    if |stores| > 1 {
      r := pl.rank(stores[s].owned[i]);
      k := PublishedHas(pl, stores, mass, after, s, i);
    }
    assert Agrees(t, pl, stores[s].owned[i]);
    assert IsWrapped(t.box, stores[s].owned[i], after[r].owned[k]);
  }

  /** Every publication carries over exactly what was given. */
  lemma Conservation(t: Topology, stores: seq<Store>, mass: Option<Double>, after: seq<Store>)
    requires t.Valid() && |stores| == t.Size() && Publishes(PlacementOf(t), stores, mass, after)
    ensures Carried(t.box, stores, after)
  {
    var pl := PlacementOf(t);
    PlacementRealizes(t);
    forall r, k | 0 <= r < |after| && 0 <= k < |after[r].owned|
      ensures Given(t.box, stores, after[r].owned[k])
    {
      HeldIsGiven(t, pl, stores, mass, after, r, k);
    }
    forall s, i | 0 <= s < |stores| && 0 <= i < |stores[s].owned|
      ensures StillHeld(t.box, after, stores[s].owned[i])
    {
      GivenIsStillHeld(t, pl, stores, mass, after, s, i);
    }
    forall p: Body
      ensures Total(after, Copies(p)) == Total(stores, Origins(t.box, p))
    {
      CopiesCarried(t, pl, stores, mass, after, p);
    }
    forall m: Motion
      ensures Total(after, Moving(m)) == Total(stores, Moving(m))
    {
      MotionCarried(t, pl, stores, mass, after, m);
    }
  }

  /**
   * Repartition the particles of all ranks. On one rank coordinates are wrapped in place and the order is kept;
   * on several ranks every store becomes its rank's share in strict identifier order, by whichever path is admitted.
   * Any failure leaves every rank's array, its contents and the mass representation as they were.
   */
  method PartitionDomain(t: Topology, ranks: seq<RankStore>, canonical: bool, mix: ParticleId -> nat, chunk: nat,
                         limit: nat)
    returns (outcome: Outcome, mass: Option<Double>, canonicalAfter: bool)
    requires t.Valid() && limit > 0 && chunk > 0 && |ranks| == t.Size()
    requires Separate(ranks) && AllConsistent(Views(ranks))
    modifies ranks, Arrays(ranks)
    ensures outcome == Verdict(PlacementOf(t), old(Views(ranks)), mass, canonical)
    ensures outcome !in {InvalidInput, MassDisagreement} && t.Size() > 1 ==> Survives(old(Views(ranks)), mass)
    ensures outcome == Published ==>
      Separate(ranks) && Publishes(PlacementOf(t), old(Views(ranks)), mass, Views(ranks))
    ensures outcome == Published ==> Carried(t.box, old(Views(ranks)), Views(ranks))
    ensures outcome != Published ==> Untouched(ranks)
    ensures canonicalAfter <==> canonical || outcome == Published
  {
    ghost var pl := PlacementOf(t);
    PlacementRealizes(t);
    var stores := Views(ranks);
    mass, canonicalAfter := None, canonical;
    var valid := ValidateAll(stores);
    if !valid {
      return InvalidInput, None, canonical;
    }
    if |ranks| == 1 {
      WrapInPlace(t, pl, ranks[0].primary);
      Conservation(t, stores, mass, Views(ranks));
      return Published, ranks[0].uniform, true;
    }
    outcome, mass := Repartition(t, pl, ranks, stores, canonical, mix, chunk, limit);
    if outcome == Published {
      Conservation(t, stores, mass, Views(ranks));
    }
    canonicalAfter := canonical || outcome == Published;
  }

  /** Unique identifiers are never refused: only invalid input or masses that disagree stop such a partition. */
  lemma DistinctIsPublished(pl: Placement, stores: seq<Store>, mass: Option<Double>, canonical: bool)
    requires pl.Valid() && AllValid(stores) && GloballyDistinct(stores)
    ensures Verdict(pl, stores, mass, canonical) ==
            if |stores| > 1 && MassesDisagree(stores) then MassDisagreement else Published
  {
    GloballyDistinctShares(pl, stores);
  }

  /** Stable identifier order is published exactly on several ranks or by a single store that had it already. */
  lemma OrderIsPublished(pl: Placement, stores: seq<Store>, mass: Option<Double>, after: seq<Store>)
    requires pl.Valid() && Publishes(pl, stores, mass, after)
    ensures AllSorted(after) <==> (|stores| == 1 ==> StrictIds(stores[0].owned))
  {
    if |stores| == 1 {
      WrappedOrder(pl, stores[0].owned);
      assert AllSorted(after) <==> StrictIds(after[0].owned);
    } else {
      forall s | 0 <= s < |after|
        ensures StrictIds(after[s].owned)
      {
        assert IsPublished(pl, stores, s, after[s].owned);
      }
    }
  }

  /** All admitted paths publish the same stores: a publication is determined by the input and the agreed mass. */
  lemma PathsAgree(t: Topology, stores: seq<Store>, mass: Option<Double>, a: seq<Store>, b: seq<Store>)
    requires t.Valid() && AllPublished(PlacementOf(t), stores, mass, a) && AllPublished(PlacementOf(t), stores, mass, b)
    ensures a == b
  {
    forall r | 0 <= r < |a|
      ensures a[r] == b[r]
    {
      PublishedUnique(PlacementOf(t), stores, r, a[r].owned, b[r].owned);
    }
  }

  /** Every published particle sits on the one rank whose slab contains its cell. */
  lemma PublishedInSlab(t: Topology, stores: seq<Store>, mass: Option<Double>, after: seq<Store>, r: nat, p: Body)
    requires t.Valid() && |stores| == t.Size() && AllPublished(PlacementOf(t), stores, mass, after)
    requires r < |after| && p in after[r].owned
    ensures forall q :: 0 <= q < t.Size() ==> (InSlab(t, q, CellOf(t, p.state.x)) <==> q == r)
  {
    var pl := PlacementOf(t);
    PlacementRealizes(t);
    assert Agrees(t, pl, p);
    assert IsPublished(pl, stores, r, after[r].owned);
    assert multiset(after[r].owned)[p] > 0;
    assert pl.rank(p) == r;
    OwnerIsUnique(t, p.state.x);
    forall q | 0 <= q < t.Size()
      ensures InSlab(t, q, CellOf(t, p.state.x)) <==> q == r
    {
      assert q == Owner(t, p.state.x) <==> InSlab(t, q, CellOf(t, p.state.x));
    }
  }

  // ---- worlds the checks do not refuse ----

  /** A box of four units over four planes, on one or two ranks. */
  ghost predicate FourUnits(t: Topology, ends: seq<nat>) {
    t.Valid() && t.Measured() && t.box == 4 && t.planes == 4 && t.ends == ends
  }

  lemma FourUnitsExist(box: nat, planes: nat, two: bool) returns (t: Topology)
    requires box == 4 && planes == 4
    ensures FourUnits(t, if two then [2, 4] else [4])
  {
    var ends := SlabEnds(planes, two);
    UnitCells(box, planes);
    t := TopologyExists(box, planes, ends);
  }

  lemma SlabEnds(planes: nat, two: bool) returns (ends: seq<nat>)
    requires planes == 4
    ensures ends == (if two then [2, 4] else [4]) && IsTable(ends, planes)
  {
    ends := if two then [2, 4] else [4];
  }

  /** A particle at rest on the x axis, with the least mass. */
  function RestingBody(id: ParticleId, x: nat): Body {
    Particle(id, Phase(Double(false, x), POSITIVE_ZERO, POSITIVE_ZERO, POSITIVE_ZERO, POSITIVE_ZERO, POSITIVE_ZERO,
      Double(false, 1)))
  }

  /** One identifier on two ranks, each particle on its own slab. */
  const REPEATED := [Store(None, [RestingBody(7, 0)]), Store(None, [RestingBody(7, 3)])]

  lemma RestsInBox(t: Topology, id: ParticleId, x: nat)
    requires t.Valid() && t.box == 4 && x < 4
    ensures Wrapped(t.box, RestingBody(id, x)) == RestingBody(id, x) && Sound(RestingBody(id, x))
    ensures WrappedBits(Double(false, x), t.box) == x
  {
  }

  lemma CellOfUnits(t: Topology, ends: seq<nat>, x: nat)
    requires FourUnits(t, ends) && x < 4
    ensures CellOf(t, Double(false, x)) == x
  {
    UnitCells(t.box, t.planes);
    UnitCell(x);
    assert t.cell(x) == ClampedCell(x, CellSize(t.box, t.planes), t.planes);
  }

  lemma OwnerInTwoSlabs(t: Topology, x: nat, r: nat)
    requires FourUnits(t, [2, 4]) && x < 4 && r == x / 2
    ensures Owner(t, Double(false, x)) == r
  {
    CellOfUnits(t, [2, 4], x);
    OwnerIsUnique(t, Double(false, x));
    assert InSlab(t, r, x);
  }

  /** A store of one resting particle on its own slab. */
  lemma RestingStore(t: Topology, pl: Placement, id: ParticleId, x: nat, r: nat)
    requires FourUnits(t, [2, 4]) && Realizes(t, pl) && x < 4 && r == x / 2
    ensures var store := Store(None, [RestingBody(id, x)]);
      && ValidStore(store) && store.Consistent() && Retainable(pl, store, r, None)
      && WrappedAll(pl, store.owned) == store.owned
  {
    OwnerInTwoSlabs(t, x, r);
    RestsInBox(t, id, x);
    assert Agrees(t, pl, RestingBody(id, x));
  }

  lemma RepeatedIsRetained(t: Topology, pl: Placement)
    requires FourUnits(t, [2, 4]) && Realizes(t, pl)
    ensures AllValid(REPEATED) && AllConsistent(REPEATED) && AllRetainable(pl, REPEATED, None)
    ensures forall s :: 0 <= s < |REPEATED| ==> WrappedAll(pl, REPEATED[s].owned) == REPEATED[s].owned
  {
    RestingStore(t, pl, 7, 0, 0);
    RestingStore(t, pl, 7, 3, 1);
  }

  /** The retain-all path publishes this world, repeated identifier and all. */
  lemma RepetitionIsPublished() returns (t: Topology)
    ensures FourUnits(t, [2, 4])
    ensures t.Size() == |REPEATED| && AllValid(REPEATED) && AllConsistent(REPEATED)
    ensures var pl := PlacementOf(t);
      && AllRetainable(pl, REPEATED, None) && Survives(REPEATED, None)
      && Verdict(pl, REPEATED, None, false) == Verdict(pl, REPEATED, None, true) == Published
      && AllPublished(pl, REPEATED, None, REPEATED)
    ensures !GloballyDistinct(REPEATED)
  {
    t := FourUnitsExist(4, 4, true);
    RepeatedIsPublished(t);
  }

  lemma RepeatedIsPublished(t: Topology)
    requires FourUnits(t, [2, 4])
    ensures t.Size() == |REPEATED| && AllValid(REPEATED) && AllConsistent(REPEATED)
    ensures var pl := PlacementOf(t);
      && AllRetainable(pl, REPEATED, None) && Survives(REPEATED, None)
      && Verdict(pl, REPEATED, None, false) == Verdict(pl, REPEATED, None, true) == Published
      && AllPublished(pl, REPEATED, None, REPEATED)
    ensures !GloballyDistinct(REPEATED)
  {
    var pl := PlacementOf(t);
    PlacementRealizes(t);
    RepeatedIsRetained(t, pl);
    assert REPEATED[0].owned != [] && REPEATED[0].uniform.None?;
    PublishedAsGiven(pl, REPEATED);
    assert Twins(REPEATED, 0, 0, 1, 0);
  }

  /** A retainable world that is wrapped already is published as it is. */
  lemma PublishedAsGiven(pl: Placement, stores: seq<Store>)
    requires pl.Valid() && pl.size == |stores| && AllRetainable(pl, stores, None)
    requires forall s :: 0 <= s < |stores| ==>
      stores[s].uniform == None && WrappedAll(pl, stores[s].owned) == stores[s].owned
    ensures AllPublished(pl, stores, None, stores)
  {
    forall s | 0 <= s < |stores|
      ensures stores[s].uniform == None && IsPublished(pl, stores, s, stores[s].owned)
    {
      RetainedPublished(pl, stores, None, s);
    }
  }

  /** A valid store with descending identifiers. */
  const DESCENDING := Store(None, [RestingBody(9, 1), RestingBody(7, 1)])

  /** One rank publishes this store as it is, descending identifiers and all. */
  lemma DescendingIsPublished() returns (t: Topology)
    ensures FourUnits(t, [4])
    ensures t.Size() == 1 && AllValid([DESCENDING]) && AllConsistent([DESCENDING])
    ensures var pl := PlacementOf(t);
      && Verdict(pl, [DESCENDING], None, false) == Verdict(pl, [DESCENDING], None, true) == Published
      && Publishes(pl, [DESCENDING], None, [DESCENDING])
    ensures !AllSorted([DESCENDING])
  {
    t := FourUnitsExist(4, 4, false);
    DescendingStore(t);
  }

  lemma DescendingStore(t: Topology)
    requires FourUnits(t, [4])
    ensures t.Size() == 1 && AllValid([DESCENDING]) && AllConsistent([DESCENDING])
    ensures var pl := PlacementOf(t);
      && Verdict(pl, [DESCENDING], None, false) == Verdict(pl, [DESCENDING], None, true) == Published
      && Publishes(pl, [DESCENDING], None, [DESCENDING])
    ensures !AllSorted([DESCENDING])
  {
    PlacementRealizes(t);
    DescendingIsValid(t);
    DescendingIsWrapped(t, PlacementOf(t));
    assert DESCENDING.owned[1].id < DESCENDING.owned[0].id;
    assert !StrictIds([DESCENDING][0].owned);
  }

  lemma DescendingIsValid(t: Topology)
    requires FourUnits(t, [4])
    ensures AllValid([DESCENDING]) && AllConsistent([DESCENDING])
  {
    RestsInBox(t, 9, 1);
    RestsInBox(t, 7, 1);
    assert ValidStore(DESCENDING);
  }

  lemma RestingStays(t: Topology, pl: Placement, id: ParticleId)
    requires FourUnits(t, [4]) && Realizes(t, pl)
    ensures pl.canonical(RestingBody(id, 1)) == RestingBody(id, 1)
  {
    RestsInBox(t, id, 1);
    assert Agrees(t, pl, RestingBody(id, 1));
  }

  lemma DescendingIsWrapped(t: Topology, pl: Placement)
    requires FourUnits(t, [4]) && Realizes(t, pl)
    ensures WrappedAll(pl, DESCENDING.owned) == DESCENDING.owned
  {
    RestingStays(t, pl, 9);
    RestingStays(t, pl, 7);
  }
}
