/** Ghost exchange: every rank receives exactly the foreign particles its slab sees from slabs close enough. */
module GhostExchange {
  import opened Collections
  import opened Binary64
  import opened ExchangeBuffer
  import opened SlabLayout
  import opened SlabVisibility
  import opened ParticleStores
  import opened DomainDecomposition
  import BoundedMigration

  /** A force source without momentum. */
  datatype Source = Source(x: Double, y: Double, z: Double, mass: Double)

  type Ghost = Particle<Source>

  /** g stands for p: its identifier and mass are those of p, its coordinates the wrapped ones of p. */
  ghost predicate Stands(t: Topology, p: Body, g: Ghost) {
    && g.id == p.id && g.state.mass == p.state.mass
    && g.state.x == CanonicalCoordinate(p.state.x, t.box)
    && g.state.y == CanonicalCoordinate(p.state.y, t.box)
    && g.state.z == CanonicalCoordinate(p.state.z, t.box)
  }

  /** The record that stands for a particle. */
  ghost function GhostOf(t: Topology, p: Body): (g: Ghost)
    ensures Stands(t, p, g) && forall h :: Stands(t, p, h) ==> h == g
  {
    Particle(p.id, Source(CanonicalCoordinate(p.state.x, t.box), CanonicalCoordinate(p.state.y, t.box),
      CanonicalCoordinate(p.state.z, t.box), p.state.mass))
  }

  /** The slab of rank d is within the radius of the particle, around the torus. */
  ghost predicate Visible(t: Topology, p: Body, d: nat, r: real)
    requires t.Valid() && d < t.Size()
  {
    Sees(BoxLength(t), SlabInterval(t, d), Position(t, p.state.x), r)
  }

  /** The routing test: the image nearest to the slab center is within the radius. */
  function Tested(t: Topology, x: Double, d: nat, r: real): bool
    requires t.Valid() && d < t.Size()
  {
    PositiveBox(t);
    DistanceToSlab(SlabInterval(t, d), NearestImage(BoxLength(t), SlabInterval(t, d), Position(t, x))) <= r
  }

  lemma TestDecides(t: Topology, p: Body, d: nat, r: real)
    requires t.Valid() && d < t.Size() && r >= 0.0
    ensures Tested(t, p.state.x, d, r) <==> Visible(t, p, d, r)
  {
    SlabPositions(t, d);
    PositiveBox(t);
    NearestImageDecides(BoxLength(t), SlabInterval(t, d), Position(t, p.state.x), r);
  }

  /** The two slabs are close enough by whole planes, and slab d sees the particle. */
  ghost predicate Exchanged(t: Topology, s: nat, p: Body, d: nat, r: real)
    requires t.Valid() && s < t.Size() && d < t.Size()
  {
    CanExchange(t, SlabInterval(t, s), SlabInterval(t, d), r) && Visible(t, p, d, r)
  }

  /** Every particle sits on the rank owning its cell, as a partition leaves it. */
  ghost predicate OwnedBy(t: Topology, owned: seq<Body>, rank: nat)
    requires t.Valid()
  {
    forall p :: p in owned ==> Owner(t, p.state.x) == rank
  }

  /** A particle inside its owner's slab is exchanged with every slab that sees it. */
  lemma InsideIsExchanged(t: Topology, s: nat, p: Body, d: nat, r: real)
    requires t.Valid() && d < t.Size() && r >= 0.0 && Owner(t, p.state.x) == s && WithinOwner(t, p.state.x)
    ensures Exchanged(t, s, p, d, r) <==> Visible(t, p, d, r)
  {
    if Visible(t, p, d, r) {
      PruningIsSafe(t, s, d, Position(t, p.state.x), r);
    }
  }

  // ---- routing ----

  /** The routing test and the record as abstract functions: proofs about routes do not see the geometry. */
  datatype Vision = Vision(test: (Body, nat) -> bool, record: Body -> Ghost)

  ghost predicate Agrees(t: Topology, r: real, v: Vision, p: Body, d: nat)
    requires t.Valid() && d < t.Size()
  {
    v.test(p, d) == Tested(t, p.state.x, d, r) && v.record(p) == GhostOf(t, p)
  }

  ghost predicate Shows(t: Topology, r: real, v: Vision)
    requires t.Valid()
  {
    && (forall p: Body, d: nat {:trigger Agrees(t, r, v, p, d)} :: d < t.Size() ==> Agrees(t, r, v, p, d))
    && (forall p: Body {:trigger v.record(p)} :: v.record(p).id == p.id)
  }

  ghost function VisionOf(t: Topology, r: real): Vision
    requires t.Valid()
  {
    Vision((p: Body, d: nat) => d < t.Size() && Tested(t, p.state.x, d, r), (p: Body) => GhostOf(t, p))
  }

  lemma VisionShows(t: Topology, r: real)
    requires t.Valid()
    ensures Shows(t, r, VisionOf(t, r))
  {
  }

  /** The records of one particle, by candidate. */
  ghost function Row(v: Vision, p: Body, candidates: seq<nat>): seq<Routed<Source>> {
    if candidates == [] then []
    else
      var d := candidates[|candidates| - 1];
      Row(v, p, candidates[..|candidates| - 1]) + if v.test(p, d) then [Routed(d, v.record(p))] else []
  }

  ghost function GhostRoutes(v: Vision, owned: seq<Body>, candidates: seq<nat>): seq<Routed<Source>> {
    if owned == [] then []
    else GhostRoutes(v, owned[..|owned| - 1], candidates) + Row(v, owned[|owned| - 1], candidates)
  }

  lemma {:induction false} RowMembers(v: Vision, p: Body, candidates: seq<nat>, record: Routed<Source>)
    ensures record in Row(v, p, candidates) <==>
      exists d :: d in candidates && v.test(p, d) && record == Routed(d, v.record(p))
  {
    if candidates != [] {
      RowMembers(v, p, candidates[..|candidates| - 1], record);
      assert candidates == candidates[..|candidates| - 1] + [candidates[|candidates| - 1]];
    }
  }

  lemma {:induction false} RouteMembers(v: Vision, owned: seq<Body>, candidates: seq<nat>, record: Routed<Source>)
    ensures record in GhostRoutes(v, owned, candidates) <==> exists p :: p in owned && record in Row(v, p, candidates)
  {
    if owned != [] {
      var n := |owned| - 1;
      RouteMembers(v, owned[..n], candidates, record);
      assert owned == owned[..n] + [owned[n]];
      assert record in Row(v, owned[n], candidates) ==> owned[n] in owned;
      if p :| p in owned && record in Row(v, p, candidates) {
        assert p in owned[..n] || p == owned[n];
      }
    }
  }

  lemma {:induction false} RowDistinct(v: Vision, p: Body, candidates: seq<nat>)
    requires StrictlyIncreasing(candidates)
    ensures DistinctRoutes(Row(v, p, candidates))
  {
    if candidates != [] {
      var n := |candidates| - 1;
      RowDistinct(v, p, candidates[..n]);
      forall record | record in Row(v, p, candidates[..n])
        ensures record.destination != candidates[n]
      {
        RowMembers(v, p, candidates[..n], record);
      }
    }
  }

  lemma JoinRoutes(a: seq<Routed<Source>>, b: seq<Routed<Source>>)
    requires DistinctRoutes(a) && DistinctRoutes(b) && forall x, y :: x in a && y in b ==>
      x.particle.id != y.particle.id
    ensures DistinctRoutes(a + b)
  {
    forall i, j | 0 <= i < j < |a + b|
      ensures !SameRoute((a + b)[i], (a + b)[j])
    {
      assert i < |a| ==> a[i] in a;
      assert j >= |a| ==> b[j - |a|] in b;
    }
  }

  /** The particle and the candidate a record stands for. */
  lemma RecordOrigin(v: Vision, owned: seq<Body>, candidates: seq<nat>, record: Routed<Source>)
    returns (p: Body, d: nat)
    requires record in GhostRoutes(v, owned, candidates)
    ensures p in owned && d in candidates && v.test(p, d) && record == Routed(d, v.record(p))
  {
    RouteMembers(v, owned, candidates, record);
    p :| p in owned && record in Row(v, p, candidates);
    RowMembers(v, p, candidates, record);
    d :| d in candidates && v.test(p, d) && record == Routed(d, v.record(p));
  }

  lemma {:induction false} RoutesAreDistinct(v: Vision, owned: seq<Body>, candidates: seq<nat>)
    requires StrictlyIncreasing(candidates) && DistinctIds(owned) && forall p: Body :: v.record(p).id == p.id
    ensures DistinctRoutes(GhostRoutes(v, owned, candidates))
  {
    if owned != [] {
      var n := |owned| - 1;
      var before, row := GhostRoutes(v, owned[..n], candidates), Row(v, owned[n], candidates);
      RoutesAreDistinct(v, owned[..n], candidates);
      RowDistinct(v, owned[n], candidates);
      forall x, y | x in before && y in row
        ensures x.particle.id != y.particle.id
      {
        var p, d := RecordOrigin(v, owned[..n], candidates, x);
        RowMembers(v, owned[n], candidates, y);
        var k :| 0 <= k < n && owned[..n][k] == p;
        assert owned[k].id != owned[n].id;
      }
      JoinRoutes(before, row);
    }
  }

  /** Apply the routing test to one particle and one rank. */
  method TestRank(t: Topology, ghost v: Vision, r: real, p: Body, d: nat) returns (seen: bool, record: Ghost)
    requires t.Valid() && Shows(t, r, v) && d < t.Size()
    ensures seen == v.test(p, d) && record == v.record(p)
  {
    assert Agrees(t, r, v, p, d);
    seen := Tested(t, p.state.x, d, r);
    var state := p.state;
    record := Particle(p.id, Source(CanonicalCoordinate(state.x, t.box), CanonicalCoordinate(state.y, t.box),
      CanonicalCoordinate(state.z, t.box), state.mass));
  }

  ghost predicate AreRanks(t: Topology, ranks: seq<nat>) {
    forall k :: 0 <= k < |ranks| ==> ranks[k] < t.Size()
  }

  method BuildRow(t: Topology, ghost v: Vision, r: real, p: Body, candidates: seq<nat>)
    returns (row: seq<Routed<Source>>)
    requires t.Valid() && Shows(t, r, v) && AreRanks(t, candidates)
    ensures row == Row(v, p, candidates)
  {
    row := [];
    for k := 0 to |candidates|
      invariant row == Row(v, p, candidates[..k])
    {
      assert candidates[..k + 1][..k] == candidates[..k];
      var seen, record := TestRank(t, v, r, p, candidates[k]);
      if seen {
        row := row + [Routed(candidates[k], record)];
      }
    }
    assert candidates[..|candidates|] == candidates;
  }

  method BuildGhostRoutes(t: Topology, ghost v: Vision, r: real, owned: seq<Body>, candidates: seq<nat>)
    returns (routed: seq<Routed<Source>>)
    requires t.Valid() && Shows(t, r, v) && AreRanks(t, candidates)
    ensures routed == GhostRoutes(v, owned, candidates)
  {
    routed := [];
    for i := 0 to |owned|
      invariant routed == GhostRoutes(v, owned[..i], candidates)
    {
      assert owned[..i + 1][..i] == owned[..i];
      var row := BuildRow(t, v, r, owned[i], candidates);
      routed := routed + row;
    }
    assert owned[..|owned|] == owned;
  }

  ghost predicate AreCandidates(t: Topology, rank: nat, r: real, candidates: seq<nat>)
    requires t.Valid() && rank < t.Size()
  {
    forall d: nat :: d in candidates <==>
      d < t.Size() && d != rank && CanExchange(t, SlabInterval(t, rank), SlabInterval(t, d), r)
  }

  /** The records a rank must send: one for every other rank with which one of its particles is exchanged. */
  ghost predicate Sent(t: Topology, owned: seq<Body>, rank: nat, r: real, record: Routed<Source>)
    requires t.Valid() && rank < t.Size()
  {
    exists p :: p in owned && SentFor(t, p, rank, r, record)
  }

  ghost predicate SentFor(t: Topology, p: Body, rank: nat, r: real, record: Routed<Source>)
    requires t.Valid() && rank < t.Size()
  {
    && 0 <= record.destination < t.Size() && record.destination != rank
    && Exchanged(t, rank, p, record.destination, r) && Stands(t, p, record.particle)
  }

  /** Routing misses no pair to be exchanged and adds none. */
  lemma RoutesAreVisible(t: Topology, v: Vision, owned: seq<Body>, rank: nat, candidates: seq<nat>, r: real,
                         record: Routed<Source>)
    requires t.Valid() && rank < t.Size() && r >= 0.0 && Shows(t, r, v) && AreCandidates(t, rank, r, candidates)
    ensures record in GhostRoutes(v, owned, candidates) <==> Sent(t, owned, rank, r, record)
  {
    if record in GhostRoutes(v, owned, candidates) {
      RoutedIsSent(t, v, owned, rank, candidates, r, record);
    }
    if Sent(t, owned, rank, r, record) {
      SentIsRouted(t, v, owned, rank, candidates, r, record);
    }
  }

  lemma RoutedIsSent(t: Topology, v: Vision, owned: seq<Body>, rank: nat, candidates: seq<nat>, r: real,
                     record: Routed<Source>)
    requires t.Valid() && rank < t.Size() && r >= 0.0 && Shows(t, r, v) && AreCandidates(t, rank, r, candidates)
    requires record in GhostRoutes(v, owned, candidates)
    ensures Sent(t, owned, rank, r, record)
  {
    var p, d := RecordOrigin(v, owned, candidates, record);
    assert d in candidates;
    assert Agrees(t, r, v, p, d);
    TestDecides(t, p, d, r);
    assert SentFor(t, p, rank, r, record);
  }

  lemma SentIsRouted(t: Topology, v: Vision, owned: seq<Body>, rank: nat, candidates: seq<nat>, r: real,
                     record: Routed<Source>)
    requires t.Valid() && rank < t.Size() && r >= 0.0 && Shows(t, r, v)
    requires AreCandidates(t, rank, r, candidates) && Sent(t, owned, rank, r, record)
    ensures record in GhostRoutes(v, owned, candidates)
  {
    var p :| p in owned && SentFor(t, p, rank, r, record);
    var d: nat := record.destination;
    TestDecides(t, p, d, r);
    assert Agrees(t, r, v, p, d);
    assert d in candidates && record == Routed(d, v.record(p));
    RowMembers(v, p, candidates, record);
    RouteMembers(v, owned, candidates, record);
  }

  /** One rank's outgoing ghosts in routing order: exactly the pairs to be exchanged, each once. */
  ghost predicate GhostsRouted(t: Topology, owned: seq<Body>, rank: nat, r: real, routed: seq<Routed<Source>>)
    requires t.Valid() && rank < t.Size()
  {
    && DestinationsInside(routed, t.Size()) && RoutingOrder(routed)
    && forall record :: record in routed <==> Sent(t, owned, rank, r, record)
  }

  method RouteGhosts(t: Topology, owned: seq<Body>, rank: nat, r: real) returns (ok: bool, routed: seq<Routed<Source>>)
    requires t.Valid() && rank < t.Size() && r >= 0.0 && DistinctIds(owned)
    ensures ok && GhostsRouted(t, owned, rank, r, routed)
  {
    ghost var v := VisionOf(t, r);
    VisionShows(t, r);
    var candidates := CandidateSlabs(t, rank, r);
    CandidateRanks(t, rank, r, candidates);
    var built := BuildGhostRoutes(t, v, r, owned, candidates);
    RoutesAreDistinct(v, owned, candidates);
    forall record: Routed<Source>
      ensures record in built <==> Sent(t, owned, rank, r, record)
    {
      RoutesAreVisible(t, v, owned, rank, candidates, r, record);
    }
    ok, routed := SortGhosts(t, owned, rank, r, built);
  }

  lemma CandidateRanks(t: Topology, rank: nat, r: real, candidates: seq<nat>)
    requires t.Valid() && rank < t.Size() && AreCandidates(t, rank, r, candidates)
    ensures AreRanks(t, candidates)
  {
    forall k | 0 <= k < |candidates|
      ensures candidates[k] < t.Size()
    {
      assert candidates[k] in candidates;
    }
  }

  method SortGhosts(t: Topology, ghost owned: seq<Body>, rank: nat, r: real, built: seq<Routed<Source>>)
    returns (ok: bool, routed: seq<Routed<Source>>)
    requires t.Valid() && rank < t.Size() && DistinctRoutes(built)
    requires forall record: Routed<Source> :: record in built <==> Sent(t, owned, rank, r, record)
    ensures ok && GhostsRouted(t, owned, rank, r, routed)
  {
    var records := new Routed<Source>[|built|](i requires 0 <= i < |built| => built[i]);
    assert records[..] == built;
    assert !HasNegative(built);
    var error := SortRouteRecords(records);
    routed := records[..];
    forall record: Routed<Source>
      ensures record in routed <==> record in built
    {
      assert record in routed <==> record in multiset(routed);
      assert record in built <==> record in multiset(built);
    }
    ok := error == NoError;
  }

  // ---- admission ----

  /** Rank d owns particle p of rank s, or the particle is exchanged with it. */
  ghost predicate Seen(t: Topology, stores: seq<Store>, d: nat, r: real, s: nat, p: Body)
    requires t.Valid() && d < t.Size()
  {
    s < |stores| && s < t.Size() && p in stores[s].owned && (s == d || Exchanged(t, s, p, d, r))
  }

  /** What a rank must hold as ghosts: the records of all other ranks' particles exchanged with it. */
  ghost predicate ForeignVisible(t: Topology, stores: seq<Store>, d: nat, r: real, g: Ghost)
    requires t.Valid() && d < t.Size()
  {
    exists s: nat, p: Body {:trigger Seen(t, stores, d, r, s, p)} ::
      s != d && Seen(t, stores, d, r, s, p) && Stands(t, p, g)
  }

  /** Rank d would hold particles of two ranks under one identifier. */
  ghost predicate Clash(t: Topology, stores: seq<Store>, d: nat, r: real, a: nat, p: Body, b: nat, q: Body)
    requires t.Valid() && d < t.Size()
  {
    a != b && Seen(t, stores, d, r, a, p) && Seen(t, stores, d, r, b, q) && p.id == q.id
  }

  ghost predicate Clashes(t: Topology, stores: seq<Store>, d: nat, r: real)
    requires t.Valid() && d < t.Size()
  {
    exists a: nat, p: Body, b: nat, q: Body :: Clash(t, stores, d, r, a, p, b, q)
  }

  /** A mass a store may take as a ghost: positive, and its uniform mass if it has one. */
  ghost predicate Fitting(uniform: Option<Double>, mass: Double) {
    mass.IsPositive() && (uniform.Some? ==> mass == uniform.value)
  }

  ghost predicate MassesFit(t: Topology, stores: seq<Store>, d: nat, r: real)
    requires t.Valid() && d < t.Size() && |stores| == t.Size()
  {
    forall s: nat, p: Body {:trigger Seen(t, stores, d, r, s, p)} ::
      s != d && Seen(t, stores, d, r, s, p) ==> Fitting(stores[d].uniform, p.state.mass)
  }

  /** Rank d can take everything it sees. */
  ghost predicate Admits(t: Topology, stores: seq<Store>, d: nat, r: real)
    requires t.Valid() && d < t.Size() && |stores| == t.Size()
  {
    MassesFit(t, stores, d, r) && !Clashes(t, stores, d, r)
  }

  ghost predicate StrictGhosts(ghosts: seq<Ghost>) {
    forall i, j :: 0 <= i < j < |ghosts| ==> ghosts[i].id < ghosts[j].id
  }

  ghost predicate DistinctGhosts(ghosts: seq<Ghost>) {
    forall i, j :: 0 <= i < j < |ghosts| ==> ghosts[i].id != ghosts[j].id
  }

  /** The ghost suffix of a rank: exactly the foreign particles exchanged with it, in strict identifier order. */
  ghost predicate IsGhostSet(t: Topology, stores: seq<Store>, d: nat, r: real, ghosts: seq<Ghost>)
    requires t.Valid() && d < t.Size()
  {
    StrictGhosts(ghosts) && forall g :: g in ghosts <==> ForeignVisible(t, stores, d, r, g)
  }

  /** Every particle exchanged with a rank is stood for by one ghost, the only one with its identifier. */
  lemma ExchangedIsHeld(t: Topology, stores: seq<Store>, d: nat, r: real, ghosts: seq<Ghost>, s: nat, p: Body)
    returns (k: nat)
    requires t.Valid() && d < t.Size() && IsGhostSet(t, stores, d, r, ghosts)
    requires s != d && Seen(t, stores, d, r, s, p)
    ensures k < |ghosts| && Stands(t, p, ghosts[k])
    ensures forall j :: 0 <= j < |ghosts| && ghosts[j].id == p.id ==> j == k
  {
    assert ForeignVisible(t, stores, d, r, GhostOf(t, p));
    k :| 0 <= k < |ghosts| && ghosts[k] == GhostOf(t, p);
    forall j | 0 <= j < |ghosts| && ghosts[j].id == p.id
      ensures j == k
    {
      assert j < k || k < j || j == k;
    }
  }

  /** A store as a partition leaves it: sorted, owned where it is, positions finite. */
  ghost predicate Settled(t: Topology, owned: seq<Body>, rank: nat)
    requires t.Valid()
  {
    StrictIds(owned) && OwnedBy(t, owned, rank) && forall p :: p in owned ==> FinitePosition(p)
  }

  /** A partitioned world; identifiers may repeat between ranks. */
  ghost predicate Partitioned(t: Topology, stores: seq<Store>)
    requires t.Valid()
  {
    && |stores| == t.Size()
    && forall s {:trigger Settled(t, stores[s].owned, s)} :: 0 <= s < |stores| ==> Settled(t, stores[s].owned, s)
  }

  function GhostKey(g: Ghost): int {
    g.id
  }

  ghost predicate AllGhostsRouted(t: Topology, stores: seq<Store>, r: real, routed: seq<seq<Routed<Source>>>)
    requires t.Valid()
  {
    && |routed| == |stores| == t.Size()
    && forall s :: 0 <= s < |stores| ==> GhostsRouted(t, stores[s].owned, s, r, routed[s])
  }

  lemma {:induction false} IncomingMembers(limit: nat, routed: seq<seq<Routed<Source>>>, d: nat, n: nat, g: Ghost)
    requires n <= |routed|
    ensures g in BoundedMigration.World(limit, routed).Incoming(n, d) <==>
      exists s :: 0 <= s < n && Routed(d, g) in routed[s]
  {
    if n > 0 {
      IncomingMembers(limit, routed, d, n - 1, g);
      ToMembers(routed[n - 1], d, g);
    }
  }

  /** Exactly the foreign particles exchanged with a rank arrive there. */
  lemma ArrivalsAreVisible(t: Topology, stores: seq<Store>, r: real, limit: nat, routed: seq<seq<Routed<Source>>>,
                           d: nat, g: Ghost)
    requires t.Valid() && |stores| == t.Size() && d < t.Size() && AllGhostsRouted(t, stores, r, routed)
    ensures g in BoundedMigration.World(limit, routed).Incoming(|routed|, d) <==> ForeignVisible(t, stores, d, r, g)
  {
    IncomingMembers(limit, routed, d, |routed|, g);
    if s :| 0 <= s < |routed| && Routed(d, g) in routed[s] {
      var p := SenderOf(t, stores, r, routed, s, d, g);
      assert Seen(t, stores, d, r, s, p);
    }
    if ForeignVisible(t, stores, d, r, g) {
      var s: nat, p: Body :| s != d && Seen(t, stores, d, r, s, p) && Stands(t, p, g);
      SeenIsRouted(t, stores, r, routed, s, d, p);
    }
  }

  lemma SeenIsRouted(t: Topology, stores: seq<Store>, r: real, routed: seq<seq<Routed<Source>>>, s: nat, d: nat,
                     p: Body)
    requires t.Valid() && |stores| == t.Size() && d < t.Size() && AllGhostsRouted(t, stores, r, routed)
    requires s != d && Seen(t, stores, d, r, s, p)
    ensures Routed(d, GhostOf(t, p)) in routed[s]
  {
    assert GhostsRouted(t, stores[s].owned, s, r, routed[s]);
    assert SentFor(t, p, s, r, Routed(d, GhostOf(t, p)));
    assert Sent(t, stores[s].owned, s, r, Routed(d, GhostOf(t, p)));
  }

  /** Every received record traces back to one particle of the rank that sent it. */
  lemma SenderOf(t: Topology, stores: seq<Store>, r: real, routed: seq<seq<Routed<Source>>>, s: nat, d: nat, g: Ghost)
    returns (p: Body)
    requires t.Valid() && AllGhostsRouted(t, stores, r, routed) && s < |routed| && Routed(d, g) in routed[s]
    ensures d != s && d < t.Size() && Seen(t, stores, d, r, s, p) && g == GhostOf(t, p)
  {
    assert GhostsRouted(t, stores[s].owned, s, r, routed[s]);
    assert Sent(t, stores[s].owned, s, r, Routed(d, g));
    p :| p in stores[s].owned && SentFor(t, p, s, r, Routed(d, g));
  }

  lemma ToHasDistinctIds(routed: seq<Routed<Source>>, d: int)
    requires RoutingOrder(routed)
    ensures DistinctGhosts(To(routed, d))
  {
    ToIncreases(routed, d);
  }

  lemma {:induction false} ToIncreases(routed: seq<Routed<Source>>, d: int)
    requires RoutingOrder(routed)
    ensures StrictGhosts(To(routed, d))
  {
    if routed != [] {
      var n := |routed| - 1;
      ToIncreases(routed[..n], d);
      forall g | g in To(routed[..n], d) && routed[n].destination == d
        ensures g.id < routed[n].particle.id
      {
        ToMembers(routed[..n], d, g);
        var k :| 0 <= k < n && routed[..n][k] == Routed(d, g);
        assert Before(routed[k], routed[n]);
      }
    }
  }

  lemma JoinGhosts(a: seq<Ghost>, b: seq<Ghost>)
    requires DistinctGhosts(a) && DistinctGhosts(b) && forall x, y :: x in a && y in b ==> x.id != y.id
    ensures DistinctGhosts(a + b)
  {
    forall i, j | 0 <= i < j < |a + b|
      ensures (a + b)[i].id != (a + b)[j].id
    {
      assert i < |a| ==> a[i] in a;
      assert j >= |a| ==> b[j - |a|] in b;
    }
  }

  /** Without a clash the arrivals have different identifiers. */
  lemma {:induction false} ArrivalsDistinct(t: Topology, stores: seq<Store>, r: real, limit: nat,
                                            routed: seq<seq<Routed<Source>>>, d: nat, n: nat)
    requires t.Valid() && AllGhostsRouted(t, stores, r, routed) && n <= |routed|
    requires d < t.Size() && !Clashes(t, stores, d, r)
    ensures DistinctGhosts(BoundedMigration.World(limit, routed).Incoming(n, d))
  {
    if n > 0 {
      var w := BoundedMigration.World(limit, routed);
      ArrivalsDistinct(t, stores, r, limit, routed, d, n - 1);
      assert GhostsRouted(t, stores[n - 1].owned, n - 1, r, routed[n - 1]);
      ToHasDistinctIds(routed[n - 1], d);
      forall x, y | x in w.Incoming(n - 1, d) && y in To(routed[n - 1], d)
        ensures x.id != y.id
      {
        SendersDiffer(t, stores, r, limit, routed, d, n - 1, x, y);
      }
      JoinGhosts(w.Incoming(n - 1, d), To(routed[n - 1], d));
    }
  }

  lemma SendersDiffer(t: Topology, stores: seq<Store>, r: real, limit: nat, routed: seq<seq<Routed<Source>>>, d: nat,
                      n: nat, x: Ghost, y: Ghost)
    requires t.Valid() && AllGhostsRouted(t, stores, r, routed) && n < |routed|
    requires d < t.Size() && !Clashes(t, stores, d, r)
    requires x in BoundedMigration.World(limit, routed).Incoming(n, d) && y in To(routed[n], d)
    ensures x.id != y.id
  {
    IncomingMembers(limit, routed, d, n, x);
    var s :| 0 <= s < n && Routed(d, x) in routed[s];
    ToMembers(routed[n], d, y);
    var p := SenderOf(t, stores, r, routed, s, d, x);
    var q := SenderOf(t, stores, r, routed, n, d, y);
    assert !Clash(t, stores, d, r, s, p, n, q);
  }

  method HasEqualNeighbours(ghosts: seq<Ghost>) returns (equal: bool)
    requires SortedBy(GhostKey, ghosts)
    ensures !equal <==> StrictGhosts(ghosts)
  {
    var i := 1;
    while i < |ghosts|
      invariant 1 <= i
      invariant forall k :: 1 <= k < i && k < |ghosts| ==> ghosts[k - 1].id != ghosts[k].id
    {
      if ghosts[i - 1].id == ghosts[i].id {
        return true;
      }
      i := i + 1;
    }
    forall j, k | 0 <= j < k < |ghosts|
      ensures ghosts[j].id < ghosts[k].id
    {
      assert GhostKey(ghosts[j]) <= GhostKey(ghosts[k - 1]) || j == k - 1;
      assert GhostKey(ghosts[k - 1]) <= GhostKey(ghosts[k]) && ghosts[k - 1].id != ghosts[k].id;
    }
    equal := false;
  }

  /** Two-finger scan for a common identifier of two strictly ordered lists. */
  method Collides(owned: seq<Body>, ghosts: seq<Ghost>) returns (collides: bool)
    requires StrictIds(owned) && StrictGhosts(ghosts)
    ensures collides <==> exists i, j :: 0 <= i < |owned| && 0 <= j < |ghosts| && owned[i].id == ghosts[j].id
  {
    var i, j := 0, 0;
    while i < |owned| && j < |ghosts|
      invariant i <= |owned| && j <= |ghosts|
      invariant forall a, b :: 0 <= a < |owned| && 0 <= b < |ghosts| && (a < i || b < j) ==> owned[a].id != ghosts[b].id
      decreases |owned| - i + |ghosts| - j
    {
      if owned[i].id < ghosts[j].id {
        forall b | j <= b < |ghosts|
          ensures owned[i].id != ghosts[b].id
        {
          assert j < b ==> ghosts[j].id < ghosts[b].id;
        }
        i := i + 1;
      } else if ghosts[j].id < owned[i].id {
        forall a | i <= a < |owned|
          ensures owned[a].id != ghosts[j].id
        {
          assert i < a ==> owned[i].id < owned[a].id;
        }
        j := j + 1;
      } else {
        return true;
      }
    }
    collides := false;
  }

  /** A received record is canonical, heavy, of the uniform mass if any, and within the radius of this rank's slab. */
  ghost predicate AdmissibleGhost(t: Topology, g: Ghost, rank: nat, r: real, uniform: Option<Double>)
    requires t.Valid() && rank < t.Size()
  {
    && g.state.x.IsFinite() && g.state.y.IsFinite() && g.state.z.IsFinite()
    && IsCanonical(g.state.x, t.box) && IsCanonical(g.state.y, t.box) && IsCanonical(g.state.z, t.box)
    && g.state.mass.IsPositive() && (uniform.Some? ==> g.state.mass == uniform.value) && Tested(t, g.state.x, rank, r)
  }

  lemma VisibleAdmissible(t: Topology, p: Body, rank: nat, r: real, uniform: Option<Double>)
    requires t.Valid() && rank < t.Size() && r >= 0.0 && Visible(t, p, rank, r) && FinitePosition(p)
    ensures AdmissibleGhost(t, GhostOf(t, p), rank, r, uniform) <==> Fitting(uniform, p.state.mass)
  {
    TestDecides(t, p, rank, r);
    CanonicalIsWrapped(p.state.x, t.box);
    CanonicalIsWrapped(p.state.y, t.box);
    CanonicalIsWrapped(p.state.z, t.box);
  }

  ghost predicate AllAdmissible(t: Topology, ghosts: seq<Ghost>, rank: nat, r: real, uniform: Option<Double>)
    requires t.Valid() && rank < t.Size()
  {
    forall g :: g in ghosts ==> AdmissibleGhost(t, g, rank, r, uniform)
  }

  method CheckGhosts(t: Topology, ghosts: seq<Ghost>, rank: nat, r: real, uniform: Option<Double>) returns (ok: bool)
    requires t.Valid() && rank < t.Size()
    ensures ok <==> AllAdmissible(t, ghosts, rank, r, uniform)
  {
    for i := 0 to |ghosts|
      invariant AllAdmissible(t, ghosts[..i], rank, r, uniform)
    {
      assert ghosts[i] in ghosts;
      assert ghosts[..i + 1] == ghosts[..i] + [ghosts[i]];
      ok := CheckGhost(t, ghosts[i], rank, r, uniform);
      if !ok {
        return;
      }
    }
    assert ghosts[..|ghosts|] == ghosts;
    ok := true;
  }

  /** The checks of one received record. */
  method CheckGhost(t: Topology, g: Ghost, rank: nat, r: real, uniform: Option<Double>) returns (ok: bool)
    requires t.Valid() && rank < t.Size()
    ensures ok <==> AdmissibleGhost(t, g, rank, r, uniform)
  {
    var state := g.state;
    if !state.x.IsFinite() || !state.y.IsFinite() || !state.z.IsFinite() {
      return false;
    }
    if !IsCanonical(state.x, t.box) || !IsCanonical(state.y, t.box) || !IsCanonical(state.z, t.box) {
      return false;
    }
    if !state.mass.IsPositive() || (uniform.Some? && state.mass != uniform.value) {
      return false;
    }
    ok := Tested(t, state.x, rank, r);
  }

  ghost predicate NoneOwned(owned: seq<Body>, ghosts: seq<Ghost>) {
    forall p, g :: p in owned && g in ghosts ==> p.id != g.id
  }

  /** Sort and validate one rank's received records. */
  method AdmitGhosts(t: Topology, store: Store, received: seq<Ghost>, rank: nat, r: real)
    returns (ok: bool, ghosts: seq<Ghost>)
    requires t.Valid() && rank < t.Size() && StrictIds(store.owned)
    ensures multiset(ghosts) == multiset(received) && (ok ==> StrictGhosts(ghosts))
    ensures ok <==>
      DistinctGhosts(received) && AllAdmissible(t, received, rank, r, store.uniform) && NoneOwned(store.owned, received)
  {
    ghosts := Sort(GhostKey, received);
    if DistinctGhosts(received) {
      DistinctGhostsPermuted(received, ghosts);
    }
    if StrictGhosts(ghosts) {
      StrictGhostsPermuted(received, ghosts);
    }
    forall g: Ghost
      ensures g in ghosts <==> g in received
    {
      assert g in ghosts <==> g in multiset(ghosts);
      assert g in received <==> g in multiset(received);
    }
    var equal := HasEqualNeighbours(ghosts);
    if equal {
      return false, ghosts;
    }
    var admissible := CheckGhosts(t, ghosts, rank, r, store.uniform);
    if !admissible {
      return false, ghosts;
    }
    var collides := Collides(store.owned, ghosts);
    ok := !collides;
  }

  lemma StrictGhostsPermuted(a: seq<Ghost>, b: seq<Ghost>)
    requires multiset(a) == multiset(b) && StrictGhosts(b)
    ensures DistinctGhosts(a)
  {
    forall i, j | 0 <= i < j < |a|
      ensures a[i].id != a[j].id
    {
      assert a[i] in multiset(b) && a[j] in multiset(b);
      var p :| 0 <= p < |b| && b[p] == a[i];
      var q :| 0 <= q < |b| && b[q] == a[j];
      if p == q {
        TwiceCounted(a, i, j);
        var k, l := TwoPositions(b, a[i]);
      }
    }
  }

  lemma GhostAtMostOnce(ghosts: seq<Ghost>, g: Ghost)
    requires DistinctGhosts(ghosts)
    ensures multiset(ghosts)[g] <= 1
  {
    if multiset(ghosts)[g] >= 2 {
      var i, j := TwoPositions(ghosts, g);
    }
  }

  lemma DistinctGhostsPermuted(a: seq<Ghost>, b: seq<Ghost>)
    requires multiset(a) == multiset(b) && DistinctGhosts(a) && SortedBy(GhostKey, b)
    ensures StrictGhosts(b)
  {
    forall i, j | 0 <= i < j < |b|
      ensures b[i].id < b[j].id
    {
      assert GhostKey(b[i]) <= GhostKey(b[j]);
      assert b[i] in multiset(a) && b[j] in multiset(a);
      GhostAtMostOnce(a, b[i]);
      if b[i] == b[j] {
        TwiceCounted(b, i, j);
      } else {
        var p :| 0 <= p < |a| && a[p] == b[i];
        var q :| 0 <= q < |a| && a[q] == b[j];
        assert p < q || q < p;
      }
    }
  }

  datatype GhostOutcome = GhostsPublished | InvalidRadius | RoutingFailed | ReceiveRejected

  lemma RoutesReady(t: Topology, stores: seq<Store>, r: real, limit: nat, routed: seq<seq<Routed<Source>>>)
    requires t.Valid() && limit > 0 && |stores| == t.Size() && AllGhostsRouted(t, stores, r, routed)
    ensures BoundedMigration.World(limit, routed).Valid()
  {
    forall s | 0 <= s < |routed|
      ensures DestinationsInside(routed[s], |routed|) && RoutingOrder(routed[s])
    {
      assert GhostsRouted(t, stores[s].owned, s, r, routed[s]);
    }
  }

  method RouteAllGhosts(t: Topology, stores: seq<Store>, r: real) returns (ok: bool, routed: seq<seq<Routed<Source>>>)
    requires t.Valid() && r >= 0.0 && Partitioned(t, stores)
    ensures ok && AllGhostsRouted(t, stores, r, routed)
  {
    routed := [];
    ok := true;
    for s := 0 to |stores|
      invariant ok && |routed| == s
      invariant forall q :: 0 <= q < s ==> GhostsRouted(t, stores[q].owned, q, r, routed[q])
    {
      assert Settled(t, stores[s].owned, s);
      StrictIsDistinct(stores[s].owned);
      var fine, records := RouteGhosts(t, stores[s].owned, s, r);
      ok := ok && fine;
      routed := routed + [records];
    }
  }

  ghost predicate Arrived(limit: nat, routed: seq<seq<Routed<Source>>>, d: nat, received: seq<Ghost>) {
    received == BoundedMigration.World(limit, routed).Incoming(|routed|, d)
  }

  /** Different ranks send different records: the owner of a particle is told by its wrapped coordinate. */
  lemma RecordsDiffer(t: Topology, stores: seq<Store>, a: nat, b: nat, p: Body, q: Body)
    requires t.Valid() && Partitioned(t, stores) && a < |stores| && b < |stores| && a != b
    requires p in stores[a].owned && q in stores[b].owned
    ensures GhostOf(t, p) != GhostOf(t, q)
  {
    assert Settled(t, stores[a].owned, a) && Settled(t, stores[b].owned, b);
    SameOwner(t, p.state.x, q.state.x);
  }

  lemma SameOwner(t: Topology, x: Double, y: Double)
    requires t.Valid()
    ensures CanonicalCoordinate(x, t.box) == CanonicalCoordinate(y, t.box) ==> Owner(t, x) == Owner(t, y)
  {
    OwnerOfWrapped(t, x);
    OwnerOfWrapped(t, y);
  }

  lemma SeenArrives(t: Topology, stores: seq<Store>, r: real, limit: nat, routed: seq<seq<Routed<Source>>>, d: nat,
                    received: seq<Ghost>, s: nat, p: Body)
    requires t.Valid() && |stores| == t.Size() && d < t.Size() && AllGhostsRouted(t, stores, r, routed)
    requires Arrived(limit, routed, d, received) && s != d && Seen(t, stores, d, r, s, p)
    ensures GhostOf(t, p) in received
  {
    ArrivalsAreVisible(t, stores, r, limit, routed, d, GhostOf(t, p));
  }

  /** A clash is noticed: two records share an identifier, or one has the identifier of an owned particle. */
  lemma ClashNoticed(t: Topology, stores: seq<Store>, r: real, limit: nat, routed: seq<seq<Routed<Source>>>, d: nat,
                     received: seq<Ghost>, a: nat, p: Body, b: nat, q: Body)
    requires t.Valid() && Partitioned(t, stores) && d < t.Size() && AllGhostsRouted(t, stores, r, routed)
    requires Arrived(limit, routed, d, received) && Clash(t, stores, d, r, a, p, b, q)
    ensures !(DistinctGhosts(received) && NoneOwned(stores[d].owned, received))
  {
    if a != d {
      SeenArrives(t, stores, r, limit, routed, d, received, a, p);
    }
    if b != d {
      SeenArrives(t, stores, r, limit, routed, d, received, b, q);
    }
    if a != d && b != d {
      RecordsDiffer(t, stores, a, b, p, q);
      TwoRecords(received, GhostOf(t, p), GhostOf(t, q));
    }
  }

  lemma TwoRecords(ghosts: seq<Ghost>, x: Ghost, y: Ghost)
    requires x in ghosts && y in ghosts && x != y && x.id == y.id
    ensures !DistinctGhosts(ghosts)
  {
    var i :| 0 <= i < |ghosts| && ghosts[i] == x;
    var j :| 0 <= j < |ghosts| && ghosts[j] == y;
    assert if i < j then ghosts[i].id == ghosts[j].id else ghosts[j].id == ghosts[i].id;
  }

  lemma NoneClash(t: Topology, stores: seq<Store>, r: real, limit: nat, routed: seq<seq<Routed<Source>>>, d: nat,
                  received: seq<Ghost>, g: Ghost, p: Body)
    requires t.Valid() && d < t.Size() && |stores| == t.Size() && AllGhostsRouted(t, stores, r, routed)
    requires Arrived(limit, routed, d, received) && !Clashes(t, stores, d, r) && g in received && p in stores[d].owned
    ensures p.id != g.id
  {
    ArrivalsAreVisible(t, stores, r, limit, routed, d, g);
    var s: nat, q: Body :| s != d && Seen(t, stores, d, r, s, q) && Stands(t, q, g);
    assert !Clash(t, stores, d, r, d, p, s, q);
  }

  /** Whatever is seen from elsewhere is visible, and its position is finite. */
  lemma SeenIsVisible(t: Topology, stores: seq<Store>, d: nat, r: real, s: nat, p: Body)
    requires t.Valid() && Partitioned(t, stores) && d < t.Size() && s != d && Seen(t, stores, d, r, s, p)
    ensures Visible(t, p, d, r) && FinitePosition(p)
  {
    assert Settled(t, stores[s].owned, s);
  }

  lemma ArrivalAdmissible(t: Topology, stores: seq<Store>, r: real, limit: nat, routed: seq<seq<Routed<Source>>>,
                          d: nat, received: seq<Ghost>, g: Ghost)
    requires t.Valid() && r >= 0.0 && d < t.Size() && Partitioned(t, stores) && AllGhostsRouted(t, stores, r, routed)
    requires Arrived(limit, routed, d, received) && MassesFit(t, stores, d, r) && g in received
    ensures AdmissibleGhost(t, g, d, r, stores[d].uniform)
  {
    ArrivalsAreVisible(t, stores, r, limit, routed, d, g);
    var s: nat, q: Body :| s != d && Seen(t, stores, d, r, s, q) && Stands(t, q, g);
    SeenFits(t, stores, d, r, s, q);
  }

  lemma SeenFits(t: Topology, stores: seq<Store>, d: nat, r: real, s: nat, p: Body)
    requires t.Valid() && r >= 0.0 && Partitioned(t, stores) && d < t.Size() && s != d && Seen(t, stores, d, r, s, p)
    ensures AdmissibleGhost(t, GhostOf(t, p), d, r, stores[d].uniform) <==> Fitting(stores[d].uniform, p.state.mass)
  {
    SeenIsVisible(t, stores, d, r, s, p);
    VisibleAdmissible(t, p, d, r, stores[d].uniform);
  }

  lemma AdmissibleFits(t: Topology, stores: seq<Store>, r: real, limit: nat, routed: seq<seq<Routed<Source>>>, d: nat,
                       received: seq<Ghost>)
    requires t.Valid() && r >= 0.0 && d < t.Size() && Partitioned(t, stores) && AllGhostsRouted(t, stores, r, routed)
    requires Arrived(limit, routed, d, received) && AllAdmissible(t, received, d, r, stores[d].uniform)
    ensures MassesFit(t, stores, d, r)
  {
    forall s: nat, p: Body {:trigger Seen(t, stores, d, r, s, p)} | s != d && Seen(t, stores, d, r, s, p)
      ensures Fitting(stores[d].uniform, p.state.mass)
    {
      SeenArrives(t, stores, r, limit, routed, d, received, s, p);
      SeenFits(t, stores, d, r, s, p);
    }
  }

  /** Admission decides exactly whether the rank can take everything it sees. */
  lemma AdmissionDecides(t: Topology, stores: seq<Store>, r: real, limit: nat, routed: seq<seq<Routed<Source>>>, d: nat,
                         received: seq<Ghost>)
    requires t.Valid() && r >= 0.0 && Partitioned(t, stores) && d < t.Size() && AllGhostsRouted(t, stores, r, routed)
    requires Arrived(limit, routed, d, received)
    ensures Admits(t, stores, d, r) <==>
      DistinctGhosts(received) && AllAdmissible(t, received, d, r, stores[d].uniform) &&
        NoneOwned(stores[d].owned, received)
  {
    if a: nat, p: Body, b: nat, q: Body :| Clash(t, stores, d, r, a, p, b, q) {
      ClashNoticed(t, stores, r, limit, routed, d, received, a, p, b, q);
    } else {
      ArrivalsDistinct(t, stores, r, limit, routed, d, |routed|);
      forall p, g | p in stores[d].owned && g in received
        ensures p.id != g.id
      {
        NoneClash(t, stores, r, limit, routed, d, received, g, p);
      }
    }
    if MassesFit(t, stores, d, r) {
      forall g | g in received
        ensures AdmissibleGhost(t, g, d, r, stores[d].uniform)
      {
        ArrivalAdmissible(t, stores, r, limit, routed, d, received, g);
      }
    } else if AllAdmissible(t, received, d, r, stores[d].uniform) {
      AdmissibleFits(t, stores, r, limit, routed, d, received);
    }
  }

  lemma AdmittedIsGhostSet(t: Topology, stores: seq<Store>, r: real, limit: nat, routed: seq<seq<Routed<Source>>>,
                           d: nat, received: seq<Ghost>, ghosts: seq<Ghost>)
    requires t.Valid() && |stores| == t.Size() && d < t.Size() && AllGhostsRouted(t, stores, r, routed)
    requires Arrived(limit, routed, d, received) && StrictGhosts(ghosts) && multiset(ghosts) == multiset(received)
    ensures IsGhostSet(t, stores, d, r, ghosts)
  {
    forall g: Ghost
      ensures g in ghosts <==> ForeignVisible(t, stores, d, r, g)
    {
      assert g in ghosts <==> g in multiset(ghosts);
      assert g in received <==> g in multiset(received);
      ArrivalsAreVisible(t, stores, r, limit, routed, d, g);
    }
  }

  ghost function GhostSetAt(t: Topology, stores: seq<Store>, r: real): (nat, seq<Ghost>) -> bool
    requires t.Valid()
  {
    (d: nat, ghosts: seq<Ghost>) => d < t.Size() && IsGhostSet(t, stores, d, r, ghosts)
  }

  ghost function AdmitsAt(t: Topology, stores: seq<Store>, r: real): nat -> bool
    requires t.Valid() && |stores| == t.Size()
  {
    (d: nat) => d < t.Size() && Admits(t, stores, d, r)
  }

  /** What a rank has in hand when its records have arrived. */
  ghost function ReadyAt(t: Topology, stores: seq<Store>, r: real, limit: nat, routed: seq<seq<Routed<Source>>>)
    : (nat, seq<Ghost>) -> bool
    requires t.Valid()
  {
    (d: nat, received: seq<Ghost>) =>
      && r >= 0.0 && d < t.Size() && Partitioned(t, stores) && AllGhostsRouted(t, stores, r, routed)
      && Arrived(limit, routed, d, received)
  }

  /** One rank's admission. */
  method AdmitAt(t: Topology, stores: seq<Store>, r: real, ghost limit: nat, ghost routed: seq<seq<Routed<Source>>>,
                 d: nat, received: seq<Ghost>, ghost ready: (nat, seq<Ghost>) -> bool,
                 ghost good: (nat, seq<Ghost>) -> bool, ghost can: nat -> bool)
    returns (ok: bool, ghosts: seq<Ghost>)
    requires t.Valid() && |stores| == t.Size() && ready(d, received)
    requires Grants(ready, ReadyAt(t, stores, r, limit, routed))
    requires Implies(GhostSetAt(t, stores, r), good) && Tells(can, AdmitsAt(t, stores, r))
    ensures (ok <==> can(d)) && (ok ==> good(d, ghosts))
  {
    assert ReadyAt(t, stores, r, limit, routed)(d, received);
    AdmissionDecides(t, stores, r, limit, routed, d, received);
    assert Settled(t, stores[d].owned, d);
    ok, ghosts := AdmitGhosts(t, stores[d], received, d, r);
    if ok {
      AdmittedIsGhostSet(t, stores, r, limit, routed, d, received, ghosts);
      assert GhostSetAt(t, stores, r)(d, ghosts);
    }
    assert AdmitsAt(t, stores, r)(d) <==> Admits(t, stores, d, r);
  }

  /** Every rank validates what it received; no suffix changes. */
  method AdmitAll(t: Topology, stores: seq<Store>, r: real, ghost limit: nat, ghost routed: seq<seq<Routed<Source>>>,
                  received: seq<seq<Ghost>>, ghost ready: (nat, seq<Ghost>) -> bool,
                  ghost good: (nat, seq<Ghost>) -> bool, ghost can: nat -> bool)
    returns (ok: bool, staged: seq<seq<Ghost>>)
    requires t.Valid() && |stores| == t.Size() == |received|
    requires Grants(ready, ReadyAt(t, stores, r, limit, routed))
    requires forall d :: 0 <= d < |received| ==> ready(d, received[d])
    requires Implies(GhostSetAt(t, stores, r), good) && Tells(can, AdmitsAt(t, stores, r))
    ensures |staged| == |received| && (ok <==> forall d :: 0 <= d < |received| ==> can(d))
    ensures ok ==> forall d :: 0 <= d < |received| ==> good(d, staged[d])
  {
    staged := [];
    ok := true;
    for d := 0 to |received|
      invariant |staged| == d && (ok <==> forall e :: 0 <= e < d ==> can(e))
      invariant ok ==> forall e :: 0 <= e < d ==> good(e, staged[e])
    {
      var fine, ghosts := AdmitAt(t, stores, r, limit, routed, d, received[d], ready, good, can);
      ok := ok && fine;
      staged := staged + [ghosts];
    }
  }

  ghost predicate AllAdmit(t: Topology, stores: seq<Store>, r: real)
    requires t.Valid() && |stores| == t.Size()
  {
    forall d :: 0 <= d < t.Size() ==> AdmitsAt(t, stores, r)(d)
  }

  ghost predicate AllGhostSets(t: Topology, stores: seq<Store>, r: real, suffixes: seq<seq<Ghost>>)
    requires t.Valid()
  {
    |suffixes| == t.Size() && forall d :: 0 <= d < t.Size() ==> GhostSetAt(t, stores, r)(d, suffixes[d])
  }

  /** Everything before a suffix changes: route, exchange, validate on all ranks. */
  method StageGhosts(t: Topology, stores: seq<Store>, r: real, limit: nat)
    returns (outcome: GhostOutcome, staged: seq<seq<Ghost>>)
    requires t.Valid() && limit > 0 && r >= 0.0 && Partitioned(t, stores)
    ensures outcome == if AllAdmit(t, stores, r) then GhostsPublished else GhostOutcome.ReceiveRejected
    ensures outcome == GhostsPublished ==> AllGhostSets(t, stores, r, staged)
  {
    var routable, routed := RouteAllGhosts(t, stores, r);
    if !routable {
      return GhostOutcome.RoutingFailed, [];
    }
    RoutesReady(t, stores, r, limit, routed);
    var received := BoundedMigration.Transport(limit, routed);
    var ok;
    ok, staged := AdmitAll(t, stores, r, limit, routed, received, ReadyAt(t, stores, r, limit, routed),
      GhostSetAt(t, stores, r), AdmitsAt(t, stores, r));
    outcome := if ok then GhostsPublished else GhostOutcome.ReceiveRejected;
  }

  /**
   * Exchange ghosts after a partition: every rank's ghost suffix becomes exactly the foreign particles its slab sees
   * within the radius from slabs close enough by whole planes, in strict identifier order. A zero radius or a single
   * rank clears the suffixes of any stores; only otherwise must the stores be partitioned.
   * The exchange is rejected exactly when some rank cannot take what it is sent; then every suffix stays as it was.
   */
  method ExchangeGhosts(t: Topology, stores: seq<Store>, suffixes: array<seq<Ghost>>, r: real, limit: nat)
    returns (outcome: GhostOutcome)
    requires t.Valid() && limit > 0 && |stores| == t.Size() && suffixes.Length == t.Size()
    requires r > 0.0 && t.Size() > 1 ==> Partitioned(t, stores)
    modifies suffixes
    ensures outcome == if r < 0.0 then InvalidRadius
                       else if r == 0.0 || t.Size() == 1 || AllAdmit(t, stores, r) then GhostsPublished
                       else GhostOutcome.ReceiveRejected
    ensures outcome != GhostsPublished ==> suffixes[..] == old(suffixes[..])
    ensures outcome == GhostsPublished && (r == 0.0 || t.Size() == 1) ==> forall d :: 0 <= d < t.Size() ==>
      suffixes[d] == []
    ensures outcome == GhostsPublished && r > 0.0 && t.Size() > 1 ==> AllGhostSets(t, stores, r, suffixes[..])
  {
    if r < 0.0 {
      return InvalidRadius;
    }
    if t.Size() == 1 || r == 0.0 {
      forall d | 0 <= d < suffixes.Length {
        suffixes[d] := [];
      }
      return GhostsPublished;
    }
    var staged;
    outcome, staged := StageGhosts(t, stores, r, limit);
    if outcome == GhostsPublished {
      forall d | 0 <= d < suffixes.Length {
        suffixes[d] := staged[d];
      }
      assert suffixes[..] == staged;
    }
  }

  // ---- what pruning may miss ----

  /** The record of a particle of another rank that slab d sees, whether or not it was a candidate. */
  ghost predicate VisibleFrom(t: Topology, stores: seq<Store>, d: nat, r: real, g: Ghost)
    requires t.Valid() && d < t.Size()
  {
    exists s: nat, p: Body {:trigger Elsewhere(stores, d, s, p)} ::
      Elsewhere(stores, d, s, p) && Visible(t, p, d, r) && Stands(t, p, g)
  }

  ghost predicate Elsewhere(stores: seq<Store>, d: nat, s: nat, p: Body) {
    s < |stores| && s != d && p in stores[s].owned
  }

  ghost predicate AllWithin(t: Topology, stores: seq<Store>)
    requires t.Valid()
  {
    forall s, p :: 0 <= s < |stores| && p in stores[s].owned ==> WithinOwner(t, p.state.x)
  }

  /** When every particle lies inside its rank's slab, the ghosts of a rank are all that its slab sees. */
  lemma NothingMissed(t: Topology, stores: seq<Store>, d: nat, r: real, g: Ghost)
    requires t.Valid() && Partitioned(t, stores) && AllWithin(t, stores) && d < t.Size() && r >= 0.0
    ensures ForeignVisible(t, stores, d, r, g) <==> VisibleFrom(t, stores, d, r, g)
  {
    if ForeignVisible(t, stores, d, r, g) {
      var s: nat, p: Body :| s != d && Seen(t, stores, d, r, s, p) && Stands(t, p, g);
      SeenIsVisible(t, stores, d, r, s, p);
      assert Elsewhere(stores, d, s, p);
    }
    if VisibleFrom(t, stores, d, r, g) {
      var s: nat, p: Body :| Elsewhere(stores, d, s, p) && Visible(t, p, d, r) && Stands(t, p, g);
      VisibleIsSeen(t, stores, d, r, s, p);
    }
  }

  lemma VisibleIsSeen(t: Topology, stores: seq<Store>, d: nat, r: real, s: nat, p: Body)
    requires t.Valid() && Partitioned(t, stores) && AllWithin(t, stores) && d < t.Size() && r >= 0.0
    requires Elsewhere(stores, d, s, p) && Visible(t, p, d, r)
    ensures Seen(t, stores, d, r, s, p)
  {
    assert Settled(t, stores[s].owned, s);
    InsideIsExchanged(t, s, p, d, r);
  }

  /** With exact cells that is so in every partitioned world. */
  lemma ExactCellsMissNothing(t: Topology, stores: seq<Store>)
    requires t.Valid() && Partitioned(t, stores) && ExactCells(t)
    ensures AllWithin(t, stores)
  {
    forall s, p | 0 <= s < |stores| && p in stores[s].owned
      ensures WithinOwner(t, p.state.x)
    {
      OwnerBounds(t, p.state.x);
    }
  }

  /** One particle at 1 in the box of five units, on the rank that owns it. */
  const LONELY := [Store(None, []), Store(None, [RestingBody(7, 1)]), Store(None, []), Store(None, [])]

  lemma LonelySettled(t: Topology)
    requires t.Valid() && t.Size() == 4 && Owner(t, Double(false, 1)) == 1
    ensures Partitioned(t, LONELY)
  {
    forall s | 0 <= s < |LONELY|
      ensures Settled(t, LONELY[s].owned, s)
    {
      assert s != 1 ==> LONELY[s].owned == [];
    }
  }

  lemma NotSeen(t: Topology, d: nat, r: real, s: nat, q: Body)
    requires t.Valid() && t.Size() == 4 && d < 4 && s != d
    requires !CanExchange(t, SlabInterval(t, 1), SlabInterval(t, d), r)
    ensures !Seen(t, LONELY, d, r, s, q)
  {
    if s < 4 {
      assert s != 1 ==> LONELY[s].owned == [];
    }
  }

  /** The last slab sees that particle at radius 1, and is not sent it. */
  lemma GhostIsMissed() returns (t: Topology, g: Ghost)
    ensures FiveUnits(t) && Partitioned(t, LONELY)
    ensures VisibleFrom(t, LONELY, 3, 1.0, g) && !ForeignVisible(t, LONELY, 3, 1.0, g)
  {
    t := FiveUnitsExist(5, 4);
    g := GhostOf(t, RestingBody(7, 1));
    LonelyIsMissed(t, g);
  }

  lemma LonelyIsMissed(t: Topology, g: Ghost)
    requires FiveUnits(t) && g == GhostOf(t, RestingBody(7, 1))
    ensures Partitioned(t, LONELY)
    ensures VisibleFrom(t, LONELY, 3, 1.0, g) && !ForeignVisible(t, LONELY, 3, 1.0, g)
  {
    PrunedThoughVisible(t, Double(false, 1));
    LonelySettled(t);
    LonelyIsVisible(t, RestingBody(7, 1));
    forall s: nat, q: Body | s != 3
      ensures !Seen(t, LONELY, 3, 1.0, s, q)
    {
      NotSeen(t, 3, 1.0, s, q);
    }
  }

  lemma LonelyIsVisible(t: Topology, p: Body)
    requires t.Valid() && t.Size() == 4 && p == RestingBody(7, 1) && Position(t, p.state.x) == 1.0
    requires Sees(BoxLength(t), SlabInterval(t, 3), 1.0, 1.0)
    ensures VisibleFrom(t, LONELY, 3, 1.0, GhostOf(t, p))
  {
    assert Visible(t, p, 3, 1.0);
    assert Elsewhere(LONELY, 3, 1, p);
  }

  // ---- after a partition ----

  /** Particles of different ranks have different identifiers. */
  lemma DifferentRanks(stores: seq<Store>, a: nat, b: nat, p: Body, q: Body)
    requires GloballyDistinct(stores) && a < |stores| && b < |stores|
    requires a != b && p in stores[a].owned && q in stores[b].owned
    ensures p.id != q.id
  {
    var i :| 0 <= i < |stores[a].owned| && stores[a].owned[i] == p;
    var j :| 0 <= j < |stores[b].owned| && stores[b].owned[j] == q;
    NotTwins(stores, a, i, b, j);
  }

  lemma DistinctNeverClash(t: Topology, stores: seq<Store>, d: nat, r: real)
    requires t.Valid() && d < t.Size() && GloballyDistinct(stores)
    ensures !Clashes(t, stores, d, r)
  {
    forall a: nat, p: Body, b: nat, q: Body
      ensures !Clash(t, stores, d, r, a, p, b, q)
    {
      if Clash(t, stores, d, r, a, p, b, q) {
        DifferentRanks(stores, a, b, p, q);
      }
    }
  }

  /** A published particle comes from one given to the partition, wrapped. */
  lemma PublishedOrigin(t: Topology, pl: Placement, stores: seq<Store>, after: seq<Store>, s: nat, p: Body)
    returns (a: nat, q: Body)
    requires Realizes(t, pl) && HoldsShares(pl, stores, after) && s < |stores| && p in after[s].owned
    ensures a < |stores| && q in stores[a].owned && p == pl.canonical(q) && Owner(t, p.state.x) == s
  {
    var k :| 0 <= k < |after[s].owned| && after[s].owned[k] == p;
    var i;
    a, i := AfterOrigin(pl, stores, after, s, k);
    q := stores[a].owned[i];
    assert pl.rank(pl.canonical(q)) == s;
    assert ParticleStores.Agrees(t, pl, p);
  }

  /** One published particle: on its owner, of a mass that fits, finite. */
  lemma PublishedParticle(t: Topology, pl: Placement, stores: seq<Store>, mass: Option<Double>, after: seq<Store>,
                          s: nat, p: Body)
    requires Realizes(t, pl) && AllSound(stores) && MassesAgree(stores, mass) && HoldsShares(pl, stores, after)
    requires s < |stores| && p in after[s].owned
    ensures Owner(t, p.state.x) == s && Fitting(mass, p.state.mass) && FinitePosition(p)
  {
    var a, q := PublishedOrigin(t, pl, stores, after, s, p);
    assert SoundStore(stores[a]) && (mass.Some? ==> Represents(stores[a], mass.value));
    CanonicalInBox(t, pl, q);
    assert ParticleStores.Agrees(t, pl, q);
  }

  lemma PublishedStore(t: Topology, pl: Placement, stores: seq<Store>, mass: Option<Double>, after: seq<Store>, s: nat)
    requires Realizes(t, pl) && AllSound(stores) && MassesAgree(stores, mass) && AllPublished(pl, stores, mass, after)
    requires HoldsShares(pl, stores, after) && s < |stores|
    ensures Settled(t, after[s].owned, s) && after[s].uniform == mass
    ensures forall p :: p in after[s].owned ==> Fitting(mass, p.state.mass)
  {
    assert IsPublished(pl, stores, s, after[s].owned);
    forall p | p in after[s].owned
      ensures Owner(t, p.state.x) == s && Fitting(mass, p.state.mass) && FinitePosition(p)
    {
      PublishedParticle(t, pl, stores, mass, after, s, p);
    }
  }

  /** What a partition publishes is what the ghost exchange needs, and no rank finds a mass it cannot take. */
  lemma PartitionedReady(t: Topology, stores: seq<Store>, mass: Option<Double>, after: seq<Store>)
    requires t.Valid() && |stores| == t.Size() && AllValid(stores) && AllConsistent(stores) && Survives(stores, mass)
    requires AllPublished(PlacementOf(t), stores, mass, after)
    ensures Partitioned(t, after)
    ensures forall d: nat, r: real {:trigger MassesFit(t, after, d, r)} :: d < t.Size() ==> MassesFit(t, after, d, r)
  {
    var pl := PlacementOf(t);
    PlacementRealizes(t);
    PublishedHoldsShares(pl, stores, mass, after);
    StoresSound(stores);
    AgreedMasses(stores, mass);
    forall s | 0 <= s < |after|
      ensures Settled(t, after[s].owned, s) && after[s].uniform == mass
      ensures forall p :: p in after[s].owned ==> Fitting(mass, p.state.mass)
    {
      PublishedStore(t, pl, stores, mass, after, s);
    }
    AllMassesFit(t, after, mass);
  }

  lemma AllMassesFit(t: Topology, stores: seq<Store>, mass: Option<Double>)
    requires t.Valid() && |stores| == t.Size() && forall s :: 0 <= s < |stores| ==> stores[s].uniform == mass
    requires forall s, p :: 0 <= s < |stores| && p in stores[s].owned ==> Fitting(mass, p.state.mass)
    ensures forall d: nat, r: real {:trigger MassesFit(t, stores, d, r)} :: d < t.Size() ==> MassesFit(t, stores, d, r)
  {
  }

  /** After a partition only a repeated identifier is rejected, so nothing when identifiers were unique. */
  lemma RepetitionDecides(t: Topology, stores: seq<Store>, mass: Option<Double>, after: seq<Store>, r: real)
    requires t.Valid() && |stores| == t.Size() && AllValid(stores) && AllConsistent(stores) && Survives(stores, mass)
    requires AllPublished(PlacementOf(t), stores, mass, after)
    ensures AllAdmit(t, after, r) <==> forall d: nat :: d < t.Size() ==> !Clashes(t, after, d, r)
    ensures GloballyDistinct(stores) ==> AllAdmit(t, after, r)
  {
    PartitionedReady(t, stores, mass, after);
    forall d: nat | d < t.Size()
      ensures AdmitsAt(t, after, r)(d) <==> !Clashes(t, after, d, r)
    {
      assert MassesFit(t, after, d, r);
    }
    if GloballyDistinct(stores) {
      PlacementRealizes(t);
      PublishedDistinct(PlacementOf(t), stores, mass, after);
      forall d: nat | d < t.Size()
        ensures !Clashes(t, after, d, r)
      {
        DistinctNeverClash(t, after, d, r);
      }
    }
  }
}
