/** Routed records: deterministic order, and the layout of one rank's outgoing records by destination. */
module ExchangeBuffer {
  import opened Collections

  const ID_SPAN := 0x1_0000_0000_0000_0000

  /** Stable particle identifiers are 64-bit unsigned. */
  type ParticleId = i: nat | i < ID_SPAN

  /** A transported particle: the state is a full phase-space record or a force source. */
  datatype Particle<T> = Particle(id: ParticleId, state: T)

  datatype Routed<T> = Routed(destination: int, particle: Particle<T>)

  predicate Before<T>(a: Routed<T>, b: Routed<T>) {
    a.destination < b.destination || (a.destination == b.destination && a.particle.id < b.particle.id)
  }

  predicate SameRoute<T>(a: Routed<T>, b: Routed<T>) {
    a.destination == b.destination && a.particle.id == b.particle.id
  }

  ghost predicate RoutingOrder<T>(routed: seq<Routed<T>>) {
    forall i, j :: 0 <= i < j < |routed| ==> Before(routed[i], routed[j])
  }

  ghost predicate DistinctRoutes<T>(routed: seq<Routed<T>>) {
    forall i, j :: 0 <= i < j < |routed| ==> !SameRoute(routed[i], routed[j])
  }

  ghost predicate HasNegative<T>(routed: seq<Routed<T>>) {
    exists r :: r in routed && r.destination < 0
  }

  // ---- sorting ----

  /** Lexicographic order by destination and identifier, as one number. */
  function RouteKey<T>(r: Routed<T>): int {
    r.destination * ID_SPAN + r.particle.id
  }

  lemma RouteKeyOrder<T>(a: Routed<T>, b: Routed<T>)
    ensures RouteKey(a) < RouteKey(b) <==> Before(a, b)
    ensures RouteKey(a) == RouteKey(b) <==> SameRoute(a, b)
  {
  }

  lemma RouteAtMostOnce<T>(routed: seq<Routed<T>>, r: Routed<T>)
    requires DistinctRoutes(routed)
    ensures multiset(routed)[r] <= 1
  {
    if multiset(routed)[r] >= 2 {
      var i, j := TwoPositions(routed, r);
    }
  }

  lemma DistinctPermutation<T>(a: seq<Routed<T>>, b: seq<Routed<T>>)
    requires multiset(a) == multiset(b) && DistinctRoutes(a)
    ensures DistinctRoutes(b)
  {
    forall i, j | 0 <= i < j < |b|
      ensures !SameRoute(b[i], b[j])
    {
      assert b[i] in multiset(a) && b[j] in multiset(a);
      RouteAtMostOnce(a, b[i]);
      if b[i] == b[j] {
        TwiceCounted(b, i, j);
      } else {
        var p :| 0 <= p < |a| && a[p] == b[i];
        var q :| 0 <= q < |a| && a[q] == b[j];
        assert p < q || q < p;
      }
    }
  }

  datatype RouteError = NoError | NegativeDestination | DuplicateRoute

  /** Sort by destination, then identifier; equal pairs are rejected. */
  method SortRouteRecords<T>(routed: array<Routed<T>>) returns (error: RouteError)
    modifies routed
    ensures multiset(routed[..]) == multiset(old(routed[..]))
    ensures error == NegativeDestination <==> HasNegative(old(routed[..]))
    ensures error == NegativeDestination ==> routed[..] == old(routed[..])
    ensures error == NoError <==> !HasNegative(old(routed[..])) && DistinctRoutes(old(routed[..]))
    ensures error == NoError ==> RoutingOrder(routed[..])
  {
    for i := 0 to routed.Length
      invariant forall k :: 0 <= k < i ==> routed[k].destination >= 0
    {
      if routed[i].destination < 0 {
        assert routed[i] in routed[..];
        return NegativeDestination;
      }
    }
    SortInPlace(RouteKey, routed);
    ghost var s := routed[..];
    var i := 1;
    while i < routed.Length
      invariant 1 <= i
      invariant forall k :: 1 <= k < i && k < routed.Length ==> !SameRoute(s[k - 1], s[k])
    {
      if SameRoute(routed[i - 1], routed[i]) {
        assert !DistinctRoutes(s) by { assert SameRoute(s[i - 1], s[i]); }
        if DistinctRoutes(old(routed[..])) {
          DistinctPermutation(old(routed[..]), s);
        }
        return DuplicateRoute;
      }
      i := i + 1;
    }
    StrictFromAdjacent(s);
    OrderIsDistinct(s);
    DistinctPermutation(s, old(routed[..]));
    error := NoError;
  }

  lemma StrictFromAdjacent<T>(s: seq<Routed<T>>)
    requires SortedBy(RouteKey, s) && forall k :: 1 <= k < |s| ==> !SameRoute(s[k - 1], s[k])
    ensures RoutingOrder(s)
  {
    forall i, j | 0 <= i < j < |s|
      ensures Before(s[i], s[j])
    {
      RouteKeyOrder(s[j - 1], s[j]);
      RouteKeyOrder(s[i], s[j]);
      assert !SameRoute(s[j - 1], s[j]);
      assert i == j - 1 || RouteKey(s[i]) <= RouteKey(s[j - 1]);
    }
  }

  lemma OrderIsDistinct<T>(s: seq<Routed<T>>)
    requires RoutingOrder(s)
    ensures DistinctRoutes(s)
  {
  }

  // ---- records by destination ----

  /** The particles routed to one destination, in order. */
  ghost function To<T>(routed: seq<Routed<T>>, d: int): seq<Particle<T>> {
    if routed == [] then []
    else
      var n := |routed| - 1;
      To(routed[..n], d) + if routed[n].destination == d then [routed[n].particle] else []
  }

  /** How many records go to destinations below d. */
  ghost function Below<T>(routed: seq<Routed<T>>, d: int): (n: nat)
    ensures n <= |routed|
  {
    if routed == [] then 0
    else
      var n := |routed| - 1;
      Below(routed[..n], d) + if routed[n].destination < d then 1 else 0
  }

  ghost function Particles<T>(routed: seq<Routed<T>>): (r: seq<Particle<T>>)
    ensures |r| == |routed|
  {
    seq(|routed|, i requires 0 <= i < |routed| => routed[i].particle)
  }

  ghost predicate DestinationOrder<T>(routed: seq<Routed<T>>) {
    forall i, j :: 0 <= i < j < |routed| ==> routed[i].destination <= routed[j].destination
  }

  lemma {:induction false} BelowStep<T>(routed: seq<Routed<T>>, d: int)
    ensures Below(routed, d + 1) == Below(routed, d) + |To(routed, d)|
  {
    if routed != [] {
      BelowStep(routed[..|routed| - 1], d);
    }
  }

  /** In destination order the records below d come first. */
  lemma {:induction false} BelowIsPrefix<T>(routed: seq<Routed<T>>, d: int)
    requires DestinationOrder(routed)
    ensures forall i :: 0 <= i < |routed| ==> (routed[i].destination < d <==> i < Below(routed, d))
  {
    if routed != [] {
      var n := |routed| - 1;
      var prefix := routed[..n];
      BelowIsPrefix(prefix, d);
      assert forall i :: 0 <= i < n ==> prefix[i] == routed[i];
      if routed[n].destination < d {
        assert n > 0 ==> prefix[n - 1].destination < d;
      }
    }
  }

  /** In destination order the records to d are one slice. */
  lemma {:induction false} ToIsSlice<T>(routed: seq<Routed<T>>, d: int)
    requires DestinationOrder(routed)
    ensures Below(routed, d) <= Below(routed, d + 1)
    ensures To(routed, d) == Particles(routed[Below(routed, d)..Below(routed, d + 1)])
  {
    BelowStep(routed, d);
    if routed != [] {
      var n := |routed| - 1;
      var prefix := routed[..n];
      ToIsSlice(prefix, d);
      if routed[n].destination < d {
        AllBelow(routed, d);
      }
      if routed[n].destination <= d {
        AllBelow(routed, d + 1);
      }
      PrefixBelow(routed, d);
      PrefixBelow(routed, d + 1);
      if routed[n].destination == d {
        SliceSnoc(routed, Below(routed, d));
      } else if routed[n].destination > d {
        SliceOfPrefix(routed, Below(routed, d), Below(routed, d + 1));
      }
    }
  }

  /** In destination order the last record decides whether all lie below. */
  lemma AllBelow<T>(routed: seq<Routed<T>>, d: int)
    requires DestinationOrder(routed) && routed != [] && routed[|routed| - 1].destination < d
    ensures Below(routed, d) == |routed|
  {
    BelowIsPrefix(routed, d);
  }

  lemma PrefixBelow<T>(routed: seq<Routed<T>>, d: int)
    requires DestinationOrder(routed) && routed != []
    ensures var n := |routed| - 1;
      Below(routed[..n], d) == if routed[n].destination < d then n else Below(routed, d)
  {
    var n := |routed| - 1;
    if routed[n].destination < d && n > 0 {
      AllBelow(routed[..n], d);
    }
  }

  lemma SliceSnoc<T>(routed: seq<Routed<T>>, lo: nat)
    requires lo < |routed|
    ensures var n := |routed| - 1;
      Particles(routed[lo..n + 1]) == Particles(routed[..n][lo..n]) + [routed[n].particle]
  {
    var n := |routed| - 1;
    assert routed[lo..n + 1] == routed[..n][lo..n] + [routed[n]];
    ParticlesSnoc(routed[..n][lo..n], routed[n]);
  }

  lemma SliceOfPrefix<T>(routed: seq<Routed<T>>, lo: nat, hi: nat)
    requires lo <= hi < |routed|
    ensures routed[lo..hi] == routed[..|routed| - 1][lo..hi]
  {
  }

  lemma ParticlesSnoc<T>(s: seq<Routed<T>>, r: Routed<T>)
    ensures Particles(s + [r]) == Particles(s) + [r.particle]
  {
  }

  lemma ToSnoc<T>(routed: seq<Routed<T>>, r: Routed<T>, d: int)
    ensures To(routed + [r], d) == To(routed, d) + if r.destination == d then [r.particle] else []
  {
    assert (routed + [r])[..|routed|] == routed;
  }

  lemma {:induction false} ToMembers<T>(routed: seq<Routed<T>>, d: int, p: Particle<T>)
    ensures p in To(routed, d) <==> Routed(d, p) in routed
  {
    if routed != [] {
      var n := |routed| - 1;
      ToMembers(routed[..n], d, p);
      assert routed == routed[..n] + [routed[n]];
    }
  }

  // ---- the routing layout of one rank ----

  datatype RoutingLayout = RoutingLayout(counts: seq<nat>, offsets: seq<nat>)

  datatype LayoutResult =
    | Laid(layout: RoutingLayout)
    | SizeNotPositive
    | DestinationOutside
    | NotDestinationSorted
    | IdsNotIncreasing

  ghost predicate DestinationsInside<T>(routed: seq<Routed<T>>, size: int) {
    forall r :: r in routed ==> 0 <= r.destination < size
  }

  /** The counts and offsets of a validated layout, by their meaning. */
  ghost predicate IsLayout<T>(layout: RoutingLayout, routed: seq<Routed<T>>, size: nat) {
    && |layout.counts| == size && |layout.offsets| == size
    && (forall d :: 0 <= d < size ==> layout.counts[d] == |To(routed, d)| && layout.offsets[d] == Below(routed, d))
  }

  lemma {:induction false} BelowAll<T>(routed: seq<Routed<T>>, d: int)
    requires forall r :: r in routed ==> r.destination < d
    ensures Below(routed, d) == |routed|
  {
    if routed != [] {
      var n := |routed| - 1;
      assert routed[n] in routed;
      assert forall r :: r in routed[..n] ==> r in routed;
      BelowAll(routed[..n], d);
    }
  }

  lemma {:induction false} BelowNone<T>(routed: seq<Routed<T>>, d: int)
    requires forall r :: r in routed ==> d <= r.destination
    ensures Below(routed, d) == 0
  {
    if routed != [] {
      var n := |routed| - 1;
      assert routed[n] in routed;
      assert forall r :: r in routed[..n] ==> r in routed;
      BelowNone(routed[..n], d);
    }
  }

  method CountDestinations<T>(routed: seq<Routed<T>>, size: nat) returns (ok: bool, counts: seq<nat>)
    ensures ok <==> DestinationsInside(routed, size)
    ensures ok ==> |counts| == size && forall d :: 0 <= d < size ==> counts[d] == |To(routed, d)|
  {
    counts := seq(size, _ => 0);
    for i := 0 to |routed|
      invariant |counts| == size && DestinationsInside(routed[..i], size)
      invariant forall d :: 0 <= d < size ==> counts[d] == |To(routed[..i], d)|
    {
      var d := routed[i].destination;
      assert routed[i] in routed;
      assert routed[..i + 1] == routed[..i] + [routed[i]] && routed[..i + 1][..i] == routed[..i];
      if d < 0 || d >= size {
        return false, counts;
      }
      counts := counts[d := counts[d] + 1];
    }
    assert routed[..|routed|] == routed;
    ok := true;
  }

  // One destination's block: in place, with strictly increasing identifiers.

  ghost predicate BlockOrdered<T>(routed: seq<Routed<T>>, cursor: nat, count: nat, d: int) {
    && cursor + count <= |routed|
    && (forall i :: cursor <= i < cursor + count ==> routed[i].destination == d)
    && (forall i, j :: cursor <= i < j < cursor + count ==> routed[i].particle.id < routed[j].particle.id)
  }

  datatype BlockStatus = BlockFits | BlockNotSorted | BlockIdsNotIncreasing

  method CheckBlock<T>(routed: seq<Routed<T>>, cursor: nat, count: nat, d: int) returns (status: BlockStatus)
    requires cursor <= |routed|
    ensures status == BlockFits <==> BlockOrdered(routed, cursor, count, d)
  {
    for local := 0 to count
      invariant BlockOrdered(routed, cursor, local, d)
    {
      var index := cursor + local;
      if index >= |routed| || routed[index].destination != d {
        return BlockNotSorted;
      }
      if local > 0 && routed[index - 1].particle.id >= routed[index].particle.id {
        return BlockIdsNotIncreasing;
      }
    }
    status := BlockFits;
  }

  lemma OrderedBlock<T>(routed: seq<Routed<T>>, d: int)
    requires RoutingOrder(routed)
    ensures BlockOrdered(routed, Below(routed, d), |To(routed, d)|, d)
  {
    BelowStep(routed, d);
    BelowIsPrefix(routed, d);
    BelowIsPrefix(routed, d + 1);
    forall i, j | Below(routed, d) <= i < j < Below(routed, d + 1)
      ensures routed[i].particle.id < routed[j].particle.id
    {
      assert Before(routed[i], routed[j]);
    }
  }

  lemma ExtendOrder<T>(routed: seq<Routed<T>>, cursor: nat, count: nat, d: int)
    requires BlockOrdered(routed, cursor, count, d)
    requires RoutingOrder(routed[..cursor]) && forall i :: 0 <= i < cursor ==> routed[i].destination < d
    ensures RoutingOrder(routed[..cursor + count]) && forall i :: 0 <= i < cursor + count ==>
      routed[i].destination < d + 1
  {
    var s := routed[..cursor + count];
    forall i, j | 0 <= i < j < cursor + count
      ensures Before(s[i], s[j])
    {
      if j < cursor {
        assert Before(routed[..cursor][i], routed[..cursor][j]);
      }
    }
  }

  /** Counts and offsets per destination, refused unless the records are in strict routing order. */
  method ValidateRoutingLayout<T>(routed: seq<Routed<T>>, size: int) returns (result: LayoutResult)
    ensures result == SizeNotPositive <==> size < 1
    ensures result == DestinationOutside <==> size >= 1 && !DestinationsInside(routed, size)
    ensures result.Laid? <==> size >= 1 && DestinationsInside(routed, size) && RoutingOrder(routed)
    ensures result.Laid? ==> IsLayout(result.layout, routed, size)
  {
    if size < 1 {
      return SizeNotPositive;
    }
    var inside, counts := CountDestinations(routed, size);
    if !inside {
      return DestinationOutside;
    }
    var offsets: seq<nat> := [];
    var cursor: nat := 0;
    BelowNone(routed, 0);
    for d := 0 to size
      invariant |offsets| == d && cursor == Below(routed, d)
      invariant forall e :: 0 <= e < d ==> offsets[e] == Below(routed, e)
      invariant RoutingOrder(routed[..cursor]) && forall i :: 0 <= i < cursor ==> routed[i].destination < d
    {
      offsets := offsets + [cursor];
      var status := CheckBlock(routed, cursor, counts[d], d);
      if status != BlockFits {
        if RoutingOrder(routed) {
          OrderedBlock(routed, d);
        }
        return if status == BlockNotSorted then NotDestinationSorted else IdsNotIncreasing;
      }
      BelowStep(routed, d);
      ExtendOrder(routed, cursor, counts[d], d);
      cursor := cursor + counts[d];
    }
    BelowAll(routed, size);
    assert routed[..|routed|] == routed;
    result := Laid(RoutingLayout(counts, offsets));
  }
}
