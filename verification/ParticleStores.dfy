/** One rank's owned particles: wrapping, selection by owner, in-place compaction and backward merge. */
module ParticleStores {
  import opened Collections
  import opened Binary64
  import opened ExchangeBuffer
  import opened SlabLayout

  /** A full phase-space state; the mass is the represented one, uniform or explicit. */
  datatype Phase = Phase(x: Double, y: Double, z: Double, px: Double, py: Double, pz: Double, mass: Double)

  type Body = Particle<Phase>

  ghost predicate FinitePosition(p: Body) {
    p.state.x.IsFinite() && p.state.y.IsFinite() && p.state.z.IsFinite()
  }

  ghost predicate FiniteMomentum(p: Body) {
    p.state.px.IsFinite() && p.state.py.IsFinite() && p.state.pz.IsFinite()
  }

  /** Finite fields and a positive mass. */
  ghost predicate Sound(p: Body) {
    FinitePosition(p) && FiniteMomentum(p) && p.state.mass.IsPositive()
  }

  /** Finite and inside the box on every axis. */
  ghost predicate CanonicalPosition(p: Body, box: nat) {
    FinitePosition(p) && IsCanonical(p.state.x, box) && IsCanonical(p.state.y, box) && IsCanonical(p.state.z, box)
  }

  /**
   * Placement of particles, as abstract functions: proofs about stores do not see the arithmetic behind it.
   * canonical moves a particle into the box, rank is its owner.
   */
  datatype Placement = Placement(canonical: Body -> Body, rank: Body -> nat, size: nat)
  {
    ghost predicate Valid() {
      && (forall p: Body :: rank(p) < size)
      && (forall p: Body {:trigger rank(canonical(p))} :: rank(canonical(p)) == rank(p))
      && (forall p: Body {:trigger canonical(canonical(p))} :: canonical(canonical(p)) == canonical(p))
      && (forall p: Body {:trigger canonical(p)} :: canonical(p).id == p.id && canonical(p).state.mass == p.state.mass)
    }
  }

  /** q is p with every coordinate wrapped into the box: identifier, momentum and mass are those of p. */
  ghost predicate IsWrapped(box: nat, p: Body, q: Body) {
    && q.id == p.id && q.state.mass == p.state.mass
    && q.state.px == p.state.px && q.state.py == p.state.py && q.state.pz == p.state.pz
    && q.state.x == CanonicalCoordinate(p.state.x, box)
    && q.state.y == CanonicalCoordinate(p.state.y, box)
    && q.state.z == CanonicalCoordinate(p.state.z, box)
  }

  ghost function Wrapped(box: nat, p: Body): (q: Body)
    ensures IsWrapped(box, p, q)
  {
    p.(state := p.state.(x := CanonicalCoordinate(p.state.x, box), y := CanonicalCoordinate(p.state.y, box),
      z := CanonicalCoordinate(p.state.z, box)))
  }

  /** The placement of a topology: wrapped coordinates, owner by the cell of the x coordinate. */
  ghost function PlacementOf(t: Topology): Placement
    requires t.Valid()
  {
    Placement((p: Body) => Wrapped(t.box, p), (p: Body) => Owner(t, p.state.x), t.Size())
  }

  ghost predicate Agrees(t: Topology, pl: Placement, p: Body)
    requires t.Valid()
  {
    pl.rank(p) == Owner(t, p.state.x) && IsWrapped(t.box, p, pl.canonical(p))
  }

  ghost predicate Realizes(t: Topology, pl: Placement) {
    && t.Valid() && pl.Valid() && pl.size == t.Size()
    && forall p: Body {:trigger Agrees(t, pl, p)} :: Agrees(t, pl, p)
  }

  lemma PlacementRealizes(t: Topology)
    requires t.Valid()
    ensures Realizes(t, PlacementOf(t))
  {
    var pl := PlacementOf(t);
    forall p: Body
      ensures Agrees(t, pl, p) && pl.rank(p) < pl.size
      ensures pl.rank(pl.canonical(p)) == pl.rank(p) && pl.canonical(pl.canonical(p)) == pl.canonical(p)
      ensures pl.canonical(p).id == p.id && pl.canonical(p).state.mass == p.state.mass
    {
      OwnerOfWrapped(t, p.state.x);
      CanonicalTwice(p.state.x, t.box);
      CanonicalTwice(p.state.y, t.box);
      CanonicalTwice(p.state.z, t.box);
    }
  }

  /** The canonical particle and the rank it belongs on. */
  method Place(t: Topology, ghost pl: Placement, p: Body) returns (particle: Body, rank: nat)
    requires Realizes(t, pl)
    ensures particle == pl.canonical(p) && rank == pl.rank(p) < pl.size
  {
    assert Agrees(t, pl, p) && Agrees(t, pl, pl.canonical(p));
    assert pl.rank(pl.canonical(p)) == pl.rank(p);
    particle := p.(state := p.state.(x := CanonicalCoordinate(p.state.x, t.box),
      y := CanonicalCoordinate(p.state.y, t.box), z := CanonicalCoordinate(p.state.z, t.box)));
    rank := OwnerRank(t, particle.state.x);
  }

  ghost function WrappedAll(pl: Placement, owned: seq<Body>): (r: seq<Body>)
    ensures |r| == |owned|
  {
    seq(|owned|, i requires 0 <= i < |owned| => pl.canonical(owned[i]))
  }

  /** The particles of one store that belong on rank r, wrapped, in order. */
  ghost function Mine(pl: Placement, owned: seq<Body>, r: nat): (s: seq<Body>)
    ensures |s| <= |owned|
  {
    if owned == [] then []
    else
      var n := |owned| - 1;
      Mine(pl, owned[..n], r) + if pl.rank(owned[n]) == r then [pl.canonical(owned[n])] else []
  }

  // ---- identifier order ----

  ghost predicate StrictIds(s: seq<Body>) {
    forall i, j :: 0 <= i < j < |s| ==> s[i].id < s[j].id
  }

  ghost predicate DistinctIds(s: seq<Body>) {
    forall i, j :: 0 <= i < j < |s| ==> s[i].id != s[j].id
  }

  function IdKey(p: Body): int {
    p.id
  }

  lemma SortedDistinctIsStrict(s: seq<Body>)
    requires SortedBy(IdKey, s) && DistinctIds(s)
    ensures StrictIds(s)
  {
    forall i, j | 0 <= i < j < |s|
      ensures s[i].id < s[j].id
    {
      assert IdKey(s[i]) <= IdKey(s[j]);
    }
  }

  lemma StrictPrefix(s: seq<Body>, n: nat)
    requires StrictIds(s) && n <= |s|
    ensures StrictIds(s[..n])
  {
  }

  lemma StrictLast(s: seq<Body>, p: Body)
    requires StrictIds(s) && p in s
    ensures s != [] && p.id <= s[|s| - 1].id
    ensures p.id == s[|s| - 1].id ==> p == s[|s| - 1]
  {
    var i :| 0 <= i < |s| && s[i] == p;
  }

  lemma WithoutLast(s: seq<Body>)
    requires s != []
    ensures multiset(s[..|s| - 1]) == multiset(s) - multiset{s[|s| - 1]}
    ensures s == s[..|s| - 1] + [s[|s| - 1]]
  {
    assert s == s[..|s| - 1] + [s[|s| - 1]];
  }

  lemma SameLast(a: seq<Body>, b: seq<Body>)
    requires StrictIds(a) && StrictIds(b) && multiset(a) == multiset(b) && a != [] && b != []
    ensures a[|a| - 1] == b[|b| - 1]
  {
    assert a[|a| - 1] in multiset(b) && b[|b| - 1] in multiset(a);
    StrictLast(b, a[|a| - 1]);
    StrictLast(a, b[|b| - 1]);
  }

  /** A set of particles has one arrangement in strict identifier order. */
  lemma {:induction false} StrictUnique(a: seq<Body>, b: seq<Body>)
    requires StrictIds(a) && StrictIds(b) && multiset(a) == multiset(b)
    ensures a == b
  {
    SameLength(a, b);
    if a != [] {
      SameLast(a, b);
      WithoutLast(a);
      WithoutLast(b);
      StrictPrefix(a, |a| - 1);
      StrictPrefix(b, |b| - 1);
      StrictUnique(a[..|a| - 1], b[..|b| - 1]);
    }
  }

  lemma AtMostOnce(s: seq<Body>, p: Body)
    requires DistinctIds(s)
    ensures multiset(s)[p] <= 1
  {
    if multiset(s)[p] >= 2 {
      var i, j := TwoPositions(s, p);
    }
  }

  lemma DistinctPermuted(a: seq<Body>, b: seq<Body>)
    requires multiset(a) == multiset(b) && DistinctIds(a)
    ensures DistinctIds(b)
  {
    forall i, j | 0 <= i < j < |b|
      ensures b[i].id != b[j].id
    {
      assert b[i] in multiset(a) && b[j] in multiset(a);
      AtMostOnce(a, b[i]);
      if b[i] == b[j] {
        TwiceCounted(b, i, j);
      } else {
        var p :| 0 <= p < |a| && a[p] == b[i];
        var q :| 0 <= q < |a| && a[q] == b[j];
        assert p < q || q < p;
      }
    }
  }

  // ---- selection ----

  lemma MineSnoc(pl: Placement, owned: seq<Body>, i: nat, r: nat)
    requires i < |owned|
    ensures Mine(pl, owned[..i + 1], r)
      == Mine(pl, owned[..i], r) + if pl.rank(owned[i]) == r then [pl.canonical(owned[i])] else []
  {
    assert owned[..i + 1][..i] == owned[..i];
  }

  /** A selected particle stands for one of the store with its identifier. */
  lemma {:induction false} MineOrigin(pl: Placement, owned: seq<Body>, r: nat, k: nat) returns (i: nat)
    requires k < |Mine(pl, owned, r)|
    ensures i < |owned| && pl.rank(owned[i]) == r && Mine(pl, owned, r)[k] == pl.canonical(owned[i])
  {
    var n := |owned| - 1;
    if k < |Mine(pl, owned[..n], r)| {
      i := MineOrigin(pl, owned[..n], r, k);
    } else {
      i := n;
    }
  }

  lemma {:induction false} MineStrict(pl: Placement, owned: seq<Body>, r: nat)
    requires pl.Valid() && StrictIds(owned)
    ensures StrictIds(Mine(pl, owned, r))
  {
    if owned != [] {
      var n := |owned| - 1;
      MineStrict(pl, owned[..n], r);
      forall k | 0 <= k < |Mine(pl, owned[..n], r)|
        ensures Mine(pl, owned[..n], r)[k].id < owned[n].id
      {
        var i := MineOrigin(pl, owned[..n], r, k);
      }
    }
  }

  /** When the whole store belongs here, selection only wraps. */
  lemma {:induction false} MineAll(pl: Placement, owned: seq<Body>, r: nat)
    requires forall i :: 0 <= i < |owned| ==> pl.rank(owned[i]) == r
    ensures Mine(pl, owned, r) == WrappedAll(pl, owned)
    ensures forall q: nat :: q != r ==> Mine(pl, owned, q) == []
  {
    if owned != [] {
      var n := |owned| - 1;
      MineAll(pl, owned[..n], r);
    }
  }

  // ---- in place ----

  lemma AllAreWrapped(t: Topology, pl: Placement, before: seq<Body>, after: seq<Body>)
    requires Realizes(t, pl) && after == WrappedAll(pl, before)
    ensures forall i :: 0 <= i < |before| ==> IsWrapped(t.box, before[i], after[i])
  {
    forall i | 0 <= i < |before|
      ensures IsWrapped(t.box, before[i], after[i])
    {
      assert Agrees(t, pl, before[i]);
    }
  }

  /** Wrap every particle where it is. */
  method WrapInPlace(t: Topology, ghost pl: Placement, a: array<Body>)
    requires Realizes(t, pl)
    modifies a
    ensures a[..] == WrappedAll(pl, old(a[..]))
    ensures forall i :: 0 <= i < a.Length ==> IsWrapped(t.box, old(a[..])[i], a[..][i])
  {
    for i := 0 to a.Length
      invariant forall k :: 0 <= k < i ==> a[k] == pl.canonical(old(a[k]))
      invariant forall k :: i <= k < a.Length ==> a[k] == old(a[k])
    {
      var particle, rank := Place(t, pl, a[i]);
      a[i] := particle;
    }
    AllAreWrapped(t, pl, old(a[..]), a[..]);
  }

  /** Move the particles staying on this rank to the front, wrapped: a read cursor ahead of a write cursor. */
  method Compact(t: Topology, ghost pl: Placement, a: array<Body>, rank: nat) returns (write: nat)
    requires Realizes(t, pl)
    modifies a
    ensures write <= a.Length && a[..write] == Mine(pl, old(a[..]), rank)
  {
    write := 0;
    ghost var before := a[..];
    for read := 0 to a.Length
      invariant write <= read && a[..write] == Mine(pl, before[..read], rank)
      invariant forall k :: read <= k < a.Length ==> a[k] == before[k]
    {
      MineSnoc(pl, before, read, rank);
      var particle, owner := Place(t, pl, a[read]);
      if owner == rank {
        ghost var kept := a[..write];
        a[write] := particle;
        assert a[..write + 1] == kept + [particle];
        write := write + 1;
      }
    }
    assert before[..a.Length] == before;
  }

  /** Resize twice, keeping the leading particles: first to the retained count, then to the final one. */
  method Resized(a: array<Body>, keep: nat, count: nat) returns (b: array<Body>)
    requires keep <= a.Length && keep <= count
    ensures fresh(b) && b.Length == count && b[..keep] == a[..keep]
  {
    var vacant := Particle(0, Phase(POSITIVE_ZERO, POSITIVE_ZERO, POSITIVE_ZERO, POSITIVE_ZERO, POSITIVE_ZERO,
      POSITIVE_ZERO, POSITIVE_ZERO));
    b := new Body[count](_ => vacant);
    for i := 0 to keep
      invariant forall k :: 0 <= k < i ==> b[k] == a[k]
    {
      b[i] := a[i];
    }
  }

  ghost predicate Apart(a: seq<Body>, b: seq<Body>) {
    forall p, q :: p in a && q in b ==> p.id != q.id
  }

  /** Everything still to be placed has smaller identifiers than everything placed. */
  ghost predicate Under(a: seq<Body>, placed: seq<Body>) {
    forall i, j :: 0 <= i < |a| && 0 <= j < |placed| ==> a[i].id < placed[j].id
  }

  ghost predicate MergeState(retained: seq<Body>, incoming: seq<Body>, r: nat, n: nat, merged: seq<Body>) {
    && r <= |retained| && n <= |incoming|
    && StrictIds(merged) && Under(retained[..r], merged) && Under(incoming[..n], merged)
    && multiset(merged) == multiset(retained[r..]) + multiset(incoming[n..])
  }

  lemma TakeRetained(retained: seq<Body>, incoming: seq<Body>, r: nat, n: nat, merged: seq<Body>)
    requires StrictIds(retained) && StrictIds(incoming) && r > 0 && MergeState(retained, incoming, r, n, merged)
    requires n > 0 ==> incoming[n - 1].id < retained[r - 1].id
    ensures MergeState(retained, incoming, r - 1, n, [retained[r - 1]] + merged)
  {
    TakeLast(retained, r, merged);
    StillUnder(incoming, n, retained[r - 1], merged);
  }

  lemma TakeIncoming(retained: seq<Body>, incoming: seq<Body>, r: nat, n: nat, merged: seq<Body>)
    requires StrictIds(retained) && StrictIds(incoming) && n > 0 && MergeState(retained, incoming, r, n, merged)
    requires r > 0 ==> retained[r - 1].id < incoming[n - 1].id
    ensures MergeState(retained, incoming, r, n - 1, [incoming[n - 1]] + merged)
  {
    TakeLast(incoming, n, merged);
    StillUnder(retained, r, incoming[n - 1], merged);
  }

  /** Moving the last unread record in front of the placed ones. */
  lemma TakeLast(side: seq<Body>, n: nat, merged: seq<Body>)
    requires StrictIds(side) && 0 < n <= |side| && StrictIds(merged) && Under(side[..n], merged)
    ensures StrictIds([side[n - 1]] + merged) && Under(side[..n - 1], [side[n - 1]] + merged)
    ensures multiset([side[n - 1]] + merged) == multiset(merged) + multiset{side[n - 1]}
    ensures multiset(side[n - 1..]) == multiset(side[n..]) + multiset{side[n - 1]}
  {
    var p := side[n - 1];
    assert side[n - 1..] == [p] + side[n..];
    forall j | 0 <= j < |merged|
      ensures p.id < merged[j].id
    {
      assert side[..n][n - 1].id < merged[j].id;
    }
    forall i, j | 0 <= i < n - 1 && 0 <= j < |merged|
      ensures side[i].id < merged[j].id
    {
      assert side[..n][i].id < merged[j].id;
    }
  }

  /** The other side stays under what is placed. */
  lemma StillUnder(side: seq<Body>, n: nat, p: Body, merged: seq<Body>)
    requires StrictIds(side) && n <= |side| && Under(side[..n], merged) && (n > 0 ==> side[n - 1].id < p.id)
    ensures Under(side[..n], [p] + merged)
  {
    forall i | 0 <= i < n
      ensures side[..n][i].id < p.id
    {
      assert side[i].id <= side[n - 1].id;
    }
  }

  lemma MergeEnd(retained: seq<Body>, incoming: seq<Body>, r: nat, merged: seq<Body>)
    requires StrictIds(retained) && MergeState(retained, incoming, r, 0, merged)
    ensures StrictIds(retained[..r] + merged)
    ensures multiset(retained[..r] + merged) == multiset(retained) + multiset(incoming)
  {
    assert retained == retained[..r] + retained[r..];
    assert incoming[0..] == incoming;
    StrictPrefix(retained, r);
    var all := retained[..r] + merged;
    forall i, j | 0 <= i < j < |all|
      ensures all[i].id < all[j].id
    {
      if i < r && j >= r {
        assert retained[..r][i].id < merged[j - r].id;
      }
    }
  }

  lemma LastRetained(before: seq<Body>, retained: seq<Body>, r: nat)
    requires 0 < r <= |before| && r <= |retained| && before[..r] == retained[..r]
    ensures before[r - 1] == retained[r - 1] && before[..r - 1] == retained[..r - 1]
  {
    assert before[..r][r - 1] == retained[..r][r - 1];
    assert before[..r - 1] == before[..r][..r - 1] && retained[..r - 1] == retained[..r][..r - 1];
  }

  lemma PlaceFront(before: seq<Body>, after: seq<Body>, output: nat, p: Body, r: nat)
    requires r <= output < |before| && after == before[output := p]
    ensures after[output..] == [p] + before[output + 1..] && after[..r] == before[..r]
  {
  }

  /** The tail was built from the back, each time by the larger of the two last unread records. */
  ghost predicate BuiltFrom(retained: seq<Body>, incoming: seq<Body>, r: nat, n: nat, tail: seq<Body>)
    decreases |tail|
  {
    if tail == [] then r == |retained| && n == |incoming|
    else
      || (r < |retained| && tail[0] == retained[r] && (0 < n <= |incoming| ==> incoming[n - 1].id < tail[0].id)
          && BuiltFrom(retained, incoming, r + 1, n, tail[1..]))
      || (n < |incoming| && tail[0] == incoming[n] && (0 < r <= |retained| ==> retained[r - 1].id < tail[0].id)
          && BuiltFrom(retained, incoming, r, n + 1, tail[1..]))
  }

  lemma BuildRetained(retained: seq<Body>, incoming: seq<Body>, r: nat, n: nat, tail: seq<Body>)
    requires r < |retained| && BuiltFrom(retained, incoming, r + 1, n, tail)
    requires 0 < n <= |incoming| ==> incoming[n - 1].id < retained[r].id
    ensures BuiltFrom(retained, incoming, r, n, [retained[r]] + tail)
  {
    assert ([retained[r]] + tail)[1..] == tail;
  }

  lemma BuildIncoming(retained: seq<Body>, incoming: seq<Body>, r: nat, n: nat, tail: seq<Body>)
    requires n < |incoming| && BuiltFrom(retained, incoming, r, n + 1, tail)
    requires 0 < r <= |retained| ==> retained[r - 1].id < incoming[n].id
    ensures BuiltFrom(retained, incoming, r, n, [incoming[n]] + tail)
  {
    assert ([incoming[n]] + tail)[1..] == tail;
  }

  /** Such a tail is in strict order, above everything unread, and holds exactly the records read. */
  lemma {:induction false} BuiltIsMerged(retained: seq<Body>, incoming: seq<Body>, r: nat, n: nat, tail: seq<Body>)
    requires StrictIds(retained) && StrictIds(incoming) && BuiltFrom(retained, incoming, r, n, tail)
    ensures MergeState(retained, incoming, r, n, tail)
    decreases |tail|
  {
    if tail == [] {
      assert retained[r..] == [] && incoming[n..] == [];
    } else {
      assert tail == [tail[0]] + tail[1..];
      if r < |retained| && tail[0] == retained[r] && (0 < n <= |incoming| ==> incoming[n - 1].id < tail[0].id)
        && BuiltFrom(retained, incoming, r + 1, n, tail[1..])
      {
        BuiltIsMerged(retained, incoming, r + 1, n, tail[1..]);
        TakeRetained(retained, incoming, r + 1, n, tail[1..]);
      } else {
        BuiltIsMerged(retained, incoming, r, n + 1, tail[1..]);
        TakeIncoming(retained, incoming, r, n + 1, tail[1..]);
      }
    }
  }

  /** The array during the merge: unread retained records in front, merged records from the output position on. */
  ghost predicate Merging(a: seq<Body>, retained: seq<Body>, incoming: seq<Body>, r: nat, n: nat, output: nat) {
    && r <= |retained| && n <= |incoming| && output == r + n && output <= |a| && a[..r] == retained[..r]
    && BuiltFrom(retained, incoming, r, n, a[output..])
  }

  lemma MergingStart(a: seq<Body>, retained: nat, incoming: seq<Body>)
    requires retained + |incoming| == |a|
    ensures Merging(a, a[..retained], incoming, retained, |incoming|, |a|)
  {
    assert a[..retained][..retained] == a[..retained] && a[|a|..] == [];
  }

  lemma RetainedStep(before: seq<Body>, retained: seq<Body>, incoming: seq<Body>, r: nat, n: nat, output: nat, p: Body)
    requires Merging(before, retained, incoming, r + 1, n, output + 1)
    requires p == retained[r] && (n > 0 ==> incoming[n - 1].id < p.id)
    ensures Merging(before[output := p], retained, incoming, r, n, output)
  {
    BuildRetained(retained, incoming, r, n, before[output + 1..]);
    PlaceFront(before, before[output := p], output, p, r);
    assert before[..r] == before[..r + 1][..r] && retained[..r] == retained[..r + 1][..r];
  }

  lemma IncomingStep(before: seq<Body>, retained: seq<Body>, incoming: seq<Body>, r: nat, n: nat, output: nat, p: Body)
    requires Merging(before, retained, incoming, r, n + 1, output + 1)
    requires p == incoming[n] && (r > 0 ==> retained[r - 1].id < p.id)
    ensures Merging(before[output := p], retained, incoming, r, n, output)
  {
    BuildIncoming(retained, incoming, r, n, before[output + 1..]);
    PlaceFront(before, before[output := p], output, p, r);
  }

  lemma FrontRetained(before: seq<Body>, retained: seq<Body>, incoming: seq<Body>, r: nat, n: nat, output: nat)
    requires Merging(before, retained, incoming, r, n, output) && r > 0
    ensures before[r - 1] == retained[r - 1]
  {
    LastRetained(before, retained, r);
  }

  lemma MergingEnd(a: seq<Body>, retained: seq<Body>, incoming: seq<Body>, r: nat)
    requires StrictIds(retained) && StrictIds(incoming) && Merging(a, retained, incoming, r, 0, r)
    ensures StrictIds(a) && multiset(a) == multiset(retained) + multiset(incoming)
  {
    BuiltIsMerged(retained, incoming, r, 0, a[r..]);
    MergeEnd(retained, incoming, r, a[r..]);
    assert a == retained[..r] + a[r..];
  }

  /** Copy the last unread retained record to the output position, unless it is there already. */
  method CopyRetained(a: array<Body>, r: nat, n: nat, output: nat, ghost retained: seq<Body>, incoming: seq<Body>)
    requires Merging(a[..], retained, incoming, r + 1, n, output + 1)
    requires n > 0 ==> incoming[n - 1].id < a[r].id
    modifies a
    ensures Merging(a[..], retained, incoming, r, n, output)
  {
    FrontRetained(a[..], retained, incoming, r + 1, n, output + 1);
    RetainedStep(a[..], retained, incoming, r, n, output, a[r]);
    ghost var next := a[..][output := a[r]];
    if r != output {
      a[output] := a[r];
    }
    assert a[..] == next;
  }

  /** Copy the last unread incoming record to the output position. */
  method CopyIncoming(a: array<Body>, r: nat, n: nat, output: nat, ghost retained: seq<Body>, incoming: seq<Body>)
    requires Merging(a[..], retained, incoming, r, n + 1, output + 1)
    requires r > 0 ==> a[r - 1].id < incoming[n].id
    modifies a
    ensures Merging(a[..], retained, incoming, r, n, output)
  {
    if r > 0 {
      FrontRetained(a[..], retained, incoming, r, n + 1, output + 1);
    }
    IncomingStep(a[..], retained, incoming, r, n, output, incoming[n]);
    ghost var next := a[..][output := incoming[n]];
    a[output] := incoming[n];
    assert a[..] == next;
  }

  lemma NoCollision(a: seq<Body>, retained: seq<Body>, incoming: seq<Body>, r: nat, n: nat, output: nat)
    requires Merging(a, retained, incoming, r, n, output) && Apart(retained, incoming) && r > 0 && n > 0
    ensures output <= |a| && a[r - 1].id != incoming[n - 1].id
  {
    FrontRetained(a, retained, incoming, r, n, output);
    assert retained[r - 1] in retained && incoming[n - 1] in incoming;
  }

  /** The overlapping part of the merge, until one side is used up; equal identifiers are an error that never occurs. */
  method MergeOverlap(a: array<Body>, retainedCount: nat, ghost retained: seq<Body>, incoming: seq<Body>)
    returns (ok: bool, r: nat, n: nat, output: nat)
    requires Apart(retained, incoming) && Merging(a[..], retained, incoming, retainedCount, |incoming|, a.Length)
    modifies a
    ensures ok && (r == 0 || n == 0) && Merging(a[..], retained, incoming, r, n, output)
  {
    r, n, output := retainedCount, |incoming|, a.Length;
    while r > 0 && n > 0
      invariant Merging(a[..], retained, incoming, r, n, output)
    {
      NoCollision(a[..], retained, incoming, r, n, output);
      if a[r - 1].id == incoming[n - 1].id {
        return false, r, n, output;
      }
      output := output - 1;
      if a[r - 1].id > incoming[n - 1].id {
        r := r - 1;
        CopyRetained(a, r, n, output, retained, incoming);
      } else {
        n := n - 1;
        CopyIncoming(a, r, n, output, retained, incoming);
      }
    }
    ok := true;
  }

  /**
   * Fill the tail from the back, always taking the larger identifier; unread retained records are never overwritten.
   */
  method MergeBackward(a: array<Body>, retainedCount: nat, incoming: seq<Body>) returns (ok: bool)
    requires retainedCount + |incoming| == a.Length
    requires StrictIds(a[..retainedCount]) && StrictIds(incoming) && Apart(a[..retainedCount], incoming)
    modifies a
    ensures ok && StrictIds(a[..])
    ensures multiset(a[..]) == multiset(old(a[..retainedCount])) + multiset(incoming)
  {
    ghost var retained := a[..retainedCount];
    MergingStart(a[..], retainedCount, incoming);
    var apart: bool, r: nat, n: nat, output: nat := MergeOverlap(a, retainedCount, retained, incoming);
    if !apart {
      return false;
    }
    while n > 0
      invariant n > 0 ==> r == 0
      invariant Merging(a[..], retained, incoming, r, n, output)
    {
      n := n - 1;
      output := output - 1;
      CopyIncoming(a, r, n, output, retained, incoming);
    }
    MergingEnd(a[..], retained, incoming, r);
    ok := output == r;
  }

  // ---- checks on received records ----

  /** A retained identifier equals an incoming one: both sides are scanned in identifier order. */
  method CollidesWithRetained(t: Topology, ghost pl: Placement, owned: seq<Body>, rank: nat, incoming: seq<Body>)
    returns (collides: bool)
    requires Realizes(t, pl) && StrictIds(owned) && StrictIds(incoming)
    ensures collides <==> !Apart(Mine(pl, owned, rank), incoming)
  {
    var cursor: nat := 0;
    var i: nat := 0;
    while i < |owned| && cursor < |incoming|
      invariant i <= |owned| && cursor <= |incoming|
      invariant Passed(pl, owned, rank, incoming, i, cursor)
    {
      var particle, owner := Place(t, pl, owned[i]);
      if owner == rank {
        ghost var from := cursor;
        while cursor < |incoming| && incoming[cursor].id < owned[i].id
          invariant from <= cursor <= |incoming|
          invariant forall k :: from <= k < cursor ==> incoming[k].id < owned[i].id
        {
          cursor := cursor + 1;
        }
        if cursor < |incoming| && incoming[cursor].id == owned[i].id {
          CollisionFound(pl, owned, rank, incoming, i, cursor);
          return true;
        }
        PassMine(pl, owned, rank, incoming, i, from, cursor);
      } else {
        PassOther(pl, owned, rank, incoming, i, cursor);
      }
      i := i + 1;
    }
    AllPassed(pl, owned, rank, incoming, i, cursor);
    collides := false;
  }

  /**
   * Retained records scanned so far meet no incoming record; incoming ones passed are below all retained still to come.
   */
  ghost predicate Passed(pl: Placement, owned: seq<Body>, rank: nat, incoming: seq<Body>, i: nat, cursor: nat) {
    && i <= |owned| && cursor <= |incoming|
    && (forall j, k :: 0 <= j < i && 0 <= k < |incoming| && pl.rank(owned[j]) == rank ==> owned[j].id != incoming[k].id)
    && (forall j, k :: i <= j < |owned| && 0 <= k < cursor ==> incoming[k].id < owned[j].id)
  }

  lemma PassMine(pl: Placement, owned: seq<Body>, rank: nat, incoming: seq<Body>, i: nat, from: nat, cursor: nat)
    requires StrictIds(owned) && StrictIds(incoming) && Passed(pl, owned, rank, incoming, i, from)
    requires i < |owned| && from <= cursor <= |incoming| && forall k :: from <= k < cursor ==>
      incoming[k].id < owned[i].id
    requires cursor < |incoming| ==> incoming[cursor].id > owned[i].id
    ensures Passed(pl, owned, rank, incoming, i + 1, cursor)
  {
    forall k | 0 <= k < |incoming|
      ensures k < cursor ==> incoming[k].id < owned[i].id
      ensures k >= cursor ==> incoming[k].id > owned[i].id
    {
      assert k > cursor ==> incoming[cursor].id < incoming[k].id;
    }
    forall j | i + 1 <= j < |owned|
      ensures owned[i].id < owned[j].id
    {
    }
  }

  lemma PassOther(pl: Placement, owned: seq<Body>, rank: nat, incoming: seq<Body>, i: nat, cursor: nat)
    requires Passed(pl, owned, rank, incoming, i, cursor) && i < |owned| && pl.rank(owned[i]) != rank
    ensures Passed(pl, owned, rank, incoming, i + 1, cursor)
  {
  }

  lemma {:induction false} MineHas(pl: Placement, owned: seq<Body>, r: nat, i: nat)
    requires i < |owned| && pl.rank(owned[i]) == r
    ensures pl.canonical(owned[i]) in Mine(pl, owned, r)
  {
    var n := |owned| - 1;
    if i < n {
      MineHas(pl, owned[..n], r, i);
    }
  }

  lemma CollisionFound(pl: Placement, owned: seq<Body>, rank: nat, incoming: seq<Body>, i: nat, k: nat)
    requires pl.Valid() && i < |owned| && k < |incoming| && pl.rank(owned[i]) == rank && incoming[k].id == owned[i].id
    ensures !Apart(Mine(pl, owned, rank), incoming)
  {
    MineHas(pl, owned, rank, i);
    assert pl.canonical(owned[i]).id == owned[i].id && incoming[k] in incoming;
  }

  lemma AllPassed(pl: Placement, owned: seq<Body>, rank: nat, incoming: seq<Body>, i: nat, cursor: nat)
    requires pl.Valid() && Passed(pl, owned, rank, incoming, i, cursor) && (i == |owned| || cursor == |incoming|)
    ensures Apart(Mine(pl, owned, rank), incoming)
  {
    forall p, q | p in Mine(pl, owned, rank) && q in incoming
      ensures p.id != q.id
    {
      var m: nat :| m < |Mine(pl, owned, rank)| && Mine(pl, owned, rank)[m] == p;
      var j := MineOrigin(pl, owned, rank, m);
      var k: nat :| k < |incoming| && incoming[k] == q;
      assert pl.canonical(owned[j]).id == owned[j].id;
    }
  }

  method CountRetained(t: Topology, ghost pl: Placement, owned: seq<Body>, rank: nat) returns (count: nat)
    requires Realizes(t, pl)
    ensures count == |Mine(pl, owned, rank)|
  {
    count := 0;
    for i := 0 to |owned|
      invariant count == |Mine(pl, owned[..i], rank)|
    {
      var particle, owner := Place(t, pl, owned[i]);
      MineSnoc(pl, owned, i, rank);
      if owner == rank {
        count := count + 1;
      }
    }
    assert owned[..|owned|] == owned;
  }

  /**
   * Replace a rank's particles by its retained and incoming records: compact the live array, resize it, and merge into
   * the resized one. False stands for accounting errors that never occur.
   */
  method CommitSparse(t: Topology, ghost pl: Placement, live: array<Body>, rank: nat, retainedCount: nat,
                      incoming: seq<Body>)
    returns (ok: bool, published: array<Body>)
    requires Realizes(t, pl) && StrictIds(live[..]) && StrictIds(incoming) && Apart(Mine(pl, live[..], rank), incoming)
    requires retainedCount == |Mine(pl, live[..], rank)|
    modifies live
    ensures ok && fresh(published) && StrictIds(published[..])
    ensures multiset(published[..]) == multiset(Mine(pl, old(live[..]), rank)) + multiset(incoming)
  {
    ghost var before := live[..];
    MineStrict(pl, before, rank);
    var write := Compact(t, pl, live, rank);
    if write != retainedCount {
      return false, live;
    }
    published := Resized(live, retainedCount, retainedCount + |incoming|);
    ok := MergeBackward(published, retainedCount, incoming);
    ghost var merged := published[..];
    var i := 1;
    while i < published.Length && ok
      invariant i >= 1 && ok && merged == published[..]
    {
      ok := published[i - 1].id < published[i].id;
      i := i + 1;
    }
  }
}
