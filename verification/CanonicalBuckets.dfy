/** Hash-bucket canonicalization of a distributed identifier set, and the set-preservation check built on it. */
module CanonicalBuckets {
  import opened Powers
  import opened Collections
  import opened ExchangeBuffer
  import opened BoundedMigration
  import opened GlobalIdCheck

  /** n % d by repeated subtraction. */
  function Remainder(n: nat, d: nat): (r: nat)
    requires d > 0
    ensures r < d
  {
    if n < d then n else Remainder(n - d, d)
  }

  lemma {:induction false} RemainderIsMod(n: nat, d: nat)
    requires d > 0
    ensures Remainder(n, d) == n % d
  {
    if n >= d {
      RemainderIsMod(n - d, d);
      ModOnce(n - d, d);
    }
  }

  lemma ModOnce(a: nat, size: nat)
    requires size > 0
    ensures (a + size) % size == a % size
  {
    var q, r := a / size, a % size;
    assert a + size == (q + 1) * size + r;
    DivUnique(a + size, size, q + 1, r);
  }

  /** Which checker rank an identifier goes to; only determinism of the mixing matters. */
  function Owner(mix: ParticleId -> nat, id: ParticleId, size: nat): (r: nat)
    requires size > 0
    ensures r < size
  {
    Remainder(mix(id), size)
  }

  lemma OwnerIsMod(mix: ParticleId -> nat, id: ParticleId, size: nat)
    requires size > 0
    ensures Owner(mix, id, size) == mix(id) % size
  {
    RemainderIsMod(mix(id), size);
  }

  /** The identifiers of one rank that a checker rank owns, in order. */
  ghost function Share(mix: ParticleId -> nat, ids: seq<ParticleId>, d: nat, size: nat): (r: seq<ParticleId>)
    requires size > 0
    ensures |r| <= |ids|
  {
    if ids == [] then []
    else
      var n := |ids| - 1;
      Share(mix, ids[..n], d, size) + if Owner(mix, ids[n], size) == d then [ids[n]] else []
  }

  /** Where the share of a checker begins in the grouped send order. */
  ghost function ShareOffset(mix: ParticleId -> nat, ids: seq<ParticleId>, d: nat, size: nat): nat
    requires size > 0
  {
    if d == 0 then 0 else ShareOffset(mix, ids, d - 1, size) + |Share(mix, ids, d - 1, size)|
  }

  lemma ShareSnoc(mix: ParticleId -> nat, ids: seq<ParticleId>, i: nat, d: nat, size: nat)
    requires size > 0 && i < |ids|
    ensures Share(mix, ids[..i + 1], d, size)
      == Share(mix, ids[..i], d, size) + if Owner(mix, ids[i], size) == d then [ids[i]] else []
  {
    assert ids[..i + 1][..i] == ids[..i];
  }

  lemma {:induction false} ShareGrows(mix: ParticleId -> nat, ids: seq<ParticleId>, i: nat, d: nat, size: nat)
    requires size > 0 && i <= |ids|
    ensures |Share(mix, ids[..i], d, size)| <= |Share(mix, ids, d, size)|
    decreases |ids| - i
  {
    if i < |ids| {
      ShareSnoc(mix, ids, i, d, size);
      ShareGrows(mix, ids, i + 1, d, size);
    } else {
      assert ids[..i] == ids;
    }
  }

  lemma {:induction false} OffsetsOrdered(mix: ParticleId -> nat, ids: seq<ParticleId>, d: nat, e: nat, size: nat)
    requires size > 0 && d < e
    ensures ShareOffset(mix, ids, d, size) + |Share(mix, ids, d, size)| <= ShareOffset(mix, ids, e, size)
    decreases e
  {
    if d < e - 1 {
      OffsetsOrdered(mix, ids, d, e - 1, size);
    }
  }

  /** One more identifier lengthens exactly one share. */
  lemma {:induction false} OffsetSnoc(mix: ParticleId -> nat, ids: seq<ParticleId>, i: nat, d: nat, size: nat)
    requires size > 0 && i < |ids|
    ensures ShareOffset(mix, ids[..i + 1], d, size)
      == ShareOffset(mix, ids[..i], d, size) + if Owner(mix, ids[i], size) < d then 1 else 0
  {
    if d > 0 {
      OffsetSnoc(mix, ids, i, d - 1, size);
      ShareSize(mix, ids, i, d - 1, size);
    }
  }

  lemma ShareSize(mix: ParticleId -> nat, ids: seq<ParticleId>, i: nat, d: nat, size: nat)
    requires size > 0 && i < |ids|
    ensures |Share(mix, ids[..i + 1], d, size)|
      == |Share(mix, ids[..i], d, size)| + if Owner(mix, ids[i], size) == d then 1 else 0
  {
    ShareSnoc(mix, ids, i, d, size);
  }

  /** The shares of all checkers together are all identifiers. */
  lemma {:induction false} SharesCover(mix: ParticleId -> nat, ids: seq<ParticleId>, i: nat, size: nat)
    requires size > 0 && i <= |ids|
    ensures ShareOffset(mix, ids[..i], size, size) == i
  {
    if i == 0 {
      NoShares(mix, size, size);
      assert ids[..0] == [];
    } else {
      SharesCover(mix, ids, i - 1, size);
      OffsetSnoc(mix, ids, i - 1, size, size);
    }
  }

  lemma {:induction false} NoShares(mix: ParticleId -> nat, d: nat, size: nat)
    requires size > 0
    ensures ShareOffset(mix, [], d, size) == 0
  {
    if d > 0 {
      NoShares(mix, d - 1, size);
    }
  }

  // ---- grouping by owner ----

  method CountShares(mix: ParticleId -> nat, ids: seq<ParticleId>, size: nat) returns (counts: seq<nat>)
    requires size > 0
    ensures |counts| == size && forall d :: 0 <= d < size ==> counts[d] == |Share(mix, ids, d, size)|
  {
    counts := seq(size, _ => 0);
    for i := 0 to |ids|
      invariant |counts| == size
      invariant forall d :: 0 <= d < size ==> counts[d] == |Share(mix, ids[..i], d, size)|
    {
      var d := Owner(mix, ids[i], size);
      forall e | 0 <= e < size
        ensures |Share(mix, ids[..i + 1], e, size)| == |Share(mix, ids[..i], e, size)| + if e == d then 1 else 0
      {
        ShareSnoc(mix, ids, i, e, size);
      }
      counts := counts[d := counts[d] + 1];
    }
    assert ids[..|ids|] == ids;
  }

  method StartOffsets(mix: ParticleId -> nat, ids: seq<ParticleId>, counts: seq<nat>, size: nat)
    returns (offsets: seq<nat>)
    requires size > 0
    requires |counts| == size && forall d :: 0 <= d < size ==> counts[d] == |Share(mix, ids, d, size)|
    ensures |offsets| == size && forall d :: 0 <= d < size ==> offsets[d] == ShareOffset(mix, ids, d, size)
  {
    offsets := [];
    var total := 0;
    for d := 0 to size
      invariant |offsets| == d && total == ShareOffset(mix, ids, d, size)
      invariant forall e :: 0 <= e < d ==> offsets[e] == ShareOffset(mix, ids, e, size)
    {
      offsets := offsets + [total];
      NextOffset(mix, ids, d, size, total, counts[d]);
      total := total + counts[d];
    }
  }

  /** The next share begins where this one ends. */
  lemma NextOffset(mix: ParticleId -> nat, ids: seq<ParticleId>, d: nat, size: nat, begin: nat, count: nat)
    requires size > 0 && begin == ShareOffset(mix, ids, d, size) && count == |Share(mix, ids, d, size)|
    ensures begin + count == ShareOffset(mix, ids, d + 1, size)
  {
  }

  /** One checker's region holds its share of the identifiers seen so far. */
  ghost predicate Placed(mix: ParticleId -> nat, ids: seq<ParticleId>, i: nat, d: nat, size: nat,
                         order: seq<ParticleId>)
    requires size > 0 && i <= |ids|
  {
    var begin, share := ShareOffset(mix, ids, d, size), Share(mix, ids[..i], d, size);
    begin + |share| <= |order| && order[begin..begin + |share|] == share
  }

  lemma PlaceOther(mix: ParticleId -> nat, ids: seq<ParticleId>, i: nat, d: nat, e: nat, size: nat,
                   order: seq<ParticleId>, cursor: nat)
    requires size > 0 && i < |ids| && d < size && e < size && d != e && Owner(mix, ids[i], size) == d
    requires Placed(mix, ids, i, e, size, order) && cursor < |order|
    requires cursor == ShareOffset(mix, ids, d, size) + |Share(mix, ids[..i], d, size)|
    ensures Placed(mix, ids, i + 1, e, size, order[cursor := ids[i]])
  {
    ShareSnoc(mix, ids, i, e, size);
    CursorOutside(mix, ids, i, d, e, size);
    UpdateOutside(order, ShareOffset(mix, ids, e, size), Share(mix, ids[..i], e, size), cursor, ids[i]);
  }

  /** The next place of one checker's share is outside what is placed of another's. */
  lemma CursorOutside(mix: ParticleId -> nat, ids: seq<ParticleId>, i: nat, d: nat, e: nat, size: nat)
    requires size > 0 && i < |ids| && d < size && e < size && d != e && Owner(mix, ids[i], size) == d
    ensures var cursor := ShareOffset(mix, ids, d, size) + |Share(mix, ids[..i], d, size)|;
      var begin := ShareOffset(mix, ids, e, size);
      cursor < begin || begin + |Share(mix, ids[..i], e, size)| <= cursor
  {
    ShareSnoc(mix, ids, i, d, size);
    ShareGrows(mix, ids, i, e, size);
    ShareGrows(mix, ids, i + 1, d, size);
    if e < d {
      OffsetsOrdered(mix, ids, e, d, size);
    } else {
      OffsetsOrdered(mix, ids, d, e, size);
    }
  }

  lemma UpdateOutside(order: seq<ParticleId>, begin: nat, share: seq<ParticleId>, cursor: nat, id: ParticleId)
    requires begin + |share| <= |order| && order[begin..begin + |share|] == share && cursor < |order|
    requires cursor < begin || begin + |share| <= cursor
    ensures order[cursor := id][begin..begin + |share|] == share
  {
  }

  lemma PlaceOwn(mix: ParticleId -> nat, ids: seq<ParticleId>, i: nat, d: nat, size: nat, order: seq<ParticleId>,
                 cursor: nat)
    requires size > 0 && i < |ids| && d < size && Owner(mix, ids[i], size) == d
    requires Placed(mix, ids, i, d, size, order) && cursor < |order|
    requires cursor == ShareOffset(mix, ids, d, size) + |Share(mix, ids[..i], d, size)|
    ensures Placed(mix, ids, i + 1, d, size, order[cursor := ids[i]])
  {
    ShareSnoc(mix, ids, i, d, size);
    var begin := ShareOffset(mix, ids, d, size);
    assert order[cursor := ids[i]][begin..cursor + 1] == order[begin..cursor] + [ids[i]];
  }

  lemma CursorInside(mix: ParticleId -> nat, ids: seq<ParticleId>, i: nat, d: nat, size: nat)
    requires size > 0 && i < |ids| && d < size && Owner(mix, ids[i], size) == d
    ensures ShareOffset(mix, ids, d, size) + |Share(mix, ids[..i], d, size)| < |ids|
  {
    ShareSnoc(mix, ids, i, d, size);
    ShareGrows(mix, ids, i + 1, d, size);
    OffsetsOrdered(mix, ids, d, size, size);
    SharesCover(mix, ids, |ids|, size);
    assert ids[..|ids|] == ids;
  }

  ghost predicate Cursors(mix: ParticleId -> nat, ids: seq<ParticleId>, i: nat, size: nat, cursors: seq<nat>)
    requires size > 0 && i <= |ids|
  {
    && |cursors| == size
    && forall d :: 0 <= d < size ==> cursors[d] == ShareOffset(mix, ids, d, size) + |Share(mix, ids[..i], d, size)|
  }

  ghost predicate AllPlaced(mix: ParticleId -> nat, ids: seq<ParticleId>, i: nat, size: nat, order: seq<ParticleId>)
    requires size > 0 && i <= |ids|
  {
    forall d :: 0 <= d < size ==> Placed(mix, ids, i, d, size, order)
  }

  /** Writing the next identifier at its owner's cursor keeps every region right. */
  lemma PlaceStep(mix: ParticleId -> nat, ids: seq<ParticleId>, i: nat, size: nat, cursors: seq<nat>,
                  order: seq<ParticleId>)
    requires size > 0 && i < |ids| == |order| && Cursors(mix, ids, i, size, cursors)
    requires AllPlaced(mix, ids, i, size, order)
    ensures var d := Owner(mix, ids[i], size);
      && cursors[d] < |order|
      && Cursors(mix, ids, i + 1, size, cursors[d := cursors[d] + 1])
      && AllPlaced(mix, ids, i + 1, size, order[cursors[d] := ids[i]])
  {
    var d := Owner(mix, ids[i], size);
    var cursor := cursors[d];
    CursorInside(mix, ids, i, d, size);
    forall e | 0 <= e < size
      ensures Placed(mix, ids, i + 1, e, size, order[cursor := ids[i]])
      ensures cursors[d := cursor + 1][e] == ShareOffset(mix, ids, e, size) + |Share(mix, ids[..i + 1], e, size)|
    {
      ShareSnoc(mix, ids, i, e, size);
      assert Placed(mix, ids, i, e, size, order);
      if e == d {
        PlaceOwn(mix, ids, i, d, size, order, cursor);
      } else {
        PlaceOther(mix, ids, i, d, e, size, order, cursor);
      }
    }
  }

  /** Put one identifier at its owner's cursor and advance it. */
  method PlaceOne(mix: ParticleId -> nat, ids: seq<ParticleId>, i: nat, size: nat, cursors: seq<nat>,
                  order: array<ParticleId>)
    returns (ok: bool, next: seq<nat>)
    requires size > 0 && i < |ids| == order.Length
    requires Cursors(mix, ids, i, size, cursors) && AllPlaced(mix, ids, i, size, order[..])
    modifies order
    ensures ok && Cursors(mix, ids, i + 1, size, next) && AllPlaced(mix, ids, i + 1, size, order[..])
  {
    PlaceStep(mix, ids, i, size, cursors, order[..]);
    var d := Owner(mix, ids[i], size);
    if cursors[d] >= order.Length {
      return false, cursors;
    }
    ghost var placed := order[..][cursors[d] := ids[i]];
    order[cursors[d]] := ids[i];
    assert order[..] == placed;
    ok, next := true, cursors[d := cursors[d] + 1];
  }

  /** Place all identifiers in one pass. */
  method PlaceIds(mix: ParticleId -> nat, ids: seq<ParticleId>, size: nat, offsets: seq<nat>, order: array<ParticleId>)
    returns (ok: bool, cursors: seq<nat>)
    requires size > 0 && order.Length == |ids|
    requires Cursors(mix, ids, 0, size, offsets) && AllPlaced(mix, ids, 0, size, order[..])
    modifies order
    ensures ok && Cursors(mix, ids, |ids|, size, cursors) && AllPlaced(mix, ids, |ids|, size, order[..])
  {
    ok, cursors := true, offsets;
    for i := 0 to |ids|
      invariant ok && Cursors(mix, ids, i, size, cursors) && AllPlaced(mix, ids, i, size, order[..])
    {
      ok, cursors := PlaceOne(mix, ids, i, size, cursors, order);
      if !ok {
        return;
      }
    }
  }

  /** Group the local identifiers by owner; false is the accounting error, which never occurs. */
  method SendOrder(mix: ParticleId -> nat, ids: seq<ParticleId>, size: nat)
    returns (ok: bool, counts: seq<nat>, offsets: seq<nat>, order: array<ParticleId>)
    requires size > 0
    ensures ok && fresh(order) && order.Length == |ids|
    ensures |counts| == size && forall d :: 0 <= d < size ==> counts[d] == |Share(mix, ids, d, size)|
    ensures |offsets| == size && forall d :: 0 <= d < size ==> offsets[d] == ShareOffset(mix, ids, d, size)
    ensures AllPlaced(mix, ids, |ids|, size, order[..])
  {
    counts := CountShares(mix, ids, size);
    offsets := StartOffsets(mix, ids, counts, size);
    order := new ParticleId[|ids|];
    StartPlaced(mix, ids, size, order[..]);
    var cursors;
    ok, cursors := PlaceIds(mix, ids, size, offsets, order);
    if !ok {
      return;
    }
    ghost var starts := FinalCursors(mix, ids, counts, cursors, size);
    ok := CheckCursors(counts, cursors, |ids|, starts);
  }

  lemma StartPlaced(mix: ParticleId -> nat, ids: seq<ParticleId>, size: nat, order: seq<ParticleId>)
    requires size > 0 && |order| == |ids|
    ensures forall d :: 0 <= d < size ==> Placed(mix, ids, 0, d, size, order) && |Share(mix, ids[..0], d, size)| == 0
  {
    SharesCover(mix, ids, |ids|, size);
    assert ids[..|ids|] == ids;
    forall d | 0 <= d < size
      ensures Placed(mix, ids, 0, d, size, order) && |Share(mix, ids[..0], d, size)| == 0
    {
      OffsetsOrdered(mix, ids, d, size, size);
    }
  }

  ghost predicate EndCursors(counts: seq<nat>, cursors: seq<nat>, total: nat, starts: seq<nat>) {
    && |counts| == |cursors| && |starts| == |cursors| + 1 && starts[0] == 0 && starts[|cursors|] == total
    && forall d {:trigger cursors[d]} :: 0 <= d < |cursors| ==>
      cursors[d] == starts[d] + counts[d] && starts[d + 1] == cursors[d]
  }

  lemma FinalCursors(mix: ParticleId -> nat, ids: seq<ParticleId>, counts: seq<nat>, cursors: seq<nat>, size: nat)
    returns (starts: seq<nat>)
    requires size > 0 && |counts| == size && Cursors(mix, ids, |ids|, size, cursors)
    requires forall d :: 0 <= d < size ==> counts[d] == |Share(mix, ids, d, size)|
    ensures EndCursors(counts, cursors, |ids|, starts)
  {
    assert ids[..|ids|] == ids;
    SharesCover(mix, ids, |ids|, size);
    starts := Starts(mix, ids, size);
    forall d | 0 <= d < size
      ensures cursors[d] == starts[d] + counts[d] && starts[d + 1] == cursors[d]
    {
      var e := d + 1;
      assert starts[d] == ShareOffset(mix, ids, d, size) && starts[e] == ShareOffset(mix, ids, e, size);
      assert ShareOffset(mix, ids, e, size) == ShareOffset(mix, ids, d, size) + |Share(mix, ids, d, size)|;
    }
  }

  /** Where each checker's share begins, and where the last one ends. */
  ghost function Starts(mix: ParticleId -> nat, ids: seq<ParticleId>, size: nat): (starts: seq<nat>)
    requires size > 0
    ensures |starts| == size + 1 && forall d :: 0 <= d <= size ==> starts[d] == ShareOffset(mix, ids, d, size)
  {
    seq(size + 1, d requires 0 <= d <= size => ShareOffset(mix, ids, d, size))
  }

  /** Every cursor stops where the next share begins, and the last at the end. */
  method CheckCursors(counts: seq<nat>, cursors: seq<nat>, total: nat, ghost starts: seq<nat>) returns (ok: bool)
    requires EndCursors(counts, cursors, total, starts)
    ensures ok
  {
    var expected := 0;
    for d := 0 to |counts|
      invariant expected == starts[d]
    {
      if cursors[d] != expected + counts[d] {
        return false;
      }
      expected := expected + counts[d];
    }
    ok := expected == total;
  }

  // ---- the bounded ring exchange ----

  // Partners are found by remainders here; they are the partners of the ring.

  function BackSource(rank: nat, offset: nat, size: nat): nat
    requires size > 0 && offset <= size
  {
    Remainder(rank - offset + size, size)
  }

  function AheadDestination(rank: nat, offset: nat, size: nat): nat
    requires size > 0
  {
    Remainder(rank + offset, size)
  }

  function BackOffset(rank: nat, source: nat, size: nat): int {
    if rank >= source then rank - source else rank + size - source
  }

  lemma BackIsRing(rank: nat, offset: nat, size: nat)
    requires rank < size && offset < size
    ensures BackSource(rank, offset, size) == RingSource(rank, offset, size) < size
    ensures AheadDestination(rank, offset, size) == RingDestination(rank, offset, size) < size
    ensures AheadDestination(BackSource(rank, offset, size), offset, size) == rank
  {
    assert BackSource(rank, offset, size) == RingSource(rank, offset, size) by {
      if rank >= offset {
        assert Remainder(rank - offset, size) == rank - offset;
      }
    }
    AheadIsRing(rank, offset, size);
    AheadIsRing(RingSource(rank, offset, size), offset, size);
  }

  lemma AheadIsRing(rank: nat, offset: nat, size: nat)
    requires rank < size && offset < size
    ensures AheadDestination(rank, offset, size) == RingDestination(rank, offset, size)
  {
    if rank + offset >= size {
      assert Remainder(rank + offset - size, size) == rank + offset - size;
    }
  }

  /** Where a source's share lands at checker r, and all landed shares together. */
  ghost function LandOffset(mix: ParticleId -> nat, world: seq<seq<ParticleId>>, r: nat, s: nat): nat
    requires s <= |world|
  {
    if s == 0 then 0 else LandOffset(mix, world, r, s - 1) + |Share(mix, world[s - 1], r, |world|)|
  }

  ghost function Gathered(mix: ParticleId -> nat, world: seq<seq<ParticleId>>, r: nat, s: nat): seq<ParticleId>
    requires s <= |world|
  {
    if s == 0 then [] else Gathered(mix, world, r, s - 1) + Share(mix, world[s - 1], r, |world|)
  }

  lemma {:induction false} LandsOrdered(mix: ParticleId -> nat, world: seq<seq<ParticleId>>, r: nat, a: nat, b: nat)
    requires a < b <= |world|
    ensures LandOffset(mix, world, r, a) + |Share(mix, world[a], r, |world|)| <= LandOffset(mix, world, r, b)
    decreases b
  {
    if a < b - 1 {
      LandsOrdered(mix, world, r, a, b - 1);
    }
  }

  ghost predicate Landed(mix: ParticleId -> nat, world: seq<seq<ParticleId>>, r: nat, s: nat, bucket: seq<ParticleId>)
    requires s < |world|
  {
    var at, share := LandOffset(mix, world, r, s), Share(mix, world[s], r, |world|);
    at + |share| <= |bucket| && bucket[at..at + |share|] == share
  }

  lemma {:induction false} LandedGather(mix: ParticleId -> nat, world: seq<seq<ParticleId>>, r: nat, s: nat,
                                        bucket: seq<ParticleId>)
    requires s <= |world| && forall q :: 0 <= q < s ==> Landed(mix, world, r, q, bucket)
    ensures LandOffset(mix, world, r, s) <= |bucket|
    ensures bucket[..LandOffset(mix, world, r, s)] == Gathered(mix, world, r, s)
  {
    if s > 0 {
      LandedGather(mix, world, r, s - 1, bucket);
      assert Landed(mix, world, r, s - 1, bucket);
      PrefixAndShare(bucket, LandOffset(mix, world, r, s - 1), Gathered(mix, world, r, s - 1),
        Share(mix, world[s - 1], r, |world|));
    }
  }

  lemma PrefixAndShare(bucket: seq<ParticleId>, at: nat, before: seq<ParticleId>, share: seq<ParticleId>)
    requires at + |share| <= |bucket| && bucket[..at] == before && bucket[at..at + |share|] == share
    ensures bucket[..at + |share|] == before + share
  {
    assert bucket[..at + |share|] == bucket[..at] + bucket[at..at + |share|];
  }

  /** What one rank contributes to the exchange: its grouped identifiers with counts and offsets. */
  datatype Grouped = Grouped(counts: seq<nat>, offsets: seq<nat>, order: seq<ParticleId>)

  ghost predicate IsGrouped(mix: ParticleId -> nat, ids: seq<ParticleId>, size: nat, g: Grouped)
    requires size > 0
  {
    && |g.counts| == |g.offsets| == size
    && (forall d :: 0 <= d < size ==> g.counts[d] == |Share(mix, ids, d, size)|)
    && (forall d :: 0 <= d < size ==> g.offsets[d] == ShareOffset(mix, ids, d, size))
    && AllPlaced(mix, ids, |ids|, size, g.order)
  }

  ghost predicate AllGrouped(mix: ParticleId -> nat, world: seq<seq<ParticleId>>, groups: seq<Grouped>) {
    |groups| == |world| && forall s {:trigger groups[s]} :: 0 <= s < |world| ==>
      IsGrouped(mix, world[s], |world|, groups[s])
  }

  lemma ShareInOrder(mix: ParticleId -> nat, ids: seq<ParticleId>, size: nat, g: Grouped, d: nat)
    requires size > 0 && d < size && IsGrouped(mix, ids, size, g)
    ensures g.offsets[d] + g.counts[d] <= |g.order|
    ensures g.order[g.offsets[d]..g.offsets[d] + g.counts[d]] == Share(mix, ids, d, size)
  {
    assert Placed(mix, ids, |ids|, d, size, g.order);
    assert ids[..|ids|] == ids;
  }

  lemma LandingFits(mix: ParticleId -> nat, world: seq<seq<ParticleId>>, r: nat, s: nat)
    requires s < |world|
    ensures LandOffset(mix, world, r, s) + |Share(mix, world[s], r, |world|)| <= LandOffset(mix, world, r, |world|)
  {
    LandsOrdered(mix, world, r, s, |world|);
  }

  lemma OthersStayLanded(mix: ParticleId -> nat, world: seq<seq<ParticleId>>, r: nat, s: nat, q: nat,
                         before: seq<ParticleId>, after: seq<ParticleId>)
    requires s < |world| && q < |world| && s != q && |before| == |after| && Landed(mix, world, r, q, before)
    requires forall i :: 0 <= i < |before| ==>
      (LandOffset(mix, world, r, s) <= i < LandOffset(mix, world, r, s) + |Share(mix, world[s], r, |world|)|)
      || after[i] == before[i]
    ensures Landed(mix, world, r, q, after)
  {
    if q < s {
      LandsOrdered(mix, world, r, q, s);
    } else {
      LandsOrdered(mix, world, r, s, q);
    }
  }

  lemma GroupOf(mix: ParticleId -> nat, world: seq<seq<ParticleId>>, groups: seq<Grouped>, s: nat, r: nat)
    requires s < |world| && r < |world| && AllGrouped(mix, world, groups)
    ensures |groups[s].counts| == |groups[s].offsets| == |world|
    ensures groups[s].counts[r] == |Share(mix, world[s], r, |world|)|
    ensures groups[s].offsets[r] + groups[s].counts[r] <= |groups[s].order|
    ensures groups[s].order[groups[s].offsets[r]..groups[s].offsets[r] + groups[s].counts[r]] ==
      Share(mix, world[s], r, |world|)
  {
    assert IsGrouped(mix, world[s], |world|, groups[s]);
    ShareInOrder(mix, world[s], |world|, groups[s], r);
  }

  /** The count table transposed: how much each source sends here. */
  method ReceiveCounts(mix: ParticleId -> nat, world: seq<seq<ParticleId>>, groups: seq<Grouped>, r: nat)
    returns (counts: seq<nat>)
    requires r < |world| && AllGrouped(mix, world, groups)
    ensures |counts| == |world| && forall s :: 0 <= s < |world| ==> counts[s] == |Share(mix, world[s], r, |world|)|
  {
    counts := [];
    for s := 0 to |world|
      invariant |counts| == s
      invariant forall q :: 0 <= q < s ==> counts[q] == |Share(mix, world[q], r, |world|)|
    {
      GroupOf(mix, world, groups, s, r);
      counts := counts + [groups[s].counts[r]];
    }
  }

  method ReceiveLayout(mix: ParticleId -> nat, world: seq<seq<ParticleId>>, counts: seq<nat>, r: nat)
    returns (offsets: seq<nat>, total: nat)
    requires r < |world| && |counts| == |world|
    requires forall s :: 0 <= s < |world| ==> counts[s] == |Share(mix, world[s], r, |world|)|
    ensures total == LandOffset(mix, world, r, |world|)
    ensures |offsets| == |world| && forall s :: 0 <= s < |world| ==> offsets[s] == LandOffset(mix, world, r, s)
  {
    offsets, total := [], 0;
    for s := 0 to |world|
      invariant |offsets| == s && total == LandOffset(mix, world, r, s)
      invariant forall q :: 0 <= q < s ==> offsets[q] == LandOffset(mix, world, r, q)
    {
      offsets := offsets + [total];
      total := total + counts[s];
    }
  }

  ghost predicate HeardBefore(mix: ParticleId -> nat, world: seq<seq<ParticleId>>, r: nat, offset: nat,
                              bucket: seq<ParticleId>)
  {
    forall q :: 0 <= q < |world| && BackOffset(r, q, |world|) < offset ==> Landed(mix, world, r, q, bucket)
  }

  lemma AllHeard(mix: ParticleId -> nat, world: seq<seq<ParticleId>>, r: nat, bucket: seq<ParticleId>)
    requires r < |world| && HeardBefore(mix, world, r, |world|, bucket)
    requires |bucket| == LandOffset(mix, world, r, |world|)
    ensures bucket == Gathered(mix, world, r, |world|)
  {
    forall q | 0 <= q < |world|
      ensures Landed(mix, world, r, q, bucket)
    {
      assert BackOffset(r, q, |world|) < |world|;
    }
    LandedGather(mix, world, r, |world|, bucket);
    assert bucket[..|bucket|] == bucket;
  }

  // ---- all ranks exchange their shares ----

  /** A rank at one offset: what it has sent to its destination and what it has received from its source. */
  datatype Side = Side(sent: nat, received: nat)

  /** What a rank knows before the exchange: its own grouped identifiers, and what every source has for it. */
  datatype Layout = Layout(grouped: Grouped, counts: seq<nat>, offsets: seq<nat>)

  ghost predicate IsLayout(mix: ParticleId -> nat, world: seq<seq<ParticleId>>, r: nat, l: Layout)
    requires r < |world|
  {
    && IsGrouped(mix, world[r], |world|, l.grouped) && |l.counts| == |l.offsets| == |world|
    && (forall s :: 0 <= s < |world| ==> l.counts[s] == |Share(mix, world[s], r, |world|)|)
    && (forall s :: 0 <= s < |world| ==> l.offsets[s] == LandOffset(mix, world, r, s))
  }

  ghost predicate AllLaidOut(mix: ParticleId -> nat, world: seq<seq<ParticleId>>, layouts: seq<Layout>) {
    |layouts| == |world| && forall r {:trigger layouts[r]} :: 0 <= r < |world| ==> IsLayout(mix, world, r, layouts[r])
  }

  /** The first part of a source's share has landed. */
  ghost predicate Filled(mix: ParticleId -> nat, world: seq<seq<ParticleId>>, r: nat, s: nat, received: nat,
                         bucket: seq<ParticleId>)
    requires s < |world|
  {
    var at, share := LandOffset(mix, world, r, s), Share(mix, world[s], r, |world|);
    received <= |share| && at + |share| <= |bucket| && bucket[at..at + received] == share[..received]
  }

  /** A rank before a round: its counters, and its bucket. */
  ghost predicate SideAt(mix: ParticleId -> nat, world: seq<seq<ParticleId>>, offset: nat, chunk: nat, round: nat,
                         r: nat, side: Side, bucket: seq<ParticleId>)
    requires chunk > 0 && offset < |world| && r < |world|
  {
    BackIsRing(r, offset, |world|);
    var s, d := BackSource(r, offset, |world|), AheadDestination(r, offset, |world|);
    && side.sent == Covered(|Share(mix, world[r], d, |world|)|, round, chunk)
    && side.received == Covered(|Share(mix, world[s], r, |world|)|, round, chunk)
    && |bucket| == LandOffset(mix, world, r, |world|)
    && HeardBefore(mix, world, r, offset, bucket) && Filled(mix, world, r, s, side.received, bucket)
  }

  ghost function SidesAt(mix: ParticleId -> nat, world: seq<seq<ParticleId>>, offset: nat, chunk: nat, round: nat)
    : (nat, Side, seq<ParticleId>) -> bool
    requires chunk > 0 && offset < |world|
  {
    (r: nat, side: Side, bucket: seq<ParticleId>) =>
      r < |world| && SideAt(mix, world, offset, chunk, round, r, side, bucket)
  }

  /** Every rank has a bucket of its own. */
  ghost predicate Apart(buckets: seq<array<ParticleId>>) {
    forall a, b :: 0 <= a < b < |buckets| ==> buckets[a] != buckets[b]
  }

  ghost predicate AllSides(good: (nat, Side, seq<ParticleId>) -> bool, sides: seq<Side>,
                           buckets: seq<array<ParticleId>>)
    reads buckets
  {
    |sides| == |buckets| && forall r :: 0 <= r < |sides| ==> good(r, sides[r], buckets[r][..])
  }

  /** What a rank sends in a round, from its own counts, its own order and what it has sent so far. */
  ghost predicate SendsChunk(mix: ParticleId -> nat, world: seq<seq<ParticleId>>, offset: nat, chunk: nat, s: nat,
                             sent: nat, message: seq<ParticleId>)
    requires offset < |world| && s < |world|
  {
    var share := Share(mix, world[s], AheadDestination(s, offset, |world|), |world|);
    sent <= |share| && message == share[sent..sent + Min(chunk, |share| - sent)]
  }

  method NextChunk(mix: ParticleId -> nat, world: seq<seq<ParticleId>>, offset: nat, chunk: nat, s: nat, layout: Layout,
                   side: Side)
    returns (message: seq<ParticleId>)
    requires offset < |world| && s < |world| && IsLayout(mix, world, s, layout)
    requires side.sent <= |Share(mix, world[s], AheadDestination(s, offset, |world|), |world|)|
    ensures SendsChunk(mix, world, offset, chunk, s, side.sent, message)
  {
    BackIsRing(s, offset, |world|);
    var destination := AheadDestination(s, offset, |world|);
    ShareInOrder(mix, world[s], |world|, layout.grouped, destination);
    var sendThis := Min(chunk, layout.grouped.counts[destination] - side.sent);
    var begin := layout.grouped.offsets[destination] + side.sent;
    ghost var share := Share(mix, world[s], destination, |world|);
    assert layout.grouped.counts[destination] == |share|;
    message := layout.grouped.order[begin..begin + sendThis];
    SliceOfShare(layout.grouped.order, layout.grouped.offsets[destination], share, side.sent, sendThis);
    assert message == share[side.sent..side.sent + sendThis];
  }

  lemma SliceOfShare(order: seq<ParticleId>, at: nat, share: seq<ParticleId>, sent: nat, k: nat)
    requires at + |share| <= |order| && order[at..at + |share|] == share && sent + k <= |share|
    ensures order[at + sent..at + sent + k] == share[sent..sent + k]
  {
    var part, expected := order[at + sent..at + sent + k], share[sent..sent + k];
    forall i | 0 <= i < k
      ensures part[i] == expected[i]
    {
      assert expected[i] == order[at..at + |share|][sent + i];
    }
    assert part == expected;
  }

  /** Both ends of a pair count alike: the source sends what its destination expects. */
  lemma PairAgrees(mix: ParticleId -> nat, world: seq<seq<ParticleId>>, offset: nat, chunk: nat, round: nat, r: nat,
                   mine: Side, bucket: seq<ParticleId>, theirs: Side, other: seq<ParticleId>,
                   message: seq<ParticleId>)
    requires chunk > 0 && offset < |world| && r < |world|
    requires SideAt(mix, world, offset, chunk, round, r, mine, bucket)
    requires BackSource(r, offset, |world|) < |world|
    requires SideAt(mix, world, offset, chunk, round, BackSource(r, offset, |world|), theirs, other)
    requires SendsChunk(mix, world, offset, chunk, BackSource(r, offset, |world|), theirs.sent, message)
    ensures var share := Share(mix, world[BackSource(r, offset, |world|)], r, |world|);
      && theirs.sent == mine.received && |message| == Min(chunk, |share| - mine.received)
      && mine.received + |message| == Covered(|share|, round + 1, chunk) <= |share|
      && message == share[mine.received..mine.received + |message|]
  {
    BackIsRing(r, offset, |world|);
    var share := Share(mix, world[BackSource(r, offset, |world|)], r, |world|);
    MinIsRoundCount(|share|, round, chunk);
  }

  lemma FillStep(mix: ParticleId -> nat, world: seq<seq<ParticleId>>, r: nat, s: nat, received: nat,
                 message: seq<ParticleId>, before: seq<ParticleId>, after: seq<ParticleId>)
    requires s < |world| && Filled(mix, world, r, s, received, before)
    requires var at, share := LandOffset(mix, world, r, s), Share(mix, world[s], r, |world|);
      && received + |message| <= |share| && message == share[received..received + |message|]
      && after == before[..at + received] + message + before[at + received + |message|..]
    ensures Filled(mix, world, r, s, received + |message|, after)
    ensures forall q :: 0 <= q < |world| && q != s && Landed(mix, world, r, q, before) ==>
      Landed(mix, world, r, q, after)
  {
    var at, share := LandOffset(mix, world, r, s), Share(mix, world[s], r, |world|);
    AppendPart(share, received, message, before, after, at);
    forall q | 0 <= q < |world| && q != s && Landed(mix, world, r, q, before)
      ensures Landed(mix, world, r, q, after)
    {
      OthersStayLanded(mix, world, r, s, q, before, after);
    }
  }

  lemma AppendPart(share: seq<ParticleId>, received: nat, message: seq<ParticleId>, before: seq<ParticleId>,
                   after: seq<ParticleId>, at: nat)
    requires received + |message| <= |share| && message == share[received..received + |message|]
    requires at + |share| <= |before| && before[at..at + received] == share[..received]
    requires after == before[..at + received] + message + before[at + received + |message|..]
    ensures |after| == |before| && after[at..at + (received + |message|)] == share[..received + |message|]
  {
    forall i | 0 <= i < received + |message|
      ensures after[at + i] == share[i]
    {
      if i < received {
        assert before[at..at + received][i] == share[..received][i];
      }
    }
  }

  /** Copy a received chunk into the bucket. */
  method StoreChunk(bucket: array<ParticleId>, at: nat, message: seq<ParticleId>)
    requires at + |message| <= bucket.Length
    modifies bucket
    ensures bucket[..] == old(bucket[..at]) + message + old(bucket[at + |message|..])
  {
    forall i | at <= i < at + |message| {
      bucket[i] := message[i - at];
    }
  }

  /** What a rank has in hand when a round was exchanged: its own state and the chunk of its source. */
  ghost function ChunkAt(mix: ParticleId -> nat, world: seq<seq<ParticleId>>, offset: nat, chunk: nat, round: nat)
    : (nat, Side, seq<ParticleId>, seq<ParticleId>) -> bool
    requires chunk > 0 && offset < |world|
  {
    (r: nat, side: Side, bucket: seq<ParticleId>, message: seq<ParticleId>) =>
      && r < |world| && SideAt(mix, world, offset, chunk, round, r, side, bucket)
      && Delivers(mix, world, offset, chunk, round, r, side.received, message)
  }

  /** The message is the next part of the source's share. */
  ghost predicate Delivers(mix: ParticleId -> nat, world: seq<seq<ParticleId>>, offset: nat, chunk: nat, round: nat,
                           r: nat, received: nat, message: seq<ParticleId>)
    requires chunk > 0 && offset < |world| && r < |world|
  {
    BackIsRing(r, offset, |world|);
    var share := Share(mix, world[BackSource(r, offset, |world|)], r, |world|);
    && received <= |share| && |message| == Min(chunk, |share| - received)
    && received + |message| == Covered(|share|, round + 1, chunk) <= |share|
    && message == share[received..received + |message|]
  }

  /** Take in the chunk of one's source. */
  method TakeMessage(mix: ParticleId -> nat, world: seq<seq<ParticleId>>, offset: nat, ghost chunk: nat,
                     ghost round: nat, r: nat, at: nat, received: nat, bucket: array<ParticleId>,
                     message: seq<ParticleId>)
    requires chunk > 0 && offset < |world| && r < |world| && BackSource(r, offset, |world|) < |world|
    requires at == LandOffset(mix, world, r, BackSource(r, offset, |world|))
    requires HeardBefore(mix, world, r, offset, bucket[..])
    requires Filled(mix, world, r, BackSource(r, offset, |world|), received, bucket[..])
    requires Delivers(mix, world, offset, chunk, round, r, received, message)
    modifies bucket
    ensures HeardBefore(mix, world, r, offset, bucket[..])
    ensures Filled(mix, world, r, BackSource(r, offset, |world|), received + |message|, bucket[..])
  {
    var s := BackSource(r, offset, |world|);
    ghost var before := bucket[..];
    StoreChunk(bucket, at + received, message);
    FillStep(mix, world, r, s, received, message, before, bucket[..]);
    StillHeard(mix, world, r, offset, s, before, bucket[..]);
  }

  /** One rank's side of a round: its own two counters go on by its own two counts. */
  method TakeChunk(mix: ParticleId -> nat, world: seq<seq<ParticleId>>, offset: nat, chunk: nat, ghost round: nat,
                   r: nat, layout: Layout, side: Side, bucket: array<ParticleId>, message: seq<ParticleId>)
    returns (next: Side)
    requires chunk > 0 && offset < |world| && r < |world| && IsLayout(mix, world, r, layout)
    requires SideAt(mix, world, offset, chunk, round, r, side, bucket[..])
    requires Delivers(mix, world, offset, chunk, round, r, side.received, message)
    modifies bucket
    ensures SideAt(mix, world, offset, chunk, round + 1, r, next, bucket[..])
  {
    BackIsRing(r, offset, |world|);
    var s, d := BackSource(r, offset, |world|), AheadDestination(r, offset, |world|);
    var sendThis := Min(chunk, layout.grouped.counts[d] - side.sent);
    var receiveThis := Min(chunk, layout.counts[s] - side.received);
    MinIsRoundCount(|Share(mix, world[r], d, |world|)|, round, chunk);
    TakeMessage(mix, world, offset, chunk, round, r, layout.offsets[s], side.received, bucket, message[..receiveThis]);
    next := Side(side.sent + sendThis, side.received + receiveThis);
  }

  lemma StillHeard(mix: ParticleId -> nat, world: seq<seq<ParticleId>>, r: nat, offset: nat, s: nat,
                   before: seq<ParticleId>, after: seq<ParticleId>)
    requires r < |world| && offset < |world| && s == BackSource(r, offset, |world|) < |world|
    requires HeardBefore(mix, world, r, offset, before)
    requires forall q :: 0 <= q < |world| && q != s && Landed(mix, world, r, q, before) ==>
      Landed(mix, world, r, q, after)
    ensures HeardBefore(mix, world, r, offset, after)
  {
    BackIsRing(r, offset, |world|);
  }

  /** ready gives what a round needs, for a loop that knows only ready. */
  ghost predicate GrantsChunk(ready: (nat, Side, seq<ParticleId>, seq<ParticleId>) -> bool, mix: ParticleId -> nat,
                              world: seq<seq<ParticleId>>, offset: nat, chunk: nat, round: nat)
    requires chunk > 0 && offset < |world|
  {
    forall r: nat, side, bucket, message
      {:trigger ChunkAt(mix, world, offset, chunk, round)(r, side, bucket, message)} ::
      ready(r, side, bucket, message) ==> ChunkAt(mix, world, offset, chunk, round)(r, side, bucket, message)
  }

  /** What holds after a round gives good. */
  ghost predicate GivesGood(good: (nat, Side, seq<ParticleId>) -> bool, mix: ParticleId -> nat,
                            world: seq<seq<ParticleId>>, offset: nat, chunk: nat, round: nat)
    requires chunk > 0 && offset < |world|
  {
    forall r: nat, side, bucket {:trigger SidesAt(mix, world, offset, chunk, round)(r, side, bucket)} ::
      SidesAt(mix, world, offset, chunk, round)(r, side, bucket) ==> good(r, side, bucket)
  }

  method TakeOne(mix: ParticleId -> nat, world: seq<seq<ParticleId>>, offset: nat, chunk: nat, ghost round: nat, r: nat,
                 layout: Layout, side: Side, bucket: array<ParticleId>, message: seq<ParticleId>,
                 ghost ready: (nat, Side, seq<ParticleId>, seq<ParticleId>) -> bool,
                 ghost good: (nat, Side, seq<ParticleId>) -> bool)
    returns (next: Side)
    requires chunk > 0 && offset < |world| && r < |world| && IsLayout(mix, world, r, layout)
    requires GrantsChunk(ready, mix, world, offset, chunk, round)
    requires GivesGood(good, mix, world, offset, chunk, round + 1)
    requires ready(r, side, bucket[..], message)
    modifies bucket
    ensures good(r, next, bucket[..])
  {
    assert ChunkAt(mix, world, offset, chunk, round)(r, side, bucket[..], message);
    next := TakeChunk(mix, world, offset, chunk, round, r, layout, side, bucket, message);
    assert SidesAt(mix, world, offset, chunk, round + 1)(r, next, bucket[..]);
  }

  ghost predicate AllReady(ready: (nat, Side, seq<ParticleId>, seq<ParticleId>) -> bool, sides: seq<Side>,
                           buckets: seq<array<ParticleId>>, incoming: seq<seq<ParticleId>>)
    reads buckets
  {
    && |sides| == |buckets| == |incoming|
    && forall r :: 0 <= r < |sides| ==> ready(r, sides[r], buckets[r][..], incoming[r])
  }

  method TakeAll(mix: ParticleId -> nat, world: seq<seq<ParticleId>>, offset: nat, chunk: nat, ghost round: nat,
                 layouts: seq<Layout>, sides: seq<Side>, buckets: seq<array<ParticleId>>,
                 incoming: seq<seq<ParticleId>>, ghost ready: (nat, Side, seq<ParticleId>, seq<ParticleId>) -> bool,
                 ghost good: (nat, Side, seq<ParticleId>) -> bool)
    returns (next: seq<Side>)
    requires chunk > 0 && offset < |world| == |buckets| && AllLaidOut(mix, world, layouts) && Apart(buckets)
    requires GrantsChunk(ready, mix, world, offset, chunk, round)
    requires GivesGood(good, mix, world, offset, chunk, round + 1)
    requires AllReady(ready, sides, buckets, incoming)
    modifies buckets
    ensures AllSides(good, next, buckets)
  {
    next := [];
    for r := 0 to |world|
      invariant |next| == r && forall q :: 0 <= q < r ==> good(q, next[q], buckets[q][..])
      invariant forall q :: r <= q < |world| ==> buckets[q][..] == old(buckets[q][..])
    {
      assert IsLayout(mix, world, r, layouts[r]);
      var side := TakeOne(mix, world, offset, chunk, round, r, layouts[r], sides[r], buckets[r], incoming[r], ready,
        good);
      next := next + [side];
    }
  }

  method CollectChunks(mix: ParticleId -> nat, world: seq<seq<ParticleId>>, offset: nat, chunk: nat, ghost round: nat,
                       layouts: seq<Layout>, sides: seq<Side>, buckets: seq<array<ParticleId>>)
    returns (outgoing: seq<seq<ParticleId>>)
    requires chunk > 0 && offset < |world| == |buckets| && AllLaidOut(mix, world, layouts)
    requires AllSides(SidesAt(mix, world, offset, chunk, round), sides, buckets)
    ensures |outgoing| == |world|
    ensures forall s :: 0 <= s < |world| ==> SendsChunk(mix, world, offset, chunk, s, sides[s].sent, outgoing[s])
  {
    outgoing := [];
    for s := 0 to |world|
      invariant |outgoing| == s
      invariant forall q :: 0 <= q < s ==> SendsChunk(mix, world, offset, chunk, q, sides[q].sent, outgoing[q])
    {
      assert IsLayout(mix, world, s, layouts[s]);
      SentInside(mix, world, offset, chunk, round, s, sides[s], buckets[s][..]);
      var message := NextChunk(mix, world, offset, chunk, s, layouts[s], sides[s]);
      outgoing := outgoing + [message];
    }
  }

  lemma SentInside(mix: ParticleId -> nat, world: seq<seq<ParticleId>>, offset: nat, chunk: nat, round: nat, s: nat,
                   side: Side, bucket: seq<ParticleId>)
    requires chunk > 0 && offset < |world| && s < |world|
    requires SidesAt(mix, world, offset, chunk, round)(s, side, bucket)
    ensures side.sent <= |Share(mix, world[s], AheadDestination(s, offset, |world|), |world|)|
  {
    RoundsTile(|Share(mix, world[s], AheadDestination(s, offset, |world|), |world|)|, round, chunk);
  }

  lemma RoundDelivers(mix: ParticleId -> nat, world: seq<seq<ParticleId>>, offset: nat, chunk: nat, round: nat,
                      sides: seq<Side>, buckets: seq<seq<ParticleId>>, outgoing: seq<seq<ParticleId>>, r: nat,
                      message: seq<ParticleId>)
    requires chunk > 0 && offset < |world| && r < |world| == |sides| == |buckets| == |outgoing|
    requires forall q :: 0 <= q < |world| ==> SidesAt(mix, world, offset, chunk, round)(q, sides[q], buckets[q])
    requires forall s :: 0 <= s < |world| ==> SendsChunk(mix, world, offset, chunk, s, sides[s].sent, outgoing[s])
    requires RingSource(r, offset, |world|) >= 0 && message == outgoing[RingSource(r, offset, |world|)]
    ensures ChunkAt(mix, world, offset, chunk, round)(r, sides[r], buckets[r], message)
  {
    BackIsRing(r, offset, |world|);
    var s := BackSource(r, offset, |world|);
    assert SidesAt(mix, world, offset, chunk, round)(r, sides[r], buckets[r]);
    assert SidesAt(mix, world, offset, chunk, round)(s, sides[s], buckets[s]);
    PairAgrees(mix, world, offset, chunk, round, r, sides[r], buckets[r], sides[s], buckets[s], message);
  }

  ghost function Contents(buckets: seq<array<ParticleId>>): (contents: seq<seq<ParticleId>>)
    reads buckets
    ensures |contents| == |buckets| && forall r :: 0 <= r < |buckets| ==> contents[r] == buckets[r][..]
  {
    seq(|buckets|, r requires 0 <= r < |buckets| reads buckets => buckets[r][..])
  }

  /** One round of one offset, on all ranks. */
  method ExchangeChunks(mix: ParticleId -> nat, world: seq<seq<ParticleId>>, offset: nat, chunk: nat, ghost round: nat,
                        layouts: seq<Layout>, sides: seq<Side>, buckets: seq<array<ParticleId>>)
    returns (next: seq<Side>)
    requires chunk > 0 && offset < |world| == |buckets| && AllLaidOut(mix, world, layouts) && Apart(buckets)
    requires AllSides(SidesAt(mix, world, offset, chunk, round), sides, buckets)
    modifies buckets
    ensures AllSides(SidesAt(mix, world, offset, chunk, round + 1), next, buckets)
  {
    var outgoing := CollectChunks(mix, world, offset, chunk, round, layouts, sides, buckets);
    var incoming := Sendrecv(outgoing, offset);
    forall r | 0 <= r < |world|
      ensures ChunkAt(mix, world, offset, chunk, round)(r, sides[r], buckets[r][..], incoming[r])
    {
      BackIsRing(r, offset, |world|);
      RoundDelivers(mix, world, offset, chunk, round, sides, Contents(buckets), outgoing, r, incoming[r]);
    }
    next := TakeAll(mix, world, offset, chunk, round, layouts, sides, buckets, incoming,
      ChunkAt(mix, world, offset, chunk, round), SidesAt(mix, world, offset, chunk, round + 1));
  }

  /** Every share of the ranks heard so far has landed. */
  ghost function HeardAt(mix: ParticleId -> nat, world: seq<seq<ParticleId>>, offset: nat)
    : (nat, seq<ParticleId>) -> bool
  {
    (r: nat, bucket: seq<ParticleId>) =>
      r < |world| && |bucket| == LandOffset(mix, world, r, |world|) && HeardBefore(mix, world, r, offset, bucket)
  }

  ghost predicate AllBuckets(good: (nat, seq<ParticleId>) -> bool, buckets: seq<array<ParticleId>>)
    reads buckets
  {
    forall r :: 0 <= r < |buckets| ==> good(r, buckets[r][..])
  }

  lemma StartSide(mix: ParticleId -> nat, world: seq<seq<ParticleId>>, offset: nat, chunk: nat, r: nat,
                  bucket: seq<ParticleId>)
    requires chunk > 0 && offset < |world| && HeardAt(mix, world, offset)(r, bucket)
    ensures SidesAt(mix, world, offset, chunk, 0)(r, Side(0, 0), bucket)
  {
    BackIsRing(r, offset, |world|);
    var s, d := BackSource(r, offset, |world|), AheadDestination(r, offset, |world|);
    LandingFits(mix, world, r, s);
    RoundsTile(|Share(mix, world[r], d, |world|)|, 0, chunk);
    RoundsTile(|Share(mix, world[s], r, |world|)|, 0, chunk);
  }

  /** No rank has more than this for any other. */
  ghost predicate PeersBounded(mix: ParticleId -> nat, world: seq<seq<ParticleId>>, most: nat) {
    forall s, r {:trigger Share(mix, world[s], r, |world|)} :: 0 <= s < |world| && 0 <= r < |world| ==>
      |Share(mix, world[s], r, |world|)| <= most
  }

  /** After the last round both counters are complete and the share of the source has landed. */
  lemma SideComplete(mix: ParticleId -> nat, world: seq<seq<ParticleId>>, offset: nat, chunk: nat, most: nat, r: nat,
                     side: Side, bucket: seq<ParticleId>)
    requires chunk > 0 && offset < |world| && r < |world| && PeersBounded(mix, world, most)
    requires SidesAt(mix, world, offset, chunk, RoundsRequired(most, chunk))(r, side, bucket)
    requires AheadDestination(r, offset, |world|) < |world| && BackSource(r, offset, |world|) < |world|
    ensures side.sent == |Share(mix, world[r], AheadDestination(r, offset, |world|), |world|)|
    ensures side.received == |Share(mix, world[BackSource(r, offset, |world|)], r, |world|)|
    ensures HeardAt(mix, world, offset + 1)(r, bucket)
  {
    BackIsRing(r, offset, |world|);
    var s, d := BackSource(r, offset, |world|), AheadDestination(r, offset, |world|);
    AllRoundsCover(|Share(mix, world[r], d, |world|)|, most, chunk);
    AllRoundsCover(|Share(mix, world[s], r, |world|)|, most, chunk);
    var share := Share(mix, world[s], r, |world|);
    assert share[..|share|] == share;
  }

  lemma AllRoundsCover(records: nat, most: nat, chunk: nat)
    requires chunk > 0 && records <= most
    ensures Covered(records, RoundsRequired(most, chunk), chunk) == records
  {
    RoundsGrow(records, most, chunk);
    RoundsTile(records, RoundsRequired(most, chunk), chunk);
  }

  method CheckCounts(mix: ParticleId -> nat, world: seq<seq<ParticleId>>, offset: nat, ghost chunk: nat,
                     ghost most: nat, r: nat, layout: Layout, side: Side, ghost bucket: seq<ParticleId>)
    returns (complete: bool)
    requires chunk > 0 && offset < |world| && r < |world| && PeersBounded(mix, world, most)
    requires IsLayout(mix, world, r, layout)
    requires SidesAt(mix, world, offset, chunk, RoundsRequired(most, chunk))(r, side, bucket)
    ensures complete && HeardAt(mix, world, offset + 1)(r, bucket)
  {
    BackIsRing(r, offset, |world|);
    SideComplete(mix, world, offset, chunk, most, r, side, bucket);
    complete := side.sent == layout.grouped.counts[AheadDestination(r, offset, |world|)]
      && side.received == layout.counts[BackSource(r, offset, |world|)];
  }

  lemma StartSides(mix: ParticleId -> nat, world: seq<seq<ParticleId>>, offset: nat, chunk: nat, sides: seq<Side>,
                   buckets: seq<array<ParticleId>>)
    requires chunk > 0 && offset < |world| == |buckets| == |sides| && forall r :: 0 <= r < |sides| ==>
      sides[r] == Side(0, 0)
    requires AllBuckets(HeardAt(mix, world, offset), buckets)
    ensures AllSides(SidesAt(mix, world, offset, chunk, 0), sides, buckets)
  {
    forall r | 0 <= r < |world|
      ensures SidesAt(mix, world, offset, chunk, 0)(r, sides[r], buckets[r][..])
    {
      StartSide(mix, world, offset, chunk, r, buckets[r][..]);
    }
  }

  /** As many rounds as the largest count needs. */
  method ExchangeRounds(mix: ParticleId -> nat, world: seq<seq<ParticleId>>, offset: nat, chunk: nat, rounds: nat,
                        layouts: seq<Layout>, buckets: seq<array<ParticleId>>)
    returns (sides: seq<Side>)
    requires chunk > 0 && offset < |world| == |buckets| && AllLaidOut(mix, world, layouts) && Apart(buckets)
    requires AllBuckets(HeardAt(mix, world, offset), buckets)
    modifies buckets
    ensures AllSides(SidesAt(mix, world, offset, chunk, rounds), sides, buckets)
  {
    sides := seq(|world|, _ => Side(0, 0));
    StartSides(mix, world, offset, chunk, sides, buckets);
    for round := 0 to rounds
      invariant AllSides(SidesAt(mix, world, offset, chunk, round), sides, buckets)
    {
      sides := ExchangeChunks(mix, world, offset, chunk, round, layouts, sides, buckets);
    }
  }

  /** Every rank compares both of its counters with both of its counts. */
  method CheckAllCounts(mix: ParticleId -> nat, world: seq<seq<ParticleId>>, offset: nat, ghost chunk: nat,
                        ghost most: nat, layouts: seq<Layout>, sides: seq<Side>, ghost contents: seq<seq<ParticleId>>)
    returns (ok: bool)
    requires chunk > 0 && offset < |world| == |sides| == |contents| && AllLaidOut(mix, world, layouts)
    requires PeersBounded(mix, world, most) && forall r :: 0 <= r < |sides| ==>
      SidesAt(mix, world, offset, chunk, RoundsRequired(most, chunk))(r, sides[r], contents[r])
    ensures ok && forall r :: 0 <= r < |contents| ==> HeardAt(mix, world, offset + 1)(r, contents[r])
  {
    ok := true;
    for r := 0 to |world|
      invariant ok && forall q :: 0 <= q < r ==> HeardAt(mix, world, offset + 1)(q, contents[q])
    {
      assert IsLayout(mix, world, r, layouts[r]);
      var complete := CheckCounts(mix, world, offset, chunk, most, r, layouts[r], sides[r], contents[r]);
      ok := ok && complete;
    }
  }

  /** One offset: every rank sends its destination's share and receives its own, and checks both counts. */
  method ExchangeShares(mix: ParticleId -> nat, world: seq<seq<ParticleId>>, offset: nat, chunk: nat, most: nat,
                        layouts: seq<Layout>, buckets: seq<array<ParticleId>>)
    returns (ok: bool)
    requires chunk > 0 && offset < |world| == |buckets| && AllLaidOut(mix, world, layouts) && Apart(buckets)
    requires PeersBounded(mix, world, most) && AllBuckets(HeardAt(mix, world, offset), buckets)
    modifies buckets
    ensures ok && AllBuckets(HeardAt(mix, world, offset + 1), buckets)
  {
    var sides := ExchangeRounds(mix, world, offset, chunk, RoundsRequired(most, chunk), layouts, buckets);
    ok := CheckAllCounts(mix, world, offset, chunk, most, layouts, sides, Contents(buckets));
  }

  /** The counts of all ranks for one, and where their shares are to land. */
  method LayOut(mix: ParticleId -> nat, world: seq<seq<ParticleId>>, groups: seq<Grouped>, r: nat)
    returns (layout: Layout, total: nat)
    requires r < |world| && AllGrouped(mix, world, groups)
    ensures IsLayout(mix, world, r, layout) && total == LandOffset(mix, world, r, |world|)
  {
    var counts := ReceiveCounts(mix, world, groups, r);
    var offsets;
    offsets, total := ReceiveLayout(mix, world, counts, r);
    assert IsGrouped(mix, world[r], |world|, groups[r]);
    layout := Layout(groups[r], counts, offsets);
  }

  method LayOutAll(mix: ParticleId -> nat, world: seq<seq<ParticleId>>, groups: seq<Grouped>)
    returns (layouts: seq<Layout>, buckets: seq<array<ParticleId>>)
    requires AllGrouped(mix, world, groups)
    ensures AllLaidOut(mix, world, layouts) && |buckets| == |world| && Apart(buckets)
    ensures forall r :: 0 <= r < |buckets| ==> fresh(buckets[r])
    ensures AllBuckets(HeardAt(mix, world, 0), buckets)
  {
    var totals: seq<nat>;
    layouts, totals := [], [];
    for r := 0 to |world|
      invariant |layouts| == |totals| == r
      invariant forall q {:trigger layouts[q]} :: 0 <= q < r ==> IsLayout(mix, world, q, layouts[q])
      invariant forall q :: 0 <= q < r ==> totals[q] == LandOffset(mix, world, q, |world|)
    {
      var layout, total := LayOut(mix, world, groups, r);
      layouts, totals := layouts + [layout], totals + [total];
    }
    buckets := AllocateAll(totals);
    forall r | 0 <= r < |buckets|
      ensures HeardAt(mix, world, 0)(r, buckets[r][..])
    {
      NothingHeard(mix, world, r, buckets[r][..]);
    }
  }

  /** Arrays of the given sizes, each rank's its own. */
  method AllocateAll(totals: seq<nat>) returns (buckets: seq<array<ParticleId>>)
    ensures |buckets| == |totals| && Apart(buckets)
    ensures forall r :: 0 <= r < |buckets| ==> fresh(buckets[r]) && buckets[r].Length == totals[r]
  {
    buckets := [];
    for r := 0 to |totals|
      invariant |buckets| == r && Apart(buckets)
      invariant forall q :: 0 <= q < r ==> fresh(buckets[q]) && buckets[q].Length == totals[q]
    {
      var bucket := new ParticleId[totals[r]];
      buckets := buckets + [bucket];
    }
  }

  lemma NothingHeard(mix: ParticleId -> nat, world: seq<seq<ParticleId>>, r: nat, bucket: seq<ParticleId>)
    requires r < |world| && |bucket| == LandOffset(mix, world, r, |world|)
    ensures HeardAt(mix, world, 0)(r, bucket)
  {
  }

  /** Some rank sends another this many identifiers. */
  ghost predicate IsPeerCount(mix: ParticleId -> nat, world: seq<seq<ParticleId>>, count: nat) {
    exists s, q {:trigger Share(mix, world[s], q, |world|)} :: 0 <= s < |world| && 0 <= q < |world|
      && |Share(mix, world[s], q, |world|)| == count
  }

  /** The largest count any rank sends to or receives from one other. */
  method LargestPeerCount(mix: ParticleId -> nat, world: seq<seq<ParticleId>>, layouts: seq<Layout>) returns (most: nat)
    requires AllLaidOut(mix, world, layouts)
    ensures PeersBounded(mix, world, most) && (most == 0 || IsPeerCount(mix, world, most))
  {
    most := 0;
    for r := 0 to |world|
      invariant forall s, q {:trigger Share(mix, world[s], q, |world|)} :: 0 <= s < |world| && 0 <= q < r ==>
        |Share(mix, world[s], q, |world|)| <= most
      invariant most == 0 || IsPeerCount(mix, world, most)
    {
      assert IsLayout(mix, world, r, layouts[r]);
      var local := LocalLargest(mix, world, r, layouts[r]);
      most := Max(most, local);
    }
  }

  method LocalLargest(mix: ParticleId -> nat, world: seq<seq<ParticleId>>, r: nat, layout: Layout) returns (most: nat)
    requires r < |world| && IsLayout(mix, world, r, layout)
    ensures forall s :: 0 <= s < |world| ==> |Share(mix, world[s], r, |world|)| <= most
    ensures forall q :: 0 <= q < |world| ==> |Share(mix, world[r], q, |world|)| <= most
    ensures most == 0 || IsPeerCount(mix, world, most)
  {
    most := 0;
    for peer := 0 to |world|
      invariant forall s :: 0 <= s < peer ==> layout.counts[s] <= most && layout.grouped.counts[s] <= most
      invariant most == 0 || exists s :: 0 <= s < peer && (layout.counts[s] == most || layout.grouped.counts[s] == most)
    {
      most := Max(most, Max(layout.grouped.counts[peer], layout.counts[peer]));
    }
  }

  /** Every checker rank receives its shares from all ranks in ring order. */
  method GatherShares(mix: ParticleId -> nat, world: seq<seq<ParticleId>>, groups: seq<Grouped>, chunk: nat)
    returns (ok: bool, buckets: seq<array<ParticleId>>)
    requires chunk > 0 && AllGrouped(mix, world, groups)
    ensures ok && |buckets| == |world| && Apart(buckets) && forall r :: 0 <= r < |buckets| ==> fresh(buckets[r])
    ensures forall r :: 0 <= r < |world| ==> buckets[r][..] == Gathered(mix, world, r, |world|)
  {
    var layouts;
    layouts, buckets := LayOutAll(mix, world, groups);
    var most := LargestPeerCount(mix, world, layouts);
    for offset := 0 to |world|
      invariant AllBuckets(HeardAt(mix, world, offset), buckets)
    {
      ok := ExchangeShares(mix, world, offset, chunk, most, layouts, buckets);
      if !ok {
        return;
      }
    }
    forall r | 0 <= r < |world|
      ensures buckets[r][..] == Gathered(mix, world, r, |world|)
    {
      assert HeardAt(mix, world, |world|)(r, buckets[r][..]);
      AllHeard(mix, world, r, buckets[r][..]);
    }
    ok := true;
  }

  // ---- what the buckets hold ----

  ghost function GlobalCount(world: seq<seq<ParticleId>>, s: nat, id: ParticleId): nat
    requires s <= |world|
  {
    if s == 0 then 0 else GlobalCount(world, s - 1, id) + multiset(world[s - 1])[id]
  }

  lemma {:induction false} ShareCounts(mix: ParticleId -> nat, ids: seq<ParticleId>, d: nat, size: nat, id: ParticleId)
    requires size > 0
    ensures multiset(Share(mix, ids, d, size))[id] == if Owner(mix, id, size) == d then multiset(ids)[id] else 0
  {
    if ids != [] {
      var n := |ids| - 1;
      ShareCounts(mix, ids[..n], d, size, id);
      CountLast(ids, id);
    }
  }

  lemma {:induction false} GatheredCounts(mix: ParticleId -> nat, world: seq<seq<ParticleId>>, r: nat, s: nat,
                                          id: ParticleId)
    requires s <= |world|
    ensures s > 0 && Owner(mix, id, |world|) == r ==>
      multiset(Gathered(mix, world, r, s))[id] == GlobalCount(world, s, id)
    ensures s > 0 && Owner(mix, id, |world|) != r ==> id !in Gathered(mix, world, r, s)
  {
    if s > 0 {
      if s > 1 {
        GatheredCounts(mix, world, r, s - 1, id);
      }
      ShareCounts(mix, world[s - 1], r, |world|, id);
      CountOfBoth(Gathered(mix, world, r, s - 1), Share(mix, world[s - 1], r, |world|), id);
    }
  }

  ghost predicate UniqueIds(world: seq<seq<ParticleId>>) {
    forall id :: GlobalCount(world, |world|, id) <= 1
  }

  ghost predicate Held(world: seq<seq<ParticleId>>, id: ParticleId) {
    exists s :: 0 <= s < |world| && id in world[s]
  }

  lemma {:induction false} HeldCounts(world: seq<seq<ParticleId>>, s: nat, id: ParticleId)
    requires s <= |world|
    ensures GlobalCount(world, s, id) > 0 <==> exists q :: 0 <= q < s && id in world[q]
  {
    if s > 0 {
      HeldCounts(world, s - 1, id);
    }
  }

  function Key(id: ParticleId): int {
    id
  }

  /** Sort a received bucket and look for equal neighbours. */
  method SortBucket(bucket: array<ParticleId>) returns (duplicate: bool)
    modifies bucket
    ensures multiset(bucket[..]) == multiset(old(bucket[..]))
    ensures !duplicate ==> StrictlyIncreasing(bucket[..])
    ensures duplicate ==> exists id :: multiset(bucket[..])[id] >= 2
  {
    SortInPlace(Key, bucket);
    ghost var s := bucket[..];
    var i := 1;
    while i < bucket.Length
      invariant 1 <= i
      invariant forall k :: 1 <= k < i && k < bucket.Length ==> s[k - 1] != s[k]
    {
      if bucket[i - 1] == bucket[i] {
        TwiceCounted(s, i - 1, i);
        return true;
      }
      i := i + 1;
    }
    forall j, k | 0 <= j < k < |s|
      ensures s[j] < s[k]
    {
      assert Key(s[j]) <= Key(s[k - 1]) || j == k - 1;
      assert Key(s[k - 1]) <= Key(s[k]) && s[k - 1] != s[k];
    }
    duplicate := false;
  }

  lemma IncreasingIsUnique(ids: seq<ParticleId>, id: ParticleId)
    requires StrictlyIncreasing(ids)
    ensures multiset(ids)[id] <= 1
  {
    if multiset(ids)[id] >= 2 {
      var i, j := TwoPositions(ids, id);
    }
  }

  lemma PrefixMembers(ids: seq<ParticleId>, id: ParticleId)
    requires StrictlyIncreasing(ids) && ids != []
    ensures id in ids[..|ids| - 1] <==> id in ids && id != ids[|ids| - 1]
  {
    var n := |ids| - 1;
    assert ids == ids[..n] + [ids[n]];
  }

  lemma LastIsGreatest(ids: seq<ParticleId>, id: ParticleId)
    requires StrictlyIncreasing(ids) && id in ids
    ensures ids != [] && id <= ids[|ids| - 1]
  {
  }

  /** Two increasing sequences with the same members are the same. */
  lemma {:induction false} SameMembers(a: seq<ParticleId>, b: seq<ParticleId>)
    requires StrictlyIncreasing(a) && StrictlyIncreasing(b) && forall id: ParticleId :: id in a <==> id in b
    ensures a == b
  {
    if a == [] {
      if b != [] {
        LastIsGreatest(a, b[|b| - 1]);
      }
    } else {
      var n := |a| - 1;
      LastIsGreatest(b, a[n]);
      var m := |b| - 1;
      LastIsGreatest(a, b[m]);
      forall id: ParticleId
        ensures id in a[..n] <==> id in b[..m]
      {
        PrefixMembers(a, id);
        PrefixMembers(b, id);
      }
      SameMembers(a[..n], b[..m]);
      assert a == a[..n] + [a[n]] && b == b[..m] + [b[m]];
    }
  }

  /** The sorted identifiers held anywhere whose mixed value leaves the remainder r. */
  ghost predicate IsBucket(mix: ParticleId -> nat, world: seq<seq<ParticleId>>, r: nat, bucket: seq<ParticleId>)
    requires |world| > 0
  {
    && StrictlyIncreasing(bucket)
    && forall id: ParticleId :: id in bucket <==> Held(world, id) && mix(id) % |world| == r
  }

  lemma BucketMembers(mix: ParticleId -> nat, world: seq<seq<ParticleId>>, r: nat, bucket: seq<ParticleId>)
    requires |world| > 0 && StrictlyIncreasing(bucket) && multiset(bucket) == multiset(Gathered(mix, world, r, |world|))
    ensures IsBucket(mix, world, r, bucket)
    ensures forall id: ParticleId :: Owner(mix, id, |world|) == r ==> GlobalCount(world, |world|, id) <= 1
  {
    forall id: ParticleId
      ensures id in bucket <==> Held(world, id) && mix(id) % |world| == r
      ensures Owner(mix, id, |world|) == r ==> GlobalCount(world, |world|, id) <= 1
    {
      GatheredCounts(mix, world, r, |world|, id);
      HeldCounts(world, |world|, id);
      IncreasingIsUnique(bucket, id);
      OwnerIsMod(mix, id, |world|);
      assert id in bucket <==> multiset(bucket)[id] > 0;
    }
  }

  datatype Capture = Captured(buckets: seq<seq<ParticleId>>) | DuplicateId | TransportFailed

  method GroupAll(mix: ParticleId -> nat, world: seq<seq<ParticleId>>) returns (ok: bool, groups: seq<Grouped>)
    requires |world| > 0
    ensures ok && AllGrouped(mix, world, groups)
  {
    groups := [];
    for s := 0 to |world|
      invariant |groups| == s && forall q :: 0 <= q < s ==> IsGrouped(mix, world[q], |world|, groups[q])
    {
      var fits, counts, offsets, order := SendOrder(mix, world[s], |world|);
      if !fits {
        return false, groups;
      }
      groups := groups + [Grouped(counts, offsets, order[..])];
    }
    ok := true;
  }

  /** Nothing repeats among the identifiers of one checker. */
  ghost predicate NoneRepeats(mix: ParticleId -> nat, world: seq<seq<ParticleId>>, r: nat)
    requires |world| > 0
  {
    forall id: ParticleId :: Owner(mix, id, |world|) == r ==> GlobalCount(world, |world|, id) <= 1
  }

  /** Sort one gathered bucket, and look for a repetition in it. */
  method FinishBucket(mix: ParticleId -> nat, ghost world: seq<seq<ParticleId>>, ghost r: nat,
                      bucket: array<ParticleId>)
    returns (duplicate: bool)
    requires |world| > 0 && bucket[..] == Gathered(mix, world, r, |world|)
    modifies bucket
    ensures duplicate ==> !UniqueIds(world)
    ensures !duplicate ==> IsBucket(mix, world, r, bucket[..]) && NoneRepeats(mix, world, r)
  {
    duplicate := SortBucket(bucket);
    if duplicate {
      ghost var id: ParticleId :| multiset(bucket[..])[id] >= 2;
      GatheredCounts(mix, world, r, |world|, id);
    } else {
      BucketMembers(mix, world, r, bucket[..]);
    }
  }

  /** Every rank's canonical bucket: together the sorted partition of the global set, unless some identifier repeats. */
  method CaptureIdSet(mix: ParticleId -> nat, world: seq<seq<ParticleId>>, chunk: nat) returns (capture: Capture)
    requires chunk > 0 && |world| > 0
    ensures capture != TransportFailed
    ensures capture.Captured? <==> UniqueIds(world)
    ensures capture.Captured? ==> |capture.buckets| == |world|
    ensures capture.Captured? ==> forall r :: 0 <= r < |world| ==> IsBucket(mix, world, r, capture.buckets[r])
  {
    var ok, groups := GroupAll(mix, world);
    if !ok {
      return TransportFailed;
    }
    var gathered, arrays := GatherShares(mix, world, groups, chunk);
    if !gathered {
      return TransportFailed;
    }
    var buckets: seq<seq<ParticleId>> := [];
    var anyDuplicate := false;
    for r := 0 to |world|
      invariant |buckets| == r && (anyDuplicate ==> !UniqueIds(world))
      invariant forall q :: r <= q < |world| ==> arrays[q][..] == Gathered(mix, world, q, |world|)
      invariant !anyDuplicate ==> forall q :: 0 <= q < r ==> IsBucket(mix, world, q, buckets[q])
      invariant !anyDuplicate ==> forall q {:trigger NoneRepeats(mix, world, q)} :: 0 <= q < r ==>
        NoneRepeats(mix, world, q)
    {
      var duplicate := FinishBucket(mix, world, r, arrays[r]);
      anyDuplicate := anyDuplicate || duplicate;
      buckets := buckets + [arrays[r][..]];
    }
    if anyDuplicate {
      return DuplicateId;
    }
    forall id: ParticleId
      ensures GlobalCount(world, |world|, id) <= 1
    {
      assert NoneRepeats(mix, world, Owner(mix, id, |world|));
    }
    capture := Captured(buckets);
  }

  ghost predicate SameIdSet(before: seq<seq<ParticleId>>, after: seq<seq<ParticleId>>) {
    forall id: ParticleId :: Held(before, id) <==> Held(after, id)
  }

  /** Equal buckets on every rank mean equal global sets, for any mixing. */
  lemma BucketsDecide(mix: ParticleId -> nat, before: seq<seq<ParticleId>>, after: seq<seq<ParticleId>>,
                      b: seq<seq<ParticleId>>, a: seq<seq<ParticleId>>)
    requires |before| == |after| == |b| == |a| > 0
    requires forall r :: 0 <= r < |b| ==> IsBucket(mix, before, r, b[r]) && IsBucket(mix, after, r, a[r])
    ensures b == a <==> SameIdSet(before, after)
  {
    if b == a {
      forall id: ParticleId
        ensures Held(before, id) <==> Held(after, id)
      {
        var r := mix(id) % |before|;
        assert IsBucket(mix, before, r, b[r]) && IsBucket(mix, after, r, a[r]);
        assert id in b[r] <==> id in a[r];
      }
    } else if SameIdSet(before, after) {
      forall r | 0 <= r < |b|
        ensures b[r] == a[r]
      {
        assert IsBucket(mix, before, r, b[r]) && IsBucket(mix, after, r, a[r]);
        SameMembers(b[r], a[r]);
      }
    }
  }

  datatype Preservation = Preserved | Changed | DuplicateAfter | PreservationTransportFailed

  /** Compare the buckets captured before a transport with those after it, on every rank. */
  method RequireIdSetPreserved(mix: ParticleId -> nat, snapshot: seq<seq<ParticleId>>,
                               ghost before: seq<seq<ParticleId>>, after: seq<seq<ParticleId>>, chunk: nat)
    returns (outcome: Preservation)
    requires chunk > 0 && |before| > 0 && |after| > 0 && |snapshot| == |before|
    requires forall r :: 0 <= r < |before| ==> IsBucket(mix, before, r, snapshot[r])
    ensures outcome != PreservationTransportFailed
    ensures outcome == DuplicateAfter <==> !UniqueIds(after)
    ensures outcome == Preserved <==> UniqueIds(after) && |before| == |after| && SameIdSet(before, after)
  {
    var capture := CaptureIdSet(mix, after, chunk);
    match capture
    case TransportFailed =>
      outcome := PreservationTransportFailed;
    case DuplicateId =>
      outcome := DuplicateAfter;
    case Captured(buckets) =>
      if |before| == |after| {
        BucketsDecide(mix, before, after, snapshot, buckets);
      }
      var anyMismatch := |snapshot| != |buckets|;
      if !anyMismatch {
        for r := 0 to |snapshot|
          invariant anyMismatch <==> snapshot[..r] != buckets[..r]
        {
          assert snapshot[..r + 1] == snapshot[..r] + [snapshot[r]];
          assert buckets[..r + 1] == buckets[..r] + [buckets[r]];
          if snapshot[r] != buckets[r] {
            anyMismatch := true;
          }
        }
        assert snapshot[..|snapshot|] == snapshot && buckets[..|snapshot|] == buckets;
      }
      outcome := if anyMismatch then Changed else Preserved;
  }
}
