/** Distributed stable-identifier checks: the ring-streamed merge and the hash-bucket canonicalization. */
module GlobalIdCheck {
  import opened Powers
  import opened Collections
  import opened ExchangeBuffer
  import opened BoundedMigration

  /** Two different ranks hold the same identifier. */
  ghost predicate SharedAcrossRanks(world: seq<seq<ParticleId>>) {
    exists a, b, id :: 0 <= a < b < |world| && id in world[a] && id in world[b]
  }

  method IsIncreasing(ids: seq<ParticleId>) returns (ok: bool)
    ensures ok <==> StrictlyIncreasing(ids)
  {
    var i := 1;
    while i < |ids|
      invariant 1 <= i && (i <= |ids| || |ids| == 0)
      invariant StrictlyIncreasing(if |ids| == 0 then [] else ids[..i])
    {
      if ids[i - 1] >= ids[i] {
        return false;
      }
      i := i + 1;
    }
    assert |ids| > 0 ==> ids[..i] == ids;
    ok := true;
  }

  // ---- the ring ----

  function RingDestination(rank: nat, offset: nat, size: nat): int {
    if offset < size - rank then rank + offset else rank - (size - offset)
  }

  function RingSource(rank: nat, offset: nat, size: nat): int {
    if rank >= offset then rank - offset else rank + (size - offset)
  }

  /** Send and receive partners agree, no rank meets itself, and every other rank is met at exactly one offset. */
  lemma RingPairs(rank: nat, offset: nat, size: nat)
    requires rank < size && 0 < offset < size
    ensures var source, destination := RingSource(rank, offset, size), RingDestination(rank, offset, size);
      && 0 <= source < size && source != rank && 0 <= destination < size && destination != rank
      && RingDestination(source, offset, size) == rank && RingSource(destination, offset, size) == rank
    ensures forall other :: 0 < other < size && RingSource(rank, other, size) == RingSource(rank, offset, size) ==>
      other == offset
  {
  }

  /** The offset at which a rank hears from a given peer. */
  function OffsetOf(rank: nat, source: nat, size: nat): int {
    if rank > source then rank - source else rank + size - source
  }

  lemma EveryPeerHeard(rank: nat, source: nat, size: nat)
    requires rank < size && source < size && rank != source
    ensures 0 < OffsetOf(rank, source, size) < size
    ensures RingSource(rank, OffsetOf(rank, source, size), size) == source
  {
  }

  /** The merge position: everything local before the cursor is below the last received identifier. */
  ghost predicate Merged(local: seq<ParticleId>, source: seq<ParticleId>, seen: nat, cursor: nat) {
    && seen <= |source| && cursor <= |local|
    && (seen == 0 ==> cursor == 0)
    && (seen > 0 ==> forall k :: 0 <= k < cursor ==> local[k] < source[seen - 1])
    && (seen > 0 && cursor < |local| ==> source[seen - 1] <= local[cursor])
  }

  ghost predicate SharesPrefix(local: seq<ParticleId>, source: seq<ParticleId>, seen: nat)
    requires seen <= |source|
  {
    exists i :: 0 <= i < seen && source[i] in local
  }

  datatype StreamState = StreamState(cursor: nat, previous: Previous, duplicate: bool, invalid: bool)

  datatype Previous = NoneYet | Last(id: ParticleId)

  ghost predicate Streamed(local: seq<ParticleId>, source: seq<ParticleId>, seen: nat, s: StreamState) {
    && Merged(local, source, seen, s.cursor)
    && s.previous == (if seen == 0 then NoneYet else Last(source[seen - 1]))
    && (s.duplicate <==> SharesPrefix(local, source, seen))
    && !s.invalid
  }

  /** Stopping at the first identifier not below the received one decides membership. */
  lemma FoundAtCursor(local: seq<ParticleId>, id: ParticleId, cursor: nat)
    requires StrictlyIncreasing(local) && cursor <= |local| && (cursor < |local| ==> local[cursor] >= id)
    requires forall k :: 0 <= k < cursor ==> local[k] < id
    ensures id in local <==> cursor < |local| && local[cursor] == id
  {
    forall k | cursor < k < |local|
      ensures local[k] > id
    {
      assert local[cursor] < local[k];
    }
  }

  /** Merge one received identifier. */
  method Receive(local: seq<ParticleId>, s: StreamState, id: ParticleId, ghost source: seq<ParticleId>, ghost seen: nat)
    returns (t: StreamState)
    requires StrictlyIncreasing(local) && StrictlyIncreasing(source)
    requires seen < |source| && source[seen] == id && Streamed(local, source, seen, s)
    ensures Streamed(local, source, seen + 1, t)
  {
    var invalid := s.invalid || (s.previous.Last? && s.previous.id >= id);
    var cursor := s.cursor;
    while cursor < |local| && local[cursor] < id
      invariant s.cursor <= cursor <= |local|
      invariant forall k :: 0 <= k < cursor ==> local[k] < id
    {
      cursor := cursor + 1;
    }
    var found := cursor < |local| && local[cursor] == id;
    FoundAtCursor(local, id, cursor);
    SharesStep(local, source, seen);
    t := StreamState(cursor, Last(id), s.duplicate || found, invalid);
  }

  lemma SharesStep(local: seq<ParticleId>, source: seq<ParticleId>, seen: nat)
    requires seen < |source|
    ensures SharesPrefix(local, source, seen + 1) <==> SharesPrefix(local, source, seen) || source[seen] in local
  {
  }

  /** A rank at one ring offset: what it has sent to its destination and what it has received from its source. */
  datatype Peer = Peer(sent: nat, sourceCount: nat, received: nat, stream: StreamState)

  /** The state of a rank before a round. */
  ghost predicate PeerAt(world: seq<seq<ParticleId>>, offset: nat, chunk: nat, round: nat, r: nat, p: Peer)
    requires chunk > 0 && 0 < offset < |world| && r < |world|
  {
    var source := world[RingSource(r, offset, |world|)];
    && p.sent == Covered(|world[r]|, round, chunk)
    && p.sourceCount == |source| && p.received == Covered(|source|, round, chunk)
    && Streamed(world[r], source, p.received, p.stream)
  }

  ghost predicate InRound(world: seq<seq<ParticleId>>, offset: nat, chunk: nat, round: nat, peers: seq<Peer>)
    requires chunk > 0 && 0 < offset < |world|
  {
    |peers| == |world| && forall r :: 0 <= r < |peers| ==> PeerAt(world, offset, chunk, round, r, peers[r])
  }

  ghost function PeersAt(world: seq<seq<ParticleId>>, offset: nat, chunk: nat, round: nat): (nat, Peer) -> bool
    requires chunk > 0 && 0 < offset < |world|
  {
    (r: nat, p: Peer) => r < |world| && PeerAt(world, offset, chunk, round, r, p)
  }

  /** Every rank hands its message to its destination, and takes what its source handed to it. */
  method Sendrecv<T>(outgoing: seq<T>, offset: nat) returns (incoming: seq<T>)
    requires offset < |outgoing|
    ensures |incoming| == |outgoing|
    ensures forall r :: 0 <= r < |outgoing| ==> incoming[r] == outgoing[RingSource(r, offset, |outgoing|)]
  {
    var size := |outgoing|;
    var buffers := new T[size](i requires 0 <= i < size => outgoing[i]);
    for s := 0 to size
      invariant forall r :: 0 <= r < size && RingSource(r, offset, size) < s ==>
        buffers[r] == outgoing[RingSource(r, offset, size)]
    {
      if offset > 0 {
        RingPairs(s, offset, size);
      }
      buffers[RingDestination(s, offset, size)] := outgoing[s];
    }
    incoming := buffers[..];
  }

  /** What a rank sends in a round, by its own population and its own count. */
  function Outgoing(local: seq<ParticleId>, sent: nat, chunk: nat): seq<ParticleId>
    requires sent <= |local|
  {
    local[sent..sent + Min(chunk, |local| - sent)]
  }

  /**
   * Where both ends of a pair stand: the source has sent what the destination has received, and sends what it expects.
   */
  lemma CountsAgree(world: seq<seq<ParticleId>>, offset: nat, chunk: nat, round: nat, peers: seq<Peer>, r: nat)
    requires chunk > 0 && 0 < offset < |world| && InRound(world, offset, chunk, round, peers) && r < |world|
    ensures var s := RingSource(r, offset, |world|);
      && peers[s].sent == peers[r].received <= |world[s]|
      && |Outgoing(world[s], peers[s].sent, chunk)| == Min(chunk, peers[r].sourceCount - peers[r].received)
      && peers[r].received + |Outgoing(world[s], peers[s].sent, chunk)| == Covered(|world[s]|, round + 1, chunk)
  {
    var s: nat := RingSource(r, offset, |world|);
    assert PeerAt(world, offset, chunk, round, r, peers[r]) && PeerAt(world, offset, chunk, round, s, peers[s]);
    MinIsRoundCount(|world[s]|, round, chunk);
  }

  lemma MinIsRoundCount(records: nat, round: nat, chunk: nat)
    requires chunk > 0
    ensures Covered(records, round, chunk) + Min(chunk, records - Covered(records, round, chunk)) ==
      Covered(records, round + 1, chunk)
  {
    RoundsTile(records, round, chunk);
  }

  /** Merge one received chunk. */
  method ReceiveChunk(local: seq<ParticleId>, s: StreamState, message: seq<ParticleId>, ghost source: seq<ParticleId>,
                      ghost seen: nat)
    returns (t: StreamState)
    requires StrictlyIncreasing(local) && StrictlyIncreasing(source) && Streamed(local, source, seen, s)
    requires seen + |message| <= |source| && message == source[seen..seen + |message|]
    ensures Streamed(local, source, seen + |message|, t)
  {
    t := s;
    for index := 0 to |message|
      invariant Streamed(local, source, seen + index, t)
    {
      t := Receive(local, t, message[index], source, seen + index);
    }
  }

  /** The message a rank sends in a round. */
  ghost predicate Sends(world: seq<seq<ParticleId>>, chunk: nat, peers: seq<Peer>, s: nat, message: seq<ParticleId>)
    requires s < |world| && s < |peers|
  {
    peers[s].sent <= |world[s]| && message == Outgoing(world[s], peers[s].sent, chunk)
  }

  /** What a rank has in hand when a round was exchanged. */
  ghost function DeliveredAt(world: seq<seq<ParticleId>>, offset: nat, chunk: nat, round: nat, peers: seq<Peer>)
    : (nat, seq<ParticleId>) -> bool
    requires chunk > 0 && 0 < offset < |world| && |peers| == |world|
  {
    (r: nat, message: seq<ParticleId>) =>
      && r < |world| && (forall q :: 0 <= q < |world| ==> StrictlyIncreasing(world[q]))
      && InRound(world, offset, chunk, round, peers) &&
        Sends(world, chunk, peers, RingSource(r, offset, |world|), message)
  }

  /** One rank's side of a round, after the exchange. */
  method FinishRound(world: seq<seq<ParticleId>>, ghost offset: nat, chunk: nat, ghost round: nat, r: nat,
                     ghost peers: seq<Peer>, peer: Peer, message: seq<ParticleId>,
                     ghost ready: (nat, seq<ParticleId>) -> bool, ghost good: (nat, Peer) -> bool)
    returns (next: Peer)
    requires chunk > 0 && 0 < offset < |world| == |peers| && r < |world| && peer == peers[r] && ready(r, message)
    requires Grants(ready, DeliveredAt(world, offset, chunk, round, peers))
    requires Implies(PeersAt(world, offset, chunk, round + 1), good)
    ensures good(r, next)
  {
    assert DeliveredAt(world, offset, chunk, round, peers)(r, message);
    CountsAgree(world, offset, chunk, round, peers, r);
    MinIsRoundCount(|world[r]|, round, chunk);
    assert PeerAt(world, offset, chunk, round, r, peer);
    var sendThis := Min(chunk, |world[r]| - peer.sent);
    var receiveThis := Min(chunk, peer.sourceCount - peer.received);
    var stream := peer.stream;
    if |message| != receiveThis {
      stream := stream.(invalid := true);
    } else {
      stream := ReceiveChunk(world[r], stream, message, world[RingSource(r, offset, |world|)], peer.received);
    }
    next := Peer(peer.sent + sendThis, peer.sourceCount, peer.received + receiveThis, stream);
    assert PeersAt(world, offset, chunk, round + 1)(r, next);
  }

  method CollectOutgoing(world: seq<seq<ParticleId>>, ghost offset: nat, chunk: nat, ghost round: nat, peers: seq<Peer>)
    returns (outgoing: seq<seq<ParticleId>>)
    requires chunk > 0 && 0 < offset < |world| && InRound(world, offset, chunk, round, peers)
    ensures |outgoing| == |world| && forall q :: 0 <= q < |world| ==> Sends(world, chunk, peers, q, outgoing[q])
  {
    outgoing := [];
    for r := 0 to |world|
      invariant |outgoing| == r && forall q :: 0 <= q < r ==> Sends(world, chunk, peers, q, outgoing[q])
    {
      assert PeerAt(world, offset, chunk, round, r, peers[r]);
      outgoing := outgoing + [Outgoing(world[r], peers[r].sent, chunk)];
    }
  }

  method FinishAll(world: seq<seq<ParticleId>>, ghost offset: nat, chunk: nat, ghost round: nat, peers: seq<Peer>,
                   incoming: seq<seq<ParticleId>>, ghost ready: (nat, seq<ParticleId>) -> bool,
                   ghost good: (nat, Peer) -> bool)
    returns (next: seq<Peer>)
    requires chunk > 0 && 0 < offset < |world| == |peers| == |incoming|
    requires forall r :: 0 <= r < |incoming| ==> ready(r, incoming[r])
    requires Grants(ready, DeliveredAt(world, offset, chunk, round, peers))
    requires Implies(PeersAt(world, offset, chunk, round + 1), good)
    ensures |next| == |world| && forall r :: 0 <= r < |world| ==> good(r, next[r])
  {
    next := [];
    for r := 0 to |world|
      invariant |next| == r && forall q :: 0 <= q < r ==> good(q, next[q])
    {
      var peer := FinishRound(world, offset, chunk, round, r, peers, peers[r], incoming[r], ready, good);
      next := next + [peer];
    }
  }

  /** One round of one offset, on all ranks. */
  method ExchangeRound(world: seq<seq<ParticleId>>, offset: nat, chunk: nat, ghost round: nat, peers: seq<Peer>)
    returns (next: seq<Peer>)
    requires chunk > 0 && 0 < offset < |world| && forall q :: 0 <= q < |world| ==> StrictlyIncreasing(world[q])
    requires InRound(world, offset, chunk, round, peers)
    ensures InRound(world, offset, chunk, round + 1, next)
  {
    var outgoing := CollectOutgoing(world, offset, chunk, round, peers);
    var incoming := Sendrecv(outgoing, offset);
    next := FinishAll(world, offset, chunk, round, peers, incoming, DeliveredAt(world, offset, chunk, round, peers),
      PeersAt(world, offset, chunk, round + 1));
  }

  lemma RoundsGrow(records: nat, most: nat, chunk: nat)
    requires chunk > 0 && records <= most
    ensures RoundsRequired(records, chunk) <= RoundsRequired(most, chunk)
  {
    var r := RoundsRequired(most, chunk);
    RoundHasRecords(records, r, chunk);
    RoundHasRecords(most, r, chunk);
  }

  /** The populations travel first; a population beyond the largest one would be a protocol error. */
  method StartOffset(world: seq<seq<ParticleId>>, offset: nat, globalMax: nat, chunk: nat) returns (peers: seq<Peer>)
    requires chunk > 0 && 0 < offset < |world| && forall r :: 0 <= r < |world| ==> |world[r]| <= globalMax
    ensures InRound(world, offset, chunk, 0, peers)
  {
    var counts := Sendrecv(seq(|world|, r requires 0 <= r < |world| => |world[r]|), offset);
    peers := [];
    for r := 0 to |world|
      invariant |peers| == r && forall q :: 0 <= q < r ==> PeerAt(world, offset, chunk, 0, q, peers[q])
    {
      RoundsTile(|world[r]|, 0, chunk);
      RoundsTile(counts[r], 0, chunk);
      var sourceCount := Min(counts[r], globalMax);
      peers := peers + [Peer(0, sourceCount, 0, StreamState(0, NoneYet, false, counts[r] > globalMax))];
    }
  }

  datatype Flags = Flags(duplicate: bool, invalid: bool)

  /** Stream every rank's identifiers to its destination, in as many rounds as the largest population needs. */
  method StreamOffset(world: seq<seq<ParticleId>>, offset: nat, globalMax: nat, chunk: nat) returns (flags: seq<Flags>)
    requires chunk > 0 && 0 < offset < |world|
    requires forall r :: 0 <= r < |world| ==> StrictlyIncreasing(world[r]) && |world[r]| <= globalMax
    ensures |flags| == |world|
    ensures forall r :: 0 <= r < |flags| ==>
      !flags[r].invalid && (flags[r].duplicate <==> !Disjoint(world[r], world[RingSource(r, offset, |world|)]))
  {
    var peers := StartOffset(world, offset, globalMax, chunk);
    var rounds := RoundsRequired(globalMax, chunk);
    for round := 0 to rounds
      invariant InRound(world, offset, chunk, round, peers)
    {
      peers := ExchangeRound(world, offset, chunk, round, peers);
    }
    flags := [];
    for r := 0 to |world|
      invariant |flags| == r
      invariant forall q :: 0 <= q < r ==>
        !flags[q].invalid && (flags[q].duplicate <==> !Disjoint(world[q], world[RingSource(q, offset, |world|)]))
    {
      AllCovered(world, offset, globalMax, chunk, r, peers[r]);
      var peer := peers[r];
      var complete := peer.sent == |world[r]| && peer.received == peer.sourceCount;
      flags := flags + [Flags(peer.stream.duplicate, peer.stream.invalid || !complete)];
    }
  }

  /** After the last round both counts are complete and the whole source was merged. */
  lemma AllCovered(world: seq<seq<ParticleId>>, offset: nat, globalMax: nat, chunk: nat, r: nat, p: Peer)
    requires chunk > 0 && 0 < offset < |world| && r < |world| && forall q :: 0 <= q < |world| ==>
      |world[q]| <= globalMax
    requires PeerAt(world, offset, chunk, RoundsRequired(globalMax, chunk), r, p)
    ensures p.sent == |world[r]| && p.received == p.sourceCount && !p.stream.invalid
    ensures p.stream.duplicate <==> !Disjoint(world[r], world[RingSource(r, offset, |world|)])
  {
    var rounds := RoundsRequired(globalMax, chunk);
    var source := world[RingSource(r, offset, |world|)];
    RoundsGrow(|world[r]|, globalMax, chunk);
    RoundsGrow(|source|, globalMax, chunk);
    RoundsTile(|world[r]|, rounds, chunk);
    RoundsTile(|source|, rounds, chunk);
    SharedIsFound(world[r], source);
  }

  lemma SharedIsFound(local: seq<ParticleId>, source: seq<ParticleId>)
    ensures SharesPrefix(local, source, |source|) <==> !Disjoint(local, source)
  {
  }

  /** What a rank knows of its peers after some offsets. */
  ghost predicate Heard(world: seq<seq<ParticleId>>, r: nat, offset: nat, flags: Flags)
    requires r < |world|
  {
    && !flags.invalid
    && (flags.duplicate ==> exists other :: 0 <= other < |world| && other != r && !Disjoint(world[r], world[other]))
    && (!flags.duplicate ==>
          forall other :: 0 <= other < |world| && other != r && OffsetOf(r, other, |world|) < offset ==>
            Disjoint(world[r], world[other]))
  }

  lemma HearOffset(world: seq<seq<ParticleId>>, r: nat, offset: nat, before: Flags, now: Flags, after: Flags)
    requires 0 < offset < |world| && r < |world| && Heard(world, r, offset, before) && !now.invalid
    requires now.duplicate <==> !Disjoint(world[r], world[RingSource(r, offset, |world|)])
    requires after == Flags(before.duplicate || now.duplicate, before.invalid || now.invalid)
    ensures Heard(world, r, offset + 1, after)
  {
    RingPairs(r, offset, |world|);
    if !after.duplicate {
      forall other | 0 <= other < |world| && other != r && OffsetOf(r, other, |world|) < offset + 1
        ensures Disjoint(world[r], world[other])
      {
        EveryPeerHeard(r, other, |world|);
      }
    }
  }

  /** All ranks walk around the ring together. */
  method WalkRing(world: seq<seq<ParticleId>>, globalMax: nat, chunk: nat) returns (flags: seq<Flags>)
    requires chunk > 0 && forall r :: 0 <= r < |world| ==> StrictlyIncreasing(world[r]) && |world[r]| <= globalMax
    ensures |flags| == |world|
    ensures forall r :: 0 <= r < |world| ==> !flags[r].invalid
    ensures forall r :: 0 <= r < |world| ==>
      (flags[r].duplicate <==> exists other :: 0 <= other < |world| && other != r && !Disjoint(world[r], world[other]))
  {
    var size := |world|;
    flags := seq(size, _ => Flags(false, false));
    var offset := 1;
    while offset < size
      invariant 1 <= offset && (size > 0 ==> offset <= size)
      invariant |flags| == size && forall r :: 0 <= r < size ==> Heard(world, r, offset, flags[r])
    {
      var now := StreamOffset(world, offset, globalMax, chunk);
      var next: seq<Flags> := [];
      for r := 0 to size
        invariant |next| == r && forall q :: 0 <= q < r ==> Heard(world, q, offset + 1, next[q])
      {
        var after := Flags(flags[r].duplicate || now[r].duplicate, flags[r].invalid || now[r].invalid);
        HearOffset(world, r, offset, flags[r], now[r], after);
        next := next + [after];
      }
      flags := next;
      offset := offset + 1;
    }
    forall r | 0 <= r < size
      ensures !flags[r].invalid
      ensures flags[r].duplicate <==>
        exists other :: 0 <= other < size && other != r && !Disjoint(world[r], world[other])
    {
      AllHeard(world, r, flags[r]);
    }
  }

  lemma AllHeard(world: seq<seq<ParticleId>>, r: nat, flags: Flags)
    requires r < |world| && Heard(world, r, |world|, flags)
    ensures flags.duplicate <==> exists other :: 0 <= other < |world| && other != r && !Disjoint(world[r], world[other])
  {
    forall other | 0 <= other < |world| && other != r
      ensures OffsetOf(r, other, |world|) < |world|
    {
      EveryPeerHeard(r, other, |world|);
    }
  }

  ghost predicate Disjoint(a: seq<ParticleId>, b: seq<ParticleId>) {
    forall id :: id in a ==> id !in b
  }

  datatype RingOutcome = AllUnique | OrderInvalid | ProtocolInvalid | DuplicateFound

  method LargestPopulation(world: seq<seq<ParticleId>>) returns (most: nat)
    ensures forall r :: 0 <= r < |world| ==> |world[r]| <= most
    ensures most > 0 ==> exists r :: 0 <= r < |world| && |world[r]| == most
  {
    most := 0;
    for r := 0 to |world|
      invariant forall q :: 0 <= q < r ==> |world[q]| <= most
      invariant most > 0 ==> exists q :: 0 <= q < |world| && |world[q]| == most
    {
      if |world[r]| > most {
        most := |world[r]|;
      }
    }
  }

  /** The collective check over all ranks' sorted identifiers. */
  method RequireSortedIdsUnique(world: seq<seq<ParticleId>>, chunk: nat) returns (outcome: RingOutcome)
    requires chunk > 0
    ensures outcome != ProtocolInvalid
    ensures outcome == OrderInvalid <==> exists r :: 0 <= r < |world| && !StrictlyIncreasing(world[r])
    ensures outcome != OrderInvalid ==> (outcome == DuplicateFound <==> SharedAcrossRanks(world))
  {
    for r := 0 to |world|
      invariant forall q :: 0 <= q < r ==> StrictlyIncreasing(world[q])
    {
      var increasing := IsIncreasing(world[r]);
      if !increasing {
        return OrderInvalid;
      }
    }
    var globalMax := LargestPopulation(world);
    var flags := WalkRing(world, globalMax, chunk);
    var anyDuplicate, anyInvalid := false, false;
    for r := 0 to |world|
      invariant !anyInvalid && (anyDuplicate <==> exists q :: 0 <= q < r && flags[q].duplicate)
    {
      anyDuplicate, anyInvalid := anyDuplicate || flags[r].duplicate, anyInvalid || flags[r].invalid;
    }
    SharedIffFlagged(world, flags);
    if anyInvalid {
      return ProtocolInvalid;
    }
    outcome := if anyDuplicate then DuplicateFound else AllUnique;
  }

  lemma SharedIffFlagged(world: seq<seq<ParticleId>>, flags: seq<Flags>)
    requires |flags| == |world|
    requires forall r :: 0 <= r < |world| ==>
      (flags[r].duplicate <==> exists other :: 0 <= other < |world| && other != r && !Disjoint(world[r], world[other]))
    ensures SharedAcrossRanks(world) <==> exists r :: 0 <= r < |world| && flags[r].duplicate
  {
    if a, b, id :| 0 <= a < b < |world| && id in world[a] && id in world[b] {
      assert !Disjoint(world[a], world[b]) && flags[a].duplicate;
    }
    if r :| 0 <= r < |world| && flags[r].duplicate {
      var other :| 0 <= other < |world| && other != r && !Disjoint(world[r], world[other]);
      var id :| id in world[r] && id in world[other];
      assert r < other || other < r;
    }
  }
}
