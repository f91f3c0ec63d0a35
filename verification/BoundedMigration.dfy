/** The round-chunked point-to-point exchange: no rank waits for rounds it does not take part in. */
module BoundedMigration {
  import opened Powers
  import opened Collections
  import opened ExchangeBuffer

  // ---- rounds of one directed edge ----

  const U64_MAX := ID_SPAN - 1

  function RoundsRequired(records: nat, limit: nat): nat
    requires limit > 0
  {
    if records == 0 then 0 else (records - 1) / limit + 1
  }

  datatype RoundOffset = Begin(at: nat) | OffsetOverflow

  function RoundBegin(round: nat, limit: nat): RoundOffset
    requires limit > 0
  {
    if round > U64_MAX / limit then OffsetOverflow else Begin(round * limit)
  }

  function RoundCount(records: nat, round: nat, limit: nat): nat
    requires limit > 0
  {
    var begin := round * limit;
    if begin >= records then 0 else if records - begin < limit then records - begin else limit
  }

  /** Records covered by the first rounds. */
  ghost function Covered(records: nat, round: nat, limit: nat): (r: nat)
    ensures r <= records
  {
    if round * limit < records then round * limit else records
  }

  lemma DivisionBounds(a: nat, b: nat)
    requires b > 0
    ensures a / b * b <= a < a / b * b + b
  {
  }

  lemma OrderOfMultiples(a: nat, b: nat, limit: nat)
    requires limit > 0
    ensures a < b ==> a * limit + limit <= b * limit
    ensures a <= b ==> a * limit <= b * limit
  {
    if a < b {
      MultipleApart(b - a - 1, a, b, limit);
    }
  }

  lemma MultipleApart(gap: nat, a: nat, b: nat, limit: nat)
    requires b == gap + a + 1
    ensures b * limit == gap * limit + a * limit + limit
    ensures gap * limit >= 0
  {
  }

  /** A round carries records exactly when it is one of the required rounds. */
  lemma RoundHasRecords(records: nat, round: nat, limit: nat)
    requires limit > 0
    ensures round < RoundsRequired(records, limit) <==> round * limit < records
    ensures RoundCount(records, round, limit) > 0 <==> round < RoundsRequired(records, limit)
  {
    if records > 0 {
      var q := (records - 1) / limit;
      DivisionBounds(records - 1, limit);
      OrderOfMultiples(round, q, limit);
      OrderOfMultiples(q, round, limit);
    } else {
      OrderOfMultiples(0, round, limit);
    }
  }

  /** The rounds tile the records: each begins where the previous one ended. */
  lemma RoundsTile(records: nat, round: nat, limit: nat)
    requires limit > 0
    ensures Covered(records, 0, limit) == 0
    ensures Covered(records, round + 1, limit) == Covered(records, round, limit) + RoundCount(records, round, limit)
    ensures RoundCount(records, round, limit) > 0 ==> Covered(records, round, limit) == round * limit
    ensures round >= RoundsRequired(records, limit) ==> Covered(records, round, limit) == records
  {
    RoundHasRecords(records, round, limit);
    assert (round + 1) * limit == round * limit + limit;
    assert 0 * limit == 0;
  }

  /** A round begins after the full rounds before it, and has no offset exactly where 64 bits cannot hold that. */
  lemma RoundBeginIsExact(round: nat, limit: nat)
    requires limit > 0
    ensures RoundBegin(round, limit) ==
            if round * limit < 0x1_0000_0000_0000_0000 then Begin(round * limit) else OffsetOverflow
  {
    DivisionBounds(U64_MAX, limit);
    OrderOfMultiples(U64_MAX / limit, round, limit);
    OrderOfMultiples(round, U64_MAX / limit, limit);
  }

  /** No round offset of a 64-bit record count overflows. */
  lemma RoundOffsetFits(records: nat, round: nat, limit: nat)
    requires limit > 0 && records <= U64_MAX && round < RoundsRequired(records, limit)
    ensures RoundBegin(round, limit) == Begin(Covered(records, round, limit))
  {
    RoundHasRecords(records, round, limit);
    DivisionBounds(U64_MAX, limit);
    OrderOfMultiples(U64_MAX / limit, round, limit);
  }

  // ---- the world of one exchange ----

  /** Every rank's validated outgoing records, and the most records one message may carry. */
  datatype World<T> = World(limit: nat, routed: seq<seq<Routed<T>>>)
  {
    ghost predicate Valid() {
      && limit > 0
      && forall r :: 0 <= r < |routed| ==>
        DestinationsInside(routed[r], |routed|) && RoutingOrder(routed[r])
    }

    ghost predicate IsRank(r: nat) {
      r < |routed|
    }

    /** What source sends to destination, in order. */
    ghost function Outgoing(source: nat, destination: nat): seq<Particle<T>>
      requires source < |routed|
    {
      To(routed[source], destination)
    }

    ghost function Rounds(source: nat, destination: nat): nat
      requires limit > 0 && source < |routed|
    {
      RoundsRequired(|Outgoing(source, destination)|, limit)
    }

    /** Where records from a source begin in the receive buffer: after those of all lower sources. */
    ghost function ReceiveOffset(source: nat, destination: nat): nat
      requires source <= |routed|
    {
      if source == 0 then 0 else ReceiveOffset(source - 1, destination) + |Outgoing(source - 1, destination)|
    }

    /** The concatenation, by source rank, of everything routed to a destination. */
    ghost function Incoming(sources: nat, destination: nat): seq<Particle<T>>
      requires sources <= |routed|
    {
      if sources == 0 then [] else Incoming(sources - 1, destination) + Outgoing(sources - 1, destination)
    }

    /** Rounds a rank executes: enough for each of its edges, in either direction. */
    ghost function LocalRounds(r: nat, peers: nat): nat
      requires limit > 0 && r < |routed| && peers <= |routed|
    {
      if peers == 0 then 0
      else
        var rest := LocalRounds(r, peers - 1);
        if peers - 1 == r then rest else Max(rest, Max(Rounds(r, peers - 1), Rounds(peers - 1, r)))
    }
  }

  /** A rank takes part in no round without a message of its own, sent or received. */
  lemma {:induction false} NoIdleRound<T>(w: World<T>, r: nat, peers: nat, round: nat) returns (peer: nat)
    requires w.Valid() && w.IsRank(r) && peers <= |w.routed| && round < w.LocalRounds(r, peers)
    ensures peer < peers && peer != r && (round < w.Rounds(r, peer) || round < w.Rounds(peer, r))
  {
    peer := peers - 1;
    if peer == r || (round >= w.Rounds(r, peer) && round >= w.Rounds(peer, r)) {
      peer := NoIdleRound(w, r, peers - 1, round);
    }
  }

  lemma {:induction false} LocalRoundsCover<T>(w: World<T>, r: nat, peer: nat, peers: nat)
    requires w.Valid() && w.IsRank(r) && peer < peers <= |w.routed| && peer != r
    ensures w.Rounds(r, peer) <= w.LocalRounds(r, peers) && w.Rounds(peer, r) <= w.LocalRounds(r, peers)
  {
    if peer < peers - 1 {
      LocalRoundsCover(w, r, peer, peers - 1);
    }
  }

  lemma {:induction false} IncomingLength<T>(w: World<T>, d: nat, sources: nat)
    requires sources <= |w.routed|
    ensures |w.Incoming(sources, d)| == w.ReceiveOffset(sources, d)
  {
    if sources > 0 {
      IncomingLength(w, d, sources - 1);
    }
  }

  lemma {:induction false} OffsetsIncrease<T>(w: World<T>, d: nat, a: nat, b: nat)
    requires a < b <= |w.routed|
    ensures w.ReceiveOffset(a, d) + |w.Outgoing(a, d)| <= w.ReceiveOffset(b, d)
    decreases b
  {
    if a < b - 1 {
      OffsetsIncrease(w, d, a, b - 1);
    }
  }

  // ---- the protocol as a state machine ----

  /** A rank is about to post its round, or waits for the requests of that round. */
  datatype RankState = RankState(round: nat, waiting: bool)

  datatype Receive = Receive(begin: nat, count: nat)

  /** One directed edge: messages sent and receives posted, matched in order; how many have been transferred. */
  datatype Edge<T> = Edge(sent: seq<seq<Particle<T>>>, receives: seq<Receive>, delivered: nat)

  datatype Slot<T> = Vacant | Full(particle: Particle<T>)

  datatype State<T> = State(ranks: seq<RankState>, edges: seq<seq<Edge<T>>>, received: seq<seq<Slot<T>>>)
  {
    ghost predicate Shape(w: World<T>) {
      && |ranks| == |edges| == |received| == |w.routed|
      && (forall a :: 0 <= a < |edges| ==> |edges[a]| == |w.routed|)
      && (forall d :: 0 <= d < |received| ==> |received[d]| == w.ReceiveOffset(|w.routed|, d))
    }
  }

  /** Rounds whose requests a rank has posted. */
  ghost function Posted(r: RankState): nat {
    if r.waiting then r.round + 1 else r.round
  }

  ghost predicate Write<T>(before: seq<Slot<T>>, after: seq<Slot<T>>, begin: nat, message: seq<Particle<T>>) {
    && |after| == |before|
    && forall i :: 0 <= i < |before| ==>
      after[i] == if begin <= i < begin + |message| then Full(message[i - begin]) else before[i]
  }

  /** The buffer holds the content from a position on. */
  ghost predicate Holds<T>(buffer: seq<Slot<T>>, begin: nat, content: seq<Particle<T>>) {
    && begin + |content| <= |buffer|
    && forall i :: begin <= i < begin + |content| ==> buffer[i] == Full(content[i - begin])
  }

  lemma WriteExtends<T>(before: seq<Slot<T>>, after: seq<Slot<T>>, begin: nat, content: seq<Particle<T>>, k: nat,
                        k': nat)
    requires k <= k' <= |content| && begin + |content| <= |before|
    requires Holds(before, begin, content[..k]) && Write(before, after, begin + k, content[k..k'])
    ensures Holds(after, begin, content[..k'])
  {
    forall i | begin <= i < begin + k'
      ensures after[i] == Full(content[..k'][i - begin])
    {
      if i < begin + k {
        assert before[i] == Full(content[..k][i - begin]);
      } else {
        assert content[k..k'][i - begin - k] == content[i - begin];
      }
    }
  }

  lemma WriteSpares<T>(before: seq<Slot<T>>, after: seq<Slot<T>>, at: nat, message: seq<Particle<T>>, begin: nat,
                       content: seq<Particle<T>>)
    requires Holds(before, begin, content) && Write(before, after, at, message)
    requires begin + |content| <= at || at + |message| <= begin
    ensures Holds(after, begin, content)
  {
  }

  lemma HoldsBoth<T>(buffer: seq<Slot<T>>, content: seq<Particle<T>>, more: seq<Particle<T>>)
    requires Holds(buffer, 0, content) && Holds(buffer, |content|, more)
    ensures Holds(buffer, 0, content + more)
  {
  }

  /** Before the first round: nothing posted, and each rank's own records already copied. */
  ghost predicate Init<T>(w: World<T>, s: State<T>) {
    && s.Shape(w)
    && (forall r :: 0 <= r < |s.ranks| ==> s.ranks[r] == RankState(0, false))
    && (forall a, b :: 0 <= a < |s.edges| && 0 <= b < |s.edges[a]| ==> s.edges[a][b] == Edge([], [], 0))
    && (forall d :: 0 <= d < |w.routed| ==> Holds(s.received[d], w.ReceiveOffset(d, d), w.Outgoing(d, d)))
  }

  /** The message a source sends in a round, cut from its sorted records at its layout offset. */
  ghost function Message<T>(w: World<T>, a: nat, b: nat, round: nat): seq<Particle<T>>
    requires w.Valid() && w.IsRank(a)
  {
    var records := |w.Outgoing(a, b)|;
    var begin := Below(w.routed[a], b) + Covered(records, round, w.limit);
    MessageInside(w, a, b, round);
    Particles(w.routed[a][begin..begin + RoundCount(records, round, w.limit)])
  }

  lemma MessageInside<T>(w: World<T>, a: nat, b: nat, round: nat)
    requires w.Valid() && w.IsRank(a)
    ensures var records := |w.Outgoing(a, b)|;
      Below(w.routed[a], b) + Covered(records, round, w.limit) + RoundCount(records, round, w.limit) <= |w.routed[a]|
  {
    BelowStep(w.routed[a], b);
    RoundsTile(|w.Outgoing(a, b)|, round, w.limit);
  }

  lemma OrderImpliesDestinations<T>(routed: seq<Routed<T>>)
    requires RoutingOrder(routed)
    ensures DestinationOrder(routed)
  {
    forall i, j | 0 <= i < j < |routed|
      ensures routed[i].destination <= routed[j].destination
    {
      assert Before(routed[i], routed[j]);
    }
  }

  /** Every message is the round's share of the records for its destination. */
  lemma MessageIsShare<T>(w: World<T>, a: nat, b: nat, round: nat)
    requires w.Valid() && w.IsRank(a)
    ensures var records := |w.Outgoing(a, b)|;
      var begin := Covered(records, round, w.limit);
      begin + RoundCount(records, round, w.limit) <= records
      && Message(w, a, b, round) == w.Outgoing(a, b)[begin..begin + RoundCount(records, round, w.limit)]
  {
    OrderImpliesDestinations(w.routed[a]);
    ToIsSlice(w.routed[a], b);
    BelowStep(w.routed[a], b);
    RoundsTile(|w.Outgoing(a, b)|, round, w.limit);
    MessageInside(w, a, b, round);
    var lo := Below(w.routed[a], b);
    var begin := Covered(|w.Outgoing(a, b)|, round, w.limit);
    var count := RoundCount(|w.Outgoing(a, b)|, round, w.limit);
    ParticlesOfSlice(w.routed[a], lo, Below(w.routed[a], b + 1), begin, count);
  }

  lemma ParticlesOfSlice<T>(s: seq<Routed<T>>, lo: nat, hi: nat, begin: nat, count: nat)
    requires lo <= hi <= |s| && begin + count <= hi - lo
    ensures Particles(s[lo + begin..lo + begin + count]) == Particles(s[lo..hi])[begin..begin + count]
  {
    var part, whole := Particles(s[lo + begin..lo + begin + count]), Particles(s[lo..hi]);
    forall i | 0 <= i < count
      ensures part[i] == whole[begin + i]
    {
      assert s[lo + begin..lo + begin + count][i] == s[lo + begin + i];
      assert s[lo..hi][begin + i] == s[lo + begin + i];
    }
  }

  /** The receive a destination posts in a round, at its layout offset. */
  ghost function ReceiveOf<T>(w: World<T>, a: nat, b: nat, round: nat): Receive
    requires w.Valid() && w.IsRank(a)
  {
    var records := |w.Outgoing(a, b)|;
    Receive(w.ReceiveOffset(a, b) + Covered(records, round, w.limit), RoundCount(records, round, w.limit))
  }

  /** An edge after rank r posted its round: nonempty transfers, sends on out-edges, receives on in-edges. */
  ghost function AfterPost<T>(w: World<T>, e: Edge<T>, r: nat, round: nat, a: nat, b: nat): Edge<T>
    requires w.Valid() && w.IsRank(a)
  {
    if a == b || RoundCount(|w.Outgoing(a, b)|, round, w.limit) == 0 then e
    else if r == a then e.(sent := e.sent + [Message(w, a, b, round)])
    else if r == b then e.(receives := e.receives + [ReceiveOf(w, a, b, round)])
    else e
  }

  ghost predicate Post<T>(w: World<T>, s: State<T>, t: State<T>, r: nat)
    requires w.Valid() && s.Shape(w)
  {
    && t.Shape(w) && w.IsRank(r)
    && !s.ranks[r].waiting && s.ranks[r].round < w.LocalRounds(r, |w.routed|)
    && t.ranks == s.ranks[r := RankState(s.ranks[r].round, true)]
    && t.received == s.received
    && forall a, b :: 0 <= a < |w.routed| && 0 <= b < |w.routed| ==>
      t.edges[a][b] == AfterPost(w, s.edges[a][b], r, s.ranks[r].round, a, b)
  }

  /** The oldest unmatched send and receive of an edge meet, and the records land in the receive buffer. */
  ghost predicate Deliver<T>(w: World<T>, s: State<T>, t: State<T>, a: nat, b: nat)
    requires w.Valid() && s.Shape(w)
  {
    && t.Shape(w) && w.IsRank(a) && w.IsRank(b) && Deliverable(s.edges[a][b])
    && var e := s.edges[a][b];
    && t.ranks == s.ranks
    && t.edges == s.edges[a := s.edges[a][b := e.(delivered := e.delivered + 1)]]
    && |t.received| == |s.received|
    && (forall d :: 0 <= d < |w.routed| && d != b ==> t.received[d] == s.received[d])
    && Write(s.received[b], t.received[b], e.receives[e.delivered].begin, e.sent[e.delivered])
  }

  ghost predicate Deliverable<T>(e: Edge<T>) {
    e.delivered < |e.sent| && e.delivered < |e.receives|
  }

  /** The wait of a round ends: all receives have arrived; sends may have been buffered by the transport. */
  ghost predicate Complete<T>(w: World<T>, s: State<T>, t: State<T>, r: nat)
    requires w.Valid() && s.Shape(w)
  {
    && w.IsRank(r) && s.ranks[r].waiting && Arrived(w, s, r)
    && t == s.(ranks := s.ranks[r := RankState(s.ranks[r].round + 1, false)])
  }

  ghost predicate Arrived<T>(w: World<T>, s: State<T>, r: nat)
    requires s.Shape(w) && w.IsRank(r)
  {
    forall a :: 0 <= a < |w.routed| ==> s.edges[a][r].delivered >= |s.edges[a][r].receives|
  }

  /** Every send of the rank has been matched: its wait can end even if the transport buffers nothing. */
  ghost predicate Matched<T>(w: World<T>, s: State<T>, r: nat)
    requires s.Shape(w) && w.IsRank(r)
  {
    forall b :: 0 <= b < |w.routed| ==> s.edges[r][b].delivered >= |s.edges[r][b].sent|
  }

  ghost predicate Step<T>(w: World<T>, s: State<T>, t: State<T>)
    requires w.Valid() && s.Shape(w)
  {
    || (exists r :: Post(w, s, t, r))
    || (exists a, b :: Deliver(w, s, t, a, b))
    || (exists r :: Complete(w, s, t, r))
  }

  ghost predicate Run<T>(w: World<T>, run: seq<State<T>>)
    requires w.Valid()
  {
    && run != [] && Init(w, run[0])
    && forall i :: 0 <= i < |run| - 1 ==> run[i].Shape(w) && Step(w, run[i], run[i + 1])
  }

  ghost predicate RankDone<T>(w: World<T>, s: State<T>, r: nat)
    requires w.Valid() && s.Shape(w) && w.IsRank(r)
  {
    !s.ranks[r].waiting && s.ranks[r].round >= w.LocalRounds(r, |w.routed|)
  }

  ghost predicate Finished<T>(w: World<T>, s: State<T>)
    requires w.Valid() && s.Shape(w)
  {
    forall r :: 0 <= r < |w.routed| ==> RankDone(w, s, r)
  }

  // ---- the invariant ----

  ghost predicate EdgeInvariant<T>(w: World<T>, s: State<T>, a: nat, b: nat)
    requires w.Valid() && s.Shape(w) && w.IsRank(a) && w.IsRank(b)
  {
    var e := s.edges[a][b];
    if a == b then e == Edge([], [], 0)
    else
      && |e.sent| == Min(Posted(s.ranks[a]), w.Rounds(a, b))
      && |e.receives| == Min(Posted(s.ranks[b]), w.Rounds(a, b))
      && (forall k :: 0 <= k < |e.sent| ==> e.sent[k] == Message(w, a, b, k))
      && (forall k :: 0 <= k < |e.receives| ==> e.receives[k] == ReceiveOf(w, a, b, k))
      && e.delivered <= |e.sent| && e.delivered <= |e.receives|
      && e.delivered >= Min(s.ranks[b].round, w.Rounds(a, b))
  }

  /** How much of what a sends b is in b's buffer. */
  ghost function Arrivals<T>(w: World<T>, s: State<T>, a: nat, b: nat): (n: nat)
    requires w.Valid() && s.Shape(w) && w.IsRank(a) && w.IsRank(b)
    ensures n <= |w.Outgoing(a, b)|
  {
    if a == b then |w.Outgoing(a, b)| else Covered(|w.Outgoing(a, b)|, s.edges[a][b].delivered, w.limit)
  }

  ghost predicate BufferInvariant<T>(w: World<T>, s: State<T>, a: nat, b: nat)
    requires w.Valid() && s.Shape(w) && w.IsRank(a) && w.IsRank(b)
  {
    Holds(s.received[b], w.ReceiveOffset(a, b), w.Outgoing(a, b)[..Arrivals(w, s, a, b)])
  }

  ghost predicate RankInvariant<T>(w: World<T>, s: State<T>, r: nat)
    requires w.Valid() && s.Shape(w) && w.IsRank(r)
  {
    Posted(s.ranks[r]) <= w.LocalRounds(r, |w.routed|)
  }

  ghost predicate Invariant<T>(w: World<T>, s: State<T>)
    requires w.Valid()
  {
    && s.Shape(w)
    && (forall r :: 0 <= r < |w.routed| ==> RankInvariant(w, s, r))
    && (forall a, b :: 0 <= a < |w.routed| && 0 <= b < |w.routed| ==> EdgeInvariant(w, s, a, b))
    && (forall a, b :: 0 <= a < |w.routed| && 0 <= b < |w.routed| ==> BufferInvariant(w, s, a, b))
  }

  lemma InitBuffer<T>(w: World<T>, s: State<T>, a: nat, b: nat)
    requires w.Valid() && Init(w, s) && w.IsRank(a) && w.IsRank(b)
    ensures BufferInvariant(w, s, a, b)
  {
    RoundsTile(|w.Outgoing(a, b)|, 0, w.limit);
    assert s.edges[a][b] == Edge([], [], 0);
    OffsetsIncrease(w, b, a, |w.routed|);
    if a == b {
      assert Holds(s.received[a], w.ReceiveOffset(a, a), w.Outgoing(a, a));
      assert w.Outgoing(a, a)[..|w.Outgoing(a, a)|] == w.Outgoing(a, a);
    }
  }

  lemma InitInvariant<T>(w: World<T>, s: State<T>)
    requires w.Valid() && Init(w, s)
    ensures Invariant(w, s)
  {
    forall a, b | 0 <= a < |w.routed| && 0 <= b < |w.routed|
      ensures EdgeInvariant(w, s, a, b) && BufferInvariant(w, s, a, b)
    {
      InitBuffer(w, s, a, b);
      assert s.edges[a][b] == Edge([], [], 0);
      assert s.ranks[a] == s.ranks[b] == RankState(0, false);
    }
  }

  /** What has arrived stays where it is while the buffer and the edge's deliveries do not change. */
  lemma BufferKept<T>(w: World<T>, s: State<T>, t: State<T>, a: nat, b: nat)
    requires w.Valid() && s.Shape(w) && t.Shape(w) && w.IsRank(a) && w.IsRank(b) && BufferInvariant(w, s, a, b)
    requires t.received[b] == s.received[b] && t.edges[a][b].delivered == s.edges[a][b].delivered
    ensures BufferInvariant(w, t, a, b)
  {
    assert Arrivals(w, t, a, b) == Arrivals(w, s, a, b);
  }

  lemma PostEdge<T>(w: World<T>, s: State<T>, t: State<T>, r: nat, a: nat, b: nat)
    requires w.Valid() && Invariant(w, s) && Post(w, s, t, r) && w.IsRank(a) && w.IsRank(b)
    ensures EdgeInvariant(w, t, a, b) && t.edges[a][b].delivered == s.edges[a][b].delivered
  {
    assert EdgeInvariant(w, s, a, b);
    assert t.edges[a][b] == AfterPost(w, s.edges[a][b], r, s.ranks[r].round, a, b);
    RoundHasRecords(|w.Outgoing(a, b)|, s.ranks[r].round, w.limit);
  }

  lemma PostInvariant<T>(w: World<T>, s: State<T>, t: State<T>, r: nat)
    requires w.Valid() && Invariant(w, s) && Post(w, s, t, r)
    ensures Invariant(w, t)
  {
    forall a, b | 0 <= a < |w.routed| && 0 <= b < |w.routed|
      ensures EdgeInvariant(w, t, a, b) && BufferInvariant(w, t, a, b)
    {
      PostEdge(w, s, t, r, a, b);
      assert BufferInvariant(w, s, a, b);
      BufferKept(w, s, t, a, b);
    }
    forall q | 0 <= q < |w.routed|
      ensures RankInvariant(w, t, q)
    {
      assert RankInvariant(w, s, q);
    }
  }

  /** The two ends of an edge agree: a matched message has exactly the posted length, so nothing is truncated. */
  lemma MessagesMatch<T>(w: World<T>, s: State<T>, a: nat, b: nat)
    requires w.Valid() && s.Shape(w) && w.IsRank(a) && w.IsRank(b) && EdgeInvariant(w, s, a, b)
    requires Deliverable(s.edges[a][b])
    ensures a != b
    ensures var e := s.edges[a][b];
      && |e.sent[e.delivered]| == e.receives[e.delivered].count > 0
      && e.receives[e.delivered].begin + e.receives[e.delivered].count <= |s.received[b]|
  {
    var k := s.edges[a][b].delivered;
    MessageIsShare(w, a, b, k);
    RoundHasRecords(|w.Outgoing(a, b)|, k, w.limit);
    OffsetsIncrease(w, b, a, |w.routed|);
  }

  /** The next message continues what has arrived, and lands right behind it. */
  lemma MessageLands<T>(w: World<T>, s: State<T>, a: nat, b: nat)
    requires w.Valid() && s.Shape(w) && w.IsRank(a) && w.IsRank(b) && EdgeInvariant(w, s, a, b)
    requires Deliverable(s.edges[a][b])
    ensures a != b
    ensures var e := s.edges[a][b];
      var records := w.Outgoing(a, b);
      var next := Covered(|records|, e.delivered + 1, w.limit);
      && Arrivals(w, s, a, b) <= next
      && e.sent[e.delivered] == records[Arrivals(w, s, a, b)..next]
      && e.receives[e.delivered].begin == w.ReceiveOffset(a, b) + Arrivals(w, s, a, b)
  {
    var k := s.edges[a][b].delivered;
    MessagesMatch(w, s, a, b);
    MessageIsShare(w, a, b, k);
    RoundsTile(|w.Outgoing(a, b)|, k, w.limit);
    assert s.edges[a][b].receives[k] == ReceiveOf(w, a, b, k);
  }

  /** The delivered edge: its buffer region grows by exactly the message. */
  lemma DeliverExtends<T>(w: World<T>, s: State<T>, t: State<T>, a: nat, b: nat)
    requires w.Valid() && s.Shape(w) && Deliver(w, s, t, a, b)
    requires EdgeInvariant(w, s, a, b) && BufferInvariant(w, s, a, b)
    ensures BufferInvariant(w, t, a, b)
  {
    MessageLands(w, s, a, b);
    OffsetsIncrease(w, b, a, |w.routed|);
    assert t.edges[a][b].delivered == s.edges[a][b].delivered + 1;
    WriteExtends(s.received[b], t.received[b], w.ReceiveOffset(a, b), w.Outgoing(a, b),
      Arrivals(w, s, a, b), Arrivals(w, t, a, b));
  }

  /** Regions of other sources are disjoint from the message. */
  lemma DeliverSpares<T>(w: World<T>, s: State<T>, t: State<T>, a: nat, b: nat, a': nat)
    requires w.Valid() && Invariant(w, s) && Deliver(w, s, t, a, b) && w.IsRank(a') && a' != a
    ensures BufferInvariant(w, t, a', b)
  {
    assert EdgeInvariant(w, s, a, b) && BufferInvariant(w, s, a', b);
    MessagesMatch(w, s, a, b);
    var e := s.edges[a][b];
    MessageIsShare(w, a, b, e.delivered);
    if a' < a {
      OffsetsIncrease(w, b, a', a);
    } else {
      OffsetsIncrease(w, b, a, a');
    }
    assert e.receives[e.delivered] == ReceiveOf(w, a, b, e.delivered);
    assert Arrivals(w, t, a', b) == Arrivals(w, s, a', b);
    WriteSpares(s.received[b], t.received[b], e.receives[e.delivered].begin, e.sent[e.delivered],
      w.ReceiveOffset(a', b), w.Outgoing(a', b)[..Arrivals(w, s, a', b)]);
  }

  lemma DeliverInvariant<T>(w: World<T>, s: State<T>, t: State<T>, a: nat, b: nat)
    requires w.Valid() && Invariant(w, s) && Deliver(w, s, t, a, b)
    ensures Invariant(w, t)
  {
    MessagesMatch(w, s, a, b);
    forall a', b' | 0 <= a' < |w.routed| && 0 <= b' < |w.routed|
      ensures EdgeInvariant(w, t, a', b') && BufferInvariant(w, t, a', b')
    {
      assert EdgeInvariant(w, s, a', b') && BufferInvariant(w, s, a', b');
      if b' == b {
        if a' == a {
          DeliverExtends(w, s, t, a, b);
        } else {
          DeliverSpares(w, s, t, a, b, a');
        }
      } else {
        BufferKept(w, s, t, a', b');
      }
    }
    forall q | 0 <= q < |w.routed|
      ensures RankInvariant(w, t, q)
    {
      assert RankInvariant(w, s, q);
    }
  }

  lemma CompleteInvariant<T>(w: World<T>, s: State<T>, t: State<T>, r: nat)
    requires w.Valid() && Invariant(w, s) && Complete(w, s, t, r)
    ensures Invariant(w, t)
  {
    forall a, b | 0 <= a < |w.routed| && 0 <= b < |w.routed|
      ensures EdgeInvariant(w, t, a, b) && BufferInvariant(w, t, a, b)
    {
      assert EdgeInvariant(w, s, a, b) && BufferInvariant(w, s, a, b);
      BufferKept(w, s, t, a, b);
      assert b == r ==> s.edges[a][r].delivered >= |s.edges[a][r].receives|;
    }
    forall q | 0 <= q < |w.routed|
      ensures RankInvariant(w, t, q)
    {
      assert RankInvariant(w, s, q);
    }
  }

  lemma StepInvariant<T>(w: World<T>, s: State<T>, t: State<T>)
    requires w.Valid() && Invariant(w, s) && Step(w, s, t)
    ensures Invariant(w, t)
  {
    if r :| Post(w, s, t, r) {
      PostInvariant(w, s, t, r);
    } else if a, b :| Deliver(w, s, t, a, b) {
      DeliverInvariant(w, s, t, a, b);
    } else {
      var r :| Complete(w, s, t, r);
      CompleteInvariant(w, s, t, r);
    }
  }

  lemma {:induction false} RunInvariant<T>(w: World<T>, run: seq<State<T>>, i: nat)
    requires w.Valid() && Run(w, run) && i < |run|
    ensures Invariant(w, run[i])
  {
    if i == 0 {
      InitInvariant(w, run[0]);
    } else {
      RunInvariant(w, run, i - 1);
      assert Step(w, run[i - 1], run[i - 1 + 1]);
      StepInvariant(w, run[i - 1], run[i]);
    }
  }

  // ---- progress ----

  /** Some step is possible without any help from transport buffering. */
  ghost predicate CanProceed<T>(w: World<T>, s: State<T>)
    requires w.Valid() && s.Shape(w)
  {
    || (exists r :: CanPost(w, s, r))
    || (exists a, b :: CanDeliver(w, s, a, b))
    || (exists r :: CanComplete(w, s, r))
  }

  ghost predicate CanPost<T>(w: World<T>, s: State<T>, r: nat)
    requires w.Valid() && s.Shape(w)
  {
    w.IsRank(r) && !s.ranks[r].waiting && s.ranks[r].round < w.LocalRounds(r, |w.routed|)
  }

  ghost predicate CanDeliver<T>(w: World<T>, s: State<T>, a: nat, b: nat)
    requires w.Valid() && s.Shape(w)
  {
    w.IsRank(a) && w.IsRank(b) && Deliverable(s.edges[a][b])
  }

  ghost predicate CanComplete<T>(w: World<T>, s: State<T>, r: nat)
    requires w.Valid() && s.Shape(w)
  {
    w.IsRank(r) && s.ranks[r].waiting && Arrived(w, s, r) && Matched(w, s, r)
  }

  /** The unfinished rank that is furthest behind. */
  lemma {:induction false} FurthestBehind<T>(w: World<T>, s: State<T>, n: nat) returns (r: nat)
    requires w.Valid() && s.Shape(w) && n <= |w.routed|
    requires exists q :: 0 <= q < n && !RankDone(w, s, q)
    ensures r < n && !RankDone(w, s, r)
    ensures forall q :: 0 <= q < n && !RankDone(w, s, q) ==> s.ranks[r].round <= s.ranks[q].round
  {
    if exists q :: 0 <= q < n - 1 && !RankDone(w, s, q) {
      r := FurthestBehind(w, s, n - 1);
      if !RankDone(w, s, n - 1) && s.ranks[n - 1].round < s.ranks[r].round {
        r := n - 1;
      }
    } else {
      r := n - 1;
    }
  }

  /** A rank behind or level with its peer finds the peer's end of the edge posted. */
  lemma PeerPosted<T>(w: World<T>, s: State<T>, r: nat, peer: nat)
    requires w.Valid() && Invariant(w, s) && w.IsRank(r) && w.IsRank(peer) && r != peer
    requires forall q :: 0 <= q < |w.routed| ==> !CanPost(w, s, q)
    requires s.ranks[r].waiting && (RankDone(w, s, peer) || s.ranks[r].round <= s.ranks[peer].round)
    ensures |s.edges[peer][r].receives| <= |s.edges[peer][r].sent|
    ensures |s.edges[r][peer].sent| <= |s.edges[r][peer].receives|
  {
    assert EdgeInvariant(w, s, peer, r) && EdgeInvariant(w, s, r, peer);
    assert !CanPost(w, s, peer);
    LocalRoundsCover(w, peer, r, |w.routed|);
  }

  lemma SelfEdgeEmpty<T>(w: World<T>, s: State<T>, r: nat)
    requires w.Valid() && Invariant(w, s) && w.IsRank(r)
    ensures s.edges[r][r] == Edge([], [], 0)
  {
    assert EdgeInvariant(w, s, r, r);
  }

  /** With nothing to post or deliver, the rank furthest behind can end its wait. */
  lemma BehindCompletes<T>(w: World<T>, s: State<T>, r: nat)
    requires w.Valid() && Invariant(w, s) && w.IsRank(r) && !RankDone(w, s, r)
    requires forall q :: 0 <= q < |w.routed| ==> !CanPost(w, s, q)
    requires forall a, b :: 0 <= a < |w.routed| && 0 <= b < |w.routed| ==> !CanDeliver(w, s, a, b)
    requires forall q :: 0 <= q < |w.routed| && !RankDone(w, s, q) ==> s.ranks[r].round <= s.ranks[q].round
    ensures CanComplete(w, s, r)
  {
    assert !CanPost(w, s, r);
    forall peer | 0 <= peer < |w.routed|
      ensures s.edges[peer][r].delivered >= |s.edges[peer][r].receives|
      ensures s.edges[r][peer].delivered >= |s.edges[r][peer].sent|
    {
      assert !CanDeliver(w, s, peer, r) && !CanDeliver(w, s, r, peer);
      if peer == r {
        SelfEdgeEmpty(w, s, r);
      } else {
        PeerPosted(w, s, r, peer);
      }
    }
  }

  /** No deadlock: until every rank has finished, some rank or transfer can proceed. */
  lemma NeverStuck<T>(w: World<T>, s: State<T>)
    requires w.Valid() && Invariant(w, s) && !Finished(w, s)
    ensures CanProceed(w, s)
  {
    if !CanProceed(w, s) {
      var q :| 0 <= q < |w.routed| && !RankDone(w, s, q);
      var r := FurthestBehind(w, s, |w.routed|);
      BehindCompletes(w, s, r);
    }
  }

  // Every enabled step has a successor.

  ghost function PostedEdges<T>(w: World<T>, s: State<T>, r: nat, a: nat): (edges: seq<Edge<T>>)
    requires w.Valid() && s.Shape(w) && w.IsRank(r) && w.IsRank(a)
    ensures |edges| == |w.routed|
    ensures forall b :: 0 <= b < |edges| ==> edges[b] == AfterPost(w, s.edges[a][b], r, s.ranks[r].round, a, b)
  {
    seq(|w.routed|, b requires 0 <= b < |w.routed| => AfterPost(w, s.edges[a][b], r, s.ranks[r].round, a, b))
  }

  lemma PostExists<T>(w: World<T>, s: State<T>, r: nat) returns (t: State<T>)
    requires w.Valid() && s.Shape(w) && CanPost(w, s, r)
    ensures Post(w, s, t, r)
  {
    var edges := seq(|w.routed|, a requires 0 <= a < |w.routed| => PostedEdges(w, s, r, a));
    t := State(s.ranks[r := RankState(s.ranks[r].round, true)], edges, s.received);
  }

  ghost function Written<T>(before: seq<Slot<T>>, begin: nat, message: seq<Particle<T>>): (after: seq<Slot<T>>)
    ensures Write(before, after, begin, message)
  {
    seq(|before|, i requires 0 <= i < |before| =>
      if begin <= i < begin + |message| then Full(message[i - begin]) else before[i])
  }

  lemma DeliverExists<T>(w: World<T>, s: State<T>, a: nat, b: nat) returns (t: State<T>)
    requires w.Valid() && s.Shape(w) && CanDeliver(w, s, a, b)
    ensures Deliver(w, s, t, a, b)
  {
    var e := s.edges[a][b];
    var buffer := Written(s.received[b], e.receives[e.delivered].begin, e.sent[e.delivered]);
    t := State(s.ranks, s.edges[a := s.edges[a][b := e.(delivered := e.delivered + 1)]], s.received[b := buffer]);
  }

  lemma CompleteExists<T>(w: World<T>, s: State<T>, r: nat) returns (t: State<T>)
    requires w.Valid() && s.Shape(w) && CanComplete(w, s, r)
    ensures Complete(w, s, t, r)
  {
    t := s.(ranks := s.ranks[r := RankState(s.ranks[r].round + 1, false)]);
  }

  lemma StepExists<T>(w: World<T>, s: State<T>) returns (t: State<T>)
    requires w.Valid() && s.Shape(w) && CanProceed(w, s)
    ensures Step(w, s, t)
  {
    if r :| CanPost(w, s, r) {
      t := PostExists(w, s, r);
    } else if a, b :| CanDeliver(w, s, a, b) {
      t := DeliverExists(w, s, a, b);
    } else {
      var r :| CanComplete(w, s, r);
      t := CompleteExists(w, s, r);
    }
  }

  ghost function SelfCopied<T>(w: World<T>, d: nat): seq<Slot<T>>
    requires w.IsRank(d)
  {
    var size, begin, own := w.ReceiveOffset(|w.routed|, d), w.ReceiveOffset(d, d), w.Outgoing(d, d);
    seq(size, i requires 0 <= i < size => if begin <= i < begin + |own| then Full(own[i - begin]) else Vacant)
  }

  lemma InitExists<T>(w: World<T>) returns (s: State<T>)
    requires w.Valid()
    ensures Init(w, s)
  {
    var n := |w.routed|;
    var idle: seq<Edge<T>> := seq(n, b => Edge([], [], 0));
    s := State(seq(n, r => RankState(0, false)), seq(n, a => idle), seq(n, d requires 0 <= d < n => SelfCopied(w, d)));
    forall d | 0 <= d < n
      ensures Holds(s.received[d], w.ReceiveOffset(d, d), w.Outgoing(d, d))
    {
      OffsetsIncrease(w, d, d, n);
    }
  }

  // ---- termination ----

  ghost function RankWork<T>(w: World<T>, s: State<T>, r: nat): int
    requires w.Valid() && s.Shape(w)
  {
    if w.IsRank(r)
    then 2 * (w.LocalRounds(r, |w.routed|) - s.ranks[r].round) - (if s.ranks[r].waiting then 1 else 0)
    else 0
  }

  ghost function EdgeWork<T>(w: World<T>, s: State<T>, a: nat, b: nat): int
    requires w.Valid() && s.Shape(w)
  {
    if w.IsRank(a) && w.IsRank(b) then w.Rounds(a, b) - s.edges[a][b].delivered else 0
  }

  ghost function RankWorks<T>(w: World<T>, s: State<T>): nat -> int
    requires w.Valid() && s.Shape(w)
  {
    (r: nat) => RankWork(w, s, r)
  }

  ghost function EdgeWorks<T>(w: World<T>, s: State<T>, a: nat): nat -> int
    requires w.Valid() && s.Shape(w)
  {
    (b: nat) => EdgeWork(w, s, a, b)
  }

  ghost function SourceWorks<T>(w: World<T>, s: State<T>): nat -> int
    requires w.Valid() && s.Shape(w)
  {
    (a: nat) => SumBelow(|w.routed|, EdgeWorks(w, s, a))
  }

  /** Rounds still to post and complete, and messages still to transfer. */
  ghost function Work<T>(w: World<T>, s: State<T>): int
    requires w.Valid() && s.Shape(w)
  {
    SumBelow(|w.routed|, RankWorks(w, s)) + SumBelow(|w.routed|, SourceWorks(w, s))
  }

  lemma WorkNonnegative<T>(w: World<T>, s: State<T>)
    requires w.Valid() && Invariant(w, s)
    ensures Work(w, s) >= 0
  {
    forall r | 0 <= r < |w.routed|
      ensures RankWorks(w, s)(r) >= 0
    {
      assert RankInvariant(w, s, r);
    }
    SumBelowNonnegative(|w.routed|, RankWorks(w, s));
    forall a | 0 <= a < |w.routed|
      ensures SourceWorks(w, s)(a) >= 0
    {
      forall b | 0 <= b < |w.routed|
        ensures EdgeWorks(w, s, a)(b) >= 0
      {
        assert EdgeInvariant(w, s, a, b);
      }
      SumBelowNonnegative(|w.routed|, EdgeWorks(w, s, a));
    }
    SumBelowNonnegative(|w.routed|, SourceWorks(w, s));
  }

  /** Deliveries only grow, so the remaining transfers of every source only shrink. */
  lemma SourcesShrink<T>(w: World<T>, s: State<T>, t: State<T>)
    requires w.Valid() && s.Shape(w) && t.Shape(w)
    requires forall a, b :: 0 <= a < |w.routed| && 0 <= b < |w.routed| ==>
      s.edges[a][b].delivered <= t.edges[a][b].delivered
    ensures forall a :: 0 <= a < |w.routed| ==> SourceWorks(w, t)(a) <= SourceWorks(w, s)(a)
    ensures SumBelow(|w.routed|, SourceWorks(w, t)) <= SumBelow(|w.routed|, SourceWorks(w, s))
  {
    forall a | 0 <= a < |w.routed|
      ensures SourceWorks(w, t)(a) <= SourceWorks(w, s)(a)
    {
      forall b | 0 <= b < |w.routed|
        ensures EdgeWorks(w, t, a)(b) <= EdgeWorks(w, s, a)(b)
      {
        assert s.edges[a][b].delivered <= t.edges[a][b].delivered;
      }
      SumBelowMonotone(|w.routed|, EdgeWorks(w, t, a), EdgeWorks(w, s, a));
    }
    SumBelowMonotone(|w.routed|, SourceWorks(w, t), SourceWorks(w, s));
  }

  lemma RankStepWorks<T>(w: World<T>, s: State<T>, t: State<T>, r: nat)
    requires w.Valid() && s.Shape(w) && t.Shape(w) && w.IsRank(r)
    requires t.ranks == s.ranks[r := t.ranks[r]] && RankWork(w, t, r) < RankWork(w, s, r)
    requires forall a, b :: 0 <= a < |w.routed| && 0 <= b < |w.routed| ==>
      s.edges[a][b].delivered == t.edges[a][b].delivered
    ensures Work(w, t) < Work(w, s)
  {
    SourcesShrink(w, s, t);
    forall q | 0 <= q < |w.routed|
      ensures RankWorks(w, t)(q) <= RankWorks(w, s)(q)
    {
      assert q != r ==> t.ranks[q] == s.ranks[q];
    }
    SumBelowStrict(|w.routed|, RankWorks(w, t), RankWorks(w, s), r);
  }

  lemma DeliverWorks<T>(w: World<T>, s: State<T>, t: State<T>, a: nat, b: nat)
    requires w.Valid() && s.Shape(w) && t.Shape(w) && Deliver(w, s, t, a, b)
    ensures Work(w, t) < Work(w, s)
  {
    SourcesShrink(w, s, t);
    SumBelowMonotone(|w.routed|, RankWorks(w, t), RankWorks(w, s));
    forall b' | 0 <= b' < |w.routed|
      ensures EdgeWorks(w, t, a)(b') <= EdgeWorks(w, s, a)(b')
    {
      assert s.edges[a][b'].delivered <= t.edges[a][b'].delivered;
    }
    SumBelowStrict(|w.routed|, EdgeWorks(w, t, a), EdgeWorks(w, s, a), b);
    SumBelowStrict(|w.routed|, SourceWorks(w, t), SourceWorks(w, s), a);
  }

  /** Every step uses up work, so every run ends. */
  lemma StepWorks<T>(w: World<T>, s: State<T>, t: State<T>)
    requires w.Valid() && Invariant(w, s) && Step(w, s, t)
    ensures Work(w, t) < Work(w, s)
  {
    if r :| Post(w, s, t, r) {
      forall a, b | 0 <= a < |w.routed| && 0 <= b < |w.routed|
        ensures s.edges[a][b].delivered == t.edges[a][b].delivered
      {
        PostEdge(w, s, t, r, a, b);
      }
      RankStepWorks(w, s, t, r);
    } else if a, b :| Deliver(w, s, t, a, b) {
      DeliverWorks(w, s, t, a, b);
    } else {
      var r :| Complete(w, s, t, r);
      RankStepWorks(w, s, t, r);
    }
  }

  lemma {:induction false} RunBounded<T>(w: World<T>, run: seq<State<T>>, i: nat)
    requires w.Valid() && Run(w, run) && i < |run|
    ensures run[0].Shape(w) && run[i].Shape(w) && Work(w, run[i]) + i <= Work(w, run[0])
  {
    RunInvariant(w, run, i);
    if i > 0 {
      RunBounded(w, run, i - 1);
      RunInvariant(w, run, i - 1);
      assert Step(w, run[i - 1], run[i - 1 + 1]);
      StepWorks(w, run[i - 1], run[i]);
    }
  }

  /** An unfinished state has a next one that keeps the invariant and has less work. */
  lemma Successor<T>(w: World<T>, s: State<T>) returns (t: State<T>)
    requires w.Valid() && Invariant(w, s) && !Finished(w, s)
    ensures Step(w, s, t) && Invariant(w, t) && Work(w, t) < Work(w, s)
  {
    NeverStuck(w, s);
    t := StepExists(w, s);
    StepInvariant(w, s, t);
    StepWorks(w, s, t);
  }

  ghost predicate FinishedRun<T>(w: World<T>, run: seq<State<T>>)
    requires w.Valid()
  {
    Run(w, run) && run[|run| - 1].Shape(w) && Finished(w, run[|run| - 1])
  }

  lemma RunExtended<T>(w: World<T>, run: seq<State<T>>, t: State<T>)
    requires w.Valid() && Run(w, run) && run[|run| - 1].Shape(w) && Step(w, run[|run| - 1], t)
    ensures Run(w, run + [t])
  {
  }

  /** Every run extends to a finished one. */
  lemma {:induction false} RunFinishes<T>(w: World<T>, run: seq<State<T>>) returns (longer: seq<State<T>>)
    requires w.Valid() && Run(w, run)
    ensures run <= longer && FinishedRun(w, longer)
    decreases RemainingWork(w, run)
  {
    var last := run[|run| - 1];
    RunInvariant(w, run, |run| - 1);
    if Finished(w, last) {
      longer := run;
    } else {
      var t := Successor(w, last);
      WorkNonnegative(w, last);
      WorkNonnegative(w, t);
      RunExtended(w, run, t);
      longer := RunFinishes(w, run + [t]);
    }
  }

  ghost function RemainingWork<T>(w: World<T>, run: seq<State<T>>): int
    requires w.Valid() && Run(w, run)
  {
    RunInvariant(w, run, |run| - 1);
    Work(w, run[|run| - 1])
  }

  /** The exchange of a valid world can be carried out. */
  lemma FinishedRunExists<T>(w: World<T>) returns (run: seq<State<T>>)
    requires w.Valid()
    ensures FinishedRun(w, run)
  {
    var s := InitExists(w);
    run := RunFinishes(w, [s]);
  }

  // ---- the result ----

  lemma AllArrived<T>(w: World<T>, s: State<T>, a: nat, d: nat)
    requires w.Valid() && Invariant(w, s) && Finished(w, s) && w.IsRank(a) && w.IsRank(d)
    ensures Holds(s.received[d], w.ReceiveOffset(a, d), w.Outgoing(a, d))
  {
    assert BufferInvariant(w, s, a, d) && EdgeInvariant(w, s, a, d) && RankDone(w, s, d);
    var records := |w.Outgoing(a, d)|;
    if a != d {
      LocalRoundsCover(w, d, a, |w.routed|);
      RoundsTile(records, s.edges[a][d].delivered, w.limit);
    }
    assert w.Outgoing(a, d)[..records] == w.Outgoing(a, d);
  }

  ghost function Filled<T>(content: seq<Particle<T>>): (r: seq<Slot<T>>)
    ensures |r| == |content|
  {
    seq(|content|, i requires 0 <= i < |content| => Full(content[i]))
  }

  lemma {:induction false} BuffersConcatenate<T>(w: World<T>, s: State<T>, d: nat, sources: nat)
    requires w.Valid() && Invariant(w, s) && Finished(w, s) && w.IsRank(d) && sources <= |w.routed|
    ensures Holds(s.received[d], 0, w.Incoming(sources, d))
  {
    if sources > 0 {
      BuffersConcatenate(w, s, d, sources - 1);
      IncomingLength(w, d, sources - 1);
      AllArrived(w, s, sources - 1, d);
      HoldsBoth(s.received[d], w.Incoming(sources - 1, d), w.Outgoing(sources - 1, d));
    }
  }

  /** When all ranks have finished, each buffer is the concatenation by source of the records routed to it. */
  lemma FinishedBuffers<T>(w: World<T>, s: State<T>, d: nat)
    requires w.Valid() && Invariant(w, s) && Finished(w, s) && w.IsRank(d)
    ensures s.received[d] == Filled(w.Incoming(|w.routed|, d))
  {
    BuffersConcatenate(w, s, d, |w.routed|);
    IncomingLength(w, d, |w.routed|);
  }

  /**
   * The exchange, over all runs: a run is never longer than its initial work, it can proceed without transport
   * buffering until all ranks have finished, it extends to a finished run, and every finished run has delivered exactly
   * the routed records.
   */
  lemma ExchangeCorrect<T>(w: World<T>, run: seq<State<T>>) returns (longer: seq<State<T>>)
    requires w.Valid() && Run(w, run)
    ensures run[0].Shape(w) && |run| <= Work(w, run[0]) + 1
    ensures run[|run| - 1].Shape(w) && (Finished(w, run[|run| - 1]) || CanProceed(w, run[|run| - 1]))
    ensures run <= longer && FinishedRun(w, longer)
    ensures FinishedRun(w, run) ==> Leaves(w, run)
  {
    var n := |run| - 1;
    RunBounded(w, run, n);
    RunInvariant(w, run, n);
    WorkNonnegative(w, run[n]);
    if Finished(w, run[n]) {
      FinishedLeaves(w, run);
    } else {
      NeverStuck(w, run[n]);
    }
    longer := RunFinishes(w, run);
  }

  /** The last state of the run holds in each buffer the records routed to it, by source. */
  ghost predicate Leaves<T>(w: World<T>, run: seq<State<T>>) {
    && run != [] && |run[|run| - 1].received| == |w.routed|
    && forall d :: 0 <= d < |w.routed| ==> run[|run| - 1].received[d] == Filled(w.Incoming(|w.routed|, d))
  }

  lemma FinishedLeaves<T>(w: World<T>, run: seq<State<T>>)
    requires w.Valid() && FinishedRun(w, run)
    ensures Leaves(w, run)
  {
    var last := run[|run| - 1];
    RunInvariant(w, run, |run| - 1);
    forall d | 0 <= d < |w.routed|
      ensures last.received[d] == Filled(w.Incoming(|w.routed|, d))
    {
      FinishedBuffers(w, last, d);
    }
  }

  // ---- the result of a finished exchange, for its callers ----

  method ReceiveFrom<T>(routed: seq<Routed<T>>, d: nat) returns (received: seq<Particle<T>>)
    ensures received == To(routed, d)
  {
    received := [];
    for i := 0 to |routed|
      invariant received == To(routed[..i], d)
    {
      assert routed[..i + 1] == routed[..i] + [routed[i]];
      ToSnoc(routed[..i], routed[i], d);
      if routed[i].destination == d {
        received := received + [routed[i].particle];
      }
    }
    assert routed[..|routed|] == routed;
  }

  /** What the bounded exchange leaves in every receive buffer when all ranks have finished. */
  method Transport<T>(limit: nat, routed: seq<seq<Routed<T>>>) returns (received: seq<seq<Particle<T>>>)
    requires World(limit, routed).Valid()
    ensures |received| == |routed|
    ensures forall d :: 0 <= d < |routed| ==> received[d] == World(limit, routed).Incoming(|routed|, d)
  {
    ghost var w := World(limit, routed);
    received := [];
    for d := 0 to |routed|
      invariant |received| == d
      invariant forall e :: 0 <= e < d ==> received[e] == w.Incoming(|routed|, e)
    {
      var buffer: seq<Particle<T>> := [];
      for s := 0 to |routed|
        invariant buffer == w.Incoming(s, d)
      {
        var share := ReceiveFrom(routed[s], d);
        buffer := buffer + share;
      }
      received := received + [buffer];
    }
  }

  /** What Transport returns is what the protocol leaves: a finished run exists, and each one holds exactly that. */
  lemma TransportIsExchange<T>(limit: nat, routed: seq<seq<Routed<T>>>, received: seq<seq<Particle<T>>>,
                               run: seq<State<T>>)
    returns (some: seq<State<T>>)
    requires World(limit, routed).Valid() && |received| == |routed|
    requires forall d :: 0 <= d < |routed| ==> received[d] == World(limit, routed).Incoming(|routed|, d)
    ensures FinishedRun(World(limit, routed), some)
    ensures FinishedRun(World(limit, routed), run) ==>
      forall d :: 0 <= d < |routed| ==> run[|run| - 1].received[d] == Filled(received[d])
  {
    var w := World(limit, routed);
    some := FinishedRunExists(w);
    if FinishedRun(w, run) {
      FinishedLeaves(w, run);
    }
  }
}
