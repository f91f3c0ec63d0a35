/** The antipode sweep of the periodic mass center along one axis, on decoded integers. */
module CenterScan {
  import opened Powers
  import opened Collections
  import opened Quadratics
  import opened TorusObjective
  import opened CenterTheory

  datatype Event = Event(breakpoint: int, weight: int, initialLift: int)

  /** What the scan reports: the center numerator/W, or one of its errors. */
  datatype ScanOutcome = Center(numerator: int) | NonUniqueCenter | NoCandidate | NegativeObjective

  /** One interval between antipodes with the sums in force on it. */
  datatype Cell = Cell(left: int, right: int, s: int, q: int)

  /** The variables captured by the scan's candidate test. */
  datatype Best = Best(have: bool, nonUnique: bool, objective: int, numerator: int)

  ghost function ObjectiveAt(samples: seq<Sample>, box: int): real -> real {
    c => Objective(samples, box, c)
  }

  // ---- what the candidate test remembers ----

  predicate CellCandidate(w: int, cell: Cell) {
    w * cell.left <= cell.s <= w * cell.right
  }

  function ScaledMinimum(w: int, cell: Cell): int {
    w * cell.q - cell.s * cell.s
  }

  function CanonicalNumerator(w: int, box: int, cell: Cell): int {
    if cell.s == w * box then 0 else cell.s
  }

  ghost predicate Attains(w: int, cell: Cell, best: Best) {
    CellCandidate(w, cell) && ScaledMinimum(w, cell) == best.objective
  }

  ghost predicate Summarizes(w: int, box: int, cells: seq<Cell>, best: Best) {
    && (best.have ==>
          exists i :: 0 <= i < |cells| && Attains(w, cells[i], best) &&
            CanonicalNumerator(w, box, cells[i]) == best.numerator)
    && (forall i :: 0 <= i < |cells| && CellCandidate(w, cells[i]) ==>
          best.have && best.objective <= ScaledMinimum(w, cells[i]))
    && (best.nonUnique ==>
          best.have
          && exists i ::
            0 <= i < |cells| && Attains(w, cells[i], best) && CanonicalNumerator(w, box, cells[i]) != best.numerator)
    && (best.have && !best.nonUnique ==>
          forall i :: 0 <= i < |cells| && Attains(w, cells[i], best) ==>
            CanonicalNumerator(w, box, cells[i]) == best.numerator)
  }

  /** The candidate test of one interval; false is the error of a negative objective. */
  method ConsiderInterval(w: int, box: int, cell: Cell, ghost cells: seq<Cell>, best: Best)
    returns (ok: bool, next: Best)
    requires Summarizes(w, box, cells, best)
    ensures ok <==> (CellCandidate(w, cell) ==> ScaledMinimum(w, cell) >= 0)
    ensures ok ==> Summarizes(w, box, cells + [cell], next)
  {
    ghost var all := cells + [cell];
    assert forall i :: 0 <= i < |cells| ==> all[i] == cells[i];
    assert all[|cells|] == cell;
    ok, next := true, best;
    if cell.s < w * cell.left || cell.s > w * cell.right {
      return;
    }
    var objective := w * cell.q - cell.s * cell.s;
    if objective < 0 {
      return false, best;
    }
    var canonical := if cell.s == w * box then 0 else cell.s;
    if !best.have || objective < best.objective {
      next := Best(true, false, objective, canonical);
    } else if objective == best.objective && canonical != best.numerator {
      next := best.(nonUnique := true);
    }
  }

  // ---- the sums along the sweep ----

  function EventOf(s: Sample, box: int): Event {
    Event(Breakpoint(s.coordinate, box), s.weight, InitialLift(s.coordinate, box))
  }

  ghost function EventsOf(samples: seq<Sample>, box: int): seq<Event> {
    if samples == [] then []
    else
      var e := EventOf(samples[0], box);
      (if e.breakpoint != 0 then [e] else []) + EventsOf(samples[1..], box)
  }

  lemma {:induction false} EventsOfAppend(a: seq<Sample>, b: seq<Sample>, box: int)
    ensures EventsOf(a + b, box) == EventsOf(a, box) + EventsOf(b, box)
  {
    if a == [] {
      assert a + b == b;
    } else {
      assert (a + b)[1..] == a[1..] + b;
      EventsOfAppend(a[1..], b, box);
    }
  }

  lemma {:induction false} EventsAreBreakpoints(samples: seq<Sample>, box: int)
    requires ValidSamples(samples, box)
    ensures forall e :: e in EventsOf(samples, box) ==> 0 < e.breakpoint < box
    ensures forall s :: s in samples && Breakpoint(s.coordinate, box) != 0 ==> EventOf(s, box) in EventsOf(samples, box)
  {
    if samples != [] {
      assert samples[0] in samples;
      assert forall s :: s in samples[1..] ==> s in samples;
      EventsAreBreakpoints(samples[1..], box);
    }
  }

  /** What an event adds to S and to Q. */
  function AddedLinear(box: int): Event -> int {
    (e: Event) => e.weight * box
  }

  function AddedSquare(box: int): Event -> int {
    (e: Event) => e.weight * box * (2 * e.initialLift + box)
  }

  /** The same, for the events crossed by the time the sweep stands at left. */
  ghost function CrossedBy(f: Event -> int, left: int): Event -> int {
    (e: Event) => if e.breakpoint <= left then f(e) else 0
  }

  lemma LinearStep(s: Sample, box: int, left: int)
    requires 0 <= s.coordinate < box && box % 2 == 0
    ensures LinearTerm(box, left)(s) == LinearTerm(box, 0)(s)
      + (if 0 < Breakpoint(s.coordinate, box) <= left then AddedLinear(box)(EventOf(s, box)) else 0)
  {
    var l := InitialLift(s.coordinate, box);
    assert s.weight * (l + box) == s.weight * l + s.weight * box;
  }

  lemma SquareStep(s: Sample, box: int, left: int)
    requires 0 <= s.coordinate < box && box % 2 == 0
    ensures SquareTerm(box, left)(s) == SquareTerm(box, 0)(s)
      + (if 0 < Breakpoint(s.coordinate, box) <= left then AddedSquare(box)(EventOf(s, box)) else 0)
  {
    NextSquare(s.weight, InitialLift(s.coordinate, box), box);
  }

  lemma NextSquare(w: int, l: int, box: int)
    ensures w * (l + box) * (l + box) == w * l * l + w * box * (2 * l + box)
  {
  }

  /**
   * Each sample crosses its antipode at most once, so the sums at left are the initial sums plus the crossed events.
   */
  lemma {:induction false} CrossingSums(term: Sample -> int, base: Sample -> int, added: Event -> int,
                                        samples: seq<Sample>, box: int, left: int)
    requires forall s :: s in samples ==>
      term(s) == base(s) + (if 0 < Breakpoint(s.coordinate, box) <= left then added(EventOf(s, box)) else 0)
    requires forall s :: s in samples ==> 0 <= Breakpoint(s.coordinate, box)
    ensures SumInt(term, samples) == SumInt(base, samples) + SumInt(CrossedBy(added, left), EventsOf(samples, box))
  {
    if samples != [] {
      var s, rest := samples[0], samples[1..];
      assert s in samples;
      assert forall r :: r in rest ==> r in samples;
      CrossingSums(term, base, added, rest, box, left);
      var e := EventOf(s, box);
      if e.breakpoint != 0 {
        assert ([e] + EventsOf(rest, box))[1..] == EventsOf(rest, box);
      } else {
        assert [] + EventsOf(rest, box) == EventsOf(rest, box);
      }
    }
  }

  lemma {:induction false} PrefixIsCrossed(f: Event -> int, left: int, done: seq<Event>, rest: seq<Event>)
    requires forall e :: e in done ==> e.breakpoint <= left
    requires forall e :: e in rest ==> e.breakpoint > left
    ensures SumInt(CrossedBy(f, left), done + rest) == SumInt(f, done)
  {
    SumIntAppend(CrossedBy(f, left), done, rest);
    SumIntCongruence(CrossedBy(f, left), f, done);
    SumIntZero(CrossedBy(f, left), rest);
  }

  lemma {:induction false} SumIntZero<T>(f: T -> int, s: seq<T>)
    requires forall x :: x in s ==> f(x) == 0
    ensures SumInt(f, s) == 0
  {
    if s != [] {
      assert s[0] in s;
      SumIntZero(f, s[1..]);
    }
  }

  /** At every stop of the sweep the running sums are the sums over the lifts in force there. */
  lemma SumsAtStop(samples: seq<Sample>, box: int, events: seq<Event>, i: nat, left: int)
    requires ValidSamples(samples, box) && i <= |events|
    requires multiset(events) == multiset(EventsOf(samples, box))
    requires forall e :: e in events[..i] ==> e.breakpoint <= left
    requires forall e :: e in events[i..] ==> e.breakpoint > left
    ensures LinearSum(samples, box, left) == LinearSum(samples, box, 0) + SumInt(AddedLinear(box), events[..i])
    ensures SquareSum(samples, box, left) == SquareSum(samples, box, 0) + SumInt(AddedSquare(box), events[..i])
  {
    assert events == events[..i] + events[i..];
    forall s | s in samples
      ensures LinearTerm(box, left)(s) == LinearTerm(box, 0)(s)
        + (if 0 < Breakpoint(s.coordinate, box) <= left then AddedLinear(box)(EventOf(s, box)) else 0)
    {
      LinearStep(s, box, left);
    }
    forall s | s in samples
      ensures SquareTerm(box, left)(s) == SquareTerm(box, 0)(s)
        + (if 0 < Breakpoint(s.coordinate, box) <= left then AddedSquare(box)(EventOf(s, box)) else 0)
    {
      SquareStep(s, box, left);
    }
    CrossingSums(LinearTerm(box, left), LinearTerm(box, 0), AddedLinear(box), samples, box, left);
    CrossingSums(SquareTerm(box, left), SquareTerm(box, 0), AddedSquare(box), samples, box, left);
    SumIntPermutation(CrossedBy(AddedLinear(box), left), events, EventsOf(samples, box));
    SumIntPermutation(CrossedBy(AddedSquare(box), left), events, EventsOf(samples, box));
    PrefixIsCrossed(AddedLinear(box), left, events[..i], events[i..]);
    PrefixIsCrossed(AddedSquare(box), left, events[..i], events[i..]);
  }

  // ---- from cells to parabolas ----

  ghost predicate CellInForce(samples: seq<Sample>, box: int, cell: Cell) {
    && AntipodeFree(samples, box, Interval(cell.left, cell.right))
    && cell.s == LinearSum(samples, box, cell.left)
    && cell.q == SquareSum(samples, box, cell.left)
  }

  ghost function PieceOf(w: int, cell: Cell): Piece
    requires w > 0
  {
    Piece(cell.left, cell.right, Mean(w, cell.s), Lowest(w, cell.s, cell.q))
  }

  lemma CellAboveVertex(samples: seq<Sample>, box: int, cell: Cell)
    requires ValidSamples(samples, box) && TotalWeight(samples) > 0 && CellInForce(samples, box, cell)
    ensures AboveVertex(ObjectiveAt(samples, box), PieceOf(TotalWeight(samples), cell))
  {
    var f, p := ObjectiveAt(samples, box), PieceOf(TotalWeight(samples), cell);
    forall c | Within(p, c)
      ensures p.low <= f(c) && (f(c) <= p.low ==> c == p.mean)
    {
      ObjectiveOnInterval(samples, box, Interval(cell.left, cell.right), c);
      AboveLowest(TotalWeight(samples), cell.s, cell.q, c);
    }
  }

  lemma CellReachesVertex(samples: seq<Sample>, box: int, cell: Cell)
    requires ValidSamples(samples, box) && TotalWeight(samples) > 0 && CellInForce(samples, box, cell)
    ensures ReachesVertex(ObjectiveAt(samples, box), PieceOf(TotalWeight(samples), cell), box)
  {
    var w, f, p := TotalWeight(samples), ObjectiveAt(samples, box), PieceOf(TotalWeight(samples), cell);
    AboveLowest(w, cell.s, cell.q, p.mean);
    var turns, c := Fold(p.mean, box);
    ObjectiveBelowQuadratic(samples, box, cell.left, p.mean, turns, c);
    assert f(c) <= p.low;
    if 0.0 <= p.mean <= box as real {
      var k := if p.mean == box as real then 1 else 0;
      ObjectiveBelowQuadratic(samples, box, cell.left, p.mean, k, Canonical(p.mean, box));
    }
  }

  /** W*Q - S*S is never negative: some point of the circle is at most as high as the vertex. */
  lemma MinimumNonNegative(samples: seq<Sample>, box: int, cell: Cell)
    requires ValidSamples(samples, box) && TotalWeight(samples) > 0 && CellInForce(samples, box, cell)
    ensures ScaledMinimum(TotalWeight(samples), cell) >= 0
  {
    var w := TotalWeight(samples);
    CellReachesVertex(samples, box, cell);
    var c :| 0.0 <= c < box as real && ObjectiveAt(samples, box)(c) <= Lowest(w, cell.s, cell.q);
    ObjectiveNonNegative(samples, box, c);
    NumeratorNonNegative(ScaledMinimum(w, cell), w);
  }

  lemma NumeratorNonNegative(n: int, w: int)
    requires w > 0 && n as real / w as real >= 0.0
    ensures n >= 0
  {
    var x := n as real / w as real;
    WeightedNonNegative(w as real, x);
    assert w as real * x == n as real;
  }

  lemma Fold(m: real, box: int) returns (turns: int, c: real)
    requires box > 0
    ensures c == m - (turns * box) as real && 0.0 <= c < box as real
  {
    var q := m / box as real;
    turns := q.Floor;
    c := m - (turns * box) as real;
    FoldBounds(m, q, turns, box as real);
    assert (turns * box) as real == turns as real * box as real;
  }

  lemma FoldBounds(m: real, q: real, turns: int, box: real)
    requires box > 0.0 && q * box == m && turns as real <= q < turns as real + 1.0
    ensures turns as real * box <= m < turns as real * box + box
  {
    ScaleUp(q, turns as real, box);
    var gap := turns as real + 1.0 - q;
    PositiveProduct(gap, box);
    assert gap * box == turns as real * box + box - m;
  }

  // ---- the scan ----

  /** The cells tile [0, end] and each carries the sums in force on it. */
  ghost predicate Tiles(samples: seq<Sample>, box: int, cells: seq<Cell>, end: int) {
    && (if cells == [] then end == 0 else cells[0].left == 0 && cells[|cells| - 1].right == end)
    && (forall i :: 0 <= i < |cells| ==> CellInForce(samples, box, cells[i]) && cells[i].right <= end)
    && (forall i :: 0 <= i < |cells| - 1 ==> cells[i].right == cells[i + 1].left)
  }

  ghost function Pieces(w: int, cells: seq<Cell>): seq<Piece>
    requires w > 0
  {
    seq(|cells|, i requires 0 <= i < |cells| => PieceOf(w, cells[i]))
  }

  lemma TilesMakeEnvelope(samples: seq<Sample>, box: int, cells: seq<Cell>)
    requires ValidSamples(samples, box) && TotalWeight(samples) > 0 && Tiles(samples, box, cells, box)
    ensures Envelope(ObjectiveAt(samples, box), Pieces(TotalWeight(samples), cells), box)
  {
    var ps := Pieces(TotalWeight(samples), cells);
    forall i | 0 <= i < |ps|
      ensures AboveVertex(ObjectiveAt(samples, box), ps[i]) && ReachesVertex(ObjectiveAt(samples, box), ps[i], box)
    {
      CellAboveVertex(samples, box, cells[i]);
      CellReachesVertex(samples, box, cells[i]);
    }
  }

  /** A cell passes the integer candidate test exactly when its vertex lies in it. */
  lemma CandidateIsWithin(w: int, cell: Cell)
    requires w > 0
    ensures CellCandidate(w, cell) <==> Within(PieceOf(w, cell), Mean(w, cell.s))
  {
    MeanOrder(w, cell.s, cell.left);
    MeanOrder(w, cell.s, cell.right);
  }

  lemma CanonicalNumeratorIsCanonical(w: int, box: int, cell: Cell)
    requires w > 0
    ensures Canonical(Mean(w, cell.s), box) == Mean(w, CanonicalNumerator(w, box, cell))
  {
    MeanOrder(w, cell.s, box);
    MeanOrder(w, 0, 0);
  }

  /** The least candidate among the cells is what the scan's variables hold. */
  lemma LeastCellIsBest(w: int, box: int, cells: seq<Cell>, best: Best, k: int)
    requires w > 0 && Summarizes(w, box, cells, best)
    requires LeastCandidate(Pieces(w, cells), k)
    ensures best.have && Attains(w, cells[k], best)
  {
    CandidateIsWithin(w, cells[k]);
    var j :| 0 <= j < |cells| && Attains(w, cells[j], best);
    assert Pieces(w, cells)[k].low <= Pieces(w, cells)[j].low;
    LowestOrder(w, cells[k].s, cells[k].q, cells[j].s, cells[j].q);
  }

  lemma BestCellIsLeast(w: int, box: int, cells: seq<Cell>, best: Best, k: int, j: int)
    requires w > 0 && Summarizes(w, box, cells, best)
    requires LeastCandidate(Pieces(w, cells), k)
    requires 0 <= j < |cells| && Attains(w, cells[j], best)
    ensures LeastCandidate(Pieces(w, cells), j)
  {
    LeastCellIsBest(w, box, cells, best, k);
    CandidateIsWithin(w, cells[j]);
    LowestOrder(w, cells[k].s, cells[k].q, cells[j].s, cells[j].q);
  }

  ghost predicate IsCenter(samples: seq<Sample>, box: int, c: real) {
    Minimizes(ObjectiveAt(samples, box), box as real, c)
  }

  /** A cell attaining the recorded minimum yields a global minimizer. */
  lemma BestCellIsCenter(samples: seq<Sample>, box: int, cells: seq<Cell>, best: Best, k: int, j: int)
    requires ValidSamples(samples, box) && TotalWeight(samples) > 0
    requires Envelope(ObjectiveAt(samples, box), Pieces(TotalWeight(samples), cells), box)
    requires Summarizes(TotalWeight(samples), box, cells, best)
    requires LeastCandidate(Pieces(TotalWeight(samples), cells), k)
    requires 0 <= j < |cells| && Attains(TotalWeight(samples), cells[j], best)
    ensures IsCenter(samples, box, Mean(TotalWeight(samples), CanonicalNumerator(TotalWeight(samples), box, cells[j])))
  {
    var w := TotalWeight(samples);
    BestCellIsLeast(w, box, cells, best, k, j);
    CandidateMinimizes(ObjectiveAt(samples, box), Pieces(w, cells), box, j);
    CanonicalNumeratorIsCanonical(w, box, cells[j]);
  }

  /** Every global minimizer is the candidate of a cell attaining the recorded minimum. */
  lemma CenterIsBestCell(samples: seq<Sample>, box: int, cells: seq<Cell>, best: Best, c: real) returns (i: int)
    requires ValidSamples(samples, box) && TotalWeight(samples) > 0
    requires Envelope(ObjectiveAt(samples, box), Pieces(TotalWeight(samples), cells), box)
    requires Summarizes(TotalWeight(samples), box, cells, best)
    requires IsCenter(samples, box, c)
    ensures 0 <= i < |cells| && Attains(TotalWeight(samples), cells[i], best)
    ensures c == Mean(TotalWeight(samples), CanonicalNumerator(TotalWeight(samples), box, cells[i]))
  {
    var w := TotalWeight(samples);
    i := MinimizerIsCandidate(ObjectiveAt(samples, box), Pieces(w, cells), box, c);
    LeastCellIsBest(w, box, cells, best, i);
    CanonicalNumeratorIsCanonical(w, box, cells[i]);
  }

  ghost predicate TwoCenters(samples: seq<Sample>, box: int) {
    exists c, c' :: c != c' && IsCenter(samples, box, c) && IsCenter(samples, box, c')
  }

  lemma OnlyCenter(samples: seq<Sample>, box: int, c: real)
    requires IsCenter(samples, box, c) && forall c' :: IsCenter(samples, box, c') ==> c' == c
    ensures UniquelyMinimizes(ObjectiveAt(samples, box), box as real, c)
  {
    forall c' {:trigger Minimizes(ObjectiveAt(samples, box), box as real, c')}
      | Minimizes(ObjectiveAt(samples, box), box as real, c')
      ensures c' == c
    {
      assert IsCenter(samples, box, c');
    }
  }

  /** The scan over a full tiling finds a candidate, and what it holds describes the set of global minimizers. */
  lemma BestIsGlobal(samples: seq<Sample>, box: int, cells: seq<Cell>, best: Best)
    requires ValidSamples(samples, box) && TotalWeight(samples) > 0 && Tiles(samples, box, cells, box)
    requires Summarizes(TotalWeight(samples), box, cells, best)
    ensures best.have && IsCenter(samples, box, Mean(TotalWeight(samples), best.numerator))
    ensures best.nonUnique ==> TwoCenters(samples, box)
    ensures !best.nonUnique ==>
      UniquelyMinimizes(ObjectiveAt(samples, box), box as real, Mean(TotalWeight(samples), best.numerator))
  {
    var w := TotalWeight(samples);
    TilesMakeEnvelope(samples, box, cells);
    var k := CandidateExists(ObjectiveAt(samples, box), Pieces(w, cells), box);
    LeastCellIsBest(w, box, cells, best, k);
    var j :| 0 <= j < |cells| && Attains(w, cells[j], best) && CanonicalNumerator(w, box, cells[j]) == best.numerator;
    BestCellIsCenter(samples, box, cells, best, k, j);
    if best.nonUnique {
      var i :| 0 <= i < |cells| && Attains(w, cells[i], best) && CanonicalNumerator(w, box, cells[i]) != best.numerator;
      BestCellIsCenter(samples, box, cells, best, k, i);
      QuotientOrder(CanonicalNumerator(w, box, cells[i]), best.numerator, w);
    } else {
      forall c | IsCenter(samples, box, c)
        ensures c == Mean(w, best.numerator)
      {
        var i := CenterIsBestCell(samples, box, cells, best, c);
      }
      OnlyCenter(samples, box, Mean(w, best.numerator));
    }
  }

  /** Every sample's antipode is an event or lies at 0, so a gap between consecutive events is free of antipodes. */
  lemma GapIsFree(samples: seq<Sample>, box: int, events: seq<Event>, i: nat, left: int, right: int)
    requires ValidSamples(samples, box) && i <= |events| && 0 <= left <= right <= box
    requires multiset(events) == multiset(EventsOf(samples, box))
    requires forall e :: e in events[..i] ==> e.breakpoint <= left
    requires forall e :: e in events[i..] ==> e.breakpoint >= right
    ensures AntipodeFree(samples, box, Interval(left, right))
  {
    EventsAreBreakpoints(samples, box);
    assert events == events[..i] + events[i..];
    forall s | s in samples
      ensures !(left < Breakpoint(s.coordinate, box) < right)
    {
      if Breakpoint(s.coordinate, box) != 0 {
        var e := EventOf(s, box);
        assert e in multiset(EventsOf(samples, box));
        assert e in events;
        assert e in events[..i] || e in events[i..];
      }
    }
  }

  lemma EventRange(samples: seq<Sample>, box: int, events: seq<Event>)
    requires ValidSamples(samples, box)
    requires multiset(events) == multiset(EventsOf(samples, box))
    ensures forall e :: e in events ==> 0 < e.breakpoint < box
  {
    EventsAreBreakpoints(samples, box);
    forall e | e in events
      ensures 0 < e.breakpoint < box
    {
      assert e in multiset(events);
      assert e in EventsOf(samples, box);
    }
  }

  function BreakpointKey(): Event -> int {
    (e: Event) => e.breakpoint
  }

  /** What one more sample adds to the initial sums and to the events. */
  lemma SampleAdds(samples: seq<Sample>, n: nat, box: int, sample: Sample)
    requires n < |samples| && sample == samples[n]
    ensures TotalWeight(samples[..n + 1]) == TotalWeight(samples[..n]) + sample.weight
    ensures LinearSum(samples[..n + 1], box, 0)
      == LinearSum(samples[..n], box, 0) + sample.weight * InitialLift(sample.coordinate, box)
    ensures SquareSum(samples[..n + 1], box, 0) == SquareSum(samples[..n], box, 0)
      + sample.weight * InitialLift(sample.coordinate, box) * InitialLift(sample.coordinate, box)
    ensures EventsOf(samples[..n + 1], box) == EventsOf(samples[..n], box) + EventsOf([sample], box)
  {
    assert samples[..n + 1] == samples[..n] + [sample];
    SumIntAppend(WeightOf(), samples[..n], [sample]);
    SumIntAppend(LinearTerm(box, 0), samples[..n], [sample]);
    SumIntAppend(SquareTerm(box, 0), samples[..n], [sample]);
    EventsOfAppend(samples[..n], [sample], box);
  }

  method BuildEvents(samples: seq<Sample>, box: int) returns (w: int, s: int, q: int, events: seq<Event>)
    requires ValidSamples(samples, box)
    ensures w == TotalWeight(samples) && s == LinearSum(samples, box, 0) && q == SquareSum(samples, box, 0)
    ensures events == EventsOf(samples, box)
  {
    w, s, q, events := 0, 0, 0, [];
    var halfBox := box / 2;
    for n := 0 to |samples|
      invariant w == TotalWeight(samples[..n])
      invariant s == LinearSum(samples[..n], box, 0) && q == SquareSum(samples[..n], box, 0)
      invariant events == EventsOf(samples[..n], box)
    {
      var sample := samples[n];
      SampleAdds(samples, n, box, sample);
      var lift := sample.coordinate;
      if sample.coordinate > halfBox {
        lift := lift - box;
      }
      w := w + sample.weight;
      s := s + sample.weight * lift;
      q := q + sample.weight * lift * lift;
      var breakpoint := sample.coordinate + halfBox;
      if breakpoint >= box {
        breakpoint := breakpoint - box;
      }
      if breakpoint != 0 {
        events := events + [Event(breakpoint, sample.weight, lift)];
      }
    }
    assert samples[..|samples|] == samples;
  }

  /** What one more crossed event adds to the sums. */
  lemma EventAdds(events: seq<Event>, i: nat, next: nat, box: int, event: Event)
    requires i <= next < |events| && event == events[next]
    ensures events[i..next + 1] == events[i..next] + [event]
    ensures SumInt(AddedLinear(box), events[i..next + 1])
      == SumInt(AddedLinear(box), events[i..next]) + AddedLinear(box)(event)
    ensures SumInt(AddedSquare(box), events[i..next + 1])
      == SumInt(AddedSquare(box), events[i..next]) + AddedSquare(box)(event)
  {
    assert events[i..next + 1] == events[i..next] + [event];
    SumIntAppend(AddedLinear(box), events[i..next], [event]);
    SumIntAppend(AddedSquare(box), events[i..next], [event]);
  }

  /** Cross every event at one antipode. */
  method CrossAntipode(events: seq<Event>, box: int, i: nat, s: int, q: int) returns (next: nat, s': int, q': int)
    requires i < |events| && SortedBy(BreakpointKey(), events)
    ensures i < next <= |events|
    ensures forall e :: e in events[i..next] ==> e.breakpoint == events[i].breakpoint
    ensures forall e :: e in events[next..] ==> e.breakpoint > events[i].breakpoint
    ensures s' == s + SumInt(AddedLinear(box), events[i..next])
    ensures q' == q + SumInt(AddedSquare(box), events[i..next])
  {
    next, s', q' := i, s, q;
    while next < |events| && events[next].breakpoint == events[i].breakpoint
      invariant i <= next <= |events|
      invariant forall e :: e in events[i..next] ==> e.breakpoint == events[i].breakpoint
      invariant s' == s + SumInt(AddedLinear(box), events[i..next])
      invariant q' == q + SumInt(AddedSquare(box), events[i..next])
    {
      var event := events[next];
      EventAdds(events, i, next, box, event);
      s' := s' + event.weight * box;
      q' := q' + event.weight * box * (2 * event.initialLift + box);
      next := next + 1;
    }
    forall e | e in events[next..]
      ensures e.breakpoint > events[i].breakpoint
    {
      var k :| next <= k < |events| && events[k] == e;
      assert BreakpointKey()(events[i]) <= BreakpointKey()(events[next]) <= BreakpointKey()(events[k]);
    }
  }

  /** The sweep stands at left, having crossed exactly the events before i. */
  ghost predicate StandsAt(samples: seq<Sample>, box: int, events: seq<Event>, i: int, left: int, s: int, q: int) {
    && 0 <= i <= |events| && 0 <= left < box
    && (forall e :: e in events[..i] ==> e.breakpoint <= left)
    && (forall e :: e in events[i..] ==> e.breakpoint > left)
    && s == LinearSum(samples, box, left) && q == SquareSum(samples, box, left)
  }

  lemma CrossedPrefix(events: seq<Event>, i: int, next: int, left: int, right: int)
    requires 0 <= i <= next <= |events| && left <= right
    requires forall e :: e in events[..i] ==> e.breakpoint <= left
    requires forall e :: e in events[i..next] ==> e.breakpoint == right
    ensures forall e :: e in events[..next] ==> e.breakpoint <= right
    ensures events[..next] == events[..i] + events[i..next]
  {
    assert events[..next] == events[..i] + events[i..next];
  }

  /** Crossing one antipode takes the sweep from one stop to the next. */
  lemma NextStop(samples: seq<Sample>, box: int, events: seq<Event>, i: int, left: int, s: int, q: int, next: int,
                 s': int, q': int)
    requires ValidSamples(samples, box) && multiset(events) == multiset(EventsOf(samples, box))
    requires StandsAt(samples, box, events, i, left, s, q) && i < next <= |events|
    requires 0 < events[i].breakpoint < box
    requires forall e :: e in events[i..next] ==> e.breakpoint == events[i].breakpoint
    requires forall e :: e in events[next..] ==> e.breakpoint > events[i].breakpoint
    requires s' == s + SumInt(AddedLinear(box), events[i..next])
    requires q' == q + SumInt(AddedSquare(box), events[i..next])
    ensures StandsAt(samples, box, events, next, events[i].breakpoint, s', q')
  {
    var right := events[i].breakpoint;
    assert right > left by { assert events[i] in events[i..]; }
    SumsAtStop(samples, box, events, i, left);
    CrossedPrefix(events, i, next, left, right);
    SumsAtStop(samples, box, events, next, right);
    SumIntAppend(AddedLinear(box), events[..i], events[i..next]);
    SumIntAppend(AddedSquare(box), events[..i], events[i..next]);
  }

  lemma ExtendTiles(samples: seq<Sample>, box: int, cells: seq<Cell>, cell: Cell)
    requires Tiles(samples, box, cells, cell.left) && CellInForce(samples, box, cell)
    ensures Tiles(samples, box, cells + [cell], cell.right)
  {
    var all := cells + [cell];
    assert forall i :: 0 <= i < |cells| ==> all[i] == cells[i];
  }

  /** The whole scan: sweep the sorted antipodes, keep the least stationary candidate, report ties. */
  method Scan(samples: seq<Sample>, box: int) returns (outcome: ScanOutcome, w: int)
    requires ValidSamples(samples, box) && samples != []
    ensures w == TotalWeight(samples) > 0
    ensures outcome != NoCandidate && outcome != NegativeObjective
    ensures outcome.Center? ==> UniquelyMinimizes(ObjectiveAt(samples, box), box as real, Mean(w, outcome.numerator))
    ensures outcome.NonUniqueCenter? ==> TwoCenters(samples, box)
  {
    TotalWeightPositive(samples, box);
    var s, q, events;
    w, s, q, events := BuildEvents(samples, box);
    events := Sort(BreakpointKey(), events);
    EventRange(samples, box, events);
    ghost var cells: seq<Cell> := [];
    var best := Best(false, false, 0, 0);
    var left, i := 0, 0;
    while i < |events|
      invariant StandsAt(samples, box, events, i, left, s, q)
      invariant Tiles(samples, box, cells, left)
      invariant Summarizes(w, box, cells, best)
    {
      var cell := Cell(left, events[i].breakpoint, s, q);
      FirstIsLeast(events, i);
      assert events[i] in events[i..];
      GapIsFree(samples, box, events, i, left, cell.right);
      MinimumNonNegative(samples, box, cell);
      var ok, next := ConsiderInterval(w, box, cell, cells, best);
      if !ok {
        return NegativeObjective, w;
      }
      best := next;
      ExtendTiles(samples, box, cells, cell);
      cells := cells + [cell];
      var i', s', q' := CrossAntipode(events, box, i, s, q);
      NextStop(samples, box, events, i, left, s, q, i', s', q');
      left, i, s, q := cell.right, i', s', q';
    }
    var last := Cell(left, box, s, q);
    GapIsFree(samples, box, events, i, left, box);
    MinimumNonNegative(samples, box, last);
    var ok, final := ConsiderInterval(w, box, last, cells, best);
    if !ok {
      return NegativeObjective, w;
    }
    best := final;
    ExtendTiles(samples, box, cells, last);
    BestIsGlobal(samples, box, cells + [last], best);
    outcome := if !best.have then NoCandidate else if best.nonUnique then NonUniqueCenter else Center(best.numerator);
  }

  lemma FirstIsLeast(events: seq<Event>, i: int)
    requires 0 <= i < |events| && SortedBy(BreakpointKey(), events)
    ensures forall e :: e in events[i..] ==> e.breakpoint >= events[i].breakpoint
  {
    forall e | e in events[i..]
      ensures e.breakpoint >= events[i].breakpoint
    {
      var k :| i <= k < |events| && events[k] == e;
      assert BreakpointKey()(events[i]) <= BreakpointKey()(events[k]);
    }
  }
}
