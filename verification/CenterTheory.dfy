/** A function on a circle that is, piece by piece, a parabola: its global minimum is a stationary point. */
module CenterTheory {

  /** On [left, right] the function is a parabola with vertex (mean, low), opening upward. */
  datatype Piece = Piece(left: int, right: int, mean: real, low: real)

  ghost predicate Covers(ps: seq<Piece>, end: int) {
    && (if ps == [] then end == 0 else ps[0].left == 0 && ps[|ps| - 1].right == end)
    && (forall i :: 0 <= i < |ps| ==> 0 <= ps[i].left <= ps[i].right <= end)
    && (forall i :: 0 <= i < |ps| - 1 ==> ps[i].right == ps[i + 1].left)
  }

  ghost predicate Within(p: Piece, c: real) {
    p.left as real <= c <= p.right as real
  }

  /** f lies above the vertex of a parabola whose interval holds c, and meets that height only at the vertex. */
  ghost predicate AboveVertex(f: real -> real, p: Piece) {
    forall c :: Within(p, c) ==> p.low <= f(c) && (f(c) <= p.low ==> c == p.mean)
  }

  /** Somewhere on the circle f is as low as the vertex; if the vertex is on the circle, it is there. */
  ghost predicate ReachesVertex(f: real -> real, p: Piece, box: int) {
    && (exists c :: 0.0 <= c < box as real && f(c) <= p.low)
    && (0.0 <= p.mean <= box as real ==> f(Canonical(p.mean, box)) <= p.low)
  }

  /** 0 and box are one point of the circle. */
  ghost function Canonical(c: real, box: int): real {
    if c == box as real then 0.0 else c
  }

  ghost predicate Envelope(f: real -> real, ps: seq<Piece>, box: int) {
    && box > 0 && Covers(ps, box)
    && forall i :: 0 <= i < |ps| ==> AboveVertex(f, ps[i]) && ReachesVertex(f, ps[i], box)
  }

  /** c is a global minimizer of f on [0, end). */
  ghost predicate Minimizes(f: real -> real, end: real, c: real) {
    && 0.0 <= c < end
    && forall c' :: 0.0 <= c' < end ==> f(c) <= f(c')
  }

  /** A piece whose vertex lies in its closed interval, and none lower among all pieces. */
  ghost predicate LeastCandidate(ps: seq<Piece>, k: int) {
    && 0 <= k < |ps| && Within(ps[k], ps[k].mean)
    && forall i :: 0 <= i < |ps| ==> ps[k].low <= ps[i].low
  }

  lemma PieceAt(ps: seq<Piece>, end: int, c: real) returns (i: nat)
    requires Covers(ps, end) && 0.0 <= c < end as real
    ensures i < |ps| && Within(ps[i], c)
  {
    i := 0;
    while c > ps[i].right as real
      invariant 0 <= i < |ps| && ps[i].left as real <= c
      decreases |ps| - i
    {
      assert i != |ps| - 1;
      i := i + 1;
    }
  }

  lemma LowestPiece(ps: seq<Piece>) returns (k: nat)
    requires ps != []
    ensures k < |ps| && forall i :: 0 <= i < |ps| ==> ps[k].low <= ps[i].low
  {
    k := 0;
    for n := 1 to |ps|
      invariant k < |ps| && forall i :: 0 <= i < n ==> ps[k].low <= ps[i].low
    {
      if ps[n].low < ps[k].low {
        k := n;
      }
    }
  }

  /** Some vertex lies in its own interval and is the lowest of all: a scan of the vertices always finds it. */
  lemma CandidateExists(f: real -> real, ps: seq<Piece>, box: int) returns (k: nat)
    requires Envelope(f, ps, box)
    ensures LeastCandidate(ps, k)
  {
    var j := LowestPiece(ps);
    var c :| 0.0 <= c < box as real && f(c) <= ps[j].low;
    k := PieceAt(ps, box, c);
    assert AboveVertex(f, ps[k]);
  }

  lemma CandidateMinimizes(f: real -> real, ps: seq<Piece>, box: int, k: int)
    requires Envelope(f, ps, box) && LeastCandidate(ps, k)
    ensures Minimizes(f, box as real, Canonical(ps[k].mean, box))
  {
    var c := Canonical(ps[k].mean, box);
    assert f(c) <= ps[k].low by { assert ReachesVertex(f, ps[k], box); }
    forall c' | 0.0 <= c' < box as real
      ensures f(c) <= f(c')
    {
      var i := PieceAt(ps, box, c');
      assert AboveVertex(f, ps[i]);
    }
  }

  /** Every minimizer is the vertex of the piece it lies in; a corner between two pieces is never minimal. */
  lemma MinimizerIsCandidate(f: real -> real, ps: seq<Piece>, box: int, c: real) returns (i: nat)
    requires Envelope(f, ps, box) && Minimizes(f, box as real, c)
    ensures LeastCandidate(ps, i) && ps[i].mean == c
  {
    i := PieceAt(ps, box, c);
    assert AboveVertex(f, ps[i]);
    forall j | 0 <= j < |ps|
      ensures f(c) <= ps[j].low
    {
      assert ReachesVertex(f, ps[j], box);
    }
  }

  ghost predicate UniquelyMinimizes(f: real -> real, end: real, c: real) {
    Minimizes(f, end, c) && forall c' :: Minimizes(f, end, c') ==> c' == c
  }

  /** A change of unit: up and down are inverse, keep the circle, and keep the order of the values. */
  ghost predicate Rescales(f: real -> real, scaled: real, g: real -> real, end: real, up: real -> real,
                           down: real -> real)
  {
    && (forall c :: down(up(c)) == c)
    && (forall e :: up(down(e)) == e)
    && (forall c :: 0.0 <= c < end <==> 0.0 <= up(c) < scaled)
    && (forall c, c' :: f(up(c)) <= f(up(c')) <==> g(c) <= g(c'))
  }

  lemma MinimizersScale(f: real -> real, scaled: real, g: real -> real, end: real, up: real -> real, down: real -> real,
                        c: real)
    requires Rescales(f, scaled, g, end, up, down)
    ensures Minimizes(g, end, c) <==> Minimizes(f, scaled, up(c))
  {
    if Minimizes(g, end, c) {
      forall e | 0.0 <= e < scaled
        ensures f(up(c)) <= f(e)
      {
        var d := down(e);
        assert up(d) == e && g(c) <= g(d);
      }
    }
    if Minimizes(f, scaled, up(c)) {
      forall d | 0.0 <= d < end
        ensures g(c) <= g(d)
      {
        assert f(up(c)) <= f(up(d));
      }
    }
  }

  lemma UniqueMinimizerScales(f: real -> real, scaled: real, g: real -> real, end: real, up: real -> real,
                              down: real -> real, c: real)
    requires Rescales(f, scaled, g, end, up, down)
    requires UniquelyMinimizes(g, end, c)
    ensures UniquelyMinimizes(f, scaled, up(c))
  {
    MinimizersScale(f, scaled, g, end, up, down, c);
    forall e | Minimizes(f, scaled, e)
      ensures e == up(c)
    {
      MinimizersScale(f, scaled, g, end, up, down, down(e));
    }
  }

  lemma TwoMinimizersScale(f: real -> real, scaled: real, g: real -> real, end: real, up: real -> real,
                           down: real -> real, c: real, c': real)
    requires Rescales(f, scaled, g, end, up, down)
    requires c != c' && Minimizes(g, end, c) && Minimizes(g, end, c')
    ensures !exists e :: UniquelyMinimizes(f, scaled, e)
  {
    MinimizersScale(f, scaled, g, end, up, down, c);
    MinimizersScale(f, scaled, g, end, up, down, c');
    assert down(up(c)) != down(up(c'));
  }
}
