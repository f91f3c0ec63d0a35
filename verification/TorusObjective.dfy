/** The weighted sum of squared torus distances and its quadratic form on an interval free of antipodes. */
module TorusObjective {
  import opened Collections
  import opened Quadratics

  /** A decoded coordinate and weight: both exact integer multiples of a common power of two. */
  datatype Sample = Sample(coordinate: int, weight: int)

  ghost predicate ValidSamples(samples: seq<Sample>, box: int) {
    && box > 0 && box % 2 == 0
    && forall s :: s in samples ==> 0 <= s.coordinate < box && s.weight > 0
  }

  /** Squared distance on the circle of circumference box between two points of [0, box). */
  ghost function TorusSquare(x: real, box: real, c: real): real {
    var t := if x <= c then c - x else x - c;
    if 2.0 * t <= box then t * t else (box - t) * (box - t)
  }

  ghost function TorusTerm(box: int, c: real): Sample -> real {
    (s: Sample) => s.weight as real * TorusSquare(s.coordinate as real, box as real, c)
  }

  ghost function Objective(samples: seq<Sample>, box: int, c: real): real {
    SumReal(TorusTerm(box, c), samples)
  }

  /** TorusSquare is the least squared distance over all periodic images of x ... */
  lemma TorusSquareIsLeast(x: int, box: int, c: real, k: int, image: int)
    requires 0 <= x < box && 0.0 <= c <= box as real && image == x + k * box
    ensures TorusSquare(x as real, box as real, c) <= (image as real - c) * (image as real - c)
  {
    var t := if x as real <= c then c - x as real else x as real - c;
    WholeTurns(k, box);
    SquareOrder(if 2.0 * t <= box as real then t else box as real - t, image as real - c);
  }

  /** ... and any image within half a box of c attains it. */
  lemma NearImageAttains(x: int, box: int, c: real, k: int, image: int)
    requires 0 <= x < box && 0.0 <= c <= box as real && image == x + k * box
    requires -(box as real) <= 2.0 * (image as real - c) <= box as real
    ensures TorusSquare(x as real, box as real, c) == (image as real - c) * (image as real - c)
  {
    var t := if x as real <= c then c - x as real else x as real - c;
    WholeTurns(k, box);
    SquareEqual(if 2.0 * t <= box as real then t else box as real - t, image as real - c);
  }

  lemma WholeTurns(k: int, box: int)
    requires box > 0
    ensures k >= 1 ==> k * box >= box
    ensures k <= -1 ==> k * box <= -box
    ensures k >= 2 ==> k * box >= 2 * box
    ensures k <= -2 ==> k * box <= -2 * box
  {
  }

  lemma ScaleUp(a: real, b: real, k: real)
    requires a >= b && k >= 0.0
    ensures a * k >= b * k
  {
  }

  lemma SquareEqual(t: real, y: real)
    requires t == y || t == -y
    ensures t * t == y * y
  {
  }

  lemma SquareOrder(t: real, y: real)
    requires t >= 0.0 && (t <= y || t <= -y)
    ensures t * t <= y * y
  {
    if t <= y {
      SquareIncreases(t, y);
    } else {
      SquareIncreases(t, -y);
      SquareEqual(-y, y);
    }
  }

  lemma SquareIncreases(t: real, y: real)
    requires 0.0 <= t <= y
    ensures t * t <= y * y
  {
    ScaleUp(y, t, t);
    ScaleUp(y, t, y);
  }

  // ---- antipodes and lifts ----

  function InitialLift(x: int, box: int): int {
    if x > box / 2 then x - box else x
  }

  function Breakpoint(x: int, box: int): int {
    var b := x + box / 2;
    if b >= box then b - box else b
  }

  /** The image of x the sweep uses once every antipode up to and including left was crossed. */
  function LiftAt(x: int, box: int, left: int): int {
    InitialLift(x, box) + if 0 < Breakpoint(x, box) <= left then box else 0
  }

  function WeightOf(): Sample -> int {
    (s: Sample) => s.weight
  }

  function LinearTerm(box: int, left: int): Sample -> int {
    (s: Sample) => s.weight * LiftAt(s.coordinate, box, left)
  }

  function SquareTerm(box: int, left: int): Sample -> int {
    (s: Sample) => s.weight * LiftAt(s.coordinate, box, left) * LiftAt(s.coordinate, box, left)
  }

  ghost function TotalWeight(samples: seq<Sample>): int {
    SumInt(WeightOf(), samples)
  }

  ghost function LinearSum(samples: seq<Sample>, box: int, left: int): int {
    SumInt(LinearTerm(box, left), samples)
  }

  ghost function SquareSum(samples: seq<Sample>, box: int, left: int): int {
    SumInt(SquareTerm(box, left), samples)
  }

  datatype Interval = Interval(left: int, right: int)

  ghost predicate AntipodeFree(samples: seq<Sample>, box: int, iv: Interval) {
    && 0 <= iv.left <= iv.right <= box
    && forall s :: s in samples ==> !(iv.left < Breakpoint(s.coordinate, box) < iv.right)
  }

  /** Between two antipodes the lift is the nearest image. */
  lemma LiftIsNearest(x: int, box: int, iv: Interval, c: real)
    requires box > 0 && box % 2 == 0 && 0 <= x < box
    requires 0 <= iv.left <= iv.right <= box && !(iv.left < Breakpoint(x, box) < iv.right)
    requires iv.left as real <= c <= iv.right as real
    ensures TorusSquare(x as real, box as real, c)
         == (LiftAt(x, box, iv.left) as real - c) * (LiftAt(x, box, iv.left) as real - c)
  {
    var lift := LiftAt(x, box, iv.left);
    var k := if lift == x then 0 else if lift == x + box then 1 else -1;
    assert lift == x + k * box;
    NearImageAttains(x, box, c, k, lift);
  }

  lemma SquareTermEqual(w: int, l: int, t: real, c: real)
    requires t == (l as real - c) * (l as real - c)
    ensures w as real * t == Quadratic(w, w * l, w * l * l, c)
  {
    ExpandSquare(w, l, c);
  }

  lemma TermsOf(s: Sample, box: int, left: int, c: real, t: real, l: int, m: real)
    requires t == TorusSquare(s.coordinate as real, box as real, c) && l == LiftAt(s.coordinate, box, left)
    ensures TorusTerm(box, c)(s) == s.weight as real * t
    ensures Quadratic(WeightOf()(s), LinearTerm(box, left)(s), SquareTerm(box, left)(s), m)
         == Quadratic(s.weight, s.weight * l, s.weight * l * l, m)
  {
  }

  /** One sample's share of the objective, when its lift is the nearest image of c. */
  lemma NearestTerm(s: Sample, box: int, iv: Interval, c: real)
    requires box > 0 && box % 2 == 0 && 0 <= s.coordinate < box
    requires 0 <= iv.left <= iv.right <= box && !(iv.left < Breakpoint(s.coordinate, box) < iv.right)
    requires iv.left as real <= c <= iv.right as real
    ensures TorusTerm(box, c)(s)
         == Quadratic(WeightOf()(s), LinearTerm(box, iv.left)(s), SquareTerm(box, iv.left)(s), c)
  {
    LiftIsNearest(s.coordinate, box, iv, c);
    var t, l := TorusSquare(s.coordinate as real, box as real, c), LiftAt(s.coordinate, box, iv.left);
    SquareTermEqual(s.weight, l, t, c);
    LiftedTerm(s, box, iv.left, c, t, l);
  }

  lemma LiftedTerm(s: Sample, box: int, left: int, c: real, t: real, l: int)
    requires t == TorusSquare(s.coordinate as real, box as real, c) && l == LiftAt(s.coordinate, box, left)
    requires s.weight as real * t == Quadratic(s.weight, s.weight * l, s.weight * l * l, c)
    ensures TorusTerm(box, c)(s) == Quadratic(WeightOf()(s), LinearTerm(box, left)(s), SquareTerm(box, left)(s), c)
  {
    TermsOf(s, box, left, c, t, l, c);
  }

  /** On an interval free of antipodes the objective is one quadratic. */
  lemma ObjectiveOnInterval(samples: seq<Sample>, box: int, iv: Interval, c: real)
    requires ValidSamples(samples, box) && AntipodeFree(samples, box, iv)
    requires iv.left as real <= c <= iv.right as real
    ensures Objective(samples, box, c)
         == Quadratic(TotalWeight(samples), LinearSum(samples, box, iv.left), SquareSum(samples, box, iv.left), c)
  {
    var f, w, l, q := TorusTerm(box, c), WeightOf(), LinearTerm(box, iv.left), SquareTerm(box, iv.left);
    assert forall s :: s in samples ==> f(s) == Quadratic(w(s), l(s), q(s), c) by {
      forall s | s in samples
        ensures f(s) == Quadratic(w(s), l(s), q(s), c)
      {
        NearestTerm(s, box, iv, c);
      }
    }
    QuadraticSum(f, w, l, q, c, samples);
  }

  lemma FoldedImageBound(x: int, box: int, l: int, k: int, m: real, turns: int, c: real)
    requires 0 <= x < box && l == x + k * box
    requires c == m - (turns * box) as real && 0.0 <= c <= box as real
    ensures TorusSquare(x as real, box as real, c) <= (l as real - m) * (l as real - m)
  {
    var image := l - turns * box;
    assert image == x + (k - turns) * box;
    TorusSquareIsLeast(x, box, c, k - turns, image);
    SquareEqual(image as real - c, l as real - m);
  }

  lemma LiftBound(x: int, box: int, l: int, m: real, turns: int, c: real)
    requires 0 <= x < box && (l == x || l == x + box || l == x - box)
    requires c == m - (turns * box) as real && 0.0 <= c <= box as real
    ensures TorusSquare(x as real, box as real, c) <= (l as real - m) * (l as real - m)
  {
    var k := if l == x then 0 else if l == x + box then 1 else -1;
    FoldedImageBound(x, box, l, k, m, turns, c);
  }

  lemma WeightedBound(w: real, t: real, y: real)
    requires w >= 0.0 && t <= y * y
    ensures w * t <= w * (y * y)
  {
  }

  lemma SquareTermBound(w: int, l: int, t: real, m: real)
    requires w > 0 && t <= (l as real - m) * (l as real - m)
    ensures w as real * t <= Quadratic(w, w * l, w * l * l, m)
  {
    WeightedBound(w as real, t, l as real - m);
    ExpandSquare(w, l, m);
  }

  /** One sample's share is at most its share of the quadratic of any lift x + k*box. */
  lemma AnyTerm(s: Sample, box: int, left: int, m: real, turns: int, c: real)
    requires box > 0 && 0 <= s.coordinate < box && s.weight > 0
    requires c == m - (turns * box) as real && 0.0 <= c <= box as real
    ensures TorusTerm(box, c)(s) <= Quadratic(WeightOf()(s), LinearTerm(box, left)(s), SquareTerm(box, left)(s), m)
  {
    var t, l := TorusSquare(s.coordinate as real, box as real, c), LiftAt(s.coordinate, box, left);
    TermsOf(s, box, left, c, t, l, m);
    LiftBound(s.coordinate, box, l, m, turns, c);
    SquareTermBound(s.weight, l, t, m);
  }

  /** Folding a point of the line back into [0, box] never exceeds any lift configuration's quadratic. */
  lemma ObjectiveBelowQuadratic(samples: seq<Sample>, box: int, left: int, m: real, turns: int, c: real)
    requires ValidSamples(samples, box)
    requires c == m - (turns * box) as real && 0.0 <= c <= box as real
    ensures Objective(samples, box, c)
         <= Quadratic(TotalWeight(samples), LinearSum(samples, box, left), SquareSum(samples, box, left), m)
  {
    var f, w, l, q := TorusTerm(box, c), WeightOf(), LinearTerm(box, left), SquareTerm(box, left);
    assert forall s :: s in samples ==> f(s) <= Quadratic(w(s), l(s), q(s), m) by {
      forall s | s in samples
        ensures f(s) <= Quadratic(w(s), l(s), q(s), m)
      {
        AnyTerm(s, box, left, m, turns, c);
      }
    }
    QuadraticBound(f, w, l, q, m, samples);
  }

  lemma TermNonNegative(s: Sample, box: int, c: real)
    requires s.weight > 0
    ensures TorusTerm(box, c)(s) >= 0.0
  {
    WeightedNonNegative(s.weight as real, TorusSquare(s.coordinate as real, box as real, c));
  }

  lemma WeightedNonNegative(w: real, t: real)
    requires w > 0.0 && t >= 0.0
    ensures w * t >= 0.0
  {
  }

  lemma {:induction false} ObjectiveNonNegative(samples: seq<Sample>, box: int, c: real)
    requires ValidSamples(samples, box)
    ensures Objective(samples, box, c) >= 0.0
  {
    if samples != [] {
      assert samples[0] in samples;
      TermNonNegative(samples[0], box, c);
      ObjectiveNonNegative(samples[1..], box, c);
    }
  }

  lemma {:induction false} TotalWeightPositive(samples: seq<Sample>, box: int)
    requires ValidSamples(samples, box)
    ensures TotalWeight(samples) >= 0 && (samples != [] ==> TotalWeight(samples) > 0)
  {
    if samples != [] {
      assert samples[0] in samples;
      TotalWeightPositive(samples[1..], box);
    }
  }
}
