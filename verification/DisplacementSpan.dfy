/** Exact collinearity and coplanarity of displacements, and the linear rank built on them. */
module DisplacementSpan {
  import opened Powers
  import opened Limbs
  import opened Binary64
  import opened ExactDyadic
  import opened LinearRank

  datatype Displacement = Displacement(x: Double, y: Double, z: Double)
  {
    predicate IsFinite() {
      x.IsFinite() && y.IsFinite() && z.IsFinite()
    }

    /** Comparison with 0.0 holds for both signed zeros. */
    predicate IsZero() {
      x.bits == 0 && y.bits == 0 && z.bits == 0
    }
  }

  /** The displacement as an exact integer vector in units of 2^-1074. */
  ghost function IntVec(d: Displacement): Vec {
    Vec(SignedUnits(d.x), SignedUnits(d.y), SignedUnits(d.z))
  }

  /** Undecided stands for the error on a value that is not finite. */
  datatype Verdict = Decided(holds: bool) | Undecided

  // ---- no accumulator overflow in the fixed expressions ----

  /** No single product exceeds the limit, and the limbs hold six of them in one bucket. */
  ghost predicate Capacity(limit: nat) {
    && 6 * limit < Weight(LIMB_COUNT)
    && (forall a: Double, b: Double :: a.IsFinite() && b.IsFinite() ==> PairAmount(a, b) <= limit)
    && (forall a: Double, b: Double, c: Double :: a.IsFinite() && b.IsFinite() && c.IsFinite() ==>
      TripleAmount(a, b, c) <= limit)
  }

  lemma UnitsUnder(bits: nat, e: nat)
    requires bits < INFINITY && e == MAGNITUDE_BITS
    ensures Units(bits) < Pow2(e)
  {
    UnitsBelow(bits);
  }

  lemma ProductUnder(u: nat, v: nat, e: nat, f: nat)
    requires u < Pow2(e) && v < Pow2(f)
    ensures u * v < Pow2(e + f)
  {
    Pow2Add(e, f);
    ProductBelow(u, v, Pow2(e), Pow2(f));
  }

  lemma ProductBelow(u: nat, v: nat, a: nat, b: nat)
    requires u < a && v < b
    ensures u * v < a * b
  {
    if v == 0 {
      MulStrict(0, a, b);
    } else {
      MulStrict(u, a, v);
      MulMonotone(v, b, a);
      Commute(v, a);
      Commute(b, a);
    }
  }

  lemma PairUnder(a: Double, b: Double, e: nat)
    requires a.IsFinite() && b.IsFinite() && e == MAGNITUDE_BITS
    ensures PairAmount(a, b) < Pow2(3 * e)
  {
    UnitsUnder(a.bits, e);
    UnitsUnder(b.bits, e);
    ProductUnder(Units(a.bits), Units(b.bits), e, e);
    ShiftUnder(Units(a.bits) * Units(b.bits), e + e, PAIR_SHIFT, e);
  }

  lemma ShiftUnder(product: nat, e: nat, shift: nat, f: nat)
    requires product < Pow2(e) && shift <= f
    ensures ShiftLeft(product, shift) < Pow2(e + f)
  {
    ShiftLeftIsProduct(product, shift);
    MulStrict(product, Pow2(e), Pow2(shift));
    Pow2Add(e, shift);
    Pow2Monotone(e + shift, e + f);
  }

  lemma TripleUnder(a: Double, b: Double, c: Double, e: nat)
    requires a.IsFinite() && b.IsFinite() && c.IsFinite() && e == MAGNITUDE_BITS
    ensures TripleAmount(a, b, c) < Pow2(3 * e)
  {
    UnitsUnder(a.bits, e);
    UnitsUnder(b.bits, e);
    UnitsUnder(c.bits, e);
    ThreeUnder(Units(a.bits), Units(b.bits), Units(c.bits), e);
  }

  lemma ThreeUnder(u: nat, v: nat, w: nat, e: nat)
    requires u < Pow2(e) && v < Pow2(e) && w < Pow2(e)
    ensures u * v * w < Pow2(3 * e)
  {
    ProductUnder(u, v, e, e);
    ProductUnder(u * v, w, e + e, e);
  }

  lemma SixFit(e: nat, limbs: nat)
    requires e + 3 < 64 * limbs
    ensures 6 * Pow2(e) < Weight(limbs)
  {
    WeightIsPower(limbs);
    Pow2StrictlyMonotone(e + 2, 64 * limbs);
    assert Pow2(e + 2) == 2 * Pow2(e + 1) == 4 * Pow2(e);
  }

  /** The limbs suffice for every expression of at most six products. */
  lemma LimbsSuffice() returns (limit: nat)
    ensures Capacity(limit)
  {
    var e: nat := MAGNITUDE_BITS;
    limit := Pow2(3 * e);
    SixFit(3 * e, LIMB_COUNT);
    forall a: Double, b: Double | a.IsFinite() && b.IsFinite()
      ensures PairAmount(a, b) <= limit
    {
      PairUnder(a, b, e);
    }
    forall a: Double, b: Double, c: Double | a.IsFinite() && b.IsFinite() && c.IsFinite()
      ensures TripleAmount(a, b, c) <= limit
    {
      TripleUnder(a, b, c, e);
    }
  }

  // ---- signed products ----

  ghost function PairCredit(a: Double, b: Double, negate: bool): int {
    Credit(negate != (a.negative != b.negative), PairAmount(a, b))
  }

  ghost function TripleCredit(a: Double, b: Double, c: Double, negate: bool): int {
    Credit(negate != (a.negative != (b.negative != c.negative)), TripleAmount(a, b, c))
  }

  lemma SignsOfPair(a: int, b: int)
    ensures -a * b == -(a * b) && a * -b == -(a * b) && -a * -b == a * b
  {
  }

  lemma PairIsProduct(a: Double, b: Double, negate: bool)
    ensures PairCredit(a, b, negate) == Credit(negate, SignedUnitsScale()) * (SignedUnits(a) * SignedUnits(b))
  {
    var u: int, v: int := Units(a.bits), Units(b.bits);
    ShiftLeftIsProduct(u * v, PAIR_SHIFT);
    SignsOfPair(u, v);
    SignsOfPair(u * v, Pow2(PAIR_SHIFT));
    SignsOfPair(Pow2(PAIR_SHIFT), u * v);
    Commute(u * v, Pow2(PAIR_SHIFT));
  }

  /** One unit of a pair product, in units of the accumulator. */
  ghost function SignedUnitsScale(): nat {
    Pow2(PAIR_SHIFT)
  }

  lemma TripleIsProduct(a: Double, b: Double, c: Double, negate: bool)
    ensures TripleCredit(a, b, c, negate) == if negate then -(SignedUnits(a) * SignedUnits(b) * SignedUnits(c))
                                             else SignedUnits(a) * SignedUnits(b) * SignedUnits(c)
  {
    var u: int, v: int, w: int := Units(a.bits), Units(b.bits), Units(c.bits);
    SignsOfPair(u, v);
    SignsOfPair(u * v, w);
  }

  // ---- bounded additions ----

  /** What the two buckets hold together. */
  ghost function Load(sum: ExactDyadicPredicateSum): nat
    reads sum, sum.positive, sum.negative
  {
    Value(sum.positive[..]) + Value(sum.negative[..])
  }

  method AddBoundedPair(sum: ExactDyadicPredicateSum, a: Double, b: Double, negate: bool, ghost load: nat,
                        ghost limit: nat)
    returns (outcome: AddOutcome)
    requires sum.Valid() && Capacity(limit) && Load(sum) <= load && load + limit < Weight(LIMB_COUNT)
    modifies sum.positive, sum.negative
    ensures outcome.Added? || outcome.NotFinite?
    ensures outcome.Added? <==> a.IsFinite() && b.IsFinite()
    ensures outcome.Added? ==> Load(sum) <= load + limit && sum.Signed() == old(sum.Signed()) + PairCredit(a, b, negate)
  {
    outcome := sum.AddProduct(a, b, negate);
  }

  method AddBoundedTriple(sum: ExactDyadicPredicateSum, a: Double, b: Double, c: Double, negate: bool, ghost load: nat,
                          ghost limit: nat)
    returns (outcome: AddOutcome)
    requires sum.Valid() && Capacity(limit) && Load(sum) <= load && load + limit < Weight(LIMB_COUNT)
    modifies sum.positive, sum.negative
    ensures outcome.Added? || outcome.NotFinite?
    ensures outcome.Added? <==> a.IsFinite() && b.IsFinite() && c.IsFinite()
    ensures outcome.Added? ==>
      Load(sum) <= load + limit && sum.Signed() == old(sum.Signed()) + TripleCredit(a, b, c, negate)
  {
    outcome := sum.AddTripleProduct(a, b, c, negate);
  }

  // ---- collinearity ----

  /** One component of a cross product: lhsA * lhsB - rhsA * rhsB. */
  datatype Component = Component(lhsA: Double, lhsB: Double, rhsA: Double, rhsB: Double)
  {
    predicate IsFinite() {
      lhsA.IsFinite() && lhsB.IsFinite() && rhsA.IsFinite() && rhsB.IsFinite()
    }

    ghost function Amount(): int {
      SignedUnits(lhsA) * SignedUnits(lhsB) - SignedUnits(rhsA) * SignedUnits(rhsB)
    }

    ghost function Verdict(): Verdict {
      if IsFinite() then Decided(Amount() == 0) else Undecided
    }
  }

  lemma ScaledDifference(scale: int, u: int, v: int)
    requires scale > 0
    ensures scale * u + -scale * v == 0 <==> u - v == 0
  {
    assert scale * u + -scale * v == scale * (u - v);
  }

  method ComponentVanishes(c: Component) returns (verdict: Verdict)
    ensures verdict == c.Verdict()
  {
    ghost var limit := LimbsSuffice();
    var sum := new ExactDyadicPredicateSum();
    var outcome := AddBoundedPair(sum, c.lhsA, c.lhsB, false, 0, limit);
    if !outcome.Added? {
      return Undecided;
    }
    outcome := AddBoundedPair(sum, c.rhsA, c.rhsB, true, limit, limit);
    if !outcome.Added? {
      return Undecided;
    }
    PairIsProduct(c.lhsA, c.lhsB, false);
    PairIsProduct(c.rhsA, c.rhsB, true);
    ScaledDifference(SignedUnitsScale(), SignedUnits(c.lhsA) * SignedUnits(c.lhsB),
      SignedUnits(c.rhsA) * SignedUnits(c.rhsB));
    var zero := sum.IsZero();
    verdict := Decided(zero);
  }

  function CrossComponents(first: Displacement, second: Displacement): seq<Component> {
    [Component(first.y, second.z, first.z, second.y),
     Component(first.z, second.x, first.x, second.z),
     Component(first.x, second.y, first.y, second.x)]
  }

  ghost function Verdicts(components: seq<Component>): (r: seq<Verdict>)
    ensures |r| == |components|
  {
    seq(|components|, i requires 0 <= i < |components| => components[i].Verdict())
  }

  /** The first component that is not finite or not zero decides. */
  ghost function Ruling(verdicts: seq<Verdict>): Verdict {
    if verdicts == [] then Decided(true)
    else if verdicts[0] != Decided(true) then verdicts[0]
    else Ruling(verdicts[1..])
  }

  method ExactlyCollinear(first: Displacement, second: Displacement) returns (verdict: Verdict)
    ensures verdict == Ruling(Verdicts(CrossComponents(first, second)))
    ensures first.IsFinite() && second.IsFinite() ==> verdict == Decided(Cross(IntVec(first), IntVec(second)) == ZERO)
    ensures !(first.IsFinite() && second.IsFinite()) ==> verdict != Decided(true)
  {
    var components := CrossComponents(first, second);
    RulingOfCross(first, second);
    verdict := FirstNonzero(components);
  }

  method FirstNonzero(components: seq<Component>) returns (verdict: Verdict)
    ensures verdict == Ruling(Verdicts(components))
  {
    ghost var verdicts := Verdicts(components);
    for i := 0 to |components|
      invariant Ruling(verdicts) == Ruling(verdicts[i..])
    {
      assert verdicts[i..][1..] == verdicts[i + 1..];
      verdict := ComponentVanishes(components[i]);
      if verdict != Decided(true) {
        return;
      }
    }
    verdict := Decided(true);
  }

  lemma RulingOfThree(v: seq<Verdict>)
    requires |v| == 3
    ensures v[0].Decided? && v[1].Decided? && v[2].Decided? ==>
      Ruling(v) == Decided(v[0].holds && v[1].holds && v[2].holds)
    ensures Ruling(v) == Decided(true) ==> v[0].Decided? && v[1].Decided? && v[2].Decided?
  {
    var t := v[1..];
    var u := t[1..];
    assert t[0] == v[1] && u[0] == v[2] && u[1..] == [];
    assert Ruling(u[1..]) == Decided(true);
    assert Ruling(u) == if v[2] != Decided(true) then v[2] else Decided(true);
    assert Ruling(t) == if v[1] != Decided(true) then v[1] else Ruling(u);
  }

  lemma RulingOfCross(first: Displacement, second: Displacement)
    ensures first.IsFinite() && second.IsFinite() ==>
      Ruling(Verdicts(CrossComponents(first, second))) == Decided(Cross(IntVec(first), IntVec(second)) == ZERO)
    ensures Ruling(Verdicts(CrossComponents(first, second))) == Decided(true) ==> first.IsFinite() && second.IsFinite()
  {
    RulingOfThree(Verdicts(CrossComponents(first, second)));
  }

  // ---- coplanarity ----

  datatype Term = Term(a: Double, b: Double, c: Double, negate: bool)
  {
    predicate IsFinite() {
      a.IsFinite() && b.IsFinite() && c.IsFinite()
    }

    ghost function Amount(): int {
      TripleCredit(a, b, c, negate)
    }
  }

  function DeterminantTerms(first: Displacement, second: Displacement, third: Displacement): seq<Term> {
    [Term(first.x, second.y, third.z, false),
     Term(first.y, second.z, third.x, false),
     Term(first.z, second.x, third.y, false),
     Term(first.z, second.y, third.x, true),
     Term(first.y, second.x, third.z, true),
     Term(first.x, second.z, third.y, true)]
  }

  ghost function Total(terms: seq<Term>): int {
    if terms == [] then 0 else Total(terms[..|terms| - 1]) + terms[|terms| - 1].Amount()
  }

  ghost predicate AllFiniteTerms(terms: seq<Term>) {
    forall t :: t in terms ==> t.IsFinite()
  }

  lemma LoadStep(i: nat, limit: nat)
    ensures (i + 1) * limit == i * limit + limit
  {
  }

  lemma LoadRoom(i: nat, limit: nat)
    requires i < 6 && 6 * limit < Weight(LIMB_COUNT)
    ensures i * limit + limit < Weight(LIMB_COUNT)
  {
    MulMonotone(i + 1, 6, limit);
  }

  method TermsVanish(terms: seq<Term>) returns (verdict: Verdict)
    requires |terms| <= 6
    ensures verdict == if AllFiniteTerms(terms) then Decided(Total(terms) == 0) else Undecided
  {
    ghost var limit := LimbsSuffice();
    var sum := new ExactDyadicPredicateSum();
    for i := 0 to |terms|
      invariant sum.Valid() && fresh(sum.positive) && fresh(sum.negative)
      invariant Load(sum) <= i * limit
      invariant sum.Signed() == Total(terms[..i])
      invariant AllFiniteTerms(terms[..i])
    {
      LoadStep(i, limit);
      LoadRoom(i, limit);
      var t := terms[i];
      assert t in terms;
      assert terms[..i + 1] == terms[..i] + [t] && terms[..i + 1][..i] == terms[..i];
      var outcome := AddBoundedTriple(sum, t.a, t.b, t.c, t.negate, i * limit, limit);
      if !outcome.Added? {
        return Undecided;
      }
    }
    assert terms[..|terms|] == terms;
    var zero := sum.IsZero();
    verdict := Decided(zero);
  }

  /** The determinant is decided exactly whenever every coordinate is finite, and never otherwise. */
  method ExactlyCoplanar(first: Displacement, second: Displacement, third: Displacement) returns (verdict: Verdict)
    ensures verdict == if first.IsFinite() && second.IsFinite() && third.IsFinite()
                       then Decided(Det(IntVec(first), IntVec(second), IntVec(third)) == 0) else Undecided
  {
    verdict := TermsVanish(DeterminantTerms(first, second, third));
    TermsAreDeterminant(first, second, third);
  }

  lemma TermsAreDeterminant(first: Displacement, second: Displacement, third: Displacement)
    ensures AllFiniteTerms(DeterminantTerms(first, second, third)) <==>
      first.IsFinite() && second.IsFinite() && third.IsFinite()
    ensures Total(DeterminantTerms(first, second, third)) == Det(IntVec(first), IntVec(second), IntVec(third))
  {
    var t := DeterminantTerms(first, second, third);
    TotalOfSix(t);
    TermsFinite(t);
    TripleIsProduct(first.x, second.y, third.z, false);
    TripleIsProduct(first.y, second.z, third.x, false);
    TripleIsProduct(first.z, second.x, third.y, false);
    TripleIsProduct(first.z, second.y, third.x, true);
    TripleIsProduct(first.y, second.x, third.z, true);
    TripleIsProduct(first.x, second.z, third.y, true);
  }

  lemma TermsFinite(t: seq<Term>)
    requires |t| == 6
    ensures AllFiniteTerms(t) <==>
      t[0].IsFinite() && t[1].IsFinite() && t[2].IsFinite() && t[3].IsFinite() && t[4].IsFinite() && t[5].IsFinite()
  {
    assert t[0] in t && t[1] in t && t[2] in t && t[3] in t && t[4] in t && t[5] in t;
  }

  lemma TotalOfSix(t: seq<Term>)
    requires |t| == 6
    ensures Total(t) == t[0].Amount() + t[1].Amount() + t[2].Amount() + t[3].Amount() + t[4].Amount() + t[5].Amount()
  {
    assert t[..6] == t;
    for i := 0 to 6
      invariant Total(t[..i]) == (if i > 0 then t[0].Amount() else 0) + (if i > 1 then t[1].Amount() else 0)
                               + (if i > 2 then t[2].Amount() else 0) + (if i > 3 then t[3].Amount() else 0)
                               + (if i > 4 then t[4].Amount() else 0) + (if i > 5 then t[5].Amount() else 0)
    {
      assert t[..i + 1][..i] == t[..i];
    }
  }

  // ---- the span ----

  ghost predicate AllFinite(fed: seq<Displacement>) {
    forall d :: d in fed ==> d.IsFinite()
  }

  ghost function Vectors(fed: seq<Displacement>): seq<Vec> {
    if fed == [] then [] else Vectors(fed[..|fed| - 1]) + [IntVec(fed[|fed| - 1])]
  }

  lemma VectorsStep(fed: seq<Displacement>, d: Displacement)
    ensures Run(Vectors(fed + [d])) == Step(Run(Vectors(fed)), IntVec(d))
  {
    assert (fed + [d])[..|fed|] == fed;
    var v := Vectors(fed);
    assert (v + [IntVec(d)])[..|v|] == v;
  }

  lemma FiniteStep(fed: seq<Displacement>, d: Displacement)
    ensures AllFinite(fed + [d]) ==> AllFinite(fed) && d.IsFinite()
  {
    assert d in fed + [d];
    assert forall e :: e in fed ==> e in fed + [d];
  }

  lemma ZeroUnits(bits: nat)
    requires bits < INFINITY
    ensures Units(bits) == 0 <==> bits == 0
  {
    DecodeIsExact(Double(false, bits));
  }

  lemma ZeroVector(d: Displacement)
    requires d.IsFinite()
    ensures IntVec(d) == ZERO <==> d.IsZero()
  {
    ZeroUnits(d.x.bits);
    ZeroUnits(d.y.bits);
    ZeroUnits(d.z.bits);
  }

  class ExactDisplacementSpan {
    var rank: nat
    var first: Displacement
    var second: Displacement
    ghost var fed: seq<Displacement>

    ghost function Model(): Span
      reads this
    {
      Span(rank, IntVec(first), IntVec(second))
    }

    /** As long as only finite displacements came in, the span is the incremental rank of their exact vectors. */
    ghost predicate Valid()
      reads this
    {
      && rank <= 3
      && (AllFinite(fed) ==> first.IsFinite() && second.IsFinite() && Model() == Run(Vectors(fed)))
    }

    constructor ()
      ensures Valid() && fed == [] && rank == 0
    {
      rank := 0;
      first := Displacement(Double(false, 0), Double(false, 0), Double(false, 0));
      second := Displacement(Double(false, 0), Double(false, 0), Double(false, 0));
      fed := [];
      new;
      ZeroVector(first);
    }

    /** Whether the predicate of the current rank, if one is asked, can tell. */
    ghost predicate Tells(displacement: Displacement)
      reads this
    {
      if displacement.IsZero() || rank == 0 || rank >= 3 then true
      else if rank == 1 then Ruling(Verdicts(CrossComponents(first, displacement))).Decided?
      else first.IsFinite() && second.IsFinite() && displacement.IsFinite()
    }

    /**
     * Feed one displacement; false is the error of a predicate on a value that is not finite, and leaves the span as
     * it was.
     */
    method Add(displacement: Displacement) returns (ok: bool)
      requires Valid()
      modifies this
      ensures Valid() && fed == old(fed) + [displacement]
      ensures ok == old(Tells(displacement)) && (!ok ==> !AllFinite(fed))
      ensures !ok ==> rank == old(rank) && first == old(first) && second == old(second)
    {
      VectorsStep(fed, displacement);
      FiniteStep(fed, displacement);
      ok := Advance(displacement);
      fed := fed + [displacement];
    }

    ghost predicate Finite()
      reads this
    {
      first.IsFinite() && second.IsFinite()
    }

    /** One step of the incremental rank. */
    method Advance(displacement: Displacement) returns (ok: bool)
      requires rank <= 3
      modifies this`rank, this`first, this`second
      ensures rank <= 3 && ok == old(Tells(displacement))
      ensures !ok ==> rank == old(rank) && first == old(first) && second == old(second)
      ensures old(Finite()) && displacement.IsFinite() ==>
        ok && Finite() && Model() == Step(old(Model()), IntVec(displacement))
    {
      if displacement.IsFinite() {
        ZeroVector(displacement);
      }
      if rank == 3 || displacement.IsZero() {
        return true;
      }
      if rank == 0 {
        first := displacement;
        rank := 1;
        return true;
      }
      if rank == 1 {
        ok := AddToLine(displacement);
      } else {
        ok := AddToPlane(displacement);
      }
    }

    /** The case of rank 1. */
    method AddToLine(displacement: Displacement) returns (ok: bool)
      requires rank == 1 && !displacement.IsZero()
      modifies this`rank, this`second
      ensures rank <= 3 && ok == old(Tells(displacement))
      ensures second == (if rank == 1 then old(second) else displacement) && (!ok ==> rank == 1)
      ensures first.IsFinite() && displacement.IsFinite() ==> ok && Model() == Step(old(Model()), IntVec(displacement))
    {
      var collinear := ExactlyCollinear(first, displacement);
      if collinear.Undecided? {
        return false;
      }
      if displacement.IsFinite() {
        ZeroVector(displacement);
      }
      if !collinear.holds {
        second := displacement;
        rank := 2;
      }
      ok := true;
    }

    /** The case of rank 2. */
    method AddToPlane(displacement: Displacement) returns (ok: bool)
      requires rank == 2 && !displacement.IsZero()
      modifies this`rank
      ensures rank <= 3 && ok == old(Tells(displacement)) && (!ok ==> rank == 2)
      ensures first.IsFinite() && second.IsFinite() && displacement.IsFinite() ==>
        ok && Model() == Step(old(Model()), IntVec(displacement))
    {
      var coplanar := ExactlyCoplanar(first, second, displacement);
      if coplanar.Undecided? {
        return false;
      }
      if displacement.IsFinite() {
        ZeroVector(displacement);
      }
      if !coplanar.holds {
        rank := 3;
      }
      ok := true;
    }

    /** The rank field is the linear rank of everything fed in, whatever the order. */
    lemma RankIsLinear()
      requires Valid() && AllFinite(fed)
      ensures HasRank(Vectors(fed), rank)
      ensures rank <= 1 <==> PairsCollinear(Vectors(fed))
      ensures rank <= 2 <==> TriplesCoplanar(Vectors(fed))
    {
      RunHasRank(Vectors(fed));
      RunByMinors(Vectors(fed));
    }
  }
}
