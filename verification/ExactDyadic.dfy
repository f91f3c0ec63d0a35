/** The 100-limb exact accumulator of signed dyadic products. */
module ExactDyadic {
  import opened Powers
  import opened Limbs
  import opened Binary64

  /** The limbs supply bits 0 to 6399. */
  const ACCUMULATOR_BITS := 6400

  const LIMB_COUNT := ACCUMULATOR_BITS / 64
  const MINIMUM_EXPONENT := -3222

  /** Finite magnitudes lie below 2^1024, which is this power of two in units of 2^-1074. */
  const MAGNITUDE_BITS := 1024 - MINIMUM_EXPONENT / 3

  /** Products of two values are multiples of 2^-2148: this many bits above the unit of the accumulator. */
  const PAIR_SHIFT := -2148 - MINIMUM_EXPONENT

  // ---- decoding ----

  datatype Decoded = Decoded(mantissa: nat, exponent: int, negative: bool)

  /** Mantissa, binary exponent and sign of a finite binary64. */
  function DecodeBinary64(value: Double): Decoded {
    if value.bits / HIDDEN == 0 then Decoded(value.bits % HIDDEN, -1074, value.negative)
    else Decoded(HIDDEN + value.bits % HIDDEN, value.bits / HIDDEN - 1075, value.negative)
  }

  /** mantissa * 2^(exponent + 1074) is the exact magnitude in units of 2^-1074. */
  lemma DecodeIsExact(value: Double)
    requires value.IsFinite()
    ensures var d := DecodeBinary64(value);
      && d.mantissa < 2 * HIDDEN && -1074 <= d.exponent <= 971
      && d.mantissa * Pow2(d.exponent + 1074) == Units(value.bits)
      && (d.mantissa == 0 <==> Units(value.bits) == 0)
  {
    var d := DecodeBinary64(value);
    assert d.mantissa == Significand(value.bits) && d.exponent + 1074 == UnitShift(value.bits);
    ShiftLeftIsProduct(d.mantissa, d.exponent + 1074);
    if d.mantissa > 0 {
      MulGrows(d.mantissa, Pow2(d.exponent + 1074));
    }
  }

  // ---- magnitudes of products ----

  /** Two products of a mantissa by a power of two multiply to one. */
  lemma ProductOfScaled(m: nat, n: nat, a: nat, b: nat)
    ensures (m * Pow2(a)) * (n * Pow2(b)) == (m * n) * Pow2(a + b)
  {
    Pow2Add(a, b);
    Regroup4(m, Pow2(a), n, Pow2(b));
  }

  lemma Regroup4(m: nat, p: nat, n: nat, q: nat)
    ensures (m * p) * (n * q) == (m * n) * (p * q)
  {
  }

  lemma UnitsBelow(bits: nat)
    requires bits < INFINITY
    ensures Units(bits) < Pow2(MAGNITUDE_BITS)
  {
    UnitsIncrease(bits, INFINITY);
    InfinityUnits();
  }

  lemma InfinityUnits()
    ensures Units(INFINITY) == Pow2(MAGNITUDE_BITS)
  {
    FieldsOf(INFINITY, MAGNITUDE_BITS - 51, 0);
    ShiftLeftIsProduct(HIDDEN, MAGNITUDE_BITS - 52);
    HiddenIsPower();
    Pow2Add(52, MAGNITUDE_BITS - 52);
  }

  lemma ThreeWords(a: Word, b: Word, c: Word)
    ensures Value([a, b, c]) == a + BASE * b + BASE * (BASE * c)
  {
    assert [a, b, c][1..] == [b, c] && [b, c][1..] == [c] && [c][1..] == [];
    assert Value([c]) == c;
    assert Value([b, c]) == b + BASE * Value([c]);
    assert Value([a, b, c]) == a + BASE * Value([b, c]);
  }

  /** The magnitude a product of two values contributes, in units of 2^-3222. */
  ghost function PairAmount(a: Double, b: Double): nat {
    ShiftLeft(Units(a.bits) * Units(b.bits), PAIR_SHIFT)
  }

  ghost function TripleAmount(a: Double, b: Double, c: Double): nat {
    Units(a.bits) * Units(b.bits) * Units(c.bits)
  }

  ghost function Credit(isNegative: bool, amount: nat): int {
    var credit: int := amount;
    if isNegative then -credit else credit
  }

  lemma PairScaled(m: nat, n: nat, a: nat, b: nat, u: nat, v: nat, shift: nat)
    requires m * Pow2(a) == u && n * Pow2(b) == v
    ensures ShiftLeft(m * n, a + b + shift) == ShiftLeft(u * v, shift)
  {
    ShiftLeftIsProduct(m * n, a + b + shift);
    ShiftLeftIsProduct(u * v, shift);
    ProductOfScaled(m, n, a, b);
    Pow2Add(a + b, shift);
    Regroup3(m * n, Pow2(a + b), Pow2(shift));
  }

  lemma Regroup3(a: nat, b: nat, c: nat)
    ensures a * (b * c) == a * b * c
  {
  }

  function Product3(m: nat, n: nat, l: nat): nat {
    m * n * l
  }

  lemma TripleScaled(m: nat, n: nat, l: nat, a: nat, b: nat, c: nat, u: nat, v: nat, w: nat)
    requires m * Pow2(a) == u && n * Pow2(b) == v && l * Pow2(c) == w
    ensures ShiftLeft(Product3(m, n, l), a + b + c) == u * v * w
  {
    ShiftLeftIsProduct(m * n * l, a + b + c);
    ProductOfScaled(m, n, a, b);
    ProductOfScaled(m * n, l, a + b, c);
  }

  lemma ZeroFactor(a: nat, b: nat, c: nat)
    requires a == 0 || b == 0 || c == 0
    ensures a * b * c == 0
  {
  }

  /** The shifted mantissa product is the exact amount. */
  lemma PairDecoded(first: Double, second: Double, lhs: Decoded, rhs: Decoded)
    requires first.IsFinite() && second.IsFinite()
    requires lhs == DecodeBinary64(first) && rhs == DecodeBinary64(second)
    ensures lhs.mantissa < 2 * HIDDEN && rhs.mantissa < 2 * HIDDEN && lhs.exponent + rhs.exponent >= -2148
    ensures ShiftLeft(lhs.mantissa * rhs.mantissa, lhs.exponent + rhs.exponent - MINIMUM_EXPONENT) ==
      PairAmount(first, second)
    ensures lhs.mantissa == 0 || rhs.mantissa == 0 ==> PairAmount(first, second) == 0
  {
    DecodeIsExact(first);
    DecodeIsExact(second);
    PairScaled(lhs.mantissa, rhs.mantissa, lhs.exponent + 1074, rhs.exponent + 1074,
      Units(first.bits), Units(second.bits), PAIR_SHIFT);
    ShiftLeftIsProduct(0, PAIR_SHIFT);
  }

  lemma TripleDecoded(first: Double, second: Double, third: Double, lhs: Decoded, middle: Decoded, rhs: Decoded)
    requires first.IsFinite() && second.IsFinite() && third.IsFinite()
    requires lhs == DecodeBinary64(first) && middle == DecodeBinary64(second) && rhs == DecodeBinary64(third)
    ensures lhs.mantissa < 2 * HIDDEN && middle.mantissa < 2 * HIDDEN && rhs.mantissa < 2 * HIDDEN
    ensures lhs.exponent + middle.exponent + rhs.exponent >= MINIMUM_EXPONENT
    ensures ShiftLeft(Product3(lhs.mantissa, middle.mantissa, rhs.mantissa),
              lhs.exponent + middle.exponent + rhs.exponent - MINIMUM_EXPONENT) == TripleAmount(first, second, third)
    ensures lhs.mantissa == 0 || middle.mantissa == 0 || rhs.mantissa == 0 ==> TripleAmount(first, second, third) == 0
  {
    DecodeIsExact(first);
    DecodeIsExact(second);
    DecodeIsExact(third);
    TripleScaled(lhs.mantissa, middle.mantissa, rhs.mantissa,
      lhs.exponent + 1074, middle.exponent + 1074, rhs.exponent + 1074,
      Units(first.bits), Units(second.bits), Units(third.bits));
    if lhs.mantissa == 0 || middle.mantissa == 0 || rhs.mantissa == 0 {
      ZeroFactor(Units(first.bits), Units(second.bits), Units(third.bits));
    }
  }

  /** The product of three 53-bit mantissas leaves the third word far from full. */
  lemma TripleMantissaBound(m: nat, n: nat, l: nat, total: nat)
    requires m < 2 * HIDDEN && n < 2 * HIDDEN && l < 2 * HIDDEN && total == m * n * l
    ensures total < BASE * (BASE * HALF)
  {
    MulMonotone(m, 2 * HIDDEN, n);
    MulMonotone(m * n, 2 * HIDDEN * (2 * HIDDEN), l);
  }

  datatype AddOutcome = Added | NotFinite | MantissaOverflow | AccumulatorOverflow

  ghost function Bucket(isNegative: bool, pos: seq<Word>, neg: seq<Word>): nat {
    Value(if isNegative then neg else pos)
  }

  datatype Leading = ZeroSum | Underflow | At(binaryExponent: int)

  class ExactDyadicPredicateSum {
    const positive: array<Word>
    const negative: array<Word>

    ghost predicate Valid()
      reads this, positive, negative
    {
      positive.Length == LIMB_COUNT && negative.Length == LIMB_COUNT && positive != negative
    }

    /** The signed sum accumulated so far, in units of 2^-3222. */
    ghost function Signed(): int
      reads this, positive, negative
    {
      Value(positive[..]) - Value(negative[..])
    }

    /** One bucket received the amount, the other is untouched. */
    ghost predicate Credited(isNegative: bool, amount: nat, pos: seq<Word>, neg: seq<Word>)
      reads this, positive, negative
    {
      if isNegative then Value(negative[..]) == Value(neg) + amount && positive[..] == pos
      else Value(positive[..]) == Value(pos) + amount && negative[..] == neg
    }

    constructor ()
      ensures Valid() && fresh(positive) && fresh(negative)
      ensures Value(positive[..]) == 0 && Value(negative[..]) == 0
    {
      positive := new Word[LIMB_COUNT](_ => 0);
      negative := new Word[LIMB_COUNT](_ => 0);
      new;
      ValueOfZeros(positive[..]);
      ValueOfZeros(negative[..]);
    }

    /** Add words * 2^shift to the bucket of the given sign; false when the limbs cannot hold it. */
    method AddWords(words: seq<Word>, shift: nat, isNegative: bool) returns (ok: bool)
      requires Valid() && |words| == 3
      modifies positive, negative
      ensures ok <==>
        Bucket(isNegative, old(positive[..]), old(negative[..])) + ShiftLeft(Value(words), shift) < Weight(LIMB_COUNT)
      ensures ok ==> Credited(isNegative, ShiftLeft(Value(words), shift), old(positive[..]), old(negative[..]))
    {
      if isNegative {
        ok := AddShifted(negative, words, shift);
      } else {
        ok := AddShifted(positive, words, shift);
      }
    }

    /** Add or subtract one exact product of two values. */
    method AddProduct(first: Double, second: Double, negate: bool) returns (outcome: AddOutcome)
      requires Valid()
      modifies positive, negative
      ensures outcome.NotFinite? <==> !first.IsFinite() || !second.IsFinite()
      ensures outcome.Added? || outcome.NotFinite? || outcome.AccumulatorOverflow?
      ensures outcome.Added? ==>
        Credited(negate != (first.negative != second.negative), PairAmount(first, second), old(positive[..]),
          old(negative[..]))
      ensures outcome.AccumulatorOverflow? ==>
        Bucket(negate != (first.negative != second.negative), old(positive[..]), old(negative[..])) +
          PairAmount(first, second)
        >= Weight(LIMB_COUNT)
    {
      if !first.IsFinite() || !second.IsFinite() {
        return NotFinite;
      }
      var lhs, rhs := DecodeBinary64(first), DecodeBinary64(second);
      PairDecoded(first, second, lhs, rhs);
      outcome := AddDecodedPair(lhs, rhs, negate, PairAmount(first, second));
    }

    method AddDecodedPair(lhs: Decoded, rhs: Decoded, negate: bool, ghost amount: nat) returns (outcome: AddOutcome)
      requires Valid() && lhs.mantissa < 2 * HIDDEN && rhs.mantissa < 2 * HIDDEN
      requires lhs.exponent + rhs.exponent >= MINIMUM_EXPONENT
      requires ShiftLeft(lhs.mantissa * rhs.mantissa, lhs.exponent + rhs.exponent - MINIMUM_EXPONENT) == amount
      requires lhs.mantissa == 0 || rhs.mantissa == 0 ==> amount == 0
      modifies positive, negative
      ensures outcome.Added? || outcome.AccumulatorOverflow?
      ensures outcome.Added? ==>
        Credited(negate != (lhs.negative != rhs.negative), amount, old(positive[..]), old(negative[..]))
      ensures outcome.AccumulatorOverflow? ==>
        Bucket(negate != (lhs.negative != rhs.negative), old(positive[..]), old(negative[..])) +
          amount >= Weight(LIMB_COUNT)
    {
      if lhs.mantissa == 0 || rhs.mantissa == 0 {
        return Added;
      }
      outcome := AddMantissaPair(lhs.mantissa, rhs.mantissa, lhs.exponent + rhs.exponent - MINIMUM_EXPONENT,
        negate != (lhs.negative != rhs.negative), amount);
    }

    method AddMantissaWords(words: seq<Word>, shift: nat, isNegative: bool, ghost product: nat, ghost amount: nat)
      returns (outcome: AddOutcome)
      requires Valid() && |words| == 3 && Value(words) == product && ShiftLeft(product, shift) == amount
      modifies positive, negative
      ensures outcome.Added? || outcome.AccumulatorOverflow?
      ensures outcome.Added? ==> Credited(isNegative, amount, old(positive[..]), old(negative[..]))
      ensures outcome.AccumulatorOverflow? ==>
        Bucket(isNegative, old(positive[..]), old(negative[..])) + amount >= Weight(LIMB_COUNT)
    {
      var ok := AddWords(words, shift, isNegative);
      outcome := if ok then Added else AccumulatorOverflow;
    }

    method AddMantissaPair(m: Word, n: Word, shift: nat, isNegative: bool, ghost amount: nat)
      returns (outcome: AddOutcome)
      requires Valid() && ShiftLeft(m * n, shift) == amount
      modifies positive, negative
      ensures outcome.Added? || outcome.AccumulatorOverflow?
      ensures outcome.Added? ==> Credited(isNegative, amount, old(positive[..]), old(negative[..]))
      ensures outcome.AccumulatorOverflow? ==>
        Bucket(isNegative, old(positive[..]), old(negative[..])) + amount >= Weight(LIMB_COUNT)
    {
      var high, low := MultiplyU64(m, n);
      ThreeWords(low, high, 0);
      outcome := AddMantissaWords([low, high, 0], shift, isNegative, m * n, amount);
    }

    /** Add or subtract one exact product of three values. */
    method AddTripleProduct(first: Double, second: Double, third: Double, negate: bool) returns (outcome: AddOutcome)
      requires Valid()
      modifies positive, negative
      ensures outcome.NotFinite? <==> !first.IsFinite() || !second.IsFinite() || !third.IsFinite()
      ensures outcome.Added? || outcome.NotFinite? || outcome.AccumulatorOverflow?
      ensures outcome.Added? ==>
        Credited(negate != (first.negative != (second.negative != third.negative)), TripleAmount(first, second, third),
          old(positive[..]), old(negative[..]))
      ensures outcome.AccumulatorOverflow? ==>
        Bucket(negate != (first.negative != (second.negative != third.negative)), old(positive[..]), old(negative[..]))
        + TripleAmount(first, second, third) >= Weight(LIMB_COUNT)
    {
      if !first.IsFinite() || !second.IsFinite() || !third.IsFinite() {
        return NotFinite;
      }
      var lhs, middle, rhs := DecodeBinary64(first), DecodeBinary64(second), DecodeBinary64(third);
      TripleDecoded(first, second, third, lhs, middle, rhs);
      outcome := AddDecodedTriple(lhs, middle, rhs, negate, TripleAmount(first, second, third));
    }

    method AddDecodedTriple(lhs: Decoded, middle: Decoded, rhs: Decoded, negate: bool, ghost amount: nat)
      returns (outcome: AddOutcome)
      requires Valid() && lhs.mantissa < 2 * HIDDEN && middle.mantissa < 2 * HIDDEN && rhs.mantissa < 2 * HIDDEN
      requires lhs.exponent + middle.exponent + rhs.exponent >= MINIMUM_EXPONENT
      requires ShiftLeft(Product3(lhs.mantissa, middle.mantissa, rhs.mantissa),
                 lhs.exponent + middle.exponent + rhs.exponent - MINIMUM_EXPONENT) == amount
      requires lhs.mantissa == 0 || middle.mantissa == 0 || rhs.mantissa == 0 ==> amount == 0
      modifies positive, negative
      ensures outcome.Added? || outcome.AccumulatorOverflow?
      ensures outcome.Added? ==>
        Credited(negate != (lhs.negative != (middle.negative != rhs.negative)), amount, old(positive[..]),
          old(negative[..]))
      ensures outcome.AccumulatorOverflow? ==>
        Bucket(negate != (lhs.negative != (middle.negative != rhs.negative)), old(positive[..]), old(negative[..]))
        + amount >= Weight(LIMB_COUNT)
    {
      if lhs.mantissa == 0 || middle.mantissa == 0 || rhs.mantissa == 0 {
        return Added;
      }
      outcome := AddMantissaTriple(lhs.mantissa, middle.mantissa, rhs.mantissa,
        lhs.exponent + middle.exponent + rhs.exponent - MINIMUM_EXPONENT,
        negate != (lhs.negative != (middle.negative != rhs.negative)), amount);
    }

    method AddMantissaTriple(m: Word, n: Word, l: Word, shift: nat, isNegative: bool, ghost amount: nat)
      returns (outcome: AddOutcome)
      requires Valid() && m < 2 * HIDDEN && n < 2 * HIDDEN && l < 2 * HIDDEN
      requires ShiftLeft(Product3(m, n, l), shift) == amount
      modifies positive, negative
      ensures outcome.Added? || outcome.AccumulatorOverflow?
      ensures outcome.Added? ==> Credited(isNegative, amount, old(positive[..]), old(negative[..]))
      ensures outcome.AccumulatorOverflow? ==>
        Bucket(isNegative, old(positive[..]), old(negative[..])) + amount >= Weight(LIMB_COUNT)
    {
      var words := TripleMantissa(m, n, l);
      if words == [] {
        return MantissaOverflow;
      }
      outcome := AddMantissaWords(words, shift, isNegative, Product3(m, n, l), amount);
    }

    /** The three words of a triple mantissa product; [] stands for the mantissa overflow error. */
    static method TripleMantissa(m: Word, n: Word, l: Word) returns (words: seq<Word>)
      requires m < 2 * HIDDEN && n < 2 * HIDDEN && l < 2 * HIDDEN
      ensures |words| == 3 && Value(words) == m * n * l
    {
      var productHigh, productLow := MultiplyU64(m, n);
      var lowHigh, lowLow := MultiplyU64(productLow, l);
      var highHigh, highLow := MultiplyU64(productHigh, l);
      WrapAdd(lowHigh, highLow);
      var middleWord: Word := (lowHigh + highLow) % BASE;
      var carry := if middleWord < lowHigh then 1 else 0;
      SplitTriple(m, n, l, productLow, productHigh);
      TripleMantissaBound(m, n, l, m * n * l);
      assert lowLow + BASE * middleWord + BASE * (BASE * (highHigh + carry)) == m * n * l;
      if highHigh > BASE - 1 - carry {
        return [];
      }
      ThreeWords(lowLow, middleWord, highHigh + carry);
      words := [lowLow, middleWord, highHigh + carry];
    }

    static lemma SplitTriple(m: nat, n: nat, l: nat, low: nat, high: nat)
      requires low + BASE * high == m * n
      ensures low * l + BASE * (high * l) == m * n * l
    {
    }

    /** Both buckets hold the same number exactly when the signed sum is zero. */
    method IsZero() returns (zero: bool)
      requires Valid()
      ensures zero <==> Signed() == 0
    {
      if Value(positive[..]) == Value(negative[..]) {
        ValueInjective(positive[..], negative[..]);
      }
      zero := true;
      for i := 0 to LIMB_COUNT
        invariant zero ==> forall k :: 0 <= k < i ==> positive[k] == negative[k]
        invariant !zero ==> positive[..] != negative[..]
      {
        if positive[i] != negative[i] {
          assert positive[..][i] != negative[..][i];
          zero := false;
        }
      }
      assert zero ==> positive[..] == negative[..];
    }

    /**
     * The exact part of the logarithm: where the leading bit of the absolute value is.
     * None when the sum is zero; binaryExponent is the exponent of that bit as a value.
     */
    method LeadingBitOfMagnitude() returns (leading: Leading)
      requires Valid()
      ensures leading.ZeroSum? <==> Signed() == 0
      ensures leading.At? ==>
        var magnitude := if Signed() >= 0 then Signed() else -Signed();
        && 0 <= leading.binaryExponent - MINIMUM_EXPONENT
        && Pow2(leading.binaryExponent - MINIMUM_EXPONENT) <= magnitude
        && magnitude < Pow2(leading.binaryExponent - MINIMUM_EXPONENT + 1)
      ensures !leading.Underflow?
    {
      var zero := IsZero();
      if zero {
        return ZeroSum;
      }
      var order := CompareLimbs(positive, negative);
      var larger := if order > 0 then positive else negative;
      var smaller := if order > 0 then negative else positive;
      var magnitude, borrow := SubtractLimbs(larger, smaller);
      if borrow != 0 {
        return Underflow;
      }
      var limb, bit := LeadingPosition(magnitude);
      leading := At(MINIMUM_EXPONENT + (64 * limb + bit));
    }
  }
}
