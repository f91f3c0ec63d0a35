/** Little-endian sequences of 64-bit words and the integers they stand for. */
module Limbs {
  import opened Powers

  /** 2^64 */
  const BASE := 0x1_0000_0000_0000_0000

  type Word = x: int | 0 <= x < BASE

  function Value(s: seq<Word>): nat {
    if s == [] then 0 else s[0] + BASE * Value(s[1..])
  }

  /** BASE^i */
  function Weight(i: nat): (w: nat)
    ensures w > 0
  {
    if i == 0 then 1 else BASE * Weight(i - 1)
  }

  lemma {:induction false} WeightIsPower(i: nat)
    ensures Weight(i) == Pow2(64 * i)
  {
    if i > 0 {
      WeightIsPower(i - 1);
      BaseIsPower();
      Pow2Add(64, 64 * (i - 1));
    }
  }

  lemma BaseIsPower()
    ensures Pow2(64) == BASE
  {
    assert Pow2(4) == 16;
    Pow2Add(4, 4);
    Pow2Add(8, 8);
    Pow2Add(16, 16);
    Pow2Add(32, 32);
  }

  lemma {:induction false} WeightAdd(i: nat, j: nat)
    ensures Weight(i + j) == Weight(i) * Weight(j)
  {
    WeightIsPower(i + j);
    WeightIsPower(i);
    WeightIsPower(j);
    Pow2Add(64 * i, 64 * j);
  }

  lemma {:induction false} ValueAppend(a: seq<Word>, b: seq<Word>)
    ensures Value(a + b) == Value(a) + Weight(|a|) * Value(b)
  {
    if a == [] {
      assert a + b == b;
    } else {
      assert (a + b)[1..] == a[1..] + b;
      ValueAppend(a[1..], b);
      Distribute(BASE, Value(a[1..]), Weight(|a| - 1), Value(b));
    }
  }

  lemma Distribute(k: nat, u: nat, w: nat, v: nat)
    ensures k * (u + w * v) == k * u + (k * w) * v
  {
  }

  lemma ValueSnoc(s: seq<Word>, i: nat)
    requires i < |s|
    ensures Value(s[..i + 1]) == Value(s[..i]) + s[i] * Weight(i)
  {
    assert s[..i + 1] == s[..i] + [s[i]];
    ValueAppend(s[..i], [s[i]]);
    assert Value([s[i]]) == s[i];
  }

  lemma {:induction false} ValueBound(s: seq<Word>)
    ensures Value(s) < Weight(|s|)
  {
    if s != [] {
      ValueBound(s[1..]);
      MulMonotone(Value(s[1..]) + 1, Weight(|s| - 1), BASE);
    }
  }

  /** Changing one word changes the value by the difference times its weight. */
  lemma ValueUpdate(s: seq<Word>, i: nat, w: Word)
    requires i < |s|
    ensures Value(s[i := w]) == Value(s) + (w - s[i]) * Weight(i)
  {
    var t := s[i := w];
    assert s == s[..i] + ([s[i]] + s[i + 1..]);
    assert t == s[..i] + ([w] + s[i + 1..]);
    ValueAppend(s[..i], [s[i]] + s[i + 1..]);
    ValueAppend(s[..i], [w] + s[i + 1..]);
    assert ([s[i]] + s[i + 1..])[1..] == s[i + 1..];
    assert ([w] + s[i + 1..])[1..] == s[i + 1..];
    DifferenceOfWords(Weight(i), s[i], w, BASE * Value(s[i + 1..]));
  }

  lemma DifferenceOfWords(k: nat, u: int, w: int, rest: int)
    ensures k * (w + rest) == k * (u + rest) + (w - u) * k
  {
  }

  /** The topmost differing word decides the order of two values. */
  lemma TopWordDecides(a: seq<Word>, b: seq<Word>, i: nat)
    requires |a| == |b| && i < |a| && a[i] > b[i] && a[i + 1..] == b[i + 1..]
    ensures Value(a) > Value(b)
  {
    assert a == a[..i + 1] + a[i + 1..];
    assert b == b[..i + 1] + b[i + 1..];
    ValueAppend(a[..i + 1], a[i + 1..]);
    ValueAppend(b[..i + 1], b[i + 1..]);
    ValueSnoc(a, i);
    ValueSnoc(b, i);
    ValueBound(b[..i]);
    TopOrder(Value(a[..i]), Value(b[..i]), a[i], b[i], Weight(i), Weight(i + 1) * Value(a[i + 1..]));
  }

  lemma TopOrder(va: nat, vb: nat, u: nat, w: nat, weight: nat, rest: int)
    requires u > w && vb < weight
    ensures va + u * weight + rest > vb + w * weight + rest
  {
    MulMonotone(w + 1, u, weight);
  }

  /** Equal length and equal value mean equal words. */
  lemma {:induction false} ValueInjective(a: seq<Word>, b: seq<Word>)
    requires |a| == |b| && Value(a) == Value(b)
    ensures a == b
  {
    if a != [] {
      DivUnique(Value(a), BASE, Value(a[1..]), a[0]);
      DivUnique(Value(b), BASE, Value(b[1..]), b[0]);
      ValueInjective(a[1..], b[1..]);
      assert a == [a[0]] + a[1..];
      assert b == [b[0]] + b[1..];
    }
  }

  lemma {:induction false} ValueOfZeros(s: seq<Word>)
    requires forall i :: 0 <= i < |s| ==> s[i] == 0
    ensures Value(s) == 0
  {
    if s != [] {
      ValueOfZeros(s[1..]);
    }
  }

  // ---- word arithmetic with explicit wrap-around ----

  const HALF := 0x1_0000_0000

  /** Addition modulo 2^64 has carried exactly when the sum is below an operand. */
  lemma WrapAdd(previous: Word, w: Word)
    ensures previous + w == (previous + w) % BASE + (if (previous + w) % BASE < previous then BASE else 0)
  {
  }

  /** x << 32, truncated to 64 bits */
  function ShiftLeft32(x: Word): (r: Word)
    ensures r == x % HALF * HALF
  {
    assert x * HALF == x / HALF * BASE + x % HALF * HALF;
    (x * HALF) % BASE
  }

  /** The full 128-bit product of two words by 32-bit halves. */
  method MultiplyU64(lhs: Word, rhs: Word) returns (high: Word, low: Word)
    ensures low + BASE * high == lhs * rhs
  {
    var lhsLow, lhsHigh := lhs % HALF, lhs / HALF;
    var rhsLow, rhsHigh := rhs % HALF, rhs / HALF;
    var lowLow := HalfTimesHalf(lhsLow, rhsLow);
    var lowHigh := HalfTimesHalf(lhsLow, rhsHigh);
    var highLow := HalfTimesHalf(lhsHigh, rhsLow);
    var highHigh := HalfTimesHalf(lhsHigh, rhsHigh);
    CrossProducts(lhs, rhs, lhsLow, lhsHigh, rhsLow, rhsHigh);
    WordProductBound(lhs, rhs);
    high, low := CombineHalves(lowLow, lowHigh, highLow, highHigh, lhs * rhs);
  }

  method HalfTimesHalf(a: nat, b: nat) returns (p: Word)
    requires a < HALF && b < HALF
    ensures p == a * b
  {
    HalfProductBound(a, b);
    p := a * b;
  }

  lemma HalfProductBound(a: nat, b: nat)
    requires a < HALF && b < HALF
    ensures 0 <= a * b < BASE
  {
    MulMonotone(a, HALF, b);
    MulMonotone(0, a, b);
  }

  method CombineHalves(lowLow: Word, lowHigh: Word, highLow: Word, highHigh: Word, ghost product: nat)
    returns (high: Word, low: Word)
    requires product == lowLow + HALF * lowHigh + HALF * highLow + BASE * highHigh && product < BASE * BASE
    ensures low + BASE * high == product
  {
    var first, middle := AddCarrying(lowLow, ShiftLeft32(lowHigh));
    var second;
    second, low := AddCarrying(middle, ShiftLeft32(highLow));
    HalvesSum(lowLow, lowHigh, highLow, highHigh, first, second, low, product);
    high := (highHigh + lowHigh / HALF + highLow / HALF + first + second) % BASE;
  }

  lemma HalfShifted(x: Word)
    ensures HALF * x == x / HALF * BASE + ShiftLeft32(x)
  {
  }

  /** What the carries and the upper halves add up to. */
  lemma HalvesSum(lowLow: Word, lowHigh: Word, highLow: Word, highHigh: Word, first: nat, second: nat, low: Word,
                  product: nat)
    requires lowLow + ShiftLeft32(lowHigh) + ShiftLeft32(highLow) == low + BASE * (first + second)
    requires product == lowLow + HALF * lowHigh + HALF * highLow + BASE * highHigh && product < BASE * BASE
    ensures var high := highHigh + lowHigh / HALF + highLow / HALF + first + second;
      low + BASE * high == product && high < BASE
  {
    HalfShifted(lowHigh);
    HalfShifted(highLow);
  }

  /** Add with wrap-around; a sum below its first operand is the carry. */
  method AddCarrying(previous: Word, w: Word) returns (carry: nat, sum: Word)
    ensures previous + w == sum + BASE * carry && carry <= 1
  {
    WrapAdd(previous, w);
    sum := (previous + w) % BASE;
    carry := if sum < previous then 1 else 0;
  }

  lemma CrossProducts(lhs: nat, rhs: nat, a0: nat, a1: nat, b0: nat, b1: nat)
    requires lhs == a1 * HALF + a0 && rhs == b1 * HALF + b0
    ensures lhs * rhs == a0 * b0 + HALF * (a0 * b1) + HALF * (a1 * b0) + BASE * (a1 * b1)
  {
    assert lhs * rhs == (a1 * HALF + a0) * (b1 * HALF + b0);
  }

  lemma WordProductBound(a: nat, b: nat)
    requires a < BASE && b < BASE
    ensures a * b < BASE * BASE
  {
    if b > 0 {
      MulStrict(a, BASE, b);
    }
  }

  /** word << offset, truncated to 64 bits */
  function ShiftLow(w: Word, offset: nat): Word {
    (w * Pow2(offset)) % BASE
  }

  /** word >> (64 - offset) */
  function ShiftHigh(w: Word, offset: nat): nat
    requires offset <= 64
  {
    ShiftRight(w, 64 - offset)
  }

  lemma {:induction false} ShiftRightBounds(n: nat, k: nat)
    ensures ShiftRight(n, k) * Pow2(k) <= n < ShiftRight(n, k) * Pow2(k) + Pow2(k)
    decreases k
  {
    if k > 0 {
      ShiftRightBounds(n / 2, k - 1);
      DoubledBounds(n, ShiftRight(n / 2, k - 1), Pow2(k - 1));
    }
  }

  lemma DoubledBounds(n: nat, q: nat, p: nat)
    requires q * p <= n / 2 < q * p + p
    ensures q * (2 * p) <= n < q * (2 * p) + 2 * p
  {
  }

  /** The two shifted words together are the word times 2^offset. */
  lemma ShiftSplits(w: Word, offset: nat)
    requires offset < 64
    ensures ShiftHigh(w, offset) < BASE
    ensures ShiftLow(w, offset) + BASE * ShiftHigh(w, offset) == w * Pow2(offset)
  {
    var q, p, t := ShiftHigh(w, offset), Pow2(64 - offset), Pow2(offset);
    ShiftRightBounds(w, 64 - offset);
    BaseIsPower();
    Pow2Add(64 - offset, offset);
    SplitWord(w, q, p, t);
  }

  lemma SplitWord(w: nat, q: nat, p: nat, t: nat)
    requires q * p <= w < q * p + p && p * t == BASE && t > 0 && w < BASE
    ensures q < BASE
    ensures (w * t) % BASE + BASE * q == w * t
  {
    var r := w - q * p;
    SplitProduct(w, q, p, r, t);
    DivUnique(w * t, BASE, q, r * t);
    MulGrows(q, p);
  }

  lemma SplitProduct(w: nat, q: nat, p: nat, r: nat, t: nat)
    requires w == q * p + r && r < p && p * t == BASE && t > 0
    ensures w * t == q * BASE + r * t && r * t < BASE
  {
    MulStrict(r, p, t);
  }

  /** target += word * BASE^index, carries included; false when the carry runs past the top limb. */
  method AddWord(target: array<Word>, index: nat, word: Word) returns (ok: bool)
    modifies target
    ensures ok <==> Value(old(target[..])) + word * Weight(index) < Weight(target.Length)
    ensures ok ==> Value(target[..]) == Value(old(target[..])) + word * Weight(index)
  {
    var i := index;
    var w: Word := word;
    while w != 0
      invariant index <= i
      invariant Value(target[..]) + w * Weight(i) == Value(old(target[..])) + word * Weight(index)
      decreases target.Length - i
    {
      if i >= target.Length {
        OverflowAtTop(target.Length, i, w);
        return false;
      }
      ghost var before := target[..];
      var previous := target[i];
      var sum: Word := (previous + w) % BASE;
      target[i] := sum;
      assert target[..] == before[i := sum];
      ValueUpdate(before, i, sum);
      WrapAdd(previous, w);
      CarryMoves(previous, w, sum, if sum < previous then 1 else 0, Weight(i));
      w := if sum < previous then 1 else 0;
      i := i + 1;
    }
    ValueBound(target[..]);
    ok := true;
  }

  lemma OverflowAtTop(n: nat, i: nat, w: nat)
    requires n <= i && w > 0
    ensures w * Weight(i) >= Weight(n)
  {
    WeightAdd(n, i - n);
    MulGrows(Weight(n), Weight(i - n));
    MulGrows(Weight(i), w);
  }

  lemma CarryMoves(previous: nat, w: nat, sum: nat, carry: nat, weight: nat)
    requires previous + w == sum + BASE * carry
    ensures (sum - previous) * weight + carry * (BASE * weight) == w * weight
  {
    assert (sum - previous + carry * BASE) * weight == w * weight;
  }

  /** One shifted word is two neighbouring limb additions. */
  lemma WordContribution(w: Word, offset: nat, index: nat, i: nat, scale: nat)
    requires offset < 64 && scale == Pow2(offset) * Weight(index)
    ensures ShiftHigh(w, offset) < BASE
    ensures ShiftLow(w, offset) * Weight(index + i) + ShiftHigh(w, offset) * Weight(index + i + 1)
      == w * Weight(i) * scale
    ensures offset == 0 ==> ShiftHigh(w, offset) == 0
  {
    ShiftSplits(w, offset);
    WeightAdd(index, i);
    SplitContribution(ShiftLow(w, offset), ShiftHigh(w, offset), w, Pow2(offset), Weight(index), Weight(i),
      Weight(index + i));
    if offset == 0 {
      assert w * Pow2(0) == w;
    }
  }

  lemma SplitContribution(lo: nat, hi: nat, w: nat, p: nat, wi: nat, wj: nat, wij: nat)
    requires lo + BASE * hi == w * p && wij == wi * wj
    ensures lo * wij + hi * (BASE * wij) == w * wj * (p * wi)
  {
    assert lo * wij + hi * (BASE * wij) == (lo + BASE * hi) * wij;
    assert (w * p) * (wi * wj) == w * wj * (p * wi);
  }

  lemma PrefixContribution(words: seq<Word>, i: nat, scale: nat)
    requires i < |words|
    ensures Value(words[..i + 1]) * scale == Value(words[..i]) * scale + words[i] * Weight(i) * scale
    ensures Value(words[..i + 1]) * scale <= Value(words) * scale
  {
    ValueSnoc(words, i);
    PrefixValue(words, i + 1);
    ScalePrefix(Value(words[..i]), words[i] * Weight(i), Value(words[..i + 1]), Value(words), scale);
  }

  lemma PrefixValue(words: seq<Word>, i: nat)
    requires i <= |words|
    ensures Value(words[..i]) <= Value(words)
  {
    assert words == words[..i] + words[i..];
    ValueAppend(words[..i], words[i..]);
    SumAtLeast(Value(words), Value(words[..i]), Weight(i), Value(words[i..]));
  }

  lemma SumAtLeast(sum: nat, a: nat, b: nat, c: nat)
    requires sum == a + b * c
    ensures a <= sum
  {
  }

  lemma ScalePrefix(before: nat, part: nat, next: nat, whole: nat, scale: nat)
    requires next == before + part && next <= whole
    ensures next * scale == before * scale + part * scale && next * scale <= whole * scale
  {
    MulMonotone(next, whole, scale);
    DistributeRight(before, part, scale);
  }

  lemma DistributeRight(a: nat, b: nat, k: nat)
    ensures (a + b) * k == a * k + b * k
  {
  }

  lemma ShiftAsLimbs(shift: nat)
    ensures Pow2(shift) == Pow2(shift % 64) * Weight(shift / 64)
  {
    WeightIsPower(shift / 64);
    Pow2Add(shift % 64, 64 * (shift / 64));
  }

  /** What word i adds to the shifted operand, and where its two halves go. */
  lemma WordStep(words: seq<Word>, i: nat, shift: nat) returns (amount: nat)
    requires i < |words|
    ensures ShiftHigh(words[i], shift % 64) < BASE
    ensures shift % 64 == 0 ==> ShiftHigh(words[i], shift % 64) == 0
    ensures ShiftLow(words[i], shift % 64) * Weight(shift / 64 + i)
      + ShiftHigh(words[i], shift % 64) * Weight(shift / 64 + i + 1) == amount
    ensures ShiftLeft(Value(words[..i + 1]), shift) == ShiftLeft(Value(words[..i]), shift) + amount
    ensures ShiftLeft(Value(words[..i + 1]), shift) <= ShiftLeft(Value(words), shift)
  {
    ShiftAsLimbs(shift);
    amount := words[i] * Weight(i) * Pow2(shift);
    WordContribution(words[i], shift % 64, shift / 64, i, Pow2(shift));
    PrefixContribution(words, i, Pow2(shift));
    ShiftLeftIsProduct(Value(words[..i + 1]), shift);
    ShiftLeftIsProduct(Value(words[..i]), shift);
    ShiftLeftIsProduct(Value(words), shift);
  }

  /** Add one word of the shifted operand: its two halves go to neighbouring limbs. */
  method AddSplitWord(target: array<Word>, limb: nat, word: Word, offset: nat, ghost amount: nat) returns (ok: bool)
    requires offset < 64 && ShiftHigh(word, offset) < BASE && (offset == 0 ==> ShiftHigh(word, offset) == 0)
    requires ShiftLow(word, offset) * Weight(limb) + ShiftHigh(word, offset) * Weight(limb + 1) == amount
    modifies target
    ensures ok <==> Value(old(target[..])) + amount < Weight(target.Length)
    ensures ok ==> Value(target[..]) == Value(old(target[..])) + amount < Weight(target.Length)
  {
    MulMonotone(0, ShiftHigh(word, offset), Weight(limb + 1));
    ok := AddWord(target, limb, ShiftLow(word, offset));
    if ok && offset != 0 {
      ok := AddWord(target, limb + 1, ShiftHigh(word, offset));
    }
  }

  /** target += words * 2^shift; false exactly when the limbs cannot hold the sum. */
  method AddShifted(target: array<Word>, words: seq<Word>, shift: nat) returns (ok: bool)
    modifies target
    ensures ok <==> Value(old(target[..])) + ShiftLeft(Value(words), shift) < Weight(target.Length)
    ensures ok ==> Value(target[..]) == Value(old(target[..])) + ShiftLeft(Value(words), shift)
  {
    ghost var start := Value(target[..]);
    ShiftLeftIsProduct(0, shift);
    ValueBound(target[..]);
    for i := 0 to |words|
      invariant Value(target[..]) == start + ShiftLeft(Value(words[..i]), shift) < Weight(target.Length)
    {
      ghost var amount := WordStep(words, i, shift);
      ok := AddSplitWord(target, shift / 64 + i, words[i], shift % 64, amount);
      if !ok {
        return;
      }
    }
    assert words[..|words|] == words;
    ok := true;
  }

  /** Compare two arrays of limbs from the top: 1, -1 or 0. */
  method CompareLimbs(a: array<Word>, b: array<Word>) returns (order: int)
    requires a.Length == b.Length
    ensures order == if Value(a[..]) > Value(b[..]) then 1 else if Value(a[..]) < Value(b[..]) then -1 else 0
  {
    var i := a.Length;
    while i > 0
      invariant 0 <= i <= a.Length
      invariant a[i..] == b[i..]
    {
      i := i - 1;
      if a[i] > b[i] {
        TopWordDecides(a[..], b[..], i);
        return 1;
      }
      if a[i] < b[i] {
        TopWordDecides(b[..], a[..], i);
        return -1;
      }
      assert a[i..] == [a[i]] + a[i + 1..];
      assert b[i..] == [b[i]] + b[i + 1..];
    }
    assert a[..] == a[0..] && b[..] == b[0..];
    order := 0;
  }

  /** One limb of a subtraction with borrow, by two wrapping subtractions. */
  method SubtractLimb(x: Word, y: Word, borrow: Word) returns (d: Word, borrowOut: Word)
    requires borrow <= 1
    ensures borrowOut <= 1 && d == x - y - borrow + BASE * borrowOut
  {
    var firstDifference: Word := (x - y + BASE) % BASE;
    var firstBorrow := x < y;
    d := (firstDifference - borrow + BASE) % BASE;
    var secondBorrow := firstDifference < borrow;
    borrowOut := if firstBorrow || secondBorrow then 1 else 0;
  }

  /** larger - smaller, limb by limb; the final borrow is zero. */
  method SubtractLimbs(larger: array<Word>, smaller: array<Word>) returns (magnitude: array<Word>, borrow: Word)
    requires larger.Length == smaller.Length && Value(larger[..]) >= Value(smaller[..])
    ensures fresh(magnitude) && magnitude.Length == larger.Length
    ensures borrow == 0 && Value(magnitude[..]) == Value(larger[..]) - Value(smaller[..])
  {
    magnitude := new Word[larger.Length](_ => 0);
    borrow := 0;
    for i := 0 to larger.Length
      invariant borrow <= 1
      invariant Value(magnitude[..i]) + Value(smaller[..i]) == Value(larger[..i]) + borrow * Weight(i)
    {
      ghost var before := magnitude[..i];
      var d, out := SubtractLimb(larger[i], smaller[i], borrow);
      ValueSnoc(larger[..], i);
      ValueSnoc(smaller[..], i);
      BorrowMoves(larger[i], smaller[i], d, borrow, out, Weight(i));
      magnitude[i] := d;
      assert magnitude[..i] == before;
      ValueSnoc(magnitude[..], i);
      assert larger[..][..i] == larger[..i] && larger[..][..i + 1] == larger[..i + 1];
      assert smaller[..][..i] == smaller[..i] && smaller[..][..i + 1] == smaller[..i + 1];
      assert magnitude[..][..i] == magnitude[..i] && magnitude[..][..i + 1] == magnitude[..i + 1];
      borrow := out;
    }
    assert larger[..larger.Length] == larger[..] && smaller[..larger.Length] == smaller[..];
    assert magnitude[..larger.Length] == magnitude[..];
    ValueBound(magnitude[..]);
    NoBorrow(Value(magnitude[..]), Value(smaller[..]), Value(larger[..]), borrow, Weight(larger.Length));
  }

  lemma NoBorrow(m: nat, s: nat, l: nat, borrow: nat, weight: nat)
    requires m + s == l + borrow * weight && l >= s && m < weight && borrow <= 1
    ensures borrow == 0
  {
  }

  lemma BorrowMoves(x: int, y: int, d: int, b: int, out: int, weight: int)
    requires d == x - y - b + BASE * out
    ensures d * weight + y * weight + b * weight == x * weight + out * (BASE * weight)
  {
    assert (d + y + b) * weight == (x + BASE * out) * weight;
  }

  /** Leading zero limbs do not count. */
  lemma LeadingZeros(s: seq<Word>, n: nat)
    requires n <= |s| && forall i :: n <= i < |s| ==> s[i] == 0
    ensures Value(s) == Value(s[..n])
  {
    assert s == s[..n] + s[n..];
    ValueAppend(s[..n], s[n..]);
    ValueOfZeros(s[n..]);
  }

  /** Position of the leading bit of a nonzero number: its limb and the bit within the limb. */
  method LeadingPosition(magnitude: array<Word>) returns (limb: nat, bit: nat)
    requires Value(magnitude[..]) > 0
    ensures limb < magnitude.Length && bit < 64
    ensures Pow2(64 * limb + bit) <= Value(magnitude[..]) < Pow2(64 * limb + bit + 1)
  {
    limb := magnitude.Length;
    while limb > 0 && magnitude[limb - 1] == 0
      invariant 0 <= limb <= magnitude.Length
      invariant forall i :: limb <= i < magnitude.Length ==> magnitude[i] == 0
    {
      limb := limb - 1;
    }
    LeadingZeros(magnitude[..], limb);
    assert limb != 0;
    limb := limb - 1;
    bit := LeadingBit(magnitude[limb]);
    LeadingFound(magnitude[..], limb, bit);
  }

  lemma LeadingFound(words: seq<Word>, limb: nat, bit: nat)
    requires limb < |words| && Pow2(bit) <= words[limb] < Pow2(bit + 1)
    requires forall i :: limb + 1 <= i < |words| ==> words[i] == 0
    ensures Pow2(64 * limb + bit) <= Value(words) < Pow2(64 * limb + bit + 1)
  {
    LeadingZeros(words, limb + 1);
    ValueSnoc(words, limb);
    ValueBound(words[..limb]);
    LeadingBounds(Value(words[..limb]), words[limb], bit, limb);
  }

  lemma LeadingBounds(low: nat, word: nat, bit: nat, limb: nat)
    requires low < Weight(limb) && Pow2(bit) <= word < Pow2(bit + 1)
    ensures Pow2(64 * limb + bit) <= low + word * Weight(limb) < Pow2(64 * limb + bit + 1)
  {
    WeightIsPower(limb);
    Pow2Add(64 * limb, bit);
    Pow2Add(64 * limb, bit + 1);
    WordBounds(low, word, Pow2(bit), Pow2(bit + 1), Weight(limb));
  }

  lemma WordBounds(low: nat, word: nat, least: nat, bound: nat, weight: nat)
    requires low < weight && least <= word < bound
    ensures weight * least <= low + word * weight < weight * bound
  {
    MulMonotone(least, word, weight);
    MulMonotone(word + 1, bound, weight);
  }

  method LeadingBit(word: Word) returns (bit: nat)
    requires word > 0
    ensures bit < 64 && Pow2(bit) <= word < Pow2(bit + 1)
  {
    bit := 63;
    BaseIsPower();
    while ShiftRight(word, bit) % 2 == 0
      invariant bit < 64 && word < Pow2(bit + 1)
      decreases bit
    {
      ShiftRightBounds(word, bit);
      BitAt(word, ShiftRight(word, bit), Pow2(bit));
      assert bit != 0;
      bit := bit - 1;
    }
    ShiftRightBounds(word, bit);
    BitAt(word, ShiftRight(word, bit), Pow2(bit));
  }

  lemma BitAt(word: nat, q: nat, p: nat)
    requires q * p <= word < q * p + p && word < 2 * p
    ensures q <= 1 && (q % 2 == 1 <==> word >= p)
  {
    if q >= 2 {
      MulMonotone(2, q, p);
    }
  }
}
