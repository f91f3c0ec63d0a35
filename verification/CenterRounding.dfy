/** Exact integer units of binary64 inputs, and correct rounding of the rational center. */
module CenterRounding {
  import opened Powers
  import opened Binary64

  // ---- decoding ----

  const INT_MAX := 0x7fff_ffff

  function TrailingZeros(n: nat): (k: nat)
    requires n > 0
    ensures ShiftRight(n, k) * Pow2(k) == n
  {
    if n % 2 == 1 then 0
    else
      var k := TrailingZeros(n / 2);
      DoubleProduct(ShiftRight(n / 2, k), Pow2(k), n);
      k + 1
  }

  /** What is left after the trailing zeros is odd. */
  lemma {:induction false} TrailingZerosAreAll(n: nat)
    requires n > 0
    ensures ShiftRight(n, TrailingZeros(n)) % 2 == 1
  {
    if n % 2 == 0 {
      TrailingZerosAreAll(n / 2);
    }
  }

  lemma DoubleProduct(a: nat, p: nat, n: nat)
    requires n % 2 == 0 && a * p == n / 2
    ensures a * (2 * p) == n
  {
  }

  /** Index of the lowest set bit of the value in units of 2^-1074; INT_MAX for zero. */
  function LowBit(bits: nat): int {
    if Significand(bits) == 0 then INT_MAX else UnitShift(bits) + TrailingZeros(Significand(bits))
  }

  /** A value is an odd multiple of the power at its low bit. */
  lemma LowBitIsLowest(bits: nat) returns (m: nat)
    requires bits > 0
    ensures m % 2 == 1 && LowBit(bits) >= 0 && Units(bits) == m * Pow2(LowBit(bits))
  {
    var significand, shift := Significand(bits), UnitShift(bits);
    var k := TrailingZeros(significand);
    TrailingZerosAreAll(significand);
    ShiftLeftIsProduct(significand, shift);
    Pow2Add(k, shift);
    m := ShiftRight(significand, k);
    RegroupPowers(m, Pow2(k), Pow2(shift), Pow2(k + shift));
  }

  lemma RegroupPowers(m: nat, a: nat, b: nat, ab: nat)
    requires ab == a * b
    ensures m * a * b == m * ab
  {
  }

  /** significand * 2^shift, dropping bits when the shift is negative. */
  function Shifted(significand: nat, shift: int): nat {
    if shift >= 0 then ShiftLeft(significand, shift) else ShiftRight(significand, -shift)
  }

  /** The value in units of 2^(removed - 1074). */
  function IntegerUnits(bits: nat, removed: int): nat {
    Shifted(Significand(bits), UnitShift(bits) - removed)
  }

  /** Removing only common zero bits loses nothing: the integer units carry the exact value. */
  lemma IntegerUnitsExact(bits: nat, removed: int)
    requires removed >= -1 && (Significand(bits) != 0 ==> removed <= LowBit(bits))
    ensures IntegerUnits(bits, removed) * Pow2(removed + 1) == 2 * Units(bits)
  {
    ShiftedExact(Significand(bits), UnitShift(bits), removed);
    ShiftLeftIsProduct(Significand(bits), UnitShift(bits));
  }

  lemma ShiftedExact(sig: nat, u: nat, removed: int)
    requires removed >= -1 && (sig > 0 ==> removed <= u + TrailingZeros(sig))
    ensures Shifted(sig, u - removed) * Pow2(removed + 1) == 2 * (sig * Pow2(u))
  {
    if u >= removed {
      ShiftLeftIsProduct(sig, u - removed);
      Pow2Add(u - removed, removed + 1);
      Regroup(sig, Pow2(u - removed), Pow2(removed + 1), Pow2(u));
    } else {
      var m := DropZeros(sig, removed - u);
      ShiftRightExact(m, removed - u);
      Pow2Add(removed - u, u + 1);
      RegroupDropped(m, Pow2(removed - u), Pow2(u), Pow2(removed + 1), sig);
    }
  }

  lemma Regroup(sig: nat, a: nat, b: nat, p: nat)
    requires a * b == 2 * p
    ensures sig * a * b == 2 * (sig * p)
  {
    MulAssociate(sig, a, b);
  }

  lemma RegroupDropped(m: nat, drop: nat, p: nat, all: nat, sig: nat)
    requires all == drop * (2 * p) && sig == m * drop
    ensures m * all == 2 * (sig * p)
  {
    MulAssociate(m, drop, 2 * p);
  }

  lemma MulAssociate(a: nat, b: nat, c: nat)
    ensures a * b * c == a * (b * c)
  {
  }

  lemma DropZeros(sig: nat, drop: nat) returns (m: nat)
    requires sig > 0 ==> drop <= TrailingZeros(sig)
    ensures sig == m * Pow2(drop)
  {
    if sig == 0 {
      m := 0;
    } else {
      var z := TrailingZeros(sig);
      var q := ShiftRight(sig, z);
      Pow2Add(z - drop, drop);
      m := SplitFactor(q, Pow2(z - drop), Pow2(drop), Pow2(z));
    }
  }

  lemma SplitFactor(q: nat, a: nat, b: nat, c: nat) returns (m: nat)
    requires c == a * b
    ensures q * c == m * b
  {
    m := q * a;
  }

  /** Keeping one factor of two below the low bit leaves the integer even. */
  lemma IntegerUnitsEven(bits: nat, removed: int)
    requires removed >= -1 && Significand(bits) != 0 && removed < LowBit(bits)
    ensures IntegerUnits(bits, removed) % 2 == 0
  {
    IntegerUnitsExact(bits, removed);
    IntegerUnitsExact(bits, removed + 1);
    EvenByDoubling(IntegerUnits(bits, removed), IntegerUnits(bits, removed + 1), Pow2(removed + 1), Pow2(removed + 2));
  }

  lemma EvenByDoubling(a: nat, b: nat, p: nat, p': nat)
    requires p > 0 && p' == 2 * p && a * p == b * p'
    ensures a % 2 == 0
  {
    MulCancel(a, 2 * b, p);
  }

  // ---- rounding ----

  datatype Rounded = Finite(bits: nat) | Overflow

  /** Index of the most significant bit. */
  function Msb(n: nat): (k: nat)
    requires n > 0
    ensures Pow2(k) <= n < 2 * Pow2(k)
  {
    if n == 1 then 0 else Msb(n / 2) + 1
  }

  function RatioExponent(num: nat, den: nat): int
    requires num > 0 && den > 0
  {
    var r: int := Msb(num) as int - Msb(den);
    if r >= 0 then if num < den * Pow2(r) then r - 1 else r
    else if num * Pow2(-r) < den then r - 1 else r
  }

  lemma PowerIdentity(a: nat, b: nat, r: int)
    requires r == a - b
    ensures Pow2(a) * Down(r) == Pow2(b) * Up(r)
  {
    if r >= 0 {
      Pow2Add(b, r);
    } else {
      Pow2Add(a, -r);
    }
  }

  lemma RatioExponentChoice(num: nat, den: nat, r: int)
    requires num > 0 && den > 0 && r == Msb(num) - Msb(den)
    ensures RatioExponent(num, den) == if AtLeastPower(num, den, r) then r else r - 1
  {
    assert if r >= 0 then Up(r) == Pow2(r) && Down(r) == 1 else Up(r) == 1 && Down(r) == Pow2(-r);
  }

  /** The ratio exponent is the binary exponent of num/den. */
  lemma RatioExponentBrackets(num: nat, den: nat)
    requires num > 0 && den > 0
    ensures AtLeastPower(num, den, RatioExponent(num, den))
    ensures !AtLeastPower(num, den, RatioExponent(num, den) + 1)
  {
    var a: int, b: int := Msb(num), Msb(den);
    var r := a - b;
    PowerIdentity(a + 1, b, r + 1);
    PowerBelow(num, den, Pow2(a + 1), Pow2(b), Down(r + 1), Up(r + 1));
    PowerIdentity(a, b + 1, r - 1);
    PowerAbove(num, den, Pow2(a), Pow2(b + 1), Down(r - 1), Up(r - 1));
    RatioExponentChoice(num, den, r);
  }

  lemma PowerBelow(num: nat, den: nat, above: nat, below: nat, down: nat, up: nat)
    requires num < above && below <= den && above * down == below * up && down > 0
    ensures !(den * up <= num * down)
  {
    MulStrict(num, above, down);
    MulMonotone(below, den, up);
  }

  lemma PowerAbove(num: nat, den: nat, below: nat, above: nat, down: nat, up: nat)
    requires below <= num && den <= above && below * down == above * up
    ensures den * up <= num * down
  {
    MulMonotone(below, num, down);
    MulMonotone(den, above, up);
  }

  function SpacingExponent(num: nat, den: nat, quantum: int): int
    requires num > 0 && den > 0
  {
    var e := RatioExponent(num, den) + quantum - 52;
    if e >= -1074 then e else -1074
  }

  function RoundHalfEven(n: nat, d: nat): nat
    requires d > 0
  {
    var q := Quotient(n, d);
    var r := n - q * d;
    if 2 * r > d || (2 * r == d && q % 2 == 1) then q + 1 else q
  }

  function ScaledNumerator(num: nat, shift: int): nat {
    if shift >= 0 then ShiftLeft(num, shift) else num
  }

  function ScaledDenominator(den: nat, shift: int): (d: nat)
    ensures den > 0 ==> d > 0
  {
    ShiftKeepsPositive(den, if shift >= 0 then 0 else -shift);
    if shift >= 0 then den else ShiftLeft(den, -shift)
  }

  lemma ShiftKeepsPositive(n: nat, k: nat)
    ensures n > 0 ==> ShiftLeft(n, k) > 0
    decreases k
  {
    if k > 0 {
      ShiftKeepsPositive(2 * n, k - 1);
    }
  }

  lemma ScaledDenominatorIsProduct(den: nat, shift: int)
    ensures ScaledDenominator(den, shift) == den * Down(shift)
  {
    if shift < 0 {
      ShiftLeftIsProduct(den, -shift);
    }
  }

  lemma ScaledNumeratorIsProduct(num: nat, shift: int)
    ensures ScaledNumerator(num, shift) == num * Up(shift)
  {
    if shift >= 0 {
      ShiftLeftIsProduct(num, shift);
    }
  }

  /** Round (num/den) * 2^quantum to binary64, ties to even. */
  function RoundCenterRational(num: nat, den: nat, quantum: int): Rounded
    requires den > 0
  {
    if num == 0 then Finite(0)
    else
      var spacing := SpacingExponent(num, den, quantum);
      var shift := quantum - spacing;
      var significand := RoundHalfEven(ScaledNumerator(num, shift), ScaledDenominator(den, shift));
      var bits := Assemble(significand, spacing + 1074);
      if bits >= INFINITY then Overflow else Finite(bits)
  }

  /** The rounded pattern; an overflow is the pattern of infinity. */
  function RoundedBits(num: nat, den: nat, quantum: int): nat
    requires den > 0
  {
    match RoundCenterRational(num, den, quantum)
    case Finite(bits) => bits
    case Overflow => INFINITY
  }

  /** x lies within half a unit of n/d rounded, at exactly half only when that is even. */
  ghost predicate HalfEvenOf(q: nat, x: real) {
    && 2.0 * x <= (2 * q + 1) as real && (2.0 * x == (2 * q + 1) as real ==> q % 2 == 0)
    && (2 * q - 1) as real <= 2.0 * x && (2.0 * x == (2 * q - 1) as real ==> q % 2 == 0)
  }

  lemma CastProduct(a: int, b: int)
    ensures (a * b) as real == a as real * b as real
  {
  }

  /** Integer comparison of n with multiples of d locates x = n/d. */
  lemma CompareQuotient(x: real, d: nat, n: nat, a: int)
    requires d > 0 && x * d as real == n as real
    ensures a as real <= x <==> a * d <= n
    ensures a as real == x <==> a * d == n
  {
    CastProduct(a, d);
    ScaleOrderReal(a as real, x, d as real);
  }

  lemma OddMultiples(q: nat, d: nat, qd: nat)
    requires qd == q * d
    ensures (2 * q + 1) * d == 2 * qd + d
    ensures (2 * q - 1) * d == 2 * qd - d
    ensures (q + 1) * d == qd + d
  {
  }

  lemma HalfEvenMultiples(n: nat, d: nat)
    requires d > 0
    ensures var q := RoundHalfEven(n, d);
      && 2 * n <= (2 * q + 1) * d && (2 * n == (2 * q + 1) * d ==> q % 2 == 0)
      && (2 * q - 1) * d <= 2 * n && (2 * n == (2 * q - 1) * d ==> q % 2 == 0)
  {
    var q := Quotient(n, d);
    HalfEvenChoice(n, d, q, q * d, RoundHalfEven(n, d));
  }

  lemma HalfEvenChoice(n: nat, d: nat, q: nat, qd: nat, rounded: nat)
    requires qd == q * d && qd <= n < qd + d
    requires rounded == if 2 * (n - qd) > d || (2 * (n - qd) == d && q % 2 == 1) then q + 1 else q
    ensures 2 * n <= (2 * rounded + 1) * d && (2 * n == (2 * rounded + 1) * d ==> rounded % 2 == 0)
    ensures (2 * rounded - 1) * d <= 2 * n && (2 * n == (2 * rounded - 1) * d ==> rounded % 2 == 0)
  {
    OddMultiples(q, d, qd);
    OddMultiples(rounded, d, if rounded == q then qd else qd + d);
  }

  lemma RoundHalfEvenIsHalfEven(n: nat, d: nat, x: real)
    requires d > 0 && x * d as real == n as real
    ensures HalfEvenOf(RoundHalfEven(n, d), x)
  {
    HalfEvenMultiples(n, d);
    HalfEvenFromMultiples(n, d, x, RoundHalfEven(n, d));
  }

  lemma HalfEvenFromMultiples(n: nat, d: nat, x: real, q: nat)
    requires d > 0 && x * d as real == n as real
    requires 2 * n <= (2 * q + 1) * d && (2 * n == (2 * q + 1) * d ==> q % 2 == 0)
    requires (2 * q - 1) * d <= 2 * n && (2 * n == (2 * q - 1) * d ==> q % 2 == 0)
    ensures HalfEvenOf(q, x)
  {
    HalfEvenWithin(n, d, x, q, 2 * q + 1, 2 * q - 1, (2 * q + 1) * d, (2 * q - 1) * d);
  }

  lemma HalfEvenWithin(n: nat, d: nat, x: real, q: nat, above: int, below: int, high: int, low: int)
    requires d > 0 && x * d as real == n as real && above == 2 * q + 1 && below == 2 * q - 1
    requires high == above * d && 2 * n <= high && (2 * n == high ==> q % 2 == 0)
    requires low == below * d && low <= 2 * n && (2 * n == low ==> q % 2 == 0)
    ensures HalfEvenOf(q, x)
  {
    DoubledQuotient(x, d, n);
    CompareQuotient(2.0 * x, d, 2 * n, above);
    CompareQuotient(2.0 * x, d, 2 * n, below);
  }

  lemma DoubledQuotient(x: real, d: nat, n: nat)
    requires x * d as real == n as real
    ensures (2.0 * x) * d as real == (2 * n) as real
  {
  }

  lemma ScaleOrderReal(u: real, v: real, k: real)
    requires k > 0.0
    ensures u <= v <==> u * k <= v * k
    ensures u == v <==> u * k == v * k
  {
  }

  /** The scaled quotient has at most 53 bits, and exactly 53 unless the result is subnormal. */
  lemma ScaledQuotientRange(num: nat, den: nat, quantum: int, spacing: int, shift: int, n: nat, d: nat, x: real)
    requires num > 0 && den > 0 && spacing == SpacingExponent(num, den, quantum) && shift == quantum - spacing
    requires n == num * Up(shift) && d == den * Down(shift) && d > 0 && x * d as real == n as real
    ensures 0.0 <= x < (2 * HIDDEN) as real && (spacing > -1074 ==> x >= HIDDEN as real)
  {
    var re := RatioExponent(num, den);
    assert AtLeastPower(n, d, shift + re) && !AtLeastPower(n, d, shift + (re + 1)) by {
      RatioExponentBrackets(num, den);
      ShiftPower(num, den, re, shift);
      ShiftPower(num, den, re + 1, shift);
    }
    ScaledQuotientBounds(n, d, shift + re, x);
  }

  lemma ScaledQuotientBounds(n: nat, d: nat, e: int, x: real)
    requires e <= 52 && AtLeastPower(n, d, e) && !AtLeastPower(n, d, e + 1) && d > 0 && x * d as real == n as real
    ensures 0.0 <= x < (2 * HIDDEN) as real && (e == 52 ==> x >= HIDDEN as real)
  {
    BelowPower(n, d, e + 1, 53);
    HiddenIsPower();
    CompareQuotient(x, d, n, 0);
    CompareQuotient(x, d, n, Pow2(52));
    CompareQuotient(x, d, n, Pow2(53));
  }

  lemma SpacedQuotientRange(num: nat, den: nat, quantum: int, spacing: int, shift: int, n: nat, d: nat, x: real)
    requires num > 0 && den > 0 && spacing == SpacingExponent(num, den, quantum) && shift == quantum - spacing
    requires n == ScaledNumerator(num, shift) && d == ScaledDenominator(den, shift) && x * d as real == n as real
    ensures 0.0 <= x < (2 * HIDDEN) as real && (spacing > -1074 ==> x >= HIDDEN as real)
  {
    ScaledNumeratorIsProduct(num, shift);
    ScaledDenominatorIsProduct(den, shift);
    ScaledQuotientRange(num, den, quantum, spacing, shift, n, d, x);
  }

  lemma BelowPower(n: nat, d: nat, e: int, k: nat)
    requires e <= k && n * Down(e) < d * Up(e)
    ensures n < d * Pow2(k)
  {
    if e >= 0 {
      Pow2Monotone(e, k);
      MulMonotone(Pow2(e), Pow2(k), d);
    } else {
      MulGrows(n, Down(e));
      MulGrows(d, Pow2(k));
    }
  }

  /** The exact value is the scaled quotient times the spacing. */
  lemma ExactAsQuotient(num: nat, den: nat, shift: int, k: nat, n: nat, d: nat, t: real) returns (x: real)
    requires den > 0 && n == ScaledNumerator(num, shift) && d == ScaledDenominator(den, shift)
    requires t == Exact(num, den, shift + k)
    ensures x * d as real == n as real
    ensures t == x * Pow2(k) as real
  {
    ScaledNumeratorIsProduct(num, shift);
    ScaledDenominatorIsProduct(den, shift);
    UpDown(shift, k);
    x := QuotientValue(num, den, Up(shift), Down(shift), Pow2(k), Up(shift + k), Down(shift + k), n, d);
  }

  lemma QuotientValue(num: nat, den: nat, us: nat, ds: nat, p: nat, ut: nat, dt: nat, n: nat, d: nat) returns (x: real)
    requires den > 0 && ds > 0 && dt > 0 && us * p * dt == ds * ut && n == num * us && d == den * ds
    ensures x * d as real == n as real
    ensures x * p as real == (num * ut) as real / (den * dt) as real
  {
    ExactCross(num, den, us, ds, p, ut, dt);
    PositiveNat(den, ds);
    PositiveNat(den, dt);
    x := n as real / d as real;
    QuotientScale(n, d, p, num * ut, den * dt, x);
  }

  lemma PositiveNat(a: nat, b: nat)
    requires a > 0 && b > 0
    ensures a * b > 0
  {
  }

  lemma ExactCross(num: nat, den: nat, us: nat, ds: nat, p: nat, ut: nat, dt: nat)
    requires us * p * dt == ds * ut
    ensures (num * us) * p * (den * dt) == (num * ut) * (den * ds)
  {
    assert (num * us) * p * (den * dt) == num * den * (us * p * dt);
    assert (num * ut) * (den * ds) == num * den * (ds * ut);
  }

  lemma QuotientScale(n: nat, d: nat, p: nat, N: nat, D: nat, x: real)
    requires d > 0 && D > 0 && n * p * D == N * d && x == n as real / d as real
    ensures x * d as real == n as real
    ensures x * p as real == N as real / D as real
  {
    var y := x * p as real;
    assert x * d as real == n as real;
    assert (n * p * D) as real == (N * d) as real;
    assert y * D as real * d as real == N as real * d as real by {
      assert y * D as real * d as real == (x * d as real) * (p as real * D as real);
      assert (n * p * D) as real == n as real * (p as real * D as real);
      assert (N * d) as real == N as real * d as real;
    }
    CancelReal(y * D as real, N as real, d as real);
    assert y == N as real / D as real;
  }

  lemma CancelReal(a: real, b: real, k: real)
    requires k > 0.0 && a * k == b * k
    ensures a == b
  {
  }

  // ---- the rounding theorem ----

  lemma HighSum(q: nat, k: nat, p: nat, bits: nat, high: int)
    requires q <= 2 * HIDDEN && (k > 0 ==> q >= HIDDEN) && bits == Assemble(q, k)
    requires p == Pow2(k) && high == Middle(bits)
    ensures if q < 2 * HIDDEN then high == (2 * q + 1) * p else high > 2 * q * p
    ensures bits % 2 == q % 2
  {
    AssembleUnits(q, k);
    AssembleParity(q, k);
    UnitsStep(bits);
    AddOdd(q, p, q * p + p);
  }

  lemma LowSum(q: nat, k: nat, p: nat, bits: nat, low: int)
    requires q <= 2 * HIDDEN && (k > 0 ==> q >= HIDDEN) && bits == Assemble(q, k) && bits > 0
    requires p == Pow2(k) && low == Middle(bits - 1)
    ensures if k > 0 && q == HIDDEN then low < 2 * q * p else low == (2 * q - 1) * p
    ensures bits % 2 == q % 2
  {
    AssembleUnits(q, k);
    AssembleParity(q, k);
    if k > 0 && q == HIDDEN {
      UnitsStep(bits - 1);
    } else {
      AssembleUnits(q - 1, k);
      PreviousPattern(q, k);
      AddOdd(q - 1, p, q * p);
    }
  }

  lemma PreviousPattern(q: nat, k: nat)
    requires q > 0 && Assemble(q, k) > 0
    ensures Assemble(q, k) - 1 == Assemble(q - 1, k)
  {
  }

  lemma AddOdd(q: nat, p: nat, next: nat)
    requires next == q * p + p || next == (q + 1) * p
    ensures q * p + next == (2 * q + 1) * p
  {
  }

  lemma AssembleParity(q: nat, k: nat)
    ensures Assemble(q, k) % 2 == q % 2
  {
  }

  lemma ScaledMidpoint(a: int, p: nat, x: real, t: real)
    requires p > 0 && t == x * p as real
    ensures 2.0 * x <= a as real <==> 2.0 * t <= (a * p) as real
    ensures 2.0 * x == a as real <==> 2.0 * t == (a * p) as real
  {
    ScaleOrderReal(2.0 * x, a as real, p as real);
    assert 2.0 * x * p as real == 2.0 * t;
    assert (a * p) as real == a as real * p as real;
  }

  lemma HighMidpoint(q: nat, k: nat, x: real, t: real, p: nat, bits: nat, high: int)
    requires q <= 2 * HIDDEN && (k > 0 ==> q >= HIDDEN) && bits == Assemble(q, k)
    requires p == Pow2(k) && high == Middle(bits)
    requires HalfEvenOf(q, x) && x < (2 * HIDDEN) as real && t == x * p as real
    ensures 2.0 * t <= high as real && (2.0 * t == high as real ==> bits % 2 == 0)
  {
    HighSum(q, k, p, bits, high);
    HighIsAbove(q, p, x, t, high, q == 2 * HIDDEN);
  }

  lemma HighIsAbove(q: nat, p: nat, x: real, t: real, high: int, carried: bool)
    requires p > 0 && HalfEvenOf(q, x) && t == x * p as real && (carried ==> x < q as real)
    requires if carried then high > 2 * q * p else high == (2 * q + 1) * p
    ensures 2.0 * t <= high as real && (2.0 * t == high as real ==> q % 2 == 0)
  {
    if carried {
      ScaledMidpoint(2 * q, p, x, t);
    } else {
      ScaledMidpoint(2 * q + 1, p, x, t);
    }
  }

  lemma LowMidpoint(q: nat, k: nat, x: real, t: real, p: nat, bits: nat, low: int)
    requires q <= 2 * HIDDEN && (k > 0 ==> q >= HIDDEN && x >= HIDDEN as real) && bits == Assemble(q, k) && bits > 0
    requires p == Pow2(k) && low == Middle(bits - 1) && HalfEvenOf(q, x) && t == x * p as real
    ensures low as real <= 2.0 * t && (low as real == 2.0 * t ==> bits % 2 == 0)
  {
    LowSum(q, k, p, bits, low);
    LowIsBelow(q, p, x, t, low, k > 0 && q == HIDDEN);
  }

  lemma LowIsBelow(q: nat, p: nat, x: real, t: real, low: int, leastNormal: bool)
    requires p > 0 && HalfEvenOf(q, x) && t == x * p as real && (leastNormal ==> x >= q as real)
    requires if leastNormal then low < 2 * q * p else low == (2 * q - 1) * p
    ensures low as real <= 2.0 * t && (low as real == 2.0 * t ==> q % 2 == 0)
  {
    if leastNormal {
      BelowLeastNormal(q, p, x, t, low);
    } else {
      BelowMidpoint(q, p, x, t, low);
    }
  }

  lemma BelowMidpoint(q: nat, p: nat, x: real, t: real, low: int)
    requires p > 0 && HalfEvenOf(q, x) && t == x * p as real && low == (2 * q - 1) * p
    ensures low as real <= 2.0 * t && (low as real == 2.0 * t ==> q % 2 == 0)
  {
    ScaledMidpoint(2 * q - 1, p, x, t);
  }

  lemma BelowLeastNormal(q: nat, p: nat, x: real, t: real, low: int)
    requires p > 0 && x >= q as real && t == x * p as real && low < 2 * q * p
    ensures low as real < 2.0 * t
  {
    ScaledMidpoint(2 * q, p, x, t);
  }

  /** Rounding the quotient x half to even, then scaling by a spacing, stays between the midpoints to the neighbours. */
  lemma SpacedMidpoints(q: nat, k: nat, x: real, t: real, p: nat, bits: nat)
    requires HalfEvenOf(q, x) && 0.0 <= x < (2 * HIDDEN) as real && (k > 0 ==> x >= HIDDEN as real)
    requires p == Pow2(k) && t == x * p as real && bits == Assemble(q, k)
    ensures BetweenMidpoints(bits, t)
  {
    HighMidpoint(q, k, x, t, p, bits, Middle(bits));
    if bits > 0 {
      LowMidpoint(q, k, x, t, p, bits, Middle(bits - 1));
    }
  }

  /** Halfway between the largest finite value and 2^1024: where rounding to nearest overflows. */
  ghost function OverflowThreshold(): real {
    (Units(INFINITY - 1) + Units(INFINITY)) as real / 2.0
  }

  /**
   * RoundCenterRational returns the binary64 nearest to (num/den)*2^quantum, ties to even, subnormal results
   * and the carry to 2^53 included; it overflows exactly when the value reaches the overflow threshold.
   */
  lemma RoundIsNearestEven(num: nat, den: nat, quantum: int)
    requires den > 0
    ensures var t := Exact(num, den, quantum + 1074);
      match RoundCenterRational(num, den, quantum)
      case Finite(bits) => NearestEven(bits, t) && t < OverflowThreshold()
      case Overflow => t >= OverflowThreshold()
  {
    var t := Exact(num, den, quantum + 1074);
    ExactNonNegative(num, den, quantum + 1074);
    if num == 0 {
      ZeroBetweenMidpoints();
      OverflowByMidpoints(0, t);
    } else {
      var spacing := SpacingExponent(num, den, quantum);
      var shift := quantum - spacing;
      var n, d := ScaledNumerator(num, shift), ScaledDenominator(den, shift);
      RoundedMidpoints(num, den, quantum, spacing, shift, n, d, spacing + 1074, t);
      OverflowByMidpoints(Assemble(RoundHalfEven(n, d), spacing + 1074), t);
    }
  }

  lemma ExactNonNegative(num: nat, den: nat, e: int)
    requires den > 0
    ensures Exact(num, den, e) >= 0.0 && (num == 0 ==> Exact(num, den, e) == 0.0)
  {
    NonNegativeQuotient(num * Up(e), den * Down(e));
  }

  lemma NonNegativeQuotient(a: nat, b: nat)
    requires b > 0
    ensures a as real / b as real >= 0.0
  {
  }

  lemma RoundedMidpoints(num: nat, den: nat, quantum: int, spacing: int, shift: int, n: nat, d: nat, k: nat, t: real)
    requires num > 0 && den > 0 && spacing == SpacingExponent(num, den, quantum) && shift == quantum - spacing
    requires n == ScaledNumerator(num, shift) && d == ScaledDenominator(den, shift) && d > 0
    requires k == spacing + 1074 && t == Exact(num, den, shift + k)
    ensures BetweenMidpoints(Assemble(RoundHalfEven(n, d), k), t)
  {
    var x := ExactAsQuotient(num, den, shift, k, n, d, t);
    SpacedMidpointsOf(num, den, quantum, spacing, shift, n, d, k, Pow2(k), x, t);
  }

  lemma SpacedMidpointsOf(num: nat, den: nat, quantum: int, spacing: int, shift: int, n: nat, d: nat, k: nat, p: nat,
                          x: real, t: real)
    requires num > 0 && den > 0 && spacing == SpacingExponent(num, den, quantum) && shift == quantum - spacing
    requires n == ScaledNumerator(num, shift) && d == ScaledDenominator(den, shift) && d > 0
    requires x * d as real == n as real && k == spacing + 1074 && p == Pow2(k) && t == x * p as real
    ensures BetweenMidpoints(Assemble(RoundHalfEven(n, d), k), t)
  {
    SpacedQuotientRange(num, den, quantum, spacing, shift, n, d, x);
    QuotientMidpoints(n, d, k, p, x, t);
  }

  lemma QuotientMidpoints(n: nat, d: nat, k: nat, p: nat, x: real, t: real)
    requires d > 0 && x * d as real == n as real && p == Pow2(k) && t == x * p as real
    requires 0.0 <= x < (2 * HIDDEN) as real && (k > 0 ==> x >= HIDDEN as real)
    ensures BetweenMidpoints(Assemble(RoundHalfEven(n, d), k), t)
  {
    RoundHalfEvenIsHalfEven(n, d, x);
    SpacedMidpoints(RoundHalfEven(n, d), k, x, t, p, Assemble(RoundHalfEven(n, d), k));
  }

  lemma ZeroBetweenMidpoints()
    ensures BetweenMidpoints(0, 0.0)
  {
  }

  lemma OverflowByMidpoints(bits: nat, t: real)
    requires BetweenMidpoints(bits, t) && t >= 0.0
    ensures bits < INFINITY ==> NearestEven(bits, t) && t < OverflowThreshold()
    ensures bits >= INFINITY ==> t >= OverflowThreshold()
  {
    if bits < INFINITY {
      NeighboursSuffice(bits, t);
      if bits < INFINITY - 1 {
        UnitsIncrease(bits, INFINITY - 1);
        UnitsIncrease(bits + 1, INFINITY);
      }
    } else if bits > INFINITY {
      UnitsIncrease(INFINITY, bits);
      UnitsIncrease(INFINITY - 1, bits - 1);
    }
  }

  lemma WholeIsExact(n: nat)
    ensures Exact(n, 1, 0) == n as real
  {
  }

  lemma BelowBoxDoesNotOverflow(box: nat, c: real)
    requires box < INFINITY && c < Units(box) as real
    ensures c < OverflowThreshold()
  {
    UnitsIncrease(box, INFINITY);
    if box < INFINITY - 1 {
      UnitsIncrease(box, INFINITY - 1);
    }
  }

  /** Rounding a value returns it. */
  lemma ValueIsExact(bits: nat)
    requires bits < INFINITY
    ensures RoundCenterRational(Units(bits), 1, -1074) == Finite(bits)
  {
    var t := Units(bits) as real;
    RoundIsNearestEven(Units(bits), 1, -1074);
    WholeIsExact(Units(bits));
    NearestToItself(bits);
    UnitsIncrease(bits, INFINITY);
    BelowNextDoesNotOverflow(bits);
    NearestEvenUnique(RoundCenterRational(Units(bits), 1, -1074).bits, bits, t);
  }

  lemma BelowNextDoesNotOverflow(bits: nat)
    requires bits < INFINITY
    ensures (Units(bits) as real) < OverflowThreshold()
  {
    UnitsIncrease(INFINITY - 1, INFINITY);
    if bits < INFINITY - 1 {
      UnitsIncrease(bits, INFINITY - 1);
    }
  }
}
