/** IEEE 754 binary64 magnitudes by their raw bits, as integers in units of 2^-1074, and rounding to nearest even. */
module Binary64 {
  import opened Powers

  /** 2^52: the weight of the hidden bit, and the number of raw patterns per binade. */
  const HIDDEN := 0x10_0000_0000_0000

  /** Raw bits of positive infinity; finite magnitudes are the patterns below it. */
  const INFINITY := 2047 * HIDDEN

  /** A binary64 value by sign and raw magnitude bits; magnitudes from INFINITY on are not finite. */
  datatype Double = Double(negative: bool, bits: nat)
  {
    predicate IsFinite() {
      bits < INFINITY
    }

    predicate IsPositive() {
      !negative && 0 < bits < INFINITY
    }
  }

  const POSITIVE_ZERO := Double(false, 0)

  datatype Vec3<T> = Vec3(x: T, y: T, z: T)

  function Significand(bits: nat): nat {
    bits % HIDDEN + if bits / HIDDEN == 0 then 0 else HIDDEN
  }

  function UnitShift(bits: nat): nat {
    var exponent := bits / HIDDEN;
    if exponent == 0 then 0 else exponent - 1
  }

  /** The value in units of 2^-1074; the pattern of infinity stands for 2^1024. */
  function Units(bits: nat): nat {
    ShiftLeft(Significand(bits), UnitShift(bits))
  }

  /** The signed value in units of 2^-1074. */
  function SignedUnits(d: Double): int {
    var units: int := Units(d.bits);
    if d.negative then -units else units
  }

  lemma HiddenIsPower()
    ensures Pow2(52) == HIDDEN && Pow2(53) == 2 * HIDDEN
  {
    assert Pow2(4) == 16;
    Pow2Add(4, 4);
    Pow2Add(8, 8);
    Pow2Add(16, 16);
    Pow2Add(32, 16);
    Pow2Add(48, 4);
  }

  // ---- the grid of values ----

  lemma FieldsOf(bits: nat, e: nat, f: nat)
    requires bits == e * HIDDEN + f && f < HIDDEN
    ensures bits / HIDDEN == e && bits % HIDDEN == f
  {
    DivUnique(bits, HIDDEN, e, f);
  }

  /** Adjacent patterns differ by one unit in the last place. */
  lemma UnitsStep(bits: nat)
    ensures Units(bits + 1) == Units(bits) + Pow2(UnitShift(bits))
  {
    var e, f := bits / HIDDEN, bits % HIDDEN;
    var m, k := Significand(bits), UnitShift(bits);
    ShiftLeftIsProduct(m, k);
    if f + 1 < HIDDEN {
      FieldsOf(bits + 1, e, f + 1);
      ShiftLeftIsProduct(m + 1, k);
      StepProduct(m, Pow2(k));
    } else {
      FieldsOf(bits + 1, e + 1, 0);
      if e > 0 {
        ShiftLeftIsProduct(HIDDEN, k + 1);
        StepCarry(Pow2(k), Pow2(k + 1));
      }
    }
  }

  lemma StepProduct(m: nat, p: nat)
    ensures (m + 1) * p == m * p + p
  {
  }

  lemma StepCarry(p: nat, p': nat)
    requires p' == 2 * p
    ensures HIDDEN * p' == (2 * HIDDEN - 1) * p + p
  {
  }

  lemma {:induction false} UnitsIncrease(a: nat, b: nat)
    requires a < b
    ensures Units(a) < Units(b)
    decreases b - a
  {
    UnitsStep(b - 1);
    if a < b - 1 {
      UnitsIncrease(a, b - 1);
    }
  }

  lemma UnitsOrder(a: nat, b: nat)
    ensures a < b <==> Units(a) < Units(b)
    ensures a == b <==> Units(a) == Units(b)
  {
    if a < b {
      UnitsIncrease(a, b);
    } else if b < a {
      UnitsIncrease(b, a);
    }
  }

  /** scalbn of an integer significand, as raw bits: a carry to 2^53 moves into the exponent field by itself. */
  function Assemble(significand: nat, shift: nat): nat {
    shift * HIDDEN + significand
  }

  lemma AssembleUnits(significand: nat, shift: nat)
    requires significand <= 2 * HIDDEN && (shift > 0 ==> significand >= HIDDEN)
    ensures Units(Assemble(significand, shift)) == significand * Pow2(shift)
    ensures significand < 2 * HIDDEN ==> UnitShift(Assemble(significand, shift)) == shift
  {
    var bits := Assemble(significand, shift);
    ShiftLeftIsProduct(significand, shift);
    if significand < HIDDEN {
      FieldsOf(bits, 0, significand);
    } else if significand < 2 * HIDDEN {
      FieldsOf(bits, shift + 1, significand - HIDDEN);
    } else {
      FieldsOf(bits, shift + 2, 0);
      assert ShiftLeft(HIDDEN, shift + 1) == ShiftLeft(significand, shift);
    }
  }

  lemma PositiveUnits(bits: nat)
    requires bits > 0
    ensures Units(bits) > 0
  {
    UnitsIncrease(0, bits);
  }

  /** The sign of a value is the sign of its units. */
  lemma SignOfUnits(d: Double)
    ensures SignedUnits(d) < 0 <==> d.negative && d.bits > 0
    ensures SignedUnits(d) > 0 <==> !d.negative && d.bits > 0
    ensures d.IsPositive() <==> d.IsFinite() && SignedUnits(d) > 0
  {
    UnitsOrder(0, d.bits);
  }

  // ---- representable integers ----

  /** A multiple of a power of two with at most 53 bits is a value. */
  lemma {:induction false} Representable(m: nat, s: nat) returns (bits: nat)
    requires m < 2 * HIDDEN
    ensures Units(bits) == m * Pow2(s)
    decreases s
  {
    if m >= HIDDEN || s == 0 {
      bits := Assemble(m, s);
      AssembleUnits(m, s);
    } else {
      bits := Representable(2 * m, s - 1);
    }
  }

  lemma UnitsAsProduct(bits: nat)
    ensures Units(bits) == Significand(bits) * Pow2(UnitShift(bits)) && Significand(bits) < 2 * HIDDEN
  {
    ShiftLeftIsProduct(Significand(bits), UnitShift(bits));
  }

  /** A value is a multiple of the last place of every smaller one. */
  lemma MultipleOfLastPlace(low: nat, high: nat) returns (m: nat)
    requires low <= high
    ensures Units(high) == m * Pow2(UnitShift(low))
  {
    assert UnitShift(low) <= UnitShift(high);
    UnitsAsProduct(high);
    Pow2Add(UnitShift(high) - UnitShift(low), UnitShift(low));
    m := Significand(high) * Pow2(UnitShift(high) - UnitShift(low));
    Reassociate(Significand(high), Pow2(UnitShift(high) - UnitShift(low)), Pow2(UnitShift(low)), Pow2(UnitShift(high)));
  }

  lemma Reassociate(a: nat, b: nat, c: nat, d: nat)
    requires d == b * c
    ensures a * d == (a * b) * c
  {
  }

  /** What is left of a larger value after taking away a smaller one several times is a value, once it is no larger. */
  lemma LeftoverIsValue(low: nat, high: nat, q: nat) returns (bits: nat)
    requires low <= high && 0 <= Units(high) - q * Units(low) <= Units(low)
    ensures Units(bits) == Units(high) - q * Units(low)
  {
    var m := MultipleOfLastPlace(low, high);
    UnitsAsProduct(low);
    var n := LeftoverFactor(m, q, Significand(low), Pow2(UnitShift(low)), Units(high), Units(low));
    bits := Representable(n, UnitShift(low));
  }

  lemma LeftoverFactor(m: nat, q: nat, s: nat, p: nat, high: nat, low: nat) returns (n: nat)
    requires p > 0 && high == m * p && low == s * p && 0 <= high - q * low <= low
    ensures n <= s && n * p == high - q * low
  {
    Reassociate(q, s, p, low);
    assert high - q * low == (m - q * s) * p;
    if m < q * s {
      MulStrict(m, q * s, p);
    }
    n := m - q * s;
    if n > s {
      MulStrict(s, n, p);
    }
  }

  // ---- round to nearest, ties to even ----

  ghost function Distance(bits: nat, t: real): real {
    if Units(bits) as real <= t then t - Units(bits) as real else Units(bits) as real - t
  }

  /** bits is the finite value nearest to t (in units of 2^-1074), an even pattern when two are equally near. */
  ghost predicate NearestEven(bits: nat, t: real) {
    && bits < INFINITY
    && forall f: nat :: f < INFINITY ==>
         Distance(bits, t) <= Distance(f, t) && (f != bits && Distance(bits, t) == Distance(f, t) ==> bits % 2 == 0)
  }

  /** Twice the midpoint between a finite value and the next. */
  ghost function Middle(bits: nat): int {
    Units(bits) + Units(bits + 1)
  }

  ghost predicate BelowNext(bits: nat, t: real) {
    2.0 * t <= Middle(bits) as real && (2.0 * t == Middle(bits) as real ==> bits % 2 == 0)
  }

  ghost predicate AbovePrevious(bits: nat, t: real)
    requires bits > 0
  {
    Middle(bits - 1) as real <= 2.0 * t && (Middle(bits - 1) as real == 2.0 * t ==> bits % 2 == 0)
  }

  /** Lying between the midpoints to its two neighbours, with ties only at an even pattern. */
  ghost predicate BetweenMidpoints(bits: nat, t: real) {
    (bits > 0 ==> AbovePrevious(bits, t)) && BelowNext(bits, t)
  }

  lemma NeighboursSuffice(bits: nat, t: real)
    requires bits < INFINITY && t >= 0.0 && BetweenMidpoints(bits, t)
    ensures NearestEven(bits, t)
  {
    forall f: nat | f < INFINITY
      ensures Distance(bits, t) <= Distance(f, t)
      ensures f != bits && Distance(bits, t) == Distance(f, t) ==> bits % 2 == 0
    {
      if f < bits {
        UnitsIncrease(f, bits);
        if f < bits - 1 {
          UnitsIncrease(f, bits - 1);
        }
      } else if f > bits {
        UnitsIncrease(bits, f);
        if f > bits + 1 {
          UnitsIncrease(bits + 1, f);
        }
      }
    }
  }

  lemma MiddleIsCloser(a: nat, b: nat, t: real)
    requires a + 1 < b && Distance(a, t) == Distance(b, t)
    ensures Distance(a + 1, t) < Distance(a, t)
  {
    UnitsIncrease(a, a + 1);
    UnitsIncrease(a + 1, b);
  }

  /** The nearest value is unique: two patterns meeting the definition are the same. */
  lemma NearestEvenUnique(a: nat, b: nat, t: real)
    requires NearestEven(a, t) && NearestEven(b, t)
    ensures a == b
  {
    var low, high := if a < b then a else b, if a < b then b else a;
    assert Distance(low, t) == Distance(high, t);
    if low < high {
      assert low % 2 == 0 && high % 2 == 0;
      MiddleIsCloser(low, high, t);
    }
  }

  lemma NearestToItself(bits: nat)
    requires bits < INFINITY
    ensures NearestEven(bits, Units(bits) as real)
  {
    var t := Units(bits) as real;
    forall f: nat | f < INFINITY && f != bits
      ensures Distance(f, t) > 0.0
    {
      if f < bits {
        UnitsIncrease(f, bits);
      } else {
        UnitsIncrease(bits, f);
      }
    }
  }

  // ---- rationals times powers of two ----

  function Up(e: int): nat {
    Pow2(if e >= 0 then e else 0)
  }

  function Down(e: int): nat {
    Pow2(if e >= 0 then 0 else -e)
  }

  /** (num/den) * 2^e */
  ghost function Exact(num: nat, den: nat, e: int): real
    requires den > 0
  {
    (num * Up(e)) as real / (den * Down(e)) as real
  }

  lemma UpDown(s: int, e: int)
    ensures Up(s) * Up(e) * Down(s + e) == Down(s) * Down(e) * Up(s + e)
  {
    var us, ds := if s >= 0 then s else 0, if s >= 0 then 0 else -s;
    var ue, de := if e >= 0 then e else 0, if e >= 0 then 0 else -e;
    var ut, dt := if s + e >= 0 then s + e else 0, if s + e >= 0 then 0 else -(s + e);
    Pow2Add(us, ue);
    Pow2Add(us + ue, dt);
    Pow2Add(ds, de);
    Pow2Add(ds + de, ut);
    assert us + ue + dt == ds + de + ut;
  }

  /** num/den >= 2^e */
  predicate AtLeastPower(num: nat, den: nat, e: int) {
    den * Up(e) <= num * Down(e)
  }

  lemma ShiftPower(num: nat, den: nat, e: int, s: int)
    ensures AtLeastPower(num, den, e) <==> AtLeastPower(num * Up(s), den * Down(s), s + e)
  {
    UpDown(s, e);
    CrossScale(den, num, Up(s), Down(s), Up(e), Down(e), Up(s + e), Down(s + e));
  }

  lemma CrossScale(den: nat, num: nat, us: nat, ds: nat, ue: nat, de: nat, ut: nat, dt: nat)
    requires us * ue * dt == ds * de * ut && us > 0 && dt > 0 && de > 0
    ensures den * ue <= num * de <==> den * ds * ut <= num * us * dt
  {
    CrossIdentity(den, num, us, ds, ue, de, ut, dt);
    assert us * dt > 0;
    ScaleBoth(den * ue, num * de, us * dt);
    ScaleBoth(den * ds * ut, num * us * dt, de);
  }

  lemma ScaleBoth(a: nat, b: nat, k: nat)
    requires k > 0
    ensures a <= b <==> a * k <= b * k
  {
    if a <= b {
      MulMonotone(a, b, k);
    } else {
      MulStrict(b, a, k);
    }
  }

  lemma CrossIdentity(den: nat, num: nat, us: nat, ds: nat, ue: nat, de: nat, ut: nat, dt: nat)
    requires us * ue * dt == ds * de * ut
    ensures (den * ue) * (us * dt) == (den * ds * ut) * de
    ensures (num * de) * (us * dt) == (num * us * dt) * de
  {
    assert (den * ue) * (us * dt) == den * (us * ue * dt);
    assert (den * ds * ut) * de == den * (ds * de * ut);
  }
}
