/** Quota amounts from computed prices: whole numbers of 32 bits, or a report why not. */
module QuotaMath {

  const MAX_QUOTA: int := 0x7FFF_FFFF
  const MIN_QUOTA: int := -0x8000_0000

  /** The values a computation can end with; rounding of the arithmetic itself is not modelled. */
  datatype Float = NaN | NegativeInfinity | Finite(v: real) | PositiveInfinity

  datatype Clamp = NotANumber | Overflow | Underflow | Unclamped

  function Truncated(v: real): int { if v >= 0.0 then v.Floor else -((-v).Floor) }

  /** To the nearest whole number, halves away from zero. */
  function RoundedHalfAway(v: real): int { if v >= 0.0 then (v + 0.5).Floor else -((-v + 0.5).Floor) }

  predicate AtLeast(x: Float, bound: int) {
    x.PositiveInfinity? || (x.Finite? && x.v >= bound as real)
  }

  predicate AtMost(x: Float, bound: int) {
    x.NegativeInfinity? || (x.Finite? && x.v <= bound as real)
  }

  function Saturate(x: Float): (int, Clamp) {
    if x.NaN? then (0, NotANumber)
    else if AtLeast(x, MAX_QUOTA) then (MAX_QUOTA, Overflow)
    else if AtMost(x, MIN_QUOTA) then (MIN_QUOTA, Underflow)
    else (Truncated(x.v), Unclamped)
  }

  function Round(x: Float): Float { if x.Finite? then Finite(RoundedHalfAway(x.v) as real) else x }

  function QuotaFromFloatChecked(x: Float): (int, Clamp) { Saturate(x) }

  function QuotaRoundChecked(x: Float): (int, Clamp) { Saturate(Round(x)) }

  // ------------------------------------------------------------- decimals

  /** A whole coefficient times a power of ten. */
  datatype Decimal = Decimal(coefficient: int, exponent: int)

  function Pow10(n: nat): (p: nat)
    ensures p >= 1
  {
    if n == 0 then 1 else 10 * Pow10(n - 1)
  }

  function Denoted(d: Decimal): real {
    if d.exponent >= 0 then (d.coefficient * Pow10(d.exponent)) as real
    else d.coefficient as real / Pow10(-d.exponent) as real
  }

  /** Division of whole numbers that cuts towards zero. */
  function Quotient(a: int, b: nat): int
    requires b > 0
  {
    if a >= 0 then a / b else -((-a) / b)
  }

  /** The decimal in tenths, what is finer cut off. */
  function Tenths(d: Decimal): int {
    if d.exponent >= -1 then d.coefficient * Pow10(d.exponent + 1)
    else Quotient(d.coefficient, Pow10(-1 - d.exponent))
  }

  /** Rounding to units as the decimal library does it: five tenths away from zero,
      then a division by ten that is corrected for negative numbers. */
  function RoundedToUnits(d: Decimal): int {
    if d.exponent == 0 then d.coefficient else UnitsFromTenths(Tenths(d))
  }

  function UnitsFromTenths(tenths: int): int {
    var moved := if tenths < 0 then tenths - 5 else tenths + 5;
    if moved / 10 < 0 && moved % 10 != 0 then moved / 10 + 1 else moved / 10
  }

  function QuotaFromDecimalChecked(d: Decimal): (int, Clamp) { Saturate(Finite(RoundedToUnits(d) as real)) }

  datatype Strict = Ok(quota: int) | Rejected(clamp: Clamp)

  function StrictQuota(checked: (int, Clamp)): Strict {
    if checked.1 != Unclamped then Rejected(checked.1) else Ok(checked.0)
  }

  /** The order of the values that have one. */
  predicate NotAbove(x: Float, y: Float) {
    && !x.NaN? && !y.NaN?
    && (x.NegativeInfinity? || y.PositiveInfinity? || (x.Finite? && y.Finite? && x.v <= y.v))
  }

  lemma FloorMonotone(a: real, b: real)
    requires a <= b
    ensures a.Floor <= b.Floor
  {
  }

  lemma TruncatedIs(v: real)
    ensures -1.0 < Truncated(v) as real - v < 1.0
    ensures v >= 0.0 ==> 0 <= Truncated(v) && Truncated(v) as real <= v
    ensures v <= 0.0 ==> Truncated(v) <= 0 && Truncated(v) as real >= v
  {
  }

  lemma RoundedIs(v: real)
    ensures -0.5 <= RoundedHalfAway(v) as real - v <= 0.5
    ensures RoundedHalfAway(v) as real - v == 0.5 ==> v > 0.0
    ensures RoundedHalfAway(v) as real - v == -0.5 ==> v < 0.0
    ensures v >= 0.0 ==> RoundedHalfAway(v) >= 0
  {
  }

  lemma TruncatedMonotone(a: real, b: real)
    requires a <= b
    ensures Truncated(a) <= Truncated(b)
  {
    if a >= 0.0 {
      FloorMonotone(a, b);
    } else if b < 0.0 {
      FloorMonotone(-b, -a);
    } else {
      TruncatedIs(a);
      TruncatedIs(b);
    }
  }

  lemma RoundedMonotone(a: real, b: real)
    requires a <= b
    ensures RoundedHalfAway(a) <= RoundedHalfAway(b)
  {
    if a >= 0.0 {
      FloorMonotone(a + 0.5, b + 0.5);
    } else if b < 0.0 {
      FloorMonotone(-b + 0.5, -a + 0.5);
    } else {
      FloorMonotone(0.5, -a + 0.5);
      FloorMonotone(0.5, b + 0.5);
    }
  }

  /** Every conversion stays in the 32-bit range, keeps the sign, and says so when it cannot
      keep the value. */
  lemma SaturateIs(x: Float)
    ensures var (quota, clamp) := Saturate(x);
            && -2147483648 <= quota <= 2147483647
            && (clamp == Unclamped <==> x.Finite? && -2147483648.0 < x.v < 2147483647.0)
            && (clamp == NotANumber <==> x.NaN?) && (x.NaN? ==> quota == 0)
            && (clamp == Overflow <==> x.PositiveInfinity? || (x.Finite? && x.v >= 2147483647.0))
            && (clamp == Underflow <==> x.NegativeInfinity? || (x.Finite? && x.v <= -2147483648.0))
            && (clamp == Overflow ==> quota == 2147483647) && (clamp == Underflow ==> quota == -2147483648)
            && (clamp == Unclamped ==> -1.0 < quota as real - x.v < 1.0)
            && (clamp == Unclamped ==> if x.v >= 0.0 then 0.0 <= quota as real <= x.v else x.v <= quota as real <= 0.0)
            && (AtLeast(x, 0) ==> quota >= 0)
  {
    if x.Finite? {
      TruncatedIs(x.v);
    }
  }

  lemma SaturateMonotone(x: Float, y: Float)
    requires NotAbove(x, y)
    ensures Saturate(x).0 <= Saturate(y).0
  {
    SaturateIs(x);
    SaturateIs(y);
    if x.Finite? && y.Finite? {
      TruncatedMonotone(x.v, y.v);
    }
  }

  lemma WholeIsKept(n: int)
    ensures Truncated(n as real) == n
  {
  }

  /** Rounding before the conversion is within one half and has the same guarantees. */
  lemma QuotaRoundIs(x: Float)
    ensures var (quota, clamp) := QuotaRoundChecked(x);
            && -2147483648 <= quota <= 2147483647
            && (clamp == Unclamped <==> x.Finite? && -2147483647.5 < x.v < 2147483646.5)
            && (clamp == NotANumber <==> x.NaN?) && (x.NaN? ==> quota == 0)
            && (clamp == Overflow <==> x.PositiveInfinity? || (x.Finite? && x.v >= 2147483646.5))
            && (clamp == Overflow ==> quota == 2147483647) && (clamp == Underflow ==> quota == -2147483648)
            && (clamp == Unclamped ==> -0.5 <= quota as real - x.v <= 0.5)
            && (clamp == Unclamped && quota as real - x.v == 0.5 ==> x.v > 0.0)
            && (clamp == Unclamped && quota as real - x.v == -0.5 ==> x.v < 0.0)
            && (AtLeast(x, 0) ==> quota >= 0)
  {
    SaturateIs(Round(x));
    if x.Finite? {
      RoundedIs(x.v);
      WholeIsKept(RoundedHalfAway(x.v));
    }
  }

  lemma QuotaRoundMonotone(x: Float, y: Float)
    requires NotAbove(x, y)
    ensures QuotaRoundChecked(x).0 <= QuotaRoundChecked(y).0
  {
    if x.Finite? && y.Finite? {
      RoundedMonotone(x.v, y.v);
    }
    SaturateMonotone(Round(x), Round(y));
  }

  lemma Scaled(a: int, b: int, p: nat)
    requires a <= b
    ensures a * p <= b * p
  {
  }

  lemma RealScaled(a: real, b: real, p: real)
    requires p > 0.0 && a * p <= b * p
    ensures a <= b
  {
    if a > b {
      RealProduct(a - b, p);
    }
  }

  lemma RealProduct(x: real, p: real)
    requires p > 0.0 && x > 0.0
    ensures x * p > 0.0
  {
  }

  /** The nearest whole number to c / p, halves upwards, in whole numbers. */
  predicate Nearest(u: int, c: nat, p: nat) {
    (2 * u - 1) * p <= 2 * c < (2 * u + 1) * p
  }

  lemma TenthsRound(c: nat, q: nat, t: nat)
    requires q > 0 && t * q <= c < (t + 1) * q
    ensures Nearest((t + 5) / 10, c, 10 * q)
  {
    var u := (t + 5) / 10;
    Scaled(10 * u - 5, t, q);
    Scaled(t + 1, 10 * u + 5, q);
    assert (2 * u - 1) * (10 * q) == 2 * ((10 * u - 5) * q);
    assert (2 * u + 1) * (10 * q) == 2 * ((10 * u + 5) * q);
  }

  lemma QuotientIs(c: nat, q: nat)
    requires q > 0
    ensures var t := Quotient(c, q); t >= 0 && t * q <= c < (t + 1) * q && Quotient(0 - c, q) == -t
  {
  }

  lemma BetweenHalves(u: int, v: real)
    requires v >= 0.0 && 2.0 * u as real - 1.0 <= 2.0 * v < 2.0 * u as real + 1.0
    ensures RoundedHalfAway(v) == u
  {
  }

  lemma RealOfProduct(a: int, p: nat)
    ensures (a * p) as real == a as real * p as real
  {
  }

  lemma NearestIsRounded(u: int, c: nat, p: nat)
    requires p > 0 && Nearest(u, c, p)
    ensures RoundedHalfAway(c as real / p as real) == u
  {
    hide RoundedHalfAway;
    var v, r := c as real / p as real, p as real;
    Divided(c as real, r);
    RealOfProduct(2 * u - 1, p);
    RealOfProduct(2 * u + 1, p);
    RealScaled((2 * u - 1) as real, 2.0 * v, r);
    StrictlyBelow(2.0 * v, (2 * u + 1) as real, r);
    BetweenHalves(u, v);
  }

  lemma Divided(c: real, r: real)
    requires r > 0.0 && c >= 0.0
    ensures c / r >= 0.0 && 2.0 * (c / r) * r == 2.0 * c
  {
  }

  lemma StrictlyBelow(a: real, b: real, p: real)
    requires p > 0.0 && a * p < b * p
    ensures a < b
  {
    RealScaled(a, b, p);
  }

  lemma RoundedOpposite(v: real)
    ensures RoundedHalfAway(-v) == -RoundedHalfAway(v)
  {
  }

  lemma UnitsFromTenthsIs(t: nat)
    ensures UnitsFromTenths(t) == (t + 5) / 10 && UnitsFromTenths(0 - t) == -((t + 5) / 10)
  {
  }

  lemma TenthsOfFraction(c: int, e: int)
    requires e < 0
    ensures Pow10(-e) == 10 * Pow10(-1 - e) && Tenths(Decimal(c, e)) == Quotient(c, Pow10(-1 - e))
  {
  }

  lemma UnitsOfFraction(c: nat, e: int)
    requires e < 0
    ensures RoundedToUnits(Decimal(c, e)) == RoundedHalfAway(c as real / Pow10(-e) as real)
    ensures RoundedToUnits(Decimal(0 - c, e)) == -RoundedToUnits(Decimal(c, e))
  {
    hide Pow10, Tenths, UnitsFromTenths, RoundedHalfAway, Nearest, Quotient;
    var q := Pow10(-1 - e);
    var t := Quotient(c, q);
    TenthsOfFraction(c, e);
    TenthsOfFraction(0 - c, e);
    QuotientIs(c, q);
    TenthsRound(c, q, t);
    NearestIsRounded((t + 5) / 10, c, Pow10(-e));
    UnitsFromTenthsIs(t);
  }

  lemma OppositeFraction(c: real, p: real)
    requires p > 0.0
    ensures (0.0 - c) / p == -(c / p)
  {
  }

  /** The library's whole-number arithmetic rounds the number a decimal stands for. */
  lemma UnitsAreRounded(d: Decimal)
    ensures RoundedToUnits(d) == RoundedHalfAway(Denoted(d))
  {
    hide RoundedHalfAway, Tenths, UnitsFromTenths, Pow10;
    var c, e := d.coefficient, d.exponent;
    if e >= 0 {
      UnitsOfWhole(c, e);
    } else if c >= 0 {
      UnitsOfFraction(c, e);
    } else {
      UnitsOfFraction(-c, e);
      assert Decimal(0 - (-c), e) == d;
      OppositeFraction((-c) as real, Pow10(-e) as real);
      RoundedOpposite((-c) as real / Pow10(-e) as real);
    }
  }

  lemma UnitsOfWhole(c: int, e: nat)
    ensures RoundedToUnits(Decimal(c, e)) == RoundedHalfAway((c * Pow10(e)) as real)
  {
    var n := c * Pow10(e);
    assert e == 0 ==> Pow10(e) == 1;
    assert c * Pow10(e + 1) == 10 * n;
    WholeIsRounded(n);
  }

  lemma WholeIsRounded(n: int)
    ensures RoundedHalfAway(n as real) == n && UnitsFromTenths(10 * n) == n
  {
  }

  /** So a decimal becomes the quota that rounding its value gives, with the same report. */
  lemma DecimalAgrees(d: Decimal)
    ensures QuotaFromDecimalChecked(d) == QuotaRoundChecked(Finite(Denoted(d)))
  {
    hide Denoted, RoundedToUnits, RoundedHalfAway;
    UnitsAreRounded(d);
  }

  // ------------------------------------------------------------- the strict forms

  function QuotaFromFloatStrict(x: Float): Strict { StrictQuota(QuotaFromFloatChecked(x)) }

  function QuotaRoundStrict(x: Float): Strict { StrictQuota(QuotaRoundChecked(x)) }

  function QuotaFromDecimalStrict(d: Decimal): Strict { StrictQuota(QuotaFromDecimalChecked(d)) }

  /** A strict form passes on what the checked form converts without a clamp and rejects the
      rest with its report. */
  predicate Passes(strict: Strict, checked: (int, Clamp)) {
    strict == if checked.1 == Unclamped then Ok(checked.0) else Rejected(checked.1)
  }

  /** That is what lies strictly between the bounds, or when rounding more than one half
      within them; the bounds themselves are rejected although both are representable. */
  lemma StrictIs(x: Float, d: Decimal)
    ensures Passes(QuotaFromFloatStrict(x), QuotaFromFloatChecked(x))
    ensures Passes(QuotaRoundStrict(x), QuotaRoundChecked(x))
    ensures Passes(QuotaFromDecimalStrict(d), QuotaRoundChecked(Finite(Denoted(d))))
    ensures QuotaFromFloatStrict(x).Ok? <==> x.Finite? && -2147483648.0 < x.v < 2147483647.0
    ensures QuotaRoundStrict(x).Ok? <==> x.Finite? && -2147483647.5 < x.v < 2147483646.5
    ensures QuotaFromDecimalStrict(d).Ok? <==> -2147483647.5 < Denoted(d) < 2147483646.5
  {
    hide Saturate, Round, Denoted, RoundedToUnits;
    SaturateIs(x);
    QuotaRoundIs(x);
    DecimalAgrees(d);
    QuotaRoundIs(Finite(Denoted(d)));
  }
}
