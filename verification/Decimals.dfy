/** `DecimalField`: precision checks and quantization of finite decimals. */
module Decimals {
  import opened Prelude

  function Pow10(n: nat): (p: nat)
    ensures p >= 1
  {
    if n == 0 then 1 else 10 * Pow10(n - 1)
  }

  lemma {:induction false} Pow10Add(m: nat, n: nat)
    ensures Pow10(m + n) == Pow10(m) * Pow10(n)
  {
    if m > 0 { Pow10Add(m - 1, n); }
  }

  lemma {:induction false} Pow10Monotone(m: nat, n: nat)
    ensures m <= n ==> Pow10(m) <= Pow10(n)
  {
    if m < n { Pow10Monotone(m, n - 1); }
  }

  /** Number of decimal digits of a coefficient, as the length of its digit tuple; zero has one. */
  function Len(n: nat): (k: nat)
    ensures k >= 1
  {
    if n < 10 then 1 else 1 + Len(n / 10)
  }

  lemma {:induction false} LenBounds(n: nat)
    ensures n < Pow10(Len(n))
    ensures n > 0 ==> Pow10(Len(n) - 1) <= n
  {
    if n < 10 {
      assert Pow10(1) == 10 * Pow10(0);
    } else {
      LenBounds(n / 10);
    }
  }

  /** A coefficient below a power of ten has no more digits than that power. */
  lemma LenAtMost(n: nat, k: nat)
    requires n < Pow10(k) && k >= 1
    ensures Len(n) <= k
  {
    LenBounds(n);
    if Len(n) > k { Pow10Monotone(k, Len(n) - 1); }
  }

  /** A finite decimal: sign, coefficient and exponent, standing for `±coefficient * 10^exponent`. */
  datatype Decimal = Decimal(negative: bool, coefficient: nat, exponent: int)

  /** The field's options; the whole-digit limit exists when both others do. */
  datatype DecimalField = DecimalField(maxDigits: Option<nat>, decimalPlaces: Option<nat>)

  datatype Precision = Valid | MaxDigits | MaxDecimalPlaces | MaxWholeDigits

  /** `max_whole_digits`, which may come out negative */
  function MaxWhole(f: DecimalField): Option<int> {
    if f.maxDigits.Some? && f.decimalPlaces.Some? then Some(f.maxDigits.value - f.decimalPlaces.value) else None
  }

  function Abs(x: int): nat { if x < 0 then -x else x }

  datatype Shape = Shape(total: int, whole: int, places: int)

  function ShapeOf(d: Decimal): Shape {
    var digits := Len(d.coefficient);
    if d.exponent >= 0 then Shape(digits + d.exponent, digits + d.exponent, 0)
    else if digits > Abs(d.exponent) then Shape(digits, digits - Abs(d.exponent), Abs(d.exponent))
    else Shape(Abs(d.exponent), 0, Abs(d.exponent))
  }

  function ValidatePrecision(f: DecimalField, d: Decimal): Precision {
    var s := ShapeOf(d);
    if f.maxDigits.Some? && s.total > f.maxDigits.value then MaxDigits
    else if f.decimalPlaces.Some? && s.places > f.decimalPlaces.value then MaxDecimalPlaces
    else if MaxWhole(f).Some? && s.whole > MaxWhole(f).value then MaxWholeDigits
    else Valid
  }

  datatype Rounding = Up | Down | Ceiling | Floor | HalfUp | HalfDown | HalfEven | ZeroFiveUp

  /** Whether a magnitude `q + r/m` with `0 < r < m` is rounded away from zero. */
  predicate RoundsUp(rounding: Rounding, negative: bool, q: nat, r: nat, m: nat) {
    match rounding
    case Up => true
    case Down => false
    case Ceiling => !negative
    case Floor => negative
    case HalfUp => 2 * r >= m
    case HalfDown => 2 * r > m
    case HalfEven => 2 * r > m || (2 * r == m && q % 2 == 1)
    case ZeroFiveUp => q % 10 == 0 || q % 10 == 5
  }

  lemma Quotient(n: nat, m: nat)
    requires m >= 1
    ensures n / m >= 0 && 0 <= n % m < m && n == n / m * m + n % m
  {
  }

  /** `n / m` rounded to a whole number. */
  function RoundedQuotient(n: nat, m: nat, negative: bool, rounding: Rounding): nat
    requires m >= 1
  {
    Quotient(n, m);
    if n % m > 0 && RoundsUp(rounding, negative, n / m, n % m, m) then n / m + 1 else n / m
  }

  /** The coefficient of the decimal at exponent `-places`. */
  function Rescale(d: Decimal, places: nat, rounding: Rounding): nat {
    var shift := d.exponent + places;
    if shift >= 0 then d.coefficient * Pow10(shift)
    else RoundedQuotient(d.coefficient, Pow10(0 - shift), d.negative, rounding)
  }

  const DEFAULT_PRECISION: nat := 28

  /** `quantize`: None stands for InvalidOperation, raised when the result needs more digits than
      the context's precision. */
  function Quantize(f: DecimalField, d: Decimal, rounding: Rounding): Option<Decimal> {
    if f.decimalPlaces.None? then Some(d)
    else
      var coefficient := Rescale(d, f.decimalPlaces.value, rounding);
      var precision := if f.maxDigits.Some? then f.maxDigits.value else DEFAULT_PRECISION;
      if Len(coefficient) > precision then None
      else Some(Decimal(d.negative, coefficient, 0 - f.decimalPlaces.value))
  }

  /** Equal numbers, compared at the finer of the two exponents. */
  predicate SameValue(a: Decimal, b: Decimal) {
    && (a.negative == b.negative)
    && var e := Min(a.exponent, b.exponent);
       a.coefficient * Pow10(a.exponent - e) == b.coefficient * Pow10(b.exponent - e)
  }

  /** `|d| < 10^k`, compared without fractions. */
  predicate Below(d: Decimal, k: nat) {
    if d.exponent >= 0 then d.coefficient * Pow10(d.exponent) < Pow10(k)
    else d.coefficient < Pow10(k + Abs(d.exponent))
  }

  /** `d` is a whole number of units of `10^-places`. */
  predicate WholeUnits(d: Decimal, places: nat) {
    d.exponent + places >= 0 || d.coefficient % Pow10(0 - (d.exponent + places)) == 0
  }

  /** With both options set, the check passes exactly if the exponent fits the decimal places and
      the digits in front of the point fit what the options leave for them. */
  lemma PrecisionExact(f: DecimalField, d: Decimal)
    requires f.maxDigits.Some? && f.decimalPlaces.Some?
    ensures ValidatePrecision(f, d).Valid?
       <==> f.maxDigits.value >= f.decimalPlaces.value
            && -d.exponent <= f.decimalPlaces.value
            && Len(d.coefficient) + d.exponent <= f.maxDigits.value - f.decimalPlaces.value
  {
  }

  /** Which limit is reported, in all combinations of options: the digits in front of and behind the
      point count, and those in front are limited only where both options are set. */
  lemma PrecisionReports(f: DecimalField, d: Decimal)
    ensures var whole, places := Max(0, Len(d.coefficient) + d.exponent), Max(0, -d.exponent);
      var tooMany := f.maxDigits.Some? && whole + places > f.maxDigits.value;
      var tooFine := f.decimalPlaces.Some? && places > f.decimalPlaces.value;
      var tooLarge := f.maxDigits.Some? && f.decimalPlaces.Some? && whole + f.decimalPlaces.value > f.maxDigits.value;
      && (ValidatePrecision(f, d).MaxDigits? <==> tooMany)
      && (ValidatePrecision(f, d).MaxDecimalPlaces? <==> !tooMany && tooFine)
      && (ValidatePrecision(f, d).MaxWholeDigits? <==> !tooMany && !tooFine && tooLarge)
  {
  }

  lemma ScaleLess(a: nat, b: nat, m: nat)
    requires a < b && m >= 1
    ensures a * m < b * m
  {
  }

  /** What passes the check is a whole number of units and below the bound in magnitude. */
  lemma AcceptedInRange(f: DecimalField, d: Decimal)
    requires f.maxDigits.Some? && f.decimalPlaces.Some?
    requires ValidatePrecision(f, d).Valid?
    ensures f.maxDigits.value >= f.decimalPlaces.value && WholeUnits(d, f.decimalPlaces.value)
    ensures Below(d, f.maxDigits.value - f.decimalPlaces.value)
  {
    PrecisionExact(f, d);
    LenBounds(d.coefficient);
    var k, digits := f.maxDigits.value - f.decimalPlaces.value, Len(d.coefficient);
    if d.exponent >= 0 {
      Pow10Add(digits, d.exponent);
      Pow10Monotone(digits + d.exponent, k);
      ScaleLess(d.coefficient, Pow10(digits), Pow10(d.exponent));
    } else {
      Pow10Monotone(digits, k + Abs(d.exponent));
    }
  }

  /** Accepted decimals are never altered: for every rounding mode, quantizing succeeds, changes
      neither value nor sign, gives exactly the configured decimal places, and passes the check
      again. */
  lemma AcceptedUnaltered(f: DecimalField, d: Decimal, rounding: Rounding)
    requires f.maxDigits.Some? && f.decimalPlaces.Some?
    requires ValidatePrecision(f, d).Valid?
    ensures var q := Quantize(f, d, rounding);
      && q.Some? && q.value.exponent == 0 - f.decimalPlaces.value
      && SameValue(q.value, d)
      && ValidatePrecision(f, q.value).Valid?
  {
    var places, digits := f.decimalPlaces.value, Len(d.coefficient);
    PrecisionExact(f, d);
    LenBounds(d.coefficient);
    var shift := d.exponent + places;
    Pow10Add(digits, shift);
    ScaleLess(d.coefficient, Pow10(digits), Pow10(shift));
    Pow10Monotone(digits + shift, f.maxDigits.value);
    var c := Rescale(d, places, rounding);
    assert c == d.coefficient * Pow10(shift);
    LenAtMost(c, f.maxDigits.value);
    assert Pow10(0) == 1;
    PrecisionExact(f, Quantize(f, d, rounding).value);
  }

  lemma RoundedClose(n: nat, m: nat, negative: bool, rounding: Rounding)
    requires m >= 1
    ensures var moved := RoundedQuotient(n, m, negative, rounding) * m - n;
      && 0 - m < moved < m
      && (rounding.HalfUp? || rounding.HalfDown? || rounding.HalfEven? ==> 0 - m <= 2 * moved <= m)
      && (n % m == 0 ==> moved == 0)
  {
    Quotient(n, m);
    assert (n / m + 1) * m == n / m * m + m;
  }

  /** Quantizing any decimal, accepted or not, moves it by less than one unit of the last place, by
      at most half a unit when rounding to the nearest, and not at all if it has whole units. */
  lemma QuantizeIsClose(d: Decimal, places: nat, rounding: Rounding)
    requires d.exponent + places < 0
    ensures var m, c := Pow10(0 - (d.exponent + places)), Rescale(d, places, rounding);
      var moved := c * m - d.coefficient;
      && 0 - m < moved < m
      && (rounding.HalfUp? || rounding.HalfDown? || rounding.HalfEven? ==> 0 - m <= 2 * moved <= m)
      && (WholeUnits(d, places) ==> moved == 0)
  {
    var m := Pow10(0 - (d.exponent + places));
    RoundedClose(d.coefficient, m, d.negative, rounding);
  }

  /** The signed number */
  function Signed(negative: bool, n: int): int {
    if negative then -n else n
  }

  /** What each mode promises about `c` units of size `m`, standing for a magnitude they differ from
      by `moved`. */
  ghost predicate RoundedBy(rounding: Rounding, negative: bool, moved: int, m: nat, c: nat) {
    match rounding
    case Up => 0 <= moved < m
    case Down => 0 - m < moved <= 0
    case Ceiling => 0 <= Signed(negative, moved) < m
    case Floor => 0 - m < Signed(negative, moved) <= 0
    case HalfUp => 0 - m < 2 * moved <= m
    case HalfDown => 0 - m <= 2 * moved < m
    case HalfEven => 0 - m <= 2 * moved <= m && (2 * moved in {0 - m, m} ==> c % 2 == 0)
    case ZeroFiveUp =>
      && 0 - m < moved < m && (moved > 0 ==> c % 10 == 1 || c % 10 == 6)
      && (moved < 0 ==> c % 10 != 0 && c % 10 != 5)
  }

  lemma RoundsExactly(rounding: Rounding, negative: bool, q: nat, r: nat, m: nat)
    requires r < m
    ensures if r > 0 && RoundsUp(rounding, negative, q, r, m)
      then RoundedBy(rounding, negative, m - r, m, q + 1) else RoundedBy(rounding, negative, 0 - r, m, q)
  {
  }

  lemma RoundedExactly(n: nat, m: nat, negative: bool, rounding: Rounding)
    requires m >= 1
    ensures var c := RoundedQuotient(n, m, negative, rounding); RoundedBy(rounding, negative, c * m - n, m, c)
  {
    hide RoundsUp, RoundedBy;
    Quotient(n, m);
    var q, r := n / m, n % m;
    RoundsExactly(rounding, negative, q, r, m);
    assert (q + 1) * m - n == m - r && q * m - n == 0 - r;
  }

  lemma LongerThan(n: nat, k: nat)
    requires k >= 1
    ensures Len(n) > k <==> n >= Pow10(k)
  {
    LenBounds(n);
    if n < Pow10(k) {
      LenAtMost(n, k);
    } else if Len(n) <= k {
      Pow10Monotone(Len(n), k);
    }
  }

  /** Quantizing gives the configured decimal places and keeps the sign; finer decimals are rounded as
      their mode says, and it fails exactly if the result has more digits than `max_digits`, or than
      the default precision if there is none. */
  lemma QuantizeExact(f: DecimalField, d: Decimal, rounding: Rounding)
    requires f.decimalPlaces.Some? && (f.maxDigits.Some? ==> f.maxDigits.value >= 1)
    ensures var places := f.decimalPlaces.value;
      var c := Rescale(d, places, rounding);
      var precision := if f.maxDigits.Some? then f.maxDigits.value else 28;
      Quantize(f, d, rounding) == if c >= Pow10(precision) then None else Some(Decimal(d.negative, c, 0 - places))
  {
    hide Rescale, Pow10, Len;
    LongerThan(Rescale(d, f.decimalPlaces.value, rounding), if f.maxDigits.Some? then f.maxDigits.value else 28);
  }

  lemma RescaleExact(d: Decimal, places: nat, rounding: Rounding)
    ensures var c, shift := Rescale(d, places, rounding), d.exponent + places;
      if shift >= 0 then c == d.coefficient * Pow10(shift)
      else RoundedBy(rounding, d.negative, c * Pow10(0 - shift) - d.coefficient, Pow10(0 - shift), c)
  {
    hide RoundedQuotient, RoundedBy;
    var shift := d.exponent + places;
    if shift < 0 { RoundedExactly(d.coefficient, Pow10(0 - shift), d.negative, rounding); }
  }

  /** Without decimal places, nothing is changed. */
  lemma NoPlacesNoChange(f: DecimalField, d: Decimal, rounding: Rounding)
    requires f.decimalPlaces.None?
    ensures Quantize(f, d, rounding) == Some(d)
  {
  }
}
