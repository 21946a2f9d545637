/**
 The exact decimals of sqlglot/decimal.go as values: an unscaled integer and a
 scale. Each function is what the method of the same name computes; the
 theorems say what that is worth as a real number.
 */
module Decimals {
  import opened Options
  import opened Arithmetic
  import opened Numerals

  /** value = unscaled * 10^-scale. */
  datatype Dec = Dec(unscaled: int, scale: nat)

  const DECIMAL_PRECISION: nat := 28

  function Abs(x: int): nat {
    if x < 0 then -x else x
  }

  // ---------------------------------------------------------------- operations

  /** alignedWith: both unscaled integers at the larger scale. */
  function AlignedWith(a: Dec, b: Dec): (int, int, nat) {
    var scale := if b.scale > a.scale then b.scale else a.scale;
    (a.unscaled * Pow10(scale - a.scale), b.unscaled * Pow10(scale - b.scale), scale)
  }

  function Add(a: Dec, b: Dec): Dec {
    var (au, bu, scale) := AlignedWith(a, b);
    Dec(au + bu, scale)
  }

  function Sub(a: Dec, b: Dec): Dec {
    var (au, bu, scale) := AlignedWith(a, b);
    Dec(au - bu, scale)
  }

  function Mul(a: Dec, b: Dec): Dec {
    Dec(a.unscaled * b.unscaled, a.scale + b.scale)
  }

  /** roundHalfEven: q without its last d digits; inexact marks a remainder below q's own digits. */
  function RoundHalfEven(q: nat, d: int, inexact: bool): (r: nat)
  {
    if d <= 0 then q
    else
      PowPositive(10, d);
      var divisor := Pow10(d);
      var half := divisor / 2;
      var q2, rem := q / divisor, q % divisor;
      QuotientNat(q, divisor);
      if rem < half then q2
      else if rem > half then q2 + 1
      else if inexact || q2 % 2 != 0 then q2 + 1
      else q2
  }

  /** normalizeDecimal: digits * 10^exponent under a sign, with no negative scale. */
  function NormalizeDecimal(digits: nat, exponent: int, sign: int): Dec {
    var unscaled := if exponent > 0 then digits * Pow10(exponent) else digits;
    Dec(if sign < 0 && unscaled != 0 then -unscaled else unscaled, if exponent > 0 then 0 else -exponent)
  }

  /** The digits of q as big.Int prints them. */
  function DigitCount(q: nat): nat {
    |DecimalString(q)|
  }

  /** Whether Div's loop stops at this shift: no remainder, or more digits than the precision. */
  predicate Stops(au: nat, bu: nat, prec: nat, shift: nat)
    requires bu > 0
  {
    var scaled := au * Pow10(shift);
    QuotientNat(scaled, bu);
    scaled % bu == 0 || DigitCount(scaled / bu) > prec
  }

  /** What is left to grow before the quotient must have more than prec digits. */
  function Room(au: nat, bu: nat, prec: nat, shift: nat): nat {
    var need, have := bu * Pow10(prec), au * Pow10(shift);
    if need > have then need - have else 0
  }

  /** Going on means there is room left, and one more shift takes some of it. */
  lemma RoomShrinks(au: nat, bu: nat, prec: nat, shift: nat)
    requires au > 0 && bu > 0 && !Stops(au, bu, prec, shift)
    ensures Room(au, bu, prec, shift + 1) < Room(au, bu, prec, shift)
  {
    var have := au * Pow10(shift);
    PowPositive(10, shift);
    PowPositive(10, prec);
    QuotientNat(have, bu);
    if prec > 0 {
      DecimalWidth(have / bu, prec);
    }
    DivBelow(have, bu, Pow10(prec));
    assert au * Pow10(shift + 1) == 10 * have;
    MulGrows(au, 0, Pow10(shift));
  }

  /** The shift Div's loop stops at. */
  function StopShift(au: nat, bu: nat, prec: nat, shift: nat): (s: nat)
    requires au > 0 && bu > 0
    ensures s >= shift && Stops(au, bu, prec, s)
    ensures forall k :: shift <= k < s ==> !Stops(au, bu, prec, k)
    decreases Room(au, bu, prec, shift)
  {
    if Stops(au, bu, prec, shift) then shift
    else
      RoomShrinks(au, bu, prec, shift);
      StopShift(au, bu, prec, shift + 1)
  }

  /** One pass of Div's loop: it stops here, or has less room and the same end ahead. */
  lemma StopOrShift(au: nat, bu: nat, prec: nat, shift: nat)
    requires au > 0 && bu > 0
    ensures Stops(au, bu, prec, shift) ==> StopShift(au, bu, prec, shift) == shift
    ensures !Stops(au, bu, prec, shift) ==> StopShift(au, bu, prec, shift) == StopShift(au, bu, prec, shift + 1)
    ensures !Stops(au, bu, prec, shift) ==> Room(au, bu, prec, shift + 1) < Room(au, bu, prec, shift)
  {
    hide Stops;
    if !Stops(au, bu, prec, shift) {
      RoomShrinks(au, bu, prec, shift);
    }
  }

  /** What Div builds from the quotient its loop stopped on. */
  function DivResult(q: nat, exact: bool, prec: nat, shift: nat, baseExp: int, sign: int): Dec {
    if exact then NormalizeDecimal(q, baseExp - shift, sign)
    else
      var d := DigitCount(q) - prec;
      NormalizeDecimal(RoundHalfEven(q, d, true), d - shift + baseExp, sign)
  }

  function DivAt(au: nat, bu: nat, prec: nat, shift: nat, baseExp: int, sign: int): Dec
    requires bu > 0
  {
    var scaled := au * Pow10(shift);
    QuotientNat(scaled, bu);
    DivResult(scaled / bu, scaled % bu == 0, prec, shift, baseExp, sign)
  }

  function Sign(a: Dec, b: Dec): (s: int)
    ensures s == 1 || s == -1
  {
    if (a.unscaled < 0) != (b.unscaled < 0) then -1 else 1
  }

  function Div(a: Dec, b: Dec, prec: nat): Option<Dec> {
    if b.unscaled == 0 then None
    else if a.unscaled == 0 then Some(Dec(0, 0))
    else
      var au, bu := Abs(a.unscaled), Abs(b.unscaled);
      Some(DivAt(au, bu, prec, StopShift(au, bu, prec, 0), b.scale - a.scale, Sign(a, b)))
  }

  // -------------------------------------------------------------- real numbers

  function AbsReal(x: real): real {
    if x < 0.0 then -x else x
  }

  /** Real multiplication under a name, so that a proof can keep a product whole. */
  function Times(x: real, y: real): real {
    x * y
  }

  lemma TimesOrder(a: real, b: real, k: real)
    requires k > 0.0
    ensures a < b <==> Times(a, k) < Times(b, k)
    ensures a <= b <==> Times(a, k) <= Times(b, k)
    ensures a == b <==> Times(a, k) == Times(b, k)
  {
    assert b * k - a * k == (b - a) * k;
  }

  lemma TimesAssoc(a: real, b: real, c: real)
    ensures Times(a, Times(b, c)) == Times(Times(a, b), c)
    ensures Times(a, b) == Times(b, a)
  {
  }

  lemma TimesSigns(a: real, k: real)
    ensures AbsReal(Times(a, k)) == Times(AbsReal(a), AbsReal(k))
    ensures Times(0.0, k) == 0.0 && Times(1.0, k) == k && Times(-1.0, k) == -k
    ensures a != 0.0 && k != 0.0 ==> Times(a, k) != 0.0
    ensures a > 0.0 && k > 0.0 ==> Times(a, k) > 0.0
  {
  }

  lemma TimesAdds(a: real, b: real, k: real)
    ensures Times(a + b, k) == Times(a, k) + Times(b, k)
    ensures Times(a - b, k) == Times(a, k) - Times(b, k)
  {
  }

  lemma TimesInts(a: int, b: int)
    ensures Times(a as real, b as real) == (a * b) as real
  {
  }

  /** 10^-n. */
  function Tenth(n: nat): real {
    if n == 0 then 1.0 else Tenth(n - 1) / 10.0
  }

  /** 10^e. */
  function Ten(e: int): real {
    if e >= 0 then Pow10(e) as real else Tenth(-e)
  }

  function ValueOf(d: Dec): real {
    Times(d.unscaled as real, Ten(0 - d.scale))
  }

  lemma TenStep(e: int)
    ensures Ten(e + 1) == 10.0 * Ten(e)
  {
  }

  lemma {:induction false} TenPositive(e: int)
    ensures Ten(e) > 0.0
    decreases Abs(e)
  {
    if e == 0 {
    } else if e > 0 {
      TenPositive(e - 1);
      TenStep(e - 1);
    } else {
      TenPositive(e + 1);
      TenStep(e);
    }
  }

  lemma {:induction false} TenAdds(m: int, n: int)
    ensures Ten(m + n) == Times(Ten(m), Ten(n))
    decreases Abs(n)
  {
    assert Ten(0) == 1.0;
    hide Ten, Times;
    if n == 0 {
      TimesAssoc(Ten(m), 1.0, 1.0);
      TimesSigns(1.0, Ten(m));
    } else {
      var k := if n > 0 then n - 1 else n;
      TenStep(k);
      TenStep(m + k);
      TenAdds(m, if n > 0 then n - 1 else n + 1);
      TimesTen(Ten(m), Ten(k));
    }
  }

  lemma TimesTen(a: real, b: real)
    ensures Times(a, 10.0 * b) == 10.0 * Times(a, b)
  {
  }

  lemma {:induction false} TenGrows(m: int, n: int)
    requires m < n
    ensures Ten(m) < Ten(n)
    decreases n - m
  {
    TenPositive(n - 1);
    TenStep(n - 1);
    if m == n - 1 {
    } else {
      TenGrows(m, n - 1);
    }
  }

  /** An integer scaled up by 10^k and down again. */
  lemma ScaleUp(x: int, k: nat, n: int)
    ensures Times((x * Pow10(k)) as real, Ten(n - k)) == Times(x as real, Ten(n))
  {
    TenAdds(n - k, k);
    assert Ten(k) == Pow10(k) as real;
    hide Ten, Times;
    TimesInts(x, Pow10(k));
    TimesAssoc(x as real, Ten(k), Ten(n - k));
    TimesAssoc(Ten(n - k), Ten(k), 1.0);
  }

  // ------------------------------------------------------------- exact results

  lemma AlignedValues(a: Dec, b: Dec)
    ensures var (au, bu, scale) := AlignedWith(a, b);
            Times(au as real, Ten(0 - scale)) == ValueOf(a) && Times(bu as real, Ten(0 - scale)) == ValueOf(b)
  {
    hide Ten, Times;
    var (au, bu, scale) := AlignedWith(a, b);
    ScaleUp(a.unscaled, scale - a.scale, 0 - a.scale);
    ScaleUp(b.unscaled, scale - b.scale, 0 - b.scale);
  }

  /** Add, Sub and Mul lose nothing. */
  lemma SumsAndProductsAreExact(a: Dec, b: Dec)
    ensures ValueOf(Add(a, b)) == ValueOf(a) + ValueOf(b)
    ensures ValueOf(Sub(a, b)) == ValueOf(a) - ValueOf(b)
    ensures ValueOf(Mul(a, b)) == Times(ValueOf(a), ValueOf(b))
  {
    AlignedValues(a, b);
    TenAdds(0 - a.scale, 0 - b.scale);
    TimesInts(a.unscaled, b.unscaled);
    var (au, bu, scale) := AlignedWith(a, b);
    var x, y, tx, ty := a.unscaled as real, b.unscaled as real, Ten(0 - a.scale), Ten(0 - b.scale);
    assert (au + bu) as real == au as real + bu as real && (au - bu) as real == au as real - bu as real;
    hide Ten, Times, AlignedWith;
    TimesAdds(au as real, bu as real, Ten(0 - scale));
    TimesPairs(x, y, tx, ty);
  }

  lemma TimesPairs(a: real, b: real, c: real, d: real)
    ensures Times(Times(a, b), Times(c, d)) == Times(Times(a, c), Times(b, d))
  {
    hide Times;
    TimesAssoc(a, b, Times(c, d));
    TimesAssoc(b, c, d);
    TimesAssoc(c, b, d);
    TimesAssoc(a, c, Times(b, d));
  }

  lemma NormalizedValue(digits: nat, exponent: int, sign: int)
    requires sign == 1 || sign == -1
    ensures ValueOf(NormalizeDecimal(digits, exponent, sign)) == Times((sign * digits) as real, Ten(exponent))
  {
    hide Ten, Times;
    if exponent > 0 {
      ScaleUp(sign * digits, exponent, exponent);
      assert sign * digits * Pow10(exponent) == sign * (digits * Pow10(exponent));
    }
  }
}
