/**
 Where Div and the reference's half-even division part: Div returns an exact
 quotient unrounded even past its precision, if its loop meets it. Which
 quotients those are is said of the operands.
 */
module LongQuotients {
  import opened Options
  import opened Arithmetic
  import opened Numerals
  import opened Decimals
  import opened DecimalDivision

  /** au / bu is q * 10^-t, with t as small as it can be, and q is too long by its last digits: by any number of them
      where it is an integer, and otherwise by the one digit the loop looks at. */
  predicate IsLongQuotient(au: nat, bu: nat, prec: nat, q: nat, t: nat) {
    && q * bu == au * Pow10(t)
    && if t == 0 then DigitCount(q) > prec && q % Pow10(DigitCount(q) - prec) != 0
       else DigitCount(q) == prec + 1 && q % 10 != 0
  }

  ghost predicate HasLongQuotient(a: Dec, b: Dec, prec: nat) {
    exists q: nat, t: nat :: IsLongQuotient(Abs(a.unscaled), Abs(b.unscaled), prec, q, t)
  }

  // ---------------------------------------------------------------- one more digit

  /** A numerator ten times as large gives a quotient with one more digit, which is zero just where both are exact. */
  lemma QuotientStep(x: nat, bu: nat)
    requires bu > 0
    ensures 0 <= x / bu == (10 * x) / bu / 10
    ensures x % bu == 0 ==> (10 * x) % bu == 0
    ensures (10 * x) % bu == 0 ==> (x % bu == 0 <==> (10 * x) / bu % 10 == 0)
  {
    var q, r := x / bu, x % bu;
    var e, f := 10 * r / bu, 10 * r % bu;
    DivBelow(10 * r, bu, 10);
    DivBelow(10 * r, bu, 0);
    DivBelow(x, bu, 0);
    TenTimes(x, bu, q, r, e, f);
    DivModIs(10 * x, bu, 10 * q + e, f);
    DivModIs(10 * q + e, 10, q, e);
    if e == 0 {
    } else if r == 0 {
      DivModIs(0, bu, 0, 0);
    }
  }

  lemma TenTimes(x: int, bu: int, q: int, r: int, e: int, f: int)
    requires x == bu * q + r && 10 * r == bu * e + f
    ensures 10 * x == bu * (10 * q + e) + f
  {
  }

  lemma DigitStep(q: nat)
    ensures q / 10 >= 0 && DigitCount(q) == if q < 10 then 1 else DigitCount(q / 10) + 1
  {
    if q > 0 {
      DivSmaller(q, 10);
      SpellWidth(q / 10, 0, DECIMAL);
    }
  }

  function QuotientOf(au: nat, bu: nat, t: nat): (q: nat)
    requires bu > 0
  {
    QuotientNat(au * Pow10(t), bu);
    au * Pow10(t) / bu
  }

  lemma ShiftStep(au: nat, bu: nat, t: nat)
    requires bu > 0
    ensures var x, y := au * Pow10(t), au * Pow10(t + 1);
            && QuotientOf(au, bu, t) == QuotientOf(au, bu, t + 1) / 10
            && (x % bu == 0 ==> y % bu == 0)
            && (y % bu == 0 ==> (x % bu == 0 <==> QuotientOf(au, bu, t + 1) % 10 == 0))
  {
    assert au * Pow10(t + 1) == 10 * (au * Pow10(t));
    QuotientStep(au * Pow10(t), bu);
  }

  // ---------------------------------------------------------- where the loop stops

  /** Below the shift of a long fraction the loop goes on. */
  lemma {:induction false} GoesOnBelow(au: nat, bu: nat, prec: nat, q: nat, t: nat, k: nat)
    requires bu > 0 && prec >= 1 && k < t && IsLongQuotient(au, bu, prec, q, t)
    ensures !Stops(au, bu, prec, k)
    decreases t - k
  {
    ShiftStep(au, bu, k);
    DigitStep(QuotientOf(au, bu, k + 1));
    if k + 1 == t {
      ExactAt(au, bu, q, t);
    } else {
      GoesOnBelow(au, bu, prec, q, t, k + 1);
    }
  }

  lemma ExactAt(au: nat, bu: nat, q: nat, t: nat)
    requires bu > 0 && q * bu == au * Pow10(t)
    ensures QuotientOf(au, bu, t) == q && au * Pow10(t) % bu == 0
  {
    DivModIs(au * Pow10(t), bu, q, 0);
  }

  lemma StopsThere(au: nat, bu: nat, prec: nat, q: nat, t: nat)
    requires au > 0 && bu > 0 && prec >= 1 && IsLongQuotient(au, bu, prec, q, t)
    ensures StopShift(au, bu, prec, 0) == t
  {
    ExactAt(au, bu, q, t);
    var s := StopShift(au, bu, prec, 0);
    assert Stops(au, bu, prec, t);
    hide Stops, IsLongQuotient;
    if s < t {
      GoesOnBelow(au, bu, prec, q, t, s);
    }
  }

  /** Where the loop stopped past the first pass, the quotient has at most one digit too many, and that is not a zero.
      */
  lemma StoppedLate(au: nat, bu: nat, prec: nat)
    requires au > 0 && bu > 0 && prec >= 1
    ensures var s := StopShift(au, bu, prec, 0);
            var q := QuotientOf(au, bu, s);
            s > 0 && au * Pow10(s) % bu == 0 && DigitCount(q) > prec ==> DigitCount(q) == prec + 1 && q % 10 != 0
  {
    var s := StopShift(au, bu, prec, 0);
    if s > 0 {
      assert !Stops(au, bu, prec, s - 1);
      ShiftStep(au, bu, s - 1);
      DigitStep(QuotientOf(au, bu, s));
    }
  }

  /** The loop keeps extra digits exactly of the long quotients. */
  lemma KeepsLongQuotients(a: Dec, b: Dec, prec: nat)
    requires prec >= 1 && a.unscaled != 0 && b.unscaled != 0
    ensures KeepsExtraDigits(a, b, prec) <==> HasLongQuotient(a, b, prec)
  {
    var au, bu, s := Abs(a.unscaled), Abs(b.unscaled), StopOf(a, b, prec);
    assert QuotientAt(a, b, s) == QuotientOf(au, bu, s) && RemainderAt(a, b, s) == au * Pow10(s) % bu;
    assert Pow10(1) == 10;
    if KeepsExtraDigits(a, b, prec) {
      StoppedLate(au, bu, prec);
      Rebuild(au * Pow10(s), bu);
      assert IsLongQuotient(au, bu, prec, QuotientOf(au, bu, s), s);
    }
    if HasLongQuotient(a, b, prec) {
      var q: nat, t: nat :| IsLongQuotient(au, bu, prec, q, t);
      StopsThere(au, bu, prec, q, t);
      ExactAt(au, bu, q, t);
    }
  }

  // ------------------------------------------------------------------- theorems

  /** Div gives the reference's half-even quotient to prec digits exactly when the operands have no long quotient. */
  lemma DivMatchesReferenceIff(a: Dec, b: Dec, prec: nat)
    requires prec >= 1 && a.unscaled != 0 && b.unscaled != 0
    ensures Div(a, b, prec).Some?
    ensures IsReferenceQuotient(Div(a, b, prec).value, a, b, prec) <==> !HasLongQuotient(a, b, prec)
  {
    hide Div, KeepsExtraDigits, HasLongQuotient, IsReferenceQuotient;
    AgreesUnlessExtraDigits(a, b, prec);
    KeepsLongQuotients(a, b, prec);
  }

  /** An integer over 1 is a long quotient exactly when it is longer than the precision and not rounded to it already.
      */
  lemma IntegersKeepTheirDigits(n: nat, prec: nat)
    requires n > 0 && prec >= 1
    ensures HasLongQuotient(Dec(n, 0), Dec(1, 0), prec) <==> DigitCount(n) > prec && n % Pow10(DigitCount(n) - prec) != 0
  {
    assert Pow10(0) == 1;
    hide DigitCount, Pow10;
    if q: nat, t: nat :| IsLongQuotient(Abs(n), Abs(1), prec, q, t) {
      if t > 0 {
        TenDivides(n, t, q);
      }
    }
    if DigitCount(n) > prec && n % Pow10(DigitCount(n) - prec) != 0 {
      assert IsLongQuotient(n, 1, prec, n, 0);
    }
  }

  lemma TenDivides(n: nat, t: nat, q: nat)
    requires t > 0 && q == n * Pow10(t)
    ensures q % 10 == 0
  {
    assert q == 10 * (n * Pow10(t - 1));
  }

  lemma PowerPlusOne(d: nat)
    requires d >= 1
    ensures DigitCount(Pow10(d) + 1) == d + 1 && (Pow10(d) + 1) % Pow10(1) == 1
  {
    assert Pow10(d + 1) == 10 * Pow10(d) && Pow10(d) == 10 * Pow10(d - 1) && Pow10(1) == 10;
    hide Pow10, DigitCount;
    DecimalWidth(Pow10(d) + 1, d);
    DecimalWidth(Pow10(d) + 1, d + 1);
  }

  /** At the precision of every call: 10^28 + 1, divided by 1, comes back with 29 digits. */
  lemma TwentyNineDigits()
    ensures HasLongQuotient(Dec(Pow10(28) + 1, 0), Dec(1, 0), DECIMAL_PRECISION)
    ensures DigitCount(Pow10(28) + 1) == 29
  {
    hide Pow10, DigitCount, HasLongQuotient;
    PowerPlusOne(28);
    IntegersKeepTheirDigits(Pow10(28) + 1, DECIMAL_PRECISION);
  }
}
