/**
 What Div's result is worth: the exact quotient when the loop met one, and the
 correctly rounded one (ties to even) otherwise.
 */
module DecimalDivision {
  import opened Options
  import opened Arithmetic
  import opened Numerals
  import opened Decimals

  /** The size of x / y: prec digits before the point when counted in units of 10^e. */
  ghost predicate HasSize(e: int, x: real, y: real, prec: nat) {
    Times(Ten(e + prec - 1), AbsReal(y)) <= AbsReal(x) < Times(Ten(e + prec), AbsReal(y))
  }

  /** c is the integer nearest to x / w, a tie going to the even one. */
  ghost predicate IsNearest(c: int, x: real, w: real) {
    && 2.0 * AbsReal(x - Times(c as real, w)) <= AbsReal(w)
    && (2.0 * AbsReal(x - Times(c as real, w)) == AbsReal(w) ==> c % 2 == 0)
  }

  /** c * 10^e is x / y rounded to prec significant digits, ties to even
      (roundTiesToEven, IEEE 754-2008 section 4.3.1). */
  ghost predicate IsRounded(c: int, e: int, x: real, y: real, prec: nat) {
    HasSize(e, x, y, prec) && IsNearest(c, x, Times(Ten(e), y))
  }

  // ------------------------------------------------------------------ uniqueness

  lemma NearestIsUnique(c1: int, c2: int, x: real, w: real)
    requires w != 0.0 && IsNearest(c1, x, w) && IsNearest(c2, x, w)
    ensures c1 == c2
  {
    hide Times;
    var d := c2 - c1;
    TimesAdds(c2 as real, c1 as real, w);
    assert (c2 as real) - (c1 as real) == d as real;
    TimesSigns(d as real, w);
    assert AbsReal(Times(d as real, w)) <= AbsReal(w);
    TimesOrder(1.0, AbsReal(d as real), AbsReal(w));
    TimesSigns(0.0, AbsReal(w));
    assert AbsReal(d as real) <= 1.0;
  }

  /** The size of the quotient fixes the exponent. */
  lemma ExponentIsUnique(e1: int, e2: int, x: real, y: real, prec: nat)
    requires y != 0.0 && HasSize(e1, x, y, prec) && HasSize(e2, x, y, prec)
    ensures e1 == e2
  {
    hide Ten, Times;
    if e1 < e2 {
      TenOrdered(e1 + prec, e2 + prec - 1);
      TimesOrder(Ten(e1 + prec), Ten(e2 + prec - 1), AbsReal(y));
    } else if e2 < e1 {
      TenOrdered(e2 + prec, e1 + prec - 1);
      TimesOrder(Ten(e2 + prec), Ten(e1 + prec - 1), AbsReal(y));
    }
  }

  lemma TenOrdered(m: int, n: int)
    requires m <= n
    ensures Ten(m) <= Ten(n)
  {
    if m < n {
      TenGrows(m, n);
    }
  }

  /** There is one rounded quotient. */
  lemma RoundedIsUnique(c1: int, e1: int, c2: int, e2: int, x: real, y: real, prec: nat)
    requires y != 0.0
    requires IsRounded(c1, e1, x, y, prec) && IsRounded(c2, e2, x, y, prec)
    ensures c1 == c2 && e1 == e2
  {
    hide Ten, Times, HasSize, IsNearest;
    ExponentIsUnique(e1, e2, x, y, prec);
    TenPositive(e1);
    TimesSigns(Ten(e1), y);
    NearestIsUnique(c1, c2, x, Times(Ten(e1), y));
  }

  // ------------------------------------------------------------- integer rounding

  lemma PowTenHalves(d: nat)
    requires d >= 1
    ensures Pow10(d) == 2 * (Pow10(d) / 2) && Pow10(d) / 2 >= 1
  {
    assert Pow10(d) == 2 * (5 * Pow10(d - 1));
  }

  /** Rounding q + r/bu, 0 < r < bu, at the d-th digit is off by less than half of 10^d. */
  lemma RoundHalfEvenIsNearest(q: nat, d: nat, bu: nat, r: nat, x: nat)
    requires d >= 1 && 0 < r < bu && x == bu * q + r
    ensures var p := RoundHalfEven(q, d, true) * Pow10(d) * bu;
            -(Pow10(d) * bu) < 2 * (x - p) < Pow10(d) * bu
  {
    var dd := Pow10(d);
    PowTenHalves(d);
    var h := dd / 2;
    var q0, m := q / dd, q % dd;
    assert q == dd * q0 + m;
    assert x - q0 * dd * bu == bu * m + r by {
      assert bu * (dd * q0 + m) == q0 * dd * bu + bu * m;
    }
    if m < h {
      MulGrows(bu, m, h);
      assert dd * bu == 2 * (bu * h);
    } else {
      assert (q0 + 1) * dd * bu == q0 * dd * bu + dd * bu;
      if m > h {
        MulGrows(bu, h, m);
      }
      assert dd * bu == 2 * (bu * h);
      MulGrows(bu, m, dd);
    }
  }

  /** On a tie with nothing below, the even neighbour; with something below, always up. */
  lemma RoundHalfEvenTie(q: nat, d: nat)
    requires d >= 1 && q % Pow10(d) == Pow10(d) / 2
    ensures RoundHalfEven(q, d, false) % 2 == 0
    ensures RoundHalfEven(q, d, true) == q / Pow10(d) + 1
  {
    PowTenHalves(d);
  }

  /** A quotient of n digits lies between 10^(n-1) and 10^n, and the kept part between 10^(prec-1) and 10^prec. */
  lemma KeptDigits(q: nat, prec: nat)
    requires 1 <= prec < DigitCount(q)
    ensures Pow10(DigitCount(q) - 1) <= q < Pow10(DigitCount(q))
    ensures Pow10(prec - 1) <= RoundHalfEven(q, DigitCount(q) - prec, true) <= Pow10(prec)
  {
    var n := DigitCount(q);
    var d := n - prec;
    DecimalWidth(q, n);
    DecimalWidth(q, n - 1);
    PowAdds(10, d, prec);
    PowAdds(10, d, prec - 1);
    DivBelow(q, Pow10(d), Pow10(prec));
    DivBelow(q, Pow10(d), Pow10(prec - 1));
  }

  // ------------------------------------------------------------ to real numbers

  function SignOf(x: int): (s: int)
    ensures s == 1 || s == -1
  {
    if x < 0 then -1 else 1
  }

  /** The common scale of both operands at a shift. */
  function Unit(a: Dec, shift: nat): real {
    Ten(0 - shift - a.scale)
  }

  /** The exponent of the j-th digit of the shifted quotient. */
  function ExponentAt(a: Dec, b: Dec, shift: nat, j: int): int {
    j - shift + b.scale - a.scale
  }

  lemma AbsValue(d: Dec)
    ensures AbsReal(ValueOf(d)) == Times(Abs(d.unscaled) as real, Ten(0 - d.scale))
    ensures ValueOf(d) == Times(SignOf(d.unscaled) as real, AbsReal(ValueOf(d)))
    ensures d.unscaled != 0 ==> ValueOf(d) != 0.0
  {
    hide Ten;
    TenPositive(0 - d.scale);
    TimesSigns(d.unscaled as real, Ten(0 - d.scale));
  }

  /** The dividend at a shift: |a| is au * 10^shift units. */
  lemma DividendAtShift(a: Dec, shift: nat)
    ensures AbsReal(ValueOf(a)) == Times((Abs(a.unscaled) * Pow10(shift)) as real, Unit(a, shift))
  {
    hide Ten;
    AbsValue(a);
    ScaleUp(Abs(a.unscaled), shift, 0 - a.scale);
  }

  /** The divisor at a shift: 10^e * |b| is 10^j * bu units. */
  lemma DivisorAtShift(a: Dec, b: Dec, shift: nat, j: nat)
    ensures Times(Ten(ExponentAt(a, b, shift, j)), AbsReal(ValueOf(b)))
         == Times((Pow10(j) * Abs(b.unscaled)) as real, Unit(a, shift))
  {
    var e, bu, k := ExponentAt(a, b, shift, j), Abs(b.unscaled) as real, Unit(a, shift);
    AbsValue(b);
    TenAdds(e, 0 - b.scale);
    TenAdds(j, 0 - shift - a.scale);
    assert Times(Ten(e), Ten(0 - b.scale)) == Times(Ten(j), k);
    TimesInts(Pow10(j), Abs(b.unscaled));
    var t, tb, tj := Ten(e), Ten(0 - b.scale), Ten(j);
    assert tj == Pow10(j) as real;
    hide *;
    TimesAssoc(t, bu, tb);
    TimesAssoc(bu, t, tb);
    TimesAssoc(bu, tj, k);
    TimesAssoc(bu, t, tb);
    assert Times(t, Times(bu, tb)) == Times(bu, Times(t, tb));
    assert Times(bu, Times(tj, k)) == Times(Times(tj, bu), k);
  }

  /** a - c*10^e*b at a shift: the integers' difference, in units. */
  lemma ErrorAtShift(a: Dec, b: Dec, shift: nat, j: nat, c: nat)
    ensures var w := Times(Ten(ExponentAt(a, b, shift, j)), ValueOf(b));
            AbsReal(ValueOf(a) - Times((Sign(a, b) * c) as real, w))
            == Times(Abs(Abs(a.unscaled) * Pow10(shift) - c * (Pow10(j) * Abs(b.unscaled))) as real, Unit(a, shift))
  {
    DividendAtShift(a, shift);
    DivisorAtShift(a, b, shift, j);
    AbsValue(a);
    AbsValue(b);
    TenPositive(0 - shift - a.scale);
    assert Sign(a, b) * SignOf(b.unscaled) == SignOf(a.unscaled);
    hide Ten, ValueOf, Times, SignOf, Sign, ExponentAt, Abs, AbsReal;
    ErrorInUnits(SignOf(a.unscaled), SignOf(b.unscaled), Sign(a, b), Abs(a.unscaled) * Pow10(shift), c,
                 Pow10(j) * Abs(b.unscaled), Ten(ExponentAt(a, b, shift, j)), Unit(a, shift),
                 AbsReal(ValueOf(a)), AbsReal(ValueOf(b)));
  }

  lemma ErrorInUnits(sa: int, sb: int, sign: int, x: int, c: int, p: int, t: real, k: real, aa: real, ab: real)
    requires (sa == 1 || sa == -1) && (sb == 1 || sb == -1) && (sign == 1 || sign == -1) && sign * sb == sa
    requires k > 0.0 && aa == Times(x as real, k) && Times(t, ab) == Times(p as real, k)
    ensures AbsReal(Times(sa as real, aa) - Times((sign * c) as real, Times(t, Times(sb as real, ab))))
         == Times(Abs(x - c * p) as real, k)
  {
    hide Times, Abs, AbsReal;
    ScaledInt(sa, x, k);
    ScaledInt(sb, p, k);
    ScaledInt(sign * c, sb * p, k);
    TimesAssoc(t, sb as real, ab);
    TimesAssoc(sb as real, t, ab);
    SignedDifference(sa, sb, sign, x, c, p);
    TimesAdds((sa * x) as real, (sign * c * (sb * p)) as real, k);
    TimesSigns((sa * (x - c * p)) as real, k);
    assert AbsReal(k) == k by {
      AbsOfPositive(k);
    }
  }

  lemma AbsOfPositive(k: real)
    requires k > 0.0
    ensures AbsReal(k) == k
  {
  }

  lemma ScaledInt(m: int, n: int, k: real)
    ensures Times(m as real, Times(n as real, k)) == Times((m * n) as real, k)
  {
    hide Times;
    TimesAssoc(m as real, n as real, k);
    TimesInts(m, n);
  }

  lemma SignedDifference(sa: int, sb: int, sign: int, x: int, c: int, p: int)
    requires (sa == 1 || sa == -1) && (sb == 1 || sb == -1) && (sign == 1 || sign == -1) && sign * sb == sa
    ensures sa * x - sign * c * (sb * p) == sa * (x - c * p)
    ensures (sa * x) as real - (sign * c * (sb * p)) as real == (sa * (x - c * p)) as real
    ensures AbsReal((sa * (x - c * p)) as real) == Abs(x - c * p) as real
  {
    assert sign * c * (sb * p) == sign * sb * (c * p);
  }

  // -------------------------------------------------------------------- theorems

  /** Where the loop stopped: the shift, the integer quotient and its remainder. */
  function StopOf(a: Dec, b: Dec, prec: nat): (s: nat)
    requires a.unscaled != 0 && b.unscaled != 0
    ensures Stops(Abs(a.unscaled), Abs(b.unscaled), prec, s)
  {
    StopShift(Abs(a.unscaled), Abs(b.unscaled), prec, 0)
  }

  function Shifted(a: Dec, shift: nat): nat {
    Abs(a.unscaled) * Pow10(shift)
  }

  function QuotientAt(a: Dec, b: Dec, shift: nat): (q: nat)
    requires b.unscaled != 0
  {
    QuotientNat(Shifted(a, shift), Abs(b.unscaled));
    Shifted(a, shift) / Abs(b.unscaled)
  }

  function RemainderAt(a: Dec, b: Dec, shift: nat): (r: nat)
    requires b.unscaled != 0
    ensures r < Abs(b.unscaled)
    ensures Shifted(a, shift) == Abs(b.unscaled) * QuotientAt(a, b, shift) + r
  {
    Shifted(a, shift) % Abs(b.unscaled)
  }

  /** A quotient of n digits at a shift gives the real quotient its size. */
  lemma SizeAtShift(a: Dec, b: Dec, shift: nat, prec: nat)
    requires b.unscaled != 0 && QuotientAt(a, b, shift) >= 1
    ensures HasSize(ExponentAt(a, b, shift, DigitCount(QuotientAt(a, b, shift)) - prec), ValueOf(a), ValueOf(b), prec)
  {
    var q, n := QuotientAt(a, b, shift), DigitCount(QuotientAt(a, b, shift));
    var bu, k := Abs(b.unscaled), Unit(a, shift);
    var low, high := Pow10(n - 1) * bu, Pow10(n) * bu;
    assert low <= Shifted(a, shift) < high by {
      LeadingDigit(q);
      var r := RemainderAt(a, b, shift);
      DivBelow(Shifted(a, shift), bu, Pow10(n));
      DivBelow(Shifted(a, shift), bu, Pow10(n - 1));
    }
    DividendAtShift(a, shift);
    DivisorAtShift(a, b, shift, n - 1);
    DivisorAtShift(a, b, shift, n);
    TenPositive(0 - shift - a.scale);
    hide Times, ValueOf, Ten, QuotientAt;
    TimesOrder(low as real, Shifted(a, shift) as real, k);
    TimesOrder(Shifted(a, shift) as real, high as real, k);
  }

  lemma LeadingDigit(q: nat)
    requires q >= 1
    ensures Pow10(DigitCount(q) - 1) <= q < Pow10(DigitCount(q))
  {
    var n := DigitCount(q);
    DecimalWidth(q, n);
    if n > 1 {
      DecimalWidth(q, n - 1);
    }
  }

  /** Div's value, by the shift its loop stopped at. */
  lemma DivValue(a: Dec, b: Dec, prec: nat)
    requires a.unscaled != 0 && b.unscaled != 0
    ensures var s := StopOf(a, b, prec);
            var q := QuotientAt(a, b, s);
            var d := if RemainderAt(a, b, s) == 0 then 0 else DigitCount(q) - prec;
            var kept := if RemainderAt(a, b, s) == 0 then q else RoundHalfEven(q, d, true);
            && d >= 0
            && Div(a, b, prec).Some?
            && ValueOf(Div(a, b, prec).value) == Times((Sign(a, b) * kept) as real, Ten(ExponentAt(a, b, s, d)))
  {
    var s := StopOf(a, b, prec);
    var q := QuotientAt(a, b, s);
    var d := if RemainderAt(a, b, s) == 0 then 0 else DigitCount(q) - prec;
    var kept := if RemainderAt(a, b, s) == 0 then q else RoundHalfEven(q, d, true);
    hide Times, Ten, RoundHalfEven, ValueOf, NormalizeDecimal;
    NormalizedValue(kept, ExponentAt(a, b, s, d), Sign(a, b));
  }

  lemma KeptIsNearest(a: Dec, b: Dec, shift: nat, d: nat)
    requires b.unscaled != 0 && d >= 1 && RemainderAt(a, b, shift) != 0
    ensures var kept := RoundHalfEven(QuotientAt(a, b, shift), d, true);
            IsNearest(Sign(a, b) * kept, ValueOf(a), Times(Ten(ExponentAt(a, b, shift, d)), ValueOf(b)))
  {
    var q, r := QuotientAt(a, b, shift), RemainderAt(a, b, shift);
    var kept := RoundHalfEven(q, d, true);
    RoundHalfEvenIsNearest(q, d, Abs(b.unscaled), r, Shifted(a, shift));
    hide RoundHalfEven, IsNearest, Ten, Times, ValueOf, Pow10, QuotientAt, RemainderAt, Shifted, ExponentAt, Sign;
    MulAssoc(kept, Pow10(d), Abs(b.unscaled));
    NearestAtShift(a, b, shift, d, kept);
  }

  /** With a remainder left, Div is correctly rounded: the nearest multiple of the last kept power of ten, strictly
      within half of it, with a coefficient of prec digits (or the power of ten above them). */
  lemma DivRounds(a: Dec, b: Dec, prec: nat)
    requires prec >= 1 && a.unscaled != 0 && b.unscaled != 0
    requires RemainderAt(a, b, StopOf(a, b, prec)) != 0
    ensures var s := StopOf(a, b, prec);
            var q := QuotientAt(a, b, s);
            var d := DigitCount(q) - prec;
            var c, e := Sign(a, b) * RoundHalfEven(q, d, true), ExponentAt(a, b, s, d);
            && IsRounded(c, e, ValueOf(a), ValueOf(b), prec)
            && Pow10(prec - 1) <= Abs(c) <= Pow10(prec)
            && Div(a, b, prec).Some? && ValueOf(Div(a, b, prec).value) == Times(c as real, Ten(e))
  {
    var s := StopOf(a, b, prec);
    var q := QuotientAt(a, b, s);
    assert DigitCount(q) > prec;
    hide RoundHalfEven, HasSize, IsNearest, Ten, Times, ValueOf, QuotientAt, RemainderAt, Div, StopOf;
    DivValue(a, b, prec);
    KeptDigits(q, prec);
    SizeAtShift(a, b, s, prec);
    KeptIsNearest(a, b, s, DigitCount(q) - prec);
  }

  /** Closer than half a unit in the integers is nearest in the reals. */
  lemma NearestAtShift(a: Dec, b: Dec, shift: nat, j: nat, c: nat)
    requires b.unscaled != 0
    requires var p := Pow10(j) * Abs(b.unscaled); -p < 2 * (Shifted(a, shift) - c * p) < p
    ensures IsNearest(Sign(a, b) * c, ValueOf(a), Times(Ten(ExponentAt(a, b, shift, j)), ValueOf(b)))
  {
    var p := Pow10(j) * Abs(b.unscaled);
    var k, t := Unit(a, shift), Ten(ExponentAt(a, b, shift, j));
    var off := Abs(Shifted(a, shift) - c * p);
    assert 2 * off < p;
    ErrorAtShift(a, b, shift, j, c);
    DivisorAtShift(a, b, shift, j);
    TenPositive(0 - shift - a.scale);
    TenPositive(ExponentAt(a, b, shift, j));
    hide Ten, Times, ValueOf, ExponentAt, Sign;
    TimesSigns(t, ValueOf(b));
    TimesOrder((2 * off) as real, p as real, k);
    TimesAdds(off as real, off as real, k);
  }

  lemma ExactAtShift(a: Dec, b: Dec, shift: nat)
    requires b.unscaled != 0 && RemainderAt(a, b, shift) == 0
    ensures Times(Times((Sign(a, b) * QuotientAt(a, b, shift)) as real, Ten(ExponentAt(a, b, shift, 0))), ValueOf(b))
         == ValueOf(a)
  {
    var q := QuotientAt(a, b, shift);
    assert Shifted(a, shift) - q * (Pow10(0) * Abs(b.unscaled)) == 0;
    ErrorAtShift(a, b, shift, 0, q);
    hide Ten, Times, ValueOf, ExponentAt, Sign, QuotientAt, Shifted;
    TimesSigns(0.0, Unit(a, shift));
    TimesAssoc((Sign(a, b) * q) as real, Ten(ExponentAt(a, b, shift, 0)), ValueOf(b));
  }

  /** With no remainder, Div is the exact quotient, however many digits it has. */
  lemma DivIsExact(a: Dec, b: Dec, prec: nat)
    requires a.unscaled != 0 && b.unscaled != 0
    requires RemainderAt(a, b, StopOf(a, b, prec)) == 0
    ensures Div(a, b, prec).Some? && Times(ValueOf(Div(a, b, prec).value), ValueOf(b)) == ValueOf(a)
  {
    hide Ten, Times, ValueOf, ExponentAt, Sign, Div, StopOf, QuotientAt, RemainderAt;
    DivValue(a, b, prec);
    ExactAtShift(a, b, StopOf(a, b, prec));
  }

  /** A finite quotient c * 10^e, cleared of fractions. */
  lemma FiniteQuotient(a: Dec, b: Dec, c: int, e: int, shift: nat, j: nat)
    requires b.unscaled != 0 && e == ExponentAt(a, b, shift, j)
    requires ValueOf(a) == Times(c as real, Times(Ten(e), ValueOf(b)))
    ensures Shifted(a, shift) == Abs(c) * (Pow10(j) * Abs(b.unscaled))
  {
    var k, t, p := Unit(a, shift), Ten(e), Pow10(j) * Abs(b.unscaled);
    DividendAtShift(a, shift);
    DivisorAtShift(a, b, shift, j);
    TenPositive(e);
    TenPositive(0 - shift - a.scale);
    AbsOfPositive(t);
    assert AbsReal(c as real) == Abs(c) as real;
    hide Ten, Times, ValueOf, ExponentAt, AbsReal, Abs;
    TimesSigns(c as real, Times(t, ValueOf(b)));
    TimesSigns(t, ValueOf(b));
    ScaledInt(Abs(c), p, k);
    TimesOrder(Shifted(a, shift) as real, (Abs(c) * p) as real, k);
  }

  /** Div returns the exact quotient whenever it has a finite expansion of at most prec significant digits. */
  lemma FiniteQuotientIsExact(a: Dec, b: Dec, prec: nat, c: int, e: int)
    requires a.unscaled != 0 && b.unscaled != 0
    requires Abs(c) < Pow10(prec) && ValueOf(a) == Times(c as real, Times(Ten(e), ValueOf(b)))
    ensures Div(a, b, prec).Some? && ValueOf(Div(a, b, prec).value) == Times(c as real, Ten(e))
    ensures Times(ValueOf(Div(a, b, prec).value), ValueOf(b)) == ValueOf(a)
  {
    var s := StopOf(a, b, prec);
    FiniteLeavesNothing(a, b, prec, c, e);
    DivIsExact(a, b, prec);
    AbsValue(b);
    hide Ten, Times, ValueOf, Div;
    TimesAssoc(c as real, Ten(e), ValueOf(b));
    QuotientIsOne(ValueOf(Div(a, b, prec).value), Times(c as real, Ten(e)), ValueOf(b));
  }

  lemma QuotientIsOne(x: real, y: real, w: real)
    requires w != 0.0 && Times(x, w) == Times(y, w)
    ensures x == y
  {
    TimesAdds(x, y, w);
    TimesSigns(x - y, w);
  }

  lemma FiniteLeavesNothing(a: Dec, b: Dec, prec: nat, c: int, e: int)
    requires a.unscaled != 0 && b.unscaled != 0
    requires Abs(c) < Pow10(prec) && ValueOf(a) == Times(c as real, Times(Ten(e), ValueOf(b)))
    ensures RemainderAt(a, b, StopOf(a, b, prec)) == 0
  {
    var s := StopOf(a, b, prec);
    var j := e + s - b.scale + a.scale;
    hide Ten, Times, ValueOf, StopOf, Pow10;
    if j >= 0 {
      FiniteQuotient(a, b, c, e, s, j);
      WholeQuotient(Shifted(a, s), Abs(c), Pow10(j), Abs(b.unscaled));
    } else {
      FiniteQuotient(a, b, c, e, s - j, 0);
      ShiftFurther(a, s, -j);
      ShortQuotient(a, b, prec, s, Pow10(-j), Abs(c));
    }
  }

  lemma WholeQuotient(x: nat, c: nat, p: nat, bu: nat)
    requires bu >= 1 && x == c * (p * bu)
    ensures x % bu == 0
  {
    assert x == bu * (c * p);
    DivModIs(x, bu, c * p, 0);
  }

  lemma ShiftFurther(a: Dec, shift: nat, more: nat)
    ensures Shifted(a, shift + more) == Shifted(a, shift) * Pow10(more)
  {
    PowAdds(10, shift, more);
    MulAssoc(Abs(a.unscaled), Pow10(shift), Pow10(more));
  }

  lemma BelowLimit(x: nat, p: nat, c: nat, bu: nat, limit: nat)
    requires p >= 1 && bu >= 1 && c < limit && x * p == c * bu
    ensures x < bu * limit
    ensures c == 0 ==> x == 0
  {
    MulGrows(bu, c, limit);
    if p > 1 && x > 0 {
      MulGrows(x, 1, p);
    }
    if x > 0 {
      MulGrows(x, 0, p);
    }
  }

  lemma ShortQuotient(a: Dec, b: Dec, prec: nat, shift: nat, p: nat, c: nat)
    requires a.unscaled != 0 && b.unscaled != 0 && p >= 1 && c < Pow10(prec)
    requires Shifted(a, shift) * p == c * (Pow10(0) * Abs(b.unscaled))
    requires Stops(Abs(a.unscaled), Abs(b.unscaled), prec, shift)
    ensures RemainderAt(a, b, shift) == 0
  {
    var x, bu, q := Shifted(a, shift), Abs(b.unscaled), QuotientAt(a, b, shift);
    assert Pow10(0) * bu == bu;
    assert RemainderAt(a, b, shift) == 0 || DigitCount(q) > prec;
    assert q == x / bu;
    MulGrows(Abs(a.unscaled), 0, Pow10(shift));
    assert x > 0;
    if prec >= 1 {
      DecimalWidth(q, prec);
    } else {
      assert Pow10(prec) == 1;
    }
    hide Pow10, Shifted, QuotientAt, RemainderAt, Stops, DigitCount;
    BelowLimit(x, p, c, bu, Pow10(prec));
    DivBelow(x, bu, Pow10(prec));
  }

  // ------------------------------------------------- against the reference division

  /** Div's result is the reference's: the quotient rounded half-even to prec significant digits. */
  ghost predicate IsReferenceQuotient(r: Dec, a: Dec, b: Dec, prec: nat) {
    exists c: int, e: int :: IsRounded(c, e, ValueOf(a), ValueOf(b), prec) && ValueOf(r) == Times(c as real, Ten(e))
  }

  /** The loop met an exact quotient with non-zero digits past the precision. */
  predicate KeepsExtraDigits(a: Dec, b: Dec, prec: nat)
    requires a.unscaled != 0 && b.unscaled != 0
  {
    var s := StopOf(a, b, prec);
    var q := QuotientAt(a, b, s);
    && RemainderAt(a, b, s) == 0
    && DigitCount(q) > prec
    && q % Pow10(DigitCount(q) - prec) != 0
  }

  /** An exact value with at most prec digits is its own rounding. */
  lemma ExactIsRounded(c: int, e: int, x: real, y: real, prec: nat)
    requires y != 0.0 && HasSize(e, x, y, prec) && Times(Times(c as real, Ten(e)), y) == x
    ensures IsRounded(c, e, x, y, prec)
  {
    TenPositive(e);
    hide Ten, Times, HasSize;
    TimesAssoc(c as real, Ten(e), y);
    TimesSigns(Ten(e), y);
  }

  /** q * 10^e read at the digit above or below: digits trailing zeros allow. */
  lemma Regroup(sign: int, q: nat, prec: nat, a: Dec, b: Dec, shift: nat) returns (c: int)
    requires sign == 1 || sign == -1
    requires DigitCount(q) > prec ==> q % Pow10(DigitCount(q) - prec) == 0
    ensures Times(c as real, Ten(ExponentAt(a, b, shift, DigitCount(q) - prec)))
         == Times((sign * q) as real, Ten(ExponentAt(a, b, shift, 0)))
  {
    var j := DigitCount(q) - prec;
    var e0 := ExponentAt(a, b, shift, 0);
    hide Ten, Times, DigitCount;
    if j > 0 {
      var p := Pow10(j);
      c := sign * (q / p);
      Rebuild(q, p);
      assert c * p == sign * q by {
        MulAssoc(sign, q / p, p);
      }
      ScaleUp(c, j, e0 + j);
    } else {
      c := sign * q * Pow10(-j);
      ScaleUp(sign * q, -j, e0);
    }
  }

  lemma RegroupedIsReference(a: Dec, b: Dec, prec: nat)
    requires prec >= 1 && a.unscaled != 0 && b.unscaled != 0
    requires RemainderAt(a, b, StopOf(a, b, prec)) == 0 && !KeepsExtraDigits(a, b, prec)
    ensures Div(a, b, prec).Some? && IsReferenceQuotient(Div(a, b, prec).value, a, b, prec)
  {
    var s := StopOf(a, b, prec);
    var q := QuotientAt(a, b, s);
    ExactQuotientPositive(a, b, s);
    AbsValue(b);
    hide Ten, Times, ValueOf, Div, StopOf, QuotientAt, RemainderAt, ExponentAt, HasSize, IsRounded;
    DivIsExact(a, b, prec);
    DivValue(a, b, prec);
    SizeAtShift(a, b, s, prec);
    var c := Regroup(Sign(a, b), q, prec, a, b, s);
    ExactIsRounded(c, ExponentAt(a, b, s, DigitCount(q) - prec), ValueOf(a), ValueOf(b), prec);
  }

  lemma ExactQuotientPositive(a: Dec, b: Dec, shift: nat)
    requires a.unscaled != 0 && b.unscaled != 0 && RemainderAt(a, b, shift) == 0
    ensures QuotientAt(a, b, shift) >= 1
  {
    MulGrows(Abs(a.unscaled), 0, Pow10(shift));
  }

  lemma ExtraDigitsAreNotReference(a: Dec, b: Dec, prec: nat)
    requires prec >= 1 && a.unscaled != 0 && b.unscaled != 0 && KeepsExtraDigits(a, b, prec)
    ensures Div(a, b, prec).Some? && !IsReferenceQuotient(Div(a, b, prec).value, a, b, prec)
  {
    var s := StopOf(a, b, prec);
    var q := QuotientAt(a, b, s);
    var j := DigitCount(q) - prec;
    ExactQuotientPositive(a, b, s);
    AbsValue(b);
    hide Ten, Times, ValueOf, Div, StopOf, QuotientAt, RemainderAt, HasSize, IsNearest, DigitCount;
    DivValue(a, b, prec);
    SizeAtShift(a, b, s, prec);
    forall c: int, e: int | IsRounded(c, e, ValueOf(a), ValueOf(b), prec)
      ensures ValueOf(Div(a, b, prec).value) != Times(c as real, Ten(e))
    {
      ExponentIsUnique(e, ExponentAt(a, b, s, j), ValueOf(a), ValueOf(b), prec);
      ScaleUp(c, j, e);
      TenPositive(e - j);
      TimesOrder((c * Pow10(j)) as real, (Sign(a, b) * q) as real, Ten(e - j));
      NotAMultiple(Sign(a, b), q, c, Pow10(j));
    }
  }

  lemma NotAMultiple(sign: int, q: nat, c: int, p: nat)
    requires (sign == 1 || sign == -1) && p >= 1 && q % p != 0
    ensures c * p != sign * q
  {
    if c * p == sign * q {
      assert q == p * (sign * c);
      DivModIs(q, p, sign * c, 0);
    }
  }

  /** Div agrees with the reference's half-even division unless its loop stops on an exact quotient past prec digits. */
  lemma AgreesUnlessExtraDigits(a: Dec, b: Dec, prec: nat)
    requires prec >= 1 && a.unscaled != 0 && b.unscaled != 0
    ensures Div(a, b, prec).Some?
    ensures IsReferenceQuotient(Div(a, b, prec).value, a, b, prec) <==> !KeepsExtraDigits(a, b, prec)
  {
    hide Ten, Times, ValueOf, Div, StopOf, QuotientAt, RemainderAt, IsRounded;
    if KeepsExtraDigits(a, b, prec) {
      ExtraDigitsAreNotReference(a, b, prec);
    } else if RemainderAt(a, b, StopOf(a, b, prec)) == 0 {
      RegroupedIsReference(a, b, prec);
    } else {
      DivRounds(a, b, prec);
    }
  }

  /** Negating an operand negates the quotient and changes nothing else. */
  lemma DivIsSignSymmetric(a: Dec, b: Dec, prec: nat)
    requires a.unscaled != 0 && b.unscaled != 0
    ensures var r := Div(a, b, prec);
            && Div(a.(unscaled := -a.unscaled), b, prec) == Div(a, b.(unscaled := -b.unscaled), prec)
            && r.Some? && Div(a.(unscaled := -a.unscaled), b, prec) == Some(Dec(-r.value.unscaled, r.value.scale))
  {
    hide RoundHalfEven, Pow10, DigitCount;
  }

  /** Div declines exactly a zero divisor, and a zero dividend gives a plain zero. */
  lemma DivByZero(a: Dec, b: Dec, prec: nat)
    ensures Div(a, b, prec).None? <==> b.unscaled == 0
    ensures a.unscaled == 0 && b.unscaled != 0 ==> Div(a, b, prec) == Some(Dec(0, 0))
  {
  }
}
