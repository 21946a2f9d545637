/**
 Positional numerals: decimal digits, and the base-26 letters the anonymizer
 counts with. `Value` reads a numeral, `Spell` writes one without leading
 zeros (zero is the empty numeral).
 */
module Numerals {
  import opened Arithmetic

  datatype Radix = Radix(base: int, zero: char)

  const DECIMAL: Radix := Radix(10, '0')
  const LETTERS: Radix := Radix(26, 'a')

  predicate Usable(r: Radix) {
    2 <= r.base && r.zero as int + r.base <= 128
  }

  predicate IsDigit(c: char, r: Radix) {
    r.zero as int <= c as int < r.zero as int + r.base
  }

  function DigitValue(c: char, r: Radix): int {
    c as int - r.zero as int
  }

  function Digit(d: int, r: Radix): (c: char)
    requires Usable(r) && 0 <= d < r.base
    ensures IsDigit(c, r) && DigitValue(c, r) == d
  {
    (r.zero as int + d) as char
  }

  predicate AllDigits(s: string, r: Radix) {
    forall i :: 0 <= i < |s| ==> IsDigit(s[i], r)
  }

  function Value(s: string, r: Radix): int {
    if s == "" then 0 else Value(s[..|s| - 1], r) * r.base + DigitValue(s[|s| - 1], r)
  }

  function Pow(b: int, n: nat): int {
    if n == 0 then 1 else b * Pow(b, n - 1)
  }

  function Pow10(n: nat): (p: nat)
    ensures p >= 1
  {
    PowPositive(10, n);
    Pow(10, n)
  }

  function Spell(n: nat, r: Radix): string
    requires Usable(r)
  {
    if n == 0 then "" else
      DivSmaller(n, r.base);
      Spell(n / r.base, r) + [Digit(n % r.base, r)]
  }

  function Repeat(c: char, n: nat): (s: string)
    ensures |s| == n && forall i :: 0 <= i < n ==> s[i] == c
  {
    seq(n, _ => c)
  }

  // -------------------------------------------------------------------- powers

  lemma {:induction false} PowPositive(b: int, n: nat)
    requires b >= 1
    ensures Pow(b, n) >= 1
  {
    if n == 0 {
    } else {
      PowPositive(b, n - 1);
    }
  }

  lemma {:induction false} PowAdds(b: int, m: nat, n: nat)
    ensures Pow(b, m + n) == Pow(b, m) * Pow(b, n)
  {
    if m == 0 {
    } else {
      PowAdds(b, m - 1, n);
      MulAssoc(b, Pow(b, m - 1), Pow(b, n));
    }
  }

  lemma {:induction false} PowGrows(b: int, m: nat, n: nat)
    requires b >= 2 && m < n
    ensures Pow(b, m) < Pow(b, n)
  {
    PowPositive(b, n - 1);
    if m == n - 1 {
    } else {
      PowGrows(b, m, n - 1);
    }
    assert b * Pow(b, n - 1) >= 2 * Pow(b, n - 1) by {
      MulGrows(Pow(b, n - 1), 0, b - 1);
    }
  }

  // ------------------------------------------------------------------- reading

  /** A numeral of k digits is below base^k. */
  lemma {:induction false} ValueBound(s: string, r: Radix)
    requires Usable(r) && AllDigits(s, r)
    ensures 0 <= Value(s, r) < Pow(r.base, |s|)
  {
    if s == "" {
    } else {
      var front := s[..|s| - 1];
      ValueBound(front, r);
      DigitFits(Value(front, r), Pow(r.base, |front|), r.base, DigitValue(s[|s| - 1], r));
    }
  }

  lemma {:induction false} ValueConcat(a: string, b: string, r: Radix)
    ensures Value(a + b, r) == Value(a, r) * Pow(r.base, |b|) + Value(b, r)
  {
    if b == "" {
      assert a + b == a;
    } else {
      var front := b[..|b| - 1];
      assert (a + b)[..|a + b| - 1] == a + front;
      ValueConcat(a, front, r);
      Horner(Value(a, r), Pow(r.base, |front|), r.base, Value(front, r), DigitValue(b[|b| - 1], r));
    }
  }

  lemma {:induction false} ValueOfZeros(n: nat, r: Radix)
    ensures Value(Repeat(r.zero, n), r) == 0
  {
    if n == 0 {
    } else {
      assert Repeat(r.zero, n)[..n - 1] == Repeat(r.zero, n - 1);
      ValueOfZeros(n - 1, r);
    }
  }

  /** Zero digits on the left do not change the value. */
  lemma LeadingZeros(n: nat, s: string, r: Radix)
    ensures Value(Repeat(r.zero, n) + s, r) == Value(s, r)
  {
    ValueConcat(Repeat(r.zero, n), s, r);
    ValueOfZeros(n, r);
  }

  /** Numerals of one width are told apart by their values. */
  lemma {:induction false} ValueInjective(a: string, b: string, r: Radix)
    requires Usable(r) && AllDigits(a, r) && AllDigits(b, r)
    requires |a| == |b| && Value(a, r) == Value(b, r)
    ensures a == b
  {
    if a == "" {
    } else {
      var fa, fb := a[..|a| - 1], b[..|b| - 1];
      var x := Value(a, r);
      DivModIs(x, r.base, Value(fa, r), DigitValue(a[|a| - 1], r));
      DivModIs(x, r.base, Value(fb, r), DigitValue(b[|b| - 1], r));
      ValueInjective(fa, fb, r);
      assert a == fa + [a[|a| - 1]] && b == fb + [b[|b| - 1]];
    }
  }

  // ------------------------------------------------------------------- writing

  lemma AppendDigit(s: string, c: char, r: Radix)
    ensures Value(s + [c], r) == Value(s, r) * r.base + DigitValue(c, r)
    ensures AllDigits(s, r) && IsDigit(c, r) ==> AllDigits(s + [c], r)
  {
    assert (s + [c])[..|s + [c]| - 1] == s;
  }

  lemma {:induction false} ValueOfSpell(n: nat, r: Radix)
    requires Usable(r)
    ensures AllDigits(Spell(n, r), r) && Value(Spell(n, r), r) == n
  {
    if n == 0 {
    } else {
      DivSmaller(n, r.base);
      ValueOfSpell(n / r.base, r);
      AppendDigit(Spell(n / r.base, r), Digit(n % r.base, r), r);
      Rebuild(n, r.base);
    }
  }

  /** A number needs at most k digits exactly when it is below base^k. */
  lemma {:induction false} SpellWidth(n: nat, k: nat, r: Radix)
    requires Usable(r)
    ensures |Spell(n, r)| <= k <==> n < Pow(r.base, k)
  {
    PowPositive(r.base, k);
    if n == 0 || k == 0 {
    } else {
      DivSmaller(n, r.base);
      SpellWidth(n / r.base, k - 1, r);
      DivBelow(n, r.base, Pow(r.base, k - 1));
    }
  }

  /** big.Int's String on a natural number. */
  function DecimalString(n: nat): (s: string)
    ensures |s| >= 1
  {
    if n == 0 then "0" else
      SpellWidth(n, 0, DECIMAL);
      Spell(n, DECIMAL)
  }

  lemma DecimalStringReads(n: nat)
    ensures AllDigits(DecimalString(n), DECIMAL) && Value(DecimalString(n), DECIMAL) == n
  {
    ValueOfSpell(n, DECIMAL);
  }

  /** The digit count is the position of the leading power of ten. */
  lemma DecimalWidth(n: nat, k: nat)
    requires k >= 1
    ensures |DecimalString(n)| <= k <==> n < Pow10(k)
  {
    SpellWidth(n, k, DECIMAL);
    PowPositive(10, k);
    if n == 0 {
      PowGrows(10, 0, k);
    }
  }

  /** n written in at least `width` digits, zeros on the left. */
  function Padded(n: nat, width: nat): string {
    var s := DecimalString(n);
    if |s| < width then Repeat('0', width - |s|) + s else s
  }

  lemma PaddedReads(n: nat, width: nat)
    requires width >= 1
    ensures AllDigits(Padded(n, width), DECIMAL) && Value(Padded(n, width), DECIMAL) == n
    ensures |Padded(n, width)| >= width
    ensures |Padded(n, width)| == width <==> n < Pow10(width)
  {
    DecimalStringReads(n);
    DecimalWidth(n, width);
    if |DecimalString(n)| < width {
      LeadingZeros(width - |DecimalString(n)|, DecimalString(n), DECIMAL);
    }
  }
}
