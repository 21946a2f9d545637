/**
 sqlglot/decimal.go as it runs: big integers are objects that operations
 overwrite, decimals point at them, and powers of ten come from one shared
 memo table. Every method is proved against the value it computes in
 `Decimals`, and leaves the table's entries what they were.
 */
module BigDecimals {
  import opened Options
  import opened Arithmetic
  import opened MachineInts
  import opened Numerals
  import Decimals
  import opened DecimalText

  type Dec = Decimals.Dec

  /** math/big's Int: a receiver that its operations overwrite and operands they only read. */
  class BigInt {
    var value: int

    constructor (v: int)
      ensures value == v
    {
      value := v;
    }

    method Set(x: BigInt)
      modifies this
      ensures value == old(x.value)
    {
      value := x.value;
    }

    method Neg(x: BigInt)
      modifies this
      ensures value == -old(x.value)
    {
      value := -x.value;
    }

    method Abs(x: BigInt)
      modifies this
      ensures value == Decimals.Abs(old(x.value))
    {
      value := if x.value < 0 then -x.value else x.value;
    }

    method Add(x: BigInt, y: BigInt)
      modifies this
      ensures value == old(x.value) + old(y.value)
    {
      value := x.value + y.value;
    }

    method Sub(x: BigInt, y: BigInt)
      modifies this
      ensures value == old(x.value) - old(y.value)
    {
      value := x.value - y.value;
    }

    method Mul(x: BigInt, y: BigInt)
      modifies this
      ensures value == old(x.value) * old(y.value)
    {
      value := x.value * y.value;
    }

    /** QuoRem on a dividend that is not negative. */
    method QuoRem(x: BigInt, y: BigInt, r: BigInt)
      requires x.value >= 0 && y.value > 0 && r != this
      modifies this, r
      ensures value == old(x.value) / old(y.value) && r.value == old(x.value) % old(y.value)
    {
      value, r.value := x.value / y.value, x.value % y.value;
    }
  }

  /** pow10Cache. */
  class Pow10Cache {
    var entries: map<nat, BigInt>

    /** Every entry holds its power. */
    ghost predicate Valid()
      reads this, entries.Values
    {
      forall n :: n in entries ==> entries[n].value == Pow10(n)
    }

    constructor ()
      ensures Valid() && entries == map[]
    {
      entries := map[];
    }

    /** pow10: the caller gets the table's own pointer. */
    method Power(n: nat) returns (v: BigInt)
      requires Valid()
      modifies this
      ensures Valid() && v.value == Pow10(n)
      ensures n in entries && entries[n] == v
      ensures forall k :: k in old(entries) ==> k in entries && entries[k] == old(entries[k])
    {
      if n in entries {
        return entries[n];
      }
      v := new BigInt(Pow10(n));
      entries := entries[n := v];
    }
  }

  /** bigDecimal. */
  class BigDecimal {
    const unscaled: BigInt
    const scale: nat

    constructor (u: BigInt, s: nat)
      ensures unscaled == u && scale == s
    {
      unscaled, scale := u, s;
    }

    function Model(): Dec
      reads unscaled
    {
      Decimals.Dec(unscaled.value, scale)
    }
  }

  /** The end of parseBigDecimal: a sign, and zeros made literal where the scale is negative. */
  method ScaleUnscaled(cache: Pow10Cache, neg: bool, unscaled: BigInt, scale: int) returns (r: BigDecimal)
    requires cache.Valid() && forall n :: n in cache.entries ==> cache.entries[n] != unscaled
    modifies cache, unscaled
    ensures cache.Valid() && (fresh(r.unscaled) || r.unscaled == unscaled)
    ensures r.Model() == Scaled(if neg then -old(unscaled.value) else old(unscaled.value), scale)
  {
    hide Pow10;
    if neg {
      unscaled.Neg(unscaled);
    }
    if scale < 0 {
      var power := cache.Power(-scale);
      var product := new BigInt(0);
      product.Mul(unscaled, power);
      r := new BigDecimal(product, 0);
    } else {
      r := new BigDecimal(unscaled, scale);
    }
  }

  /** parseBigDecimal. */
  method ParseDecimal(cache: Pow10Cache, text: string) returns (r: Option<BigDecimal>)
    requires cache.Valid()
    modifies cache
    ensures cache.Valid()
    ensures r.Some? <==> ParseBigDecimal(text).Some?
    ensures r.Some? ==> fresh(r.value.unscaled) && r.value.Model() == ParseBigDecimal(text).value
  {
    hide SplitSign, SplitExponent, SplitPoint, ReadInteger, Pow10, Scaled;
    var (neg, s) := SplitSign(text);
    var split := SplitExponent(s);
    if split.None? {
      return None;
    }
    var (mantissa, exp) := split.value;
    assert ParseBigDecimal(text) == ReadMantissa(neg, mantissa, exp);
    hide ParseBigDecimal;
    var (intPart, fracPart) := SplitPoint(mantissa);
    if intPart == "" && fracPart == "" {
      return None;
    }
    var read := ReadInteger(intPart + fracPart);
    if read.None? {
      return None;
    }
    var unscaled := new BigInt(read.value);
    var d := ScaleUnscaled(cache, neg, unscaled, |fracPart| - exp);
    r := Some(d);
  }

  /** alignedWith. */
  method AlignedWith(cache: Pow10Cache, a: BigDecimal, b: BigDecimal) returns (au: BigInt, bu: BigInt, scale: nat)
    requires cache.Valid()
    modifies cache
    ensures cache.Valid() && fresh(au) && fresh(bu) && au != bu
    ensures (au.value, bu.value, scale) == Decimals.AlignedWith(a.Model(), b.Model())
  {
    scale := a.scale;
    if b.scale > scale {
      scale := b.scale;
    }
    var pa := cache.Power(scale - a.scale);
    au := new BigInt(0);
    au.Mul(a.unscaled, pa);
    var pb := cache.Power(scale - b.scale);
    bu := new BigInt(0);
    bu.Mul(b.unscaled, pb);
  }

  method Add(cache: Pow10Cache, a: BigDecimal, b: BigDecimal) returns (r: BigDecimal)
    requires cache.Valid()
    modifies cache
    ensures cache.Valid() && fresh(r.unscaled) && r.Model() == Decimals.Add(a.Model(), b.Model())
  {
    var au, bu, scale := AlignedWith(cache, a, b);
    var sum := new BigInt(0);
    sum.Add(au, bu);
    r := new BigDecimal(sum, scale);
  }

  method Sub(cache: Pow10Cache, a: BigDecimal, b: BigDecimal) returns (r: BigDecimal)
    requires cache.Valid()
    modifies cache
    ensures cache.Valid() && fresh(r.unscaled) && r.Model() == Decimals.Sub(a.Model(), b.Model())
  {
    var au, bu, scale := AlignedWith(cache, a, b);
    var difference := new BigInt(0);
    difference.Sub(au, bu);
    r := new BigDecimal(difference, scale);
  }

  method Mul(a: BigDecimal, b: BigDecimal) returns (r: BigDecimal)
    ensures fresh(r.unscaled) && r.Model() == Decimals.Mul(a.Model(), b.Model())
  {
    var product := new BigInt(0);
    product.Mul(a.unscaled, b.unscaled);
    r := new BigDecimal(product, a.scale + b.scale);
  }

  /** roundHalfEven: it adds to its own quotient, never to the divisor it was lent. */
  method RoundHalfEven(cache: Pow10Cache, q: BigInt, d: int, inexact: bool) returns (r: BigInt)
    requires cache.Valid() && q.value >= 0
    modifies cache
    ensures cache.Valid() && fresh(r)
    ensures r.value == Decimals.RoundHalfEven(q.value, d, inexact)
  {
    if d <= 0 {
      r := new BigInt(0);
      r.Set(q);
      return;
    }
    var divisor := cache.Power(d);
    var half := new BigInt(divisor.value / 2);
    var q2 := new BigInt(0);
    var rem := new BigInt(0);
    q2.QuoRem(q, divisor, rem);
    var one := new BigInt(1);
    if rem.value < half.value {
      return q2;
    } else if rem.value > half.value {
      q2.Add(q2, one);
      return q2;
    } else {
      if inexact || q2.value % 2 != 0 {
        q2.Add(q2, one);
      }
      return q2;
    }
  }

  /** normalizeDecimal. */
  method NormalizeDecimal(cache: Pow10Cache, digits: BigInt, exponent: int, sign: int) returns (r: BigDecimal)
    requires cache.Valid() && digits.value >= 0
    modifies cache
    ensures cache.Valid() && fresh(r.unscaled)
    ensures r.Model() == Decimals.NormalizeDecimal(digits.value, exponent, sign)
  {
    var unscaled := new BigInt(0);
    unscaled.Set(digits);
    var scale := -exponent;
    if scale < 0 {
      var power := cache.Power(-scale);
      var product := new BigInt(0);
      product.Mul(unscaled, power);
      unscaled := product;
      scale := 0;
    }
    if sign < 0 && unscaled.value != 0 {
      unscaled.Neg(unscaled);
    }
    r := new BigDecimal(unscaled, scale);
  }

  /** One pass of Div's loop: the numerator shifted, and its quotient. */
  method Quotient(cache: Pow10Cache, au: BigInt, bu: BigInt, shift: nat) returns (q: BigInt, rem: BigInt)
    requires cache.Valid() && au.value >= 0 && bu.value > 0
    modifies cache
    ensures cache.Valid() && fresh(q) && fresh(rem) && q != rem
    ensures q.value == au.value * Pow10(shift) / bu.value && rem.value == au.value * Pow10(shift) % bu.value
    ensures q.value >= 0
  {
    hide Pow10;
    var power := cache.Power(shift);
    var scaled := new BigInt(0);
    scaled.Mul(au, power);
    q := new BigInt(0);
    rem := new BigInt(0);
    QuotientNat(scaled.value, bu.value);
    q.QuoRem(scaled, bu, rem);
  }

  /** Whether Div's loop ends on this quotient, and with what. */
  method Finish(cache: Pow10Cache, q: BigInt, rem: BigInt, prec: nat, shift: nat, baseExp: int, sign: int)
    returns (r: Option<BigDecimal>)
    requires cache.Valid() && q.value >= 0
    modifies cache
    ensures cache.Valid()
    ensures r.Some? <==> rem.value == 0 || Decimals.DigitCount(q.value) > prec
    ensures r.Some? ==> fresh(r.value.unscaled)
    ensures r.Some? ==> r.value.Model() == Decimals.DivResult(q.value, rem.value == 0, prec, shift, baseExp, sign)
  {
    hide Decimals.RoundHalfEven, Decimals.NormalizeDecimal, DecimalString, Pow10;
    var qlen := |DecimalString(q.value)|;
    if rem.value == 0 {
      var d := NormalizeDecimal(cache, q, baseExp - shift, sign);
      return Some(d);
    }
    if qlen > prec {
      var d := qlen - prec;
      var rounded := RoundHalfEven(cache, q, d, rem.value != 0);
      var n := NormalizeDecimal(cache, rounded, d - shift + baseExp, sign);
      return Some(n);
    }
    return None;
  }

  /** Div: the loop shifts until the quotient is exact or long enough. */
  method Div(cache: Pow10Cache, a: BigDecimal, b: BigDecimal, prec: nat) returns (r: Option<BigDecimal>)
    requires cache.Valid()
    modifies cache
    ensures cache.Valid()
    ensures r.Some? <==> Decimals.Div(a.Model(), b.Model(), prec).Some?
    ensures r.Some? ==> fresh(r.value.unscaled) && r.value.Model() == Decimals.Div(a.Model(), b.Model(), prec).value
  {
    hide Decimals.StopShift, Decimals.DivResult, Decimals.Room, Decimals.DigitCount, Pow10;
    if b.unscaled.value == 0 {
      return None;
    }
    var sign := 1;
    if (a.unscaled.value < 0) != (b.unscaled.value < 0) {
      sign := -1;
    }
    var au := new BigInt(0);
    au.Abs(a.unscaled);
    var bu := new BigInt(0);
    bu.Abs(b.unscaled);
    var baseExp := b.scale - a.scale;
    if au.value == 0 {
      var zero := new BigInt(0);
      var d := new BigDecimal(zero, 0);
      return Some(d);
    }
    ghost var x, y := au.value, bu.value;
    assert Decimals.Div(a.Model(), b.Model(), prec)
        == Some(Decimals.DivAt(x, y, prec, Decimals.StopShift(x, y, prec, 0), baseExp, sign));
    hide Decimals.Div;
    var shift: nat := 0;
    while true
      invariant cache.Valid()
      invariant au.value == x && bu.value == y && fresh(au) && fresh(bu)
      invariant Decimals.StopShift(x, y, prec, 0) == Decimals.StopShift(x, y, prec, shift)
      decreases Decimals.Room(x, y, prec, shift)
    {
      var q, rem := Quotient(cache, au, bu, shift);
      var done := Finish(cache, q, rem, prec, shift, baseExp, sign);
      Decimals.StopOrShift(x, y, prec, shift);
      if done.Some? {
        return done;
      }
      shift := shift + 1;
    }
  }

  /** String. */
  method WriteString(d: BigDecimal) returns (out: string)
    ensures out == ToString(d.Model())
  {
    hide DecimalString, PaddedToPoint, Pointed;
    var neg := d.unscaled.value < 0;
    var magnitude := new BigInt(0);
    magnitude.Abs(d.unscaled);
    out := WriteDigits(DecimalString(magnitude.value), d.scale);
    if neg {
      out := "-" + out;
    }
    assert forall s: string :: "" + s == s;
  }

  lemma OneMoreZero(n: nat, text: string)
    ensures "0" + (Repeat('0', n) + text) == Repeat('0', n + 1) + text
  {
    assert "0" + Repeat('0', n) == Repeat('0', n + 1);
  }

  method WriteDigits(text: string, scale: nat) returns (out: string)
    ensures out == if scale == 0 then text else Pointed(PaddedToPoint(text, scale), scale)
  {
    if scale == 0 {
      return text;
    }
    hide Repeat;
    var digits := text;
    assert Repeat('0', 0) + text == text;
    ghost var added := 0;
    while |digits| <= scale
      invariant digits == Repeat('0', added) + text
      invariant added == 0 || |digits| <= scale + 1
    {
      OneMoreZero(added, text);
      digits := "0" + digits;
      added := added + 1;
    }
    out := digits[..|digits| - scale] + ("." + digits[|digits| - scale..]);
  }
}
