/** Go's int64 and the integers it reads from text. */
module MachineInts {
  import opened Options
  import opened Numerals

  const TWO_63: int := 0x8000_0000_0000_0000
  const TWO_64: int := 0x1_0000_0000_0000_0000

  predicate FitsInt64(x: int) {
    -TWO_63 <= x < TWO_63
  }

  /** The int64 a mathematical integer wraps to. */
  function Wrap64(x: int): (r: int)
    ensures FitsInt64(r)
    ensures r == x <==> FitsInt64(x)
  {
    (x + TWO_63) % TWO_64 - TWO_63
  }

  function Cycles(x: int): (k: int)
    ensures Wrap64(x) == x - TWO_64 * k
  {
    (x + TWO_63) / TWO_64
  }

  /** Wrapping early or late gives the same int64. */
  lemma WrapOfProduct(x: int, k: int)
    ensures Wrap64(Wrap64(x) * k) == Wrap64(x * k)
  {
    var c := Cycles(x);
    assert Wrap64(x) * k == x * k - TWO_64 * (c * k);
    WrapPeriodic(x * k, -(c * k));
  }

  lemma WrapPeriodic(x: int, k: int)
    ensures Wrap64(x + TWO_64 * k) == Wrap64(x)
  {
    var a, b := Wrap64(x + TWO_64 * k), Wrap64(x);
    var p := Cycles(x) - Cycles(x + TWO_64 * k) + k;
    assert a - b == TWO_64 * p;
  }

  /** Go's integer division and remainder, which truncate toward zero. */
  function GoDiv(a: int, b: int): int
    requires b > 0
  {
    if a >= 0 then a / b else -((-a) / b)
  }

  function GoMod(a: int, b: int): int
    requires b > 0
  {
    a - b * GoDiv(a, b)
  }

  /** A decimal integer with an optional sign. */
  function ReadInteger(s: string): Option<int> {
    var negative := s != "" && s[0] == '-';
    var digits := if s != "" && (s[0] == '-' || s[0] == '+') then s[1..] else s;
    if digits == "" || !AllDigits(digits, DECIMAL) then None
    else Some(if negative then -Value(digits, DECIMAL) else Value(digits, DECIMAL))
  }

  /** strconv.Atoi and ParseInt(text, 10, 64). */
  function Atoi(s: string): Option<int> {
    var n :- ReadInteger(s);
    if FitsInt64(n) then Some(n) else None
  }
}
