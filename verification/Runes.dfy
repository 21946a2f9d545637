/** Runes and the blanking of text (blankText, hasPrefixAt and indexRune in sqlglot/anonymize.go). */
module Runes {

  /** Go's unicode.IsSpace. */
  predicate IsSpace(c: char) {
    var r := c as int;
    || 0x09 <= r <= 0x0D || r == 0x20 || r == 0x85 || r == 0xA0 || r == 0x1680
    || 0x2000 <= r <= 0x200A || r == 0x2028 || r == 0x2029 || r == 0x202F || r == 0x205F || r == 0x3000
  }

  predicate AllSpace(s: string) {
    forall k :: 0 <= k < |s| ==> IsSpace(s[k])
  }

  /** The bytes a rune takes in UTF-8. */
  function RuneLength(c: char): nat {
    if c as int < 0x80 then 1 else if c as int < 0x800 then 2 else if c as int < 0x1_0000 then 3 else 4
  }

  /** Go's len on a string. */
  function ByteLength(s: string): (n: nat)
    ensures n >= |s|
  {
    if s == "" then 0 else ByteLength(s[..|s| - 1]) + RuneLength(s[|s| - 1])
  }

  predicate HasPrefixAt(s: string, prefix: string, at: nat) {
    at + |prefix| <= |s| && s[at..at + |prefix|] == prefix
  }

  /** blankText: every rune that is not a space becomes a dot. */
  function BlankText(s: string): (t: string)
    ensures |t| == |s|
  {
    seq(|s|, k requires 0 <= k < |s| => if IsSpace(s[k]) then s[k] else '.')
  }

  method WriteBlank(s: string) returns (out: string)
    ensures out == BlankText(s)
  {
    out := "";
    for k := 0 to |s|
      invariant out == BlankText(s)[..k]
    {
      out := out + (if IsSpace(s[k]) then [s[k]] else ".");
    }
  }
}
