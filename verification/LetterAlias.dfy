/** Aliases for names and strings (aliasFor in sqlglot/anonymize.go). */
module LetterAlias {
  import opened Arithmetic
  import opened Numerals
  import opened Runes

  function NonSpaces(s: string): (t: string)
    ensures |t| <= |s| && forall k :: 0 <= k < |t| ==> !IsSpace(t[k])
  {
    if s == "" then ""
    else
      var last := s[|s| - 1];
      NonSpaces(s[..|s| - 1]) + (if IsSpace(last) then [] else [last])
  }

  function Count(text: string): nat {
    |NonSpaces(text)|
  }

  /** The counter in base 26, with `a` for the missing leading digits. */
  function Letters(counter: nat, width: nat): (s: string)
    ensures |s| >= width && |s| >= |Spell(counter, LETTERS)|
  {
    var s := Spell(counter, LETTERS);
    if |s| < width then Repeat('a', width - |s|) + s else s
  }

  /** The letters put where text has no space. */
  function Poured(text: string, letters: string): (out: string)
    requires |letters| >= Count(text)
    ensures |out| == |text|
  {
    if text == "" then ""
    else
      var front, last := text[..|text| - 1], text[|text| - 1];
      Poured(front, letters) + (if IsSpace(last) then [last] else [letters[Count(front)]])
  }

  /** aliasFor. */
  function AliasFor(counter: nat, text: string): (out: string)
    ensures |out| == |text|
  {
    Poured(text, Letters(counter, Count(text)))
  }

  /** The counter an alias spells. */
  function Decode(alias: string): int {
    Value(NonSpaces(alias), LETTERS)
  }

  // ------------------------------------------------------------------- theorems

  lemma LettersAreNotSpaces(s: string)
    requires AllDigits(s, LETTERS)
    ensures forall k :: 0 <= k < |s| ==> !IsSpace(s[k])
  {
    forall k | 0 <= k < |s| ensures !IsSpace(s[k]) {
      assert IsDigit(s[k], LETTERS);
    }
  }

  /** Reading the poured letters back gives the first of them, and the spaces are where they were. */
  lemma {:induction false} PouredReads(text: string, letters: string)
    requires AllDigits(letters, LETTERS) && |letters| >= Count(text)
    ensures NonSpaces(Poured(text, letters)) == letters[..Count(text)]
    ensures BlankText(Poured(text, letters)) == BlankText(text)
  {
    LettersAreNotSpaces(letters);
    hide IsSpace, BlankText, AllDigits;
    if text != "" {
      var front, last := text[..|text| - 1], text[|text| - 1];
      PouredReads(front, letters);
      var out := Poured(text, letters);
      assert out[..|out| - 1] == Poured(front, letters);
      LastRune(text);
      LastRune(out);
      if !IsSpace(last) {
        assert letters[..Count(text)] == letters[..Count(front)] + [letters[Count(front)]];
      }
    } else {
      assert Poured(text, letters) == text && letters[..0] == "";
    }
  }

  lemma LastRune(s: string)
    requires s != ""
    ensures BlankText(s) == BlankText(s[..|s| - 1]) + [if IsSpace(s[|s| - 1]) then s[|s| - 1] else '.']
  {
  }

  lemma LettersRead(counter: nat, width: nat)
    ensures AllDigits(Letters(counter, width), LETTERS) && Value(Letters(counter, width), LETTERS) == counter
  {
    ValueOfSpell(counter, LETTERS);
    var s := Spell(counter, LETTERS);
    if |s| < width {
      LeadingZeros(width - |s|, s, LETTERS);
    }
  }

  /** An alias keeps its text's spaces, and decodes to its counter exactly while the counter fits in one letter per rune
      that is not a space. */
  lemma AliasDecodes(counter: nat, text: string)
    ensures BlankText(AliasFor(counter, text)) == BlankText(text)
    ensures AllDigits(NonSpaces(AliasFor(counter, text)), LETTERS)
    ensures Decode(AliasFor(counter, text)) == counter <==> counter < Pow(26, Count(text))
  {
    var n := Count(text);
    var letters := Letters(counter, n);
    LettersRead(counter, n);
    PouredReads(text, letters);
    SpellWidth(counter, n, LETTERS);
    hide Spell, Value, Poured, NonSpaces, IsDigit;
    assert AllDigits(letters[..n], LETTERS);
    ValueBound(letters[..n], LETTERS);
    if |Spell(counter, LETTERS)| <= n {
      assert letters[..n] == letters;
    }
  }

  /** What an alias of n letters shows of a counter: its first n base-26 digits. */
  function Leading(counter: nat, n: nat): (c: nat)
    ensures c < Pow(26, n)
    ensures counter < Pow(26, n) ==> c == counter
  {
    PowPositive(26, n);
    if counter < Pow(26, n) then counter
    else
      DivSmaller(counter, 26);
      Leading(counter / 26, n)
  }

  lemma {:induction false} LeadingLetters(counter: nat, n: nat)
    ensures Letters(counter, n)[..n] == Letters(Leading(counter, n), n)[..n]
  {
    PowPositive(26, n);
    if counter < Pow(26, n) {
    } else {
      DivSmaller(counter, 26);
      LeadingLetters(counter / 26, n);
      SpellWidth(counter, n, LETTERS);
      assert Letters(counter, n)[..n] == Letters(counter / 26, n)[..n];
    }
  }

  lemma {:induction false} PouredPrefix(text: string, a: string, b: string)
    requires |a| >= Count(text) && |b| >= Count(text) && a[..Count(text)] == b[..Count(text)]
    ensures Poured(text, a) == Poured(text, b)
  {
    hide IsSpace;
    if text == "" {
    } else {
      var front := text[..|text| - 1];
      assert a[..Count(front)] == a[..Count(text)][..Count(front)];
      assert b[..Count(front)] == b[..Count(text)][..Count(front)];
      PouredPrefix(front, a, b);
      if !IsSpace(text[|text| - 1]) {
        assert a[..Count(text)][Count(front)] == b[..Count(text)][Count(front)];
      }
    }
  }

  /** Two counters have one alias for a text exactly when they begin with the same letters. */
  lemma SameAliasIff(c1: nat, c2: nat, text: string)
    ensures AliasFor(c1, text) == AliasFor(c2, text) <==> Leading(c1, Count(text)) == Leading(c2, Count(text))
  {
    hide Letters, Poured, Decode, Leading;
    var n := Count(text);
    LeadingLetters(c1, n);
    LeadingLetters(c2, n);
    PouredPrefix(text, Letters(c1, n), Letters(Leading(c1, n), n));
    PouredPrefix(text, Letters(c2, n), Letters(Leading(c2, n), n));
    AliasDecodes(Leading(c1, n), text);
    AliasDecodes(Leading(c2, n), text);
  }

  /** Past the room aliases meet: the 27th one-letter text is written as the second. */
  lemma TwentySeventh(text: string)
    requires Count(text) == 1
    ensures AliasFor(26, text) == AliasFor(1, text)
  {
    hide AliasFor, NonSpaces;
    assert Pow(26, 1) == 26;
    SameAliasIff(26, 1, text);
  }

  /** Only the spaces of the text matter. */
  lemma {:induction false} PouredDependsOnSpaces(s: string, t: string, letters: string)
    requires BlankText(s) == BlankText(t) && |letters| >= Count(s)
    ensures Count(s) == Count(t) && Poured(s, letters) == Poured(t, letters)
  {
    if s == "" {
    } else {
      assert |s| == |BlankText(s)| == |t|;
      LastRune(s);
      LastRune(t);
      var fs, ft := s[..|s| - 1], t[..|t| - 1];
      assert BlankText(fs) == BlankText(s)[..|s| - 1] == BlankText(ft);
      assert BlankText(s)[|s| - 1] == BlankText(t)[|t| - 1];
      PouredDependsOnSpaces(fs, ft, letters);
    }
  }

  lemma AliasDependsOnSpaces(counter: nat, s: string, t: string)
    requires BlankText(s) == BlankText(t)
    ensures AliasFor(counter, s) == AliasFor(counter, t)
  {
    hide BlankText, Poured;
    PouredDependsOnSpaces(s, t, Letters(counter, Count(s)));
  }

  // ------------------------------------------------------------------ as it runs

  function Reversed(s: string): (r: string)
    ensures |r| == |s| && forall k :: 0 <= k < |s| ==> r[k] == s[|s| - 1 - k]
  {
    seq(|s|, k requires 0 <= k < |s| => s[|s| - 1 - k])
  }

  /** The digits of the counter: written last first, then turned round in place. */
  method SpellLetters(counter: nat) returns (digits: string)
    ensures digits == Spell(counter, LETTERS)
  {
    digits := "";
    var c := counter;
    while c > 0
      invariant Spell(counter, LETTERS) == Spell(c, LETTERS) + Reversed(digits)
    {
      DivSmaller(c, 26);
      var d := c % 26;
      var letter := Digit(d, LETTERS);
      assert Reversed(digits + [letter]) == [letter] + Reversed(digits);
      c := c / 26;
      digits := digits + [letter];
    }
    digits := TurnRound(digits);
  }

  /** The swaps from both ends. */
  method TurnRound(written: string) returns (digits: string)
    ensures digits == Reversed(written)
  {
    digits := written;
    var i, j := 0, |digits| - 1;
    while i < j
      invariant 0 <= i && i + j == |written| - 1 && |digits| == |written|
      invariant forall k :: 0 <= k < |written| && (k < i || k > j) ==> digits[k] == Reversed(written)[k]
      invariant forall k :: i <= k <= j ==> digits[k] == written[k]
      decreases j - i
    {
      digits := digits[i := digits[j]][j := digits[i]];
      i, j := i + 1, j - 1;
    }
    assert digits == Reversed(written);
  }

  method WriteAlias(counter: nat, text: string) returns (out: string)
    ensures out == AliasFor(counter, text)
  {
    hide Poured, NonSpaces, Spell;
    var letters := SpellLetters(counter);
    var nonSpace := CountRunes(text);
    if |letters| < nonSpace {
      letters := Repeat('a', nonSpace - |letters|) + letters;
    }
    out := Pour(text, letters);
  }

  method CountRunes(text: string) returns (nonSpace: nat)
    ensures nonSpace == Count(text)
  {
    hide IsSpace;
    nonSpace := 0;
    for k := 0 to |text|
      invariant nonSpace == Count(text[..k])
    {
      assert text[..k + 1][..k] == text[..k];
      if !IsSpace(text[k]) {
        nonSpace := nonSpace + 1;
      }
    }
    assert text[..|text|] == text;
  }

  method Pour(text: string, letters: string) returns (out: string)
    requires |letters| >= Count(text)
    ensures out == Poured(text, letters)
  {
    hide IsSpace, NonSpaces;
    out := "";
    var i: nat := 0;
    CountGrows(text, 0);
    for k := 0 to |text|
      invariant i == Count(text[..k]) <= Count(text)
      invariant out == Poured(text[..k], letters)
    {
      CountGrows(text, k);
      CountGrows(text, k + 1);
      PouredStep(text, k, letters);
      if IsSpace(text[k]) {
        out := out + [text[k]];
      } else {
        out := out + [letters[i]];
        i := i + 1;
      }
    }
    assert text[..|text|] == text;
  }

  lemma PouredStep(text: string, k: nat, letters: string)
    requires k < |text| && Count(text[..k]) <= Count(text[..k + 1]) <= |letters|
    ensures Count(text[..k + 1]) == Count(text[..k]) + (if IsSpace(text[k]) then 0 else 1)
    ensures Poured(text[..k + 1], letters)
         == Poured(text[..k], letters) + (if IsSpace(text[k]) then [text[k]] else [letters[Count(text[..k])]])
  {
    hide IsSpace;
    assert text[..k + 1][..k] == text[..k];
  }

  lemma {:induction false} CountGrows(text: string, k: nat)
    requires k <= |text|
    ensures Count(text[..k]) <= Count(text)
    ensures k < |text| ==> Count(text[..k]) <= Count(text[..k + 1])
    decreases |text| - k
  {
    hide IsSpace;
    if k < |text| {
      assert text[..k + 1][..k] == text[..k];
      CountGrows(text, k + 1);
    } else {
      assert text[..k] == text;
    }
  }
}
