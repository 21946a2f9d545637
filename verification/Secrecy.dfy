/**
 What an anonymized statement may show (sqlglot/anonymize.go), said of the kinds
 of its tokens and of its runes alone.
 */
module Secrecy {
  import opened Options
  import opened Numerals
  import opened Runes
  import opened CommentScan
  import opened MarkerOrder
  import opened Anonymizer
  import opened AliasFit
  import opened Rendering
  import LetterAlias
  import NumberAlias

  /** Bare names, quoted names, and strings of every sort. */
  predicate IsNameOrString(kind: TokenType) {
    kind in [VAR, IDENTIFIER, STRING, NATIONAL_STRING, RAW_STRING, UNICODE_STRING, HEREDOC_STRING, BIT_STRING,
             BYTE_STRING, HEX_STRING]
  }

  /** A bare word before a parenthesis that the dialect knows as a call. */
  predicate IsKnownCall(tokens: seq<Token>, d: Dialect, i: nat)
    requires i < |tokens|
  {
    && tokens[i].kind == VAR && i + 1 < |tokens| && tokens[i + 1].kind == L_PAREN
    && d.isCall(tokens[i].text)
  }

  // ----------------------------------------------------------------------- tokens

  /** Letters where there was anything but a space. */
  predicate LettersFor(out: string, text: string) {
    |out| == |text| && forall k :: 0 <= k < |text| ==> if IsSpace(text[k]) then out[k] == text[k] else 'a' <= out[k] <= 'z'
  }

  lemma {:induction false} NonSpacesHold(s: string, k: nat)
    requires k < |s| && !IsSpace(s[k])
    ensures s[k] in LetterAlias.NonSpaces(s)
  {
    hide IsSpace;
    if k == |s| - 1 {
    } else {
      NonSpacesHold(s[..|s| - 1], k);
    }
  }

  lemma AliasIsLetters(counter: nat, text: string)
    ensures LettersFor(LetterAlias.AliasFor(counter, text), text)
  {
    var out := LetterAlias.AliasFor(counter, text);
    LetterAlias.AliasDecodes(counter, text);
    hide LetterAlias.AliasFor, LetterAlias.NonSpaces;
    forall k | 0 <= k < |text| ensures if IsSpace(text[k]) then out[k] == text[k] else 'a' <= out[k] <= 'z' {
      assert BlankText(out)[k] == BlankText(text)[k];
      if !IsSpace(text[k]) {
        assert !IsSpace(out[k]) by {
          DotIsNoSpace(out, text, k);
        }
        NonSpacesHold(out, k);
        var j :| 0 <= j < |LetterAlias.NonSpaces(out)| && LetterAlias.NonSpaces(out)[j] == out[k];
        assert IsDigit(LetterAlias.NonSpaces(out)[j], LETTERS);
      } else {
        SpaceStays(out, text, k);
      }
    }
  }

  lemma DotIsNoSpace(out: string, text: string, k: nat)
    requires k < |out| == |text| && BlankText(out)[k] == BlankText(text)[k] && !IsSpace(text[k])
    ensures !IsSpace(out[k])
  {
  }

  lemma SpaceStays(out: string, text: string, k: nat)
    requires k < |out| == |text| && BlankText(out)[k] == BlankText(text)[k] && IsSpace(text[k])
    ensures out[k] == text[k]
  {
  }

  /** No rune of a name or a string but its spaces is left, unless the dialect knows the name as a call. */
  lemma NamesBecomeLetters(tokens: seq<Token>, d: Dialect, i: nat)
    requires HintsOpen(tokens, d) && i < |tokens| && IsNameOrString(tokens[i].kind) && !IsKnownCall(tokens, d, i)
    ensures LettersFor(Anonymized(tokens, d)[i].text, tokens[i].text)
  {
    assert IsAnonymized(tokens[i].kind) && !tokens[i].kind.NUMBER?;
    hide LetterAlias.AliasFor, LettersFor, First, KeyCount, HintsOpen;
    if tokens[i].text == "" {
      NothingForNothing();
    } else {
      AliasIsLetters(Rank(tokens, d, i), tokens[i].text);
    }
  }

  lemma NothingForNothing()
    ensures LettersFor("", "")
  {
  }

  /** Of a number its shape alone is left: any other of that shape would be written the same. */
  lemma NumbersBecomeShapes(tokens: seq<Token>, d: Dialect, i: nat, other: string)
    requires HintsOpen(tokens, d) && i < |tokens| && tokens[i].kind == NUMBER && tokens[i].text != ""
    requires NumberAlias.SameShape(tokens[i].text, other)
    ensures exists counter: nat ::
              Anonymized(tokens, d)[i].text == NumberAlias.NumberAliasFor(counter, other)
              == NumberAlias.NumberAliasFor(counter, tokens[i].text)
  {
    hide NumberAlias.NumberAliasFor, NumberAlias.SameShape, First, KeyCount, HintsOpen;
    NumberAlias.NumberAliasDependsOnShape(Rank(tokens, d, i), tokens[i].text, other);
  }

  /** What gets an alias: names and strings but known calls, and numbers, if there is anything of them. */
  predicate IsSecret(tokens: seq<Token>, d: Dialect, i: nat)
    requires i < |tokens|
  {
    tokens[i].text != "" && (tokens[i].kind == NUMBER || (IsNameOrString(tokens[i].kind) && !IsKnownCall(tokens, d, i)))
  }

  /** The secrets among the first n tokens, and whether each was a number. */
  ghost function SecretsOf(tokens: seq<Token>, d: Dialect, n: nat): set<(bool, string)>
    requires n <= |tokens|
  {
    set k | 0 <= k < n && IsSecret(tokens, d, k) :: (tokens[k].kind == NUMBER, tokens[k].text)
  }

  /** Aliases are counted up from nothing, by one for each secret that has not been seen. */
  lemma {:induction false} SecretsAreCounted(tokens: seq<Token>, d: Dialect, n: nat)
    requires n <= |tokens|
    ensures KeyCount(tokens, d, n) == |SecretsOf(tokens, d, n)|
  {
    hide IsFirst, IsSecret;
    if n == 0 {
      assert SecretsOf(tokens, d, 0) == {};
    } else {
      SecretsAreCounted(tokens, d, n - 1);
      var secret := (tokens[n - 1].kind == NUMBER, tokens[n - 1].text);
      NewSecrets(tokens, d, n - 1);
      assert SecretsOf(tokens, d, n) == SecretsOf(tokens, d, n - 1) + if IsSecret(tokens, d, n - 1) then {secret} else {};
    }
  }

  lemma SensitiveIsSecret(tokens: seq<Token>, d: Dialect, i: nat)
    requires i < |tokens|
    ensures Sensitive(tokens, d, i) <==> IsSecret(tokens, d, i)
  {
  }

  lemma NewSecrets(tokens: seq<Token>, d: Dialect, i: nat)
    requires i < |tokens|
    ensures IsFirst(tokens, d, i) <==>
              IsSecret(tokens, d, i) && (tokens[i].kind == NUMBER, tokens[i].text) !in SecretsOf(tokens, d, i)
  {
    SensitiveIsSecret(tokens, d, i);
    hide FirstFrom, Sensitive, IsSecret;
    forall k | 0 <= k < i
      ensures Sensitive(tokens, d, i) ==>
                (SameKey(tokens, d, i, k) <==>
                   IsSecret(tokens, d, k) && (tokens[k].kind == NUMBER, tokens[k].text)
                                             == (tokens[i].kind == NUMBER, tokens[i].text))
    {
      SensitiveIsSecret(tokens, d, k);
    }
    if Sensitive(tokens, d, i) {
      var first := First(tokens, d, i);
      assert first < i ==> SameKey(tokens, d, i, first);
    }
  }

  /** Each secret's alias is of the number of secrets seen before it first was. */
  lemma AliasesAreCountedUp(tokens: seq<Token>, d: Dialect, i: nat) returns (first: nat)
    requires HintsOpen(tokens, d) && i < |tokens| && IsSecret(tokens, d, i)
    ensures first <= i && IsSecret(tokens, d, first) && tokens[first].text == tokens[i].text
    ensures (tokens[i].kind == NUMBER, tokens[i].text) !in SecretsOf(tokens, d, first)
    ensures var counter := |SecretsOf(tokens, d, first)|;
            Anonymized(tokens, d)[i].text
            == if tokens[i].kind == NUMBER then NumberAlias.NumberAliasFor(counter, tokens[i].text)
               else LetterAlias.AliasFor(counter, tokens[i].text)
  {
    SensitiveIsSecret(tokens, d, i);
    first := First(tokens, d, i);
    assert SameKey(tokens, d, i, first);
    SensitiveIsSecret(tokens, d, first);
    FirstIsFirst(tokens, d, i);
    NewSecrets(tokens, d, first);
    SecretsAreCounted(tokens, d, first);
    assert KeyOf(tokens[first]) == KeyOf(tokens[i]);
    hide FirstFrom, KeyCount, IsFirst, HintsOpen, NumberAlias.NumberAliasFor, LetterAlias.AliasFor, IsNameOrString;
    assert !tokens[i].kind.HINT?;
  }

  lemma NamesAreSensitive(tokens: seq<Token>, d: Dialect, i: nat)
    requires i < |tokens| && tokens[i].text != "" && IsNameOrString(tokens[i].kind) && !IsKnownCall(tokens, d, i)
    ensures Sensitive(tokens, d, i) && KeyOf(tokens[i]) == Key(false, tokens[i].text)
  {
  }

  /** The same word is the same word again, and a number is none of them. */
  lemma SameWordsStayTheSame(tokens: seq<Token>, d: Dialect, i: nat, j: nat)
    requires HintsOpen(tokens, d) && i < |tokens| && j < |tokens| && tokens[i].text == tokens[j].text
    requires IsNameOrString(tokens[i].kind) && !IsKnownCall(tokens, d, i)
    requires IsNameOrString(tokens[j].kind) && !IsKnownCall(tokens, d, j)
    ensures Anonymized(tokens, d)[i].text == Anonymized(tokens, d)[j].text
  {
    hide *;
    if tokens[i].text == "" {
      EmptyStays(tokens, d, i);
      EmptyStays(tokens, d, j);
    } else {
      NamesAreSensitive(tokens, d, i);
      NamesAreSensitive(tokens, d, j);
      AliasesAreConsistent(tokens, d, i, j);
    }
  }

  lemma EmptyStays(tokens: seq<Token>, d: Dialect, i: nat)
    requires HintsOpen(tokens, d) && i < |tokens| && tokens[i].text == "" && IsNameOrString(tokens[i].kind)
    ensures Anonymized(tokens, d)[i].text == ""
  {
    hide HintsOpen;
  }

  /** Everything else is as it was: keywords and punctuation, known calls, and hints where the dialect has none. */
  lemma OthersStay(tokens: seq<Token>, d: Dialect, i: nat)
    requires HintsOpen(tokens, d) && i < |tokens|
    requires || tokens[i].kind.OTHER? || tokens[i].kind.L_PAREN? || tokens[i].kind.UNKNOWN?
             || (tokens[i].kind.HINT? && d.hintStart == "") || IsKnownCall(tokens, d, i)
    ensures Anonymized(tokens, d)[i].text == tokens[i].text
  {
    hide HintsOpen;
  }

  /** Of a comment kept with a token its spaces are left. */
  lemma CommentsBecomeDots(tokens: seq<Token>, d: Dialect, i: nat, k: nat, j: nat)
    requires HintsOpen(tokens, d) && i < |tokens| && k < |tokens[i].comments| && j < |tokens[i].comments[k]|
    ensures |Anonymized(tokens, d)[i].comments| == |tokens[i].comments|
    ensures |Anonymized(tokens, d)[i].comments[k]| == |tokens[i].comments[k]|
    ensures var was := tokens[i].comments[k][j];
            Anonymized(tokens, d)[i].comments[k][j] == if IsSpace(was) then was else '.'
  {
    hide HintsOpen, NewText, IsSpace;
  }

  // ------------------------------------------------------------------ comments, hints

  /** The body of a comment is blank from its opening marker to its closing one, or to where it stops without. */
  lemma BodyIsBlank(s: string, i: nat, m: Marker, nested: bool, k: nat)
    requires m.open != "" && i + |m.open| <= |s|
    ensures var (text, stop) := BlankComment(s, i, m.open, m.close, nested);
            var closed := m.close != "" && CloseOf(s, i + |m.open|, 1, m.open, m.close, nested).Some?;
            |m.open| <= k < |text| - (if closed then |m.close| else 0) ==>
              text[k] == if IsSpace(s[i + k]) then s[i + k] else '.'
  {
    hide CloseOf, LineEnd, IsSpace;
  }

  /** A comment that ends with its line holds no line feed, and stops before one or at the end. */
  lemma LineCommentStaysOnItsLine(s: string, i: nat, open: string, nested: bool)
    requires open != "" && i + |open| <= |s|
    ensures var stop := BlankComment(s, i, open, "", nested).1;
            '\n' !in s[i + |open|..stop] && (stop == |s| || s[stop] == '\n')
  {
    hide LineEnd;
  }

  /** The first closing marker closes a comment, nested or not, if no opening one stands before it. */
  lemma {:induction false} FirstCloserCloses(s: string, j: nat, p: nat, open: string, close: string, nested: bool)
    requires open != "" && close != "" && j <= p && HasPrefixAt(s, close, p)
    requires forall k :: j <= k < p ==> !HasPrefixAt(s, close, k)
    requires nested ==> forall k :: j <= k <= p ==> !HasPrefixAt(s, open, k)
    ensures CloseOf(s, j, 1, open, close, nested) == Some(p + |close|)
    decreases p - j
  {
    PrefixFits(s, close, p);
    hide HasPrefixAt;
    if j == p {
    } else {
      FirstCloserCloses(s, j + 1, p, open, close, nested);
    }
  }

  /** Where no comment opens, a gap is blank. */
  lemma {:induction false} NoCommentIsBlank(s: string, i: nat, comments: seq<Marker>, nested: bool)
    requires i <= |s| && NonEmptyOpeners(comments)
    requires forall c, p :: c in comments && i <= p ==> !HasPrefixAt(s, c.open, p)
    ensures RedactFrom(s, i, comments, nested) == BlankText(s[i..])
    decreases |s| - i
  {
    hide HasPrefixAt, IsSpace, NonEmptyOpeners;
    if i == |s| {
    } else {
      NoCommentIsBlank(s, i + 1, comments, nested);
      assert BlankText(s[i..]) == (if IsSpace(s[i]) then [s[i]] else ".") + BlankText(s[i + 1..]) by {
        FirstRune(s, i);
      }
    }
  }

  lemma FirstRune(s: string, i: nat)
    requires i < |s|
    ensures BlankText(s[i..]) == (if IsSpace(s[i]) then [s[i]] else ".") + BlankText(s[i + 1..])
  {
    hide IsSpace;
    assert s[i..] == [s[i]] + s[i + 1..];
  }

  lemma GapWithoutComments(s: string, comments: seq<Marker>, nested: bool)
    requires NonEmptyOpeners(comments) && forall c, p :: c in comments && 0 <= p ==> !HasPrefixAt(s, c.open, p)
    ensures Redact(s, comments, nested) == BlankText(s)
  {
    assert s[0..] == s;
    NoCommentIsBlank(s, 0, comments, nested);
    if AllSpace(s) {
      assert BlankText(s) == s;
    }
  }

  /** Of a hint its spaces and its markers are left. */
  lemma HintsBecomeDots(tokens: seq<Token>, d: Dialect, i: nat, k: nat)
    requires HintsOpen(tokens, d) && i < |tokens| && tokens[i].kind.HINT? && d.hintStart != "" && k < |tokens[i].text|
    ensures var was, out := tokens[i].text, Anonymized(tokens, d)[i].text;
            var close := HintClose(was, d);
            && |out| == |was| && out[..|d.hintStart|] == d.hintStart
            && (|d.hintStart| <= k && (close.None? || k < close.value - |d.hintEnd| || close.value <= k) ==>
                  out[k] == if IsSpace(was[k]) then was[k] else '.')
            && (close.Some? ==> |d.hintEnd| <= close.value <= |out|
                                && out[close.value - |d.hintEnd|..close.value] == d.hintEnd)
  {
    var was, close := tokens[i].text, HintClose(tokens[i].text, d);
    HintMarkers(was, d);
    if |d.hintStart| <= k && (close.None? || k < close.value - |d.hintEnd| || close.value <= k) {
      HintIsBlank(was, d, k);
    }
    hide BlankHint, HintsOpen, HintClose, IsSpace;
  }

  /** Where a hint closes: as a comment between its markers does. */
  function HintClose(was: string, d: Dialect): Option<nat>
    requires d.hintStart != ""
  {
    if d.hintEnd == "" then None else CloseOf(was, |d.hintStart|, 1, d.hintStart, d.hintEnd, d.nested)
  }

  lemma HintMarkers(was: string, d: Dialect)
    requires d.hintStart != "" && |d.hintStart| <= |was|
    ensures var out, close := BlankHint(was, d), HintClose(was, d);
            && |out| == |was| && out[..|d.hintStart|] == d.hintStart
            && (close.Some? ==> |d.hintEnd| <= close.value <= |out|
                                && out[close.value - |d.hintEnd|..close.value] == d.hintEnd)
  {
    HintParts(was, d);
    hide BlankHint, BlankComment, BlankText, CloseOf;
    CommentHasMarkers(was, 0, Marker(d.hintStart, d.hintEnd), d.nested);
  }

  lemma HintIsBlank(was: string, d: Dialect, k: nat)
    requires d.hintStart != "" && |d.hintStart| <= k < |was|
    requires var close := HintClose(was, d); close.None? || k < close.value - |d.hintEnd| || close.value <= k
    ensures BlankHint(was, d)[k] == if IsSpace(was[k]) then was[k] else '.'
  {
    HintParts(was, d);
    var (t, stop) := BlankComment(was, 0, d.hintStart, d.hintEnd, d.nested);
    HintStops(was, d);
    hide BlankHint, BlankComment, BlankText, CloseOf, IsSpace;
    if k >= stop {
      BlankRest(was, stop, k);
    } else {
      BodyIsBlank(was, 0, Marker(d.hintStart, d.hintEnd), d.nested, k);
    }
  }

  lemma HintStops(was: string, d: Dialect)
    requires d.hintStart != "" && |d.hintStart| <= |was|
    ensures HintClose(was, d).Some? ==>
              BlankComment(was, 0, d.hintStart, d.hintEnd, d.nested).1 == HintClose(was, d).value
  {
    hide CloseOf, BlankText;
  }

  lemma HintParts(was: string, d: Dialect)
    requires d.hintStart != "" && |d.hintStart| <= |was|
    ensures var (t, stop) := BlankComment(was, 0, d.hintStart, d.hintEnd, d.nested);
            BlankHint(was, d) == t + BlankText(was[stop..])
  {
    hide BlankComment, BlankText;
  }

  lemma BlankRest(s: string, from: nat, k: nat)
    requires from <= k < |s|
    ensures BlankText(s[from..])[k - from] == if IsSpace(s[k]) then s[k] else '.'
  {
    hide IsSpace;
  }

  /** What could not be read shows its first two runes, from the first that is no space, and then dots to the end. */
  lemma TailBecomesDots(sql: string, tokens: seq<Token>)
    ensures var start := SkipSpaces(sql, EndOf(tokens));
            var all := Read(sql, tokens, true);
            && (forall k :: EndOf(tokens) <= k < start && k < |sql| ==> IsSpace(sql[k]))
            && (start >= |sql| ==> all == tokens)
            && (start < |sql| ==>
                  && !IsSpace(sql[start]) && |all| == |tokens| + 1 && all[..|tokens|] == tokens
                  && var tail := all[|tokens|];
                     && tail.kind == UNKNOWN && tail.start == start && tail.end + 1 == |sql| && tail.comments == []
                     && |tail.text| == |sql| - start
                     && forall k :: 0 <= k < |tail.text| ==> tail.text[k] == if k < 2 then sql[start + k] else '.')
  {
    SpacesAreSkipped(sql, EndOf(tokens));
    hide SkipSpaces, EndOf, IsSpace;
  }

  lemma {:induction false} SpacesAreSkipped(s: string, i: nat)
    ensures forall k :: i <= k < SkipSpaces(s, i) && k < |s| ==> IsSpace(s[k])
    ensures SkipSpaces(s, i) < |s| ==> !IsSpace(s[SkipSpaces(s, i)])
    decreases |s| - i
  {
    if i < |s| && IsSpace(s[i]) {
      SpacesAreSkipped(s, i + 1);
    } else {
    }
  }

  /** The spaces of Unicode: the ASCII and Latin-1 ones, the widths of typography, and the separators. */
  lemma SpacesOfUnicode(c: char)
    ensures IsSpace(c) <==>
              c as int in {0x09, 0x0A, 0x0B, 0x0C, 0x0D, 0x20, 0x85, 0xA0, 0x1680, 0x2000, 0x2001, 0x2002, 0x2003, 0x2004,
                           0x2005, 0x2006, 0x2007, 0x2008, 0x2009, 0x200A, 0x2028, 0x2029, 0x202F, 0x205F, 0x3000}
  {
  }

  /** The bytes of UTF-8: seven bits in one, eleven in two, sixteen in three, and the rest in four. */
  lemma BytesOfRunes(c: char, s: string)
    ensures RuneLength(c) == 1 <==> c as int < 128
    ensures RuneLength(c) == 2 <==> 128 <= c as int < 2048
    ensures RuneLength(c) == 3 <==> 2048 <= c as int < 65536
    ensures RuneLength(c) == 4 <==> 65536 <= c as int
    ensures ByteLength("") == 0 && ByteLength(s + [c]) == ByteLength(s) + RuneLength(c)
  {
    assert (s + [c])[..|s|] == s;
  }

  // ---------------------------------------------------------------------- numbers

  /** A literal as it is written: figures, perhaps a point and figures, perhaps a marker, a sign and figures. */
  function Spelled(p: NumberAlias.Parts): string {
    p.integer + (if p.dotted then "." + p.fraction else "") + p.sep + p.sign + p.exponent
  }

  lemma SpelledIsJoined(p: NumberAlias.Parts)
    requires NumberAlias.Clean(p)
    ensures NumberAlias.Joined(p) == Spelled(p)
  {
    hide AllDigits;
  }

  /** A literal keeps its form, figure for figure: as many before and after its point and in its exponent, with its own
      point, marker and sign. */
  lemma NumbersKeepTheirForm(counter: nat, p: NumberAlias.Parts) returns (q: NumberAlias.Parts)
    requires NumberAlias.Clean(p) && p.integer + p.fraction != "" && ByteLength(Spelled(p)) <= 4000
    ensures NumberAlias.NumberAliasFor(counter, Spelled(p)) == Spelled(q)
    ensures NumberAlias.Clean(q) && |q.integer| == |p.integer| && |q.fraction| == |p.fraction|
    ensures |q.exponent| == |p.exponent| && q.dotted == p.dotted && q.sep == p.sep && q.sign == p.sign
  {
    q := NumberAlias.AliasParts(counter, NumberAlias.ShapeOf(Spelled(p)));
    SpelledIsJoined(p);
    PartsSpelled(counter, p);
    SpelledIsJoined(q);
    hide NumberAlias.ShapeOf, NumberAlias.AliasParts, NumberAlias.Clean, NumberAlias.Joined, ByteLength, Spelled;
  }

  lemma PartsSpelled(counter: nat, p: NumberAlias.Parts)
    requires NumberAlias.Clean(p) && p.integer + p.fraction != ""
    ensures var q := NumberAlias.AliasParts(counter, NumberAlias.ShapeOf(NumberAlias.Joined(p)));
            && NumberAlias.Clean(q) && |q.integer| == |p.integer| && |q.fraction| == |p.fraction|
            && |q.exponent| == |p.exponent| && q.dotted == p.dotted && q.sep == p.sep && q.sign == p.sign
  {
    NumberAlias.PartsOfJoined(p);
    NumberAlias.DigitsAreBytes(p.integer);
    NumberAlias.DigitsAreBytes(p.fraction);
    NumberAlias.DigitsAreBytes(p.exponent);
    NumberAlias.ShapeIsSensible(NumberAlias.Joined(p));
    NumberAlias.AliasPartsAreClean(counter, NumberAlias.ShapeOf(NumberAlias.Joined(p)));
    hide NumberAlias.PartsOf, NumberAlias.Clean, NumberAlias.Joined, NumberAlias.MantissaDigits,
      NumberAlias.ExponentDigits, AllDigits;
  }

  /** A number of more than 4000 bytes keeps all but its figures, which become a one and zeros. */
  lemma LongNumbersAreBlurred(counter: nat, text: string, k: nat)
    requires ByteLength(text) > 4000 && k < |text|
    ensures |NumberAlias.NumberAliasFor(counter, text)| == |text|
    ensures var out := NumberAlias.NumberAliasFor(counter, text)[k];
            && (!('0' <= text[k] <= '9') ==> out == text[k])
            && ('0' <= text[k] <= '9' ==>
                  out == if exists j :: 0 <= j < k && '0' <= text[j] <= '9' then '0' else '1')
  {
  }

  // ------------------------------------------------------------------- as rendered

  /** Letters and spaces. */
  predicate OnlyLetters(s: string) {
    forall k :: 0 <= k < |s| ==> IsSpace(s[k]) || 'a' <= s[k] <= 'z'
  }

  lemma FittedLetters(alias: string, text: string, width: nat)
    requires LettersFor(alias, text)
    ensures OnlyLetters(Fitted(alias, width, 'a'))
  {
    hide IsSpace;
  }

  /** An alias too long for its room loses its last runes, and one too short is moved to the right. */
  lemma FittedAtTheEnds(alias: string, width: nat, pad: char)
    ensures var out := Fitted(alias, width, pad);
            && (width <= |alias| ==> out == alias[..width])
            && (|alias| <= width ==> out[width - |alias|..] == alias && forall k :: 0 <= k < width - |alias| ==> out[k] == pad)
  {
  }

  /** What is written for a token is its span's delimiters around letters, if it is a name or a string; the token's own
      text, if it is a hint or the tail; and otherwise its span, if it is no number. */
  lemma PieceShows(span: string, tok: Token, text: string, quotes: seq<Marker>)
    ensures IsNameOrString(tok.kind) && LettersFor(tok.text, text) ==>
              var out, (start, end) := Piece(span, tok, quotes), Margins(span, quotes, tok.kind);
              && start + end <= |out| && out[..start] == span[..start] && out[|out| - end..] == span[|span| - end..]
              && OnlyLetters(out[start..|out| - end])
    ensures tok.kind == NUMBER ==> Piece(span, tok, quotes) == Fitted(tok.text, |span|, '0')
    ensures tok.kind == HINT || tok.kind == UNKNOWN ==> Piece(span, tok, quotes) == tok.text
    ensures tok.kind.OTHER? || tok.kind.L_PAREN? ==> Piece(span, tok, quotes) == span
  {
    hide Margins, Fitted, LettersFor, OnlyLetters;
    if IsNameOrString(tok.kind) {
      FitKeepsQuotes(span, tok.text, quotes, tok.kind);
      if LettersFor(tok.text, text) {
        FittedLetters(tok.text, text, Width(span, quotes, tok.kind));
      }
    } else if tok.kind.NUMBER? {
      BareMargins(span, quotes, tok.kind);
      FitKeepsQuotes(span, tok.text, quotes, tok.kind);
      BareWidth(span, quotes, tok.kind);
    }
  }

  lemma BareWidth(span: string, quotes: seq<Marker>, kind: TokenType)
    requires Margins(span, quotes, kind) == (0, 0)
    ensures Width(span, quotes, kind) == |span|
    ensures var out := FitAlias(span, "", quotes, kind); out[0..|out| - 0] == out
  {
    hide Margins, Fitted;
  }

  /** A bare name and a number have no delimiters. */
  lemma BareMargins(span: string, quotes: seq<Marker>, kind: TokenType)
    requires kind == VAR || kind == NUMBER
    ensures Margins(span, quotes, kind) == (0, 0)
  {
  }

  /** The delimiters of anything else are the longest quotes at the ends of its span, if there are any. */
  lemma MarginsAreQuotes(span: string, quotes: seq<Marker>, kind: TokenType)
    requires IsNameOrString(kind) && kind != VAR && kind != HEREDOC_STRING && LongestFirst(quotes)
    ensures var (start, end) := Margins(span, quotes, kind);
            || ((start, end) == (0, 0) && forall q :: q in quotes ==> !Wraps(span, q))
            || exists q :: q in quotes && Wraps(span, q) && (start, end) == (|q.open|, |q.close|)
                           && span[..start] == q.open && span[|span| - end..] == q.close
                           && forall c :: c in quotes && Wraps(span, c) ==> |c.open| <= |q.open|
  {
    hide LongestFirst;
    EnclosingIsLongest(span, quotes);
    var q := Enclosing(span, quotes);
    if q.Some? {
      assert span[..|q.value.open|] == q.value.open;
    }
  }

  /** A heredoc's are those quotes, or the first closing one after the opening, and the last opening one before the
      closing, with the tags between. */
  lemma HeredocMarginsAreTags(span: string, quotes: seq<Marker>)
    requires LongestFirst(quotes)
    ensures var (start, end) := Margins(span, quotes, HEREDOC_STRING);
            || ((start, end) == (0, 0) && forall q :: q in quotes ==> !Wraps(span, q))
            || exists q :: q in quotes && Wraps(span, q)
                           && ((start, end) == (|q.open|, |q.close|) || IsTagged(span, q, start, end))
                           && forall c :: c in quotes && Wraps(span, c) ==> |c.open| <= |q.open|
  {
    hide LongestFirst, Wraps;
    EnclosingIsLongest(span, quotes);
    var q := Enclosing(span, quotes);
    if q.Some? {
      TagsAreFound(span, q.value);
    }
  }

  predicate IsTagged(span: string, q: Marker, start: nat, end: nat) {
    && |q.open| + |q.close| <= start <= |span| && |q.open| + |q.close| <= end <= |span|
    && HasPrefixAt(span, q.close, start - |q.close|)
    && (forall k :: |q.open| <= k < start - |q.close| ==> !HasPrefixAt(span, q.close, k))
    && HasPrefixAt(span, q.open, |span| - end)
    && (forall k :: |span| - end < k <= |span| - |q.close| - |q.open| ==> !HasPrefixAt(span, q.open, k))
  }

  lemma TagsAreFound(span: string, q: Marker)
    requires Wraps(span, q)
    ensures var (start, end) := HeredocMargins(span, q);
            (start, end) == (|q.open|, |q.close|) || IsTagged(span, q, start, end)
  {
    hide HasPrefixAt, IndexOfRunes, LastIndexOfRunes;
  }

  lemma InsideOf(out: string, from: nat, upto: nat, piece: string, start: nat, end: nat)
    requires from <= upto <= |out| && out[from..upto] == piece && start + end <= |piece|
    ensures from + start + end <= upto && out[from..from + start] == piece[..start]
    ensures out[upto - end..upto] == piece[|piece| - end..] && out[from + start..upto - end] == piece[start..|piece| - end]
  {
    assert |piece| == upto - from;
    assert out[from..from + start] == out[from..upto][..start];
    assert out[upto - end..upto] == out[from..upto][|piece| - end..];
    assert out[from + start..upto] == out[from..upto][start..];
    assert out[from + start..upto - end] == out[from + start..upto][..|piece| - start - end];
    assert piece[start..|piece| - end] == piece[start..][..|piece| - start - end];
  }

  lemma SpansStay(sql: string, tokens: seq<Token>, d: Dialect, quotes: seq<Marker>)
    requires HintsOpen(tokens, d) && Disjoint(tokens)
    ensures var out := Anonymized(tokens, d);
            && Disjoint(out) && forall i :: 0 <= i <= |tokens| ==> Spilt(sql, out, quotes, i) == Spilt(sql, tokens, quotes, i)
  {
    hide Anonymized, Spilt, HintsOpen, SpanOf, IsRewritten;
    var out := Anonymized(tokens, d);
    forall i | 0 <= i < |tokens|
      ensures out[i].start == tokens[i].start && out[i].end == tokens[i].end && out[i].kind == tokens[i].kind
           && SpanOf(sql, out[i]) == SpanOf(sql, tokens[i])
    {
      AnonymizedKeepsSpans(tokens, d, i);
      SameSpan(sql, out[i], tokens[i]);
    }
    forall i | 0 <= i <= |tokens| ensures Spilt(sql, out, quotes, i) == Spilt(sql, tokens, quotes, i) {
      SpiltOfSpans(sql, out, tokens, quotes, i);
    }
  }

  /** Delimiters of a span around letters, in a part of a text. */
  ghost predicate ShowsNoName(out: string, from: nat, upto: nat, span: string, margins: (nat, nat)) {
    && margins.0 <= |span| && margins.1 <= |span| && from + margins.0 + margins.1 <= upto <= |out|
    && out[from..from + margins.0] == span[..margins.0] && out[upto - margins.1..upto] == span[|span| - margins.1..]
    && OnlyLetters(out[from + margins.0..upto - margins.1])
  }

  lemma PieceShowsNoName(out: string, from: nat, upto: nat, span: string, tok: Token, text: string, quotes: seq<Marker>)
    requires IsNameOrString(tok.kind) && LettersFor(tok.text, text)
    requires from <= upto <= |out| && out[from..upto] == Piece(span, tok, quotes)
    ensures ShowsNoName(out, from, upto, span, Margins(span, quotes, tok.kind))
  {
    var (start, end) := Margins(span, quotes, tok.kind);
    hide Piece, Margins, OnlyLetters, LettersFor, IsNameOrString;
    PieceShows(span, tok, text, quotes);
    InsideOf(out, from, upto, Piece(span, tok, quotes), start, end);
  }

  lemma StandsAs(out: string, sql: string, tokens: seq<Token>, t: Tables, i: nat)
    requires i < |tokens| && NonEmptyOpeners(t.comments) && Stands(out, sql, tokens, t, i)
    ensures var a, b := tokens[i].start, tokens[i].end + 1;
            var from, upto := a + Spilt(sql, tokens, t.quotes, i), b + Spilt(sql, tokens, t.quotes, i + 1);
            a <= b <= |sql| && from <= upto <= |out| && out[from..upto] == Piece(sql[a..b], tokens[i], t.quotes)
  {
    hide Redact, Piece, Spilt, NonEmptyOpeners;
  }

  lemma PieceInPlace(sql: string, tokens: seq<Token>, d: Dialect, t: Tables, i: nat)
    requires HintsOpen(tokens, d) && NonEmptyOpeners(t.comments) && i < |tokens|
    requires InBounds(sql, tokens) && RewrittenFit(sql, tokens) && Disjoint(tokens)
    ensures Stands(Render(sql, Anonymized(tokens, d), t), sql, Anonymized(tokens, d), t, i)
  {
    hide *;
    AnonymizedFits(sql, tokens, d, t.quotes);
    SpansStay(sql, tokens, d, t.quotes);
    LayoutIsKept(sql, Anonymized(tokens, d), t);
  }

  /** What stands in the anonymized text, where a name or a string stood, is its delimiters around letters. */
  lemma StatementShowsNoNames(sql: string, tokens: seq<Token>, d: Dialect, t: Tables, i: nat)
    requires HintsOpen(tokens, d) && NonEmptyOpeners(t.comments)
    requires InBounds(sql, tokens) && RewrittenFit(sql, tokens) && Disjoint(tokens)
    requires i < |tokens| && IsNameOrString(tokens[i].kind) && !IsKnownCall(tokens, d, i)
    ensures tokens[i].start <= tokens[i].end + 1 <= |sql|
    ensures var (a, b) := (tokens[i].start, tokens[i].end + 1);
            ShowsNoName(Render(sql, Anonymized(tokens, d), t), a + Spilt(sql, tokens, t.quotes, i),
                        b + Spilt(sql, tokens, t.quotes, i + 1), sql[a..b],
                        Margins(sql[a..b], t.quotes, tokens[i].kind))
  {
    assert tokens[i].start <= tokens[i].end + 1 <= |sql|;
    hide *;
    PieceInPlace(sql, tokens, d, t, i);
    StandingShowsNoName(Render(sql, Anonymized(tokens, d), t), sql, tokens, d, t, i);
  }

  lemma StandingShowsNoName(out: string, sql: string, tokens: seq<Token>, d: Dialect, t: Tables, i: nat)
    requires HintsOpen(tokens, d) && NonEmptyOpeners(t.comments) && Disjoint(tokens)
    requires i < |tokens| && IsNameOrString(tokens[i].kind) && !IsKnownCall(tokens, d, i)
    requires tokens[i].start <= tokens[i].end + 1 <= |sql| && Stands(out, sql, Anonymized(tokens, d), t, i)
    ensures var (a, b) := (tokens[i].start, tokens[i].end + 1);
            ShowsNoName(out, a + Spilt(sql, tokens, t.quotes, i), b + Spilt(sql, tokens, t.quotes, i + 1), sql[a..b],
                        Margins(sql[a..b], t.quotes, tokens[i].kind))
  {
    hide *;
    var tok := Anonymized(tokens, d)[i];
    SpansStay(sql, tokens, d, t.quotes);
    var from, upto := tokens[i].start + Spilt(sql, tokens, t.quotes, i), tokens[i].end + 1 + Spilt(sql, tokens, t.quotes, i + 1);
    AnonymizedKeepsSpans(tokens, d, i);
    StandsAs(out, sql, Anonymized(tokens, d), t, i);
    NamesBecomeLetters(tokens, d, i);
    PieceShowsNoName(out, from, upto, sql[tokens[i].start..tokens[i].end + 1], tok, tokens[i].text, t.quotes);
  }
}
