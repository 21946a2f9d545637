/** Fitting an alias into the span its token held (fitAlias in sqlglot/anonymize.go). */
module AliasFit {
  import opened Options
  import opened Numerals
  import opened Runes
  import opened CommentScan
  import opened MarkerOrder
  import opened Anonymizer
  import LetterAlias
  import NumberAlias

  /** The first place at or after `from`. */
  function IndexOfRunes(s: string, needle: string, from: nat): (r: Option<nat>)
    ensures r.Some? ==> from <= r.value && HasPrefixAt(s, needle, r.value)
    ensures r.Some? ==> forall k :: from <= k < r.value ==> !HasPrefixAt(s, needle, k)
    ensures r.None? ==> forall k :: from <= k ==> !HasPrefixAt(s, needle, k)
    decreases |s| - from
  {
    if from + |needle| > |s| then None
    else if HasPrefixAt(s, needle, from) then Some(from)
    else IndexOfRunes(s, needle, from + 1)
  }

  /** The last place that ends at or before `upto`. */
  function LastIndexOfRunes(s: string, needle: string, upto: nat): (r: Option<nat>)
    ensures r.Some? ==> r.value + |needle| <= upto && HasPrefixAt(s, needle, r.value)
    ensures r.Some? ==> forall k :: r.value < k && k + |needle| <= upto ==> !HasPrefixAt(s, needle, k)
    ensures r.None? ==> forall k :: 0 <= k && k + |needle| <= upto ==> !HasPrefixAt(s, needle, k)
    decreases upto
  {
    if upto < |needle| then None
    else if HasPrefixAt(s, needle, upto - |needle|) then Some(upto - |needle|)
    else if upto == 0 then None
    else LastIndexOfRunes(s, needle, upto - 1)
  }

  predicate Wraps(span: string, q: Marker) {
    && |span| >= |q.open| + |q.close|
    && HasPrefixAt(span, q.open, 0) && HasPrefixAt(span, q.close, |span| - |q.close|)
  }

  /** The first quote of the table that stands at both ends of the span. */
  function Enclosing(span: string, quotes: seq<Marker>): (q: Option<Marker>)
    ensures q.Some? ==> q.value in quotes && Wraps(span, q.value)
    ensures q.None? ==> forall c :: c in quotes ==> !Wraps(span, c)
  {
    if quotes == [] then None
    else if Wraps(span, quotes[0]) then Some(quotes[0])
    else Enclosing(span, quotes[1..])
  }

  /** How much of a heredoc is its opening and its closing delimiter, tag included. */
  function HeredocMargins(span: string, q: Marker): (m: (nat, nat))
    requires Wraps(span, q)
    ensures m.0 <= |span| && m.1 <= |span|
  {
    var openEnd := IndexOfRunes(span, q.close, |q.open|);
    var closeStart := LastIndexOfRunes(span, q.open, |span| - |q.close|);
    if openEnd.Some? && closeStart.Some? && openEnd.value < closeStart.value
    then (openEnd.value + |q.close|, |span| - closeStart.value)
    else (|q.open|, |q.close|)
  }

  /** How much at each end of the span belongs to its quotes. */
  function Margins(span: string, quotes: seq<Marker>, kind: TokenType): (m: (nat, nat))
    ensures m.0 <= |span| && m.1 <= |span|
  {
    if !IsQuoted(kind) then (0, 0)
    else
      match Enclosing(span, quotes)
      case None => (0, 0)
      case Some(q) => if kind.HEREDOC_STRING? then HeredocMargins(span, q) else (|q.open|, |q.close|)
  }

  function PadRune(kind: TokenType): char {
    if kind.NUMBER? then '0' else 'a'
  }

  /** The alias cut, or padded on the left, to the width. */
  function Fitted(alias: string, width: nat, pad: char): (out: string)
    ensures |out| == width
  {
    if |alias| > width then alias[..width] else Repeat(pad, width - |alias|) + alias
  }

  /** fitAlias. */
  function FitAlias(span: string, alias: string, quotes: seq<Marker>, kind: TokenType): string {
    var (start, end) := Margins(span, quotes, kind);
    var width := if start + end > |span| then 0 else |span| - start - end;
    span[..start] + Fitted(alias, width, PadRune(kind)) + span[|span| - end..]
  }

  // ------------------------------------------------------------------- theorems

  /** The delimiters found do not reach into each other. */
  predicate MarginsApart(span: string, quotes: seq<Marker>, kind: TokenType) {
    var (start, end) := Margins(span, quotes, kind);
    start + end <= |span|
  }

  /** The runes the delimiters found share. */
  function Spill(span: string, quotes: seq<Marker>, kind: TokenType): nat {
    var (start, end) := Margins(span, quotes, kind);
    if start + end <= |span| then 0 else start + end - |span|
  }

  /** An alias is written in exactly the room of its span and the runes its delimiters share, which are written twice:
      as long as the span just when the delimiters do not overlap. */
  lemma FitLength(span: string, alias: string, quotes: seq<Marker>, kind: TokenType)
    ensures |FitAlias(span, alias, quotes, kind)| == |span| + Spill(span, quotes, kind)
    ensures |FitAlias(span, alias, quotes, kind)| == |span| <==> MarginsApart(span, quotes, kind)
  {
    hide Margins, Fitted;
  }

  /** Only a heredoc inside delimiters that close with two runes or more can have them overlap: with closing
      delimiters of one rune, as in every dialect that has heredocs, all spans keep their length. */
  lemma ShortClosersKeepLength(span: string, alias: string, quotes: seq<Marker>, kind: TokenType)
    requires kind.HEREDOC_STRING? ==> forall q :: q in quotes && Wraps(span, q) ==> |q.close| <= 1
    ensures Spill(span, quotes, kind) == 0 && |FitAlias(span, alias, quotes, kind)| == |span|
  {
    hide IndexOfRunes, LastIndexOfRunes, Wraps, HasPrefixAt, FitAlias;
    FitLength(span, alias, quotes, kind);
    assert forall q :: q in quotes && Wraps(span, q) ==> |q.open| + |q.close| <= |span| by {
      WrappingFits(span, quotes);
    }
  }

  lemma WrappingFits(span: string, quotes: seq<Marker>)
    ensures forall q :: q in quotes && Wraps(span, q) ==> |q.open| + |q.close| <= |span|
  {
  }

  /** What a table with a longer one would do: seven dollar signs between `$$` and `$$`, the opening and the closing
      delimiter sharing a rune. */
  lemma LongDelimitersOverlap()
    ensures var span, quotes := "$$$$$$$", [Marker("$$", "$$")];
            Spill(span, quotes, HEREDOC_STRING) == 1 && |FitAlias(span, "", quotes, HEREDOC_STRING)| == 8
  {
    var span, q := "$$$$$$$", Marker("$$", "$$");
    assert HasPrefixAt(span, "$$", 0) && HasPrefixAt(span, "$$", 5);
    assert Enclosing(span, [q]) == Some(q);
    assert HasPrefixAt(span, "$$", 2) && HasPrefixAt(span, "$$", 3);
    assert IndexOfRunes(span, "$$", 2) == Some(2);
    assert LastIndexOfRunes(span, "$$", 5) == Some(3);
    assert HeredocMargins(span, q) == (4, 4);
    FitLength(span, "", [q], HEREDOC_STRING);
  }

  /** The room between the delimiters. */
  function Width(span: string, quotes: seq<Marker>, kind: TokenType): nat {
    var (start, end) := Margins(span, quotes, kind);
    if start + end <= |span| then |span| - start - end else 0
  }

  /** The quotes stay, and the alias stands between them. */
  lemma FitKeepsQuotes(span: string, alias: string, quotes: seq<Marker>, kind: TokenType)
    ensures var out := FitAlias(span, alias, quotes, kind);
            var (start, end) := Margins(span, quotes, kind);
            && start + end <= |out| && out[..start] == span[..start] && out[|out| - end..] == span[|span| - end..]
            && out[start..|out| - end] == Fitted(alias, Width(span, quotes, kind), PadRune(kind))
  {
    hide Margins, Fitted;
  }

  lemma {:induction false} NonSpacesConcat(a: string, b: string)
    ensures LetterAlias.NonSpaces(a + b) == LetterAlias.NonSpaces(a) + LetterAlias.NonSpaces(b)
  {
    if b == "" {
      assert a + b == a;
    } else {
      assert (a + b)[..|a + b| - 1] == a + b[..|b| - 1];
      NonSpacesConcat(a, b[..|b| - 1]);
    }
  }

  lemma {:induction false} PadHasNoSpaces(n: nat)
    ensures LetterAlias.NonSpaces(Repeat('a', n)) == Repeat('a', n)
  {
    if n == 0 {
    } else {
      assert Repeat('a', n)[..n - 1] == Repeat('a', n - 1);
      PadHasNoSpaces(n - 1);
      assert Repeat('a', n) == Repeat('a', n - 1) + ['a'];
    }
  }

  /** Padding on the left is padding with the zero digit: the alias still spells its counter. */
  lemma PaddedLettersDecode(alias: string, width: nat)
    requires |alias| <= width
    ensures LetterAlias.Decode(Fitted(alias, width, 'a')) == LetterAlias.Decode(alias)
  {
    var n := width - |alias|;
    NonSpacesConcat(Repeat('a', n), alias);
    PadHasNoSpaces(n);
    LeadingZeros(n, LetterAlias.NonSpaces(alias), LETTERS);
  }

  /** The counter a fitted alias spells, in its token's shape. */
  function CounterOf(body: string, tok: Token): int {
    if tok.kind.NUMBER? then NumberAlias.Decode(body, NumberAlias.ShapeOf(tok.text)) else LetterAlias.Decode(body)
  }

  lemma PaddedAliasDecodes(tok: Token, counter: nat, width: nat)
    requires IsAnonymized(tok.kind) && counter < Room(tok) && |Alias(KeyOf(tok), counter)| <= width
    ensures CounterOf(Fitted(Alias(KeyOf(tok), counter), width, PadRune(tok.kind)), tok) == counter
  {
    hide NumberAlias.NumberAliasFor, NumberAlias.Decode, NumberAlias.ShapeOf, NumberAlias.Capacity,
      LetterAlias.AliasFor, LetterAlias.Decode, Repeat, ByteLength, Pow;
    var alias := Alias(KeyOf(tok), counter);
    if tok.kind.NUMBER? {
      NumberAlias.NumberAliasDecodes(counter, tok.text);
      NumberAlias.PaddedAliasDecodes(width - |alias|, counter, tok.text);
    } else {
      LetterAlias.AliasDecodes(counter, tok.text);
      PaddedLettersDecode(alias, width);
    }
  }

  /** What stands between the quotes decodes to the counter, while the counter has room in the text's shape and the span
      has room for the alias. */
  lemma FittedAliasDecodes(span: string, tok: Token, counter: nat, quotes: seq<Marker>)
    requires IsAnonymized(tok.kind) && counter < Room(tok) && |Alias(KeyOf(tok), counter)| <= Width(span, quotes, tok.kind)
    ensures var out := FitAlias(span, Alias(KeyOf(tok), counter), quotes, tok.kind);
            var (start, end) := Margins(span, quotes, tok.kind);
            start + end <= |out| && CounterOf(out[start..|out| - end], tok) == counter
  {
    hide Margins, FitAlias, CounterOf, Room, Alias, Fitted, Width;
    FitKeepsQuotes(span, Alias(KeyOf(tok), counter), quotes, tok.kind);
    PaddedAliasDecodes(tok, counter, Width(span, quotes, tok.kind));
  }

  // ---------------------------------------------------- the order of the quotes

  lemma {:induction false} EnclosingIsLongest(span: string, quotes: seq<Marker>)
    requires LongestFirst(quotes)
    ensures var r := Enclosing(span, quotes);
            r.Some? ==> forall c :: c in quotes && Wraps(span, c) ==> |c.open| <= |r.value.open|
  {
    hide Wraps;
    if quotes == [] || Wraps(span, quotes[0]) {
    } else {
      EnclosingIsLongest(span, quotes[1..]);
    }
  }

  /** Fitting is the same for every order of the quote table that puts longer openers first. */
  lemma FitIgnoresOrder(span: string, alias: string, a: seq<Marker>, b: seq<Marker>, kind: TokenType)
    requires LongestFirst(a) && LongestFirst(b) && OpenersDiffer(a) && SameMarkers(a, b)
    ensures FitAlias(span, alias, a, kind) == FitAlias(span, alias, b, kind)
  {
    hide LongestFirst, HeredocMargins, Fitted, HasPrefixAt, FitAlias;
    EnclosingIsLongest(span, a);
    EnclosingIsLongest(span, b);
    var ra, rb := Enclosing(span, a), Enclosing(span, b);
    if ra.Some? && rb.Some? {
      SamePrefix(span, 0, ra.value.open, rb.value.open);
    }
    assert ra == rb;
    SameEnclosing(span, alias, a, b, kind);
  }

  lemma SameEnclosing(span: string, alias: string, a: seq<Marker>, b: seq<Marker>, kind: TokenType)
    requires Enclosing(span, a) == Enclosing(span, b)
    ensures FitAlias(span, alias, a, kind) == FitAlias(span, alias, b, kind)
  {
    hide Enclosing, Fitted, HeredocMargins;
  }

  // ------------------------------------------------------------------ as it runs

  method FindRunes(s: string, needle: string, from: nat) returns (r: Option<nat>)
    ensures r == IndexOfRunes(s, needle, from)
  {
    hide HasPrefixAt;
    var i := from;
    while i + |needle| <= |s|
      invariant from <= i && IndexOfRunes(s, needle, from) == IndexOfRunes(s, needle, i)
      decreases |s| - i
    {
      if HasPrefixAt(s, needle, i) {
        return Some(i);
      }
      i := i + 1;
    }
    return None;
  }

  method FindLastRunes(s: string, needle: string, upto: nat) returns (r: Option<nat>)
    ensures r == LastIndexOfRunes(s, needle, upto)
  {
    hide HasPrefixAt;
    var i: int := upto - |needle|;
    while i >= 0
      invariant i + |needle| <= upto
      invariant i >= 0 ==> LastIndexOfRunes(s, needle, upto) == LastIndexOfRunes(s, needle, i + |needle|)
      invariant i < 0 ==> LastIndexOfRunes(s, needle, upto).None?
    {
      if HasPrefixAt(s, needle, i) {
        return Some(i);
      }
      i := i - 1;
    }
    return None;
  }

  method FindMargins(span: string, quotes: seq<Marker>, kind: TokenType) returns (start: nat, end: nat)
    ensures (start, end) == Margins(span, quotes, kind)
  {
    hide IndexOfRunes, LastIndexOfRunes, HasPrefixAt, Wraps;
    start, end := 0, 0;
    if IsQuoted(kind) {
      var k := 0;
      while k < |quotes|
        invariant 0 <= k <= |quotes| && Enclosing(span, quotes) == Enclosing(span, quotes[k..])
      {
        var q := quotes[k];
        if Wraps(span, q) {
          assert |q.open| + |q.close| <= |span| by {
            WrappingFits(span, quotes);
          }
          start, end := |q.open|, |q.close|;
          if kind.HEREDOC_STRING? {
            var openEnd := FindRunes(span, q.close, start);
            var closeStart := FindLastRunes(span, q.open, |span| - end);
            if openEnd.Some? && closeStart.Some? && openEnd.value < closeStart.value {
              start, end := openEnd.value + |q.close|, |span| - closeStart.value;
            }
          }
          return;
        }
        k := k + 1;
      }
    }
  }

  method WriteFitted(span: string, alias: string, quotes: seq<Marker>, kind: TokenType) returns (out: string)
    ensures out == FitAlias(span, alias, quotes, kind)
  {
    hide Margins;
    var start, end := FindMargins(span, quotes, kind);
    var width := |span| - start - end;
    if width < 0 {
      width := 0;
    }
    var runes := alias;
    if |runes| > width {
      runes := runes[..width];
    }
    if |runes| < width {
      runes := Repeat(PadRune(kind), width - |runes|) + runes;
    }
    assert runes == Fitted(alias, width, PadRune(kind));
    out := span[..start] + runes + span[|span| - end..];
  }
}
