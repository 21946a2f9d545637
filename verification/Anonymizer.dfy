/** Replacing what a token list holds by aliases (anonymizeTokens in sqlglot/anonymize.go). */
module Anonymizer {
  import opened Numerals
  import opened Runes
  import CommentScan
  import LetterAlias
  import NumberAlias

  /** The token types the anonymizer tells apart. */
  datatype TokenType =
    | BIT_STRING | BYTE_STRING | HEX_STRING | HEREDOC_STRING | IDENTIFIER | NATIONAL_STRING | RAW_STRING | STRING
    | UNICODE_STRING | NUMBER | VAR | HINT | UNKNOWN | L_PAREN | OTHER(code: nat)

  datatype Token = Token(kind: TokenType, text: string, start: nat, end: nat, comments: seq<string>)

  /** What the loop reads of a dialect: its hint markers, whether comments nest, and which words are function names. */
  datatype Dialect = Dialect(hintStart: string, hintEnd: string, nested: bool, isCall: string -> bool)

  /** quotedTypes. */
  predicate IsQuoted(kind: TokenType) {
    !(kind.NUMBER? || kind.VAR? || kind.HINT? || kind.UNKNOWN? || kind.L_PAREN? || kind.OTHER?)
  }

  /** anonymizedTypes. */
  predicate IsAnonymized(kind: TokenType) {
    IsQuoted(kind) || kind.NUMBER? || kind.VAR?
  }

  /** A text and whether it was a number: the same text as both gets two aliases. */
  datatype Key = Key(number: bool, text: string)

  function KeyOf(tok: Token): Key {
    Key(tok.kind.NUMBER?, tok.text)
  }

  predicate IsBlankableHint(tok: Token, d: Dialect) {
    tok.kind.HINT? && d.hintStart != ""
  }

  /** A word before a parenthesis that the dialect knows as a function. */
  predicate IsFunctionName(tokens: seq<Token>, d: Dialect, i: nat)
    requires i < |tokens|
  {
    && tokens[i].kind.VAR? && i + 1 < |tokens| && tokens[i + 1].kind.L_PAREN?
    && d.isCall(tokens[i].text)
  }

  /** Whether the loop gives token i an alias. */
  predicate Sensitive(tokens: seq<Token>, d: Dialect, i: nat)
    requires i < |tokens|
  {
    IsAnonymized(tokens[i].kind) && tokens[i].text != "" && !IsFunctionName(tokens, d, i)
  }

  /** Hints hold at least their own opening marker. */
  predicate HintsOpen(tokens: seq<Token>, d: Dialect) {
    forall i :: 0 <= i < |tokens| && tokens[i].kind.HINT? ==> |d.hintStart| <= |tokens[i].text|
  }

  // ------------------------------------------------------------ first occurrences

  predicate SameKey(tokens: seq<Token>, d: Dialect, i: nat, k: nat)
    requires i < |tokens| && k < |tokens|
  {
    Sensitive(tokens, d, k) && KeyOf(tokens[k]) == KeyOf(tokens[i])
  }

  /** The first token from j on with token i's key. */
  function FirstFrom(tokens: seq<Token>, d: Dialect, i: nat, j: nat): (k: nat)
    requires j <= i < |tokens| && Sensitive(tokens, d, i)
    ensures j <= k <= i && SameKey(tokens, d, i, k)
    ensures forall m :: j <= m < k ==> !SameKey(tokens, d, i, m)
    decreases i - j
  {
    if SameKey(tokens, d, i, j) then j else FirstFrom(tokens, d, i, j + 1)
  }

  function First(tokens: seq<Token>, d: Dialect, i: nat): (k: nat)
    requires i < |tokens| && Sensitive(tokens, d, i)
    ensures k <= i && SameKey(tokens, d, i, k)
    ensures forall m :: 0 <= m < k ==> !SameKey(tokens, d, i, m)
  {
    FirstFrom(tokens, d, i, 0)
  }

  predicate IsFirst(tokens: seq<Token>, d: Dialect, i: nat)
    requires i < |tokens|
  {
    Sensitive(tokens, d, i) && First(tokens, d, i) == i
  }

  /** How many keys the first n tokens hold. */
  function KeyCount(tokens: seq<Token>, d: Dialect, n: nat): nat
    requires n <= |tokens|
  {
    if n == 0 then 0 else KeyCount(tokens, d, n - 1) + (if IsFirst(tokens, d, n - 1) then 1 else 0)
  }

  /** The counter token i's key got: the number of keys first seen before it. */
  function Rank(tokens: seq<Token>, d: Dialect, i: nat): nat
    requires i < |tokens| && Sensitive(tokens, d, i)
  {
    KeyCount(tokens, d, First(tokens, d, i))
  }

  // ----------------------------------------------------------------- the new list

  function Alias(key: Key, counter: nat): string {
    if key.number then NumberAlias.NumberAliasFor(counter, key.text) else LetterAlias.AliasFor(counter, key.text)
  }

  /** A hint's text: its comment blanked, and whatever follows it. */
  function BlankHint(text: string, d: Dialect): (t: string)
    requires d.hintStart != "" && |d.hintStart| <= |text|
    ensures |t| == |text|
  {
    var (t, stop) := CommentScan.BlankComment(text, 0, d.hintStart, d.hintEnd, d.nested);
    t + BlankText(text[stop..])
  }

  function NewText(tokens: seq<Token>, d: Dialect, i: nat): string
    requires i < |tokens| && HintsOpen(tokens, d)
  {
    var tok := tokens[i];
    if IsBlankableHint(tok, d) then BlankHint(tok.text, d)
    else if Sensitive(tokens, d, i) then Alias(KeyOf(tok), Rank(tokens, d, i))
    else tok.text
  }

  function BlankAll(comments: seq<string>): (blank: seq<string>)
    ensures |blank| == |comments|
  {
    seq(|comments|, k requires 0 <= k < |comments| => BlankText(comments[k]))
  }

  function NewToken(tokens: seq<Token>, d: Dialect, i: nat): Token
    requires i < |tokens| && HintsOpen(tokens, d)
  {
    tokens[i].(text := NewText(tokens, d, i), comments := BlankAll(tokens[i].comments))
  }

  function Anonymized(tokens: seq<Token>, d: Dialect): (out: seq<Token>)
    requires HintsOpen(tokens, d)
    ensures |out| == |tokens|
  {
    seq(|tokens|, i requires 0 <= i < |tokens| => NewToken(tokens, d, i))
  }

  // ------------------------------------------------------------------- theorems

  lemma SameKeySameFirst(tokens: seq<Token>, d: Dialect, i: nat, j: nat)
    requires i < |tokens| && j < |tokens| && Sensitive(tokens, d, i) && Sensitive(tokens, d, j)
    ensures First(tokens, d, i) == First(tokens, d, j) <==> KeyOf(tokens[i]) == KeyOf(tokens[j])
  {
    var a, b := First(tokens, d, i), First(tokens, d, j);
    hide First, Sensitive;
    assert SameKey(tokens, d, i, a) && SameKey(tokens, d, j, b);
    if KeyOf(tokens[i]) == KeyOf(tokens[j]) {
      assert SameKey(tokens, d, i, b) && SameKey(tokens, d, j, a);
    }
  }

  lemma {:induction false} KeyCountGrows(tokens: seq<Token>, d: Dialect, m: nat, n: nat)
    requires m <= n <= |tokens|
    ensures KeyCount(tokens, d, m) <= KeyCount(tokens, d, n)
    ensures m < n && IsFirst(tokens, d, m) ==> KeyCount(tokens, d, m) < KeyCount(tokens, d, n)
    decreases n - m
  {
    hide IsFirst;
    if m == n {
    } else {
      KeyCountGrows(tokens, d, m, n - 1);
    }
  }

  lemma FirstIsFirst(tokens: seq<Token>, d: Dialect, i: nat)
    requires i < |tokens| && Sensitive(tokens, d, i)
    ensures IsFirst(tokens, d, First(tokens, d, i))
  {
    hide FirstFrom;
    SameKeySameFirst(tokens, d, i, First(tokens, d, i));
  }

  /** Two tokens share a counter exactly when they share a key, and counters stay below the number of keys. */
  lemma RankIsKey(tokens: seq<Token>, d: Dialect, i: nat, j: nat)
    requires i < |tokens| && j < |tokens| && Sensitive(tokens, d, i) && Sensitive(tokens, d, j)
    ensures Rank(tokens, d, i) == Rank(tokens, d, j) <==> KeyOf(tokens[i]) == KeyOf(tokens[j])
    ensures Rank(tokens, d, i) < KeyCount(tokens, d, |tokens|)
  {
    SameKeySameFirst(tokens, d, i, j);
    FirstIsFirst(tokens, d, i);
    FirstIsFirst(tokens, d, j);
    var a, b := First(tokens, d, i), First(tokens, d, j);
    hide IsFirst, First, KeyCount, Sensitive;
    KeyCountGrows(tokens, d, a, |tokens|);
    if a < b {
      KeyCountGrows(tokens, d, a, b);
    } else if b < a {
      KeyCountGrows(tokens, d, b, a);
    }
  }

  /** The aliases a text of this shape has room for. */
  function Room(tok: Token): nat {
    if tok.kind.NUMBER? then
      if ByteLength(tok.text) > NumberAlias.LONGEST then 0 else NumberAlias.Capacity(NumberAlias.ShapeOf(tok.text))
    else
      PowPositive(26, LetterAlias.Count(tok.text));
      Pow(26, LetterAlias.Count(tok.text))
  }

  /** Two texts no alias can tell apart by more than its counter. */
  predicate SameShape(a: Token, b: Token) {
    a.kind.NUMBER? == b.kind.NUMBER?
    && if a.kind.NUMBER? then NumberAlias.SameShape(a.text, b.text) else BlankText(a.text) == BlankText(b.text)
  }

  lemma SameShapeSameAlias(a: Token, b: Token, counter: nat)
    requires SameShape(a, b)
    ensures Alias(KeyOf(a), counter) == Alias(KeyOf(b), counter)
  {
    hide NumberAlias.NumberAliasFor, LetterAlias.AliasFor, NumberAlias.SameShape, BlankText;
    if a.kind.NUMBER? {
      NumberAlias.NumberAliasDependsOnShape(counter, a.text, b.text);
    } else {
      LetterAlias.AliasDependsOnSpaces(counter, a.text, b.text);
    }
  }

  /** What an alias of this text's shape shows of a counter: the remainder, the leading letters, or, of a number blurred
      for its length, nothing. */
  function Shown(tok: Token, counter: nat): nat {
    if !tok.kind.NUMBER? then LetterAlias.Leading(counter, LetterAlias.Count(tok.text))
    else if ByteLength(tok.text) > NumberAlias.LONGEST then 0
    else NumberAlias.Remainder(counter, NumberAlias.ShapeOf(tok.text))
  }

  lemma ShownInRoom(tok: Token, counter: nat)
    requires counter < Room(tok)
    ensures Shown(tok, counter) == counter
  {
    hide NumberAlias.Capacity, NumberAlias.ShapeOf, ByteLength;
  }

  lemma AliasTellsShown(tok: Token, c1: nat, c2: nat)
    ensures Alias(KeyOf(tok), c1) == Alias(KeyOf(tok), c2) <==> Shown(tok, c1) == Shown(tok, c2)
  {
    hide LetterAlias.AliasFor, LetterAlias.Leading, NumberAlias.Remainder, NumberAlias.ShapeOf, ByteLength;
    if !tok.kind.NUMBER? {
      LetterAlias.SameAliasIff(c1, c2, tok.text);
    } else if ByteLength(tok.text) <= NumberAlias.LONGEST {
      hide NumberAlias.NumberAliasFor;
      NumberAlias.SameAliasIff(c1, c2, tok.text);
    }
  }

  /** Two texts of one shape get the same alias exactly when it shows the same of their counters; so the same text
      always gets the same alias, and different ones get different aliases while their two counters are in the shape's
      room. */
  lemma AliasesAreConsistent(tokens: seq<Token>, d: Dialect, i: nat, j: nat)
    requires HintsOpen(tokens, d) && i < |tokens| && j < |tokens| && Sensitive(tokens, d, i) && Sensitive(tokens, d, j)
    ensures KeyOf(tokens[i]) == KeyOf(tokens[j]) ==> Anonymized(tokens, d)[i].text == Anonymized(tokens, d)[j].text
    ensures SameShape(tokens[i], tokens[j]) ==>
              (Anonymized(tokens, d)[i].text == Anonymized(tokens, d)[j].text
               <==> Shown(tokens[i], Rank(tokens, d, i)) == Shown(tokens[i], Rank(tokens, d, j)))
    ensures SameShape(tokens[i], tokens[j]) && Rank(tokens, d, i) < Room(tokens[i]) && Rank(tokens, d, j) < Room(tokens[i])
         ==> (Anonymized(tokens, d)[i].text == Anonymized(tokens, d)[j].text <==> KeyOf(tokens[i]) == KeyOf(tokens[j]))
  {
    RankIsKey(tokens, d, i, j);
    assert NewText(tokens, d, i) == Alias(KeyOf(tokens[i]), Rank(tokens, d, i));
    assert NewText(tokens, d, j) == Alias(KeyOf(tokens[j]), Rank(tokens, d, j));
    hide Rank, Room, Alias, SameShape, KeyCount, NewText, Shown;
    if SameShape(tokens[i], tokens[j]) {
      SameShapeSameAlias(tokens[i], tokens[j], Rank(tokens, d, j));
      AliasTellsShown(tokens[i], Rank(tokens, d, i), Rank(tokens, d, j));
      if Rank(tokens, d, i) < Room(tokens[i]) && Rank(tokens, d, j) < Room(tokens[i]) {
        ShownInRoom(tokens[i], Rank(tokens, d, i));
        ShownInRoom(tokens[i], Rank(tokens, d, j));
      }
    }
  }

  /** The aliases of a statement run out late: while its keys are no more than the room, every counter is in it. */
  lemma FewKeysFit(tokens: seq<Token>, d: Dialect, i: nat, j: nat)
    requires HintsOpen(tokens, d) && i < |tokens| && j < |tokens| && Sensitive(tokens, d, i) && Sensitive(tokens, d, j)
    requires SameShape(tokens[i], tokens[j]) && KeyCount(tokens, d, |tokens|) <= Room(tokens[i])
    ensures Anonymized(tokens, d)[i].text == Anonymized(tokens, d)[j].text <==> KeyOf(tokens[i]) == KeyOf(tokens[j])
  {
    hide Anonymized, Rank, Room, SameShape, KeyCount, Sensitive;
    RankIsKey(tokens, d, i, j);
    RankIsKey(tokens, d, j, i);
    AliasesAreConsistent(tokens, d, i, j);
  }

  // --------------------------------------------- nothing but shape and order shows

  /** Two lists with the same types, fixed words and shapes, whose sensitive texts repeat in the same places. */
  predicate Alike(s: seq<Token>, t: seq<Token>, d: Dialect)
    requires HintsOpen(s, d) && HintsOpen(t, d)
  {
    && |s| == |t|
    && (forall i :: 0 <= i < |s| ==> AlikeAt(s, t, d, i))
    && (forall i, j :: 0 <= i < |s| && 0 <= j < |s| && Sensitive(s, d, i) && Sensitive(s, d, j)
          ==> (KeyOf(s[i]) == KeyOf(s[j]) <==> KeyOf(t[i]) == KeyOf(t[j])))
  }

  predicate AlikeAt(s: seq<Token>, t: seq<Token>, d: Dialect, i: nat)
    requires i < |s| == |t| && HintsOpen(s, d) && HintsOpen(t, d)
  {
    && s[i].kind == t[i].kind
    && BlankAll(s[i].comments) == BlankAll(t[i].comments)
    && Sensitive(s, d, i) == Sensitive(t, d, i)
    && if IsBlankableHint(s[i], d) then BlankHint(s[i].text, d) == BlankHint(t[i].text, d)
       else if Sensitive(s, d, i) then SameShape(s[i], t[i])
       else s[i].text == t[i].text
  }

  lemma AlikeFirsts(s: seq<Token>, t: seq<Token>, d: Dialect, i: nat)
    requires HintsOpen(s, d) && HintsOpen(t, d) && Alike(s, t, d)
    requires i < |s| && Sensitive(s, d, i)
    ensures Sensitive(t, d, i) && First(s, d, i) == First(t, d, i)
  {
    assert AlikeAt(s, t, d, i);
    var a, b := First(s, d, i), First(t, d, i);
    assert AlikeAt(s, t, d, a) && AlikeAt(s, t, d, b);
    hide First, Sensitive, AlikeAt;
    assert SameKey(t, d, i, a) && SameKey(s, d, i, b);
  }

  lemma {:induction false} AlikeCounts(s: seq<Token>, t: seq<Token>, d: Dialect, n: nat)
    requires HintsOpen(s, d) && HintsOpen(t, d) && Alike(s, t, d) && n <= |s|
    ensures KeyCount(s, d, n) == KeyCount(t, d, n)
  {
    if n == 0 {
    } else {
      AlikeCounts(s, t, d, n - 1);
      assert AlikeAt(s, t, d, n - 1);
      hide First, Alike;
      if Sensitive(s, d, n - 1) {
        AlikeFirsts(s, t, d, n - 1);
      }
    }
  }

  /** The output says nothing about the input but its fixed words, its shapes and which texts repeat. */
  lemma OutputShowsShapesOnly(s: seq<Token>, t: seq<Token>, d: Dialect, i: nat)
    requires HintsOpen(s, d) && HintsOpen(t, d) && Alike(s, t, d) && i < |s|
    ensures Anonymized(s, d)[i].text == Anonymized(t, d)[i].text
    ensures Anonymized(s, d)[i].comments == Anonymized(t, d)[i].comments
  {
    assert AlikeAt(s, t, d, i);
    hide BlankHint, BlankAll, Alias, SameShape, First, KeyCount;
    if Sensitive(s, d, i) {
      AlikeFirsts(s, t, d, i);
      AlikeCounts(s, t, d, First(s, d, i));
      SameShapeSameAlias(s[i], t[i], Rank(s, d, i));
    }
  }

  // ------------------------------------------------------------------ as it runs

  method BlankComments(comments: seq<string>) returns (blanked: seq<string>)
    ensures blanked == BlankAll(comments)
  {
    hide BlankText;
    blanked := [];
    for j := 0 to |comments|
      invariant blanked == BlankAll(comments)[..j]
    {
      var text := WriteBlank(comments[j]);
      blanked := blanked + [text];
    }
  }

  method WriteHint(text: string, d: Dialect) returns (t: string)
    requires d.hintStart != "" && |d.hintStart| <= |text|
    ensures t == BlankHint(text, d)
  {
    hide CommentScan.BlankComment, BlankText;
    var blank, stop := CommentScan.ScanComment(text, 0, d.hintStart, d.hintEnd, d.nested);
    var rest := WriteBlank(text[stop..]);
    t := blank + rest;
  }

  method WriteKeyAlias(key: Key, counter: nat) returns (alias: string)
    ensures alias == Alias(key, counter)
  {
    hide NumberAlias.NumberAliasFor, LetterAlias.AliasFor;
    if key.number {
      alias := NumberAlias.WriteNumberAlias(counter, key.text);
    } else {
      alias := LetterAlias.WriteAlias(counter, key.text);
    }
  }

  /** What the loop remembers after n tokens: every key so far, and the alias it got. */
  ghost predicate Remembers(seen: map<Key, string>, tokens: seq<Token>, d: Dialect, n: nat)
    requires n <= |tokens|
  {
    && (forall k :: 0 <= k < n && Sensitive(tokens, d, k) ==>
          KeyOf(tokens[k]) in seen && seen[KeyOf(tokens[k])] == Alias(KeyOf(tokens[k]), Rank(tokens, d, k)))
    && (forall key :: key in seen ==> Occurs(key, tokens, d, n))
  }

  ghost predicate Occurs(key: Key, tokens: seq<Token>, d: Dialect, n: nat)
    requires n <= |tokens|
  {
    exists k :: 0 <= k < n && Sensitive(tokens, d, k) && KeyOf(tokens[k]) == key
  }

  lemma OccursLater(key: Key, tokens: seq<Token>, d: Dialect, n: nat)
    requires n < |tokens|
    ensures Occurs(key, tokens, d, n) ==> Occurs(key, tokens, d, n + 1)
    ensures Sensitive(tokens, d, n) ==> Occurs(KeyOf(tokens[n]), tokens, d, n + 1)
  {
  }

  /** A key seen before has the alias its first token got; a key not seen starts here. */
  lemma SeenMeansEarlier(seen: map<Key, string>, tokens: seq<Token>, d: Dialect, i: nat)
    requires i < |tokens| && Sensitive(tokens, d, i) && Remembers(seen, tokens, d, i)
    ensures KeyOf(tokens[i]) in seen <==> !IsFirst(tokens, d, i)
    ensures KeyOf(tokens[i]) in seen ==> seen[KeyOf(tokens[i])] == Alias(KeyOf(tokens[i]), Rank(tokens, d, i))
    ensures KeyOf(tokens[i]) !in seen ==> Rank(tokens, d, i) == KeyCount(tokens, d, i)
  {
    hide Alias, KeyCount, Sensitive, FirstFrom;
    assert SameKey(tokens, d, i, First(tokens, d, i));
    if KeyOf(tokens[i]) in seen {
      var k :| 0 <= k < i && Sensitive(tokens, d, k) && KeyOf(tokens[k]) == KeyOf(tokens[i]);
      assert SameKey(tokens, d, i, k);
      SameKeySameFirst(tokens, d, i, k);
    }
  }

  lemma RemembersOneMore(seen: map<Key, string>, tokens: seq<Token>, d: Dialect, i: nat, alias: string)
    requires i < |tokens| && Sensitive(tokens, d, i) && Remembers(seen, tokens, d, i)
    requires alias == Alias(KeyOf(tokens[i]), Rank(tokens, d, i))
    ensures Remembers(seen[KeyOf(tokens[i]) := alias], tokens, d, i + 1)
  {
    hide Alias, KeyCount, Sensitive, First, Occurs, KeyOf;
    var key := KeyOf(tokens[i]);
    var grown := seen[key := alias];
    forall k | k in grown ensures Occurs(k, tokens, d, i + 1) {
      OccursLater(k, tokens, d, i);
    }
    forall k | 0 <= k < i && Sensitive(tokens, d, k)
      ensures KeyOf(tokens[k]) in grown && grown[KeyOf(tokens[k])] == Alias(KeyOf(tokens[k]), Rank(tokens, d, k))
    {
      SameKeySameFirst(tokens, d, i, k);
    }
  }

  method AnonymizeTokens(tokens: seq<Token>, d: Dialect) returns (out: array<Token>)
    requires HintsOpen(tokens, d)
    ensures fresh(out) && out[..] == Anonymized(tokens, d)
  {
    hide Sensitive, IsFirst, Alias, BlankAll, BlankHint, Rank, Remembers;
    out := new Token[|tokens|](i requires 0 <= i < |tokens| => tokens[i]);
    var seen: map<Key, string> := map[];
    var counter: nat := 0;
    StartsEmpty(tokens, d);
    for i := 0 to |tokens|
      invariant out.Length == |tokens| && fresh(out)
      invariant forall k :: 0 <= k < i ==> out[k] == NewToken(tokens, d, k)
      invariant forall k :: i <= k < |tokens| ==> out[k] == tokens[k]
      invariant counter == KeyCount(tokens, d, i)
      invariant Remembers(seen, tokens, d, i)
    {
      var blanked := BlankComments(out[i].comments);
      out[i] := out[i].(comments := blanked);
      if IsBlankableHint(out[i], d) {
        var text := WriteHint(out[i].text, d);
        NotSensitive(tokens, d, i, seen);
        out[i] := out[i].(text := text);
        continue;
      }
      if !Sensitive(tokens, d, i) {
        NotSensitive(tokens, d, i, seen);
        continue;
      }
      var key := KeyOf(out[i]);
      SeenMeansEarlier(seen, tokens, d, i);
      RemembersOneMore(seen, tokens, d, i, Alias(key, Rank(tokens, d, i)));
      assert key in seen ==> seen[key := seen[key]] == seen;
      if key !in seen {
        var newAlias := WriteKeyAlias(key, counter);
        seen := seen[key := newAlias];
        counter := counter + 1;
      }
      out[i] := out[i].(text := seen[key]);
    }
  }

  lemma StartsEmpty(tokens: seq<Token>, d: Dialect)
    ensures Remembers(map[], tokens, d, 0) && KeyCount(tokens, d, 0) == 0
  {
  }

  lemma NotSensitive(tokens: seq<Token>, d: Dialect, i: nat, seen: map<Key, string>)
    requires i < |tokens| && Remembers(seen, tokens, d, i)
    requires !Sensitive(tokens, d, i) || tokens[i].kind.HINT?
    ensures !Sensitive(tokens, d, i) && !IsFirst(tokens, d, i)
    ensures Remembers(seen, tokens, d, i + 1)
  {
    hide Alias, Rank, Occurs;
    forall k | k in seen ensures Occurs(k, tokens, d, i + 1) {
      OccursLater(k, tokens, d, i);
    }
  }
}
