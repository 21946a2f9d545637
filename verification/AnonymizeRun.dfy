/** The anonymizer from end to end, as it runs, and what its output can show (Anonymize in sqlglot/anonymize.go). */
module AnonymizeRun {
  import opened Arithmetic
  import opened Numerals
  import opened Runes
  import opened CommentScan
  import opened MarkerOrder
  import opened Anonymizer
  import opened AliasFit
  import opened Rendering

  // --------------------------------------------------------- what the output shows

  /** Token i of both lists stands in the same place, and what is not an alias in it is the same. */
  predicate SameFrameAt(sqlA: string, a: seq<Token>, sqlB: string, b: seq<Token>, t: Tables, i: nat)
    requires i < |a| == |b|
  {
    var x, y := SpanOf(sqlA, a[i]), SpanOf(sqlB, b[i]);
    && a[i].kind == b[i].kind && a[i].start == b[i].start && a[i].end == b[i].end
    && if IsRewritten(a[i].kind) then true
       else if !IsAnonymized(a[i].kind) then x == y
       else SameMargins(x, y, t.quotes, a[i].kind)
  }

  /** Two spans of one length with the same quotes around them. */
  predicate SameMargins(x: string, y: string, quotes: seq<Marker>, kind: TokenType) {
    var (start, end) := Margins(x, quotes, kind);
    && |x| == |y| && Margins(y, quotes, kind) == (start, end)
    && x[..start] == y[..start] && x[|x| - end..] == y[|y| - end..]
  }

  /** The text before token i, or after the last one. */
  function GapBefore(sql: string, tokens: seq<Token>, i: nat): string
    requires i <= |tokens|
  {
    var p := PrevEnd(tokens, i);
    if i == |tokens| then sql[Min(p, |sql|)..] else Gap(sql, p, tokens[i])
  }

  predicate SameFrame(sqlA: string, a: seq<Token>, sqlB: string, b: seq<Token>, t: Tables)
    requires NonEmptyOpeners(t.comments)
  {
    && |a| == |b|
    && (forall i :: 0 <= i < |a| ==> SameFrameAt(sqlA, a, sqlB, b, t, i))
    && (forall i :: 0 <= i <= |a| ==>
          Redact(GapBefore(sqlA, a, i), t.comments, t.nested) == Redact(GapBefore(sqlB, b, i), t.comments, t.nested))
  }

  lemma SamePiece(sqlA: string, a: seq<Token>, sqlB: string, b: seq<Token>, t: Tables, i: nat)
    requires i < |a| == |b| && SameFrameAt(sqlA, a, sqlB, b, t, i)
    requires a[i].text == b[i].text
    ensures Piece(SpanOf(sqlA, a[i]), a[i], t.quotes) == Piece(SpanOf(sqlB, b[i]), b[i], t.quotes)
  {
    hide SpanOf, Margins, Fitted;
  }

  lemma {:induction false} SameRendering(sqlA: string, a: seq<Token>, sqlB: string, b: seq<Token>, t: Tables, i: nat)
    requires NonEmptyOpeners(t.comments) && SameFrame(sqlA, a, sqlB, b, t) && i <= |a| == |b|
    requires forall k :: 0 <= k < |a| ==> a[k].text == b[k].text
    ensures RenderFrom(sqlA, a, i, PrevEnd(a, i), t) == RenderFrom(sqlB, b, i, PrevEnd(b, i), t)
    decreases |a| - i
  {
    hide Piece, Gap, SpanOf, Redact, NonEmptyOpeners, SameFrame, RenderFrom, PrevEnd;
    if i == |a| {
      SameTail(sqlA, a, sqlB, b, t);
    } else {
      SameStep(sqlA, a, sqlB, b, t, i);
      SamePiece(sqlA, a, sqlB, b, t, i);
      SameRendering(sqlA, a, sqlB, b, t, i + 1);
      RenderUnfolds(sqlA, a, i, PrevEnd(a, i), t);
      RenderUnfolds(sqlB, b, i, PrevEnd(b, i), t);
    }
  }

  lemma SameStep(sqlA: string, a: seq<Token>, sqlB: string, b: seq<Token>, t: Tables, i: nat)
    requires NonEmptyOpeners(t.comments) && SameFrame(sqlA, a, sqlB, b, t) && i < |a|
    ensures SameFrameAt(sqlA, a, sqlB, b, t, i)
    ensures PrevEnd(a, i + 1) == a[i].end + 1 == b[i].end + 1 == PrevEnd(b, i + 1)
    ensures Redact(Gap(sqlA, PrevEnd(a, i), a[i]), t.comments, t.nested)
         == Redact(Gap(sqlB, PrevEnd(b, i), b[i]), t.comments, t.nested)
  {
    hide Gap, Redact, SpanOf, NonEmptyOpeners, SameMargins;
    assert SameFrameAt(sqlA, a, sqlB, b, t, i);
    assert Redact(GapBefore(sqlA, a, i), t.comments, t.nested) == Redact(GapBefore(sqlB, b, i), t.comments, t.nested);
  }

  lemma SameTail(sqlA: string, a: seq<Token>, sqlB: string, b: seq<Token>, t: Tables)
    requires NonEmptyOpeners(t.comments) && SameFrame(sqlA, a, sqlB, b, t)
    ensures RenderFrom(sqlA, a, |a|, PrevEnd(a, |a|), t) == RenderFrom(sqlB, b, |b|, PrevEnd(b, |b|), t)
  {
    hide Gap, Redact, SpanOf, NonEmptyOpeners, SameMargins, SameFrameAt, RenderFrom;
    assert Redact(GapBefore(sqlA, a, |a|), t.comments, t.nested) == Redact(GapBefore(sqlB, b, |b|), t.comments, t.nested);
    LastGap(sqlA, a, PrevEnd(a, |a|), t);
    LastGap(sqlB, b, PrevEnd(b, |b|), t);
  }

  lemma FrameOfAnonymized(sqlA: string, a: seq<Token>, sqlB: string, b: seq<Token>, d: Dialect, t: Tables)
    requires NonEmptyOpeners(t.comments) && HintsOpen(a, d) && HintsOpen(b, d) && SameFrame(sqlA, a, sqlB, b, t)
    ensures SameFrame(sqlA, Anonymized(a, d), sqlB, Anonymized(b, d), t)
  {
    var x, y := Anonymized(a, d), Anonymized(b, d);
    hide Anonymized, Redact, HintsOpen, NonEmptyOpeners, SameFrameAt, GapBefore;
    forall i | 0 <= i < |x| ensures SameFrameAt(sqlA, x, sqlB, y, t, i) {
      FrameAtOfAnonymized(sqlA, a, sqlB, b, d, t, i);
    }
    forall i | 0 <= i <= |x|
      ensures Redact(GapBefore(sqlA, x, i), t.comments, t.nested) == Redact(GapBefore(sqlB, y, i), t.comments, t.nested)
    {
      SameGaps(sqlA, a, x, d, i);
      SameGaps(sqlB, b, y, d, i);
    }
  }

  lemma SpanStays(sql: string, tok: Token, other: Token)
    requires tok.start == other.start && tok.end == other.end
    ensures SpanOf(sql, tok) == SpanOf(sql, other)
  {
  }

  lemma FrameAtOfAnonymized(sqlA: string, a: seq<Token>, sqlB: string, b: seq<Token>, d: Dialect, t: Tables, i: nat)
    requires HintsOpen(a, d) && HintsOpen(b, d) && i < |a| == |b| && SameFrameAt(sqlA, a, sqlB, b, t, i)
    ensures SameFrameAt(sqlA, Anonymized(a, d), sqlB, Anonymized(b, d), t, i)
  {
    var x, y := Anonymized(a, d), Anonymized(b, d);
    hide Anonymized, HintsOpen, SameMargins, SpanOf, IsAnonymized;
    AnonymizedKeepsSpans(a, d, i);
    AnonymizedKeepsSpans(b, d, i);
    SpanStays(sqlA, a[i], x[i]);
    SpanStays(sqlB, b[i], y[i]);
  }

  lemma SameGaps(sql: string, tokens: seq<Token>, out: seq<Token>, d: Dialect, i: nat)
    requires HintsOpen(tokens, d) && out == Anonymized(tokens, d) && i <= |tokens|
    ensures GapBefore(sql, out, i) == GapBefore(sql, tokens, i)
  {
    hide Anonymized, HintsOpen;
    if i > 0 {
      AnonymizedKeepsSpans(tokens, d, i - 1);
    }
    if i < |tokens| {
      AnonymizedKeepsSpans(tokens, d, i);
    }
  }

  /** Two statements that differ only in the texts of their literals and names, shape for shape and repeat for repeat,
      are written as the same text: the output shows nothing else of them. */
  lemma SameShapesSameOutput(sqlA: string, a: seq<Token>, sqlB: string, b: seq<Token>, d: Dialect, t: Tables)
    requires NonEmptyOpeners(t.comments) && HintsOpen(a, d) && HintsOpen(b, d)
    requires Alike(a, b, d) && SameFrame(sqlA, a, sqlB, b, t)
    ensures Render(sqlA, Anonymized(a, d), t) == Render(sqlB, Anonymized(b, d), t)
  {
    FrameOfAnonymized(sqlA, a, sqlB, b, d, t);
    var x, y := Anonymized(a, d), Anonymized(b, d);
    hide Anonymized, SameFrame, RenderFrom, NonEmptyOpeners, HintsOpen;
    forall k | 0 <= k < |x| ensures x[k].text == y[k].text {
      assert |a| == |b|;
      OutputShowsShapesOnly(a, b, d, k);
    }
    hide Alike;
    SameRendering(sqlA, x, sqlB, y, t, 0);
  }

  // ------------------------------------------------------------------ as it runs

  /** anonymizeTokenize's tail. */
  method AddTail(sql: string, tokens: seq<Token>) returns (out: seq<Token>)
    ensures out == WithTail(sql, tokens)
  {
    hide IsSpace;
    var start: nat := 0;
    if |tokens| > 0 {
      start := tokens[|tokens| - 1].end + 1;
    }
    while start < |sql| && IsSpace(sql[start])
      invariant SkipSpaces(sql, EndOf(tokens)) == SkipSpaces(sql, start)
    {
      start := start + 1;
    }
    if start >= |sql| {
      return tokens;
    }
    var visible := start + 2;
    if visible > |sql| {
      visible := |sql|;
    }
    var text := sql[start..visible] + Repeat('.', |sql| - visible);
    return tokens + [Token(UNKNOWN, text, start, |sql| - 1, [])];
  }

  method WritePiece(span: string, tok: Token, quotes: seq<Marker>) returns (text: string)
    ensures text == Piece(span, tok, quotes)
  {
    hide FitAlias;
    if IsRewritten(tok.kind) {
      text := tok.text;
    } else if IsAnonymized(tok.kind) {
      text := WriteFitted(span, tok.text, quotes, tok.kind);
    } else {
      text := span;
    }
  }

  /** renderAnonymized. */
  method RenderAnonymized(sql: string, tokens: seq<Token>, t: Tables) returns (out: string)
    requires NonEmptyOpeners(t.comments)
    ensures out == Render(sql, tokens, t)
  {
    hide Redact, Piece, NonEmptyOpeners, RenderFrom;
    out := "";
    var prev: nat := 0;
    for i := 0 to |tokens|
      invariant out + RenderFrom(sql, tokens, i, prev, t) == Render(sql, tokens, t)
    {
      var tok := tokens[i];
      RenderUnfolds(sql, tokens, i, prev, t);
      ghost var rest := RenderFrom(sql, tokens, i + 1, tok.end + 1, t);
      var gapEnd := tok.start;
      if gapEnd > |sql| {
        gapEnd := |sql|;
      }
      if prev > gapEnd {
        prev := gapEnd;
      }
      var gap := RedactGap(sql[prev..gapEnd], t.comments, t.nested);
      prev := tok.end + 1;
      var spanEnd := prev;
      if spanEnd > |sql| {
        spanEnd := |sql|;
      }
      var spanStart := tok.start;
      if spanStart > spanEnd {
        spanStart := spanEnd;
      }
      var piece := WritePiece(sql[spanStart..spanEnd], tok, t.quotes);
      AppendTwo(out, gap, piece, rest);
      out := out + gap + piece;
    }
    LastGap(sql, tokens, prev, t);
    if prev > |sql| {
      prev := |sql|;
    }
    var tail := RedactGap(sql[prev..], t.comments, t.nested);
    out := out + tail;
  }

  lemma AppendTwo(a: string, b: string, c: string, d: string)
    ensures a + (b + c + d) == a + b + c + d
  {
  }

  lemma LastGap(sql: string, tokens: seq<Token>, prev: nat, t: Tables)
    requires NonEmptyOpeners(t.comments)
    ensures RenderFrom(sql, tokens, |tokens|, prev, t) == Redact(sql[Min(prev, |sql|)..], t.comments, t.nested)
  {
    hide Redact;
  }

  /** Anonymize, on what the tokenizer read: whatever order the maps are walked in, the text is the one every sorted
      listing of the tables gives. */
  method AnonymizeStatement(sql: string, tokens: seq<Token>, failed: bool, d: Dialect, comments: map<string, string>,
                            quotes: map<string, string>, formats: map<string, string>, identifiers: map<string, string>)
    returns (out: string)
    requires HintsOpen(tokens, d) && "" !in comments
    ensures forall t: Tables
              | Listed(t, comments, quotes + formats + identifiers, d.nested) && NonEmptyOpeners(t.comments) ::
              out == Anonymize(sql, tokens, failed, d, t)
  {
    hide Anonymized, Render, Lists, LongestFirst, HintsOpen;
    var all := tokens;
    if failed {
      all := AddTail(sql, tokens);
    }
    TailOpensNoHint(sql, tokens, failed, d);
    var anonymized := AnonymizeTokens(all, d);
    var listedComments := SortedComments(comments);
    var listedQuotes := SortedQuotes(quotes, formats, identifiers);
    var t := Tables(listedComments, listedQuotes, d.nested);
    AnonymizeIgnoresOrder(sql, tokens, failed, d, t, t, comments, quotes + formats + identifiers, d.nested);
    out := RenderAnonymized(sql, anonymized[..], t);
    forall u: Tables | Listed(u, comments, quotes + formats + identifiers, d.nested) && NonEmptyOpeners(u.comments)
      ensures out == Anonymize(sql, tokens, failed, d, u)
    {
      AnonymizeIgnoresOrder(sql, tokens, failed, d, t, u, comments, quotes + formats + identifiers, d.nested);
    }
  }
}
