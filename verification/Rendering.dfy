/**
 Building the anonymized text (renderAnonymized, and the tail that
 anonymizeTokenize adds, in sqlglot/anonymize.go).
 */
module Rendering {
  import opened Arithmetic
  import opened Numerals
  import opened Runes
  import opened CommentScan
  import opened MarkerOrder
  import opened Anonymizer
  import opened AliasFit

  /** rewrittenTypes. */
  predicate IsRewritten(kind: TokenType) {
    kind.HINT? || kind.UNKNOWN?
  }

  /** What rendering reads of a dialect. */
  datatype Tables = Tables(comments: seq<Marker>, quotes: seq<Marker>, nested: bool)

  // ------------------------------------------------------------- the unread tail

  function SkipSpaces(s: string, i: nat): (j: nat)
    ensures i <= j && (i <= |s| ==> j <= |s|) && (j < |s| ==> !IsSpace(s[j]))
    decreases |s| - i
  {
    if i < |s| && IsSpace(s[i]) then SkipSpaces(s, i + 1) else i
  }

  function EndOf(tokens: seq<Token>): nat {
    if tokens == [] then 0 else tokens[|tokens| - 1].end + 1
  }

  /** The token standing for what the tokenizer could not read: two runes of it, and dots. */
  function TailToken(sql: string, start: nat): (tok: Token)
    requires start < |sql|
    ensures |tok.text| == |sql| - start
  {
    var visible := Min(start + 2, |sql|);
    Token(UNKNOWN, sql[start..visible] + Repeat('.', |sql| - visible), start, |sql| - 1, [])
  }

  /** anonymizeTokenize after a failure, on the tokens there were. */
  function WithTail(sql: string, tokens: seq<Token>): seq<Token> {
    var start := SkipSpaces(sql, EndOf(tokens));
    if start >= |sql| then tokens else tokens + [TailToken(sql, start)]
  }

  // ------------------------------------------------------------------- rendering

  function Gap(sql: string, prev: nat, tok: Token): string {
    var gapEnd := Min(tok.start, |sql|);
    sql[Min(prev, gapEnd)..gapEnd]
  }

  function SpanOf(sql: string, tok: Token): string {
    var spanEnd := Min(tok.end + 1, |sql|);
    sql[Min(tok.start, spanEnd)..spanEnd]
  }

  /** What a token is written as. */
  function Piece(span: string, tok: Token, quotes: seq<Marker>): string {
    if IsRewritten(tok.kind) then tok.text
    else if IsAnonymized(tok.kind) then FitAlias(span, tok.text, quotes, tok.kind)
    else span
  }

  function RenderFrom(sql: string, tokens: seq<Token>, i: nat, prev: nat, t: Tables): string
    requires i <= |tokens| && NonEmptyOpeners(t.comments)
    decreases |tokens| - i
  {
    if i == |tokens| then Redact(sql[Min(prev, |sql|)..], t.comments, t.nested)
    else
      Redact(Gap(sql, prev, tokens[i]), t.comments, t.nested)
      + Piece(SpanOf(sql, tokens[i]), tokens[i], t.quotes)
      + RenderFrom(sql, tokens, i + 1, tokens[i].end + 1, t)
  }

  /** renderAnonymized. */
  function Render(sql: string, tokens: seq<Token>, t: Tables): string
    requires NonEmptyOpeners(t.comments)
  {
    RenderFrom(sql, tokens, 0, 0, t)
  }

  // ---------------------------------------------------------------------- length

  predicate InBounds(sql: string, tokens: seq<Token>) {
    forall i :: 0 <= i < |tokens| ==> tokens[i].start <= tokens[i].end + 1 <= |sql|
  }

  /** Tokens written as they are have the length of their spans. */
  predicate RewrittenFit(sql: string, tokens: seq<Token>) {
    forall i :: 0 <= i < |tokens| && IsRewritten(tokens[i].kind) ==> |tokens[i].text| == |SpanOf(sql, tokens[i])|
  }

  /** The runes the first n tokens write twice because their own delimiters share them. */
  function Spilt(sql: string, tokens: seq<Token>, quotes: seq<Marker>, n: nat): nat
    requires n <= |tokens|
  {
    if n == 0 then 0
    else Spilt(sql, tokens, quotes, n - 1) + Spill(SpanOf(sql, tokens[n - 1]), quotes, tokens[n - 1].kind)
  }

  predicate AllApart(sql: string, tokens: seq<Token>, quotes: seq<Marker>) {
    forall i :: 0 <= i < |tokens| ==> MarginsApart(SpanOf(sql, tokens[i]), quotes, tokens[i].kind)
  }

  /** The runes written again because a token starts before the one in front of it has ended. */
  function Overlap(tokens: seq<Token>, i: nat, prev: nat): nat
    requires i <= |tokens|
    decreases |tokens| - i
  {
    if i == |tokens| then 0
    else (if prev > tokens[i].start then prev - tokens[i].start else 0) + Overlap(tokens, i + 1, tokens[i].end + 1)
  }

  predicate Disjoint(tokens: seq<Token>) {
    forall i :: 0 < i < |tokens| ==> tokens[i - 1].end < tokens[i].start
  }

  lemma RedactKeepsLength(s: string, comments: seq<Marker>, nested: bool)
    requires NonEmptyOpeners(comments)
    ensures |Redact(s, comments, nested)| == |s|
  {
    RedactRedacts(s, comments, nested);
  }

  lemma PieceLength(sql: string, tokens: seq<Token>, i: nat, quotes: seq<Marker>)
    requires i < |tokens| && InBounds(sql, tokens) && RewrittenFit(sql, tokens)
    ensures |Piece(SpanOf(sql, tokens[i]), tokens[i], quotes)|
         == tokens[i].end + 1 - tokens[i].start + Spill(SpanOf(sql, tokens[i]), quotes, tokens[i].kind)
  {
    hide FitAlias, Enclosing, HeredocMargins;
    FitLength(SpanOf(sql, tokens[i]), tokens[i].text, quotes, tokens[i].kind);
  }

  lemma {:induction false} RenderFromLength(sql: string, tokens: seq<Token>, i: nat, prev: nat, t: Tables)
    requires i <= |tokens| && prev <= |sql| && NonEmptyOpeners(t.comments)
    requires InBounds(sql, tokens) && RewrittenFit(sql, tokens)
    ensures |RenderFrom(sql, tokens, i, prev, t)| + Spilt(sql, tokens, t.quotes, i)
         == |sql| - prev + Overlap(tokens, i, prev) + Spilt(sql, tokens, t.quotes, |tokens|)
    decreases |tokens| - i
  {
    hide Redact, Piece, SpanOf, RewrittenFit, NonEmptyOpeners, Spill;
    if i == |tokens| {
      RedactKeepsLength(sql[prev..], t.comments, t.nested);
    } else {
      PieceLength(sql, tokens, i, t.quotes);
      RedactKeepsLength(Gap(sql, prev, tokens[i]), t.comments, t.nested);
      RenderFromLength(sql, tokens, i + 1, tokens[i].end + 1, t);
    }
  }

  lemma {:induction false} NothingSpilt(sql: string, tokens: seq<Token>, quotes: seq<Marker>, n: nat)
    requires n <= |tokens|
    ensures Spilt(sql, tokens, quotes, n) == 0
       <==> forall i :: 0 <= i < n ==> MarginsApart(SpanOf(sql, tokens[i]), quotes, tokens[i].kind)
  {
    hide Margins, SpanOf;
    if n == 0 {
    } else {
      NothingSpilt(sql, tokens, quotes, n - 1);
    }
  }

  lemma {:induction false} NoOverlap(tokens: seq<Token>, i: nat, prev: nat)
    requires i <= |tokens|
    ensures Overlap(tokens, i, prev) == 0 <==>
              && (i < |tokens| ==> prev <= tokens[i].start)
              && forall k :: i < k < |tokens| ==> tokens[k - 1].end < tokens[k].start
    decreases |tokens| - i
  {
    if i == |tokens| {
    } else {
      NoOverlap(tokens, i + 1, tokens[i].end + 1);
    }
  }

  lemma NothingShared(sql: string, tokens: seq<Token>, quotes: seq<Marker>)
    ensures Overlap(tokens, 0, 0) == 0 <==> Disjoint(tokens)
    ensures Spilt(sql, tokens, quotes, |tokens|) == 0 <==> AllApart(sql, tokens, quotes)
  {
    hide Overlap, Spilt, MarginsApart, SpanOf;
    NoOverlap(tokens, 0, 0);
    NothingSpilt(sql, tokens, quotes, |tokens|);
  }

  /** The output is longer than the input by the runes tokens share with the one before, and those delimiters share:
      as long exactly when tokens are disjoint and no token's delimiters overlap. */
  lemma RenderLength(sql: string, tokens: seq<Token>, t: Tables)
    requires NonEmptyOpeners(t.comments) && InBounds(sql, tokens) && RewrittenFit(sql, tokens)
    ensures |Render(sql, tokens, t)| == |sql| + Overlap(tokens, 0, 0) + Spilt(sql, tokens, t.quotes, |tokens|)
    ensures |Render(sql, tokens, t)| == |sql| <==> Disjoint(tokens) && AllApart(sql, tokens, t.quotes)
  {
    hide RewrittenFit, NonEmptyOpeners, RenderFrom, Disjoint, AllApart;
    RenderFromLength(sql, tokens, 0, 0, t);
    NothingShared(sql, tokens, t.quotes);
  }

  /** Athena puts a marker token over the first rune of a Hive statement, and that rune is written twice. */
  lemma MarkerRepeatsFirstRune()
    ensures var tokens := [Token(OTHER(446), "", 0, 0, []), Token(OTHER(1), "DROP", 0, 3, [])];
            Render("DROP", tokens, Tables([], [], false)) == "DDROP"
  {
    var tokens := [Token(OTHER(446), "", 0, 0, []), Token(OTHER(1), "DROP", 0, 3, [])];
    var t := Tables([], [], false);
    assert Redact("", [], false) == "";
    assert SpanOf("DROP", tokens[0]) == "D" && SpanOf("DROP", tokens[1]) == "DROP";
    assert RenderFrom("DROP", tokens, 2, 4, t) == "";
    assert RenderFrom("DROP", tokens, 1, 1, t) == "DROP";
  }

  // ---------------------------------------------------------------------- layout

  /** Where token i's predecessor ends. */
  function PrevEnd(tokens: seq<Token>, i: nat): nat
    requires i <= |tokens|
  {
    if i == 0 then 0 else tokens[i - 1].end + 1
  }

  /** From token i on, past what was written twice before it, the output is what rendering the rest gives. */
  ghost predicate Resumes(out: string, sql: string, tokens: seq<Token>, t: Tables, i: nat)
    requires i <= |tokens| && NonEmptyOpeners(t.comments)
  {
    var p, s := PrevEnd(tokens, i), Spilt(sql, tokens, t.quotes, i);
    && p <= |sql| && |out| == |sql| + Spilt(sql, tokens, t.quotes, |tokens|) && p + s <= |out|
    && out[p + s..] == RenderFrom(sql, tokens, i, p, t)
  }

  /** Token i is written where it stood, moved on by what was written twice before it, and the gap before it redacted.
      */
  ghost predicate Stands(out: string, sql: string, tokens: seq<Token>, t: Tables, i: nat)
    requires i < |tokens| && NonEmptyOpeners(t.comments)
  {
    var p, a, b := PrevEnd(tokens, i), tokens[i].start, tokens[i].end + 1;
    var s, next := Spilt(sql, tokens, t.quotes, i), Spilt(sql, tokens, t.quotes, i + 1);
    && p <= a <= b <= |sql| && s <= next && b + next <= |out|
    && out[p + s..a + s] == Redact(sql[p..a], t.comments, t.nested)
    && out[a + s..b + next] == Piece(sql[a..b], tokens[i], t.quotes)
  }

  lemma ThreePieces(out: string, p: nat, a: nat, b: nat, x: string, y: string, z: string)
    requires p <= |out| && p <= a <= b && |x| == a - p && |y| == b - a && out[p..] == x + y + z
    ensures b <= |out| && out[p..a] == x && out[a..b] == y && out[b..] == z
  {
    assert |out[p..]| == |x| + |y| + |z|;
    assert out[p..a] == out[p..][..a - p];
    assert out[a..b] == out[p..][a - p..b - p];
    assert out[b..] == out[p..][b - p..];
  }

  lemma InPlace(sql: string, p: nat, tok: Token)
    requires p <= tok.start <= tok.end + 1 <= |sql|
    ensures Gap(sql, p, tok) == sql[p..tok.start] && SpanOf(sql, tok) == sql[tok.start..tok.end + 1]
  {
  }

  lemma RenderUnfolds(sql: string, tokens: seq<Token>, i: nat, prev: nat, t: Tables)
    requires i < |tokens| && NonEmptyOpeners(t.comments)
    ensures RenderFrom(sql, tokens, i, prev, t)
         == Redact(Gap(sql, prev, tokens[i]), t.comments, t.nested)
            + Piece(SpanOf(sql, tokens[i]), tokens[i], t.quotes)
            + RenderFrom(sql, tokens, i + 1, tokens[i].end + 1, t)
  {
    hide Redact, Piece, Gap, SpanOf, NonEmptyOpeners;
  }

  lemma NextStands(out: string, sql: string, tokens: seq<Token>, t: Tables, i: nat)
    requires NonEmptyOpeners(t.comments) && InBounds(sql, tokens) && RewrittenFit(sql, tokens) && Disjoint(tokens)
    requires i < |tokens| && Resumes(out, sql, tokens, t, i)
    ensures Stands(out, sql, tokens, t, i) && Resumes(out, sql, tokens, t, i + 1)
  {
    hide Redact, Piece, RewrittenFit, NonEmptyOpeners, Disjoint, Gap, SpanOf, RenderFrom, InBounds, PrevEnd, Spill;
    Placed(sql, tokens, i);
    var p, a, b := PrevEnd(tokens, i), tokens[i].start, tokens[i].end + 1;
    var s, next := Spilt(sql, tokens, t.quotes, i), Spilt(sql, tokens, t.quotes, i + 1);
    PieceLength(sql, tokens, i, t.quotes);
    InPlace(sql, p, tokens[i]);
    RedactKeepsLength(sql[p..a], t.comments, t.nested);
    RenderUnfolds(sql, tokens, i, p, t);
    ThreePieces(out, p + s, a + s, b + next, Redact(sql[p..a], t.comments, t.nested), Piece(sql[a..b], tokens[i], t.quotes),
                RenderFrom(sql, tokens, i + 1, b, t));
  }

  lemma Placed(sql: string, tokens: seq<Token>, i: nat)
    requires InBounds(sql, tokens) && Disjoint(tokens) && i < |tokens|
    ensures PrevEnd(tokens, i) <= tokens[i].start <= tokens[i].end + 1 == PrevEnd(tokens, i + 1) <= |sql|
  {
  }

  lemma {:induction false} RestResumes(out: string, sql: string, tokens: seq<Token>, t: Tables, i: nat)
    requires NonEmptyOpeners(t.comments) && InBounds(sql, tokens) && RewrittenFit(sql, tokens) && Disjoint(tokens)
    requires i <= |tokens| && Resumes(out, sql, tokens, t, 0)
    ensures Resumes(out, sql, tokens, t, i)
  {
    hide Resumes, Stands;
    if i == 0 {
    } else {
      RestResumes(out, sql, tokens, t, i - 1);
      NextStands(out, sql, tokens, t, i - 1);
    }
  }

  /** Rendering disjoint tokens keeps the layout: every token stands where it stood, and what is between and after
      them is redacted there, each moved on by the runes that delimiters before it share. Without any such, nothing moves.
      */
  lemma LayoutIsKept(sql: string, tokens: seq<Token>, t: Tables)
    requires NonEmptyOpeners(t.comments) && InBounds(sql, tokens) && RewrittenFit(sql, tokens) && Disjoint(tokens)
    ensures var out, s := Render(sql, tokens, t), Spilt(sql, tokens, t.quotes, |tokens|);
            && |out| == |sql| + s
            && (forall i :: 0 <= i < |tokens| ==> Stands(out, sql, tokens, t, i))
            && EndOf(tokens) <= |sql| && out[EndOf(tokens) + s..] == Redact(sql[EndOf(tokens)..], t.comments, t.nested)
    ensures AllApart(sql, tokens, t.quotes) ==>
              forall i :: 0 <= i <= |tokens| ==> Spilt(sql, tokens, t.quotes, i) == 0
  {
    hide *;
    var out := Render(sql, tokens, t);
    LayoutStarts(sql, tokens, t);
    forall i | 0 <= i < |tokens| ensures Stands(out, sql, tokens, t, i) {
      RestResumes(out, sql, tokens, t, i);
      NextStands(out, sql, tokens, t, i);
    }
    RestResumes(out, sql, tokens, t, |tokens|);
    LayoutEnds(out, sql, tokens, t);
    forall i | 0 <= i <= |tokens| ensures AllApart(sql, tokens, t.quotes) ==> Spilt(sql, tokens, t.quotes, i) == 0 {
      NothingMoves(sql, tokens, t.quotes, i);
    }
  }

  lemma LayoutStarts(sql: string, tokens: seq<Token>, t: Tables)
    requires NonEmptyOpeners(t.comments) && InBounds(sql, tokens) && RewrittenFit(sql, tokens) && Disjoint(tokens)
    ensures Resumes(Render(sql, tokens, t), sql, tokens, t, 0)
  {
    hide RewrittenFit, NonEmptyOpeners, InBounds, Disjoint, RenderFrom;
    RenderLength(sql, tokens, t);
    DisjointNoOverlap(tokens);
    assert Render(sql, tokens, t)[0..] == Render(sql, tokens, t);
  }

  lemma DisjointNoOverlap(tokens: seq<Token>)
    requires Disjoint(tokens)
    ensures Overlap(tokens, 0, 0) == 0
  {
    NoOverlap(tokens, 0, 0);
  }

  lemma LayoutEnds(out: string, sql: string, tokens: seq<Token>, t: Tables)
    requires NonEmptyOpeners(t.comments) && Resumes(out, sql, tokens, t, |tokens|)
    ensures var s := Spilt(sql, tokens, t.quotes, |tokens|);
            && |out| == |sql| + s && EndOf(tokens) <= |sql|
            && out[EndOf(tokens) + s..] == Redact(sql[EndOf(tokens)..], t.comments, t.nested)
  {
    hide Redact, Spilt, NonEmptyOpeners;
  }

  lemma NothingMoves(sql: string, tokens: seq<Token>, quotes: seq<Marker>, i: nat)
    requires i <= |tokens|
    ensures AllApart(sql, tokens, quotes) ==> Spilt(sql, tokens, quotes, i) == 0
  {
    hide MarginsApart;
    NothingSpilt(sql, tokens, quotes, i);
  }

  // --------------------------------------------------------- the whole anonymizer

  /** The tokens there were, with the tail a failed tokenizer leaves. */
  function Read(sql: string, tokens: seq<Token>, failed: bool): seq<Token> {
    if failed then WithTail(sql, tokens) else tokens
  }

  lemma TailOpensNoHint(sql: string, tokens: seq<Token>, failed: bool, d: Dialect)
    requires HintsOpen(tokens, d)
    ensures HintsOpen(Read(sql, tokens, failed), d)
  {
  }

  /** Anonymize, on what the tokenizer read. */
  function Anonymize(sql: string, tokens: seq<Token>, failed: bool, d: Dialect, t: Tables): string
    requires HintsOpen(tokens, d) && NonEmptyOpeners(t.comments)
  {
    TailOpensNoHint(sql, tokens, failed, d);
    Render(sql, Anonymized(Read(sql, tokens, failed), d), t)
  }

  lemma AnonymizedKeepsSpans(tokens: seq<Token>, d: Dialect, i: nat)
    requires HintsOpen(tokens, d) && i < |tokens|
    ensures var tok, changed := tokens[i], Anonymized(tokens, d)[i];
            && changed.kind == tok.kind && changed.start == tok.start && changed.end == tok.end
            && (IsRewritten(tok.kind) ==> |changed.text| == |tok.text|)
  {
    hide BlankHint, Alias, BlankAll;
  }

  lemma {:induction false} OverlapOfSpans(a: seq<Token>, b: seq<Token>, i: nat, prev: nat)
    requires |a| == |b| && i <= |a| && forall k :: 0 <= k < |a| ==> a[k].start == b[k].start && a[k].end == b[k].end
    ensures Overlap(a, i, prev) == Overlap(b, i, prev)
    decreases |a| - i
  {
    if i == |a| {
    } else {
      OverlapOfSpans(a, b, i + 1, a[i].end + 1);
    }
  }

  lemma {:induction false} OverlapOfTail(tokens: seq<Token>, tail: Token, i: nat, prev: nat)
    requires i <= |tokens| && EndOf(tokens) <= tail.start && (tokens == [] || i == |tokens| ==> prev <= tail.start)
    ensures Overlap(tokens + [tail], i, prev) == Overlap(tokens, i, prev)
    decreases |tokens| - i
  {
    if i == |tokens| {
    } else {
      OverlapOfTail(tokens, tail, i + 1, tokens[i].end + 1);
    }
  }

  /** The tail starts after the last token, ends with the statement, and is written as long as what it stands for. */
  lemma TailFits(sql: string, tokens: seq<Token>, failed: bool, quotes: seq<Marker>)
    requires InBounds(sql, tokens) && RewrittenFit(sql, tokens)
    ensures var all := Read(sql, tokens, failed);
            && InBounds(sql, all) && RewrittenFit(sql, all) && Overlap(all, 0, 0) == Overlap(tokens, 0, 0)
            && Spilt(sql, all, quotes, |all|) == Spilt(sql, tokens, quotes, |tokens|)
            && (Disjoint(tokens) ==> Disjoint(all))
  {
    var start := SkipSpaces(sql, EndOf(tokens));
    hide Overlap, Margins, SkipSpaces;
    if failed && start < |sql| {
      var tail := TailToken(sql, start);
      var all := tokens + [tail];
      assert SpanOf(sql, tail) == sql[start..];
      forall i | 0 <= i < |all| && IsRewritten(all[i].kind) ensures |all[i].text| == |SpanOf(sql, all[i])| {
        assert i < |tokens| ==> all[i] == tokens[i];
      }
      OverlapOfTail(tokens, tail, 0, 0);
      SpiltOfTail(sql, tokens, tail, quotes, |tokens|);
      UnknownHasNoMargins(SpanOf(sql, tail), quotes);
    }
  }

  lemma {:induction false} SpiltOfTail(sql: string, tokens: seq<Token>, tail: Token, quotes: seq<Marker>, n: nat)
    requires n <= |tokens|
    ensures Spilt(sql, tokens + [tail], quotes, n) == Spilt(sql, tokens, quotes, n)
  {
    hide Spill, SpanOf;
    if n == 0 {
    } else {
      SpiltOfTail(sql, tokens, tail, quotes, n - 1);
    }
  }

  lemma UnknownHasNoMargins(span: string, quotes: seq<Marker>)
    ensures Margins(span, quotes, UNKNOWN) == (0, 0)
  {
  }

  /** For any statement, whether it could be read or not, the anonymized text is longer than the statement by the
      runes tokens share and those a token's delimiters share: as long exactly when the tokens are disjoint and no
      delimiters overlap. */
  lemma AnonymizeKeepsLength(sql: string, tokens: seq<Token>, failed: bool, d: Dialect, t: Tables)
    requires HintsOpen(tokens, d) && NonEmptyOpeners(t.comments)
    requires InBounds(sql, tokens) && RewrittenFit(sql, tokens)
    ensures |Anonymize(sql, tokens, failed, d, t)|
         == |sql| + Overlap(tokens, 0, 0) + Spilt(sql, tokens, t.quotes, |tokens|)
    ensures |Anonymize(sql, tokens, failed, d, t)| == |sql| <==> Disjoint(tokens) && AllApart(sql, tokens, t.quotes)
  {
    hide RewrittenFit, Overlap, Anonymized, Render, NonEmptyOpeners, HintsOpen, Read, InBounds, Disjoint, AllApart;
    hide Spilt;
    TailOpensNoHint(sql, tokens, failed, d);
    TailFits(sql, tokens, failed, t.quotes);
    var all := Read(sql, tokens, failed);
    AnonymizedFits(sql, all, d, t.quotes);
    RenderLength(sql, Anonymized(all, d), t);
    NothingShared(sql, tokens, t.quotes);
  }

  /** A dialect with heredocs closes every quote with one rune at most. */
  predicate ShortHeredocs(tokens: seq<Token>, quotes: seq<Marker>) {
    (exists i :: 0 <= i < |tokens| && tokens[i].kind.HEREDOC_STRING?) ==> forall q :: q in quotes ==> |q.close| <= 1
  }

  /** In such a dialect, whatever the statement, only tokens that share runes make the text longer. */
  lemma ShortHeredocsKeepLength(sql: string, tokens: seq<Token>, failed: bool, d: Dialect, t: Tables)
    requires HintsOpen(tokens, d) && NonEmptyOpeners(t.comments)
    requires InBounds(sql, tokens) && RewrittenFit(sql, tokens) && ShortHeredocs(tokens, t.quotes)
    ensures |Anonymize(sql, tokens, failed, d, t)| == |sql| + Overlap(tokens, 0, 0)
    ensures |Anonymize(sql, tokens, failed, d, t)| == |sql| <==> Disjoint(tokens)
  {
    hide Anonymize, InBounds, RewrittenFit, HintsOpen, NonEmptyOpeners, Margins, FitAlias, Spilt, Overlap, Wraps;
    AnonymizeKeepsLength(sql, tokens, failed, d, t);
    forall i | 0 <= i < |tokens| ensures MarginsApart(SpanOf(sql, tokens[i]), t.quotes, tokens[i].kind) {
      ShortClosersKeepLength(SpanOf(sql, tokens[i]), "", t.quotes, tokens[i].kind);
    }
    NothingSpilt(sql, tokens, t.quotes, |tokens|);
  }

  lemma SameSpan(sql: string, a: Token, b: Token)
    requires a.start == b.start && a.end == b.end
    ensures SpanOf(sql, a) == SpanOf(sql, b)
  {
  }

  lemma AnonymizedFits(sql: string, tokens: seq<Token>, d: Dialect, quotes: seq<Marker>)
    requires HintsOpen(tokens, d) && InBounds(sql, tokens) && RewrittenFit(sql, tokens)
    ensures var out := Anonymized(tokens, d);
            && InBounds(sql, out) && RewrittenFit(sql, out) && Overlap(out, 0, 0) == Overlap(tokens, 0, 0)
            && Spilt(sql, out, quotes, |out|) == Spilt(sql, tokens, quotes, |tokens|)
  {
    hide Anonymized, Spilt, Overlap, HintsOpen, SpanOf, IsRewritten;
    var out := Anonymized(tokens, d);
    forall i | 0 <= i < |tokens|
      ensures out[i].start == tokens[i].start && out[i].end == tokens[i].end && out[i].kind == tokens[i].kind
           && (IsRewritten(tokens[i].kind) ==> |out[i].text| == |tokens[i].text|)
           && SpanOf(sql, out[i]) == SpanOf(sql, tokens[i])
    {
      AnonymizedKeepsSpans(tokens, d, i);
      SameSpan(sql, out[i], tokens[i]);
    }
    OverlapOfSpans(out, tokens, 0, 0);
    SpiltOfSpans(sql, out, tokens, quotes, |tokens|);
  }

  lemma {:induction false} SpiltOfSpans(sql: string, a: seq<Token>, b: seq<Token>, quotes: seq<Marker>, n: nat)
    requires |a| == |b| && n <= |a|
    requires forall k :: 0 <= k < |a| ==> a[k].kind == b[k].kind && SpanOf(sql, a[k]) == SpanOf(sql, b[k])
    ensures Spilt(sql, a, quotes, n) == Spilt(sql, b, quotes, n)
  {
    hide Spill, SpanOf;
    if n == 0 {
    } else {
      SpiltOfSpans(sql, a, b, quotes, n - 1);
    }
  }

  // ---------------------------------------------------- the order of the tables

  /** Tables listed in an order that sorting could leave. */
  ghost predicate Listed(t: Tables, comments: map<string, string>, quotes: map<string, string>, nested: bool) {
    && Lists(t.comments, comments) && LongestFirst(t.comments)
    && Lists(t.quotes, quotes) && LongestFirst(t.quotes) && t.nested == nested
  }

  lemma {:induction false} RenderFromIgnoresOrder(sql: string, tokens: seq<Token>, i: nat, prev: nat, a: Tables, b: Tables)
    requires i <= |tokens| && NonEmptyOpeners(a.comments) && NonEmptyOpeners(b.comments) && a.nested == b.nested
    requires LongestFirst(a.comments) && LongestFirst(b.comments)
    requires OpenersDiffer(a.comments) && SameMarkers(a.comments, b.comments)
    requires LongestFirst(a.quotes) && LongestFirst(b.quotes) && OpenersDiffer(a.quotes) && SameMarkers(a.quotes, b.quotes)
    ensures RenderFrom(sql, tokens, i, prev, a) == RenderFrom(sql, tokens, i, prev, b)
    decreases |tokens| - i
  {
    hide Redact, LongestFirst, OpenersDiffer, SameMarkers, NonEmptyOpeners, Gap, SpanOf, FitAlias;
    if i == |tokens| {
      RedactIgnoresOrder(sql[Min(prev, |sql|)..], a.comments, b.comments, a.nested);
    } else {
      RedactIgnoresOrder(Gap(sql, prev, tokens[i]), a.comments, b.comments, a.nested);
      FitIgnoresOrder(SpanOf(sql, tokens[i]), tokens[i].text, a.quotes, b.quotes, tokens[i].kind);
      RenderFromIgnoresOrder(sql, tokens, i + 1, tokens[i].end + 1, a, b);
    }
  }

  /** The anonymized text is the same for every order in which the tables' maps are walked. */
  lemma AnonymizeIgnoresOrder(sql: string, tokens: seq<Token>, failed: bool, d: Dialect, a: Tables, b: Tables,
                              comments: map<string, string>, quotes: map<string, string>, nested: bool)
    requires HintsOpen(tokens, d) && "" !in comments
    requires Listed(a, comments, quotes, nested) && Listed(b, comments, quotes, nested)
    ensures NonEmptyOpeners(a.comments) && NonEmptyOpeners(b.comments)
    ensures Anonymize(sql, tokens, failed, d, a) == Anonymize(sql, tokens, failed, d, b)
  {
    TailOpensNoHint(sql, tokens, failed, d);
    ListsOfOneTable(a.comments, b.comments, comments);
    ListsOfOneTable(a.quotes, b.quotes, quotes);
    hide LongestFirst, OpenersDiffer, SameMarkers, Anonymized, RenderFrom, Read, HintsOpen;
    RenderFromIgnoresOrder(sql, Anonymized(Read(sql, tokens, failed), d), 0, 0, a, b);
  }
}
