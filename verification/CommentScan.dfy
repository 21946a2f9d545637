/**
 Finding and blanking comments between tokens (blankComment and redact in
 sqlglot/anonymize.go).
 */
module CommentScan {
  import opened Options
  import opened Runes

  /** An opening marker and its closing one, which is empty where the comment ends with the line. */
  datatype Marker = Marker(open: string, close: string)

  /** The first line feed at or after `from`, or the end. */
  function LineEnd(s: string, from: nat): (stop: nat)
    requires from <= |s|
    ensures from <= stop <= |s| && '\n' !in s[from..stop]
    ensures stop < |s| ==> s[stop] == '\n'
    decreases |s| - from
  {
    if from == |s| || s[from] == '\n' then from else LineEnd(s, from + 1)
  }

  lemma PrefixFits(s: string, prefix: string, at: nat)
    requires HasPrefixAt(s, prefix, at)
    ensures at + |prefix| <= |s|
  {
  }

  /** Just past the marker that closes `depth` open comments, scanning from j. */
  function CloseOf(s: string, j: nat, depth: nat, open: string, close: string, nested: bool): (stop: Option<nat>)
    requires depth >= 1 && open != "" && close != ""
    ensures stop.Some? ==> j + |close| <= stop.value <= |s|
    decreases |s| - j
  {
    hide HasPrefixAt;
    if j >= |s| then None
    else if nested && HasPrefixAt(s, open, j) then CloseOf(s, j + |open|, depth + 1, open, close, nested)
    else if HasPrefixAt(s, close, j) then
      PrefixFits(s, close, j);
      if depth == 1 then Some(j + |close|) else CloseOf(s, j + |close|, depth - 1, open, close, nested)
    else CloseOf(s, j + 1, depth, open, close, nested)
  }

  /** blankComment on the comment opening at i: the blanked text, and where it stops. */
  function BlankComment(s: string, i: nat, open: string, close: string, nested: bool): (r: (string, nat))
    requires open != "" && i + |open| <= |s|
    ensures i + |open| <= r.1 <= |s| && |r.0| == r.1 - i
  {
    var body := i + |open|;
    if close == "" then
      var stop := LineEnd(s, body);
      (open + BlankText(s[body..stop]), stop)
    else
      match CloseOf(s, body, 1, open, close, nested)
      case Some(stop) => (open + BlankText(s[body..stop - |close|]) + close, stop)
      case None => (open + BlankText(s[body..]), |s|)
  }

  /** The first marker of the table that opens a comment at i. */
  function Opener(s: string, i: nat, comments: seq<Marker>): (m: Option<Marker>)
    ensures m.Some? ==> m.value in comments && HasPrefixAt(s, m.value.open, i)
    ensures m.None? ==> forall c :: c in comments ==> !HasPrefixAt(s, c.open, i)
  {
    if comments == [] then None
    else if HasPrefixAt(s, comments[0].open, i) then Some(comments[0])
    else Opener(s, i, comments[1..])
  }

  predicate NonEmptyOpeners(comments: seq<Marker>) {
    forall c :: c in comments ==> c.open != ""
  }

  function RedactFrom(s: string, i: nat, comments: seq<Marker>, nested: bool): string
    requires i <= |s| && NonEmptyOpeners(comments)
    decreases |s| - i
  {
    if i == |s| then ""
    else
      match Opener(s, i, comments)
      case Some(m) =>
        var (text, next) := BlankComment(s, i, m.open, m.close, nested);
        text + RedactFrom(s, next, comments, nested)
      case None => (if IsSpace(s[i]) then [s[i]] else ".") + RedactFrom(s, i + 1, comments, nested)
  }

  /** redact. */
  function Redact(s: string, comments: seq<Marker>, nested: bool): string
    requires NonEmptyOpeners(comments)
  {
    if AllSpace(s) then s else RedactFrom(s, 0, comments, nested)
  }

  // ------------------------------------------------------------------- theorems

  /** Rune k of s belongs to an opening or closing marker. */
  ghost predicate InMarker(s: string, k: nat, comments: seq<Marker>) {
    exists c: Marker, p: nat :: c in comments && Covers(s, c, p, k)
  }

  predicate Covers(s: string, c: Marker, p: nat, k: nat) {
    || (p <= k < p + |c.open| && HasPrefixAt(s, c.open, p))
    || (p <= k < p + |c.close| && HasPrefixAt(s, c.close, p))
  }

  /** What a redaction may write for rune k: a space stays, a marker's rune may stay, anything else is a dot. */
  ghost predicate Redacted(c: char, s: string, k: nat, comments: seq<Marker>)
    requires k < |s|
  {
    if IsSpace(s[k]) then c == s[k] else c == '.' || (c == s[k] && InMarker(s, k, comments))
  }

  /** out is what redaction makes of s[from..to]. */
  ghost predicate Redacts(out: string, s: string, from: nat, to: nat, comments: seq<Marker>) {
    && from <= to <= |s| && |out| == to - from
    && forall j :: 0 <= j < |out| ==> Redacted(out[j], s, from + j, comments)
  }

  lemma RedactsConcat(a: string, b: string, s: string, i: nat, j: nat, n: nat, comments: seq<Marker>)
    requires Redacts(a, s, i, j, comments) && Redacts(b, s, j, n, comments)
    ensures Redacts(a + b, s, i, n, comments)
  {
    hide Redacted;
    forall k | 0 <= k < |a + b| ensures Redacted((a + b)[k], s, i + k, comments) {
      if k >= |a| {
        assert Redacted(b[k - |a|], s, j + (k - |a|), comments);
      }
    }
  }

  lemma BlankRedacts(s: string, i: nat, j: nat, comments: seq<Marker>)
    requires i <= j <= |s|
    ensures Redacts(BlankText(s[i..j]), s, i, j, comments)
  {
  }

  lemma MarkerRedacts(s: string, i: nat, marker: string, c: Marker, comments: seq<Marker>)
    requires c in comments && (marker == c.open || marker == c.close) && HasPrefixAt(s, marker, i)
    ensures Redacts(marker, s, i, i + |marker|, comments)
  {
    forall k | 0 <= k < |marker| ensures Redacted(marker[k], s, i + k, comments) {
      assert s[i..i + |marker|][k] == s[i + k];
      assert Covers(s, c, i, i + k);
    }
  }

  /** A comment is blanked in place: nothing of it but its spaces and its own markers is left. */
  lemma BlankCommentRedacts(s: string, i: nat, c: Marker, nested: bool, comments: seq<Marker>)
    requires c in comments && c.open != "" && HasPrefixAt(s, c.open, i)
    ensures var (text, stop) := BlankComment(s, i, c.open, c.close, nested);
            Redacts(text, s, i, stop, comments)
  {
    hide CloseOf, LineEnd, Redacts, BlankText;
    var (text, stop) := BlankComment(s, i, c.open, c.close, nested);
    var body := i + |c.open|;
    MarkerRedacts(s, i, c.open, c, comments);
    hide HasPrefixAt;
    if c.close != "" && CloseOf(s, body, 1, c.open, c.close, nested).Some? {
      ClosesWithMarker(s, body, 1, c.open, c.close, nested);
      var end := stop - |c.close|;
      MarkerRedacts(s, end, c.close, c, comments);
      BlankRedacts(s, body, end, comments);
      RedactsConcat(c.open, BlankText(s[body..end]), s, i, body, end, comments);
      RedactsConcat(c.open + BlankText(s[body..end]), c.close, s, i, end, stop, comments);
    } else {
      assert s[body..stop] == s[body..] || c.close == "";
      BlankRedacts(s, body, stop, comments);
      RedactsConcat(c.open, BlankText(s[body..stop]), s, i, body, stop, comments);
    }
  }

  lemma OneRune(s: string, i: nat, comments: seq<Marker>)
    requires i < |s|
    ensures Redacts(if IsSpace(s[i]) then [s[i]] else ".", s, i, i + 1, comments)
  {
  }

  lemma NoRunes(s: string, comments: seq<Marker>)
    ensures Redacts("", s, |s|, |s|, comments)
  {
  }

  /** A comment that closes ends with its closing marker. */
  lemma {:induction false} ClosesWithMarker(s: string, j: nat, depth: nat, open: string, close: string, nested: bool)
    requires depth >= 1 && open != "" && close != ""
    ensures var stop := CloseOf(s, j, depth, open, close, nested);
            stop.Some? ==> HasPrefixAt(s, close, stop.value - |close|)
    decreases |s| - j
  {
    hide HasPrefixAt;
    if j >= |s| {
    } else {
      if nested && HasPrefixAt(s, open, j) {
        ClosesWithMarker(s, j + |open|, depth + 1, open, close, nested);
      } else if HasPrefixAt(s, close, j) {
        if depth > 1 {
          ClosesWithMarker(s, j + |close|, depth - 1, open, close, nested);
        }
      } else {
        ClosesWithMarker(s, j + 1, depth, open, close, nested);
      }
    }
  }

  lemma {:induction false} RedactFromRedacts(s: string, i: nat, comments: seq<Marker>, nested: bool)
    requires i <= |s| && NonEmptyOpeners(comments)
    ensures Redacts(RedactFrom(s, i, comments, nested), s, i, |s|, comments)
    decreases |s| - i
  {
    hide BlankComment, Opener, Redacts, IsSpace;
    if i == |s| {
      NoRunes(s, comments);
    } else {
      match Opener(s, i, comments)
      case Some(m) =>
        var (text, next) := BlankComment(s, i, m.open, m.close, nested);
        BlankCommentRedacts(s, i, m, nested, comments);
        RedactFromRedacts(s, next, comments, nested);
        RedactsConcat(text, RedactFrom(s, next, comments, nested), s, i, next, |s|, comments);
      case None =>
        RedactFromRedacts(s, i + 1, comments, nested);
        OneRune(s, i, comments);
        RedactsConcat(if IsSpace(s[i]) then [s[i]] else ".", RedactFrom(s, i + 1, comments, nested),
                      s, i, i + 1, |s|, comments);
    }
  }

  /** What stands between tokens keeps its length and its spaces, and no other rune outside a comment marker. */
  lemma RedactRedacts(s: string, comments: seq<Marker>, nested: bool)
    requires NonEmptyOpeners(comments)
    ensures Redacts(Redact(s, comments, nested), s, 0, |s|, comments)
  {
    hide RedactFrom;
    if !AllSpace(s) {
      RedactFromRedacts(s, 0, comments, nested);
    }
  }

  /** Where redaction meets a comment, its opening marker stands, and its closing one where it closes. */
  lemma MarkersStand(s: string, i: nat, comments: seq<Marker>, nested: bool)
    requires i < |s| && NonEmptyOpeners(comments) && Opener(s, i, comments).Some?
    ensures var m := Opener(s, i, comments).value;
            var out := RedactFrom(s, i, comments, nested);
            && |m.open| <= |out| == |s| - i && out[..|m.open|] == m.open
            && (m.close != "" && CloseOf(s, i + |m.open|, 1, m.open, m.close, nested).Some? ==>
                  var stop := CloseOf(s, i + |m.open|, 1, m.open, m.close, nested).value - i;
                  |m.close| <= stop <= |out| && out[stop - |m.close|..stop] == m.close)
  {
    RedactFromRedacts(s, i, comments, nested);
    var m := Opener(s, i, comments).value;
    var (text, next) := BlankComment(s, i, m.open, m.close, nested);
    CommentHasMarkers(s, i, m, nested);
    hide CloseOf, BlankComment, Opener, HasPrefixAt;
    assert RedactFrom(s, i, comments, nested) == text + RedactFrom(s, next, comments, nested);
  }

  lemma CommentHasMarkers(s: string, i: nat, m: Marker, nested: bool)
    requires m.open != "" && i + |m.open| <= |s|
    ensures var (text, next) := BlankComment(s, i, m.open, m.close, nested);
            && |text| == next - i && text[..|m.open|] == m.open
            && (m.close != "" && CloseOf(s, i + |m.open|, 1, m.open, m.close, nested).Some? ==>
                  && next == CloseOf(s, i + |m.open|, 1, m.open, m.close, nested).value
                  && |m.close| <= |text| && text[|text| - |m.close|..] == m.close)
  {
    hide CloseOf, LineEnd, BlankText;
  }

  /** Without nesting, the close is the first closing marker there is. */
  lemma {:induction false} CloseIsFirst(s: string, j: nat, open: string, close: string)
    requires open != "" && close != ""
    ensures var r := CloseOf(s, j, 1, open, close, false);
            && (r.Some? ==> forall p :: j <= p < r.value - |close| ==> !HasPrefixAt(s, close, p))
            && (r.None? ==> forall p :: j <= p ==> !HasPrefixAt(s, close, p))
    decreases |s| - j
  {
    hide HasPrefixAt;
    if j >= |s| {
      NothingPastTheEnd(s, j, close);
    } else if !HasPrefixAt(s, close, j) {
      CloseIsFirst(s, j + 1, open, close);
    }
  }

  lemma NothingPastTheEnd(s: string, j: nat, marker: string)
    requires j >= |s| && marker != ""
    ensures forall p :: j <= p ==> !HasPrefixAt(s, marker, p)
  {
  }

  /** Closing m + n comments is closing m of them and then the other n. */
  lemma {:induction false} DepthsCompose(s: string, j: nat, m: nat, n: nat, open: string, close: string, nested: bool)
    requires m >= 1 && n >= 1 && open != "" && close != ""
    ensures CloseOf(s, j, m + n, open, close, nested)
         == match CloseOf(s, j, m, open, close, nested) {
              case Some(k) => CloseOf(s, k, n, open, close, nested)
              case None => None
            }
    decreases |s| - j
  {
    hide HasPrefixAt;
    if j >= |s| {
    } else {
      if nested && HasPrefixAt(s, open, j) {
        DepthsCompose(s, j + |open|, m + 1, n, open, close, nested);
      } else if HasPrefixAt(s, close, j) {
        if m > 1 {
          DepthsCompose(s, j + |close|, m - 1, n, open, close, nested);
        }
      } else {
        DepthsCompose(s, j + 1, m, n, open, close, nested);
      }
    }
  }

  lemma Opened(s: string, j: nat, depth: nat, open: string, close: string)
    requires depth >= 1 && open != "" && close != "" && j < |s| && HasPrefixAt(s, open, j)
    ensures CloseOf(s, j, depth, open, close, true) == CloseOf(s, j + |open|, depth + 1, open, close, true)
  {
    hide HasPrefixAt;
  }

  /** With nesting, a comment inside a comment is skipped as a whole. */
  lemma InnerCommentIsSkipped(s: string, j: nat, depth: nat, open: string, close: string)
    requires depth >= 1 && open != "" && close != "" && HasPrefixAt(s, open, j)
    ensures CloseOf(s, j, depth, open, close, true)
         == match CloseOf(s, j + |open|, 1, open, close, true) {
              case Some(k) => CloseOf(s, k, depth, open, close, true)
              case None => None
            }
  {
    hide CloseOf;
    assert j < |s|;
    Opened(s, j, depth, open, close);
    hide HasPrefixAt;
    DepthsCompose(s, j + |open|, 1, depth, open, close, true);
  }

  // ------------------------------------------------------------------ as it runs

  /** indexRune, for the end of a line comment. */
  method IndexOfLineFeed(s: string, from: nat) returns (i: int)
    requires from <= |s|
    ensures i == -1 <==> LineEnd(s, from) == |s|
    ensures i != -1 ==> i == LineEnd(s, from)
  {
    var k := from;
    while k < |s|
      invariant from <= k <= |s| && LineEnd(s, from) == LineEnd(s, k)
    {
      if s[k] == '\n' {
        return k;
      }
      k := k + 1;
    }
    return -1;
  }

  /** blankComment: the scan counts the comments still open. */
  method ScanComment(s: string, i: nat, open: string, close: string, nested: bool) returns (text: string, stop: nat)
    requires open != "" && i + |open| <= |s|
    ensures (text, stop) == BlankComment(s, i, open, close, nested)
  {
    hide HasPrefixAt;
    var body := i + |open|;
    if close == "" {
      var end := IndexOfLineFeed(s, body);
      stop := if end < 0 then |s| else end;
      var blank := WriteBlank(s[body..stop]);
      return open + blank, stop;
    }
    var depth: nat := 1;
    var j := body;
    while j < |s|
      invariant body <= j && depth >= 1
      invariant CloseOf(s, body, 1, open, close, nested) == CloseOf(s, j, depth, open, close, nested)
      decreases |s| - j
    {
      if nested && HasPrefixAt(s, open, j) {
        depth := depth + 1;
        j := j + |open|;
      } else if HasPrefixAt(s, close, j) {
        j := j + |close|;
        depth := depth - 1;
        if depth == 0 {
          var blank := WriteBlank(s[body..j - |close|]);
          return open + blank + close, j;
        }
      } else {
        j := j + 1;
      }
    }
    var rest := WriteBlank(s[body..]);
    return open + rest, |s|;
  }

  lemma Append(a: string, b: string, c: string)
    ensures a + (b + c) == a + b + c
  {
  }

  /** redact. */
  method RedactGap(s: string, comments: seq<Marker>, nested: bool) returns (out: string)
    requires NonEmptyOpeners(comments)
    ensures out == Redact(s, comments, nested)
  {
    hide BlankComment, Opener, HasPrefixAt, IsSpace;
    if AllSpace(s) {
      return s;
    }
    out := "";
    var i: nat := 0;
    while i < |s|
      invariant i <= |s|
      invariant out + RedactFrom(s, i, comments, nested) == RedactFrom(s, 0, comments, nested)
    {
      match Opener(s, i, comments) {
        case Some(m) =>
          var text, next := ScanComment(s, i, m.open, m.close, nested);
          Append(out, text, RedactFrom(s, next, comments, nested));
          out := out + text;
          i := next;
        case None =>
          var c := if IsSpace(s[i]) then [s[i]] else ".";
          Append(out, c, RedactFrom(s, i + 1, comments, nested));
          out := out + c;
          i := i + 1;
      }
    }
  }
}
