/**
 Writing comments back (sanitizeComment and formatComments in
 sqlglot/comment_write.go), and what the scanner of sqlglot/anonymize.go makes
 of them.
 */
module CommentWriter {
  import opened Options
  import opened Runes
  import opened CommentScan

  const OPEN := "/*"
  const CLOSE := "*/"

  /** Go's strings.ReplaceAll. */
  function ReplaceAll(s: string, needle: string, replacement: string): string
    requires needle != ""
  {
    if |s| < |needle| then s
    else if s[..|needle|] == needle then replacement + ReplaceAll(s[|needle|..], needle, replacement)
    else [s[0]] + ReplaceAll(s[1..], needle, replacement)
  }

  /** The two runes a and b moved apart wherever they meet. */
  function Apart(s: string, a: char, b: char): string {
    ReplaceAll(s, [a, b], [a, ' ', b])
  }

  /** A space at each end, where there is none; the empty comment becomes one space. */
  function PadEnds(c: string): (t: string)
    ensures t != "" && IsSpace(t[0]) && IsSpace(t[|t| - 1])
  {
    var front := if c == "" || !IsSpace(c[0]) then " " + c else c;
    if !IsSpace(front[|front| - 1]) then front + " " else front
  }

  /** sanitizeComment. */
  function Sanitized(c: string): string {
    Apart(Apart(PadEnds(c), '*', '/'), '/', '*')
  }

  function Written(c: string): string {
    OPEN + Sanitized(c) + CLOSE
  }

  /** The comments that are written at all. */
  function Kept(comments: seq<string>): seq<string> {
    if comments == [] then []
    else
      var last := comments[|comments| - 1];
      Kept(comments[..|comments| - 1]) + (if last == "" then [] else [last])
  }

  function Joined(kept: seq<string>): string {
    if kept == [] then ""
    else if |kept| == 1 then Written(kept[0])
    else Written(kept[0]) + (" " + Joined(kept[1..]))
  }

  /** formatComments. */
  function FormatComments(comments: seq<string>): string {
    Joined(Kept(comments))
  }

  // ------------------------------------------------------------------ sanitizing

  predicate Meets(s: string, a: char, b: char, p: nat) {
    p + 1 < |s| && s[p] == a && s[p + 1] == b
  }

  /** No a directly before a b. */
  ghost predicate NeverMeet(s: string, a: char, b: char) {
    forall p: nat :: !Meets(s, a, b, p)
  }

  lemma {:induction false} ApartSeparates(s: string, a: char, b: char)
    requires a != b && a != ' ' && b != ' '
    ensures var t := Apart(s, a, b);
            && NeverMeet(t, a, b)
            && |t| >= |s| && (s != "" ==> t[0] == s[0] && t[|t| - 1] == s[|s| - 1])
            && (NeverMeet(s, a, b) ==> t == s)
            && (NeverMeet(s, b, a) ==> NeverMeet(t, b, a))
  {
    var t := Apart(s, a, b);
    if |s| < 2 {
    } else {
      if s[..2] == [a, b] {
        assert s[0] == [a, b][0] && s[1] == [a, b][1];
        var rest := Apart(s[2..], a, b);
        ApartSeparates(s[2..], a, b);
        assert t == [a, ' ', b] + rest;
        assert Meets(s, a, b, 0);
        PairsInside(s, 2, b, a);
        PrefixKeepsApart([a, ' ', b], rest, a, b);
        if NeverMeet(s, b, a) {
          assert rest != "" ==> !Meets(s, b, a, 1);
          PrefixKeepsApart([a, ' ', b], rest, b, a);
        }
      } else {
        var rest := Apart(s[1..], a, b);
        ApartSeparates(s[1..], a, b);
        assert t == [s[0]] + rest;
        PairsInside(s, 1, b, a);
        PairsInside(s, 1, a, b);
        assert s[..2] == [s[0], s[1]];
        assert !Meets(s, a, b, 0);
        PrefixKeepsApart([s[0]], rest, a, b);
        if NeverMeet(s, b, a) {
          assert !Meets(s, b, a, 0);
          PrefixKeepsApart([s[0]], rest, b, a);
        }
        assert s == [s[0]] + s[1..];
      }
    }
  }

  lemma PairsInside(s: string, from: nat, a: char, b: char)
    requires from <= |s|
    ensures NeverMeet(s, a, b) ==> NeverMeet(s[from..], a, b)
  {
    forall p: nat ensures NeverMeet(s, a, b) ==> !Meets(s[from..], a, b, p) {
      assert NeverMeet(s, a, b) ==> !Meets(s, a, b, from + p);
    }
  }

  lemma PrefixKeepsApart(prefix: string, rest: string, a: char, b: char)
    requires NeverMeet(prefix, a, b) && NeverMeet(rest, a, b)
    requires prefix != "" && rest != "" ==> !(prefix[|prefix| - 1] == a && rest[0] == b)
    ensures NeverMeet(prefix + rest, a, b)
  {
    forall p: nat ensures !Meets(prefix + rest, a, b, p) {
      assert !Meets(prefix, a, b, p);
      if p >= |prefix| {
        assert !Meets(rest, a, b, p - |prefix|);
      }
    }
  }

  /** t is s with spaces put in. */
  predicate SpacesAdded(s: string, t: string) {
    if t == "" then s == ""
    else (s != "" && s[0] == t[0] && SpacesAdded(s[1..], t[1..])) || (t[0] == ' ' && SpacesAdded(s, t[1..]))
  }

  lemma {:induction false} SpacesAddedTwice(s: string, t: string, u: string)
    requires SpacesAdded(s, t) && SpacesAdded(t, u)
    ensures SpacesAdded(s, u)
    decreases |u|
  {
    if u == "" {
    } else {
      if t != "" && t[0] == u[0] && SpacesAdded(t[1..], u[1..]) {
        if s != "" && s[0] == t[0] && SpacesAdded(s[1..], t[1..]) {
          SpacesAddedTwice(s[1..], t[1..], u[1..]);
        } else {
          SpacesAddedTwice(s, t[1..], u[1..]);
        }
      } else {
        SpacesAddedTwice(s, t, u[1..]);
      }
    }
  }

  lemma {:induction false} NoSpacesAdded(s: string)
    ensures SpacesAdded(s, s)
  {
    if s == "" {
    } else {
      NoSpacesAdded(s[1..]);
    }
  }

  lemma {:induction false} SpaceAtEnd(s: string)
    ensures SpacesAdded(s, s + " ")
  {
    if s == "" {
      assert SpacesAdded("", "");
    } else {
      SpaceAtEnd(s[1..]);
      assert (s + " ")[1..] == s[1..] + " ";
    }
  }

  lemma SpaceAtStart(s: string)
    ensures SpacesAdded(s, " " + s)
  {
    NoSpacesAdded(s);
    assert (" " + s)[1..] == s;
  }

  lemma {:induction false} ApartAddsSpaces(s: string, a: char, b: char)
    ensures SpacesAdded(s, Apart(s, a, b))
  {
    var t := Apart(s, a, b);
    if |s| < 2 {
      NoSpacesAdded(s);
    } else if s[..2] == [a, b] {
      assert s[0] == [a, b][0] && s[1] == [a, b][1];
      ApartAddsSpaces(s[2..], a, b);
      assert t[1..] == [' ', b] + Apart(s[2..], a, b);
      assert t[1..][1..] == [b] + Apart(s[2..], a, b);
      assert t[1..][1..][1..] == Apart(s[2..], a, b);
      assert s[1..][1..] == s[2..];
      assert SpacesAdded(s[1..], t[1..][1..]);
      assert SpacesAdded(s[1..], t[1..]);
    } else {
      ApartAddsSpaces(s[1..], a, b);
      assert t[1..] == Apart(s[1..], a, b);
    }
  }

  /** Neither marker can start inside, nor with the rune after or before. */
  ghost predicate Inert(s: string) {
    && s != "" && IsSpace(s[0]) && IsSpace(s[|s| - 1])
    && NeverMeet(s, '*', '/') && NeverMeet(s, '/', '*')
  }

  /** A sanitized comment holds no marker, and is the comment with spaces put in. */
  lemma SanitizedIsInert(c: string)
    ensures Inert(Sanitized(c)) && SpacesAdded(c, Sanitized(c))
  {
    hide Apart, SpacesAdded, NeverMeet;
    var padded := PadEnds(c);
    var once := Apart(padded, '*', '/');
    PadEndsAddsSpaces(c);
    ApartSeparates(padded, '*', '/');
    ApartSeparates(once, '/', '*');
    ApartAddsSpaces(padded, '*', '/');
    ApartAddsSpaces(once, '/', '*');
    SpacesAddedTwice(c, padded, once);
    SpacesAddedTwice(c, once, Sanitized(c));
  }

  lemma PadEndsAddsSpaces(c: string)
    ensures SpacesAdded(c, PadEnds(c))
  {
    hide SpacesAdded, IsSpace;
    var front := if c == "" || !IsSpace(c[0]) then " " + c else c;
    NoSpacesAdded(c);
    SpaceAtStart(c);
    NoSpacesAdded(front);
    SpaceAtEnd(front);
    SpacesAddedTwice(c, front, PadEnds(c));
  }

  /** Sanitizing again changes nothing, and only what is already inert is left alone. */
  lemma SanitizeIsIdempotent(c: string)
    ensures Sanitized(Sanitized(c)) == Sanitized(c)
    ensures Sanitized(c) == c <==> Inert(c)
  {
    hide Apart, SpacesAdded, NeverMeet;
    SanitizedIsInert(c);
    InertIsKept(Sanitized(c));
    if Inert(c) {
      InertIsKept(c);
    }
  }

  lemma InertIsKept(c: string)
    requires Inert(c)
    ensures Sanitized(c) == c
  {
    hide Apart, NeverMeet;
    ApartSeparates(c, '*', '/');
    ApartSeparates(c, '/', '*');
  }

  // -------------------------------------------------------------------- scanning

  /** The scan passes over text in which no marker starts, and closes on the marker after it. */
  lemma {:induction false} ScanPasses(s: string, j: nat, end: nat, nested: bool)
    requires j <= end && HasPrefixAt(s, CLOSE, end)
    requires forall p :: j <= p < end ==> !HasPrefixAt(s, OPEN, p) && !HasPrefixAt(s, CLOSE, p)
    ensures CloseOf(s, j, 1, OPEN, CLOSE, nested) == Some(end + 2)
    decreases end - j
  {
    if j == end {
      PrefixMeets(s, end);
    } else {
      assert !HasPrefixAt(s, OPEN, j) && !HasPrefixAt(s, CLOSE, j);
      ScanPasses(s, j + 1, end, nested);
    }
  }

  lemma PrefixMeets(s: string, p: nat)
    ensures HasPrefixAt(s, OPEN, p) <==> Meets(s, '/', '*', p)
    ensures HasPrefixAt(s, CLOSE, p) <==> Meets(s, '*', '/', p)
  {
    if p + 2 <= |s| {
      assert s[p..p + 2] == [s[p], s[p + 1]];
    }
  }

  /** Wherever it stands, a written comment is scanned to exactly its own end, with nesting on or off. */
  lemma WrittenCommentCloses(before: string, c: string, after: string, nested: bool)
    ensures var s, i := before + Written(c) + after, |before|;
            && HasPrefixAt(s, OPEN, i)
            && CloseOf(s, i + 2, 1, OPEN, CLOSE, nested) == Some(i + |Written(c)|)
            && BlankComment(s, i, OPEN, CLOSE, nested) == (OPEN + BlankText(Sanitized(c)) + CLOSE, i + |Written(c)|)
  {
    hide Sanitized, CloseOf, HasPrefixAt, NeverMeet;
    SanitizedIsInert(c);
    InertBodyCloses(before, Sanitized(c), after, nested);
  }

  lemma InertBodyCloses(before: string, body: string, after: string, nested: bool)
    requires Inert(body)
    ensures var s, i := before + (OPEN + body + CLOSE) + after, |before|;
            && HasPrefixAt(s, OPEN, i)
            && CloseOf(s, i + 2, 1, OPEN, CLOSE, nested) == Some(i + |body| + 4)
            && s[i + 2..i + 2 + |body|] == body
            && BlankComment(s, i, OPEN, CLOSE, nested) == (OPEN + BlankText(body) + CLOSE, i + |body| + 4)
  {
    hide CloseOf, Inert, BlankText, BlankComment;
    var s, i := before + (OPEN + body + CLOSE) + after, |before|;
    var end := i + 2 + |body|;
    assert s[i..i + 2] == OPEN && s[i + 2..end] == body && s[end..end + 2] == CLOSE;
    InertBodyAt(s, i, body, nested);
  }

  lemma InertBodyAt(s: string, i: nat, body: string, nested: bool)
    requires Inert(body) && HasPrefixAt(s, OPEN, i) && HasPrefixAt(s, body, i + 2) && HasPrefixAt(s, CLOSE, i + 2 + |body|)
    ensures CloseOf(s, i + 2, 1, OPEN, CLOSE, nested) == Some(i + |body| + 4)
    ensures BlankComment(s, i, OPEN, CLOSE, nested) == (OPEN + BlankText(body) + CLOSE, i + |body| + 4)
  {
    hide CloseOf;
    var end := i + 2 + |body|;
    forall p | i + 2 <= p < end ensures !HasPrefixAt(s, OPEN, p) && !HasPrefixAt(s, CLOSE, p) {
      InertWithin(s, i + 2, body, p);
    }
    hide HasPrefixAt, Inert;
    ScanPasses(s, i + 2, end, nested);
  }

  lemma InertWithin(s: string, from: nat, body: string, p: nat)
    requires Inert(body) && HasPrefixAt(s, body, from) && from <= p < from + |body|
    ensures !HasPrefixAt(s, OPEN, p) && !HasPrefixAt(s, CLOSE, p)
  {
    PrefixMeets(s, p);
    assert !Meets(body, '/', '*', p - from) && !Meets(body, '*', '/', p - from);
    assert s[p] == body[p - from];
    assert p + 1 < from + |body| ==> s[p + 1] == body[p + 1 - from];
  }

  // -------------------------------------------------------------- comment lists

  /** The bodies of a run of block comments one space apart, or nothing where the text is anything else. */
  function Bodies(s: string, i: nat, nested: bool): Option<seq<string>>
    requires i <= |s|
    decreases |s| - i
  {
    if i == |s| then Some([])
    else if !HasPrefixAt(s, OPEN, i) then None
    else
      match CloseOf(s, i + 2, 1, OPEN, CLOSE, nested)
      case None => None
      case Some(k) =>
        var body := s[i + 2..k - 2];
        if k == |s| then Some([body])
        else if s[k] != ' ' || k + 1 == |s| then None
        else
          var rest :- Bodies(s, k + 1, nested);
          Some([body] + rest)
  }

  function SanitizedAll(kept: seq<string>): seq<string> {
    seq(|kept|, k requires 0 <= k < |kept| => Sanitized(kept[k]))
  }

  /** One comment is read, and then whatever follows its space. */
  lemma FirstBody(before: string, c: string, after: string, nested: bool)
    requires after == "" || (|after| > 1 && after[0] == ' ')
    ensures var s, next := before + Written(c) + after, |before| + |Written(c)| + 1;
            Bodies(s, |before|, nested)
            == if after == "" then Some([Sanitized(c)])
               else match Bodies(s, next, nested) {
                 case Some(rest) => Some([Sanitized(c)] + rest)
                 case None => None
               }
  {
    hide CloseOf, HasPrefixAt, Sanitized, Inert, BlankComment;
    SanitizedIsInert(c);
    InertBodyCloses(before, Sanitized(c), after, nested);
  }

  lemma JoinedAfter(before: string, kept: seq<string>)
    requires kept != []
    ensures var w, rest := Written(kept[0]), kept[1..];
            && SanitizedAll(kept) == [Sanitized(kept[0])] + SanitizedAll(rest)
            && (rest == [] ==> before + Joined(kept) == before + w + "" && SanitizedAll(kept) == [Sanitized(kept[0])])
            && (rest != [] ==> before + Joined(kept) == before + w + (" " + Joined(rest)) == before + w + " " + Joined(rest))
  {
    hide Written, Sanitized;
  }

  lemma NothingJoined(before: string, nested: bool)
    ensures Bodies(before + Joined([]), |before|, nested) == Some(SanitizedAll([]))
  {
    assert before + Joined([]) == before && SanitizedAll([]) == [];
  }

  lemma {:induction false} JoinedScans(before: string, kept: seq<string>, nested: bool)
    ensures Bodies(before + Joined(kept), |before|, nested) == Some(SanitizedAll(kept))
    decreases |kept|
  {
    hide *;
    if kept == [] {
      NothingJoined(before, nested);
    } else {
      JoinedAfter(before, kept);
      var w, rest := Written(kept[0]), kept[1..];
      if rest == [] {
        FirstBody(before, kept[0], "", nested);
      } else {
        JoinedStarts(rest);
        FirstBody(before, kept[0], " " + Joined(rest), nested);
        JoinedScans(before + w + " ", rest, nested);
      }
    }
  }

  lemma JoinedStarts(kept: seq<string>)
    requires kept != []
    ensures Joined(kept) != ""
  {
    hide Sanitized;
  }

  /** Comments written together are read back one by one: each body that was not empty, sanitized, in order. */
  lemma CommentsReadBack(comments: seq<string>, nested: bool)
    ensures Bodies(FormatComments(comments), 0, nested) == Some(SanitizedAll(Kept(comments)))
  {
    hide Joined, Bodies, SanitizedAll;
    JoinedScans("", Kept(comments), nested);
    assert "" + Joined(Kept(comments)) == Joined(Kept(comments));
  }

  lemma {:induction false} JoinedGrows(kept: seq<string>, c: string)
    ensures Joined(kept + [c]) == if kept == [] then Written(c) else Joined(kept) + " " + Written(c)
  {
    hide Written;
    if kept == [] {
    } else if |kept| == 1 {
      assert (kept + [c])[1..] == [c];
    } else {
      assert (kept + [c])[1..] == kept[1..] + [c];
      JoinedGrows(kept[1..], c);
    }
  }

  // ------------------------------------------------------------------ as it runs

  method SanitizeComment(c: string) returns (comment: string)
    ensures comment == Sanitized(c)
  {
    comment := c;
    if comment == "" || !IsSpace(comment[0]) {
      comment := " " + comment;
    }
    if !IsSpace(comment[|comment| - 1]) {
      comment := comment + " ";
    }
    comment := ReplaceAll(comment, "*/", "* /");
    comment := ReplaceAll(comment, "/*", "/ *");
  }

  method WriteComments(comments: seq<string>) returns (b: string)
    ensures b == FormatComments(comments)
  {
    hide Sanitized, Joined;
    b := "";
    EmptyJoin();
    for i := 0 to |comments|
      invariant b == Joined(Kept(comments[..i]))
      invariant b == "" <==> Kept(comments[..i]) == []
    {
      assert comments[..i + 1][..i] == comments[..i];
      if comments[i] == "" {
        assert Kept(comments[..i + 1]) == Kept(comments[..i]);
        continue;
      }
      JoinedGrows(Kept(comments[..i]), comments[i]);
      assert Kept(comments[..i + 1]) == Kept(comments[..i]) + [comments[i]];
      if |b| > 0 {
        b := b + " ";
      }
      var text := SanitizeComment(comments[i]);
      b := b + ("/*" + text + "*/");
    }
    assert comments[..|comments|] == comments;
  }

  lemma EmptyJoin()
    ensures Joined([]) == ""
  {
  }
}
