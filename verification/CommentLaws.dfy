/**
 How much sanitizing adds to a comment, and how comments are written
 (sqlglot/comment_write.go), in figures and in runes.
 */
module CommentLaws {
  import opened Runes
  import opened CommentWriter

  /** How often a stands directly before b. */
  function Pairs(s: string, a: char, b: char): nat {
    if |s| < 2 then 0 else (if s[0] == a && s[1] == b then 1 else 0) + Pairs(s[1..], a, b)
  }

  lemma PairsOfPrefixed(c: char, s: string, a: char, b: char)
    ensures Pairs([c] + s, a, b) == (if s != "" && c == a && s[0] == b then 1 else 0) + Pairs(s, a, b)
  {
    assert ([c] + s)[1..] == s;
  }

  lemma ApartFirst(s: string, a: char, b: char)
    requires a != b && a != ' ' && b != ' '
    ensures |Apart(s, a, b)| >= |s| && (s != "" ==> Apart(s, a, b)[0] == s[0])
  {
    ApartSeparates(s, a, b);
  }

  lemma PairMoved(s: string, a: char, b: char, rest: string)
    requires a != b && a != ' ' && b != ' ' && |s| >= 2 && s[0] == a && s[1] == b
    requires (rest == "" <==> |s| == 2) && (rest != "" ==> rest[0] == s[2])
    ensures var t := [a] + ([' '] + ([b] + rest));
            && Pairs(s, a, b) == 1 + Pairs(s[2..], a, b)
            && Pairs(t, b, a) - Pairs(rest, b, a) == Pairs(s, b, a) - Pairs(s[2..], b, a)
  {
    assert s == [a] + ([b] + s[2..]);
    PairsOfPrefixed(b, s[2..], a, b);
    PairsOfPrefixed(a, [b] + s[2..], a, b);
    PairsOfPrefixed(b, s[2..], b, a);
    PairsOfPrefixed(a, [b] + s[2..], b, a);
    PairsOfPrefixed(b, rest, b, a);
    PairsOfPrefixed(' ', [b] + rest, b, a);
    PairsOfPrefixed(a, [' '] + ([b] + rest), b, a);
    hide Pairs;
  }

  /** One space is put into every pair, and no pair of the other kind is made or broken. */
  lemma {:induction false} ApartAddsOneEach(s: string, a: char, b: char)
    requires a != b && a != ' ' && b != ' '
    ensures |Apart(s, a, b)| == |s| + Pairs(s, a, b)
    ensures Pairs(Apart(s, a, b), b, a) == Pairs(s, b, a)
  {
    if |s| < 2 {
    } else if s[..2] == [a, b] {
      var rest := Apart(s[2..], a, b);
      assert s[0] == [a, b][0] && s[1] == [a, b][1];
      ApartAddsOneEach(s[2..], a, b);
      ApartFirst(s[2..], a, b);
      assert Apart(s, a, b) == [a] + ([' '] + ([b] + rest));
      hide Apart, ReplaceAll, Pairs;
      PairMoved(s, a, b, rest);
    } else {
      var rest := Apart(s[1..], a, b);
      assert s[..2] == [s[0], s[1]];
      ApartAddsOneEach(s[1..], a, b);
      ApartFirst(s[1..], a, b);
      assert Apart(s, a, b) == [s[0]] + rest;
      hide Apart, ReplaceAll;
      PairsOfPrefixed(s[0], rest, b, a);
    }
  }

  lemma PairsAfterPadding(c: string, a: char, b: char)
    requires !IsSpace(a) && !IsSpace(b)
    ensures Pairs(" " + c, a, b) == Pairs(c, a, b)
    ensures Pairs(c + " ", a, b) == Pairs(c, a, b)
  {
    PairsOfPrefixed(' ', c, a, b);
    PairsBeforeSpace(c, a, b);
  }

  lemma {:induction false} PairsBeforeSpace(c: string, a: char, b: char)
    requires b != ' '
    ensures Pairs(c + " ", a, b) == Pairs(c, a, b)
  {
    if |c| < 2 {
      if |c| == 1 {
        assert (c + " ")[1..] == " ";
      }
    } else {
      PairsBeforeSpace(c[1..], a, b);
      assert (c + " ")[1..] == c[1..] + " ";
    }
  }

  /** A sanitized comment is longer by a space at each end that had none, and by one in every marker. */
  lemma SanitizedLength(c: string)
    ensures |Sanitized(c)|
         == |c| + (if c == "" || !IsSpace(c[0]) then 1 else 0) + (if c != "" && !IsSpace(c[|c| - 1]) then 1 else 0)
            + Pairs(c, '*', '/') + Pairs(c, '/', '*')
  {
    var padded := PadEnds(c);
    var front := if c == "" || !IsSpace(c[0]) then " " + c else c;
    PairsAfterPadding(c, '*', '/');
    PairsAfterPadding(c, '/', '*');
    PairsAfterPadding(front, '*', '/');
    PairsAfterPadding(front, '/', '*');
    ApartAddsOneEach(padded, '*', '/');
    ApartAddsOneEach(Apart(padded, '*', '/'), '/', '*');
    hide Apart, Pairs;
    assert c != "" ==> front[|front| - 1] == c[|c| - 1];
  }

  /** Each comment stands between its markers, a space after the one before it, and empty ones are left out. */
  lemma OneMoreComment(comments: seq<string>, c: string)
    ensures FormatComments([]) == "" && Written(c) == "/*" + Sanitized(c) + "*/"
    ensures c == "" ==> FormatComments(comments + [c]) == FormatComments(comments)
    ensures c != "" && (forall k :: 0 <= k < |comments| ==> comments[k] == "") ==>
              FormatComments(comments + [c]) == Written(c)
    ensures c != "" && (exists k :: 0 <= k < |comments| && comments[k] != "") ==>
              FormatComments(comments + [c]) == FormatComments(comments) + " " + Written(c)
  {
    KeptAreWritten(comments);
    NothingWritten(c);
    OneMoreKept(comments, c);
    hide Sanitized, Joined, Written, Kept;
    if c != "" {
      JoinedGrows(Kept(comments), c);
    }
  }

  lemma OneMoreKept(comments: seq<string>, c: string)
    ensures Kept(comments + [c]) == Kept(comments) + if c == "" then [] else [c]
    ensures c == "" ==> Kept(comments + [c]) == Kept(comments)
  {
    assert (comments + [c])[..|comments|] == comments;
  }

  lemma NothingWritten(c: string)
    ensures FormatComments([]) == "" && Joined([]) == "" && Written(c) == "/*" + Sanitized(c) + "*/"
  {
    hide Sanitized;
  }

  lemma {:induction false} KeptAreWritten(comments: seq<string>)
    ensures Kept(comments) == [] <==> forall k :: 0 <= k < |comments| ==> comments[k] == ""
  {
    if comments == [] {
    } else {
      var front := comments[..|comments| - 1];
      KeptAreWritten(front);
      assert forall k :: 0 <= k < |front| ==> front[k] == comments[k];
      assert |Kept(comments)| == |Kept(front)| + if comments[|comments| - 1] == "" then 0 else 1;
    }
  }
}
