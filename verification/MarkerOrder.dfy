/**
 The comment and quote tables are maps, and a map is walked in any order
 (sortedComments and sortedQuotes in sqlglot/anonymize.go). Sorting them by the
 length of their openers is enough for the order not to show.
 */
module MarkerOrder {
  import opened Options
  import opened Runes
  import opened CommentScan

  predicate LongestFirst(ms: seq<Marker>) {
    forall i, j :: 0 <= i < j < |ms| ==> |ms[i].open| >= |ms[j].open|
  }

  /** Longest opener first, and then longest closer. */
  predicate LongestPairFirst(ms: seq<Marker>) {
    forall i, j :: 0 <= i < j < |ms| ==> !Before(ms[j], ms[i])
  }

  /** The comparison sortedQuotes sorts by. */
  predicate Before(a: Marker, b: Marker) {
    if |a.open| != |b.open| then |a.open| > |b.open| else |a.close| > |b.close|
  }

  /** The markers of a table, each once. */
  ghost predicate Lists(ms: seq<Marker>, table: map<string, string>) {
    && |ms| == |table|
    && forall m: Marker :: m in ms <==> m.open in table && table[m.open] == m.close
  }

  predicate OpenersDiffer(ms: seq<Marker>) {
    forall a, b :: a in ms && b in ms && a.open == b.open ==> a == b
  }

  ghost predicate SameMarkers(a: seq<Marker>, b: seq<Marker>) {
    forall m: Marker :: m in a <==> m in b
  }

  lemma {:induction false} OpenerIsLongest(s: string, i: nat, ms: seq<Marker>)
    requires LongestFirst(ms)
    ensures var r := Opener(s, i, ms);
            r.Some? ==> forall c :: c in ms && HasPrefixAt(s, c.open, i) ==> |c.open| <= |r.value.open|
  {
    hide HasPrefixAt;
    if ms == [] || HasPrefixAt(s, ms[0].open, i) {
    } else {
      OpenerIsLongest(s, i, ms[1..]);
    }
  }

  lemma SamePrefix(s: string, i: nat, a: string, b: string)
    requires HasPrefixAt(s, a, i) && HasPrefixAt(s, b, i) && |a| == |b|
    ensures a == b
  {
  }

  lemma OpenersAgree(s: string, i: nat, a: seq<Marker>, b: seq<Marker>)
    requires LongestFirst(a) && LongestFirst(b) && OpenersDiffer(a) && SameMarkers(a, b)
    ensures Opener(s, i, a) == Opener(s, i, b)
  {
    hide HasPrefixAt, LongestFirst;
    OpenerIsLongest(s, i, a);
    OpenerIsLongest(s, i, b);
    var ra, rb := Opener(s, i, a), Opener(s, i, b);
    if ra.Some? && rb.Some? {
      SamePrefix(s, i, ra.value.open, rb.value.open);
    }
  }

  lemma OpenerFits(s: string, i: nat, ms: seq<Marker>)
    requires NonEmptyOpeners(ms)
    ensures var r := Opener(s, i, ms);
            r.Some? ==> r.value.open != "" && i + |r.value.open| <= |s|
  {
  }

  lemma {:induction false} RedactFromAgrees(s: string, i: nat, a: seq<Marker>, b: seq<Marker>, nested: bool)
    requires i <= |s| && NonEmptyOpeners(a) && NonEmptyOpeners(b)
    requires LongestFirst(a) && LongestFirst(b) && OpenersDiffer(a) && SameMarkers(a, b)
    ensures RedactFrom(s, i, a, nested) == RedactFrom(s, i, b, nested)
    decreases |s| - i
  {
    hide BlankComment, Opener, LongestFirst, OpenersDiffer, SameMarkers, IsSpace, HasPrefixAt, NonEmptyOpeners;
    if i == |s| {
    } else {
      OpenersAgree(s, i, a, b);
      OpenerFits(s, i, a);
      match Opener(s, i, a)
      case Some(m) =>
        var (_, next) := BlankComment(s, i, m.open, m.close, nested);
        RedactFromAgrees(s, next, a, b, nested);
      case None => RedactFromAgrees(s, i + 1, a, b, nested);
    }
  }

  /** Redaction is the same for every order of the comment table that puts longer openers first. */
  lemma RedactIgnoresOrder(s: string, a: seq<Marker>, b: seq<Marker>, nested: bool)
    requires NonEmptyOpeners(a) && NonEmptyOpeners(b)
    requires LongestFirst(a) && LongestFirst(b) && OpenersDiffer(a) && SameMarkers(a, b)
    ensures Redact(s, a, nested) == Redact(s, b, nested)
  {
    hide RedactFrom;
    if !AllSpace(s) {
      RedactFromAgrees(s, 0, a, b, nested);
    }
  }

  // ------------------------------------------------------------------ as it runs

  /** The entries of a table in whatever order the map gives them. */
  method Entries(table: map<string, string>) returns (out: seq<Marker>)
    ensures Lists(out, table)
  {
    out := [];
    var left := table.Keys;
    while left != {}
      invariant left <= table.Keys && |out| + |left| == |table|
      invariant forall m: Marker :: m in out <==> m.open in table && m.open !in left && table[m.open] == m.close
      decreases |left|
    {
      var key :| key in left;
      out := out + [Marker(key, table[key])];
      left := left - {key};
    }
  }

  function Insert(m: Marker, ms: seq<Marker>): (r: seq<Marker>)
    ensures multiset(r) == multiset([m]) + multiset(ms)
  {
    assert ms != [] ==> ms == [ms[0]] + ms[1..];
    if ms == [] then [m]
    else if Before(m, ms[0]) then [m] + ms
    else [ms[0]] + Insert(m, ms[1..])
  }

  lemma {:induction false} InsertKeepsSorted(m: Marker, ms: seq<Marker>)
    requires LongestPairFirst(ms)
    ensures LongestPairFirst(Insert(m, ms))
  {
    if ms == [] {
    } else if Before(m, ms[0]) {
      assert ms == [ms[0]] + ms[1..];
    } else {
      InsertKeepsSorted(m, ms[1..]);
      var rest := Insert(m, ms[1..]);
      forall j | 0 <= j < |rest| ensures !Before(rest[j], ms[0]) {
        assert rest[j] in multiset([m]) + multiset(ms[1..]);
      }
    }
  }

  /** sort.Slice, for one of the orders it may leave. */
  method Sort(ms: seq<Marker>) returns (out: seq<Marker>)
    ensures LongestPairFirst(out) && multiset(out) == multiset(ms)
  {
    hide LongestPairFirst;
    out := [];
    assert LongestPairFirst([]) by {
      NothingToSort();
    }
    for k := 0 to |ms|
      invariant LongestPairFirst(out)
      invariant multiset(out) == multiset(ms[..k])
    {
      InsertKeepsSorted(ms[k], out);
      assert ms[..k + 1] == ms[..k] + [ms[k]];
      out := Insert(ms[k], out);
    }
    assert ms[..|ms|] == ms;
  }

  lemma NothingToSort()
    ensures LongestPairFirst([])
  {
  }

  lemma SortedLists(entries: seq<Marker>, out: seq<Marker>, table: map<string, string>)
    requires Lists(entries, table) && LongestPairFirst(out) && multiset(out) == multiset(entries)
    ensures LongestFirst(out) && Lists(out, table)
  {
    assert |out| == |multiset(out)| && |entries| == |multiset(entries)|;
    forall m: Marker ensures m in out <==> m in entries {
      assert m in out <==> m in multiset(out);
    }
  }

  /** sortedComments. */
  method SortedComments(table: map<string, string>) returns (out: seq<Marker>)
    ensures LongestFirst(out) && Lists(out, table)
  {
    var entries := Entries(table);
    out := Sort(entries);
    SortedLists(entries, out, table);
  }

  /** sortedQuotes: string quotes, then format-string openers, then identifier quotes, the later ones winning. */
  method SortedQuotes(quotes: map<string, string>, formats: map<string, string>, identifiers: map<string, string>)
    returns (out: seq<Marker>)
    ensures LongestPairFirst(out) && LongestFirst(out) && Lists(out, quotes + formats + identifiers)
  {
    var merged := quotes + formats + identifiers;
    var entries := Entries(merged);
    out := Sort(entries);
    SortedLists(entries, out, merged);
  }

  /** Any two lists of one table agree on everything they are used for. */
  lemma ListsOfOneTable(a: seq<Marker>, b: seq<Marker>, table: map<string, string>)
    requires Lists(a, table) && Lists(b, table)
    ensures SameMarkers(a, b) && OpenersDiffer(a) && OpenersDiffer(b)
  {
  }
}
