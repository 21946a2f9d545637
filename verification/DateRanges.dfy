/**
 mergeDateRanges (sqlglot/date_trunc.go): an in-place insertion sort of a
 copied slice, then one pass that widens the last merged range or starts a new
 one. The result covers what the input covers and is the only gapped list
 that does.
 */
module DateRanges {
  import opened Calendar
  import opened DateTrunc

  ghost predicate Covered(t: Instant, ranges: seq<DateRange>) {
    exists r :: r in ranges && InRange(t, r)
  }

  predicate NonEmpty(r: DateRange) {
    Before(r.low, r.high)
  }

  /** Sorted, with a strict gap between neighbours. */
  predicate Gapped(ranges: seq<DateRange>) {
    forall i :: 0 < i < |ranges| ==> Before(ranges[i - 1].high, ranges[i].low)
  }

  ghost predicate SameCover(a: seq<DateRange>, b: seq<DateRange>) {
    forall t: Instant :: Covered(t, a) <==> Covered(t, b)
  }

  /** Every bound of the merged list is a bound of the input. */
  ghost predicate BoundsFrom(merged: seq<DateRange>, ranges: seq<DateRange>) {
    forall m :: m in merged ==> (exists r :: r in ranges && r.low == m.low) && (exists r :: r in ranges && r.high == m.high)
  }

  ghost predicate IsMerged(merged: seq<DateRange>, ranges: seq<DateRange>) {
    && SameCover(merged, ranges)
    && Gapped(merged)
    && BoundsFrom(merged, ranges)
    && ((forall r :: r in ranges ==> NonEmpty(r)) ==> forall r :: r in merged ==> NonEmpty(r))
    && (ranges != [] ==> merged != [])
  }

  predicate SortedByLow(s: seq<DateRange>) {
    forall i, j :: 0 <= i < j < |s| ==> !Before(s[j].low, s[i].low)
  }

  method SwapWithPrevious(a: array<DateRange>, j: nat)
    requires 0 < j < a.Length
    modifies a
    ensures a[..] == old(a[..])[j := old(a[j - 1])][j - 1 := old(a[j])]
    ensures multiset(a[..]) == multiset(old(a[..]))
  {
    a[j], a[j - 1] := a[j - 1], a[j];
  }

  /** The insertion sort mergeDateRanges runs in place on its copy. */
  method SortByLow(a: array<DateRange>)
    requires a.Length > 0
    modifies a
    ensures SortedByLow(a[..])
    ensures multiset(a[..]) == multiset(old(a[..]))
  {
    for i := 1 to a.Length
      invariant forall p, q :: 0 <= p < q < i ==> !Before(a[q].low, a[p].low)
      invariant multiset(a[..]) == multiset(old(a[..]))
    {
      var j := i;
      while j > 0 && Before(a[j].low, a[j - 1].low)
        invariant 0 <= j <= i
        invariant forall p, q :: 0 <= p < q <= i && q != j ==> !Before(a[q].low, a[p].low)
        invariant multiset(a[..]) == multiset(old(a[..]))
      {
        ghost var was := a[..];
        SwapWithPrevious(a, j);
        assert forall p :: 0 <= p < a.Length && p != j && p != j - 1 ==> a[p] == was[p];
        j := j - 1;
      }
    }
  }

  /** The merged list after one more range: widened or longer. */
  function Absorb(merged: seq<DateRange>, r: DateRange): seq<DateRange>
    requires merged != []
  {
    var last := merged[|merged| - 1];
    if Before(last.high, r.low) then merged + [r]
    else if Before(last.high, r.high) then merged[..|merged| - 1] + [DateRange(last.low, r.high)]
    else merged
  }

  /** One step of the merging pass keeps the cover. */
  lemma AbsorbCovers(done: seq<DateRange>, r: DateRange, merged: seq<DateRange>)
    requires merged != []
    requires SameCover(merged, done)
    requires !Before(r.low, merged[|merged| - 1].low)
    ensures SameCover(Absorb(merged, r), done + [r])
  {
    var last := merged[|merged| - 1];
    var front := merged[..|merged| - 1];
    var next := Absorb(merged, r);
    assert merged == front + [last];
    forall t: Instant
      ensures Covered(t, next) <==> Covered(t, done + [r])
    {
      CoverSplits(t, done, [r]);
      CoverSplits(t, front, [last]);
      CoverSplits(t, merged, [r]);
      CoverSplits(t, front, [DateRange(last.low, r.high)]);
    }
  }

  lemma AbsorbBounds(merged: seq<DateRange>, r: DateRange, ranges: seq<DateRange>)
    requires merged != [] && r in ranges && BoundsFrom(merged, ranges)
    ensures BoundsFrom(Absorb(merged, r), ranges)
  {
    hide Before;
    assert merged[|merged| - 1] in merged;
  }

  lemma AbsorbKeeps(merged: seq<DateRange>, r: DateRange)
    requires merged != [] && Gapped(merged)
    ensures Gapped(Absorb(merged, r))
    ensures (forall m :: m in merged ==> NonEmpty(m)) && NonEmpty(r) ==> forall m :: m in Absorb(merged, r) ==> NonEmpty(m)
    ensures var next := Absorb(merged, r);
            next[|next| - 1].low == r.low || next[|next| - 1].low == merged[|merged| - 1].low
  {
    assert merged[|merged| - 1] in merged;
  }

  lemma CoverSplits(t: Instant, a: seq<DateRange>, b: seq<DateRange>)
    ensures Covered(t, a + b) <==> Covered(t, a) || Covered(t, b)
    ensures |b| == 1 ==> (Covered(t, b) <==> InRange(t, b[0]))
  {
    if Covered(t, a) {
      var r :| r in a && InRange(t, r);
      assert r in a + b;
    }
    if Covered(t, b) {
      var r :| r in b && InRange(t, r);
      assert r in a + b;
    }
    if |b| == 1 && InRange(t, b[0]) {
      assert b[0] in b;
    }
  }

  lemma SameMembersCoverAlike(a: seq<DateRange>, b: seq<DateRange>)
    requires multiset(a) == multiset(b)
    ensures SameCover(a, b)
    ensures forall m :: BoundsFrom(m, a) ==> BoundsFrom(m, b)
    ensures (forall r :: r in a ==> NonEmpty(r)) <==> (forall r :: r in b ==> NonEmpty(r))
  {
    assert forall r :: r in a <==> r in multiset(a);
    assert forall r :: r in b <==> r in multiset(b);
  }

  /** The merging pass over the sorted ranges. */
  method MergeSorted(sorted: seq<DateRange>) returns (merged: seq<DateRange>)
    requires sorted != [] && SortedByLow(sorted)
    ensures IsMerged(merged, sorted)
  {
    hide Covered, Gapped, BoundsFrom, NonEmpty, Before;
    merged := [sorted[0]];
    FirstIsMerged(sorted);
    for i := 1 to |sorted|
      invariant merged != [] && Gapped(merged) && BoundsFrom(merged, sorted)
      invariant !Before(sorted[i - 1].low, merged[|merged| - 1].low)
      invariant SameCover(merged, sorted[..i])
      invariant (forall r :: r in sorted ==> NonEmpty(r)) ==> forall r :: r in merged ==> NonEmpty(r)
    {
      var r := sorted[i];
      var last := merged[|merged| - 1];
      assert sorted[..i + 1] == sorted[..i] + [r];
      LowsAscend(sorted[i - 1], r, last);
      AbsorbCovers(sorted[..i], r, merged);
      AbsorbBounds(merged, r, sorted);
      AbsorbKeeps(merged, r);
      NotBeforeItself(r.low);
      if !Before(last.high, r.low) {
        if Before(last.high, r.high) {
          merged := merged[..|merged| - 1] + [DateRange(last.low, r.high)];
        }
      } else {
        merged := merged + [r];
      }
    }
    assert sorted[..|sorted|] == sorted;
  }

  lemma FirstIsMerged(sorted: seq<DateRange>)
    requires sorted != []
    ensures Gapped([sorted[0]]) && BoundsFrom([sorted[0]], sorted)
    ensures SameCover([sorted[0]], sorted[..1]) && !Before(sorted[0].low, sorted[0].low)
  {
    assert sorted[..1] == [sorted[0]];
    assert sorted[0] in sorted;
  }

  lemma LowsAscend(a: DateRange, b: DateRange, last: DateRange)
    ensures !Before(b.low, a.low) && !Before(a.low, last.low) ==> !Before(b.low, last.low)
  {
  }

  lemma NotBeforeItself(t: Instant)
    ensures !Before(t, t)
  {
  }

  /** mergeDateRanges. */
  method MergeDateRanges(ranges: seq<DateRange>) returns (merged: seq<DateRange>)
    ensures IsMerged(merged, ranges)
  {
    if |ranges| == 0 {
      return [];
    }
    var copied := new DateRange[|ranges|](i requires 0 <= i < |ranges| => ranges[i]);
    assert copied[..] == ranges;
    SortByLow(copied);
    merged := MergeSorted(copied[..]);
    SameMembersCoverAlike(copied[..], ranges);
  }

  // -------------------------------------------------------------- canonicity

  lemma GappedOrder(a: seq<DateRange>, i: nat, j: nat)
    requires Gapped(a) && (forall r :: r in a ==> NonEmpty(r)) && i < j < |a|
    ensures Before(a[i].high, a[j].low)
    decreases j - i
  {
    if i + 1 == j {
    } else {
      GappedOrder(a, i, j - 1);
      assert NonEmpty(a[j - 1]);
    }
  }

  lemma HeadBounds(a: seq<DateRange>)
    requires a != [] && Gapped(a) && forall r :: r in a ==> NonEmpty(r)
    ensures Covered(a[0].low, a) && !Covered(a[0].high, a)
    ensures forall t: Instant :: Covered(t, a) ==> !Before(t, a[0].low)
    ensures forall t: Instant :: Covered(t, a[1..]) <==> Covered(t, a) && !Before(t, a[0].high)
  {
    assert a[0] in a && NonEmpty(a[0]) && InRange(a[0].low, a[0]);
    assert a == [a[0]] + a[1..];
    forall t: Instant | Covered(t, a)
      ensures !Before(t, a[0].low)
      ensures t != a[0].high
      ensures Covered(t, a[1..]) <==> !Before(t, a[0].high)
    {
      TailBeyondHead(t, a);
      var r :| r in a && InRange(t, r);
      var j :| 0 <= j < |a| && a[j] == r;
      if j > 0 {
        GappedOrder(a, 0, j);
        assert r == a[1..][j - 1];
      }
    }
    forall t: Instant | Covered(t, a[1..])
      ensures Covered(t, a) && !Before(t, a[0].high)
    {
      TailBeyondHead(t, a);
    }
  }

  lemma TailBeyondHead(t: Instant, a: seq<DateRange>)
    requires a != [] && Gapped(a) && forall r :: r in a ==> NonEmpty(r)
    ensures Covered(t, a[1..]) ==> Covered(t, a) && Before(a[0].high, t)
  {
    if Covered(t, a[1..]) {
      var r :| r in a[1..] && InRange(t, r);
      var j :| 0 <= j < |a| - 1 && a[1..][j] == r;
      GappedOrder(a, 0, j + 1);
      assert r == a[j + 1];
    }
  }

  /** Two gapped lists that cover the same instants are one list: order and overlap of the input cannot show. */
  lemma {:induction false} MergedIsCanonical(a: seq<DateRange>, b: seq<DateRange>)
    requires Gapped(a) && Gapped(b) && SameCover(a, b)
    requires (forall r :: r in a ==> NonEmpty(r)) && (forall r :: r in b ==> NonEmpty(r))
    ensures a == b
  {
    if a == [] || b == [] {
      if a != [] {
        HeadBounds(a);
      }
      if b != [] {
        HeadBounds(b);
      }
    } else {
      HeadBounds(a);
      HeadBounds(b);
      SameHead(a, b);
      MergedIsCanonical(a[1..], b[1..]);
      assert a == [a[0]] + a[1..] && b == [b[0]] + b[1..];
    }
  }

  lemma SameHead(a: seq<DateRange>, b: seq<DateRange>)
    requires a != [] && b != [] && Gapped(a) && Gapped(b) && SameCover(a, b)
    requires (forall r :: r in a ==> NonEmpty(r)) && (forall r :: r in b ==> NonEmpty(r))
    ensures a[0] == b[0]
  {
    HeadBounds(a);
    HeadBounds(b);
    var ra, rb := a[0], b[0];
    assert ra in a && rb in b && ra.low == rb.low;
    assert Before(ra.high, rb.high) ==> InRange(ra.high, rb);
    assert Before(rb.high, ra.high) ==> InRange(rb.high, ra);
  }
}
