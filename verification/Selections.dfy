/** Multi-cursor selections: arbitrary byte ranges become an ordered list of
    disjoint, character-aligned ones. */
module Selections {
  import opened Seqs
  import opened Utf8
  import opened Sorting

  datatype Range = Range(start: nat, end: nat) {
    predicate Contains(k: nat) { start <= k < end }
    predicate IsEmpty() { start >= end }
    predicate Straddles(p: nat) { start < p < end }
    predicate Reaches(p: nat) { start < p <= end }
  }

  predicate RangeLe(a: Range, b: Range) {
    a.start < b.start || (a.start == b.start && a.end <= b.end)
  }

  ghost predicate Covers(ranges: seq<Range>, k: nat) {
    exists i :: 0 <= i < |ranges| && ranges[i].Contains(k)
  }

  ghost predicate Straddled(ranges: seq<Range>, p: nat) {
    exists i :: 0 <= i < |ranges| && ranges[i].Straddles(p)
  }

  ghost predicate Reached(ranges: seq<Range>, p: nat) {
    exists i :: 0 <= i < |ranges| && ranges[i].Reaches(p)
  }

  // ----- the operation

  ghost predicate IsAligned(content: seq<byte>, r: Range) {
    r.start <= r.end <= |content| && IsBoundary(content, r.start) && IsBoundary(content, r.end)
  }

  function Align(content: seq<byte>, r: Range): (a: Range)
    ensures IsAligned(content, a)
  {
    var (lo, hi) := if r.start <= r.end then (r.start, r.end) else (r.end, r.start);
    FloorMonotone(content, lo, hi);
    Range(Floor(content, lo), Floor(content, hi))
  }

  function AlignAll(content: seq<byte>, ranges: seq<Range>): seq<Range> {
    if ranges == [] then [] else [Align(content, ranges[0])] + AlignAll(content, ranges[1..])
  }

  lemma {:induction false} AlignAllAligns(content: seq<byte>, ranges: seq<Range>)
    ensures |AlignAll(content, ranges)| == |ranges| && Aligned(content, AlignAll(content, ranges))
    ensures forall i | 0 <= i < |ranges| :: AlignAll(content, ranges)[i] == Align(content, ranges[i])
  {
    if ranges != [] {
      AlignAllAligns(content, ranges[1..]);
    }
  }

  /** When the next range in order joins the last one kept. */
  predicate Joins(last: Range, r: Range) {
    r.start < last.end || r == last || (r.IsEmpty() && r.start == last.end)
  }

  function Absorb(kept: seq<Range>, r: Range): seq<Range> {
    if kept != [] && Joins(kept[|kept| - 1], r) then
      var last := kept[|kept| - 1];
      kept[|kept| - 1 := Range(last.start, if last.end < r.end then r.end else last.end)]
    else
      kept + [r]
  }

  function AbsorbAll(kept: seq<Range>, ranges: seq<Range>): seq<Range>
    decreases |ranges|
  {
    if ranges == [] then kept else AbsorbAll(Absorb(kept, ranges[0]), ranges[1..])
  }

  function Normalized(content: seq<byte>, ranges: seq<Range>): seq<Range> {
    AbsorbAll([], StableSort(AlignAll(content, ranges), RangeLe))
  }

  /** The source's loop over the sorted ranges, updating the last kept range in place. */
  method NormalizeSelections(content: seq<byte>, ranges: seq<Range>) returns (result: seq<Range>)
    ensures result == Normalized(content, ranges)
    ensures Canonical(result) && Aligned(content, result)
    ensures ranges != [] ==> result != []
  {
    var sorted := StableSort(AlignAll(content, ranges), RangeLe);
    result := [];
    for i := 0 to |sorted|
      invariant AbsorbAll(result, sorted[i..]) == Normalized(content, ranges)
    {
      var range := sorted[i];
      assert sorted[i..][1..] == sorted[i + 1..];
      if result != [] && Joins(result[|result| - 1], range) {
        var last := result[|result| - 1];
        result := result[|result| - 1 := last.(end := if last.end < range.end then range.end else last.end)];
      } else {
        result := result + [range];
      }
    }
    NormalizedIsCanonical(content, ranges);
  }

  // ----- what a normalised list looks like

  /** Ordered and disjoint. A caret may touch the start of the next range, never the end of the one before. */
  ghost predicate Canonical(ranges: seq<Range>) {
    && (forall i | 0 <= i < |ranges| :: ranges[i].start <= ranges[i].end)
    && (forall i, j | 0 <= i < j < |ranges| :: ranges[i].end <= ranges[j].start)
    && (forall i, j | 0 <= i < j < |ranges| && ranges[j].IsEmpty() :: ranges[i].end < ranges[j].start)
  }

  ghost predicate Aligned(content: seq<byte>, ranges: seq<Range>) {
    forall i | 0 <= i < |ranges| :: IsAligned(content, ranges[i])
  }

  ghost predicate Follows(kept: seq<Range>, ranges: seq<Range>) {
    kept != [] ==> forall i | 0 <= i < |ranges| :: kept[|kept| - 1].start <= ranges[i].start
  }

  lemma AbsorbCanonical(kept: seq<Range>, r: Range)
    requires Canonical(kept) && r.start <= r.end
    requires kept != [] ==> kept[|kept| - 1].start <= r.start
    ensures Canonical(Absorb(kept, r))
  {
    var next, n := Absorb(kept, r), |kept|;
    if n > 0 && Joins(kept[n - 1], r) {
      assert forall i | 0 <= i < n - 1 :: next[i] == kept[i];
      assert next[n - 1].start == kept[n - 1].start && kept[n - 1].end <= next[n - 1].end;
      assert next[n - 1].IsEmpty() ==> kept[n - 1].IsEmpty();
    } else {
      assert forall i | 0 <= i < n :: next[i] == kept[i];
      forall i | 0 <= i < n
        ensures kept[i].end <= r.start && (r.IsEmpty() ==> kept[i].end < r.start)
      {
        assert kept[i].end <= kept[n - 1].end;
      }
    }
  }

  lemma AbsorbShape(content: seq<byte>, kept: seq<Range>, ranges: seq<Range>)
    requires ranges != [] && Sorted(ranges, RangeLe) && Aligned(content, ranges)
    requires Canonical(kept) && Aligned(content, kept) && Follows(kept, ranges)
    ensures var next := Absorb(kept, ranges[0]);
            next != [] && Canonical(next) && Aligned(content, next) && Follows(next, ranges[1..])
  {
    assert IsAligned(content, ranges[0]);
    AbsorbCanonical(kept, ranges[0]);
    forall i | 0 <= i < |ranges[1..]| ensures ranges[0].start <= ranges[1..][i].start {
      assert RangeLe(ranges[0], ranges[i + 1]);
    }
    if kept != [] {
      assert IsAligned(content, kept[|kept| - 1]);
    }
  }

  lemma AbsorbMarks(kept: seq<Range>, r: Range, k: nat)
    requires kept != [] ==> kept[|kept| - 1].start <= r.start
    ensures Covers(Absorb(kept, r), k) <==> Covers(kept, k) || r.Contains(k)
    ensures Straddled(Absorb(kept, r), k) <==> Straddled(kept, k) || r.Straddles(k)
    ensures Reached(Absorb(kept, r), k) <==> Reached(kept, k) || r.Reaches(k)
  {
    var next, n := Absorb(kept, r), |kept|;
    var m := |next| - 1;
    assert forall i | 0 <= i < n ::
             && (kept[i].Contains(k) ==> next[i].Contains(k))
             && (kept[i].Straddles(k) ==> next[i].Straddles(k))
             && (kept[i].Reaches(k) ==> next[i].Reaches(k));
    assert r.Contains(k) ==> next[m].Contains(k);
    assert r.Straddles(k) ==> next[m].Straddles(k);
    assert r.Reaches(k) ==> next[m].Reaches(k);
    assert forall i | 0 <= i < m :: next[i] == kept[i];
    assert m < n ==>
             && (next[m].Contains(k) ==> kept[m].Contains(k) || r.Contains(k))
             && (next[m].Straddles(k) ==> kept[m].Straddles(k) || r.Straddles(k))
             && (next[m].Reaches(k) ==> kept[m].Reaches(k) || r.Reaches(k));
  }

  lemma ConsMarks(ranges: seq<Range>, k: nat)
    requires ranges != []
    ensures Covers(ranges, k) <==> ranges[0].Contains(k) || Covers(ranges[1..], k)
    ensures Straddled(ranges, k) <==> ranges[0].Straddles(k) || Straddled(ranges[1..], k)
    ensures Reached(ranges, k) <==> ranges[0].Reaches(k) || Reached(ranges[1..], k)
  {
    var rest := ranges[1..];
    assert forall i | 0 < i < |ranges| :: ranges[i] == rest[i - 1];
    assert forall i | 0 <= i < |rest| :: rest[i] == ranges[i + 1];
  }

  lemma {:induction false} AbsorbAllShape(content: seq<byte>, kept: seq<Range>, ranges: seq<Range>)
    requires Sorted(ranges, RangeLe) && Aligned(content, ranges)
    requires Canonical(kept) && Aligned(content, kept) && Follows(kept, ranges)
    ensures var all := AbsorbAll(kept, ranges);
            Canonical(all) && Aligned(content, all) && (kept != [] || ranges != [] ==> all != [])
    decreases |ranges|
  {
    if ranges != [] {
      AbsorbShape(content, kept, ranges);
      AbsorbAllShape(content, Absorb(kept, ranges[0]), ranges[1..]);
    }
  }

  lemma {:induction false} AbsorbAllMarks(kept: seq<Range>, ranges: seq<Range>, k: nat)
    requires Sorted(ranges, RangeLe) && Follows(kept, ranges)
    ensures Covers(AbsorbAll(kept, ranges), k) <==> Covers(kept, k) || Covers(ranges, k)
    ensures Straddled(AbsorbAll(kept, ranges), k) <==> Straddled(kept, k) || Straddled(ranges, k)
    ensures Reached(AbsorbAll(kept, ranges), k) <==> Reached(kept, k) || Reached(ranges, k)
    decreases |ranges|
  {
    if ranges != [] {
      ConsMarks(ranges, k);
      AbsorbMarks(kept, ranges[0], k);
      AbsorbAllMarks(Absorb(kept, ranges[0]), ranges[1..], k);
    }
  }

  /** In key order a caret comes before the ranges that start where it stands. */
  ghost predicate CaretsFirst(kept: seq<Range>, ranges: seq<Range>) {
    kept != [] && !kept[|kept| - 1].IsEmpty() ==>
      forall i | 0 <= i < |ranges| :: ranges[i].start == kept[|kept| - 1].start ==> !ranges[i].IsEmpty()
  }

  lemma AbsorbOrder(kept: seq<Range>, ranges: seq<Range>)
    requires ranges != [] && Sorted(ranges, RangeLe) && Follows(kept, ranges) && CaretsFirst(kept, ranges)
    ensures var next := Absorb(kept, ranges[0]);
            Sorted(ranges[1..], RangeLe) && Follows(next, ranges[1..]) && CaretsFirst(next, ranges[1..])
  {
    forall i | 0 <= i < |ranges[1..]| ensures RangeLe(ranges[0], ranges[1..][i]) {
      assert ranges[1..][i] == ranges[i + 1];
    }
  }

  lemma {:induction false} AbsorbAllCarets(kept: seq<Range>, ranges: seq<Range>, c: nat)
    requires Sorted(ranges, RangeLe) && Follows(kept, ranges) && CaretsFirst(kept, ranges) && Canonical(kept)
    requires forall i | 0 <= i < |ranges| :: ranges[i].start <= ranges[i].end
    ensures Range(c, c) in AbsorbAll(kept, ranges)
       <==> (Range(c, c) in kept || Range(c, c) in ranges) && !Reached(kept, c) && !Reached(ranges, c)
    decreases |ranges|
  {
    if ranges != [] {
      var r, next, rest := ranges[0], Absorb(kept, ranges[0]), ranges[1..];
      AbsorbOrder(kept, ranges);
      AbsorbCanonical(kept, r);
      AbsorbAllCarets(next, rest, c);
      AbsorbMarks(kept, r, c);
      ConsMarks(ranges, c);
      AbsorbCaret(kept, r, c);
      ConsMember(ranges, Range(c, c));
    }
  }

  lemma ConsMember<T>(s: seq<T>, x: T)
    requires s != []
    ensures x in s <==> x == s[0] || x in s[1..]
  {
    assert s == [s[0]] + s[1..];
  }

  lemma AbsorbCaret(kept: seq<Range>, r: Range, c: nat)
    requires Canonical(kept) && r.start <= r.end
    requires kept != [] ==> kept[|kept| - 1].start <= r.start
    requires kept != [] && kept[|kept| - 1].start == r.start == r.end ==> kept[|kept| - 1].IsEmpty()
    ensures !Reached(kept, c) && !r.Reaches(c) ==>
              (Range(c, c) in Absorb(kept, r) <==> Range(c, c) in kept || Range(c, c) == r)
  {
    var next, n := Absorb(kept, r), |kept|;
    if !Reached(kept, c) && !r.Reaches(c) {
      assert forall i | 0 <= i < n :: !kept[i].Reaches(c);
      if i :| 0 <= i < n && kept[i] == Range(c, c) {
        assert next[i] == Range(c, c);
      }
      if r == Range(c, c) {
        assert next[|next| - 1] == Range(c, c);
      }
      if i :| 0 <= i < |next| && next[i] == Range(c, c) {
        assert i < n ==> kept[i] == Range(c, c);
      }
    }
  }

  lemma PermutedMarks(a: seq<Range>, b: seq<Range>, k: nat)
    requires multiset(a) == multiset(b)
    ensures Covers(a, k) ==> Covers(b, k)
    ensures Straddled(a, k) ==> Straddled(b, k)
    ensures Reached(a, k) ==> Reached(b, k)
    ensures Range(k, k) in a ==> Range(k, k) in b
  {
    forall i | 0 <= i < |a| ensures a[i] in b {
      assert a[i] in multiset(b);
    }
  }

  lemma SortedAligned(content: seq<byte>, ranges: seq<Range>)
    ensures var sorted := StableSort(AlignAll(content, ranges), RangeLe);
            Sorted(sorted, RangeLe) && Aligned(content, sorted) && |sorted| == |ranges|
  {
    var a := AlignAll(content, ranges);
    var sorted := StableSort(a, RangeLe);
    AlignAllAligns(content, ranges);
    SortSorts(a, RangeLe);
    SortPermutes(a, RangeLe);
    forall i | 0 <= i < |sorted| ensures IsAligned(content, sorted[i]) {
      assert sorted[i] in multiset(a);
      var j :| 0 <= j < |a| && a[j] == sorted[i];
    }
  }

  lemma NormalizedIsCanonical(content: seq<byte>, ranges: seq<Range>)
    ensures Canonical(Normalized(content, ranges))
    ensures Aligned(content, Normalized(content, ranges))
    ensures ranges != [] ==> Normalized(content, ranges) != []
  {
    SortedAligned(content, ranges);
    AbsorbAllShape(content, [], StableSort(AlignAll(content, ranges), RangeLe));
  }

  /** What is selected: no byte is lost or gained, two bytes are in one output range only if an
      input range held both, and a caret is kept unless some input range reaches it from the left. */
  lemma NormalizedMeaning(content: seq<byte>, ranges: seq<Range>, k: nat)
    ensures var (input, output) := (AlignAll(content, ranges), Normalized(content, ranges));
            && (Covers(output, k) <==> Covers(input, k))
            && (Straddled(output, k) <==> Straddled(input, k))
            && (Range(k, k) in output <==> Range(k, k) in input && !Reached(input, k))
  {
    var a := AlignAll(content, ranges);
    var sorted := StableSort(a, RangeLe);
    SortedAligned(content, ranges);
    AbsorbAllMarks([], sorted, k);
    forall i | 0 <= i < |sorted| ensures sorted[i].start <= sorted[i].end {
      assert IsAligned(content, sorted[i]);
    }
    AbsorbAllCarets([], sorted, k);
    SortPermutes(a, RangeLe);
    PermutedMarks(a, sorted, k);
    PermutedMarks(sorted, a, k);
  }

  // ----- canonical form laws

  lemma {:induction false} AbsorbAllFixed(kept: seq<Range>, ranges: seq<Range>)
    requires Canonical(kept + ranges)
    ensures AbsorbAll(kept, ranges) == kept + ranges
    decreases |ranges|
  {
    if ranges != [] {
      assert (kept + ranges)[|kept|] == ranges[0];
      if kept != [] {
        assert (kept + ranges)[|kept| - 1] == kept[|kept| - 1];
      }
      assert Absorb(kept, ranges[0]) == kept + [ranges[0]];
      assert kept + [ranges[0]] + ranges[1..] == kept + ranges;
      AbsorbAllFixed(kept + [ranges[0]], ranges[1..]);
    }
  }

  lemma {:induction false} AlignAllFixed(content: seq<byte>, ranges: seq<Range>)
    requires Aligned(content, ranges)
    ensures AlignAll(content, ranges) == ranges
  {
    if ranges != [] {
      assert IsAligned(content, ranges[0]);
      AlignAllFixed(content, ranges[1..]);
    }
  }

  lemma CanonicalSorted(ranges: seq<Range>)
    requires Canonical(ranges)
    ensures Sorted(ranges, RangeLe)
  {
  }

  lemma NormalizedIdempotent(content: seq<byte>, ranges: seq<Range>)
    ensures Normalized(content, Normalized(content, ranges)) == Normalized(content, ranges)
  {
    var n := Normalized(content, ranges);
    NormalizedIsCanonical(content, ranges);
    AlignAllFixed(content, n);
    CanonicalSorted(n);
    SortedFixed(n, RangeLe);
    assert [] + n == n;
    AbsorbAllFixed([], n);
  }

  lemma {:induction false} AlignAllConcat(content: seq<byte>, a: seq<Range>, b: seq<Range>)
    ensures AlignAll(content, a + b) == AlignAll(content, a) + AlignAll(content, b)
  {
    if a == [] {
      WithEmpty(b);
    } else {
      TailOfConcat(a, b);
      AlignAllConcat(content, a[1..], b);
      Assoc([Align(content, a[0])], AlignAll(content, a[1..]), AlignAll(content, b));
    }
  }

  lemma {:induction false} AlignPermutes(content: seq<byte>, a: seq<Range>, b: seq<Range>)
    requires multiset(a) == multiset(b)
    ensures multiset(AlignAll(content, a)) == multiset(AlignAll(content, b))
  {
    if a == [] {
      assert |multiset(b)| == 0;
    } else {
      assert a[0] in multiset(b);
      var j :| 0 <= j < |b| && b[j] == a[0];
      var before, after := b[..j], b[j + 1..];
      RestMultiset(a);
      WithoutMultiset(b, j);
      AlignPermutes(content, a[1..], before + after);
      AlignWithout(content, b, j);
    }
  }

  lemma WithoutMultiset<T>(b: seq<T>, j: nat)
    requires j < |b|
    ensures multiset(b[..j] + b[j + 1..]) == multiset(b) - multiset{b[j]}
  {
    var before, after := b[..j], b[j + 1..];
    assert b == before + ([b[j]] + after);
    assert multiset(before + after) == multiset(before) + multiset(after);
    assert multiset(before + ([b[j]] + after)) == multiset(before) + (multiset{b[j]} + multiset(after));
  }

  lemma AlignWithout(content: seq<byte>, b: seq<Range>, j: nat)
    requires j < |b|
    ensures multiset(AlignAll(content, b)) == multiset(AlignAll(content, b[..j] + b[j + 1..])) + multiset{Align(content, b[j])}
  {
    var before, after := b[..j], b[j + 1..];
    assert b == before + ([b[j]] + after);
    ConsParts(b[j], after);
    AlignAllConcat(content, before, after);
    AlignAllConcat(content, before, [b[j]] + after);
    var (x, y, z) := (AlignAll(content, before), Align(content, b[j]), AlignAll(content, after));
    assert multiset(x + ([y] + z)) == multiset(x) + (multiset{y} + multiset(z));
    assert multiset(x + z) == multiset(x) + multiset(z);
  }

  /** The order in which selections were made does not matter. */
  lemma NormalizedOrderIndependent(content: seq<byte>, a: seq<Range>, b: seq<Range>)
    requires multiset(a) == multiset(b)
    ensures Normalized(content, a) == Normalized(content, b)
  {
    var sa, sb := AlignAll(content, a), AlignAll(content, b);
    AlignPermutes(content, a, b);
    SortSorts(sa, RangeLe);
    SortSorts(sb, RangeLe);
    SortPermutes(sa, RangeLe);
    SortPermutes(sb, RangeLe);
    SortedUnique(StableSort(sa, RangeLe), StableSort(sb, RangeLe), RangeLe);
  }
}
