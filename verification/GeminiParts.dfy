/** JSON values, and the coalescing of streamed Gemini text parts. */
module GeminiParts {
  import opened Seqs

  datatype Json = Null | Bool(b: bool) | Num(n: int) | Str(s: string) | Arr(elements: seq<Json>) | Obj(fields: map<string, Json>)

  /** `value[key]`: absent members read as null. */
  function Get(v: Json, key: string): Json {
    if v.Obj? && key in v.fields then v.fields[key] else Null
  }

  predicate Has(v: Json, key: string) {
    v.Obj? && key in v.fields
  }

  function TextOr(v: Json): string {
    if v.Str? then v.s else ""
  }

  function WithField(v: Json, key: string, x: Json): Json {
    if v.Obj? then Obj(v.fields[key := x]) else v
  }

  // ----- one part at a time

  predicate IsTextPart(part: Json) {
    part.Obj? && Get(part, "text").Str?
  }

  /** Both are unsigned text parts with the same members apart from the text. */
  predicate Mergeable(previous: Json, part: Json) {
    && IsTextPart(part) && IsTextPart(previous)
    && "thoughtSignature" !in previous.fields && "thoughtSignature" !in part.fields
    && |previous.fields| == |part.fields|
    && forall key | key in part.fields && key != "text" :: key in previous.fields && previous.fields[key] == part.fields[key]
  }

  function Extended(previous: Json, part: Json): Json
    requires IsTextPart(previous) && IsTextPart(part)
  {
    WithField(previous, "text", Str(Get(previous, "text").s + Get(part, "text").s))
  }

  function Append(list: seq<Json>, part: Json): seq<Json> {
    if list != [] && Mergeable(list[|list| - 1], part) then
      list[..|list| - 1] + [Extended(list[|list| - 1], part)]
    else
      list + [part]
  }

  function AppendAll(list: seq<Json>, parts: seq<Json>): seq<Json>
    decreases |parts|
  {
    if parts == [] then list else AppendAll(Append(list, parts[0]), parts[1..])
  }

  // ----- reference: cut the flat list into maximal runs and join each run

  /** How many of `parts`, one after the other, continue a run that ends with `last`. */
  function RunLength(last: Json, parts: seq<Json>): (n: nat)
    ensures n <= |parts|
    decreases |parts|
  {
    if parts == [] || !Mergeable(last, parts[0]) then 0 else 1 + RunLength(parts[0], parts[1..])
  }

  function Joined(first: Json, rest: seq<Json>): Json
    decreases |rest|
  {
    if rest == [] || !IsTextPart(first) || !IsTextPart(rest[0]) then first else Joined(Extended(first, rest[0]), rest[1..])
  }

  function MaximalRuns(parts: seq<Json>): seq<Json>
    decreases |parts|
  {
    if parts == [] then []
    else
      var n := RunLength(parts[0], parts[1..]);
      [Joined(parts[0], parts[1..n + 1])] + MaximalRuns(parts[n + 1..])
  }

  /** Members other than the text are the same on both sides of a merge. */
  lemma MergeableSameKeys(a: Json, b: Json)
    requires Mergeable(a, b)
    ensures a.fields.Keys == b.fields.Keys
    ensures forall key | key in a.fields && key != "text" :: a.fields[key] == b.fields[key]
  {
    assert b.fields.Keys <= a.fields.Keys;
    SubsetOfSameSize(b.fields.Keys, a.fields.Keys);
  }

  lemma SubsetOfSameSize<T>(a: set<T>, b: set<T>)
    requires a <= b && |a| == |b|
    ensures a == b
  {
    assert b == a + (b - a);
    assert |b - a| == 0;
  }

  lemma ExtendedKeepsShape(a: Json, b: Json, x: Json)
    requires Mergeable(a, b)
    ensures Mergeable(Extended(a, b), x) <==> Mergeable(b, x)
  {
    MergeableSameKeys(a, b);
    assert Extended(a, b).fields.Keys == a.fields.Keys;
    assert |Extended(a, b).fields| == |b.fields|;
  }

  lemma AppendPushes(list: seq<Json>, last: Json, part: Json)
    ensures Append(list + [last], part) ==
              if Mergeable(last, part) then list + [Extended(last, part)] else list + [last] + [part]
  {
    assert (list + [last])[..|list|] == list;
  }

  lemma Slices<T>(s: seq<T>, n: nat)
    requires 1 <= n <= |s|
    ensures s[1..][..n - 1] == s[1..n] == s[..n][1..] && s[1..][n - 1..] == s[n..]
  {
  }

  lemma {:induction false} AppendAllRuns(list: seq<Json>, last: Json, parts: seq<Json>)
    ensures var n := RunLength(last, parts);
            AppendAll(list + [last], parts) == list + [Joined(last, parts[..n])] + MaximalRuns(parts[n..])
    decreases |parts|
  {
    var n := RunLength(last, parts);
    if parts == [] {
      WithEmpty(list + [last]);
    } else if Mergeable(last, parts[0]) {
      AppendPushes(list, last, parts[0]);
      AppendAllRuns(list, Extended(last, parts[0]), parts[1..]);
      RunGoesOn(last, parts);
    } else {
      AppendPushes(list, last, parts[0]);
      AppendAllRuns(list + [last], parts[0], parts[1..]);
      RunStarts(list + [last], parts);
      assert parts[..0] == [] && parts[0..] == parts;
    }
  }

  lemma RunGoesOn(last: Json, parts: seq<Json>)
    requires parts != [] && Mergeable(last, parts[0])
    ensures var (n, next) := (RunLength(last, parts), Extended(last, parts[0]));
            && n >= 1 && RunLength(next, parts[1..]) == n - 1
            && Joined(next, parts[1..][..n - 1]) == Joined(last, parts[..n]) && parts[1..][n - 1..] == parts[n..]
  {
    ExtendedKeepsShapeFor(last, parts[0], parts[1..]);
    RunLengthSame(Extended(last, parts[0]), parts[0], parts[1..]);
    Slices(parts, RunLength(last, parts));
  }

  lemma RunStarts(before: seq<Json>, parts: seq<Json>)
    requires parts != []
    ensures var m := RunLength(parts[0], parts[1..]);
            before + [Joined(parts[0], parts[1..][..m])] + MaximalRuns(parts[1..][m..]) == before + MaximalRuns(parts)
  {
    var m := RunLength(parts[0], parts[1..]);
    Slices(parts, m + 1);
    Assoc(before, [Joined(parts[0], parts[1..m + 1])], MaximalRuns(parts[m + 1..]));
  }

  lemma ExtendedKeepsShapeFor(a: Json, b: Json, parts: seq<Json>)
    requires Mergeable(a, b)
    ensures parts != [] ==> (Mergeable(Extended(a, b), parts[0]) <==> Mergeable(b, parts[0]))
  {
    if parts != [] {
      ExtendedKeepsShape(a, b, parts[0]);
    }
  }

  lemma RunLengthSame(a: Json, b: Json, parts: seq<Json>)
    requires parts != [] ==> (Mergeable(a, parts[0]) <==> Mergeable(b, parts[0]))
    ensures RunLength(a, parts) == RunLength(b, parts)
  {
  }

  /** Streaming the parts one by one gives the maximal merge of the whole list. */
  lemma StreamedIsMaximalMerge(parts: seq<Json>)
    ensures AppendAll([], parts) == MaximalRuns(parts)
  {
    if parts != [] {
      var n := RunLength(parts[0], parts[1..]);
      AppendAllRuns([], parts[0], parts[1..]);
      assert Append([], parts[0]) == [] + [parts[0]];
      assert parts[1..][..n] == parts[1..n + 1] && parts[1..][n..] == parts[n + 1..];
    }
  }

  lemma {:induction false} AppendAllConcat(list: seq<Json>, a: seq<Json>, b: seq<Json>)
    ensures AppendAll(list, a + b) == AppendAll(AppendAll(list, a), b)
    decreases |a|
  {
    if a == [] {
      assert a + b == b;
    } else {
      assert (a + b)[1..] == a[1..] + b;
      AppendAllConcat(Append(list, a[0]), a[1..], b);
    }
  }

  function WithText(part: Json, text: string): Json {
    WithField(part, "text", Str(text))
  }

  lemma SplitOnce(list: seq<Json>, part: Json, a: string, b: string)
    requires IsTextPart(part) && "thoughtSignature" !in part.fields && Get(part, "text").s == a + b
    ensures Append(Append(list, WithText(part, a)), WithText(part, b)) == Append(list, part)
  {
    var pa, pb := WithText(part, a), WithText(part, b);
    assert pa.fields.Keys == part.fields.Keys == pb.fields.Keys;
    assert |pa.fields| == |part.fields| == |pb.fields|;
    if list != [] {
      var last := list[|list| - 1];
      assert list == list[..|list| - 1] + [last];
      assert Mergeable(last, pa) <==> Mergeable(last, part);
      if Mergeable(last, part) {
        ExtendedKeepsShape(last, pa, pb);
        AppendPushes(list[..|list| - 1], Extended(last, pa), pb);
        assert Get(last, "text").s + a + b == Get(last, "text").s + (a + b);
        assert Extended(Extended(last, pa), pb).fields == Extended(last, part).fields;
      }
    }
    if list == [] || !Mergeable(list[|list| - 1], part) {
      AppendPushes(list, pa, pb);
      assert Extended(pa, pb).fields == part.fields;
    }
  }

  /** Cutting an unsigned text part into two fragments anywhere in the stream changes nothing. */
  lemma SplitInvariant(before: seq<Json>, part: Json, after: seq<Json>, a: string, b: string)
    requires IsTextPart(part) && "thoughtSignature" !in part.fields && Get(part, "text").s == a + b
    ensures AppendAll([], before + [part] + after) == AppendAll([], before + [WithText(part, a), WithText(part, b)] + after)
  {
    var list := AppendAll([], before);
    var pa, pb := WithText(part, a), WithText(part, b);
    AppendAllConcat([], before + [part], after);
    AppendAllConcat([], before, [part]);
    AppendAllConcat([], before + [pa, pb], after);
    AppendAllConcat([], before, [pa, pb]);
    SplitOnce(list, part, a, b);
    assert [part][1..] == [] && [pa, pb][1..] == [pb] && [pb][1..] == [];
  }

  // ----- what the merge means

  /** A piece of text that may be joined: it has a text and no signature. */
  predicate IsFragment(part: Json) {
    part.Obj? && Get(part, "text").Str? && "thoughtSignature" !in part.fields
  }

  /** Two pieces that belong together: all members but the text are the same on both sides. */
  predicate Joinable(a: Json, b: Json) {
    IsFragment(a) && IsFragment(b) && a.fields - {"text"} == b.fields - {"text"}
  }

  lemma MergeableIff(a: Json, b: Json)
    ensures Mergeable(a, b) <==> Joinable(a, b)
  {
    if Mergeable(a, b) {
      MergeableSameKeys(a, b);
      assert a.fields - {"text"} == b.fields - {"text"};
    }
    if Joinable(a, b) {
      SameBut(a.fields, b.fields, "text");
    }
  }

  lemma SameBut(a: map<string, Json>, b: map<string, Json>, key: string)
    requires key in a && key in b && a - {key} == b - {key}
    ensures |a| == |b| && forall k | k in b && k != key :: k in a && a[k] == b[k]
  {
    var other := (a - {key}).Keys;
    assert a.Keys == other + {key} == b.Keys;
    assert |a| == |other + {key}| == |b|;
    forall k | k in b && k != key ensures k in a && a[k] == b[k] {
      assert k in b - {key};
    }
  }

  function AllText(parts: seq<Json>): string {
    if parts == [] then "" else TextOr(Get(parts[0], "text")) + AllText(parts[1..])
  }

  /** Consecutive parts that belong together, and the item made of them: a single part is kept as it is, and
      several give the first one with all their text. */
  ghost predicate IsGroup(group: seq<Json>, item: Json) {
    && group != [] && (forall k | 0 < k < |group| :: Joinable(group[k - 1], group[k]))
    && item == if |group| == 1 then group[0] else WithText(group[0], AllText(group))
  }

  /** The parts are these groups, one after the other, and no group could have been longer. */
  ghost predicate AreGroups(parts: seq<Json>, groups: seq<seq<Json>>, items: seq<Json>)
    decreases |groups|
  {
    if groups == [] then parts == [] && items == []
    else
      var group := groups[0];
      && items != [] && IsGroup(group, items[0]) && group <= parts
      && (|group| < |parts| ==> !Joinable(group[|group| - 1], parts[|group|]))
      && AreGroups(parts[|group|..], groups[1..], items[1..])
  }

  lemma {:induction false} RunIsJoinable(last: Json, parts: seq<Json>)
    ensures var (n, all) := (RunLength(last, parts), [last] + parts);
            && (forall k | 0 < k <= n :: Joinable(all[k - 1], all[k]))
            && (n < |parts| ==> !Joinable(all[n], all[n + 1]))
    decreases |parts|
  {
    if parts != [] {
      var all, rest := [last] + parts, [parts[0]] + parts[1..];
      MergeableIff(last, parts[0]);
      if Mergeable(last, parts[0]) {
        RunIsJoinable(parts[0], parts[1..]);
        assert forall k | 0 < k < |all| :: all[k] == rest[k - 1];
      }
    }
  }

  lemma {:induction false} JoinedIsText(first: Json, rest: seq<Json>)
    requires IsFragment(first) && rest != [] && forall k | 0 <= k < |rest| :: IsFragment(rest[k])
    ensures Joined(first, rest) == WithText(first, TextOr(Get(first, "text")) + AllText(rest))
    decreases |rest|
  {
    var next := Extended(first, rest[0]);
    var a, b := TextOr(Get(first, "text")), TextOr(Get(rest[0], "text"));
    assert next == WithText(first, a + b) && IsFragment(next);
    if |rest| == 1 {
      assert rest[1..] == [];
      WithEmpty(b);
    } else {
      JoinedIsText(next, rest[1..]);
      Assoc(a, b, AllText(rest[1..]));
      TextTwice(first, a + b, a + b + AllText(rest[1..]));
    }
  }

  lemma TextTwice(part: Json, a: string, b: string)
    requires part.Obj?
    ensures WithText(WithText(part, a), b) == WithText(part, b) && TextOr(Get(WithText(part, a), "text")) == a
  {
    assert part.fields["text" := Str(a)]["text" := Str(b)] == part.fields["text" := Str(b)];
  }

  /** The first run of a list is one group. */
  lemma FirstGroup(parts: seq<Json>)
    requires parts != []
    ensures var n := RunLength(parts[0], parts[1..]);
            && IsGroup(parts[..n + 1], Joined(parts[0], parts[1..n + 1]))
            && (n + 1 < |parts| ==> !Joinable(parts[n], parts[n + 1]))
  {
    var n := RunLength(parts[0], parts[1..]);
    RunIsJoinable(parts[0], parts[1..]);
    AsCons(parts);
    Slices(parts, n + 1);
    ChainIsGroup(parts[..n + 1]);
  }

  /** Parts of which each belongs to the one before make one item. */
  lemma ChainIsGroup(group: seq<Json>)
    requires group != [] && forall k | 0 < k < |group| :: Joinable(group[k - 1], group[k])
    ensures IsGroup(group, Joined(group[0], group[1..]))
  {
    var rest := group[1..];
    if |group| > 1 {
      forall k | 0 <= k < |rest| ensures IsFragment(rest[k]) {
        assert Joinable(group[k], group[k + 1]);
      }
      assert Joinable(group[0], group[1]);
      JoinedIsText(group[0], rest);
    }
  }

  lemma {:induction false} RunsAreGroups(parts: seq<Json>) returns (groups: seq<seq<Json>>)
    ensures AreGroups(parts, groups, MaximalRuns(parts))
    decreases |parts|
  {
    groups := [];
    if parts != [] {
      var n := RunLength(parts[0], parts[1..]);
      FirstGroup(parts);
      var more := RunsAreGroups(parts[n + 1..]);
      groups := [parts[..n + 1]] + more;
      GroupInFront(parts[..n + 1], parts[n + 1..], Joined(parts[0], parts[1..n + 1]), more, MaximalRuns(parts[n + 1..]));
      Rejoin(parts, n + 1);
    }
  }

  lemma GroupInFront(group: seq<Json>, rest: seq<Json>, item: Json, groups: seq<seq<Json>>, items: seq<Json>)
    requires IsGroup(group, item) && AreGroups(rest, groups, items)
    requires rest != [] ==> !Joinable(group[|group| - 1], rest[0])
    ensures AreGroups(group + rest, [group] + groups, [item] + items)
  {
    ConsParts(group, groups);
    ConsParts(item, items);
    JoinedParts(group, rest);
  }

  /** Appending part by part groups the parts: neighbours are joined if and only if both are unsigned text
      with the same other members, every other part is kept as it is, and no text is lost or reordered. */
  lemma StreamedGroups(parts: seq<Json>) returns (groups: seq<seq<Json>>)
    ensures AreGroups(parts, groups, AppendAll([], parts))
  {
    groups := RunsAreGroups(parts);
    StreamedIsMaximalMerge(parts);
  }
}
