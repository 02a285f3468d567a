/** Folded view of a document: hidden ranges are shown as a placeholder line, and
    offsets are mapped between the source text and the displayed text. */
module FoldProjection {
  import opened Seqs
  import opened Utf8
  import opened Sorting
  import opened Selections

  datatype Segment = Segment(input: Range, output: Range, hidden: bool)

  datatype Projection = Projection(text: seq<byte>, segments: seq<Segment>)

  /** An ellipsis character and a newline. */
  const PLACEHOLDER: seq<byte> := [0xE2, 0x80, 0xA6, 0x0A]

  predicate FoldLe(a: Range, b: Range) {
    a.start < b.start || (a.start == b.start && a.end >= b.end)
  }

  predicate ValidFold(content: seq<byte>, r: Range) {
    r.start < r.end <= |content| && IsBoundary(content, r.start) && IsBoundary(content, r.end)
  }

  /** The folds taken by one pass over the sorted list, skipping any that start inside the last one taken. */
  function Greedy(content: seq<byte>, folds: seq<Range>, cursor: nat): seq<Range> {
    if folds == [] then []
    else if cursor <= folds[0].start && ValidFold(content, folds[0]) then
      [folds[0]] + Greedy(content, folds[1..], folds[0].end)
    else
      Greedy(content, folds[1..], cursor)
  }

  lemma GreedyStep(content: seq<byte>, folds: seq<Range>, i: nat, cursor: nat)
    requires i < |folds|
    ensures Greedy(content, folds[i..], cursor) ==
              if cursor <= folds[i].start && ValidFold(content, folds[i]) then
                [folds[i]] + Greedy(content, folds[i + 1..], folds[i].end)
              else Greedy(content, folds[i + 1..], cursor)
  {
    assert folds[i..][1..] == folds[i + 1..];
  }

  function HiddenRanges(segments: seq<Segment>): seq<Range> {
    if segments == [] then []
    else (if segments[0].hidden then [segments[0].input] else []) + HiddenRanges(segments[1..])
  }

  lemma {:induction false} HiddenRangesConcat(a: seq<Segment>, b: seq<Segment>)
    ensures HiddenRanges(a + b) == HiddenRanges(a) + HiddenRanges(b)
  {
    if a == [] {
      WithEmpty(b);
      WithEmpty(HiddenRanges(b));
    } else {
      TailOfConcat(a, b);
      HiddenRangesConcat(a[1..], b);
      Assoc(if a[0].hidden then [a[0].input] else [], HiddenRanges(a[1..]), HiddenRanges(b));
    }
  }

  lemma HiddenRangesAppend(segments: seq<Segment>, s: Segment)
    ensures HiddenRanges(segments + [s]) == HiddenRanges(segments) + if s.hidden then [s.input] else []
  {
    HiddenRangesConcat(segments, [s]);
    assert [s][1..] == [];
    WithEmpty([s.input]);
  }

  // ----- tiling

  predicate SegmentFits(content: seq<byte>, text: seq<byte>, s: Segment) {
    && s.input.start <= s.input.end <= |content|
    && s.output.start <= s.output.end <= |text|
    && text[s.output.start..s.output.end] == (if s.hidden then PLACEHOLDER else content[s.input.start..s.input.end])
    && (s.hidden ==> s.input.start < s.input.end)
  }

  /** The segments cut the source between `input.start` and `input.end`, and the display between
      `output.start` and `output.end`, into adjacent pieces: equal text where visible, a placeholder
      where hidden. */
  predicate Tiles(content: seq<byte>, text: seq<byte>, segments: seq<Segment>, input: Range, output: Range) {
    if segments == [] then
      input.start == input.end && output.start == output.end
    else
      var s := segments[0];
      && SegmentFits(content, text, s)
      && s.input.start == input.start && s.output.start == output.start
      && Tiles(content, text, segments[1..], Range(s.input.end, input.end), Range(s.output.end, output.end))
  }

  predicate TilesAll(content: seq<byte>, p: Projection) {
    Tiles(content, p.text, p.segments, Range(0, |content|), Range(0, |p.text|))
  }

  lemma {:induction false} TilesAppend(content: seq<byte>, text: seq<byte>, segments: seq<Segment>, input: Range, output: Range, s: Segment)
    requires Tiles(content, text, segments, input, output) && SegmentFits(content, text, s)
    requires s.input.start == input.end && s.output.start == output.end
    ensures Tiles(content, text, segments + [s], Range(input.start, s.input.end), Range(output.start, s.output.end))
    decreases |segments|
  {
    if segments == [] {
      assert [s][1..] == [];
    } else {
      var h := segments[0];
      TilesAppend(content, text, segments[1..], Range(h.input.end, input.end), Range(h.output.end, output.end), s);
      assert (segments + [s])[1..] == segments[1..] + [s];
    }
  }

  lemma {:induction false} TilesGrow(content: seq<byte>, text: seq<byte>, more: seq<byte>, segments: seq<Segment>, input: Range, output: Range)
    requires Tiles(content, text, segments, input, output)
    ensures Tiles(content, text + more, segments, input, output)
    decreases |segments|
  {
    if segments != [] {
      var h := segments[0];
      TilesGrow(content, text, more, segments[1..], Range(h.input.end, input.end), Range(h.output.end, output.end));
      assert (text + more)[h.output.start..h.output.end] == text[h.output.start..h.output.end];
    }
  }

  lemma PieceFits(content: seq<byte>, text: seq<byte>, from: nat, upTo: nat, piece: seq<byte>, hidden: bool)
    requires from <= upTo <= |content| && (hidden ==> from < upTo)
    requires piece == if hidden then PLACEHOLDER else content[from..upTo]
    ensures SegmentFits(content, text + piece, Segment(Range(from, upTo), Range(|text|, |text| + |piece|), hidden))
  {
    JoinedParts(text, piece);
  }

  lemma TilesPush(content: seq<byte>, text: seq<byte>, piece: seq<byte>, segments: seq<Segment>, input: Range, output: Range, s: Segment)
    requires Tiles(content, text, segments, input, output) && SegmentFits(content, text + piece, s)
    requires s.input.start == input.end && s.output.start == output.end
    ensures Tiles(content, text + piece, segments + [s], Range(input.start, s.input.end), Range(output.start, s.output.end))
  {
    TilesGrow(content, text, piece, segments, input, output);
    TilesAppend(content, text + piece, segments, input, output, s);
  }

  /** Build the view by walking the sorted folds. */
  method Project(content: Text, folds: seq<Range>) returns (p: Projection)
    ensures TilesAll(content, p) && p.segments != [] && Valid(p.text)
    ensures HiddenRanges(p.segments) == Taken(content, folds)
  {
    var sorted := StableSort(folds, FoldLe);
    var text: seq<byte>, segments: seq<Segment> := [], [];
    var cursor: nat := 0;
    for i := 0 to |sorted|
      invariant cursor <= |content| && IsBoundary(content, cursor) && Valid(text)
      invariant Tiles(content, text, segments, Range(0, cursor), Range(0, |text|))
      invariant HiddenRanges(segments) + Greedy(content, sorted[i..], cursor) == Greedy(content, sorted, 0)
    {
      var range := sorted[i];
      GreedyStep(content, sorted, i, cursor);
      if range.start < cursor || range.start >= range.end || range.end > |content| {
        continue;
      }
      if !IsBoundary(content, range.start) || !IsBoundary(content, range.end) {
        continue;
      }
      Assoc(HiddenRanges(segments), [range], Greedy(content, sorted[i + 1..], range.end));
      text, segments := PushFold(content, text, segments, cursor, range);
      cursor := range.end;
    }
    SliceValid(content, cursor, |content|);
    text, segments := PushPiece(content, text, segments, cursor, |content|, content[cursor..], false);
    p := Projection(text, segments);
  }

  /** The visible text up to a fold, then the placeholder for the fold. */
  method PushFold(content: Text, text: seq<byte>, segments: seq<Segment>, cursor: nat, range: Range)
    returns (text': seq<byte>, segments': seq<Segment>)
    requires Tiles(content, text, segments, Range(0, cursor), Range(0, |text|))
    requires cursor <= range.start && ValidFold(content, range) && IsBoundary(content, cursor) && Valid(text)
    ensures Tiles(content, text', segments', Range(0, range.end), Range(0, |text'|)) && Valid(text')
    ensures HiddenRanges(segments') == HiddenRanges(segments) + [range]
  {
    assert Valid(PLACEHOLDER) by { assert PLACEHOLDER[3..] == [0x0A]; }
    SliceValid(content, cursor, range.start);
    WithEmpty(HiddenRanges(segments));
    text', segments' := PushPiece(content, text, segments, cursor, range.start, content[cursor..range.start], false);
    text', segments' := PushPiece(content, text', segments', range.start, range.end, PLACEHOLDER, true);
  }

  method PushPiece(content: seq<byte>, text: seq<byte>, segments: seq<Segment>, from: nat, upTo: nat, piece: seq<byte>, hidden: bool)
    returns (text': seq<byte>, segments': seq<Segment>)
    requires Tiles(content, text, segments, Range(0, from), Range(0, |text|))
    requires from <= upTo <= |content| && (hidden ==> from < upTo)
    requires piece == if hidden then PLACEHOLDER else content[from..upTo]
    requires Valid(text) && Valid(piece)
    ensures Tiles(content, text', segments', Range(0, upTo), Range(0, |text'|)) && Valid(text')
    ensures HiddenRanges(segments') == HiddenRanges(segments) + if hidden then [Range(from, upTo)] else []
    ensures segments' != []
  {
    var s := Segment(Range(from, upTo), Range(|text|, |text| + |piece|), hidden);
    text', segments' := text + piece, segments + [s];
    PieceTiles(content, text, segments, from, upTo, piece, hidden);
    HiddenRangesAppend(segments, s);
    ValidConcat(text, piece);
  }

  lemma PieceTiles(content: seq<byte>, text: seq<byte>, segments: seq<Segment>, from: nat, upTo: nat, piece: seq<byte>, hidden: bool)
    requires Tiles(content, text, segments, Range(0, from), Range(0, |text|))
    requires from <= upTo <= |content| && (hidden ==> from < upTo)
    requires piece == if hidden then PLACEHOLDER else content[from..upTo]
    ensures Tiles(content, text + piece, segments + [Segment(Range(from, upTo), Range(|text|, |text| + |piece|), hidden)],
                  Range(0, upTo), Range(0, |text + piece|))
  {
    var s := Segment(Range(from, upTo), Range(|text|, |text| + |piece|), hidden);
    var input, output := Range(0, from), Range(0, |text|);
    PieceFits(content, text, from, upTo, piece, hidden);
    TilesPush(content, text, piece, segments, input, output, s);
    assert Range(input.start, s.input.end) == Range(0, upTo);
    assert Range(output.start, s.output.end) == Range(0, |text + piece|);
  }

  // ----- offset maps

  function DisplayFrom(segments: seq<Segment>, source: nat, end: nat): nat {
    if segments == [] then end
    else
      var s := segments[0];
      if s.input.Contains(source) then s.output.start + (if s.hidden then 0 else source - s.input.start)
      else DisplayFrom(segments[1..], source, end)
  }

  function DisplayOffset(p: Projection, source: nat): nat {
    DisplayFrom(p.segments, source, |p.text|)
  }

  function SourceFrom(segments: seq<Segment>, display: nat, end: nat): nat {
    if segments == [] then end
    else
      var s := segments[0];
      if s.output.Contains(display) then s.input.start + (if s.hidden then 0 else display - s.output.start)
      else SourceFrom(segments[1..], display, end)
  }

  function SourceOffset(p: Projection, display: nat): nat {
    SourceFrom(p.segments, display, if p.segments == [] then 0 else p.segments[|p.segments| - 1].input.end)
  }

  lemma {:induction false} TilesOrdered(content: seq<byte>, text: seq<byte>, segments: seq<Segment>, input: Range, output: Range)
    requires Tiles(content, text, segments, input, output)
    ensures input.start <= input.end && output.start <= output.end
    ensures segments != [] ==> segments[|segments| - 1].input.end == input.end
    ensures forall s | s in segments ::
              && SegmentFits(content, text, s)
              && input.start <= s.input.start && s.input.end <= input.end
              && output.start <= s.output.start && s.output.end <= output.end
    decreases |segments|
  {
    if segments != [] {
      var h := segments[0];
      assert segments == [h] + segments[1..];
      TilesOrdered(content, text, segments[1..], Range(h.input.end, input.end), Range(h.output.end, output.end));
    }
  }

  /** Every source offset below the end lies in exactly the segment that the lookup uses. */
  lemma {:induction false} DisplayLookup(content: seq<byte>, text: seq<byte>, segments: seq<Segment>, input: Range, output: Range, source: nat)
    returns (s: Segment)
    requires Tiles(content, text, segments, input, output) && input.Contains(source)
    ensures s in segments && s.input.Contains(source) && SegmentFits(content, text, s)
    ensures s.output.Contains(DisplayFrom(segments, source, output.end))
    ensures DisplayFrom(segments, source, output.end) == s.output.start + (if s.hidden then 0 else source - s.input.start)
    ensures forall t | t in segments && t.input.Contains(source) :: t == s
    decreases |segments|
  {
    var h, rest := segments[0], segments[1..];
    assert segments == [h] + rest;
    var input', output' := Range(h.input.end, input.end), Range(h.output.end, output.end);
    TilesOrdered(content, text, rest, input', output');
    if h.input.Contains(source) {
      s := h;
      SegmentLength(content, text, s);
    } else {
      s := DisplayLookup(content, text, rest, input', output', source);
    }
  }

  lemma {:induction false} SourceLookup(content: seq<byte>, text: seq<byte>, segments: seq<Segment>, input: Range, output: Range, display: nat)
    returns (s: Segment)
    requires Tiles(content, text, segments, input, output) && output.Contains(display)
    ensures s in segments && s.output.Contains(display) && SegmentFits(content, text, s)
    ensures s.input.Contains(SourceFrom(segments, display, input.end))
    ensures SourceFrom(segments, display, input.end) == s.input.start + (if s.hidden then 0 else display - s.output.start)
    ensures forall t | t in segments && t.output.Contains(display) :: t == s
    decreases |segments|
  {
    var h, rest := segments[0], segments[1..];
    assert segments == [h] + rest;
    var input', output' := Range(h.input.end, input.end), Range(h.output.end, output.end);
    TilesOrdered(content, text, rest, input', output');
    if h.output.Contains(display) {
      s := h;
      SegmentLength(content, text, s);
    } else {
      s := SourceLookup(content, text, rest, input', output', display);
    }
  }

  /** A placeholder is four bytes long; visible text has the same length on both sides. */
  lemma SegmentLength(content: seq<byte>, text: seq<byte>, s: Segment)
    requires SegmentFits(content, text, s)
    ensures s.output.end - s.output.start == if s.hidden then 4 else s.input.end - s.input.start
  {
    assert |text[s.output.start..s.output.end]| == s.output.end - s.output.start;
  }

  lemma {:induction false} DisplayBeyond(content: seq<byte>, text: seq<byte>, segments: seq<Segment>, input: Range, output: Range, source: nat)
    requires Tiles(content, text, segments, input, output) && source >= input.end
    ensures DisplayFrom(segments, source, output.end) == output.end
    decreases |segments|
  {
    TilesOrdered(content, text, segments, input, output);
    if segments != [] {
      var h := segments[0];
      DisplayBeyond(content, text, segments[1..], Range(h.input.end, input.end), Range(h.output.end, output.end), source);
    }
  }

  lemma {:induction false} SourceBeyond(content: seq<byte>, text: seq<byte>, segments: seq<Segment>, input: Range, output: Range, display: nat)
    requires Tiles(content, text, segments, input, output) && display >= output.end
    ensures SourceFrom(segments, display, input.end) == input.end
    decreases |segments|
  {
    TilesOrdered(content, text, segments, input, output);
    if segments != [] {
      var h := segments[0];
      SourceBeyond(content, text, segments[1..], Range(h.input.end, input.end), Range(h.output.end, output.end), display);
    }
  }

  /** Source to display and back: the same offset where the text is visible, the fold start where it
      is hidden, and the end of the text at or past the end. */
  lemma SourceRoundTrip(content: seq<byte>, p: Projection, source: nat) returns (s: Segment)
    requires TilesAll(content, p) && p.segments != []
    ensures source >= |content| ==>
              DisplayOffset(p, source) == |p.text| && SourceOffset(p, DisplayOffset(p, source)) == |content|
    ensures source < |content| ==>
              && s in p.segments && s.input.Contains(source)
              && SourceOffset(p, DisplayOffset(p, source)) == (if s.hidden then s.input.start else source)
              && forall t | t in p.segments && t.input.Contains(source) :: t == s
  {
    var input, output := Range(0, |content|), Range(0, |p.text|);
    TilesOrdered(content, p.text, p.segments, input, output);
    s := p.segments[0];
    if source >= |content| {
      DisplayBeyond(content, p.text, p.segments, input, output, source);
      SourceBeyond(content, p.text, p.segments, input, output, |p.text|);
    } else {
      s := DisplayLookup(content, p.text, p.segments, input, output, source);
      var s' := SourceLookup(content, p.text, p.segments, input, output, DisplayOffset(p, source));
    }
  }

  /** Display to source and back: the same offset outside placeholders, the placeholder start inside one. */
  lemma DisplayRoundTrip(content: seq<byte>, p: Projection, display: nat) returns (s: Segment)
    requires TilesAll(content, p) && p.segments != []
    ensures display >= |p.text| ==>
              SourceOffset(p, display) == |content| && DisplayOffset(p, SourceOffset(p, display)) == |p.text|
    ensures display < |p.text| ==>
              && s in p.segments && s.output.Contains(display)
              && DisplayOffset(p, SourceOffset(p, display)) == (if s.hidden then s.output.start else display)
              && forall t | t in p.segments && t.output.Contains(display) :: t == s
  {
    var input, output := Range(0, |content|), Range(0, |p.text|);
    TilesOrdered(content, p.text, p.segments, input, output);
    s := p.segments[0];
    if display >= |p.text| {
      SourceBeyond(content, p.text, p.segments, input, output, display);
      DisplayBeyond(content, p.text, p.segments, input, output, |content|);
    } else {
      s := DisplayRoundTripWithin(content, p, display);
    }
  }

  lemma DisplayRoundTripWithin(content: seq<byte>, p: Projection, display: nat) returns (s: Segment)
    requires TilesAll(content, p) && p.segments != [] && display < |p.text|
    ensures s in p.segments && s.output.Contains(display)
    ensures DisplayOffset(p, SourceOffset(p, display)) == (if s.hidden then s.output.start else display)
    ensures forall t | t in p.segments && t.output.Contains(display) :: t == s
  {
    var input, output := Range(0, |content|), Range(0, |p.text|);
    TilesOrdered(content, p.text, p.segments, input, output);
    s := LookupThereAndBack(content, p.text, p.segments, input, output, display);
  }

  lemma LookupThereAndBack(content: seq<byte>, text: seq<byte>, segments: seq<Segment>, input: Range, output: Range, display: nat)
    returns (s: Segment)
    requires Tiles(content, text, segments, input, output) && output.Contains(display)
    ensures s in segments && s.output.Contains(display)
    ensures DisplayFrom(segments, SourceFrom(segments, display, input.end), output.end) == (if s.hidden then s.output.start else display)
    ensures forall t | t in segments && t.output.Contains(display) :: t == s
  {
    TilesOrdered(content, text, segments, input, output);
    s := SourceLookup(content, text, segments, input, output, display);
    var s' := DisplayLookup(content, text, segments, input, output, SourceFrom(segments, display, input.end));
    assert s' == s;
  }

  lemma {:induction false} DisplayFromMonotone(content: seq<byte>, text: seq<byte>, segments: seq<Segment>,
    input: Range, output: Range, a: nat, b: nat)
    requires Tiles(content, text, segments, input, output) && input.start <= a <= b
    ensures output.start <= DisplayFrom(segments, a, output.end) <= DisplayFrom(segments, b, output.end) <= output.end
    decreases |segments|
  {
    TilesOrdered(content, text, segments, input, output);
    if segments != [] {
      var h := segments[0];
      SegmentLength(content, text, h);
      var input', output' := Range(h.input.end, input.end), Range(h.output.end, output.end);
      TilesOrdered(content, text, segments[1..], input', output');
      if h.input.end <= b {
        DisplayFromMonotone(content, text, segments[1..], input', output', if h.input.end <= a then a else b, b);
      }
    }
  }

  lemma {:induction false} SourceFromMonotone(content: seq<byte>, text: seq<byte>, segments: seq<Segment>,
    input: Range, output: Range, a: nat, b: nat)
    requires Tiles(content, text, segments, input, output) && output.start <= a <= b
    ensures input.start <= SourceFrom(segments, a, input.end) <= SourceFrom(segments, b, input.end) <= input.end
    decreases |segments|
  {
    TilesOrdered(content, text, segments, input, output);
    if segments != [] {
      var h := segments[0];
      SegmentLength(content, text, h);
      var input', output' := Range(h.input.end, input.end), Range(h.output.end, output.end);
      TilesOrdered(content, text, segments[1..], input', output');
      if h.output.end <= b {
        SourceFromMonotone(content, text, segments[1..], input', output', if h.output.end <= a then a else b, b);
      }
    }
  }

  /** Both maps keep the order of offsets and stay inside the texts. */
  lemma OffsetsMonotone(content: seq<byte>, p: Projection, a: nat, b: nat)
    requires TilesAll(content, p) && p.segments != [] && a <= b
    ensures DisplayOffset(p, a) <= DisplayOffset(p, b) <= |p.text|
    ensures SourceOffset(p, a) <= SourceOffset(p, b) <= |content|
  {
    var input, output := Range(0, |content|), Range(0, |p.text|);
    TilesOrdered(content, p.text, p.segments, input, output);
    DisplayFromMonotone(content, p.text, p.segments, input, output, a, b);
    SourceFromMonotone(content, p.text, p.segments, input, output, a, b);
  }

  // ----- which bytes are hidden

  predicate Disjoint(a: Range, b: Range) {
    a.end <= b.start || b.end <= a.start
  }

  predicate Within(a: Range, b: Range) {
    b.start <= a.start && a.end <= b.end
  }

  /** Any two valid folds are disjoint or one lies inside the other. */
  ghost predicate Laminar(content: seq<byte>, folds: seq<Range>) {
    forall i, j | 0 <= i < |folds| && 0 <= j < |folds| && ValidFold(content, folds[i]) && ValidFold(content, folds[j]) ::
      Disjoint(folds[i], folds[j]) || Within(folds[i], folds[j]) || Within(folds[j], folds[i])
  }

  ghost predicate Folded(content: seq<byte>, folds: seq<Range>, k: nat) {
    exists i :: 0 <= i < |folds| && ValidFold(content, folds[i]) && folds[i].Contains(k)
  }

  lemma FoldedCons(content: seq<byte>, folds: seq<Range>, k: nat)
    requires folds != []
    ensures Folded(content, folds, k) <==>
              (ValidFold(content, folds[0]) && folds[0].Contains(k)) || Folded(content, folds[1..], k)
  {
    assert forall i | 0 < i < |folds| :: folds[i] == folds[1..][i - 1];
    assert forall i | 0 <= i < |folds[1..]| :: folds[1..][i] == folds[i + 1];
  }

  lemma CoversCons(ranges: seq<Range>, k: nat)
    requires ranges != []
    ensures Covers(ranges, k) <==> ranges[0].Contains(k) || Covers(ranges[1..], k)
  {
    ConsMarks(ranges, k);
  }

  lemma {:induction false} GreedyHidesUnion(content: seq<byte>, folds: seq<Range>, cursor: nat, k: nat)
    requires Sorted(folds, FoldLe) && Laminar(content, folds)
    requires forall i | 0 <= i < |folds| && ValidFold(content, folds[i]) :: cursor <= folds[i].start || folds[i].end <= cursor
    ensures Covers(Greedy(content, folds, cursor), k) <==> Folded(content, folds, k) && cursor <= k
    decreases |folds|
  {
    if folds != [] {
      var f, rest := folds[0], folds[1..];
      FoldedCons(content, folds, k);
      assert forall i | 0 <= i < |rest| :: rest[i] == folds[i + 1] && FoldLe(f, rest[i]);
      if cursor <= f.start && ValidFold(content, f) {
        forall i | 0 <= i < |rest| && ValidFold(content, rest[i])
          ensures f.end <= rest[i].start || rest[i].end <= f.end
        {
          assert Disjoint(folds[0], folds[i + 1]) || Within(folds[0], folds[i + 1]) || Within(folds[i + 1], folds[0]);
        }
        GreedyHidesUnion(content, rest, f.end, k);
        CoversCons([f] + Greedy(content, rest, f.end), k);
        assert ([f] + Greedy(content, rest, f.end))[1..] == Greedy(content, rest, f.end);
        if i :| 0 <= i < |rest| && ValidFold(content, rest[i]) && rest[i].Contains(k) {
          assert k < f.end ==> f.Contains(k);
        }
      } else {
        GreedyHidesUnion(content, rest, cursor, k);
      }
    }
  }

  lemma PermutedFolds(content: seq<byte>, a: seq<Range>, b: seq<Range>, k: nat)
    requires multiset(a) == multiset(b)
    ensures Folded(content, a, k) ==> Folded(content, b, k)
    ensures Laminar(content, a) ==> Laminar(content, b)
  {
    forall i | 0 <= i < |a| ensures a[i] in b {
      assert a[i] in multiset(b);
    }
    forall i | 0 <= i < |b| ensures b[i] in a {
      assert b[i] in multiset(a);
    }
    if Laminar(content, a) {
      forall i, j | 0 <= i < |b| && 0 <= j < |b| && ValidFold(content, b[i]) && ValidFold(content, b[j])
        ensures Disjoint(b[i], b[j]) || Within(b[i], b[j]) || Within(b[j], b[i])
      {
        var i' :| 0 <= i' < |a| && a[i'] == b[i];
        var j' :| 0 <= j' < |a| && a[j'] == b[j];
        assert Disjoint(a[i'], a[j']) || Within(a[i'], a[j']) || Within(a[j'], a[i']);
      }
    }
  }

  // ----- partly overlapping folds

  /** The folds that the pass takes. */
  function Taken(content: seq<byte>, folds: seq<Range>): seq<Range> {
    Greedy(content, StableSort(folds, FoldLe), 0)
  }

  ghost predicate HidesAll(content: seq<byte>, folds: seq<Range>) {
    forall k :: Covers(Taken(content, folds), k) <==> Folded(content, folds, k)
  }

  /** Wherever a taken fold ends inside another valid fold, some valid fold starts right there. */
  ghost predicate Chained(content: seq<byte>, folds: seq<Range>, taken: seq<Range>) {
    forall g, f | g in taken && f in folds && ValidFold(content, f) && f.start < g.end < f.end :: StartsAt(content, folds, g.end)
  }

  ghost predicate StartsAt(content: seq<byte>, folds: seq<Range>, k: nat) {
    exists h :: h in folds && ValidFold(content, h) && h.start == k
  }

  /** The first byte of every valid fold is covered. */
  ghost predicate CoversStarts(content: seq<byte>, folds: seq<Range>, taken: seq<Range>) {
    forall h | h in folds && ValidFold(content, h) :: Covers(taken, h.start)
  }

  lemma {:induction false} GreedyShape(content: seq<byte>, folds: seq<Range>, cursor: nat)
    ensures forall g | g in Greedy(content, folds, cursor) :: g in folds && ValidFold(content, g) && cursor <= g.start
    ensures Apart(Greedy(content, folds, cursor))
    decreases |folds|
  {
    if folds != [] {
      AsCons(folds);
      if cursor <= folds[0].start && ValidFold(content, folds[0]) {
        GreedyShape(content, folds[1..], folds[0].end);
      } else {
        GreedyShape(content, folds[1..], cursor);
      }
    }
  }

  /** The pass covers the first byte of every valid fold, taken or not. */
  lemma {:induction false} StartsCovered(content: seq<byte>, folds: seq<Range>, cursor: nat, h: Range)
    requires Sorted(folds, FoldLe) && h in folds && ValidFold(content, h) && cursor <= h.start
    ensures Covers(Greedy(content, folds, cursor), h.start)
    decreases |folds|
  {
    var f, rest := folds[0], folds[1..];
    ConsMember(folds, h);
    assert forall i | 0 <= i < |rest| :: rest[i] == folds[i + 1] && FoldLe(f, rest[i]);
    if cursor <= f.start && ValidFold(content, f) {
      var more := Greedy(content, rest, f.end);
      ConsParts(f, more);
      CoversCons([f] + more, h.start);
      if f.end <= h.start {
        StartsCovered(content, rest, f.end, h);
      }
    } else {
      StartsCovered(content, rest, cursor, h);
    }
  }

  lemma TakenFacts(content: seq<byte>, folds: seq<Range>)
    ensures forall g | g in Taken(content, folds) :: g in folds && ValidFold(content, g)
    ensures Apart(Taken(content, folds))
    ensures CoversStarts(content, folds, Taken(content, folds))
  {
    var sorted := StableSort(folds, FoldLe);
    SortSorts(folds, FoldLe);
    SortPermutes(folds, FoldLe);
    assert forall x :: x in multiset(sorted) <==> x in multiset(folds);
    GreedyShape(content, sorted, 0);
    forall h | h in folds && ValidFold(content, h) ensures Covers(Taken(content, folds), h.start) {
      assert h in multiset(folds);
      StartsCovered(content, sorted, 0, h);
    }
    forall g | g in Taken(content, folds) ensures g in folds {
      assert g in multiset(sorted);
    }
  }

  lemma HiddenIsFolded(content: seq<byte>, folds: seq<Range>, k: nat)
    requires Covers(Taken(content, folds), k)
    ensures Folded(content, folds, k)
  {
    TakenFacts(content, folds);
    var taken := Taken(content, folds);
    var i :| 0 <= i < |taken| && taken[i].Contains(k);
    assert taken[i] in taken && taken[i] in folds;
    var j :| 0 <= j < |folds| && folds[j] == taken[i];
  }

  /** Walking through a fold byte by byte, a chained family never meets a gap. */
  lemma {:induction false} ChainCovers(content: seq<byte>, folds: seq<Range>, taken: seq<Range>, f: Range, k: nat)
    requires Chained(content, folds, taken) && f in folds && ValidFold(content, f) && f.Contains(k)
    requires CoversStarts(content, folds, taken)
    ensures Covers(taken, k)
    decreases k
  {
    if k > f.start {
      ChainCovers(content, folds, taken, f, k - 1);
      ChainStep(content, folds, taken, f, k);
    }
  }

  lemma ChainStep(content: seq<byte>, folds: seq<Range>, taken: seq<Range>, f: Range, k: nat)
    requires Chained(content, folds, taken) && CoversStarts(content, folds, taken)
    requires f in folds && ValidFold(content, f) && f.start < k < f.end && Covers(taken, k - 1)
    ensures Covers(taken, k)
  {
    var i :| 0 <= i < |taken| && taken[i].Contains(k - 1);
    if !taken[i].Contains(k) {
      var g := taken[i];
      assert g in taken && g.end == k;
      assert StartsAt(content, folds, k);
    }
  }

  /** If every folded byte is hidden, the byte after a taken fold is the start of another. */
  lemma HiddenChains(content: seq<byte>, folds: seq<Range>, g: Range, f: Range)
    requires HidesAll(content, folds)
    requires g in Taken(content, folds) && f in folds && ValidFold(content, f) && f.start < g.end < f.end
    ensures StartsAt(content, folds, g.end)
  {
    var j :| 0 <= j < |folds| && folds[j] == f;
    assert Folded(content, folds, g.end);
    var h := NextTaken(content, folds, g);
  }

  /** Taken folds do not overlap, so one that holds the byte after another starts there. */
  lemma NextTaken(content: seq<byte>, folds: seq<Range>, g: Range) returns (h: Range)
    requires g in Taken(content, folds) && Covers(Taken(content, folds), g.end)
    ensures h in folds && ValidFold(content, h) && h.start == g.end
  {
    TakenFacts(content, folds);
    h := ApartNext(Taken(content, folds), g);
  }

  ghost predicate Apart(taken: seq<Range>) {
    && (forall i | 0 <= i < |taken| :: taken[i].start < taken[i].end)
    && (forall i, j | 0 <= i < j < |taken| :: taken[i].end <= taken[j].start)
  }

  lemma ApartNext(taken: seq<Range>, g: Range) returns (h: Range)
    requires Apart(taken) && g in taken && Covers(taken, g.end)
    ensures h in taken && h.start == g.end
  {
    var i :| 0 <= i < |taken| && taken[i].Contains(g.end);
    var n :| 0 <= n < |taken| && taken[n] == g;
    h := taken[i];
  }

  /** The family law: the pass hides exactly the folded bytes if and only if the family is chained. */
  lemma HidesAllIff(content: seq<byte>, folds: seq<Range>)
    ensures HidesAll(content, folds) <==> Chained(content, folds, Taken(content, folds))
  {
    if Chained(content, folds, Taken(content, folds)) {
      TakenFacts(content, folds);
      forall k ensures Covers(Taken(content, folds), k) <==> Folded(content, folds, k) {
        if Covers(Taken(content, folds), k) {
          HiddenIsFolded(content, folds, k);
        }
        if i :| 0 <= i < |folds| && ValidFold(content, folds[i]) && folds[i].Contains(k) {
          ChainCovers(content, folds, Taken(content, folds), folds[i], k);
        }
      }
    }
    if HidesAll(content, folds) {
      forall g, f | g in Taken(content, folds) && f in folds && ValidFold(content, f) && f.start < g.end < f.end
        ensures StartsAt(content, folds, g.end)
      {
        HiddenChains(content, folds, g, f);
      }
    }
  }

  lemma SortedPair(a: Range, b: Range)
    requires FoldLe(a, b)
    ensures StableSort([a, b], FoldLe) == [a, b]
  {
    assert [a, b][1..] == [b] && [b][1..] == [];
    assert StableSort([b], FoldLe) == [b];
  }

  lemma TakenPair(content: seq<byte>, a: Range, b: Range)
    requires ValidFold(content, a) && ValidFold(content, b) && FoldLe(a, b)
    ensures Taken(content, [a, b]) == if a.end <= b.start then [a, b] else [a]
  {
    SortedPair(a, b);
    assert [a, b][1..] == [b] && [b][1..] == [];
    assert Greedy(content, [b], a.end) == if a.end <= b.start then [b] else [];
  }

  /** The pair law: two valid folds are hidden whole if and only if they are disjoint or nested. */
  lemma PairHiddenIff(content: seq<byte>, a: Range, b: Range)
    requires ValidFold(content, a) && ValidFold(content, b) && FoldLe(a, b)
    ensures HidesAll(content, [a, b]) <==> Disjoint(a, b) || Within(b, a)
  {
    TakenPair(content, a, b);
    HidesAllIff(content, [a, b]);
    var taken := Taken(content, [a, b]);
    if a.start < b.start < a.end < b.end {
      assert a in taken && b in [a, b];
      assert !Chained(content, [a, b], taken);
    }
  }

  /** A fold that starts inside an earlier one and outlasts it keeps its last byte in view. */
  lemma OverlapLeaksLastByte(content: seq<byte>, a: Range, b: Range)
    requires ValidFold(content, a) && ValidFold(content, b) && a.start < b.start < a.end < b.end
    ensures Folded(content, [a, b], b.end - 1) && !Covers(Taken(content, [a, b]), b.end - 1)
  {
    TakenPair(content, a, b);
    assert [a, b][1] == b;
  }

  /** Such folds exist: the first two and the last two of three letters. */
  lemma OverlapExample()
    ensures var content: seq<byte> := [0x61, 0x62, 0x63];
            Valid(content) && !HidesAll(content, [Range(0, 2), Range(1, 3)])
  {
    var content: seq<byte> := [0x61, 0x62, 0x63];
    assert content[1..] == [0x62, 0x63] && [0x62, 0x63][1..] == [0x63] && [0x63][1..] == [];
    OverlapLeaksLastByte(content, Range(0, 2), Range(1, 3));
  }

  // ----- nested folds

  /** The single greedy pass hides exactly the bytes of every valid fold of a nested family. */
  lemma HidesExactlyTheFolds(content: seq<byte>, folds: seq<Range>, k: nat)
    requires Laminar(content, folds)
    ensures Covers(Taken(content, folds), k) <==> Folded(content, folds, k)
  {
    var sorted := StableSort(folds, FoldLe);
    SortSorts(folds, FoldLe);
    SortPermutes(folds, FoldLe);
    PermutedFolds(content, folds, sorted, k);
    PermutedFolds(content, sorted, folds, k);
    GreedyHidesUnion(content, sorted, 0, k);
  }

  // ----- character boundaries

  /** Equal bytes at two offsets are boundaries together, the first byte of a text being one anyway. */
  lemma SameByte(a: Text, b: Text, i: nat, j: nat)
    requires i < |a| && j < |b| && a[i] == b[j]
    ensures IsBoundary(a, i) <==> IsBoundary(b, j)
  {
  }

  /** Inside a visible segment the same offsets are boundaries on both sides. */
  lemma VisibleBoundary(content: Text, text: Text, s: Segment, k: nat)
    requires SegmentFits(content, text, s) && !s.hidden
    requires s.input.start + k < s.input.end || s.output.start + k < s.output.end
    ensures IsBoundary(content, s.input.start + k) <==> IsBoundary(text, s.output.start + k)
  {
    SegmentLength(content, text, s);
    assert text[s.output.start..s.output.end][k] == content[s.input.start..s.input.end][k];
    SameByte(content, text, s.input.start + k, s.output.start + k);
  }

  lemma SourceOffsetIs(content: seq<byte>, p: Projection, display: nat)
    requires TilesAll(content, p) && p.segments != []
    ensures SourceOffset(p, display) == SourceFrom(p.segments, display, |content|)
  {
    TilesOrdered(content, p.text, p.segments, Range(0, |content|), Range(0, |p.text|));
  }

  lemma {:induction false} HiddenIsListed(segments: seq<Segment>, s: Segment)
    requires s in segments && s.hidden
    ensures s.input in HiddenRanges(segments)
  {
    ConsMember(segments, s);
    if s != segments[0] {
      HiddenIsListed(segments[1..], s);
    }
  }

  lemma HiddenStart(content: seq<byte>, folds: seq<Range>, segments: seq<Segment>, s: Segment)
    requires HiddenRanges(segments) == Taken(content, folds) && s in segments && s.hidden
    ensures IsBoundary(content, s.input.start)
  {
    HiddenIsListed(segments, s);
    TakenFacts(content, folds);
    assert ValidFold(content, s.input);
  }

  /** A boundary of the source is shown at a boundary of the display; a visible offset is a boundary if and
      only if its display offset is. */
  lemma DisplayKeepsBoundaries(content: Text, p: Projection, source: nat)
    requires TilesAll(content, p) && p.segments != [] && Valid(p.text)
    ensures IsBoundary(content, source) || source >= |content| ==> IsBoundary(p.text, DisplayOffset(p, source))
    ensures source < |content| && (forall s | s in p.segments && s.input.Contains(source) :: !s.hidden) ==>
              (IsBoundary(content, source) <==> IsBoundary(p.text, DisplayOffset(p, source)))
  {
    var input, output := Range(0, |content|), Range(0, |p.text|);
    if source >= |content| {
      DisplayBeyond(content, p.text, p.segments, input, output, source);
    } else {
      var s := DisplayLookup(content, p.text, p.segments, input, output, source);
      if s.hidden {
        assert p.text[s.output.start] == p.text[s.output.start..s.output.end][0] == PLACEHOLDER[0];
      } else {
        VisibleBoundary(content, p.text, s, source - s.input.start);
      }
    }
  }

  /** A boundary of the display stands for a boundary of the source. */
  lemma SourceKeepsBoundaries(content: Text, folds: seq<Range>, p: Projection, display: nat)
    requires TilesAll(content, p) && p.segments != [] && Valid(p.text)
    requires HiddenRanges(p.segments) == Taken(content, folds)
    ensures IsBoundary(p.text, display) || display >= |p.text| ==> IsBoundary(content, SourceOffset(p, display))
  {
    var input, output := Range(0, |content|), Range(0, |p.text|);
    SourceOffsetIs(content, p, display);
    if display >= |p.text| {
      SourceBeyond(content, p.text, p.segments, input, output, display);
    } else {
      var s := SourceLookup(content, p.text, p.segments, input, output, display);
      if s.hidden {
        HiddenStart(content, folds, p.segments, s);
      } else {
        VisibleBoundary(content, p.text, s, display - s.output.start);
      }
    }
  }
}
