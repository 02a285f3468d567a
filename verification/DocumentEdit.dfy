/** Atomic multi-edit transactions on a text document with bounded undo history. */
module DocumentEdit {
  import opened Seqs
  import opened Utf8
  import opened Sorting
  import opened Selections

  datatype Edit = Edit(range: Range, text: Text)

  datatype Snapshot = Snapshot(content: Text, anchor: nat, head: nat, additional: seq<Range>)

  const HISTORY_LIMIT := 64

  predicate EditLe(a: Edit, b: Edit) {
    RangeLe(a.range, b.range)
  }

  // ----- the specification: all edits at once, left to right

  /** Every range is a character-aligned range of the text, at or after the end of the one before. */
  predicate Accepts(content: seq<byte>, edits: seq<Edit>, previousEnd: nat) {
    edits == [] ||
    (var r := edits[0].range;
     && previousEnd <= r.start <= r.end <= |content|
     && IsBoundary(content, r.start) && IsBoundary(content, r.end)
     && Accepts(content, edits[1..], r.end))
  }

  /** Copy the text from `from`, with every edited range replaced as it is met. */
  function Splice(content: seq<byte>, edits: seq<Edit>, from: nat): seq<byte>
    requires from <= |content| && Accepts(content, edits, from)
  {
    if edits == [] then content[from..]
    else
      var e := edits[0];
      content[from..e.range.start] + e.text + Splice(content, edits[1..], e.range.end)
  }

  /** Where each inserted text ends in the spliced text that starts at display position `at`. */
  function Cursors(edits: seq<Edit>, from: int, at: int): seq<int> {
    if edits == [] then []
    else
      var cursor := at + (edits[0].range.start - from) + |edits[0].text|;
      [cursor] + Cursors(edits[1..], edits[0].range.end, cursor)
  }

  function Inserted(edits: seq<Edit>): nat {
    if edits == [] then 0 else |edits[0].text| + Inserted(edits[1..])
  }

  function Removed(edits: seq<Edit>): int {
    if edits == [] then 0 else edits[0].range.end - edits[0].range.start + Removed(edits[1..])
  }

  lemma {:induction false} SpliceLength(content: seq<byte>, edits: seq<Edit>, from: nat)
    requires from <= |content| && Accepts(content, edits, from)
    ensures |Splice(content, edits, from)| == |content| - from + Inserted(edits) - Removed(edits)
    decreases |edits|
  {
    if edits != [] {
      SpliceLength(content, edits[1..], edits[0].range.end);
    }
  }

  lemma {:induction false} SpliceValid(content: seq<byte>, edits: seq<Edit>, from: nat)
    requires from <= |content| && Accepts(content, edits, from)
    requires Valid(content) && IsBoundary(content, from)
    ensures Valid(Splice(content, edits, from))
    decreases |edits|
  {
    if edits == [] {
      ValidCut(content, from);
    } else {
      var e := edits[0];
      SliceValid(content, from, e.range.start);
      SpliceValid(content, edits[1..], e.range.end);
      ValidConcat(content[from..e.range.start], e.text);
      ValidConcat(content[from..e.range.start] + e.text, Splice(content, edits[1..], e.range.end));
    }
  }

  /** The spliced text up to and including the text inserted by edit `i`. */
  ghost function SplicedThrough(content: seq<byte>, edits: seq<Edit>, from: nat, i: nat): seq<byte>
    requires from <= |content| && Accepts(content, edits, from) && i < |edits|
  {
    var e := edits[0];
    content[from..e.range.start] + e.text +
    if i == 0 then [] else SplicedThrough(content, edits[1..], e.range.end, i - 1)
  }

  lemma {:induction false} SplicedThroughSplits(content: seq<byte>, edits: seq<Edit>, from: nat, i: nat)
    requires from <= |content| && Accepts(content, edits, from) && i < |edits|
    ensures edits[i].range.end <= |content| && Accepts(content, edits[i + 1..], edits[i].range.end)
    ensures IsBoundary(content, edits[i].range.end)
    ensures Splice(content, edits, from)
         == SplicedThrough(content, edits, from, i) + Splice(content, edits[i + 1..], edits[i].range.end)
    decreases |edits|
  {
    var e := edits[0];
    var head := content[from..e.range.start] + e.text;
    if i > 0 {
      SplicedThroughSplits(content, edits[1..], e.range.end, i - 1);
      DropDrop(edits, 1, i);
      Assoc(head, SplicedThrough(content, edits[1..], e.range.end, i - 1), Splice(content, edits[i + 1..], edits[i].range.end));
    } else {
      WithEmpty(head);
    }
  }

  lemma {:induction false} SplicedThroughEnds(content: seq<byte>, edits: seq<Edit>, from: nat, i: nat)
    requires from <= |content| && Accepts(content, edits, from) && i < |edits|
    ensures EndsIn(SplicedThrough(content, edits, from, i), edits[i].text)
    decreases |edits|
  {
    var e := edits[0];
    var head := content[from..e.range.start] + e.text;
    if i > 0 {
      SplicedThroughEnds(content, edits[1..], e.range.end, i - 1);
      EndsInConcat(head, SplicedThrough(content, edits[1..], e.range.end, i - 1), edits[i].text);
    } else {
      WithEmpty(head);
      JoinedParts(content[from..e.range.start], e.text);
    }
  }

  predicate EndsIn(s: seq<byte>, end: seq<byte>) {
    |end| <= |s| && s[|s| - |end|..] == end
  }

  lemma EndsInConcat(a: seq<byte>, b: seq<byte>, end: seq<byte>)
    requires EndsIn(b, end)
    ensures EndsIn(a + b, end)
  {
  }

  lemma CursorsAtEnds(content: seq<byte>, edits: seq<Edit>, from: nat, at: int, i: nat)
    requires from <= |content| && Accepts(content, edits, from) && i < |edits|
    ensures |Cursors(edits, from, at)| == |edits|
    ensures Cursors(edits, from, at)[i] == at + |SplicedThrough(content, edits, from, i)|
  {
    CursorsLength(edits, from, at);
    CursorReach(edits, from, at, i);
    ThroughReach(content, edits, from, i);
  }

  /** How far past `from`'s image the text of edit `i` ends. */
  ghost function Reach(edits: seq<Edit>, from: int, i: nat): int
    requires i < |edits|
  {
    edits[0].range.start - from + |edits[0].text| + if i == 0 then 0 else Reach(edits[1..], edits[0].range.end, i - 1)
  }

  lemma {:induction false} CursorReach(edits: seq<Edit>, from: int, at: int, i: nat)
    requires i < |edits|
    ensures |Cursors(edits, from, at)| == |edits|
    ensures Cursors(edits, from, at)[i] == at + Reach(edits, from, i)
    decreases |edits|
  {
    CursorsLength(edits, from, at);
    if i > 0 {
      CursorsTail(edits, from, at, i);
      CursorReach(edits[1..], edits[0].range.end, Cursors(edits, from, at)[0], i - 1);
    }
  }

  lemma {:induction false} ThroughReach(content: seq<byte>, edits: seq<Edit>, from: nat, i: nat)
    requires from <= |content| && Accepts(content, edits, from) && i < |edits|
    ensures |SplicedThrough(content, edits, from, i)| == Reach(edits, from, i)
    decreases |edits|
  {
    if i > 0 {
      ThroughReach(content, edits[1..], edits[0].range.end, i - 1);
    }
  }

  lemma {:induction false} CursorsLength(edits: seq<Edit>, from: int, at: int)
    ensures |Cursors(edits, from, at)| == |edits|
    decreases |edits|
  {
    if edits != [] {
      CursorsLength(edits[1..], edits[0].range.end, at + (edits[0].range.start - from) + |edits[0].text|);
    }
  }

  lemma CursorsTail(edits: seq<Edit>, from: int, at: int, i: nat)
    requires 0 < i < |edits|
    ensures |Cursors(edits, from, at)| == |edits|
    ensures var rest := Cursors(edits[1..], edits[0].range.end, Cursors(edits, from, at)[0]);
            |rest| == |edits| - 1 && Cursors(edits, from, at)[i] == rest[i - 1]
  {
    CursorsLength(edits, from, at);
    CursorsLength(edits[1..], edits[0].range.end, Cursors(edits, from, at)[0]);
  }

  /** The position is a character boundary, just past `text` and just before `rest`. */
  predicate StandsBetween(result: seq<byte>, position: int, text: seq<byte>, rest: seq<byte>) {
    && |text| <= position <= |result| && IsBoundary(result, position)
    && result[position - |text|..position] == text && result[position..] == rest
  }

  lemma JoinStandsBetween(before: seq<byte>, after: seq<byte>, text: seq<byte>)
    requires EndsIn(before, text) && Valid(after)
    ensures StandsBetween(before + after, |before|, text, after)
  {
    BoundaryInTail(before, after, 0);
    assert (before + after)[|before|..] == after;
    assert (before + after)[|before| - |text|..|before|] == before[|before| - |text|..];
  }

  /** Each cursor stands on a character boundary, between its own text and the splice of the edits
      that follow. */
  lemma CursorMeaning(content: seq<byte>, edits: seq<Edit>, i: nat)
    requires Valid(content) && Accepts(content, edits, 0) && i < |edits|
    ensures |Cursors(edits, 0, 0)| == |edits|
    ensures edits[i].range.end <= |content| && Accepts(content, edits[i + 1..], edits[i].range.end)
    ensures StandsBetween(Splice(content, edits, 0), Cursors(edits, 0, 0)[i], edits[i].text,
                          Splice(content, edits[i + 1..], edits[i].range.end))
  {
    SplicedThroughSplits(content, edits, 0, i);
    SpliceValid(content, edits[i + 1..], edits[i].range.end);
    CursorsAtEnds(content, edits, 0, 0, i);
    ThroughStands(content, edits, i, Splice(content, edits[i + 1..], edits[i].range.end));
  }

  lemma ThroughStands(content: seq<byte>, edits: seq<Edit>, i: nat, after: seq<byte>)
    requires Accepts(content, edits, 0) && i < |edits| && Valid(after)
    ensures var before := SplicedThrough(content, edits, 0, i);
            StandsBetween(before + after, |before|, edits[i].text, after)
  {
    SplicedThroughEnds(content, edits, 0, i);
    JoinStandsBetween(SplicedThrough(content, edits, 0, i), after, edits[i].text);
  }

  // ----- order independence

  lemma {:induction false} AcceptsAt(content: seq<byte>, edits: seq<Edit>, from: nat, i: nat)
    requires Accepts(content, edits, from) && i < |edits|
    ensures edits[i].range.start <= edits[i].range.end <= |content|
    ensures Accepts(content, edits[i..], if i == 0 then from else edits[i - 1].range.end)
    ensures i > 0 ==> from <= edits[i - 1].range.end <= |content| && IsBoundary(content, edits[i - 1].range.end)
    decreases |edits|
  {
    if i == 0 {
      assert edits[0..] == edits;
    } else {
      assert edits[1..][i - 1..] == edits[i..];
      AcceptsAt(content, edits[1..], edits[0].range.end, i - 1);
    }
  }

  /** Listing edits of distinct ranges in another order gives the same transaction. */
  lemma OrderIndependent(a: seq<Edit>, b: seq<Edit>)
    requires multiset(a) == multiset(b)
    requires forall x, y | x in a && y in a && x.range == y.range :: x == y
    ensures StableSort(a, EditLe) == StableSort(b, EditLe)
  {
    SortSorts(a, EditLe);
    SortSorts(b, EditLe);
    SortPermutes(a, EditLe);
    SortPermutes(b, EditLe);
    forall x | x in StableSort(a, EditLe) ensures x in a {
      assert x in multiset(a);
    }
    SortedUnique(StableSort(a, EditLe), StableSort(b, EditLe), EditLe);
  }

  // ----- bounded history

  function Push<T>(history: seq<T>, s: T): seq<T> {
    if |history| + 1 > HISTORY_LIMIT then (history + [s])[1..] else history + [s]
  }

  function PushAll<T>(history: seq<T>, states: seq<T>): seq<T> {
    if states == [] then history
    else Push(PushAll(history, states[..|states| - 1]), states[|states| - 1])
  }

  /** After any number of checkpoints the stack is the most recent 64 states, oldest first. */
  lemma {:induction false} HistoryIsLatest<T>(states: seq<T>)
    ensures PushAll([], states) == Latest(states)
    decreases |states|
  {
    if states != [] {
      HistoryIsLatest(states[..|states| - 1]);
      AsSnoc(states);
      PushLatest(states[..|states| - 1], states[|states| - 1]);
    }
  }

  function Latest<T>(states: seq<T>): seq<T> {
    if |states| <= HISTORY_LIMIT then states else states[|states| - HISTORY_LIMIT..]
  }

  lemma PushLatest<T>(states: seq<T>, s: T)
    ensures Push(Latest(states), s) == Latest(states + [s])
  {
    if |states| >= HISTORY_LIMIT {
      var k := |states| - HISTORY_LIMIT;
      assert Latest(states) == states[k..];
      DropOfConcat(states, [s], k);
      DropDrop(states + [s], k, 1);
    }
  }

  // ----- the document

  class TextDocument {
    var content: Text
    var anchor: nat
    var head: nat
    var additional: seq<Range>
    var undoStack: seq<Snapshot>
    var redoStack: seq<Snapshot>

    constructor (content: Text, cursor: nat)
      ensures this.content == content
      ensures anchor == head == Floor(content, cursor)
      ensures additional == [] && undoStack == [] && redoStack == []
    {
      var c := FloorLoop(content, cursor);
      this.content := content;
      anchor, head, additional, undoStack, redoStack := c, c, [], [], [];
    }

    function State(): Snapshot
      reads this
    {
      Snapshot(content, anchor, head, additional)
    }

    method Checkpoint()
      modifies this`undoStack, this`redoStack
      ensures undoStack == Push(old(undoStack), State()) && redoStack == []
    {
      undoStack := undoStack + [State()];
      if |undoStack| > HISTORY_LIMIT {
        undoStack := undoStack[1..];
      }
      redoStack := [];
    }

    /** Check the whole transaction, then rewrite the text back to front. */
    method Apply(edits: seq<Edit>) returns (ok: bool)
      modifies this
      ensures var sorted := StableSort(edits, EditLe);
              && ok == Accepts(old(content), sorted, 0)
              && (!ok || edits == [] ==> State() == old(State()) && undoStack == old(undoStack) && redoStack == old(redoStack))
              && (ok && edits != [] ==>
                    && content == Splice(old(content), sorted, 0)
                    && CursorsAre(Cursors(sorted, 0, 0))
                    && undoStack == Push(old(undoStack), old(State())) && redoStack == [])
    {
      var sorted := StableSort(edits, EditLe);
      SortPermutes(edits, EditLe);
      ok := Validate(sorted);
      if !ok || sorted == [] {
        return;
      }
      Checkpoint();
      var cursors := Carets(content, sorted);
      Rewrite(sorted);
      PlaceCursors(cursors);
    }

    method PlaceCursors(cursors: seq<nat>)
      requires cursors != []
      modifies this`anchor, this`head, this`additional
      ensures CursorsAre(cursors)
    {
      anchor := cursors[|cursors| - 1];
      head := anchor;
      additional := CaretRanges(cursors[..|cursors| - 1]);
    }

    method Rewrite(edits: seq<Edit>)
      requires Accepts(content, edits, 0)
      modifies this`content
      ensures content == Splice(old(content), edits, 0)
    {
      ghost var text := content;
      var i := |edits|;
      RewriteStart(text, edits);
      while i > 0
        invariant 0 <= i <= |edits| && RewrittenFrom(text, edits, i, content)
      {
        var e := edits[i - 1];
        RewriteStep(text, edits, i, content);
        content := Replaced(content, e);
        i := i - 1;
      }
      assert edits[0..] == edits;
    }

    /** The primary caret is the last cursor; the others become additional carets in order. */
    ghost predicate CursorsAre(cursors: seq<int>)
      reads this
    {
      && |cursors| == |additional| + 1
      && anchor == head == cursors[|cursors| - 1]
      && forall i | 0 <= i < |additional| :: additional[i].start == additional[i].end == cursors[i]
    }

    method Validate(edits: seq<Edit>) returns (ok: bool)
      ensures ok == Accepts(content, edits, 0)
    {
      var previousEnd := 0;
      for i := 0 to |edits|
        invariant Accepts(content, edits, 0) == Accepts(content, edits[i..], previousEnd)
      {
        var range := edits[i].range;
        assert edits[i..][1..] == edits[i + 1..];
        if range.start < previousEnd || range.start > range.end || range.end > |content|
           || !IsBoundary(content, range.start) || !IsBoundary(content, range.end)
        {
          return false;
        }
        previousEnd := range.end;
      }
      return true;
    }

    /** Type `text` over every selection. It cannot be refused and is one undo step. */
    method ReplaceSelections(text: Text) returns (ok: bool, ghost ranges: seq<Range>)
      modifies this
      ensures ok
      ensures ranges != [] && IsSelection(old(content), old(anchor), old(head), old(additional), ranges)
      ensures var edits := EditsFor(ranges, text);
              && Accepts(old(content), edits, 0) && content == Splice(old(content), edits, 0)
              && CursorsAre(Cursors(edits, 0, 0))
      ensures undoStack == Push(old(undoStack), old(State())) && redoStack == []
    {
      var selections := Selections();
      ranges := selections;
      var edits := EditsFor(selections, text);
      CanonicalAccepted(content, selections, text);
      ok := Apply(edits);
    }

    /** What is selected now: the additional selections and the one between anchor and head, normalised. */
    method Selections() returns (ranges: seq<Range>)
      ensures ranges != [] && IsSelection(content, anchor, head, additional, ranges)
    {
      var selections := additional + [if anchor <= head then Range(anchor, head) else Range(head, anchor)];
      ranges := NormalizeSelections(content, selections);
      FieldsMeaning(content, anchor, head, additional, selections);
    }
  }

  // ----- what is selected, in terms of the fields

  /** The range between two offsets in either order, each moved back to a character boundary. */
  function Between(content: seq<byte>, a: nat, b: nat): Range {
    if a <= b then Range(Floor(content, a), Floor(content, b)) else Range(Floor(content, b), Floor(content, a))
  }

  /** Selection `i` of the document: an additional one, or the one between anchor and head. */
  function Selection(content: seq<byte>, anchor: nat, head: nat, additional: seq<Range>, i: nat): Range
    requires i <= |additional|
  {
    if i == |additional| then Between(content, anchor, head) else Between(content, additional[i].start, additional[i].end)
  }

  ghost predicate SelectsByte(content: seq<byte>, anchor: nat, head: nat, additional: seq<Range>, k: nat) {
    exists i :: 0 <= i <= |additional| && Selection(content, anchor, head, additional, i).Contains(k)
  }

  ghost predicate SelectsAcross(content: seq<byte>, anchor: nat, head: nat, additional: seq<Range>, k: nat) {
    exists i :: 0 <= i <= |additional| && Selection(content, anchor, head, additional, i).Straddles(k)
  }

  /** Some selection is a bare caret at `k`, and none reaches `k` from the left. */
  ghost predicate SelectsCaret(content: seq<byte>, anchor: nat, head: nat, additional: seq<Range>, k: nat) {
    && (exists i :: 0 <= i <= |additional| && Selection(content, anchor, head, additional, i) == Range(k, k))
    && !exists i :: 0 <= i <= |additional| && Selection(content, anchor, head, additional, i).Reaches(k)
  }

  /** The ranges, in order and apart, that hold exactly what is selected: the same bytes, with no two that
      are selected apart run together, and the same carets. */
  ghost predicate IsSelection(content: seq<byte>, anchor: nat, head: nat, additional: seq<Range>, ranges: seq<Range>) {
    && Canonical(ranges) && Aligned(content, ranges)
    && (forall k :: Covers(ranges, k) <==> SelectsByte(content, anchor, head, additional, k))
    && (forall k :: Straddled(ranges, k) <==> SelectsAcross(content, anchor, head, additional, k))
    && (forall k: nat :: Range(k, k) in ranges <==> SelectsCaret(content, anchor, head, additional, k))
  }

  lemma FieldsMeaning(content: seq<byte>, anchor: nat, head: nat, additional: seq<Range>, selections: seq<Range>)
    requires |selections| == |additional| + 1 && selections[..|additional|] == additional
    requires Between(content, anchor, head) == Align(content, selections[|additional|])
    ensures IsSelection(content, anchor, head, additional, Normalized(content, selections))
  {
    var input := AlignAll(content, selections);
    AlignAllAligns(content, selections);
    NormalizedIsCanonical(content, selections);
    assert forall i | 0 <= i <= |additional| :: Selection(content, anchor, head, additional, i) == input[i];
    forall k: nat
      ensures Covers(Normalized(content, selections), k) <==> SelectsByte(content, anchor, head, additional, k)
      ensures Straddled(Normalized(content, selections), k) <==> SelectsAcross(content, anchor, head, additional, k)
      ensures Range(k, k) in Normalized(content, selections) <==> SelectsCaret(content, anchor, head, additional, k)
    {
      NormalizedMeaning(content, selections, k);
    }
  }

  /** Running signed shift of the insertion loop: never negative where it is used. */
  method Carets(content: seq<byte>, edits: seq<Edit>) returns (cursors: seq<nat>)
    requires Accepts(content, edits, 0)
    ensures |cursors| == |edits|
    ensures cursors == Cursors(edits, 0, 0)
  {
    var shift: int := 0;
    cursors := [];
    ghost var from: nat, at: nat := 0, 0;
    assert edits[0..] == edits;
    for i := 0 to |edits|
      invariant at == from + shift && CaretsUpTo(content, edits, i, cursors, from, at)
    {
      var e := edits[i];
      CaretsNext(content, edits, i, cursors, from, at);
      var cursor := e.range.start + shift + |e.text|;
      cursors := cursors + [cursor];
      shift := shift + |e.text| - (e.range.end - e.range.start);
      from, at := e.range.end, cursor;
    }
    WithEmpty(cursors);
  }

  /** The first `i` cursors are known; the rest follow from the source position `from`, which is shown at `at`. */
  ghost predicate CaretsUpTo(content: seq<byte>, edits: seq<Edit>, i: nat, cursors: seq<int>, from: nat, at: nat)
    requires i <= |edits|
  {
    |cursors| == i && Accepts(content, edits[i..], from) && Cursors(edits, 0, 0) == cursors + Cursors(edits[i..], from, at)
  }

  lemma CaretsNext(content: seq<byte>, edits: seq<Edit>, i: nat, cursors: seq<int>, from: nat, at: nat)
    requires i < |edits| && CaretsUpTo(content, edits, i, cursors, from, at)
    ensures from <= edits[i].range.start <= edits[i].range.end
    ensures var cursor := at + (edits[i].range.start - from) + |edits[i].text|;
            CaretsUpTo(content, edits, i + 1, cursors + [cursor], edits[i].range.end, cursor)
  {
    AcceptsStep(content, edits, i, from);
    CursorsStep(edits, i, from, at, cursors);
  }

  lemma AcceptsStep(content: seq<byte>, edits: seq<Edit>, i: nat, from: nat)
    requires i < |edits| && Accepts(content, edits[i..], from)
    ensures from <= edits[i].range.start <= edits[i].range.end && Accepts(content, edits[i + 1..], edits[i].range.end)
  {
    DropDrop(edits, i, 1);
  }

  lemma CursorsStep(edits: seq<Edit>, i: nat, from: int, at: int, cursors: seq<int>)
    requires i < |edits|
    ensures var cursor := at + (edits[i].range.start - from) + |edits[i].text|;
            cursors + Cursors(edits[i..], from, at) ==
              cursors + [cursor] + Cursors(edits[i + 1..], edits[i].range.end, cursor)
  {
    DropDrop(edits, i, 1);
    var cursor := at + (edits[i].range.start - from) + |edits[i].text|;
    Assoc(cursors, [cursor], Cursors(edits[i + 1..], edits[i].range.end, cursor));
  }

  function Replaced(content: seq<byte>, e: Edit): seq<byte>
    requires e.range.start <= e.range.end <= |content|
  {
    content[..e.range.start] + e.text + content[e.range.end..]
  }

  lemma ReplaceRange<T>(text: seq<T>, tail: seq<T>, previous: nat, start: nat, end: nat, t: seq<T>)
    requires previous <= start <= end <= |text|
    ensures var current := text[..end] + tail;
            current[..start] + t + current[end..] == text[..previous] + (text[previous..start] + t + tail)
  {
    var current := text[..end] + tail;
    assert current[end..] == tail;
    assert current[..start] == text[..previous] + text[previous..start];
  }

  /** Replacing one more range, to the left of everything replaced so far. */
  lemma ReplaceStep(text: Text, e: Edit, rest: seq<Edit>, previous: nat)
    requires IsBoundary(text, previous) && Accepts(text, [e] + rest, previous)
    ensures e.range.end <= |text| && Accepts(text, rest, e.range.end)
    ensures var current := text[..e.range.end] + Splice(text, rest, e.range.end);
            var next := current[..e.range.start] + e.text + current[e.range.end..];
            Valid(next) && next == text[..previous] + Splice(text, [e] + rest, previous)
  {
    assert ([e] + rest)[1..] == rest;
    ReplaceRange(text, Splice(text, rest, e.range.end), previous, e.range.start, e.range.end, e.text);
    SpliceValid(text, [e] + rest, previous);
    ValidCut(text, previous);
    ValidConcat(text[..previous], Splice(text, [e] + rest, previous));
  }

  ghost function EndBefore(edits: seq<Edit>, i: nat): nat
    requires i <= |edits|
  {
    if i == 0 then 0 else edits[i - 1].range.end
  }

  /** The edits from `i` on have been carried out; the text before them is untouched. */
  ghost predicate RewrittenFrom(text: seq<byte>, edits: seq<Edit>, i: nat, current: seq<byte>)
    requires i <= |edits|
  {
    var end := EndBefore(edits, i);
    && end <= |text| && Accepts(text, edits[i..], end)
    && current == text[..end] + Splice(text, edits[i..], end)
  }

  lemma RewriteStart(text: seq<byte>, edits: seq<Edit>)
    requires Accepts(text, edits, 0)
    ensures RewrittenFrom(text, edits, |edits|, text)
  {
    if edits != [] {
      AcceptsAt(text, edits, 0, |edits| - 1);
    }
  }

  lemma RewriteStep(text: Text, edits: seq<Edit>, i: nat, current: seq<byte>)
    requires Accepts(text, edits, 0) && 0 < i <= |edits| && RewrittenFrom(text, edits, i, current)
    ensures edits[i - 1].range.start <= edits[i - 1].range.end <= |current|
    ensures var next := Replaced(current, edits[i - 1]);
            Valid(next) && RewrittenFrom(text, edits, i - 1, next)
  {
    AcceptsAt(text, edits, 0, i - 1);
    DropAsCons(edits, i - 1);
    ReplaceStep(text, edits[i - 1], edits[i..], EndBefore(edits, i - 1));
  }

  lemma DropAsCons<T>(s: seq<T>, i: nat)
    requires i < |s|
    ensures s[i..] == [s[i]] + s[i + 1..]
  {
  }

  function CaretRanges(cursors: seq<nat>): (r: seq<Range>)
    ensures |r| == |cursors| && forall i | 0 <= i < |r| :: r[i] == Range(cursors[i], cursors[i])
  {
    if cursors == [] then [] else [Range(cursors[0], cursors[0])] + CaretRanges(cursors[1..])
  }

  function EditsFor(ranges: seq<Range>, text: Text): seq<Edit> {
    if ranges == [] then [] else [Edit(ranges[0], text)] + EditsFor(ranges[1..], text)
  }

  lemma {:induction false} EditsForAccepted(content: seq<byte>, ranges: seq<Range>, text: Text, from: nat)
    requires Canonical(ranges) && Aligned(content, ranges)
    requires ranges != [] ==> from <= ranges[0].start
    ensures Accepts(content, EditsFor(ranges, text), from)
    decreases |ranges|
  {
    if ranges != [] {
      assert IsAligned(content, ranges[0]);
      EditsForAccepted(content, ranges[1..], text, ranges[0].end);
      assert EditsFor(ranges, text)[1..] == EditsFor(ranges[1..], text);
    }
  }

  lemma {:induction false} EditsForAt(ranges: seq<Range>, text: Text)
    ensures |EditsFor(ranges, text)| == |ranges|
    ensures forall i | 0 <= i < |ranges| :: EditsFor(ranges, text)[i] == Edit(ranges[i], text)
  {
    if ranges != [] {
      EditsForAt(ranges[1..], text);
    }
  }

  /** A normalised selection list is always an acceptable, already sorted transaction. */
  lemma CanonicalAccepted(content: seq<byte>, ranges: seq<Range>, text: Text)
    requires Canonical(ranges) && Aligned(content, ranges)
    ensures Accepts(content, EditsFor(ranges, text), 0)
    ensures StableSort(EditsFor(ranges, text), EditLe) == EditsFor(ranges, text)
    ensures |EditsFor(ranges, text)| == |ranges|
  {
    EditsForAccepted(content, ranges, text, 0);
    EditsForAt(ranges, text);
    CanonicalSorted(ranges);
    forall i, j | 0 <= i < j < |ranges|
      ensures EditLe(EditsFor(ranges, text)[i], EditsFor(ranges, text)[j])
    {
      assert RangeLe(ranges[i], ranges[j]);
    }
    SortedFixed(EditsFor(ranges, text), EditLe);
  }
}
