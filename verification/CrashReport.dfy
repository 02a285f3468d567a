/** The bounded crash-report writer: pieces are written as they come, and the total is cut on a
    character boundary with room left for a truncation marker. */
module CrashReport {
  import opened Options
  import opened Utf8

  const MAX_REPORT: nat := 256 * 1024

  predicate IsAscii(s: string) {
    forall i | 0 <= i < |s| :: s[i] as int < 0x80
  }

  function Ascii(s: string): (r: seq<byte>)
    requires IsAscii(s)
    ensures |r| == |s| && Valid(r)
  {
    if s == "" then []
    else
      var rest := Ascii(s[1..]);
      assert ([s[0] as int] + rest)[1..] == rest;
      [s[0] as int] + rest
  }

  const MARKER_TEXT := "\n[report truncated]\n"

  const MARKER: seq<byte> := Ascii(MARKER_TEXT)

  /** The marker is 20 bytes long. */
  const BUDGET: nat := MAX_REPORT - 20

  lemma MarkerFits()
    ensures BUDGET + |MARKER| == MAX_REPORT
  {
    assert |MARKER_TEXT| == 20;
  }

  /** A sink that may run out of room: it takes what fits, then fails. `flushes` says whether flushing succeeds. */
  datatype Sink = Sink(written: seq<byte>, capacity: Option<nat>, flushes: bool)

  function WriteAll(sink: Sink, data: seq<byte>): (r: (Sink, bool))
    ensures sink.capacity.None? ==> r == (sink.(written := sink.written + data), true)
    ensures sink.written <= r.0.written <= sink.written + data && r.0 == sink.(written := r.0.written)
    ensures r.1 ==> r.0.written == sink.written + data
  {
    if sink.capacity.None? || |sink.written| + |data| <= sink.capacity.value || data == [] then
      (sink.(written := sink.written + data), true)
    else
      var room := if |sink.written| < sink.capacity.value then sink.capacity.value - |sink.written| else 0;
      (sink.(written := sink.written + data[..room]), false)
  }

  datatype Writer = Writer(sink: Sink, remaining: nat, truncated: bool, failed: bool)

  function Start(sink: Sink): Writer {
    Writer(sink, BUDGET, false, false)
  }

  function Write(w: Writer, value: Text): (Writer, bool) {
    if w.failed || w.truncated then (w, false)
    else
      var end := Floor(value, w.remaining);
      var (sink, ok) := WriteAll(w.sink, value[..end]);
      if !ok then (w.(sink := sink, failed := true), false)
      else (w.(sink := sink, remaining := w.remaining - end, truncated := end < |value|), end == |value|)
  }

  function WritePieces(w: Writer, pieces: seq<Text>): Writer
    decreases |pieces|
  {
    if pieces == [] then w else WritePieces(Write(w, pieces[0]).0, pieces[1..])
  }

  /** The finished sink, and whether finishing reports success. */
  function Finish(w: Writer): (Sink, bool) {
    FinishWith(w, MARKER)
  }

  function FinishWith(w: Writer, marker: seq<byte>): (Sink, bool) {
    if w.failed then (w.sink, false)
    else
      var (sink, ok) := if w.truncated then WriteAll(w.sink, marker) else (w.sink, true);
      (sink, ok && sink.flushes)
  }

  class BoundedWriter {
    var inner: Sink
    var remaining: nat
    var truncated: bool
    var error: bool

    constructor (inner: Sink)
      ensures Now() == Start(inner)
    {
      this.inner, remaining, truncated, error := inner, BUDGET, false, false;
    }

    function Now(): Writer
      reads this
    {
      Writer(inner, remaining, truncated, error)
    }

    method WriteStr(value: Text) returns (ok: bool)
      modifies this
      ensures (Now(), ok) == Write(old(Now()), value)
    {
      if error || truncated {
        return false;
      }
      var end := FloorLoop(value, remaining);
      var (sink, done) := WriteAll(inner, value[..end]);
      inner := sink;
      if !done {
        error := true;
        return false;
      }
      remaining := remaining - end;
      if end < |value| {
        truncated := true;
        return false;
      }
      return true;
    }

    method Close() returns (ok: bool)
      modifies this`inner
      ensures (inner, ok) == Finish(old(Now()))
    {
      if error {
        return false;
      }
      if truncated {
        var (sink, done) := WriteAll(inner, MARKER);
        inner := sink;
        if !done {
          return false;
        }
      }
      return inner.flushes;
    }
  }

  // ----- one-shot truncation

  function Joined(pieces: seq<Text>): seq<byte> {
    if pieces == [] then [] else pieces[0] + Joined(pieces[1..])
  }

  lemma {:induction false} JoinedValid(pieces: seq<Text>)
    ensures Valid(Joined(pieces))
  {
    if pieces != [] {
      JoinedValid(pieces[1..]);
      ValidConcat(pieces[0], Joined(pieces[1..]));
    }
  }

  /** The whole text if it fits, otherwise its longest character-aligned prefix and the marker. */
  function Report(text: seq<byte>): seq<byte> {
    if |text| <= BUDGET then text else text[..Floor(text, BUDGET)] + MARKER
  }

  lemma FloorOfPrefix(text: seq<byte>, more: seq<byte>, offset: nat)
    requires offset < |text|
    ensures Floor(text + more, offset) == Floor(text, offset)
  {
    var a, b := Floor(text, offset), Floor(text + more, offset);
    assert forall j | 0 <= j < |text| :: (text + more)[j] == text[j];
    FloorGreatest(text, offset, b);
    FloorGreatest(text + more, offset, a);
  }

  lemma FloorShift(before: seq<byte>, value: Text, offset: nat)
    requires offset <= |value|
    ensures Floor(before + value, |before| + offset) == |before| + Floor(value, offset)
  {
    var text := before + value;
    var a, b := Floor(value, offset), Floor(text, |before| + offset);
    BoundaryInTail(before, value, a);
    FloorGreatest(text, |before| + offset, |before| + a);
    if b > |before| {
      BoundaryInTail(before, value, b - |before|);
      FloorGreatest(value, offset, b - |before|);
    }
  }

  /** What an unbounded sink holds after `text` has been written piece by piece. */
  ghost predicate Holds(w: Writer, text: seq<byte>) {
    && w.sink.capacity.None? && w.sink.flushes && !w.failed && w.truncated == (|text| > BUDGET)
    && (if w.truncated then w.sink.written == text[..Floor(text, BUDGET)]
        else w.sink.written == text && w.remaining == BUDGET - |text|)
  }

  lemma WriteHolds(w: Writer, text: seq<byte>, value: Text)
    requires Holds(w, text)
    ensures Holds(Write(w, value).0, text + value)
  {
    if w.truncated {
      FloorOfPrefix(text, value, BUDGET);
      assert (text + value)[..Floor(text, BUDGET)] == text[..Floor(text, BUDGET)];
    } else {
      var end := Floor(value, w.remaining);
      if |value| <= w.remaining {
        assert value[..end] == value;
      } else {
        FloorShift(text, value, w.remaining);
        assert (text + value)[..|text| + end] == text + value[..end];
        assert end < |value|;
      }
    }
  }

  lemma {:induction false} WritePiecesHold(w: Writer, text: seq<byte>, pieces: seq<Text>)
    requires Holds(w, text)
    ensures Holds(WritePieces(w, pieces), text + Joined(pieces))
    decreases |pieces|
  {
    if pieces == [] {
      assert text + [] == text;
    } else {
      WriteHolds(w, text, pieces[0]);
      WritePiecesHold(Write(w, pieces[0]).0, text + pieces[0], pieces[1..]);
      assert text + pieces[0] + Joined(pieces[1..]) == text + Joined(pieces);
    }
  }

  /** A sink that never fails. */
  const GOOD_SINK := Sink([], None, true)

  /** For every sequence of writes the finished report is the one-shot truncation of everything written. */
  lemma ReportIsOneShot(pieces: seq<Text>)
    ensures Finish(WritePieces(Start(GOOD_SINK), pieces)) == (GOOD_SINK.(written := Report(Joined(pieces))), true)
    ensures |Report(Joined(pieces))| <= MAX_REPORT && Valid(Report(Joined(pieces)))
  {
    WritePiecesHold(Start(GOOD_SINK), [], pieces);
    assert [] + Joined(pieces) == Joined(pieces);
    var text := Joined(pieces);
    JoinedValid(pieces);
    MarkerFits();
    if |text| > BUDGET {
      ValidCut(text, Floor(text, BUDGET));
      ValidConcat(text[..Floor(text, BUDGET)], MARKER);
    }
  }

  // ----- a sink that fails

  predicate HasRoom(sink: Sink, n: nat) {
    sink.capacity.None? || n <= sink.capacity.value
  }

  /** Same progress as the writer over a sink that never fails, up to the point where there is no more room. */
  ghost predicate Follows(w: Writer, ideal: Writer) {
    && ideal.sink.capacity.None? && ideal.sink.flushes && !ideal.failed && HasRoom(w.sink, |w.sink.written|)
    && (if w.failed then w.sink.written <= ideal.sink.written && !HasRoom(w.sink, |ideal.sink.written|)
        else w.sink.written == ideal.sink.written && w.remaining == ideal.remaining && w.truncated == ideal.truncated)
  }

  lemma WriteFollows(w: Writer, ideal: Writer, value: Text)
    requires Follows(w, ideal)
    ensures Follows(Write(w, value).0, Write(ideal, value).0)
    ensures w.failed ==> Write(w, value).0 == w
    ensures Write(w, value).0.sink == w.sink.(written := Write(w, value).0.sink.written)
  {
  }

  lemma {:induction false} WritePiecesFollow(w: Writer, ideal: Writer, pieces: seq<Text>)
    requires Follows(w, ideal)
    ensures Follows(WritePieces(w, pieces), WritePieces(ideal, pieces))
    ensures WritePieces(w, pieces).sink == w.sink.(written := WritePieces(w, pieces).sink.written)
    decreases |pieces|
  {
    if pieces != [] {
      WriteFollows(w, ideal, pieces[0]);
      WritePiecesFollow(Write(w, pieces[0]).0, Write(ideal, pieces[0]).0, pieces[1..]);
    }
  }

  /** Over any sink, what reaches it is a prefix of the full report; success is reported exactly when the
      whole report had room and the flush succeeded, and then all of it is there. */
  lemma FailingSinkKeepsPrefix(capacity: Option<nat>, flushes: bool, pieces: seq<Text>)
    ensures var (start, report) := (Sink([], capacity, flushes), Report(Joined(pieces)));
            var (sink, ok) := Finish(WritePieces(Start(start), pieces));
            && sink.written <= report && (ok <==> flushes && HasRoom(start, |report|))
            && (HasRoom(start, |report|) ==> sink.written == report)
  {
    var start := Sink([], capacity, flushes);
    ReportIsOneShot(pieces);
    WritePiecesFollow(Start(start), Start(GOOD_SINK), pieces);
    FinishFollows(WritePieces(Start(start), pieces), WritePieces(Start(GOOD_SINK), pieces), MARKER);
  }

  lemma FinishFollows(w: Writer, ideal: Writer, marker: seq<byte>)
    requires Follows(w, ideal)
    ensures var (end, good) := (FinishWith(w, marker), FinishWith(ideal, marker).0.written);
            && end.0.written <= good && (end.1 <==> w.sink.flushes && HasRoom(w.sink, |good|))
            && (HasRoom(w.sink, |good|) ==> end.0.written == good)
  {
    if w.failed && ideal.truncated {
      assert ideal.sink.written <= ideal.sink.written + marker;
    }
  }
}
