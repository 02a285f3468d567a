/** Newline-delimited JSON over a chunked byte stream. Parsing and processing of one line is any
    function of the completion so far and the line. */
module LineStream {
  import opened Options
  import opened Seqs
  import opened Utf8

  const NEWLINE: byte := 10
  const LIMIT: nat := 4 * 1024 * 1024

  /** The kinds of error that can end a stream. */
  datatype Kind = Protocol | StreamInterrupted | Cancelled | Timeout | Tls | Connection

  /** What one line does: it ends the stream with an error (a malformed line, or a receiver that has gone
      away while its deltas are sent), the completion goes on, or the completion is done. */
  datatype Step<+S> = Refused(kind: Kind) | Continue(state: S) | Done(state: S)

  datatype Outcome<+S> = Completed(state: S) | Failed(kind: Kind)

  datatype Chunk = Data(bytes: seq<byte>) | Broken(kind: Kind)

  predicate IsAsciiWhitespace(b: byte) {
    b == 0x20 || b == 0x09 || b == 0x0A || b == 0x0C || b == 0x0D
  }

  predicate IsBlank(line: seq<byte>) {
    forall i | 0 <= i < |line| :: IsAsciiWhitespace(line[i])
  }

  lemma BlankIff(line: seq<byte>)
    ensures IsBlank(line) <==> forall b | b in line :: b in {0x09, 0x0A, 0x0C, 0x0D, 0x20}
  {
    if IsBlank(line) {
      forall b | b in line ensures IsAsciiWhitespace(b) {
        var i :| 0 <= i < |line| && line[i] == b;
      }
    } else {
      var i :| 0 <= i < |line| && !IsAsciiWhitespace(line[i]);
      assert line[i] in line;
    }
  }

  /** Position of the first newline, or the length when there is none. */
  function LineEnd(s: seq<byte>): (n: nat)
    ensures n <= |s| && (n < |s| ==> s[n] == NEWLINE)
    ensures forall i | 0 <= i < n :: s[i] != NEWLINE
  {
    if s == [] || s[0] == NEWLINE then 0 else 1 + LineEnd(s[1..])
  }

  /** Blank lines are passed over. */
  function Handle<S>(line: seq<byte>, s: S, process: (S, seq<byte>) -> Step<S>): Step<S> {
    if IsBlank(line) then Continue(s) else process(s, line)
  }

  /** What is left when the stream ends is one last line, blank or not. */

  function Finish<S>(rest: seq<byte>, s: S, process: (S, seq<byte>) -> Step<S>): Outcome<S> {
    if rest == [] then Failed(StreamInterrupted)
    else match process(s, rest)
      case Refused(kind) => Failed(kind)
      case Done(s') => Completed(s')
      case Continue(_) => Failed(StreamInterrupted)
  }

  /** Taking complete lines off the front either ends the stream or leaves an incomplete line. */
  datatype Drained<+S> = Stopped(outcome: Outcome<S>) | More(rest: seq<byte>, state: S)

  function Drain<S>(pending: seq<byte>, s: S, process: (S, seq<byte>) -> Step<S>): Drained<S>
    decreases |pending|
  {
    var n := LineEnd(pending);
    if n == |pending| then More(pending, s)
    else
      var (line, rest) := (pending[..n + 1], pending[n + 1..]);
      match Handle(line, s, process)
        case Refused(kind) => Stopped(Failed(kind))
        case Done(s') => Stopped(Completed(s'))
        case Continue(s') => Drain(rest, s', process)
  }

  function Run<S>(chunks: seq<Chunk>, pending: seq<byte>, s: S, process: (S, seq<byte>) -> Step<S>): Outcome<S>
    decreases |chunks|
  {
    if chunks == [] then Finish(pending, s, process)
    else if chunks[0].Broken? then Failed(chunks[0].kind)
    else
      var pending := pending + chunks[0].bytes;
      if |pending| > LIMIT then Failed(Protocol)
      else match Drain(pending, s, process)
        case Stopped(outcome) => outcome
        case More(rest, s') => Run(chunks[1..], rest, s', process)
  }

  /** Take complete lines off the buffer until none is left or the stream is over. */
  method DrainLines<S>(pending: seq<byte>, start: S, process: (S, seq<byte>) -> Step<S>) returns (r: Drained<S>)
    ensures r == Drain(pending, start, process)
  {
    var buffer, s := pending, start;
    ghost var drained := Drain(pending, start, process);
    while LineEnd(buffer) < |buffer|
      invariant Drain(buffer, s, process) == drained
      decreases |buffer|
    {
      var end := LineEnd(buffer);
      var step := Handle(buffer[..end + 1], s, process);
      buffer := buffer[end + 1..];
      match step {
        case Refused(kind) => return Stopped(Failed(kind));
        case Done(s') => return Stopped(Completed(s'));
        case Continue(s') => s := s';
      }
    }
    return More(buffer, s);
  }

  /** The loop of the source: extend the buffer, check its size, drain the complete lines. */
  method Complete<S>(chunks: seq<Chunk>, start: S, process: (S, seq<byte>) -> Step<S>) returns (outcome: Outcome<S>)
    ensures outcome == Run(chunks, [], start, process)
  {
    var pending: seq<byte>, s := [], start;
    for i := 0 to |chunks|
      invariant Run(chunks[i..], pending, s, process) == Run(chunks, [], start, process)
    {
      assert chunks[i..][1..] == chunks[i + 1..];
      if chunks[i].Broken? {
        return Failed(chunks[i].kind);
      }
      pending := pending + chunks[i].bytes;
      if |pending| > LIMIT {
        return Failed(Protocol);
      }
      var drained := DrainLines(pending, s, process);
      match drained {
        case Stopped(o) => return o;
        case More(rest, s') => pending, s := rest, s';
      }
    }
    outcome := Finish(pending, s, process);
  }

  // ----- chunking does not matter

  lemma LineEndConcat(a: seq<byte>, b: seq<byte>)
    ensures LineEnd(a) < |a| ==> LineEnd(a + b) == LineEnd(a)
    ensures LineEnd(a) == |a| ==> LineEnd(a + b) == |a| + LineEnd(b)
  {
    var n := LineEnd(a + b);
    if LineEnd(a) < |a| {
      assert (a + b)[LineEnd(a)] == NEWLINE;
      assert n < |a| ==> a[n] == (a + b)[n];
    } else {
      assert forall i | 0 <= i < |a| :: (a + b)[i] == a[i];
      assert forall i | 0 <= i < |b| :: (a + b)[|a| + i] == b[i];
    }
  }

  lemma {:induction false} DrainConcat<S>(a: seq<byte>, b: seq<byte>, s: S, process: (S, seq<byte>) -> Step<S>)
    ensures Drain(a + b, s, process) ==
              match Drain(a, s, process)
              case Stopped(o) => Stopped(o)
              case More(rest, s') => Drain(rest + b, s', process)
    decreases |a|
  {
    LineEndConcat(a, b);
    var n := LineEnd(a);
    if n < |a| {
      var line, rest := a[..n + 1], a[n + 1..];
      DropOfConcat(a, b, n + 1);
      match Handle(line, s, process)
      case Refused(_) =>
      case Done(_) =>
      case Continue(s') => DrainConcat(rest, b, s', process);
    }
  }

  function Joined(chunks: seq<Chunk>): seq<byte> {
    if chunks == [] || chunks[0].Broken? then [] else chunks[0].bytes + Joined(chunks[1..])
  }

  /** The error that the stream breaks off with, if it does. */
  function Breaks(chunks: seq<Chunk>): Option<Kind> {
    if chunks == [] then None else if chunks[0].Broken? then Some(chunks[0].kind) else Breaks(chunks[1..])
  }

  /** What follows the last newline. */
  function Tail(s: seq<byte>): seq<byte>
    decreases |s|
  {
    var n := LineEnd(s);
    if n == |s| then s else Tail(s[n + 1..])
  }

  lemma {:induction false} DrainLeavesTail<S>(pending: seq<byte>, s: S, process: (S, seq<byte>) -> Step<S>)
    ensures var d := Drain(pending, s, process); d.More? ==> d.rest == Tail(pending)
    decreases |pending|
  {
    var n := LineEnd(pending);
    if n < |pending| {
      var line, rest := pending[..n + 1], pending[n + 1..];
      match Handle(line, s, process)
      case Refused(_) =>
      case Done(_) =>
      case Continue(s') => DrainLeavesTail(rest, s', process);
    }
  }

  /** The unfinished line plus the next chunk never exceeds the limit. */
  predicate StaysWithin(chunks: seq<Chunk>, pending: seq<byte>)
    decreases |chunks|
  {
    chunks == [] || chunks[0].Broken? ||
    (|pending + chunks[0].bytes| <= LIMIT && StaysWithin(chunks[1..], Tail(pending + chunks[0].bytes)))
  }

  /** For every chunking whose buffer stays within the limit, the outcome is that of draining the
      whole text at once; a stream that breaks off gives what its complete lines decide, or its error. */
  lemma {:induction false} ChunkingIsTransparent<S>(chunks: seq<Chunk>, pending: seq<byte>, s: S, process: (S, seq<byte>) -> Step<S>)
    requires StaysWithin(chunks, pending) && LineEnd(pending) == |pending|
    ensures Run(chunks, pending, s, process) ==
              match Drain(pending + Joined(chunks), s, process)
              case Stopped(o) => o
              case More(rest, s') => match Breaks(chunks) case None => Finish(rest, s', process) case Some(kind) => Failed(kind)
    decreases |chunks|
  {
    if chunks == [] {
      assert pending + [] == pending;
    } else if chunks[0].Broken? {
      assert pending + [] == pending;
    } else {
      var text := pending + chunks[0].bytes;
      assert pending + Joined(chunks) == text + Joined(chunks[1..]);
      DrainConcat(text, Joined(chunks[1..]), s, process);
      match Drain(text, s, process)
      case Stopped(_) =>
      case More(rest, s') =>
        DrainLeavesTail(text, s, process);
        TailIsOneLine(text);
        ChunkingIsTransparent(chunks[1..], rest, s', process);
    }
  }

  lemma {:induction false} TailIsOneLine(s: seq<byte>)
    ensures LineEnd(Tail(s)) == |Tail(s)|
    decreases |s|
  {
    if LineEnd(s) < |s| {
      TailIsOneLine(s[LineEnd(s) + 1..]);
    }
  }

  /** The network's chunking is invisible, also in a stream that breaks off. */
  lemma SameBytesSameOutcome<S>(a: seq<Chunk>, b: seq<Chunk>, s: S, process: (S, seq<byte>) -> Step<S>)
    requires Joined(a) == Joined(b) && Breaks(a) == Breaks(b)
    requires StaysWithin(a, []) && StaysWithin(b, [])
    ensures Run(a, [], s, process) == Run(b, [], s, process)
  {
    ChunkingIsTransparent(a, [], s, process);
    ChunkingIsTransparent(b, [], s, process);
  }

  lemma {:induction false} TailConcat(a: seq<byte>, b: seq<byte>)
    ensures Tail(a + b) == Tail(Tail(a) + b)
    decreases |a|
  {
    LineEndConcat(a, b);
    var n := LineEnd(a);
    if n < |a| {
      DropOfConcat(a, b, n + 1);
      TailConcat(a[n + 1..], b);
    }
  }

  lemma {:induction false} OverfullDrains<S>(before: seq<Chunk>, chunk: seq<byte>, rest: seq<Chunk>, pending: seq<byte>, s: S,
                                                process: (S, seq<byte>) -> Step<S>)
    requires Breaks(before).None? && StaysWithin(before, pending) && LineEnd(pending) == |pending|
    requires |Tail(pending + Joined(before))| + |chunk| > LIMIT
    ensures Run(before + [Data(chunk)] + rest, pending, s, process) ==
              match Drain(pending + Joined(before), s, process) case Stopped(o) => o case More(_, _) => Failed(Protocol)
    decreases |before|
  {
    var all := before + [Data(chunk)] + rest;
    if before == [] {
      assert pending + [] == pending;
      assert all[0] == Data(chunk);
      assert Tail(pending) == pending;
    } else {
      var text, more := pending + before[0].bytes, Joined(before[1..]);
      assert all[1..] == before[1..] + [Data(chunk)] + rest;
      assert pending + Joined(before) == text + more;
      DrainConcat(text, more, s, process);
      match Drain(text, s, process)
      case Stopped(_) =>
      case More(tail, s') =>
        DrainLeavesTail(text, s, process);
        TailIsOneLine(text);
        TailConcat(text, more);
        OverfullDrains(before[1..], chunk, rest, tail, s', process);
    }
  }

  // ----- what the outcome means, in terms of the lines of the text

  /** One line of a text: it ends in a newline and has no other. */
  predicate IsLine(line: seq<byte>) {
    line != [] && line[|line| - 1] == NEWLINE && forall i | 0 <= i < |line| - 1 :: line[i] != NEWLINE
  }

  function Concat(parts: seq<seq<byte>>): seq<byte> {
    if parts == [] then [] else parts[0] + Concat(parts[1..])
  }

  /** The text is these lines, one after the other, and then a rest without a newline. */
  predicate IsCut(text: seq<byte>, lines: seq<seq<byte>>, rest: seq<byte>) {
    && (forall i | 0 <= i < |lines| :: IsLine(lines[i]))
    && NEWLINE !in rest && text == Concat(lines) + rest
  }

  function NonBlank(lines: seq<seq<byte>>): seq<seq<byte>> {
    if lines == [] then [] else (if IsBlank(lines[0]) then [] else [lines[0]]) + NonBlank(lines[1..])
  }

  /** The answer to the first item that does not let the completion go on, or an error at the end. */
  function FirstAnswer<S>(items: seq<seq<byte>>, s: S, process: (S, seq<byte>) -> Step<S>, end: Kind): Outcome<S> {
    if items == [] then Failed(end)
    else match process(s, items[0])
      case Refused(kind) => Failed(kind)
      case Done(s') => Completed(s')
      case Continue(s') => FirstAnswer(items[1..], s', process, end)
  }

  /** The items before position `k` were answered with "go on", through these states. */
  ghost predicate GoesOn<S>(items: seq<seq<byte>>, process: (S, seq<byte>) -> Step<S>, states: seq<S>, k: nat) {
    && |states| == k + 1 && k <= |items|
    && forall i | 0 <= i < k :: process(states[i], items[i]) == Continue(states[i + 1])
  }

  /** `FirstAnswer` by position: the first item not answered with "go on" decides. */
  lemma {:induction false} AnswerPosition<S>(items: seq<seq<byte>>, s: S, process: (S, seq<byte>) -> Step<S>, end: Kind)
    returns (states: seq<S>)
    ensures states != [] && states[0] == s && GoesOn(items, process, states, |states| - 1)
    ensures var k := |states| - 1;
            FirstAnswer(items, s, process, end) ==
            if k == |items| || process(states[k], items[k]).Continue? then Failed(end)
            else match process(states[k], items[k])
              case Done(s') => Completed(s')
              case Refused(kind) => Failed(kind)
    ensures |states| <= |items| ==> !process(states[|states| - 1], items[|states| - 1]).Continue?
    decreases |items|
  {
    states := [s];
    if items != [] && process(s, items[0]).Continue? {
      var more := AnswerPosition(items[1..], process(s, items[0]).state, process, end);
      states := [s] + more;
      forall i | 0 <= i < |states| - 1 ensures process(states[i], items[i]) == Continue(states[i + 1]) {
        if i > 0 {
          assert process(more[i - 1], items[1..][i - 1]) == Continue(more[i]);
        }
      }
    }
  }

  lemma LineComesFirst(line: seq<byte>, more: seq<byte>)
    requires IsLine(line)
    ensures LineEnd(line + more) == |line| - 1 && (line + more)[..|line|] == line && (line + more)[|line|..] == more
  {
    assert (line + more)[|line| - 1] == NEWLINE;
    assert forall i | 0 <= i < |line| - 1 :: (line + more)[i] == line[i];
  }

  lemma {:induction false} DrainLine<S>(line: seq<byte>, more: seq<byte>, s: S, process: (S, seq<byte>) -> Step<S>)
    requires IsLine(line)
    ensures Drain(line + more, s, process) ==
              match Handle(line, s, process)
              case Refused(kind) => Stopped(Failed(kind))
              case Done(t) => Stopped(Completed(t))
              case Continue(t) => Drain(more, t, process)
  {
    LineComesFirst(line, more);
  }

  lemma {:induction false} AnswerFrom<S>(item: seq<byte>, items: seq<seq<byte>>, last: seq<seq<byte>>, s: S,
                                         process: (S, seq<byte>) -> Step<S>, end: Kind)
    ensures FirstAnswer([item] + items + last, s, process, end) ==
              match process(s, item)
              case Refused(kind) => Failed(kind)
              case Done(t) => Completed(t)
              case Continue(t) => FirstAnswer(items + last, t, process, end)
  {
    Assoc([item], items, last);
    ConsParts(item, items + last);
  }

  lemma NoLineInRest(rest: seq<byte>)
    requires NEWLINE !in rest
    ensures LineEnd(rest) == |rest|
  {
    assert forall i | 0 <= i < |rest| :: rest[i] in rest;
  }

  lemma CutRest(lines: seq<seq<byte>>, rest: seq<byte>)
    requires lines != [] && IsCut(Concat(lines) + rest, lines, rest)
    ensures IsLine(lines[0]) && IsCut(Concat(lines[1..]) + rest, lines[1..], rest)
  {
  }

  lemma {:induction false} TailIsRest(lines: seq<seq<byte>>, rest: seq<byte>)
    requires IsCut(Concat(lines) + rest, lines, rest)
    ensures Tail(Concat(lines) + rest) == rest
  {
    if lines == [] {
      WithEmpty(rest);
      NoLineInRest(rest);
    } else {
      var more := Concat(lines[1..]) + rest;
      Assoc(lines[0], Concat(lines[1..]), rest);
      LineComesFirst(lines[0], more);
      CutRest(lines, rest);
      TailIsRest(lines[1..], rest);
    }
  }

  /** Draining a text goes through its lines that are not blank. */
  lemma {:induction false} DrainMeaning<S>(lines: seq<seq<byte>>, rest: seq<byte>, last: seq<seq<byte>>, s: S,
                                           process: (S, seq<byte>) -> Step<S>, end: Kind)
    requires IsCut(Concat(lines) + rest, lines, rest)
    ensures FirstAnswer(NonBlank(lines) + last, s, process, end) ==
              match Drain(Concat(lines) + rest, s, process)
              case Stopped(o) => o
              case More(r, s') => FirstAnswer(last, s', process, end)
    decreases |lines|
  {
    if lines == [] {
      WithEmpty(rest);
      WithEmpty(last);
      NoLineInRest(rest);
    } else {
      var line, more := lines[0], Concat(lines[1..]) + rest;
      Assoc(line, Concat(lines[1..]), rest);
      DrainLine(line, more, s, process);
      CutRest(lines, rest);
      if IsBlank(line) {
        WithEmpty(NonBlank(lines[1..]));
        DrainMeaning(lines[1..], rest, last, s, process, end);
      } else {
        AnswerFrom(line, NonBlank(lines[1..]), last, s, process, end);
        if process(s, line).Continue? {
          DrainMeaning(lines[1..], rest, last, process(s, line).state, process, end);
        }
      }
    }
  }

  lemma LastLine<S>(rest: seq<byte>, s: S, process: (S, seq<byte>) -> Step<S>)
    ensures Finish(rest, s, process) == FirstAnswer(if rest == [] then [] else [rest], s, process, StreamInterrupted)
  {
    assert [rest][1..] == [];
  }

  /** What a stream is asked to process: its lines that are not blank, and then what follows the last one. */
  function Items(lines: seq<seq<byte>>, rest: seq<byte>): seq<seq<byte>> {
    NonBlank(lines) + if rest == [] then [] else [rest]
  }

  /** For every chunking within the limit: the first line that does not let the completion go on decides,
      and without one the stream was interrupted. A stream that breaks off has no last line. */
  lemma OutcomeMeaning<S>(chunks: seq<Chunk>, lines: seq<seq<byte>>, rest: seq<byte>, s: S, process: (S, seq<byte>) -> Step<S>)
    requires StaysWithin(chunks, []) && IsCut(Joined(chunks), lines, rest)
    ensures Run(chunks, [], s, process) ==
              match Breaks(chunks)
              case None => FirstAnswer(Items(lines, rest), s, process, StreamInterrupted)
              case Some(kind) => FirstAnswer(NonBlank(lines), s, process, kind)
  {
    WithEmpty(Joined(chunks));
    ChunkingIsTransparent(chunks, [], s, process);
    DrainLeavesTail(Joined(chunks), s, process);
    TailIsRest(lines, rest);
    match Breaks(chunks)
    case None =>
      var last := if rest == [] then [] else [rest];
      DrainMeaning(lines, rest, last, s, process, StreamInterrupted);
      var drained := Drain(Joined(chunks), s, process);
      if drained.More? {
        LastLine(rest, drained.state, process);
      }
    case Some(kind) =>
      WithEmpty(NonBlank(lines));
      DrainMeaning(lines, rest, [], s, process, kind);
  }

  /** Every text can be cut. */
  lemma {:induction false} CutExists(text: seq<byte>) returns (lines: seq<seq<byte>>, rest: seq<byte>)
    ensures IsCut(text, lines, rest)
    decreases |text|
  {
    var n := LineEnd(text);
    if n == |text| {
      lines, rest := [], text;
      WithEmpty(text);
    } else {
      var more;
      more, rest := CutExists(text[n + 1..]);
      lines := [text[..n + 1]] + more;
      ConsParts(text[..n + 1], more);
      Rejoin(text, n + 1);
      Assoc(text[..n + 1], Concat(more), rest);
    }
  }

  /** The first chunk that overfills the buffer ends the stream with a protocol error, unless a line before it decides. */
  lemma OverfullIsRefused<S>(before: seq<Chunk>, chunk: seq<byte>, after: seq<Chunk>, lines: seq<seq<byte>>, rest: seq<byte>, s: S,
                             process: (S, seq<byte>) -> Step<S>)
    requires Breaks(before).None? && StaysWithin(before, []) && IsCut(Joined(before), lines, rest)
    requires |rest| + |chunk| > LIMIT
    ensures Run(before + [Data(chunk)] + after, [], s, process) == FirstAnswer(NonBlank(lines), s, process, Protocol)
  {
    WithEmpty(Joined(before));
    TailIsRest(lines, rest);
    OverfullDrains(before, chunk, after, [], s, process);
    WithEmpty(NonBlank(lines));
    DrainMeaning(lines, rest, [], s, process, Protocol);
  }
}
