/** Reassembly of a streamed Anthropic content block: its JSON input arrives as text fragments between
    the start and the stop of the block. */
module AnthropicBlocks {
  import opened Options
  import opened Seqs
  import opened GeminiParts
  import opened Frames

  /** A frame's JSON value, and the running byte count once the frame has been counted. */
  datatype Event = Event(value: Json, bytes: nat)

  function KindOf(v: Json): BlockKind {
    BlockKindOf(TextOr(Get(v, "type")))
  }

  function ObserveEvent(c: Config, s: State, e: Event): State {
    ObserveAnthropic(c, s.(bytes := e.bytes), e.value, KindOf(e.value))
  }

  function ObserveEvents(c: Config, s: State, events: seq<Event>): State
    decreases |events|
  {
    if events == [] then s else ObserveEvents(c, ObserveEvent(c, s, events[0]), events[1..])
  }

  // ----- the frames of one block

  ghost predicate StartsBlock(v: Json, i: nat, block: Json) {
    KindOf(v).BlockStart? && Index(v, "index") == Some(i) && Get(v, "content_block") == block && block.Obj?
  }

  ghost predicate AddsInput(v: Json, i: nat, fragment: string) {
    && KindOf(v).BlockDelta? && Index(v, "index") == Some(i)
    && Get(Get(v, "delta"), "type") == Str("input_json_delta") && TextOr(Get(Get(v, "delta"), "partial_json")) == fragment
  }

  ghost predicate StopsBlock(v: Json, i: nat) {
    KindOf(v).BlockStop? && Index(v, "index") == Some(i)
  }

  ghost predicate AddInputs(events: seq<Event>, i: nat, fragments: seq<string>) {
    |events| == |fragments| && forall k | 0 <= k < |events| :: AddsInput(events[k].value, i, fragments[k])
  }

  function Concat(fragments: seq<string>): string {
    if fragments == [] then "" else fragments[0] + Concat(fragments[1..])
  }

  // ----- runs of events

  lemma ConcatOne(fragment: string)
    ensures Concat([fragment]) == fragment
  {
    assert [fragment][1..] == [];
    WithEmpty(fragment);
  }

  lemma {:induction false} ObserveEventsConcat(c: Config, s: State, a: seq<Event>, b: seq<Event>)
    ensures ObserveEvents(c, s, a + b) == ObserveEvents(c, ObserveEvents(c, s, a), b)
    decreases |a|
  {
    if a == [] {
      WithEmpty(b);
    } else {
      TailOfConcat(a, b);
      ObserveEventsConcat(c, ObserveEvent(c, s, a[0]), a[1..], b);
    }
  }

  lemma ObserveOne(c: Config, s: State, e: Event)
    ensures ObserveEvents(c, s, [e]) == ObserveEvent(c, s, e)
  {
    assert [e][1..] == [];
  }

  // ----- frames of other blocks, and frames without an index, do not interfere

  /** What the state holds for one block. */
  datatype Cell = Cell(item: Option<Json>, buffer: Option<string>)

  function CellOf(s: State, i: nat): Cell {
    Cell(if i in s.items then Some(s.items[i]) else None, if i in s.arguments then Some(s.arguments[i]) else None)
  }

  /** The events of block `i`. */
  function Only(events: seq<Event>, i: nat): seq<Event>
    decreases |events|
  {
    if events == [] then []
    else (if Index(events[0].value, "index") == Some(i) then [events[0]] else []) + Only(events[1..], i)
  }

  lemma BlockElsewhere(c: Config, s: State, v: Json, kind: BlockKind, j: nat, i: nat)
    requires j != i
    ensures CellOf(ObserveBlock(c, s, v, kind, j), i) == CellOf(s, i)
  {
  }

  lemma BlockSticks(c: Config, s: State, v: Json, kind: BlockKind, j: nat)
    requires s.failed
    ensures ObserveBlock(c, s, v, kind, j).failed
  {
  }

  lemma Elsewhere(c: Config, s: State, e: Event, i: nat)
    requires Index(e.value, "index") != Some(i)
    ensures CellOf(ObserveEvent(c, s, e), i) == CellOf(s, i)
    ensures s.failed ==> ObserveEvent(c, s, e).failed
  {
    var (v, kind) := (e.value, KindOf(e.value));
    var t := Begun(s, e);
    match Index(v, "index")
    case None =>
    case Some(j) =>
      BlockElsewhere(c, t, v, kind, j, i);
      if s.failed {
        BlockSticks(c, t, v, kind, j);
      }
  }

  /** The state in which the block of an event is looked at. */
  function Begun(s: State, e: Event): State {
    Opened(s.(bytes := e.bytes), KindOf(e.value))
  }

  /** What an event of a block makes of its cell, and whether it fails. */
  function CellStep(c: Config, cell: Cell, v: Json, kind: BlockKind): (Cell, bool) {
    match kind
    case BlockStart =>
      var block := Get(v, "content_block");
      if cell.item.Some? || !block.Obj? then (cell, true) else (cell.(item := Some(block)), false)
    case BlockDelta =>
      var delta := Get(v, "delta");
      if Get(delta, "type") == Str("input_json_delta") then
        (cell.(buffer := Some(OrEmpty(cell.buffer) + TextOr(Get(delta, "partial_json")))), false)
      else if cell.item.Some? then (cell.(item := Some(AppendFields(cell.item.value, delta, TEXT_FIELDS))), false)
      else (cell, true)
    case BlockStop =>
      if cell.buffer.None? then (cell, false)
      else if !IsInput(c, cell.buffer.value) then (cell.(buffer := None), true)
      else (Cell(WithInputValue(cell.item, c.parse[cell.buffer.value]), None), false)
    case _ => (cell, false)
  }

  function OrEmpty(text: Option<string>): string {
    if text.Some? then text.value else ""
  }

  function WithInputValue(item: Option<Json>, input: Json): Option<Json> {
    if item.Some? then Some(WithField(item.value, "input", input)) else None
  }

  /** What a block event does depends on that block alone, and so does whether it fails. */
  lemma BlockCell(c: Config, s: State, v: Json, kind: BlockKind, i: nat)
    ensures AsStep(c, s, v, kind, i)
  {
    match kind
    case BlockStart => StartCell(c, s, v, i);
    case BlockDelta => DeltaCell(c, s, v, i);
    case BlockStop => StopCell(c, s, v, i);
    case _ =>
  }

  /** The cell after an event, and whether the event fails, are as `CellStep` says. */
  ghost predicate AsStep(c: Config, s: State, v: Json, kind: BlockKind, i: nat) {
    var (t, (cell, fails)) := (ObserveBlock(c, s, v, kind, i), CellStep(c, CellOf(s, i), v, kind));
    CellOf(t, i) == cell && (t.failed <==> s.failed || fails)
  }

  lemma StartCell(c: Config, s: State, v: Json, i: nat)
    ensures AsStep(c, s, v, BlockStart, i)
  {
  }

  lemma DeltaCell(c: Config, s: State, v: Json, i: nat)
    ensures AsStep(c, s, v, BlockDelta, i)
  {
  }

  lemma StopCell(c: Config, s: State, v: Json, i: nat)
    ensures AsStep(c, s, v, BlockStop, i)
  {
  }

  lemma EventCell(c: Config, s: State, e: Event, i: nat)
    requires Index(e.value, "index") == Some(i)
    ensures var (cell, fails) := EventStep(c, CellOf(s, i), e.value);
            && CellOf(ObserveEvent(c, s, e), i) == cell
            && (s.failed || fails ==> ObserveEvent(c, s, e).failed)
            && (!KindOf(e.value).MessageStop? ==> (ObserveEvent(c, s, e).failed <==> s.failed || fails))
  {
    BlockCell(c, Begun(s, e), e.value, KindOf(e.value), i);
  }

  function EventStep(c: Config, cell: Cell, v: Json): (Cell, bool) {
    if KindOf(v).MessageStart? && !Get(v, "message").Obj? then (cell, true) else CellStep(c, cell, v, KindOf(v))
  }

  ghost predicate NoneStops(events: seq<Event>) {
    forall k | 0 <= k < |events| :: !KindOf(events[k].value).MessageStop?
  }

  /** Leaving out every other event leaves the same block behind, and no failure that was not there. */
  lemma {:induction false} OnlyMatters(c: Config, s: State, t: State, events: seq<Event>, i: nat)
    requires CellOf(s, i) == CellOf(t, i)
    ensures CellOf(ObserveEvents(c, s, events), i) == CellOf(ObserveEvents(c, t, Only(events, i)), i)
    ensures NoneStops(Only(events, i)) && (t.failed ==> s.failed) ==>
              (ObserveEvents(c, t, Only(events, i)).failed ==> ObserveEvents(c, s, events).failed)
    decreases |events|
  {
    if events != [] {
      var e, rest := events[0], events[1..];
      if Index(e.value, "index") == Some(i) {
        ConsParts(e, Only(rest, i));
        EventCell(c, s, e, i);
        EventCell(c, t, e, i);
        OnlyMatters(c, ObserveEvent(c, s, e), ObserveEvent(c, t, e), rest, i);
        if NoneStops(Only(events, i)) {
          TailStops(e, Only(rest, i));
        }
      } else {
        WithEmpty(Only(rest, i));
        Elsewhere(c, s, e, i);
        OnlyMatters(c, ObserveEvent(c, s, e), t, rest, i);
      }
    }
  }

  lemma TailStops(e: Event, rest: seq<Event>)
    requires NoneStops([e] + rest)
    ensures !KindOf(e.value).MessageStop? && NoneStops(rest)
  {
    assert ([e] + rest)[0] == e;
    forall k | 0 <= k < |rest| ensures !KindOf(rest[k].value).MessageStop? {
      assert ([e] + rest)[k + 1] == rest[k];
    }
  }

  predicate IsInput(c: Config, text: string) {
    text in c.parse && c.parse[text].Obj?
  }

  // ----- every prefix of every run

  function ObserveFirst(c: Config, s: State, events: seq<Event>, n: nat): State
    requires n <= |events|
  {
    if n == 0 then s else ObserveEvent(c, ObserveFirst(c, s, events, n - 1), events[n - 1])
  }

  lemma {:induction false} FirstIsRun(c: Config, s: State, events: seq<Event>, n: nat)
    requires n <= |events|
    ensures ObserveFirst(c, s, events, n) == ObserveEvents(c, s, events[..n])
  {
    if n > 0 {
      FirstIsRun(c, s, events, n - 1);
      TakeSnoc(events, n - 1);
      ObserveEventsConcat(c, s, events[..n - 1], [events[n - 1]]);
      ObserveOne(c, ObserveFirst(c, s, events, n - 1), events[n - 1]);
    }
  }

  /** The fragment of input that an event brings to block `i`. */
  function FragmentOf(v: Json, i: nat): Option<string> {
    var delta := Get(v, "delta");
    if KindOf(v).BlockDelta? && Index(v, "index") == Some(i) && Get(delta, "type") == Str("input_json_delta")
    then Some(TextOr(Get(delta, "partial_json"))) else None
  }

  /** The fragments for block `i` since its last stop. */
  ghost function Fragments(events: seq<Event>, n: nat, i: nat): seq<string>
    requires n <= |events|
  {
    if n == 0 || StopsBlock(events[n - 1].value, i) then []
    else match FragmentOf(events[n - 1].value, i)
      case None => Fragments(events, n - 1, i)
      case Some(f) => Fragments(events, n - 1, i) + [f]
  }

  lemma {:induction false} ConcatSnoc(fragments: seq<string>, f: string)
    ensures Concat(fragments + [f]) == Concat(fragments) + f
  {
    if fragments == [] {
      WithEmpty([f]);
      ConcatOne(f);
      WithEmpty(f);
    } else {
      TailOfConcat(fragments, [f]);
      ConcatSnoc(fragments[1..], f);
      Assoc(fragments[0], Concat(fragments[1..]), f);
    }
  }

  /** What the first `n` events make of the cell of block `i`, and whether one of its own has failed. */
  ghost function CellRun(c: Config, cell: Cell, events: seq<Event>, n: nat, i: nat): (Cell, bool)
    requires n <= |events|
  {
    if n == 0 then (cell, false)
    else
      var ((before, failed), v) := (CellRun(c, cell, events, n - 1, i), events[n - 1].value);
      if Index(v, "index") != Some(i) then (before, failed)
      else var (after, fails) := EventStep(c, before, v); (after, failed || fails)
  }

  lemma {:induction false} RunCell(c: Config, s: State, events: seq<Event>, n: nat, i: nat)
    requires n <= |events|
    ensures var (cell, failed) := CellRun(c, CellOf(s, i), events, n, i);
            CellOf(ObserveFirst(c, s, events, n), i) == cell && (s.failed || failed ==> ObserveFirst(c, s, events, n).failed)
  {
    if n > 0 {
      var t, e := ObserveFirst(c, s, events, n - 1), events[n - 1];
      RunCell(c, s, events, n - 1, i);
      if Index(e.value, "index") == Some(i) {
        EventCell(c, t, e, i);
      } else {
        Elsewhere(c, t, e, i);
      }
    }
  }

  /** What one event does to the buffer of its block. */
  lemma CellBuffer(c: Config, cell: Cell, v: Json, i: nat)
    requires Index(v, "index") == Some(i)
    ensures EventStep(c, cell, v).0.buffer ==
              if StopsBlock(v, i) then None
              else match FragmentOf(v, i) case None => cell.buffer case Some(f) => Some(OrEmpty(cell.buffer) + f)
  {
  }

  ghost predicate IsJoin(buffer: Option<string>, fragments: seq<string>) {
    buffer == if fragments == [] then None else Some(Concat(fragments))
  }

  lemma JoinStep(buffer: Option<string>, fragments: seq<string>, f: string)
    requires IsJoin(buffer, fragments)
    ensures IsJoin(Some(OrEmpty(buffer) + f), fragments + [f])
  {
    ConcatSnoc(fragments, f);
  }

  lemma {:induction false} CellBuffers(c: Config, cell: Cell, events: seq<Event>, n: nat, i: nat)
    requires n <= |events| && cell.buffer.None?
    ensures IsJoin(CellRun(c, cell, events, n, i).0.buffer, Fragments(events, n, i))
  {
    if n > 0 {
      var before, v := CellRun(c, cell, events, n - 1, i).0, events[n - 1].value;
      CellBuffers(c, cell, events, n - 1, i);
      if Index(v, "index") == Some(i) {
        CellBuffer(c, before, v, i);
        if FragmentOf(v, i).Some? {
          JoinStep(before.buffer, Fragments(events, n - 1, i), FragmentOf(v, i).value);
        }
      }
    }
  }

  /** At every point of every run the buffer of a block is the join of its fragments since its last stop,
      whatever else has come between. */
  lemma BufferIsJoin(c: Config, s: State, events: seq<Event>, n: nat, i: nat)
    requires n <= |events| && i !in s.arguments
    ensures IsJoin(CellOf(ObserveFirst(c, s, events, n), i).buffer, Fragments(events, n, i))
  {
    RunCell(c, s, events, n, i);
    CellBuffers(c, CellOf(s, i), events, n, i);
  }

  /** The cell after the start of a block and `k` fragments of its input. */
  lemma {:induction false} InputsRun(c: Config, start: Event, inputs: seq<Event>, stop: Event, i: nat, block: Json, fragments: seq<string>, k: nat)
    requires k <= |inputs| && StartsBlock(start.value, i, block) && AddInputs(inputs, i, fragments)
    ensures CellRun(c, Cell(None, None), [start] + inputs + [stop], k + 1, i)
         == (Cell(Some(block), if k == 0 then None else Some(Concat(fragments[..k]))), false)
  {
    var events := [start] + inputs + [stop];
    if k == 0 {
      assert events[0] == start;
      StartEvent(c, start.value, i, block);
      CellRunStep(c, Cell(None, None), events, 0, i, Cell(None, None));
    } else {
      var f, text := fragments[k - 1], if k == 1 then None else Some(Concat(fragments[..k - 1]));
      InputsRun(c, start, inputs, stop, i, block, fragments, k - 1);
      assert events[k] == inputs[k - 1] && AddsInput(inputs[k - 1].value, i, f);
      CellRunStep(c, Cell(None, None), events, k, i, Cell(Some(block), text));
      InputEvent(c, Cell(Some(block), text), events[k].value, i, f);
      TakeSnoc(fragments, k - 1);
      ConcatSnoc(fragments[..k - 1], f);
    }
  }

  lemma CellRunStep(c: Config, cell: Cell, events: seq<Event>, n: nat, i: nat, before: Cell)
    requires n < |events| && Index(events[n].value, "index") == Some(i) && CellRun(c, cell, events, n, i) == (before, false)
    ensures CellRun(c, cell, events, n + 1, i) == EventStep(c, before, events[n].value)
  {
  }

  lemma StartEvent(c: Config, v: Json, i: nat, block: Json)
    requires StartsBlock(v, i, block)
    ensures EventStep(c, Cell(None, None), v) == (Cell(Some(block), None), false)
  {
  }

  lemma InputEvent(c: Config, cell: Cell, v: Json, i: nat, f: string)
    requires AddsInput(v, i, f)
    ensures EventStep(c, cell, v) == (cell.(buffer := Some(OrEmpty(cell.buffer) + f)), false)
  {
  }

  lemma StopEvent(c: Config, block: Json, text: string, v: Json, i: nat)
    requires StopsBlock(v, i)
    ensures var (cell, fails) := EventStep(c, Cell(Some(block), Some(text)), v);
            if IsInput(c, text) then cell == Cell(Some(WithField(block, "input", c.parse[text])), None) && !fails else fails
  {
  }

  /** A block that is started, filled and stopped with nothing between. */
  lemma BlockAlone(c: Config, s: State, start: Event, inputs: seq<Event>, stop: Event, i: nat, block: Json, fragments: seq<string>)
    requires i !in s.items && i !in s.arguments && StartsBlock(start.value, i, block) && StopsBlock(stop.value, i)
    requires AddInputs(inputs, i, fragments) && inputs != []
    ensures var (t, text) := (ObserveEvents(c, s, [start] + inputs + [stop]), Concat(fragments));
            if IsInput(c, text) then CellOf(t, i) == Cell(Some(WithField(block, "input", c.parse[text])), None) else t.failed
  {
    var events, n := [start] + inputs + [stop], |inputs|;
    InputsRun(c, start, inputs, stop, i, block, fragments, n);
    assert fragments[..n] == fragments && events[n + 1] == stop && events[..n + 2] == events;
    CellRunStep(c, Cell(None, None), events, n + 1, i, Cell(Some(block), Some(Concat(fragments))));
    StopEvent(c, block, Concat(fragments), stop.value, i);
    RunCell(c, s, events, n + 2, i);
    FirstIsRun(c, s, events, n + 2);
  }

  /** However the input of a block is cut into fragments and whatever other frames lie between them, the
      stopped block holds the value of the joined text and no buffer; if that text is not a JSON object
      the stream has failed. */
  lemma InputReassembled(c: Config, s: State, events: seq<Event>, start: Event, inputs: seq<Event>, stop: Event,
                         i: nat, block: Json, fragments: seq<string>)
    requires i !in s.items && i !in s.arguments && Only(events, i) == [start] + inputs + [stop]
    requires StartsBlock(start.value, i, block) && AddInputs(inputs, i, fragments) && inputs != [] && StopsBlock(stop.value, i)
    ensures var (t, text) := (ObserveEvents(c, s, events), Concat(fragments));
            if IsInput(c, text) then CellOf(t, i) == Cell(Some(WithField(block, "input", c.parse[text])), None) else t.failed
  {
    OnlyMatters(c, s, s, events, i);
    BlockAlone(c, s, start, inputs, stop, i, block, fragments);
    forall k | 0 <= k < |[start] + inputs + [stop]| ensures !KindOf(([start] + inputs + [stop])[k].value).MessageStop? {
      if 0 < k <= |inputs| {
        assert ([start] + inputs + [stop])[k] == inputs[k - 1];
        assert AddsInput(inputs[k - 1].value, i, fragments[k - 1]);
      }
    }
  }

  /** The input that block `i` should hold: the join at its last stop with fragments since it was started. */
  ghost function InputText(events: seq<Event>, n: nat, i: nat): Option<string>
    requires n <= |events|
  {
    if n == 0 then None
    else
      var (v, fragments) := (events[n - 1].value, Fragments(events, n - 1, i));
      if KindOf(v).BlockStart? && Index(v, "index") == Some(i) then None
      else if StopsBlock(v, i) && fragments != [] then Some(Concat(fragments))
      else InputText(events, n - 1, i)
  }

  lemma {:induction false} AppendFieldsKeep(block: Json, delta: Json, fields: seq<string>, key: string)
    requires key !in fields
    ensures Get(AppendFields(block, delta, fields), key) == Get(block, key)
    decreases |fields|
  {
    if fields != [] {
      var x := Get(delta, fields[0]);
      AppendFieldsKeep(if x.Str? then AppendField(block, fields[0], x.s) else block, delta, fields[1..], key);
    }
  }

  /** The stored block holds this input, if there is one to hold. */
  ghost predicate HoldsInput(c: Config, item: Option<Json>, text: Option<string>) {
    text.Some? ==> IsInput(c, text.value) && (item.Some? ==> item.value.Obj? && Get(item.value, "input") == c.parse[text.value])
  }

  lemma CellInput(c: Config, cell: Cell, v: Json, i: nat, text: Option<string>)
    requires Index(v, "index") == Some(i) && !EventStep(c, cell, v).1 && HoldsInput(c, cell.item, text)
    requires cell.item.Some? ==> cell.item.value.Obj?
    ensures var item := EventStep(c, cell, v).0.item;
            && (item.Some? ==> item.value.Obj?)
            && (if KindOf(v).BlockStart? then true
                else if StopsBlock(v, i) && cell.buffer.Some? then HoldsInput(c, item, cell.buffer)
                else HoldsInput(c, item, text))
  {
    if KindOf(v).BlockDelta? && cell.item.Some? {
      TextFieldsAre();
      AppendFieldsKeep(cell.item.value, Get(v, "delta"), TEXT_FIELDS, "input");
      AppendFieldsObject(cell.item.value, Get(v, "delta"), TEXT_FIELDS);
    }
  }

  lemma {:induction false} CellInputs(c: Config, cell: Cell, events: seq<Event>, n: nat, i: nat)
    requires n <= |events| && cell == Cell(None, None) && !CellRun(c, cell, events, n, i).1
    ensures var item := CellRun(c, cell, events, n, i).0.item;
            (item.Some? ==> item.value.Obj?) && HoldsInput(c, item, InputText(events, n, i))
  {
    if n > 0 {
      var before, v := CellRun(c, cell, events, n - 1, i).0, events[n - 1].value;
      CellInputs(c, cell, events, n - 1, i);
      if Index(v, "index") == Some(i) {
        CellBuffers(c, cell, events, n - 1, i);
        CellInput(c, before, v, i, InputText(events, n - 1, i));
      }
    }
  }

  /** At every point of every run that has not failed, a block that is stored holds the value of the join
      at its last stop, whatever has come between and since. */
  lemma InputIsHeld(c: Config, s: State, events: seq<Event>, n: nat, i: nat)
    requires n <= |events| && i !in s.items && i !in s.arguments && !ObserveFirst(c, s, events, n).failed
    ensures HoldsInput(c, CellOf(ObserveFirst(c, s, events, n), i).item, InputText(events, n, i))
  {
    RunCell(c, s, events, n, i);
    CellInputs(c, CellOf(s, i), events, n, i);
  }

  lemma TextFieldsAre()
    ensures "input" !in TEXT_FIELDS
  {
    assert "input"[0] == 'i';
  }

  // ----- whole frames

  predicate IsAnthropic(c: Config) {
    !c.responses && c.protocol.Anthropic?
  }

  /** The events that a run looks at: the values of its frames, up to the one that ends it. */
  ghost function Heard(c: Config, s: State, frames: seq<Frame>): seq<Event>
    decreases |frames|
  {
    if frames == [] || s.terminal || s.failed then []
    else
      var f, rest := frames[0], Heard(c, Observe(c, s, frames[0]), frames[1..]);
      if f.isDone || f.json.None? then rest else [Event(f.json.value, SaturatingAdd(s.bytes, f.length))] + rest
  }

  lemma GoingFrame(c: Config, s: State, f: Frame)
    requires IsAnthropic(c) && !s.terminal && !s.failed && !Observe(c, s, f).failed
    ensures if f.isDone then Observe(c, s, f) == s
            else f.json.Some? && Observe(c, s, f) == ObserveEvent(c, s, Event(f.json.value, SaturatingAdd(s.bytes, f.length)))
    ensures !f.isDone ==> Observe(c, s, f).bytes == SaturatingAdd(s.bytes, f.length)
  {
    if !f.isDone {
      var t := s.(bytes := SaturatingAdd(s.bytes, f.length));
      AnthropicBytes(c, t, f.json.value, KindOf(f.json.value));
    }
  }

  lemma AnthropicBytes(c: Config, s: State, v: Json, kind: BlockKind)
    ensures ObserveAnthropic(c, s, v, kind).bytes == s.bytes
  {
    match Index(v, "index")
    case None =>
    case Some(i) =>
      BlockBytes(c, Opened(s, kind), v, kind, i);
  }

  lemma BlockBytes(c: Config, s: State, v: Json, kind: BlockKind, i: nat)
    ensures ObserveBlock(c, s, v, kind, i).bytes == s.bytes
  {
  }

  /** A run that has not failed has done exactly what its events do. */
  lemma {:induction false} RunIsItsEvents(c: Config, s: State, frames: seq<Frame>)
    requires IsAnthropic(c) && !ObserveAll(c, s, frames).failed
    ensures ObserveAll(c, s, frames) == ObserveEvents(c, s, Heard(c, s, frames))
    decreases |frames|
  {
    if s.terminal || s.failed {
      Absorbing(c, s, frames);
    } else if frames != [] {
      var f, rest := frames[0], frames[1..];
      var next := Observe(c, s, f);
      if next.failed {
        Absorbing(c, next, rest);
      }
      GoingFrame(c, s, f);
      RunIsItsEvents(c, next, rest);
      if !f.isDone {
        ConsParts(Event(f.json.value, next.bytes), Heard(c, next, rest));
      }
    }
  }

  /** In every run that has not failed, a block whose input came in any fragments, with any other frames
      between them, is stored with the value of the joined text and no buffer is left for it. */
  lemma StreamedInput(c: Config, s: State, frames: seq<Frame>, start: Event, inputs: seq<Event>, stop: Event,
                      i: nat, block: Json, fragments: seq<string>)
    requires IsAnthropic(c) && i !in s.items && i !in s.arguments
    requires Only(Heard(c, s, frames), i) == [start] + inputs + [stop]
    requires StartsBlock(start.value, i, block) && AddInputs(inputs, i, fragments) && inputs != [] && StopsBlock(stop.value, i)
    requires !ObserveAll(c, s, frames).failed
    ensures var (t, text) := (ObserveAll(c, s, frames), Concat(fragments));
            && IsInput(c, text) && i !in t.arguments
            && i in t.items && t.items[i] == WithField(block, "input", c.parse[text])
  {
    RunIsItsEvents(c, s, frames);
    InputReassembled(c, s, Heard(c, s, frames), start, inputs, stop, i, block, fragments);
  }

  /** Over every run that has not failed: each buffer is the join of the fragments of its block since the
      block's last stop, and each stored block holds the value of the join at its last stop. */
  lemma StreamedBlocks(c: Config, frames: seq<Frame>, i: nat)
    requires IsAnthropic(c) && !ObserveAll(c, START, frames).failed
    ensures var (cell, events) := (CellOf(ObserveAll(c, START, frames), i), Heard(c, START, frames));
            && IsJoin(cell.buffer, Fragments(events, |events|, i))
            && HoldsInput(c, cell.item, InputText(events, |events|, i))
  {
    var events := Heard(c, START, frames);
    RunIsItsEvents(c, START, frames);
    FirstIsRun(c, START, events, |events|);
    assert events[..|events|] == events;
    BufferIsJoin(c, START, events, |events|, i);
    InputIsHeld(c, START, events, |events|, i);
  }
}
