/** How a run of frames goes, told from the frames: what ends it, what counts as generated content, which
    tool call has which index, and what makes it fail. */
module FrameFates {
  import opened Options
  import opened Seqs
  import opened GeminiParts
  import opened Frames

  // ----- what a frame says

  function TypeOf(v: Json): string {
    TextOr(Get(v, "type"))
  }

  /** The frame ends the stream. */
  predicate Ends(c: Config, f: Frame) {
    if f.isDone then !c.responses && c.protocol.OpenAi?
    else f.json.Some? && EndsWithValue(c, f.json.value)
  }

  predicate EndsWithValue(c: Config, v: Json) {
    if c.responses then TypeOf(v) in {"response.completed", "response.incomplete"}
    else match c.protocol
      case OpenAi => false
      case Gemini => First(v, "candidates").Some? && Get(First(v, "candidates").value, "finishReason").Str?
      case Anthropic => TypeOf(v) == "message_stop"
      case Ollama => Get(v, "done") == Bool(true)
  }

  /** The frame brings content. */
  predicate Generates(c: Config, v: Json) {
    if c.responses then TypeOf(v) == "response.output_item.added" || EndsWith(TypeOf(v), ".delta")
    else match c.protocol
      case OpenAi =>
        First(v, "choices").Some? && (var delta := Get(First(v, "choices").value, "delta"); delta.Obj? && delta.fields != map[])
      case Gemini => PartsOf(v) != []
      case Anthropic => TypeOf(v) in {"content_block_start", "content_block_delta"}
      case Ollama => Has(v, "message")
  }

  /** The last index that a list of calls gives to an id. */
  function LastNamed(calls: seq<Json>, id: string): Option<nat> {
    if calls == [] then None
    else
      var call := calls[|calls| - 1];
      if Get(call, "id") == Str(id) && Index(call, "index").Some? then Index(call, "index") else LastNamed(calls[..|calls| - 1], id)
  }

  /** The index that a frame gives to a tool call. */
  function Names(c: Config, v: Json, id: string): Option<nat> {
    if c.responses then
      if TypeOf(v) in {"response.output_item.added", "response.output_item.done"} && Get(Get(v, "item"), "call_id") == Str(id)
      then Index(v, "output_index") else None
    else match c.protocol
      case OpenAi =>
        (match First(v, "choices")
         case None => None
         case Some(choice) =>
           var calls := Get(Get(choice, "delta"), "tool_calls");
           if calls.Arr? then LastNamed(calls.elements, id) else None)
      case Anthropic => if TypeOf(v) == "content_block_start" && Get(Get(v, "content_block"), "id") == Str(id) then Index(v, "index") else None
      case _ => None
  }

  // ----- the kinds of the model

  lemma ResponseKinds(kind: string)
    ensures ResponseKindOf(kind).Finished? <==> kind in {"response.completed", "response.incomplete"}
    ensures ResponseKindOf(kind).ItemAdded? <==> kind == "response.output_item.added"
    ensures ResponseKindOf(kind).ItemDone? <==> kind == "response.output_item.done"
    ensures ResponseKindOf(kind).ArgumentsDelta? <==> kind == "response.function_call_arguments.delta"
    ensures ResponseKindOf(kind).ArgumentsDelta? || (ResponseKindOf(kind).OtherResponse? && ResponseKindOf(kind).delta) <==> EndsWith(kind, ".delta")
  {
  }

  lemma BlockKinds(kind: string)
    ensures BlockKindOf(kind).MessageStart? <==> kind == "message_start"
    ensures BlockKindOf(kind).MessageDelta? <==> kind == "message_delta"
    ensures BlockKindOf(kind).MessageStop? <==> kind == "message_stop"
    ensures BlockKindOf(kind).BlockStart? <==> kind == "content_block_start"
    ensures BlockKindOf(kind).BlockDelta? <==> kind == "content_block_delta"
    ensures BlockKindOf(kind).BlockStop? <==> kind == "content_block_stop"
  {
  }

  // ----- one frame

  function Entry(indexes: map<string, nat>, id: string): Option<nat> {
    if id in indexes then Some(indexes[id]) else None
  }

  /** The indexes after a frame: those it gives, and otherwise those from before. */
  ghost predicate IndexesAfter(c: Config, before: map<string, nat>, after: map<string, nat>, v: Json) {
    forall id :: Entry(after, id) == if Names(c, v, id).Some? then Names(c, v, id) else Entry(before, id)
  }

  /** What a frame that does not fail does to a run that is going. */
  ghost predicate FateAfter(c: Config, s: State, t: State, v: Json) {
    && (t.terminal <==> EndsWithValue(c, v))
    && (t.generated <==> s.generated || Generates(c, v))
    && IndexesAfter(c, s.indexes, t.indexes, v)
  }

  lemma ReplyFate(s: State, v: Json, kind: ResponseKind)
    requires !s.terminal && !ObserveResponse(s, v, kind).failed
    ensures var t := ObserveResponse(s, v, kind);
            && (t.terminal <==> kind.Finished?)
            && (t.generated <==> s.generated || kind.ItemAdded? || kind.ArgumentsDelta? || (kind.OtherResponse? && kind.delta))
            && t.indexes == if (kind.ItemAdded? || kind.ItemDone?) && Index(v, "output_index").Some?
                            then AddIndex(s.indexes, Get(Get(v, "item"), "call_id"), Index(v, "output_index").value) else s.indexes
  {
  }

  lemma IndexAdded(indexes: map<string, nat>, x: Json, i: nat, id: string)
    ensures Entry(AddIndex(indexes, x, i), id) == if x == Str(id) then Some(i) else Entry(indexes, id)
  {
  }

  lemma ResponseFate(c: Config, s: State, v: Json)
    requires c.responses && !s.terminal
    requires !ObserveResponse(s, v, ResponseKindOf(TypeOf(v))).failed
    ensures FateAfter(c, s, ObserveResponse(s, v, ResponseKindOf(TypeOf(v))), v)
  {
    var kind := ResponseKindOf(TypeOf(v));
    var t := ObserveResponse(s, v, kind);
    ResponseKinds(TypeOf(v));
    ReplyFate(s, v, kind);
    forall id ensures Entry(t.indexes, id) == if Names(c, v, id).Some? then Names(c, v, id) else Entry(s.indexes, id) {
      var i := Index(v, "output_index");
      if i.Some? {
        IndexAdded(s.indexes, Get(Get(v, "item"), "call_id"), i.value, id);
      }
    }
  }

  lemma {:induction false} CallsNamed(indexes: map<string, nat>, calls: seq<Json>, id: string)
    ensures Entry(AddCalls(indexes, calls), id) == if LastNamed(calls, id).Some? then LastNamed(calls, id) else Entry(indexes, id)
    decreases |calls|
  {
    if calls != [] {
      var call, i := Get(calls[0], "id"), Index(calls[0], "index");
      var next := if call.Str? && i.Some? then indexes[call.s := i.value] else indexes;
      CallsNamed(next, calls[1..], id);
      FirstNamed(calls, id);
    }
  }

  lemma {:induction false} FirstNamed(calls: seq<Json>, id: string)
    requires calls != []
    ensures LastNamed(calls, id) ==
              if LastNamed(calls[1..], id).Some? then LastNamed(calls[1..], id)
              else if Get(calls[0], "id") == Str(id) then Index(calls[0], "index") else None
    decreases |calls|
  {
    if |calls| > 1 {
      var front := calls[..|calls| - 1];
      FirstNamed(front, id);
      assert front[1..] == calls[1..][..|calls| - 2] && calls[1..][|calls| - 2] == calls[|calls| - 1];
    } else {
      assert calls[..0] == [] && calls[1..] == [];
    }
  }

  lemma OpenAiFate(c: Config, s: State, v: Json)
    requires !c.responses && c.protocol.OpenAi? && !s.terminal
    ensures FateAfter(c, s, ObserveOpenAi(s, v), v)
  {
    var choice := First(v, "choices");
    if choice.Some? && Get(Get(choice.value, "delta"), "tool_calls").Arr? {
      AllCallsNamed(s.indexes, Get(Get(choice.value, "delta"), "tool_calls").elements);
    }
  }

  lemma AllCallsNamed(indexes: map<string, nat>, calls: seq<Json>)
    ensures forall id :: Entry(AddCalls(indexes, calls), id) == if LastNamed(calls, id).Some? then LastNamed(calls, id) else Entry(indexes, id)
  {
    forall id
      ensures Entry(AddCalls(indexes, calls), id) == if LastNamed(calls, id).Some? then LastNamed(calls, id) else Entry(indexes, id)
    {
      CallsNamed(indexes, calls, id);
    }
  }

  lemma GeminiFate(c: Config, s: State, v: Json)
    requires !c.responses && c.protocol.Gemini?
    ensures FateAfter(c, s, ObserveGemini(s, v), v)
  {
  }

  lemma BlockFate(c: Config, s: State, v: Json, kind: BlockKind, i: nat)
    requires !ObserveBlock(c, s, v, kind, i).failed
    ensures var t := ObserveBlock(c, s, v, kind, i);
            && t.terminal == s.terminal && t.generated == s.generated
            && t.indexes == if kind.BlockStart? then AddIndex(s.indexes, Get(Get(v, "content_block"), "id"), i) else s.indexes
  {
  }

  lemma AnthropicFate(c: Config, s: State, v: Json)
    requires !c.responses && c.protocol.Anthropic?
    requires !ObserveAnthropic(c, s, v, BlockKindOf(TypeOf(v))).failed
    ensures FateAfter(c, s, ObserveAnthropic(c, s, v, BlockKindOf(TypeOf(v))), v)
  {
    BlockKinds(TypeOf(v));
    var kind := BlockKindOf(TypeOf(v));
    match Index(v, "index")
    case None =>
    case Some(i) => BlockFate(c, Opened(s, kind), v, kind, i);
  }

  lemma JsonFate(c: Config, s: State, v: Json)
    requires !s.terminal && !ObserveJson(c, s, v).failed
    ensures FateAfter(c, s, ObserveJson(c, s, v), v)
  {
    if c.responses {
      ResponseFate(c, s, v);
    } else {
      match c.protocol
      case OpenAi => OpenAiFate(c, s, v);
      case Gemini => GeminiFate(c, s, v);
      case Anthropic => AnthropicFate(c, s, v);
      case Ollama =>
    }
  }

  lemma FrameFate(c: Config, s: State, f: Frame)
    requires !s.terminal && !s.failed && !Observe(c, s, f).failed
    ensures var t := Observe(c, s, f);
            && (t.terminal <==> Ends(c, f))
            && if f.isDone then t.generated == s.generated && t.indexes == s.indexes
               else
                 && f.json.Some? && IndexesAfter(c, s.indexes, t.indexes, f.json.value)
                 && (t.generated <==> s.generated || Generates(c, f.json.value))
  {
    if !f.isDone {
      JsonFate(c, s.(bytes := SaturatingAdd(s.bytes, f.length)), f.json.value);
    }
  }

  // ----- every run

  ghost function After(c: Config, frames: seq<Frame>, n: nat): State
    requires n <= |frames|
  {
    if n == 0 then START else Observe(c, After(c, frames, n - 1), frames[n - 1])
  }

  lemma {:induction false} AllSnoc(c: Config, s: State, frames: seq<Frame>, f: Frame)
    ensures ObserveAll(c, s, frames + [f]) == Observe(c, ObserveAll(c, s, frames), f)
    decreases |frames|
  {
    if frames == [] {
      assert [] + [f] == [f] && [f][1..] == [];
    } else {
      TailOfConcat(frames, [f]);
      AllSnoc(c, Observe(c, s, frames[0]), frames[1..], f);
    }
  }

  lemma {:induction false} AfterIsRun(c: Config, frames: seq<Frame>, n: nat)
    requires n <= |frames|
    ensures After(c, frames, n) == ObserveAll(c, START, frames[..n])
  {
    if n > 0 {
      AfterIsRun(c, frames, n - 1);
      TakeSnoc(frames, n - 1);
      AllSnoc(c, START, frames[..n - 1], frames[n - 1]);
    }
  }

  /** Frame `k` is looked at: none before it has ended the stream, and it is not the closing mark. */
  ghost predicate IsRead(c: Config, frames: seq<Frame>, k: nat)
    requires k < |frames|
  {
    !frames[k].isDone && frames[k].json.Some? && forall j | 0 <= j < k :: !Ends(c, frames[j])
  }

  ghost predicate Ended(c: Config, frames: seq<Frame>, n: nat)
    requires n <= |frames|
  {
    exists k :: 0 <= k < n && Ends(c, frames[k])
  }

  ghost predicate HasContent(c: Config, frames: seq<Frame>, n: nat)
    requires n <= |frames|
  {
    exists k :: 0 <= k < n && IsRead(c, frames, k) && Generates(c, frames[k].json.value)
  }

  /** The index given last to a tool call. */
  ghost function LastIndex(c: Config, frames: seq<Frame>, n: nat, id: string): Option<nat>
    requires n <= |frames|
  {
    if n == 0 then None
    else if IsRead(c, frames, n - 1) && Names(c, frames[n - 1].json.value, id).Some? then Names(c, frames[n - 1].json.value, id)
    else LastIndex(c, frames, n - 1, id)
  }

  ghost predicate AsTold(c: Config, frames: seq<Frame>, n: nat, t: State)
    requires n <= |frames|
  {
    && (t.terminal <==> Ended(c, frames, n))
    && (t.generated <==> HasContent(c, frames, n))
    && forall id :: Entry(t.indexes, id) == LastIndex(c, frames, n, id)
  }

  lemma FailureStays(c: Config, s: State, f: Frame)
    requires s.failed
    ensures Observe(c, s, f).failed
  {
  }

  /** After the end nothing is read any more. */
  lemma ToldAfterEnd(c: Config, frames: seq<Frame>, n: nat, t: State)
    requires n < |frames| && AsTold(c, frames, n, t) && t.terminal
    ensures AsTold(c, frames, n + 1, t)
  {
    assert !IsRead(c, frames, n);
  }

  lemma ToldNext(c: Config, frames: seq<Frame>, n: nat, s: State)
    requires n < |frames| && AsTold(c, frames, n, s) && !s.terminal && !s.failed && !Observe(c, s, frames[n]).failed
    ensures AsTold(c, frames, n + 1, Observe(c, s, frames[n]))
  {
    var f, t := frames[n], Observe(c, s, frames[n]);
    FrameFate(c, s, f);
    assert Ended(c, frames, n + 1) <==> Ends(c, f);
    assert IsRead(c, frames, n) <==> !f.isDone;
  }

  lemma {:induction false} RunAsTold(c: Config, frames: seq<Frame>, n: nat)
    requires n <= |frames| && !After(c, frames, n).failed
    ensures AsTold(c, frames, n, After(c, frames, n))
  {
    if n > 0 {
      var s, f := After(c, frames, n - 1), frames[n - 1];
      if s.failed {
        FailureStays(c, s, f);
      }
      RunAsTold(c, frames, n - 1);
      if s.terminal {
        ToldAfterEnd(c, frames, n - 1, s);
      } else {
        ToldNext(c, frames, n - 1, s);
      }
    }
  }

  /** Over every run that has not failed: it is finished if and only if one of its frames ends the stream,
      content was generated if and only if a frame read before that brings some, and every tool call has
      the index it was given last. */
  lemma RunFate(c: Config, frames: seq<Frame>)
    requires !ObserveAll(c, START, frames).failed
    ensures AsTold(c, frames, |frames|, ObserveAll(c, START, frames))
  {
    AfterIsRun(c, frames, |frames|);
    assert frames[..|frames|] == frames;
    RunAsTold(c, frames, |frames|);
  }

  // ----- failures

  /** What a frame can be wrong about, given what came before. */
  predicate Breaks(c: Config, s: State, v: Json) {
    if c.responses then
      || (TypeOf(v) in {"response.completed", "response.incomplete"} && !Get(v, "response").Obj?)
      || (TypeOf(v) in {"response.output_item.added", "response.output_item.done"} && !Get(v, "item").Obj?)
    else match c.protocol
      case OpenAi => false
      case Gemini => First(v, "candidates").Some? && !First(v, "candidates").value.Obj?
      case Anthropic =>
        || (TypeOf(v) == "message_start" && !Get(v, "message").Obj?)
        || (TypeOf(v) == "message_stop" && s.arguments != map[])
        || (Index(v, "index").Some? && BlockBreaks(c, s, v, Index(v, "index").value))
      case Ollama => false
  }

  /** A block may not start twice or as no object, text needs a started block, and input a JSON object. */
  predicate BlockBreaks(c: Config, s: State, v: Json, i: nat) {
    || (TypeOf(v) == "content_block_start" && (i in s.items || !Get(v, "content_block").Obj?))
    || (TypeOf(v) == "content_block_delta" && Get(Get(v, "delta"), "type") != Str("input_json_delta") && i !in s.items)
    || (TypeOf(v) == "content_block_stop" && i in s.arguments &&
        !(s.arguments[i] in c.parse && c.parse[s.arguments[i]].Obj?))
  }

  lemma ReplyBreaks(c: Config, s: State, v: Json)
    requires c.responses && !s.failed
    ensures ObserveResponse(s, v, ResponseKindOf(TypeOf(v))).failed <==> Breaks(c, s, v)
  {
    ResponseKinds(TypeOf(v));
    ReplyFails(s, v, ResponseKindOf(TypeOf(v)));
  }

  lemma ReplyFails(s: State, v: Json, kind: ResponseKind)
    requires !s.failed
    ensures ObserveResponse(s, v, kind).failed <==>
              (kind.Finished? && !Get(v, "response").Obj?) || ((kind.ItemAdded? || kind.ItemDone?) && !Get(v, "item").Obj?)
  {
  }

  lemma BlockFails(c: Config, s: State, v: Json, i: nat)
    requires !s.failed
    ensures ObserveBlock(c, s, v, BlockKindOf(TypeOf(v)), i).failed <==> BlockBreaks(c, s, v, i)
  {
    BlockKinds(TypeOf(v));
    KindFails(c, s, v, BlockKindOf(TypeOf(v)), i);
  }

  lemma KindFails(c: Config, s: State, v: Json, kind: BlockKind, i: nat)
    requires !s.failed
    ensures ObserveBlock(c, s, v, kind, i).failed <==>
              || (kind.BlockStart? && (i in s.items || !Get(v, "content_block").Obj?))
              || (kind.BlockDelta? && Get(Get(v, "delta"), "type") != Str("input_json_delta") && i !in s.items)
              || (kind.BlockStop? && i in s.arguments && !(s.arguments[i] in c.parse && c.parse[s.arguments[i]].Obj?))
  {
  }

  lemma AnthropicBreaks(c: Config, s: State, v: Json)
    requires !c.responses && c.protocol.Anthropic? && !s.failed && !s.terminal
    ensures ObserveAnthropic(c, s, v, BlockKindOf(TypeOf(v))).failed <==> Breaks(c, s, v)
  {
    BlockKinds(TypeOf(v));
    var kind := BlockKindOf(TypeOf(v));
    match Index(v, "index")
    case None =>
    case Some(i) => BlockFails(c, Opened(s, kind), v, i);
  }

  lemma JsonBreaks(c: Config, s: State, v: Json)
    requires !s.failed && !s.terminal
    ensures ObserveJson(c, s, v).failed <==> Breaks(c, s, v)
  {
    if c.responses {
      ReplyBreaks(c, s, v);
    } else if c.protocol.Anthropic? {
      AnthropicBreaks(c, s, v);
    }
  }

  /** A run that is going fails at a frame if and only if the frame is no JSON object or reports an error, it
      is over the byte limit, it is wrong about something, or there are now too many calls or items. */
  lemma FailsIff(c: Config, s: State, f: Frame)
    requires !s.failed && !s.terminal
    ensures Observe(c, s, f).failed <==>
              && !f.isDone
              && (|| f.json.None? || !f.json.value.Obj? || Has(f.json.value, "error") || TypeOf(f.json.value) in {"error", "response.failed"}
                  || s.bytes + f.length > MAX_BYTES || Breaks(c, s, f.json.value)
                  || |Observe(c, s, f).indexes| > MAX_CALLS || |Observe(c, s, f).items| > MAX_ITEMS)
  {
    if !f.isDone && !Rejected(f) {
      JsonBreaks(c, s.(bytes := SaturatingAdd(s.bytes, f.length)), f.json.value);
    }
  }
}
