/** The response value that the frame observer assembles beside its other fields. */
module FrameData {
  import opened Options
  import opened Seqs
  import opened GeminiParts
  import opened Frames

  const ARGUMENT_FIELDS := {"content", "reasoning_content", "tool_calls"}

  // ----- building blocks

  /** The values of a map in the order of its keys. */
  ghost function Ordered(items: map<nat, Json>): seq<Json>
    decreases |items|
  {
    if items == map[] then []
    else
      var k := LastKey(items);
      KeyRemoved(items, k);
      Ordered(items - {k}) + [items[k]]
  }

  lemma KeyRemoved(items: map<nat, Json>, k: nat)
    requires k in items
    ensures |items - {k}| == |items| - 1
  {
    assert (items - {k}).Keys == items.Keys - {k};
  }

  /** `value[key] = x` succeeds on objects, and makes an object of null. */
  predicate Indexable(v: Json) {
    v.Obj? || v.Null?
  }

  function FieldsOf(v: Json): map<string, Json> {
    if v.Obj? then v.fields else map[]
  }

  /** Copy members into an object one by one. */
  function Merged(v: Json, fields: map<string, Json>): Json {
    Obj(FieldsOf(v) + fields)
  }

  function Put(v: Json, key: string, x: Json): Json {
    Obj(FieldsOf(v)[key := x])
  }

  // ----- one frame, per protocol; `items` are those after the frame

  ghost function ResponseData(data: Json, items: map<nat, Json>, v: Json, kind: ResponseKind): Json {
    var response := Get(v, "response");
    if !kind.Finished? || !response.Obj? then data
    else if Get(response, "output").Arr? && Get(response, "output").elements != [] then response
    else Put(response, "output", Arr(Ordered(items)))
  }

  /** The one choice that is kept: its members, and the members of its delta that are not streamed text. */
  function ChoiceData(choice: Json, update: map<string, Json>): Json {
    var merged := Merged(choice, update - {"delta"});
    if "delta" in update && update["delta"].Obj? && update["delta"].fields - ARGUMENT_FIELDS != map[] then
      Put(merged, "delta", Merged(Get(merged, "delta"), update["delta"].fields - ARGUMENT_FIELDS))
    else merged
  }

  function KeptChoice(data: Json): Json {
    var choices := Get(data, "choices");
    if choices.Arr? && choices.elements != [] then choices.elements[0] else Obj(map[])
  }

  function OpenAiData(data: Json, v: Json): Json {
    var choice := First(v, "choices");
    var d := if choice.Some? && choice.value.Obj? then Put(data, "choices", Arr([ChoiceData(KeptChoice(data), choice.value.fields)]))
             else data;
    Merged(d, FieldsOf(v) - {"choices"})
  }

  /** The candidate of this frame, or else the one kept so far. */
  function CandidateOf(data: Json, v: Json): Json {
    match First(v, "candidates")
    case Some(candidate) => candidate
    case None => match First(data, "candidates") case Some(candidate) => candidate case None => Obj(map[])
  }

  ghost function Content(items: map<nat, Json>): Json {
    Obj(map["role" := Str("model"), "parts" := Arr(Ordered(items))])
  }

  ghost function GeminiData(data: Json, items: map<nat, Json>, v: Json): Json {
    var candidate := CandidateOf(data, v);
    if !candidate.Obj? then data
    else Put(Merged(data, FieldsOf(v) - {"candidates"}), "candidates", Arr([Put(candidate, "content", Content(items))]))
  }

  function DeltaData(data: Json, v: Json): Json {
    var (delta, usage) := (Get(v, "delta"), Get(v, "usage"));
    var d := if delta.Obj? then Merged(data, delta.fields) else data;
    if usage.Obj? then Put(d, "usage", Merged(Get(d, "usage"), usage.fields)) else d
  }

  ghost function AnthropicData(data: Json, items: map<nat, Json>, v: Json, kind: BlockKind): Json {
    match kind
    case MessageStart => if Get(v, "message").Obj? then Get(v, "message") else data
    case MessageDelta => DeltaData(data, v)
    case MessageStop => Put(data, "content", Arr(Ordered(items)))
    case _ => data
  }

  function OllamaData(data: Json, v: Json): Json {
    if Get(v, "done") == Bool(true) then v else data
  }

  ghost function JsonData(c: Config, data: Json, items: map<nat, Json>, v: Json): Json {
    if c.responses then ResponseData(data, items, v, ResponseKindOf(TextOr(Get(v, "type")))) else ProtocolData(c, data, items, v)
  }

  ghost function ProtocolData(c: Config, data: Json, items: map<nat, Json>, v: Json): Json {
    match c.protocol
    case OpenAi => OpenAiData(data, v)
    case Gemini => GeminiData(data, items, v)
    case Anthropic => AnthropicData(data, items, v, BlockKindOf(TextOr(Get(v, "type"))))
    case Ollama => OllamaData(data, v)
  }

  /** The frame is looked at and its value taken in. */
  predicate Accepted(s: State, f: Frame) {
    !(s.terminal || s.failed || f.isDone || Rejected(f)) && SaturatingAdd(s.bytes, f.length) <= MAX_BYTES
  }

  ghost function DataAfter(c: Config, data: Json, s: State, f: Frame): Json {
    if Accepted(s, f) then JsonData(c, data, Observe(c, s, f).items, f.json.value) else data
  }

  /** The data after a run of frames. */
  ghost function DataOf(c: Config, data: Json, s: State, frames: seq<Frame>): Json
    decreases |frames|
  {
    if frames == [] then data else DataOf(c, DataAfter(c, data, s, frames[0]), Observe(c, s, frames[0]), frames[1..])
  }

  // ----- shapes that index assignments rely on

  /** A list of one object. */
  predicate OneObject(v: Json) {
    v.Arr? && |v.elements| == 1 && v.elements[0].Obj?
  }

  /** Where something is kept under these names it has the shape that later frames write into. */
  predicate Sound(c: Config, data: Json) {
    && data.Obj?
    && (!c.responses && c.protocol.OpenAi? ==> "choices" in data.fields ==>
          OneObject(data.fields["choices"]) && Indexable(Get(data.fields["choices"].elements[0], "delta")))
    && (!c.responses && c.protocol.Gemini? ==> "candidates" in data.fields ==> OneObject(data.fields["candidates"]))
  }

  lemma ChoiceSound(choice: Json, update: map<string, Json>)
    requires choice.Obj? && Indexable(Get(choice, "delta"))
    ensures ChoiceData(choice, update).Obj? && Indexable(Get(ChoiceData(choice, update), "delta"))
  {
    var merged := Merged(choice, update - {"delta"});
    assert Get(merged, "delta") == Get(choice, "delta");
  }

  lemma OpenAiSound(c: Config, data: Json, v: Json)
    requires Sound(c, data) && !c.responses && c.protocol.OpenAi? && v.Obj?
    ensures Sound(c, OpenAiData(data, v))
  {
    var choice := First(v, "choices");
    if choice.Some? && choice.value.Obj? {
      ChoiceSound(KeptChoice(data), choice.value.fields);
    }
  }

  lemma JsonSound(c: Config, data: Json, items: map<nat, Json>, v: Json)
    requires Sound(c, data) && v.Obj?
    ensures Sound(c, JsonData(c, data, items, v))
  {
    if !c.responses && c.protocol.OpenAi? {
      OpenAiSound(c, data, v);
    }
  }

  /** Over every run the data stays an object with the shapes that later frames assume, so that no index
      assignment ever meets a value it cannot write into. */
  lemma {:induction false} DataSound(c: Config, data: Json, s: State, frames: seq<Frame>)
    requires Sound(c, data)
    ensures Sound(c, DataOf(c, data, s, frames))
    decreases |frames|
  {
    if frames != [] {
      var f := frames[0];
      if Accepted(s, f) {
        JsonSound(c, data, Observe(c, s, f).items, f.json.value);
      }
      DataSound(c, DataAfter(c, data, s, f), Observe(c, s, f), frames[1..]);
    }
  }

  // ----- what the data says when the run is over

  /** The data agrees with the collected items: in a finished Anthropic message, in a finished response
      that did not bring its own output, and at any point of a Gemini run. */
  ghost predicate Complete(c: Config, s: State, data: Json) {
    !s.failed ==>
      if c.responses then
        s.terminal ==> var output := Get(data, "output"); output.Arr? && (output.elements != [] || output == Arr(Ordered(s.items)))
      else match c.protocol
        case Anthropic => s.terminal ==> Get(data, "content") == Arr(Ordered(s.items))
        case Gemini =>
          && (s.items != map[] ==> OneObject(Get(data, "candidates")))
          && (OneObject(Get(data, "candidates")) ==> Get(Get(data, "candidates").elements[0], "content") == Content(s.items))
        case _ => true
  }

  lemma ResponseComplete(c: Config, s: State, data: Json, v: Json, kind: ResponseKind)
    requires c.responses && !s.terminal
    ensures var t := ObserveResponse(s, v, kind); Complete(c, t, ResponseData(data, t.items, v, kind))
  {
  }

  lemma AnthropicEnds(c: Config, s: State, v: Json, kind: BlockKind)
    ensures ObserveAnthropic(c, s, v, kind).terminal == kind.MessageStop?
  {
    match Index(v, "index")
    case None =>
    case Some(i) => BlockEnds(c, Opened(s, kind), v, kind, i);
  }

  lemma BlockEnds(c: Config, s: State, v: Json, kind: BlockKind, i: nat)
    ensures ObserveBlock(c, s, v, kind, i).terminal == s.terminal
  {
  }

  lemma GeminiComplete(data: Json, items: map<nat, Json>, v: Json)
    requires CandidateOf(data, v).Obj?
    ensures OneObject(Get(GeminiData(data, items, v), "candidates"))
    ensures Get(Get(GeminiData(data, items, v), "candidates").elements[0], "content") == Content(items)
  {
  }

  lemma GeminiFails(c: Config, s: State, data: Json, v: Json)
    requires Sound(c, data) && !c.responses && c.protocol.Gemini? && !ObserveGemini(s, v).failed
    ensures CandidateOf(data, v).Obj?
  {
    if First(v, "candidates").None? && First(data, "candidates").Some? {
      assert "candidates" in data.fields;
    }
  }

  lemma JsonComplete(c: Config, s: State, data: Json, v: Json)
    requires Sound(c, data) && !s.terminal
    ensures var t := ObserveJson(c, s, v); Complete(c, t, JsonData(c, data, t.items, v))
  {
    if c.responses {
      ResponseComplete(c, s, data, v, ResponseKindOf(TextOr(Get(v, "type"))));
    } else {
      match c.protocol
      case Anthropic => AnthropicEnds(c, s, v, BlockKindOf(TextOr(Get(v, "type"))));
      case Gemini =>
        if !ObserveGemini(s, v).failed {
          GeminiFails(c, s, data, v);
          GeminiComplete(data, ObserveGemini(s, v).items, v);
        }
      case _ =>
    }
  }

  lemma FrameComplete(c: Config, s: State, data: Json, f: Frame)
    requires Sound(c, data) && Complete(c, s, data)
    ensures Complete(c, Observe(c, s, f), DataAfter(c, data, s, f))
  {
    if Accepted(s, f) {
      var t := s.(bytes := SaturatingAdd(s.bytes, f.length));
      JsonComplete(c, t, data, f.json.value);
      CheckedComplete(c, ObserveJson(c, t, f.json.value), DataAfter(c, data, s, f));
    } else {
      NotAccepted(c, s, f);
    }
  }

  lemma CheckedComplete(c: Config, s: State, data: Json)
    requires Complete(c, s, data)
    ensures Complete(c, Checked(s), data)
  {
  }

  /** A frame that is not taken in changes no item; it ends a run only for the OpenAI protocol. */
  lemma NotAccepted(c: Config, s: State, f: Frame)
    requires !Accepted(s, f)
    ensures var t := Observe(c, s, f);
            t.items == s.items && (t.failed || (t.terminal == s.terminal) || (!c.responses && c.protocol.OpenAi?))
            && (!t.failed ==> !s.failed)
  {
  }

  /** Over every run: the data agrees with the items as `Complete` says. */
  lemma {:induction false} RunComplete(c: Config, data: Json, s: State, frames: seq<Frame>)
    requires Sound(c, data) && Complete(c, s, data)
    ensures Complete(c, ObserveAll(c, s, frames), DataOf(c, data, s, frames))
    decreases |frames|
  {
    if frames != [] {
      var f := frames[0];
      FrameComplete(c, s, data, f);
      DataSound(c, data, s, [f]);
      OneFrame(c, data, s, f);
      RunComplete(c, DataAfter(c, data, s, f), Observe(c, s, f), frames[1..]);
    }
  }

  lemma OneFrame(c: Config, data: Json, s: State, f: Frame)
    ensures DataOf(c, data, s, [f]) == DataAfter(c, data, s, f)
  {
    assert [f][1..] == [];
  }

  const NO_DATA := Obj(map[])

  /** From the start of a stream. */
  lemma DataComplete(c: Config, frames: seq<Frame>)
    ensures Complete(c, ObserveAll(c, START, frames), DataOf(c, NO_DATA, START, frames))
    ensures Sound(c, DataOf(c, NO_DATA, START, frames))
  {
    RunComplete(c, NO_DATA, START, frames);
    DataSound(c, NO_DATA, START, frames);
  }

  // ----- Gemini: the kept candidate holds the maximal merge of all parts

  lemma {:induction false} OrderedList(items: map<nat, Json>, list: seq<Json>)
    requires Lists(items, list)
    ensures Ordered(items) == list
    decreases |items|
  {
    if items == map[] {
      assert |items| == 0;
    } else {
      LastKeyOfList(items, list);
      var k := LastKey(items);
      KeyRemoved(items, k);
      DropLast(items, list);
      OrderedList(items - {k}, list[..k]);
      AsSnoc(list);
    }
  }

  lemma DropLast(items: map<nat, Json>, list: seq<Json>)
    requires Lists(items, list) && list != []
    ensures Lists(items - {|list| - 1}, list[..|list| - 1])
  {
    var k: nat := |list| - 1;
    KeyRemoved(items, k);
    assert Dense(items);
    forall j: nat ensures j in items - {k} <==> j < |items - {k}| {
      assert j in items <==> j < |items|;
    }
  }

  /** In every Gemini run that has not failed, what the data keeps as the reply is the maximal merge of
      all the parts taken in. */
  lemma GeminiReply(c: Config, frames: seq<Frame>)
    requires !c.responses && c.protocol.Gemini? && !ObserveAll(c, START, frames).failed
    ensures var (candidates, parts) := (Get(DataOf(c, NO_DATA, START, frames), "candidates"), Consumed(c, START, frames));
            && (parts != [] ==> OneObject(candidates))
            && (OneObject(candidates) ==> Get(Get(candidates.elements[0], "content"), "parts") == Arr(MaximalRuns(parts)))
  {
    var items, parts := ObserveAll(c, START, frames).items, Consumed(c, START, frames);
    DataComplete(c, frames);
    GeminiItemsAreMaximalMerge(c, frames);
    OrderedList(items, MaximalRuns(parts));
    if parts != [] {
      SomeRun(parts);
      assert |items| > 0;
    }
  }

  lemma SomeRun(parts: seq<Json>)
    requires parts != []
    ensures MaximalRuns(parts) != []
  {
  }
}
