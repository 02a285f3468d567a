/** Request-local observer of raw provider frames. */
module Frames {
  import opened Options
  import opened GeminiParts

  datatype Protocol = OpenAi | Gemini | Anthropic | Ollama

  /** `parse` gives the JSON value of every text that has one. */
  datatype Config = Config(protocol: Protocol, responses: bool, parse: map<string, Json>)

  /** A raw frame: its length in bytes, whether its trimmed text is "[DONE]", and its JSON value if any. */
  datatype Frame = Frame(length: nat, isDone: bool, json: Option<Json>)

  datatype State = State(terminal: bool, failed: bool, generated: bool, indexes: map<string, nat>,
                         items: map<nat, Json>, bytes: nat, arguments: map<nat, string>)

  const MAX_BYTES: nat := 32 * 1024 * 1024
  const MAX_CALLS := 128
  const MAX_ITEMS := 4096
  const MAX_WORD: nat := 0xFFFF_FFFF_FFFF_FFFF

  const START := State(false, false, false, map[], map[], 0, map[])

  function SaturatingAdd(a: nat, b: nat): nat {
    if a + b > MAX_WORD then MAX_WORD else a + b
  }

  function Index(v: Json, key: string): Option<nat> {
    var x := Get(v, key);
    if x.Num? && 0 <= x.n <= MAX_WORD then Some(x.n) else None
  }

  /** A member is an index if it is a number that a machine word can hold. */
  lemma IndexIff(v: Json, key: string, i: nat)
    ensures Index(v, key) == Some(i) <==> Get(v, key) == Num(i) && i < 0x1_0000_0000_0000_0000
  {
  }

  /** The value at `/key/0` (section 4 of RFC 6901): the first element of a list, or the member "0" of an object. */
  function First(v: Json, key: string): Option<Json> {
    var x := Get(v, key);
    if x.Arr? && x.elements != [] then Some(x.elements[0])
    else if Has(x, "0") then Some(Get(x, "0"))
    else None
  }

  function EndsWith(s: string, suffix: string): bool {
    |s| >= |suffix| && s[|s| - |suffix|..] == suffix
  }

  lemma EndsWithIff(s: string, suffix: string)
    ensures EndsWith(s, suffix) <==> exists prefix :: s == prefix + suffix
  {
    if EndsWith(s, suffix) {
      assert s == s[..|s| - |suffix|] + suffix;
    }
  }

  function Fail(s: State): State {
    s.(failed := true)
  }

  function AddIndex(indexes: map<string, nat>, id: Json, index: nat): map<string, nat> {
    if id.Str? then indexes[id.s := index] else indexes
  }

  // ----- one frame, per protocol

  datatype ResponseKind = Finished | ItemAdded | ItemDone | ArgumentsDelta | OtherResponse(delta: bool)

  function ResponseKindOf(kind: string): ResponseKind {
    if kind == "response.completed" || kind == "response.incomplete" then Finished
    else if kind == "response.output_item.added" then ItemAdded
    else if kind == "response.output_item.done" then ItemDone
    else if kind == "response.function_call_arguments.delta" then ArgumentsDelta
    else OtherResponse(EndsWith(kind, ".delta"))
  }

  function ObserveResponse(s: State, v: Json, kind: ResponseKind): State {
    match kind
    case Finished =>
      var t := s.(terminal := true);
      if Get(v, "response").Obj? then t else Fail(t)
    case OtherResponse(delta) => s.(generated := s.generated || delta)
    case ArgumentsDelta =>
      var t := s.(generated := true);
      (match Index(v, "output_index")
       case None => t
       case Some(i) =>
         if i !in t.items then t
         else t.(items := t.items[i := AppendField(t.items[i], "arguments", TextOr(Get(v, "delta")))]))
    case _ =>
      var t := s.(generated := s.generated || kind.ItemAdded?);
      var item := Get(v, "item");
      if !item.Obj? then Fail(t)
      else match Index(v, "output_index")
        case None => t
        case Some(i) => t.(indexes := AddIndex(t.indexes, Get(item, "call_id"), i), items := t.items[i := item])
  }

  function AppendField(item: Json, field: string, fragment: string): Json {
    WithField(item, field, Str(TextOr(Get(item, field)) + fragment))
  }

  function AddCalls(indexes: map<string, nat>, calls: seq<Json>): map<string, nat>
    decreases |calls|
  {
    if calls == [] then indexes
    else
      var (id, i) := (Get(calls[0], "id"), Index(calls[0], "index"));
      AddCalls(if id.Str? && i.Some? then indexes[id.s := i.value] else indexes, calls[1..])
  }

  function ObserveOpenAi(s: State, v: Json): State {
    NotedCalls(s, First(v, "choices"))
  }

  function NotedCalls(s: State, choice: Option<Json>): State {
    match choice
    case None => s
    case Some(choice) =>
      var delta := Get(choice, "delta");
      var calls := Get(delta, "tool_calls");
      s.(indexes := if calls.Arr? then AddCalls(s.indexes, calls.elements) else s.indexes,
         generated := s.generated || (delta.Obj? && delta.fields != map[]))
  }

  /** The new parts of a Gemini frame. */
  function PartsOf(v: Json): seq<Json> {
    match First(v, "candidates")
    case None => []
    case Some(candidate) =>
      var parts := Get(Get(candidate, "content"), "parts");
      if parts.Arr? then parts.elements else []
  }

  ghost function ObserveGemini(s: State, v: Json): State {
    var candidate := First(v, "candidates");
    var t := s.(terminal := candidate.Some? && Get(candidate.value, "finishReason").Str?,
                generated := s.generated || PartsOf(v) != [],
                items := AppendItems(s.items, PartsOf(v)));
    if candidate.Some? && !candidate.value.Obj? then Fail(t) else t
  }

  function AppendFields(block: Json, delta: Json, fields: seq<string>): Json
    decreases |fields|
  {
    if fields == [] then block
    else
      var x := Get(delta, fields[0]);
      AppendFields(if x.Str? then AppendField(block, fields[0], x.s) else block, delta, fields[1..])
  }

  const TEXT_FIELDS := ["text", "thinking", "signature"]

  datatype BlockKind = MessageStart | MessageDelta | MessageStop | BlockStart | BlockDelta | BlockStop | OtherBlock

  function BlockKindOf(kind: string): BlockKind {
    if kind == "message_start" then MessageStart
    else if kind == "message_delta" then MessageDelta
    else if kind == "message_stop" then MessageStop
    else if kind == "content_block_start" then BlockStart
    else if kind == "content_block_delta" then BlockDelta
    else if kind == "content_block_stop" then BlockStop
    else OtherBlock
  }

  function ObserveBlock(c: Config, s: State, v: Json, kind: BlockKind, i: nat): State {
    match kind
    case BlockStart =>
      var block := Get(v, "content_block");
      if i in s.items || !block.Obj? then Fail(s)
      else s.(indexes := AddIndex(s.indexes, Get(block, "id"), i), items := s.items[i := block])
    case BlockDelta =>
      var delta := Get(v, "delta");
      if Get(delta, "type") == Str("input_json_delta") then
        var known := if i in s.arguments then s.arguments[i] else "";
        s.(arguments := s.arguments[i := known + TextOr(Get(delta, "partial_json"))])
      else if i in s.items then
        s.(items := s.items[i := AppendFields(s.items[i], delta, TEXT_FIELDS)])
      else Fail(s)
    case BlockStop =>
      if i !in s.arguments then s
      else
        var t := s.(arguments := s.arguments - {i});
        var text := s.arguments[i];
        if text in c.parse && c.parse[text].Obj? then
          if i in t.items then t.(items := t.items[i := WithField(t.items[i], "input", c.parse[text])]) else t
        else Fail(t)
    case _ => s
  }

  function ObserveAnthropic(c: Config, s: State, v: Json, kind: BlockKind): State {
    if kind.MessageStart? && !Get(v, "message").Obj? then Fail(Opened(s, kind))
    else Ended(ObserveIndexed(c, Opened(s, kind), v, kind))
  }

  function Opened(s: State, kind: BlockKind): State {
    s.(terminal := kind.MessageStop?, generated := s.generated || kind.BlockStart? || kind.BlockDelta?)
  }

  /** A message must not end with an open buffer. */
  function Ended(s: State): State {
    if s.terminal && s.arguments != map[] then Fail(s) else s
  }

  function ObserveIndexed(c: Config, s: State, v: Json, kind: BlockKind): State {
    match Index(v, "index") case None => s case Some(i) => ObserveBlock(c, s, v, kind, i)
  }

  function ObserveOllama(s: State, v: Json): State {
    s.(generated := s.generated || Has(v, "message"), terminal := Get(v, "done") == Bool(true))
  }

  ghost function ObserveJson(c: Config, s: State, v: Json): State {
    if c.responses then ObserveResponse(s, v, ResponseKindOf(TextOr(Get(v, "type")))) else ObserveProtocol(c, s, v)
  }

  ghost function ObserveProtocol(c: Config, s: State, v: Json): State {
    match c.protocol
    case OpenAi => ObserveOpenAi(s, v)
    case Gemini => ObserveGemini(s, v)
    case Anthropic => ObserveAnthropic(c, s, v, BlockKindOf(TextOr(Get(v, "type"))))
    case Ollama => ObserveOllama(s, v)
  }

  predicate IsError(v: Json) {
    Has(v, "error") || Get(v, "type") == Str("error") || Get(v, "type") == Str("response.failed")
  }

  function Checked(s: State): State {
    if |s.indexes| > MAX_CALLS || |s.items| > MAX_ITEMS then Fail(s) else s
  }

  /** The frame is not a JSON object, or it reports an error. */
  predicate Rejected(f: Frame) {
    f.json.None? || !f.json.value.Obj? || IsError(f.json.value)
  }

  ghost function Consume(c: Config, s: State, v: Json): State {
    if s.bytes > MAX_BYTES then Fail(s) else Checked(ObserveJson(c, s, v))
  }

  /** What one frame does to the observed state. */
  ghost function Observe(c: Config, s: State, f: Frame): State {
    if s.terminal || s.failed then s
    else if f.isDone then s.(terminal := !c.responses && c.protocol.OpenAi?)
    else if Rejected(f) then Fail(s)
    else Consume(c, s.(bytes := SaturatingAdd(s.bytes, f.length)), f.json.value)
  }

  ghost function ObserveAll(c: Config, s: State, frames: seq<Frame>): State
    decreases |frames|
  {
    if frames == [] then s else ObserveAll(c, Observe(c, s, frames[0]), frames[1..])
  }

  // ----- Gemini items are a map whose keys count up from zero

  ghost predicate Dense(items: map<nat, Json>) {
    forall k: nat :: k in items <==> k < |items|
  }

  ghost function LastKey(items: map<nat, Json>): (k: nat)
    requires items != map[]
    ensures k in items && forall j | j in items :: j <= k
  {
    Greatest(items.Keys);
    var k :| k in items && forall j | j in items :: j <= k;
    k
  }

  lemma {:induction false} Greatest(keys: set<nat>)
    requires keys != {}
    ensures exists k :: k in keys && forall j | j in keys :: j <= k
  {
    var x :| x in keys;
    if keys != {x} {
      Greatest(keys - {x});
      var k :| k in keys - {x} && forall j | j in keys - {x} :: j <= k;
      var m := if k < x then x else k;
      forall j | j in keys ensures j <= m {
        assert j == x || j in keys - {x};
      }
      assert m in keys;
    } else {
      assert forall j | j in keys :: j <= x;
    }
  }

  ghost function AppendItem(items: map<nat, Json>, part: Json): map<nat, Json> {
    if items != map[] && Mergeable(items[LastKey(items)], part) then
      items[LastKey(items) := Extended(items[LastKey(items)], part)]
    else
      items[|items| := part]
  }

  ghost function AppendItems(items: map<nat, Json>, parts: seq<Json>): map<nat, Json>
    decreases |parts|
  {
    if parts == [] then items else AppendItems(AppendItem(items, parts[0]), parts[1..])
  }

  /** The stored items are this list. */
  ghost predicate Lists(items: map<nat, Json>, list: seq<Json>) {
    |items| == |list| && Dense(items) && forall k | 0 <= k < |list| :: items[k] == list[k]
  }

  lemma LastKeyOfList(items: map<nat, Json>, list: seq<Json>)
    requires Lists(items, list) && items != map[]
    ensures list != [] && LastKey(items) == |list| - 1
  {
    var k :| k in items;
    assert |items| - 1 in items;
  }

  lemma PutNext(items: map<nat, Json>, list: seq<Json>, x: Json)
    requires Lists(items, list)
    ensures Lists(items[|items| := x], list + [x])
  {
    var n := |items|;
    var items' := items[n := x];
    KeyAdded(items, n, x);
    forall k: nat ensures k in items' <==> k < |items'| {
      assert k in items' <==> k in items || k == n;
    }
  }

  lemma KeyAdded(items: map<nat, Json>, n: nat, x: Json)
    requires n !in items
    ensures |items[n := x]| == |items| + 1
  {
    assert items[n := x].Keys == items.Keys + {n};
  }

  lemma PutLast(items: map<nat, Json>, list: seq<Json>, x: Json)
    requires Lists(items, list) && list != []
    ensures Lists(items[|list| - 1 := x], list[..|list| - 1] + [x])
  {
    var items' := items[|list| - 1 := x];
    assert items'.Keys == items.Keys;
    assert |items'| == |items|;
  }

  lemma AppendItemLists(items: map<nat, Json>, list: seq<Json>, part: Json)
    requires Lists(items, list)
    ensures Lists(AppendItem(items, part), Append(list, part))
  {
    PutNext(items, list, part);
    if items != map[] {
      LastKeyOfList(items, list);
      if Mergeable(items[LastKey(items)], part) {
        PutLast(items, list, Extended(items[LastKey(items)], part));
      }
    } else {
      assert |items| == 0;
    }
  }

  lemma {:induction false} AppendItemsList(items: map<nat, Json>, list: seq<Json>, parts: seq<Json>)
    requires Lists(items, list)
    ensures Lists(AppendItems(items, parts), AppendAll(list, parts))
    decreases |parts|
  {
    if parts != [] {
      AppendItemLists(items, list, parts[0]);
      AppendItemsList(AppendItem(items, parts[0]), Append(list, parts[0]), parts[1..]);
    }
  }

  // ----- invariants of every run

  ghost predicate Inv(c: Config, s: State) {
    && (!s.failed ==> s.bytes <= MAX_BYTES && |s.indexes| <= MAX_CALLS && |s.items| <= MAX_ITEMS)
    && (!s.failed && s.terminal && !c.responses && c.protocol.Anthropic? ==> s.arguments == map[])
    && Shaped(c, s.items)
  }

  ghost predicate Shaped(c: Config, items: map<nat, Json>) {
    if !c.responses && c.protocol.Gemini? then Dense(items) else Objects(items)
  }

  lemma {:induction false} AppendFieldsObject(block: Json, delta: Json, fields: seq<string>)
    requires block.Obj?
    ensures AppendFields(block, delta, fields).Obj?
    decreases |fields|
  {
    if fields != [] {
      var x := Get(delta, fields[0]);
      AppendFieldsObject(if x.Str? then AppendField(block, fields[0], x.s) else block, delta, fields[1..]);
    }
  }

  lemma GeminiDense(s: State, v: Json)
    requires Dense(s.items)
    ensures Dense(ObserveGemini(s, v).items) && ObserveGemini(s, v).bytes == s.bytes
  {
    var list := seq(|s.items|, k requires 0 <= k < |s.items| => s.items[k]);
    AppendItemsList(s.items, list, PartsOf(v));
  }

  ghost predicate Objects(items: map<nat, Json>) {
    forall i | i in items :: items[i].Obj?
  }

  lemma ResponseKeeps(s: State, v: Json, kind: ResponseKind)
    requires Objects(s.items)
    ensures Objects(ObserveResponse(s, v, kind).items) && ObserveResponse(s, v, kind).bytes == s.bytes
  {
    match kind
    case ArgumentsDelta =>
      if Index(v, "output_index").Some? && Index(v, "output_index").value in s.items {
        var i := Index(v, "output_index").value;
        AppendFieldObject(s.items[i], "arguments", TextOr(Get(v, "delta")));
      }
    case _ =>
  }

  lemma AppendFieldObject(item: Json, field: string, fragment: string)
    requires item.Obj?
    ensures AppendField(item, field, fragment).Obj?
  {
  }

  lemma BlockKeeps(c: Config, s: State, v: Json, kind: BlockKind, i: nat)
    requires Objects(s.items)
    ensures Objects(ObserveBlock(c, s, v, kind, i).items)
    ensures ObserveBlock(c, s, v, kind, i).bytes == s.bytes && ObserveBlock(c, s, v, kind, i).terminal == s.terminal
  {
    if i in s.items {
      AppendFieldsObject(s.items[i], Get(v, "delta"), TEXT_FIELDS);
    }
  }

  lemma AnthropicKeeps(c: Config, s: State, v: Json, kind: BlockKind)
    requires Objects(s.items)
    ensures var t := ObserveAnthropic(c, s, v, kind);
            Objects(t.items) && t.bytes == s.bytes && (t.terminal && !t.failed ==> t.arguments == map[])
  {
    match Index(v, "index")
    case None =>
    case Some(i) => BlockKeeps(c, Opened(s, kind), v, kind, i);
  }

  /** No protocol branch touches the byte count, items stay objects, and a finished Anthropic message
      has closed its buffers. */
  lemma ObserveJsonKeeps(c: Config, s: State, v: Json)
    requires Shaped(c, s.items)
    ensures var t := ObserveJson(c, s, v);
            && t.bytes == s.bytes && Shaped(c, t.items)
            && (!c.responses && c.protocol.Anthropic? && t.terminal && !t.failed ==> t.arguments == map[])
  {
    if c.responses {
      ResponseKeeps(s, v, ResponseKindOf(TextOr(Get(v, "type"))));
    } else {
      match c.protocol
      case OpenAi => OpenAiKeeps(s, v);
      case Gemini => GeminiDense(s, v);
      case Anthropic => AnthropicKeeps(c, s, v, BlockKindOf(TextOr(Get(v, "type"))));
      case Ollama =>
    }
  }

  lemma OpenAiKeeps(s: State, v: Json)
    ensures ObserveOpenAi(s, v).items == s.items && ObserveOpenAi(s, v).bytes == s.bytes
  {
  }

  lemma ConsumeKeepsInv(c: Config, s: State, v: Json)
    requires Shaped(c, s.items) && !s.terminal
    ensures Inv(c, Consume(c, s, v))
  {
    ObserveJsonKeeps(c, s, v);
  }

  lemma ObserveKeepsInv(c: Config, s: State, f: Frame)
    requires Inv(c, s)
    ensures Inv(c, Observe(c, s, f))
  {
    if !(s.terminal || s.failed || f.isDone || Rejected(f)) {
      ConsumeKeepsInv(c, s.(bytes := SaturatingAdd(s.bytes, f.length)), f.json.value);
    }
  }

  /** A terminal or failed state never changes again. */
  lemma {:induction false} Absorbing(c: Config, s: State, frames: seq<Frame>)
    requires s.terminal || s.failed
    ensures ObserveAll(c, s, frames) == s
    decreases |frames|
  {
    if frames != [] {
      Absorbing(c, s, frames[1..]);
    }
  }

  lemma {:induction false} RunInv(c: Config, s: State, frames: seq<Frame>)
    requires Inv(c, s)
    ensures Inv(c, ObserveAll(c, s, frames))
    decreases |frames|
  {
    if frames != [] {
      ObserveKeepsInv(c, s, frames[0]);
      RunInv(c, Observe(c, s, frames[0]), frames[1..]);
    }
  }

  /** Over every sequence of frames: an accepted state is within all limits, a finished Anthropic
      message has no open argument buffer, and every item outside Gemini is an object. */
  lemma ObservedSafety(c: Config, frames: seq<Frame>)
    ensures Inv(c, ObserveAll(c, START, frames))
  {
    RunInv(c, START, frames);
  }

  /** The parts that one frame contributes in a given state. */
  ghost function Taken(s: State, f: Frame): seq<Json> {
    if s.terminal || s.failed || f.isDone || Rejected(f) || SaturatingAdd(s.bytes, f.length) > MAX_BYTES then []
    else PartsOf(f.json.value)
  }

  /** The Gemini parts that a run takes in, in order. */
  ghost function Consumed(c: Config, s: State, frames: seq<Frame>): seq<Json>
    decreases |frames|
  {
    if frames == [] then [] else Taken(s, frames[0]) + Consumed(c, Observe(c, s, frames[0]), frames[1..])
  }

  lemma GeminiItems(c: Config, s: State, f: Frame)
    requires !c.responses && c.protocol.Gemini?
    ensures Observe(c, s, f).items == AppendItems(s.items, Taken(s, f))
  {
    if !(s.terminal || s.failed || f.isDone || Rejected(f)) {
      ConsumeItems(c, s.(bytes := SaturatingAdd(s.bytes, f.length)), f.json.value);
    }
  }

  lemma ConsumeItems(c: Config, s: State, v: Json)
    requires !c.responses && c.protocol.Gemini?
    ensures Consume(c, s, v).items == if s.bytes > MAX_BYTES then s.items else AppendItems(s.items, PartsOf(v))
  {
    GeminiFrame(c, s, v);
  }

  lemma GeminiFrame(c: Config, s: State, v: Json)
    requires !c.responses && c.protocol.Gemini?
    ensures ObserveJson(c, s, v).items == AppendItems(s.items, PartsOf(v))
  {
    assert ObserveJson(c, s, v) == ObserveGemini(s, v);
  }

  lemma {:induction false} GeminiRunLists(c: Config, s: State, list: seq<Json>, frames: seq<Frame>)
    requires !c.responses && c.protocol.Gemini? && Lists(s.items, list)
    ensures Lists(ObserveAll(c, s, frames).items, AppendAll(list, Consumed(c, s, frames)))
    decreases |frames|
  {
    if frames != [] {
      var f, s' := frames[0], Observe(c, s, frames[0]);
      GeminiItems(c, s, f);
      AppendItemsList(s.items, list, Taken(s, f));
      GeminiRunLists(c, s', AppendAll(list, Taken(s, f)), frames[1..]);
      AppendAllConcat(list, Taken(s, f), Consumed(c, s', frames[1..]));
    }
  }

  /** After any Gemini run the stored items are, under keys 0 to n-1, the maximal merge of all the
      parts taken in, however they were spread over frames. */
  lemma GeminiItemsAreMaximalMerge(c: Config, frames: seq<Frame>)
    requires !c.responses && c.protocol.Gemini?
    ensures Lists(ObserveAll(c, START, frames).items, MaximalRuns(Consumed(c, START, frames)))
  {
    GeminiRunLists(c, START, [], frames);
    StreamedIsMaximalMerge(Consumed(c, START, frames));
  }
}
