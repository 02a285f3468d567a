/** The observer as the source writes it: one object whose fields each frame updates in place. */
module FrameObserver {
  import opened Options
  import opened Seqs
  import opened GeminiParts
  import opened Frames
  import opened FrameData

  // ----- writing into JSON values

  /** `v[key] = x`, which needs an object or null to write into. */
  method SetMember(v: Json, key: string, x: Json) returns (r: Json)
    requires Indexable(v)
    ensures r == Put(v, key, x)
  {
    r := if v.Obj? then Obj(v.fields[key := x]) else Obj(map[key := x]);
  }

  /** Append to a text member, which starts out empty where it is missing or not a text. */
  method AppendMember(v: Json, key: string, fragment: string) returns (r: Json)
    requires v.Obj?
    ensures r == AppendField(v, key, fragment) && r.Obj?
  {
    r := SetMember(v, key, Str(TextOr(Get(v, key)) + fragment));
  }

  /** The members of `source` among `keys`, apart from the skipped ones. */
  ghost function Among(source: map<string, Json>, keys: set<string>, skip: set<string>): map<string, Json> {
    map key | key in source && key in keys && key !in skip :: source[key]
  }

  lemma AmongMore(source: map<string, Json>, keys: set<string>, skip: set<string>, key: string)
    requires key in source && key !in keys
    ensures Among(source, keys + {key}, skip) == if key in skip then Among(source, keys, skip) else Among(source, keys, skip)[key := source[key]]
  {
  }

  lemma AmongAll(source: map<string, Json>, skip: set<string>)
    ensures Among(source, source.Keys, skip) == source - skip && Among(source, {}, skip) == map[]
  {
  }

  /** Copy every member that is not skipped, one assignment each. */
  method CopyMembers(target: Json, source: map<string, Json>, skip: set<string>) returns (r: Json)
    requires Indexable(target)
    ensures r == if source - skip == map[] then target else Merged(target, source - skip)
  {
    r := target;
    var rest := source.Keys;
    AmongAll(source, skip);
    while rest != {}
      invariant rest <= source.Keys && Indexable(r)
      invariant var done := Among(source, source.Keys - rest, skip);
                r == if done == map[] then target else Merged(target, done)
      decreases |rest|
    {
      var key :| key in rest;
      ghost var before := source.Keys - rest;
      AmongMore(source, before, skip, key);
      CopyStep(target, Among(source, before, skip), key, source[key]);
      if key !in skip {
        r := SetMember(r, key, source[key]);
      }
      rest := rest - {key};
      assert source.Keys - rest == before + {key};
    }
    assert source.Keys - {} == source.Keys;
  }

  lemma CopyStep(target: Json, done: map<string, Json>, key: string, x: Json)
    ensures done[key := x] != map[]
    ensures Put(if done == map[] then target else Merged(target, done), key, x) == Merged(target, done[key := x])
  {
    assert key in done[key := x];
    assert FieldsOf(target)[key := x] == FieldsOf(target) + map[key := x];
    assert (FieldsOf(target) + done)[key := x] == FieldsOf(target) + done[key := x];
  }

  /** The greatest key, found by visiting every key. */
  method FindLastKey(items: map<nat, Json>) returns (last: nat)
    requires items != map[]
    ensures last == LastKey(items)
  {
    var rest := items.Keys;
    last :| last in rest;
    rest := rest - {last};
    while rest != {}
      invariant rest <= items.Keys && last in items
      invariant forall j | j in items && j !in rest :: j <= last
      decreases |rest|
    {
      var k :| k in rest;
      if k > last {
        last := k;
      }
      rest := rest - {k};
    }
  }

  /** The values of an ordered map, in order. */
  method ValuesOf(items: map<nat, Json>) returns (r: seq<Json>)
    ensures r == Ordered(items)
  {
    var rest := items;
    r := [];
    WithEmpty(Ordered(items));
    while rest != map[]
      invariant Ordered(items) == Ordered(rest) + r
      decreases |rest|
    {
      var k := FindLastKey(rest);
      KeyRemoved(rest, k);
      Assoc(Ordered(rest - {k}), [rest[k]], r);
      r := [rest[k]] + r;
      rest := rest - {k};
    }
    WithEmpty(r);
  }

  /** Copying no members into an object leaves it alone. */
  lemma MergeNothing(target: Json, fields: map<string, Json>)
    ensures fields - {} == fields && (target.Obj? && fields == map[] ==> Merged(target, fields) == target)
  {
  }

  class Observer {
    const config: Config
    var terminal: bool
    var failed: bool
    var generated: bool
    var indexes: map<string, nat>
    var items: map<nat, Json>
    var bytes: nat
    var arguments: map<nat, string>
    var data: Json

    constructor (config: Config)
      ensures this.config == config && Now() == START && data == NO_DATA && Valid()
    {
      this.config := config;
      terminal, failed, generated := false, false, false;
      indexes, items, bytes, arguments, data := map[], map[], 0, map[], Obj(map[]);
    }

    function Now(): State
      reads this
    {
      State(terminal, failed, generated, indexes, items, bytes, arguments)
    }

    /** The data and the items have the shapes that index assignments rely on. */
    ghost predicate Valid()
      reads this
    {
      Sound(config, data) && Shaped(config, items)
    }

    method OnFrame(f: Frame)
      requires Valid()
      modifies this
      ensures Valid() && Now() == Observe(config, old(Now()), f) && data == DataAfter(config, old(data), old(Now()), f)
    {
      if terminal || failed {
        return;
      }
      if f.isDone {
        terminal := terminal || (!config.responses && config.protocol.OpenAi?);
        return;
      }
      if Rejected(f) {
        failed := true;
        return;
      }
      var value := f.json.value;
      bytes := SaturatingAdd(bytes, f.length);
      if bytes > MAX_BYTES {
        failed := true;
        return;
      }
      OnValue(value);
    }

    /** The value of an accepted frame, and then the limits. */
    method OnValue(value: Json)
      requires Valid() && value.Obj?
      modifies this
      ensures Valid() && Now() == Checked(ObserveJson(config, old(Now()), value))
      ensures data == JsonData(config, old(data), items, value)
    {
      if config.responses {
        OnResponse(value, ResponseKindOf(TextOr(Get(value, "type"))));
      } else {
        OnProtocol(value);
      }
      JsonSound(config, old(data), items, value);
      ObserveJsonKeeps(config, old(Now()), value);
      CheckLimits();
    }

    method CheckLimits()
      modifies this`failed
      ensures Now() == Checked(old(Now()))
    {
      if |indexes| > MAX_CALLS || |items| > MAX_ITEMS {
        failed := true;
      }
    }

    method OnProtocol(value: Json)
      requires Valid() && value.Obj? && !config.responses
      modifies this
      ensures Now() == ObserveProtocol(config, old(Now()), value)
      ensures data == ProtocolData(config, old(data), items, value)
    {
      match config.protocol {
        case OpenAi => OnOpenAi(value);
        case Gemini => OnGemini(value);
        case Anthropic => OnAnthropic(value, BlockKindOf(TextOr(Get(value, "type"))));
        case Ollama => OnOllama(value);
      }
    }

    method OnOllama(value: Json)
      modifies this`generated, this`terminal, this`data
      ensures Now() == ObserveOllama(old(Now()), value) && data == OllamaData(old(data), value)
    {
      generated := generated || Has(value, "message");
      terminal := Get(value, "done") == Bool(true);
      if terminal {
        data := value;
      }
    }

    method OnResponse(value: Json, kind: ResponseKind)
      requires Objects(items)
      modifies this`terminal, this`failed, this`generated, this`indexes, this`items, this`data
      ensures Now() == ObserveResponse(old(Now()), value, kind) && data == ResponseData(old(data), items, value, kind)
    {
      generated := generated || kind.ItemAdded? || kind.ArgumentsDelta? || (kind.OtherResponse? && kind.delta);
      match kind {
        case Finished => KeepResponse(value);
        case ArgumentsDelta => AppendArguments(value);
        case OtherResponse(_) =>
        case _ => KeepItem(value);
      }
    }

    method KeepResponse(value: Json)
      modifies this`terminal, this`failed, this`data
      ensures Now() == ObserveResponse(old(Now()), value, Finished) && data == ResponseData(old(data), items, value, Finished)
    {
      terminal := true;
      if !Get(value, "response").Obj? {
        failed := true;
        return;
      }
      data := Get(value, "response");
      var output := Get(data, "output");
      if !output.Arr? || output.elements == [] {
        var values := ValuesOf(items);
        data := SetMember(data, "output", Arr(values));
      }
    }

    method KeepItem(value: Json)
      modifies this`failed, this`indexes, this`items
      ensures Now() == ObserveResponse(old(Now()), value, ItemDone)
    {
      var item := Get(value, "item");
      if !item.Obj? {
        failed := true;
        return;
      }
      var index := Index(value, "output_index");
      if index.Some? {
        indexes := AddIndex(indexes, Get(item, "call_id"), index.value);
        items := items[index.value := item];
      }
    }

    method AppendArguments(value: Json)
      requires Objects(items)
      modifies this`items
      ensures items == match Index(value, "output_index")
                       case None => old(items)
                       case Some(i) =>
                         if i !in old(items) then old(items)
                         else old(items)[i := AppendField(old(items)[i], "arguments", TextOr(Get(value, "delta")))]
    {
      var index := Index(value, "output_index");
      if index.Some? && index.value in items {
        var item := AppendMember(items[index.value], "arguments", TextOr(Get(value, "delta")));
        items := items[index.value := item];
      }
    }

    method OnOpenAi(value: Json)
      requires Sound(config, data) && !config.responses && config.protocol.OpenAi? && value.Obj?
      modifies this
      ensures Now() == ObserveOpenAi(old(Now()), value) && data == OpenAiData(old(data), value)
    {
      var choice := First(value, "choices");
      NoteCalls(choice);
      if choice.Some? && choice.value.Obj? {
        KeepChoice(choice.value.fields);
      }
      data := CopyMembers(data, value.fields, {"choices"});
      MergeNothing(data, value.fields - {"choices"});
    }

    /** Keep the members of the first choice, and of its delta those that are not streamed text. */
    method KeepChoice(choice: map<string, Json>)
      requires Sound(config, data) && !config.responses && config.protocol.OpenAi?
      modifies this`data
      ensures data == Put(old(data), "choices", Arr([ChoiceData(KeptChoice(old(data)), choice)]))
    {
      var choices := Get(data, "choices");
      if !choices.Arr? {
        choices := Arr([Obj(map[])]);
      }
      var kept := CopyMembers(choices.elements[0], choice, {"delta"});
      MergeNothing(choices.elements[0], choice - {"delta"});
      if "delta" in choice && choice["delta"].Obj? {
        var delta := CopyMembers(Get(kept, "delta"), choice["delta"].fields, ARGUMENT_FIELDS);
        if choice["delta"].fields - ARGUMENT_FIELDS != map[] {
          kept := SetMember(kept, "delta", delta);
        }
      }
      data := SetMember(data, "choices", Arr([kept]));
    }

    method NoteCalls(choice: Option<Json>)
      modifies this`indexes, this`generated
      ensures Now() == NotedCalls(old(Now()), choice)
    {
      if choice.None? {
        return;
      }
      var delta := Get(choice.value, "delta");
      var calls := Get(delta, "tool_calls");
      if calls.Arr? {
        for i := 0 to |calls.elements|
          invariant Now() == old(Now()).(indexes := indexes)
          invariant AddCalls(indexes, calls.elements[i..]) == AddCalls(old(indexes), calls.elements)
        {
          var id, index := Get(calls.elements[i], "id"), Index(calls.elements[i], "index");
          assert calls.elements[i..][1..] == calls.elements[i + 1..];
          if id.Str? && index.Some? {
            indexes := indexes[id.s := index.value];
          }
        }
      }
      generated := generated || (delta.Obj? && delta.fields != map[]);
    }

    method AppendGeminiPart(part: Json)
      modifies this`items
      ensures items == AppendItem(old(items), part)
    {
      if items != map[] {
        var last := FindLastKey(items);
        if Mergeable(items[last], part) {
          var item := AppendMember(items[last], "text", Get(part, "text").s);
          items := items[last := item];
          return;
        }
      }
      items := items[|items| := part];
    }

    method OnGemini(value: Json)
      requires Sound(config, data) && !config.responses && config.protocol.Gemini? && value.Obj?
      modifies this`terminal, this`failed, this`generated, this`items, this`data
      ensures Now() == ObserveGemini(old(Now()), value) && data == GeminiData(old(data), items, value)
    {
      var candidate := First(value, "candidates");
      terminal := candidate.Some? && Get(candidate.value, "finishReason").Str?;
      TakeParts(PartsOf(value));
      if candidate.Some? && !candidate.value.Obj? {
        failed := true;
        return;
      }
      KeepCandidate(value);
    }

    method TakeParts(parts: seq<Json>)
      modifies this`generated, this`items
      ensures generated == (old(generated) || parts != []) && items == AppendItems(old(items), parts)
    {
      generated := generated || parts != [];
      for i := 0 to |parts|
        invariant generated == (old(generated) || parts != [])
        invariant AppendItems(items, parts[i..]) == AppendItems(old(items), parts)
      {
        DropDrop(parts, i, 1);
        AppendGeminiPart(parts[i]);
      }
    }

    method KeepCandidate(value: Json)
      requires Sound(config, data) && !config.responses && config.protocol.Gemini? && value.Obj?
      requires First(value, "candidates").Some? ==> First(value, "candidates").value.Obj?
      modifies this`data
      ensures data == GeminiData(old(data), items, value)
    {
      var candidate := CandidateOf(data, value);
      var values := ValuesOf(items);
      candidate := SetMember(candidate, "content", Obj(map["role" := Str("model"), "parts" := Arr(values)]));
      data := CopyMembers(data, value.fields, {"candidates"});
      MergeNothing(old(data), value.fields - {"candidates"});
      data := SetMember(data, "candidates", Arr([candidate]));
    }

    method OnAnthropic(value: Json, kind: BlockKind)
      requires Sound(config, data) && Objects(items)
      modifies this
      ensures Now() == ObserveAnthropic(config, old(Now()), value, kind) && data == AnthropicData(old(data), items, value, kind)
    {
      terminal := kind.MessageStop?;
      generated := generated || kind.BlockStart? || kind.BlockDelta?;
      assert Now() == Opened(old(Now()), kind);
      if kind.MessageStart? && !Get(value, "message").Obj? {
        failed := true;
        return;
      }
      OnMessage(value, kind);
    }

    method OnMessage(value: Json, kind: BlockKind)
      requires Sound(config, data) && Objects(items) && terminal == kind.MessageStop? && (kind.MessageStart? ==> Get(value, "message").Obj?)
      modifies this`failed, this`indexes, this`items, this`arguments, this`data
      ensures Now() == Ended(ObserveIndexed(config, old(Now()), value, kind)) && data == AnthropicData(old(data), items, value, kind)
    {
      KeepMessage(value, kind);
      OnIndexed(value, kind);
      if terminal {
        CloseMessage();
      }
    }

    method OnIndexed(value: Json, kind: BlockKind)
      requires Objects(items)
      modifies this`failed, this`indexes, this`items, this`arguments
      ensures Now() == ObserveIndexed(config, old(Now()), value, kind)
    {
      var index := Index(value, "index");
      if index.Some? {
        OnBlock(value, kind, index.value);
      }
    }

    method KeepMessage(value: Json, kind: BlockKind)
      requires Sound(config, data) && (kind.MessageStart? ==> Get(value, "message").Obj?)
      modifies this`data
      ensures data.Obj?
      ensures data == if kind.MessageStart? then Get(value, "message") else if kind.MessageDelta? then DeltaData(old(data), value) else old(data)
    {
      if kind.MessageStart? {
        data := Get(value, "message");
      }
      if kind.MessageDelta? {
        KeepDelta(value);
      }
    }

    method CloseMessage()
      requires data.Obj?
      modifies this`failed, this`data
      ensures failed == (old(failed) || arguments != map[]) && data == Put(old(data), "content", Arr(Ordered(items)))
    {
      if arguments != map[] {
        failed := true;
      }
      var values := ValuesOf(items);
      data := SetMember(data, "content", Arr(values));
    }

    method KeepDelta(value: Json)
      requires data.Obj?
      modifies this`data
      ensures data == DeltaData(old(data), value)
    {
      if Get(value, "delta").Obj? {
        var fields := Get(value, "delta").fields;
        MergeNothing(data, fields);
        data := CopyMembers(data, fields, {});
      }
      if Get(value, "usage").Obj? {
        var fields := Get(value, "usage").fields;
        var usage := if Get(data, "usage").Obj? then Get(data, "usage") else Obj(map[]);
        MergeNothing(usage, fields);
        usage := CopyMembers(usage, fields, {});
        data := SetMember(data, "usage", usage);
      }
    }

    method OnBlock(value: Json, kind: BlockKind, index: nat)
      requires Objects(items)
      modifies this`failed, this`indexes, this`items, this`arguments
      ensures Now() == ObserveBlock(config, old(Now()), value, kind, index)
    {
      match kind {
        case BlockStart =>
          var block := Get(value, "content_block");
          if index in items || !block.Obj? {
            failed := true;
            return;
          }
          indexes := AddIndex(indexes, Get(block, "id"), index);
          items := items[index := block];
        case BlockDelta =>
          var delta := Get(value, "delta");
          if Get(delta, "type") == Str("input_json_delta") {
            var known := if index in arguments then arguments[index] else "";
            arguments := arguments[index := known + TextOr(Get(delta, "partial_json"))];
          } else if index in items {
            AppendText(index, delta);
          } else {
            failed := true;
          }
        case BlockStop => CloseBlock(value, index);
        case _ =>
      }
    }

    method CloseBlock(value: Json, index: nat)
      requires Objects(items)
      modifies this`failed, this`items, this`arguments
      ensures Now() == ObserveBlock(config, old(Now()), value, BlockStop, index)
    {
      if index in arguments {
        var text := arguments[index];
        arguments := arguments - {index};
        if text in config.parse && config.parse[text].Obj? {
          if index in items {
            var block := SetMember(items[index], "input", config.parse[text]);
            items := items[index := block];
          }
        } else {
          failed := true;
        }
      }
    }

    method AppendText(index: nat, delta: Json)
      requires index in items && items[index].Obj?
      modifies this`items
      ensures items == old(items)[index := AppendFields(old(items)[index], delta, TEXT_FIELDS)]
    {
      for i := 0 to |TEXT_FIELDS|
        invariant index in items && items == old(items)[index := items[index]] && items[index].Obj?
        invariant AppendFields(items[index], delta, TEXT_FIELDS[i..]) == AppendFields(old(items)[index], delta, TEXT_FIELDS)
      {
        assert TEXT_FIELDS[i..][1..] == TEXT_FIELDS[i + 1..];
        var fragment := Get(delta, TEXT_FIELDS[i]);
        if fragment.Str? {
          var block := AppendMember(items[index], TEXT_FIELDS[i], fragment.s);
          items := items[index := block];
        }
      }
    }
  }
}
