/** What the assembled response holds, member by member: the last value that a frame gave to it. */
module DataMembers {
  import opened Options
  import opened Seqs
  import opened GeminiParts
  import opened Frames
  import opened FrameData
  import opened FrameFates

  /** A place in the response: a member of it, of its usage, of its first choice or that choice's delta, or
      of its first candidate. */
  datatype Place = Top(key: string) | Usage(key: string) | Choice(key: string) | Delta(key: string) | Candidate(key: string)

  function At(data: Json, place: Place): Json {
    match place
    case Top(key) => Get(data, key)
    case Usage(key) => Get(Get(data, "usage"), key)
    case Choice(key) => Get(KeptChoice(data), key)
    case Delta(key) => Get(Get(KeptChoice(data), "delta"), key)
    case Candidate(key) => Get(KeptCandidate(data), key)
  }

  function KeptCandidate(data: Json): Json {
    var candidates := Get(data, "candidates");
    if candidates.Arr? && candidates.elements != [] then candidates.elements[0] else Null
  }

  /** The places that frames of a protocol give values to. Streamed text is kept elsewhere. */
  predicate IsPlace(c: Config, place: Place) {
    if c.responses then place.Top? && place.key != "output"
    else match c.protocol
      case OpenAi =>
        || (place.Top? && place.key != "choices") || (place.Choice? && place.key != "delta")
        || (place.Delta? && place.key !in {"content", "reasoning_content", "tool_calls"})
      case Gemini => (place.Top? && place.key != "candidates") || (place.Candidate? && place.key != "content")
      case Anthropic => (place.Top? && place.key !in {"usage", "content"}) || place.Usage?
      case Ollama => place.Top?
  }

  function Member(v: Json, key: string): Option<Json> {
    if Has(v, key) then Some(Get(v, key)) else None
  }

  /** A whole object gives every member, the missing ones as null. */
  function MemberOfWhole(v: Json, key: string): Option<Json> {
    if v.Obj? then Some(Get(v, key)) else None
  }

  /** The value that a frame gives to a place. */
  function Given(c: Config, v: Json, place: Place): Option<Json> {
    if c.responses then
      if TypeOf(v) in {"response.completed", "response.incomplete"} then MemberOfWhole(Get(v, "response"), place.key) else None
    else match c.protocol
      case OpenAi => GivenByOpenAi(v, place)
      case Gemini => GivenByGemini(v, place)
      case Anthropic => GivenByAnthropic(v, place)
      case Ollama => if Get(v, "done") == Bool(true) then MemberOfWhole(v, place.key) else None
  }

  function GivenByOpenAi(v: Json, place: Place): Option<Json> {
    if place.Top? then Member(v, place.key)
    else match First(v, "choices")
      case None => None
      case Some(choice) => Member(if place.Choice? then choice else Get(choice, "delta"), place.key)
  }

  function GivenByGemini(v: Json, place: Place): Option<Json> {
    if place.Top? then Member(v, place.key)
    else match First(v, "candidates")
      case None => None
      case Some(candidate) => MemberOfWhole(candidate, place.key)
  }

  /** A message starts over; later deltas replace single members, and the usage member by member. */
  function GivenByAnthropic(v: Json, place: Place): Option<Json> {
    if TypeOf(v) == "message_start" then
      var message := Get(v, "message");
      if place.Top? then MemberOfWhole(message, place.key)
      else if message.Obj? then Some(Get(Get(message, "usage"), place.key)) else None
    else if TypeOf(v) == "message_delta" then
      if place.Top? then Member(Get(v, "delta"), place.key)
      else if Has(Get(v, "usage"), place.key) then Member(Get(v, "usage"), place.key)
      else match Member(Get(v, "delta"), "usage") case None => None case Some(usage) => Some(Get(usage, place.key))
    else None
  }

  // ----- one frame

  ghost predicate Updates(c: Config, before: Json, after: Json, v: Json, place: Place) {
    At(after, place) == match Given(c, v, place) case Some(x) => x case None => At(before, place)
  }

  lemma OpenAiGives(c: Config, data: Json, v: Json, place: Place)
    requires !c.responses && c.protocol.OpenAi? && Sound(c, data) && v.Obj? && IsPlace(c, place)
    ensures Updates(c, data, OpenAiData(data, v), v, place)
  {
    if place.Top? {
      TopGives(data, v, place.key);
    } else {
      var choice := First(v, "choices");
      ChoiceKept(data, v);
      if choice.Some? && choice.value.Obj? {
        ChoiceSoundIn(c, data);
        ChoiceGives(KeptChoice(data), choice.value.fields, place);
      }
    }
  }

  lemma TopGives(data: Json, v: Json, key: string)
    requires data.Obj? && v.Obj? && key != "choices"
    ensures Get(OpenAiData(data, v), key) == if Has(v, key) then Get(v, key) else Get(data, key)
  {
  }

  lemma ChoiceSoundIn(c: Config, data: Json)
    requires !c.responses && c.protocol.OpenAi? && Sound(c, data)
    ensures KeptChoice(data).Obj? && Indexable(Get(KeptChoice(data), "delta"))
  {
  }

  lemma ChoiceKept(data: Json, v: Json)
    requires data.Obj? && v.Obj?
    ensures var choice := First(v, "choices");
            KeptChoice(OpenAiData(data, v)) ==
              if choice.Some? && choice.value.Obj? then ChoiceData(KeptChoice(data), choice.value.fields) else KeptChoice(data)
  {
    var choice := First(v, "choices");
    var d := if choice.Some? && choice.value.Obj? then Put(data, "choices", Arr([ChoiceData(KeptChoice(data), choice.value.fields)])) else data;
    assert Get(OpenAiData(data, v), "choices") == Get(d, "choices");
  }

  lemma ChoiceGives(choice: Json, update: map<string, Json>, place: Place)
    requires choice.Obj? && Indexable(Get(choice, "delta"))
    ensures place.Choice? && place.key != "delta" ==>
              Get(ChoiceData(choice, update), place.key) == if place.key in update then update[place.key] else Get(choice, place.key)
    ensures place.Delta? && place.key !in ARGUMENT_FIELDS ==>
              Get(Get(ChoiceData(choice, update), "delta"), place.key) ==
                if Has(Get(Obj(update), "delta"), place.key) then Get(Get(Obj(update), "delta"), place.key)
                else Get(Get(choice, "delta"), place.key)
  {
    var merged := Merged(choice, update - {"delta"});
    assert Get(merged, "delta") == Get(choice, "delta");
    assert place.key != "delta" ==> Get(merged, place.key) == if place.key in update then update[place.key] else Get(choice, place.key);
    if "delta" in update && update["delta"].Obj? && place.key in update["delta"].fields && place.key !in ARGUMENT_FIELDS {
      assert place.key in update["delta"].fields - ARGUMENT_FIELDS;
    }
  }

  lemma GeminiGives(c: Config, data: Json, items: map<nat, Json>, v: Json, place: Place)
    requires !c.responses && c.protocol.Gemini? && Sound(c, data) && v.Obj? && IsPlace(c, place)
    requires CandidateOf(data, v).Obj?
    ensures Updates(c, data, GeminiData(data, items, v), v, place)
  {
    if First(v, "candidates").None? && "candidates" in data.fields {
      assert OneObject(data.fields["candidates"]);
    }
  }

  lemma AnthropicGives(c: Config, data: Json, items: map<nat, Json>, v: Json, place: Place)
    requires !c.responses && c.protocol.Anthropic? && data.Obj? && IsPlace(c, place)
    ensures Updates(c, data, AnthropicData(data, items, v, BlockKindOf(TypeOf(v))), v, place)
  {
    BlockKinds(TypeOf(v));
    if BlockKindOf(TypeOf(v)).MessageDelta? {
      DeltaGives(data, v, place);
    }
  }

  lemma DeltaGives(data: Json, v: Json, place: Place)
    requires data.Obj? && (place.Usage? || (place.Top? && place.key !in {"usage", "content"}))
    ensures var (delta, usage) := (Get(v, "delta"), Get(v, "usage"));
            At(DeltaData(data, v), place) ==
              if place.Top? then if Has(delta, place.key) then Get(delta, place.key) else At(data, place)
              else if Has(usage, place.key) then Get(usage, place.key)
              else if Has(delta, "usage") then Get(Get(delta, "usage"), place.key)
              else At(data, place)
  {
  }

  lemma ResponseGives(c: Config, data: Json, items: map<nat, Json>, v: Json, place: Place)
    requires c.responses && data.Obj? && IsPlace(c, place)
    ensures Updates(c, data, ResponseData(data, items, v, ResponseKindOf(TypeOf(v))), v, place)
  {
    ResponseKinds(TypeOf(v));
  }

  lemma JsonGives(c: Config, s: State, data: Json, v: Json, place: Place)
    requires Sound(c, data) && v.Obj? && IsPlace(c, place) && !ObserveJson(c, s, v).failed
    ensures Updates(c, data, JsonData(c, data, ObserveJson(c, s, v).items, v), v, place)
  {
    var items := ObserveJson(c, s, v).items;
    if c.responses {
      ResponseGives(c, data, items, v, place);
    } else {
      match c.protocol
      case OpenAi => OpenAiGives(c, data, v, place);
      case Gemini =>
        GeminiFails(c, s, data, v);
        GeminiGives(c, data, items, v, place);
      case Anthropic => AnthropicGives(c, data, items, v, place);
      case Ollama =>
    }
  }

  lemma FrameGives(c: Config, s: State, data: Json, f: Frame, place: Place)
    requires Sound(c, data) && IsPlace(c, place) && !s.terminal && !s.failed && !Observe(c, s, f).failed
    ensures if f.isDone then DataAfter(c, data, s, f) == data
            else f.json.Some? && Updates(c, data, DataAfter(c, data, s, f), f.json.value, place)
  {
    if !f.isDone {
      JsonGives(c, s.(bytes := SaturatingAdd(s.bytes, f.length)), data, f.json.value, place);
    }
  }

  // ----- every run

  ghost function DataFirst(c: Config, frames: seq<Frame>, n: nat): Json
    requires n <= |frames|
  {
    if n == 0 then NO_DATA else DataAfter(c, DataFirst(c, frames, n - 1), After(c, frames, n - 1), frames[n - 1])
  }

  lemma {:induction false} DataSnoc(c: Config, data: Json, s: State, frames: seq<Frame>, f: Frame)
    ensures DataOf(c, data, s, frames + [f]) == DataAfter(c, DataOf(c, data, s, frames), ObserveAll(c, s, frames), f)
    decreases |frames|
  {
    if frames == [] {
      assert [] + [f] == [f] && [f][1..] == [];
    } else {
      TailOfConcat(frames, [f]);
      DataSnoc(c, DataAfter(c, data, s, frames[0]), Observe(c, s, frames[0]), frames[1..], f);
    }
  }

  lemma {:induction false} DataIsFirst(c: Config, frames: seq<Frame>, n: nat)
    requires n <= |frames|
    ensures DataFirst(c, frames, n) == DataOf(c, NO_DATA, START, frames[..n])
  {
    if n > 0 {
      DataIsFirst(c, frames, n - 1);
      AfterIsRun(c, frames, n - 1);
      TakeSnoc(frames, n - 1);
      DataSnoc(c, NO_DATA, START, frames[..n - 1], frames[n - 1]);
    }
  }

  /** The value that the frames read so far gave last to a place. */
  ghost function LastGiven(c: Config, frames: seq<Frame>, n: nat, place: Place): Json
    requires n <= |frames|
  {
    if n == 0 then Null
    else if IsRead(c, frames, n - 1) && Given(c, frames[n - 1].json.value, place).Some? then Given(c, frames[n - 1].json.value, place).value
    else LastGiven(c, frames, n - 1, place)
  }

  lemma {:induction false} MembersHeld(c: Config, frames: seq<Frame>, n: nat, place: Place)
    requires n <= |frames| && !After(c, frames, n).failed && IsPlace(c, place)
    ensures At(DataFirst(c, frames, n), place) == LastGiven(c, frames, n, place)
  {
    if n > 0 {
      var s, f := After(c, frames, n - 1), frames[n - 1];
      if s.failed {
        FailureStays(c, s, f);
      }
      MembersHeld(c, frames, n - 1, place);
      RunAsTold(c, frames, n - 1);
      FirstSound(c, frames, n - 1);
      if s.terminal {
        assert !IsRead(c, frames, n - 1);
      } else {
        FrameGives(c, s, DataFirst(c, frames, n - 1), f, place);
        assert IsRead(c, frames, n - 1) <==> !f.isDone;
      }
    }
  }

  lemma FirstSound(c: Config, frames: seq<Frame>, n: nat)
    requires n <= |frames|
    ensures Sound(c, DataFirst(c, frames, n))
  {
    DataIsFirst(c, frames, n);
    DataSound(c, NO_DATA, START, frames[..n]);
  }

  /** Over every run that has not failed, each place of the response holds the last value that a frame read
      gave to it, and null if there was none. */
  lemma {:induction false} DataHoldsLast(c: Config, frames: seq<Frame>, place: Place)
    requires !ObserveAll(c, START, frames).failed && IsPlace(c, place)
    ensures At(DataOf(c, NO_DATA, START, frames), place) == LastGiven(c, frames, |frames|, place)
  {
    assert frames[..|frames|] == frames;
    AfterIsRun(c, frames, |frames|);
    DataIsFirst(c, frames, |frames|);
    MembersHeld(c, frames, |frames|, place);
  }
}
