/** What a streamed Anthropic block holds: the members it was started with, its text fields extended by
    every later fragment, and its input. */
module AnthropicText {
  import opened Options
  import opened Seqs
  import opened GeminiParts
  import opened Frames
  import opened AnthropicBlocks

  predicate Starts(v: Json, i: nat) {
    KindOf(v).BlockStart? && Index(v, "index") == Some(i)
  }

  /** The fragment that an event brings to a text field of block `i`. */
  function TextOf(v: Json, i: nat, field: string): Option<string> {
    var delta := Get(v, "delta");
    if KindOf(v).BlockDelta? && Index(v, "index") == Some(i) && Get(delta, "type") != Str("input_json_delta") && Get(delta, field).Str?
    then Some(Get(delta, field).s) else None
  }

  /** The block as it was started. */
  ghost function StartedAs(events: seq<Event>, n: nat, i: nat): Option<Json>
    requires n <= |events|
  {
    if n == 0 then None
    else if Starts(events[n - 1].value, i) then Some(Get(events[n - 1].value, "content_block"))
    else StartedAs(events, n - 1, i)
  }

  /** The fragments for a text field of block `i` since it was started. */
  ghost function Texts(events: seq<Event>, n: nat, i: nat, field: string): seq<string>
    requires n <= |events|
  {
    if n == 0 || Starts(events[n - 1].value, i) then []
    else match TextOf(events[n - 1].value, i, field)
      case None => Texts(events, n - 1, i, field)
      case Some(f) => Texts(events, n - 1, i, field) + [f]
  }

  /** A value with text appended to it; what is not a text counts as empty. */
  function WithTexts(x: Json, texts: seq<string>): Json {
    if texts == [] then x else Str(TextOr(x) + Concat(texts))
  }

  lemma WithTextsSnoc(x: Json, texts: seq<string>, f: string)
    ensures Str(TextOr(WithTexts(x, texts)) + f) == WithTexts(x, texts + [f])
  {
    ConcatSnoc(texts, f);
    Assoc(TextOr(x), Concat(texts), f);
    WithEmpty(TextOr(x));
  }

  // ----- one event

  ghost predicate Distinct(fields: seq<string>) {
    forall i, j | 0 <= i < j < |fields| :: fields[i] != fields[j]
  }

  lemma {:induction false} AppendFieldsAt(block: Json, delta: Json, fields: seq<string>, key: string)
    requires block.Obj? && Distinct(fields) && key in fields
    ensures Get(AppendFields(block, delta, fields), key) ==
              if Get(delta, key).Str? then Str(TextOr(Get(block, key)) + Get(delta, key).s) else Get(block, key)
    decreases |fields|
  {
    var x := Get(delta, fields[0]);
    var next := if x.Str? then AppendField(block, fields[0], x.s) else block;
    if fields[0] == key {
      assert key !in fields[1..];
      AppendFieldsKeep(next, delta, fields[1..], key);
    } else {
      AppendFieldsAt(next, delta, fields[1..], key);
    }
  }

  lemma TextFieldsDistinct()
    ensures Distinct(TEXT_FIELDS) && "input" !in TEXT_FIELDS
  {
    TextFieldsAre();
    assert "text"[1] == 'e' && "thinking"[1] == 'h' && "signature"[0] == 's';
  }

  ghost predicate IsObject(item: Option<Json>) {
    item.Some? ==> item.value.Obj?
  }

  /** What an event that does not fail makes of a text field. */
  lemma TextEvent(c: Config, cell: Cell, v: Json, i: nat, field: string)
    requires Index(v, "index") == Some(i) && !Starts(v, i) && IsObject(cell.item)
    requires !EventStep(c, cell, v).1 && field in TEXT_FIELDS
    ensures var item := EventStep(c, cell, v).0.item;
            && IsObject(item) && (item.Some? <==> cell.item.Some?)
            && (item.Some? ==> Get(item.value, field) ==
                                 match TextOf(v, i, field)
                                 case None => Get(cell.item.value, field)
                                 case Some(f) => Str(TextOr(Get(cell.item.value, field)) + f))
  {
    TextFieldsDistinct();
    if KindOf(v).BlockDelta? && cell.item.Some? {
      AppendFieldsAt(cell.item.value, Get(v, "delta"), TEXT_FIELDS, field);
      AppendFieldsObject(cell.item.value, Get(v, "delta"), TEXT_FIELDS);
    }
  }

  /** What an event that does not fail leaves alone. */
  lemma OtherEvent(c: Config, cell: Cell, v: Json, i: nat, key: string)
    requires Index(v, "index") == Some(i) && !Starts(v, i) && IsObject(cell.item)
    requires !EventStep(c, cell, v).1 && key !in TEXT_FIELDS
    requires key == "input" ==> !(StopsBlock(v, i) && cell.buffer.Some?)
    ensures var item := EventStep(c, cell, v).0.item;
            && IsObject(item) && (item.Some? <==> cell.item.Some?)
            && (item.Some? ==> Get(item.value, key) == Get(cell.item.value, key))
  {
    if KindOf(v).BlockDelta? && cell.item.Some? {
      AppendFieldsKeep(cell.item.value, Get(v, "delta"), TEXT_FIELDS, key);
      AppendFieldsObject(cell.item.value, Get(v, "delta"), TEXT_FIELDS);
    }
  }

  lemma StartEvents(c: Config, cell: Cell, v: Json, i: nat)
    requires Starts(v, i) && !EventStep(c, cell, v).1
    ensures EventStep(c, cell, v).0.item == Some(Get(v, "content_block")) && Get(v, "content_block").Obj?
  {
  }

  // ----- every run of events

  /** The stored block is the started one as far as a text field goes. */
  ghost predicate HoldsText(item: Option<Json>, events: seq<Event>, n: nat, i: nat, field: string)
    requires n <= |events|
  {
    var block := StartedAs(events, n, i);
    && (item.Some? <==> block.Some?) && IsObject(item)
    && (item.Some? ==> Get(item.value, field) == WithTexts(Get(block.value, field), Texts(events, n, i, field)))
  }

  lemma {:induction false} CellTexts(c: Config, events: seq<Event>, n: nat, i: nat, field: string)
    requires n <= |events| && !CellRun(c, Cell(None, None), events, n, i).1 && field in TEXT_FIELDS
    ensures HoldsText(CellRun(c, Cell(None, None), events, n, i).0.item, events, n, i, field)
  {
    if n > 0 {
      var before, v := CellRun(c, Cell(None, None), events, n - 1, i).0, events[n - 1].value;
      CellTexts(c, events, n - 1, i, field);
      if Starts(v, i) {
        StartEvents(c, before, v, i);
      } else if Index(v, "index") == Some(i) {
        TextEvent(c, before, v, i, field);
        TextStep(events, n, i, field);
      }
    }
  }

  lemma TextStep(events: seq<Event>, n: nat, i: nat, field: string)
    requires 0 < n <= |events| && !Starts(events[n - 1].value, i)
    ensures var x := StartedAs(events, n, i); StartedAs(events, n - 1, i) == x
    ensures var x := StartedAs(events, n, i);
            x.Some? ==> WithTexts(Get(x.value, field), Texts(events, n, i, field)) ==
                          var known := WithTexts(Get(x.value, field), Texts(events, n - 1, i, field));
                          match TextOf(events[n - 1].value, i, field) case None => known case Some(f) => Str(TextOr(known) + f)
  {
    var x, f := StartedAs(events, n, i), TextOf(events[n - 1].value, i, field);
    if x.Some? && f.Some? {
      WithTextsSnoc(Get(x.value, field), Texts(events, n - 1, i, field), f.value);
    }
  }

  /** Members that are no text fields, and the input until there is one, are those of the start. */
  lemma {:induction false} CellOthers(c: Config, events: seq<Event>, n: nat, i: nat, key: string)
    requires n <= |events| && !CellRun(c, Cell(None, None), events, n, i).1 && key !in TEXT_FIELDS
    requires key == "input" ==> InputText(events, n, i).None?
    ensures var (item, block) := (CellRun(c, Cell(None, None), events, n, i).0.item, StartedAs(events, n, i));
            && (item.Some? <==> block.Some?) && IsObject(item)
            && (item.Some? ==> Get(item.value, key) == Get(block.value, key))
  {
    if n > 0 {
      var before, v := CellRun(c, Cell(None, None), events, n - 1, i).0, events[n - 1].value;
      if Starts(v, i) {
        StartEvents(c, before, v, i);
      } else {
        CellOthers(c, events, n - 1, i, key);
        if Index(v, "index") == Some(i) {
          CellBuffers(c, Cell(None, None), events, n - 1, i);
          OtherEvent(c, before, v, i, key);
        }
      }
    }
  }

  /** What member `key` of block `i` should be. */
  ghost function Member(c: Config, events: seq<Event>, n: nat, i: nat, key: string): Json
    requires n <= |events| && StartedAs(events, n, i).Some?
  {
    var (x, input) := (Get(StartedAs(events, n, i).value, key), InputText(events, n, i));
    if key in TEXT_FIELDS then WithTexts(x, Texts(events, n, i, key))
    else if key == "input" && input.Some? && IsInput(c, input.value) then c.parse[input.value]
    else x
  }

  lemma CellMember(c: Config, events: seq<Event>, n: nat, i: nat, key: string)
    requires n <= |events| && !CellRun(c, Cell(None, None), events, n, i).1
    ensures var item := CellRun(c, Cell(None, None), events, n, i).0.item;
            && (item.Some? <==> StartedAs(events, n, i).Some?)
            && (item.Some? ==> Get(item.value, key) == Member(c, events, n, i, key))
  {
    TextFieldsDistinct();
    CellTexts(c, events, n, i, TEXT_FIELDS[0]);
    if key in TEXT_FIELDS {
      CellTexts(c, events, n, i, key);
    } else if key == "input" && InputText(events, n, i).Some? {
      CellInputs(c, Cell(None, None), events, n, i);
    } else {
      CellOthers(c, events, n, i, key);
    }
  }

  /** Over every run that has not failed: the stored blocks are exactly those that were started, and every
      member of a block is the one it was started with, a text field followed by the join of its fragments
      since, and the input the value of its joined text once that is complete. */
  lemma StreamedMembers(c: Config, frames: seq<Frame>, i: nat, key: string)
    requires IsAnthropic(c) && !ObserveAll(c, START, frames).failed
    ensures var (items, events) := (ObserveAll(c, START, frames).items, Heard(c, START, frames));
            && (i in items <==> StartedAs(events, |events|, i).Some?)
            && (i in items ==> Get(items[i], key) == Member(c, events, |events|, i, key))
  {
    var events := Heard(c, START, frames);
    RunIsItsEvents(c, START, frames);
    FirstIsRun(c, START, events, |events|);
    assert events[..|events|] == events;
    RunCell(c, START, events, |events|, i);
    CellMember(c, events, |events|, i, key);
  }
}
