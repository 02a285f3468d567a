/** What a streamed Responses item holds: its last full form, with its arguments extended by every later
    fragment. */
module ResponseItems {
  import opened Options
  import opened Seqs
  import opened GeminiParts
  import opened Frames
  import opened AnthropicText

  /** A frame's JSON value and what it is, and the running byte count once the frame has been counted. */
  datatype Reply = Reply(value: Json, kind: ResponseKind, bytes: nat)

  function ReplyOf(s: State, f: Frame): Reply
    requires f.json.Some?
  {
    Reply(f.json.value, ResponseKindOf(TextOr(Get(f.json.value, "type"))), SaturatingAdd(s.bytes, f.length))
  }

  function ObserveReply(s: State, e: Reply): State {
    ObserveResponse(s.(bytes := e.bytes), e.value, e.kind)
  }

  function ObserveReplies(s: State, events: seq<Reply>, n: nat): State
    requires n <= |events|
  {
    if n == 0 then s else ObserveReply(ObserveReplies(s, events, n - 1), events[n - 1])
  }

  /** The event gives item `i` in full. */
  predicate Gives(e: Reply, i: nat) {
    (e.kind.ItemAdded? || e.kind.ItemDone?) && Index(e.value, "output_index") == Some(i)
  }

  /** The fragment that an event brings to the arguments of item `i`. */
  function ArgumentsOf(e: Reply, i: nat): Option<string> {
    if e.kind.ArgumentsDelta? && Index(e.value, "output_index") == Some(i) then Some(TextOr(Get(e.value, "delta"))) else None
  }

  /** The last full form of item `i`. */
  ghost function GivenAs(events: seq<Reply>, n: nat, i: nat): Option<Json>
    requires n <= |events|
  {
    if n == 0 then None
    else if Gives(events[n - 1], i) then Some(Get(events[n - 1].value, "item"))
    else GivenAs(events, n - 1, i)
  }

  /** The fragments of the arguments of item `i` since its last full form. */
  ghost function LaterArguments(events: seq<Reply>, n: nat, i: nat): seq<string>
    requires n <= |events|
  {
    if n == 0 || Gives(events[n - 1], i) then []
    else match ArgumentsOf(events[n - 1], i)
      case None => LaterArguments(events, n - 1, i)
      case Some(f) => LaterArguments(events, n - 1, i) + [f]
  }

  /** What member `key` of item `i` should be. */
  ghost function ItemMember(events: seq<Reply>, n: nat, i: nat, key: string): Json
    requires n <= |events| && GivenAs(events, n, i).Some?
  {
    var x := Get(GivenAs(events, n, i).value, key);
    if key == "arguments" then WithTexts(x, LaterArguments(events, n, i)) else x
  }

  /** What one event does to item `i`. */
  ghost predicate ItemAfter(s: State, e: Reply, i: nat, key: string) {
    var items := ObserveReply(s, e).items;
    if Gives(e, i) then i in items && items[i] == Get(e.value, "item")
    else
      && (i in items <==> i in s.items)
      && (i in s.items ==>
            Get(items[i], key) ==
              if key == "arguments" && ArgumentsOf(e, i).Some? then Str(TextOr(Get(s.items[i], key)) + ArgumentsOf(e, i).value)
              else Get(s.items[i], key))
  }

  lemma ArgumentsAfter(s: State, e: Reply, i: nat, key: string)
    requires Objects(s.items) && e.kind.ArgumentsDelta?
    ensures ItemAfter(s, e, i, key)
  {
  }

  lemma FullAfter(s: State, e: Reply, i: nat, key: string)
    requires (e.kind.ItemAdded? || e.kind.ItemDone?) && !ObserveReply(s, e).failed
    ensures ItemAfter(s, e, i, key)
  {
  }

  lemma ReplyItem(s: State, e: Reply, i: nat, key: string)
    requires Objects(s.items) && !ObserveReply(s, e).failed
    ensures ItemAfter(s, e, i, key)
  {
    match e.kind
    case ArgumentsDelta => ArgumentsAfter(s, e, i, key);
    case ItemAdded => FullAfter(s, e, i, key);
    case ItemDone => FullAfter(s, e, i, key);
    case _ =>
  }

  lemma ItemMemberStep(events: seq<Reply>, n: nat, i: nat, key: string)
    requires 0 < n <= |events| && !Gives(events[n - 1], i) && GivenAs(events, n, i).Some?
    ensures var (known, f) := (ItemMember(events, n - 1, i, key), ArgumentsOf(events[n - 1], i));
            ItemMember(events, n, i, key) == if key == "arguments" && f.Some? then Str(TextOr(known) + f.value) else known
  {
    var f := ArgumentsOf(events[n - 1], i);
    if f.Some? {
      WithTextsSnoc(Get(GivenAs(events, n, i).value, key), LaterArguments(events, n - 1, i), f.value);
    }
  }

  lemma ReplyKeeps(s: State, e: Reply)
    requires Objects(s.items)
    ensures Objects(ObserveReply(s, e).items) && (s.failed ==> ObserveReply(s, e).failed)
  {
    ResponseKeeps(s.(bytes := e.bytes), e.value, e.kind);
  }

  lemma {:induction false} RepliesKeep(events: seq<Reply>, n: nat)
    requires n <= |events|
    ensures Objects(ObserveReplies(START, events, n).items)
    ensures n > 0 && ObserveReplies(START, events, n - 1).failed ==> ObserveReplies(START, events, n).failed
  {
    if n > 0 {
      RepliesKeep(events, n - 1);
      ReplyKeeps(ObserveReplies(START, events, n - 1), events[n - 1]);
    }
  }

  lemma {:induction false} ItemsHeld(events: seq<Reply>, n: nat, i: nat, key: string)
    requires n <= |events| && !ObserveReplies(START, events, n).failed
    ensures var items := ObserveReplies(START, events, n).items;
            && (i in items <==> GivenAs(events, n, i).Some?)
            && (i in items ==> Get(items[i], key) == ItemMember(events, n, i, key))
  {
    if n > 0 {
      RepliesKeep(events, n);
      RepliesKeep(events, n - 1);
      ItemsHeld(events, n - 1, i, key);
      ReplyItem(ObserveReplies(START, events, n - 1), events[n - 1], i, key);
      if !Gives(events[n - 1], i) && GivenAs(events, n, i).Some? {
        ItemMemberStep(events, n, i, key);
      }
    }
  }

  // ----- whole frames

  /** The values of the frames of a run, up to the one that ends it. */
  ghost function HeardReplies(c: Config, s: State, frames: seq<Frame>): seq<Reply>
    decreases |frames|
  {
    if frames == [] || s.terminal || s.failed then []
    else
      var f, rest := frames[0], HeardReplies(c, Observe(c, s, frames[0]), frames[1..]);
      if f.isDone || f.json.None? then rest else [ReplyOf(s, f)] + rest
  }

  lemma ReplyFrame(c: Config, s: State, f: Frame)
    requires c.responses && !s.terminal && !s.failed && !Observe(c, s, f).failed
    ensures if f.isDone then Observe(c, s, f) == s
            else f.json.Some? && Observe(c, s, f) == ObserveReply(s, ReplyOf(s, f))
  {
  }

  lemma {:induction false} RepliesFrom(s: State, e: Reply, rest: seq<Reply>, n: nat)
    requires n <= |rest|
    ensures ObserveReplies(s, [e] + rest, n + 1) == ObserveReplies(ObserveReply(s, e), rest, n)
  {
    assert ([e] + rest)[n] == if n == 0 then e else rest[n - 1];
    if n > 0 {
      RepliesFrom(s, e, rest, n - 1);
    }
  }

  lemma {:induction false} RunIsItsReplies(c: Config, s: State, frames: seq<Frame>)
    requires c.responses && !ObserveAll(c, s, frames).failed
    ensures var events := HeardReplies(c, s, frames); ObserveAll(c, s, frames) == ObserveReplies(s, events, |events|)
    decreases |frames|
  {
    if s.terminal || s.failed {
      Absorbing(c, s, frames);
    } else if frames != [] {
      var f, rest := frames[0], frames[1..];
      var next := Observe(c, s, f);
      if next.failed {
        Absorbing(c, next, rest);
      }
      ReplyFrame(c, s, f);
      RunIsItsReplies(c, next, rest);
      if !f.isDone {
        var more := HeardReplies(c, next, rest);
        RepliesFrom(s, ReplyOf(s, f), more, |more|);
      }
    }
  }

  /** Over every Responses run that has not failed: the stored items are exactly those that were given, each
      member is that of the last full form, and the arguments go on with the join of the later fragments. */
  lemma StreamedItems(c: Config, frames: seq<Frame>, i: nat, key: string)
    requires c.responses && !ObserveAll(c, START, frames).failed
    ensures var (items, events) := (ObserveAll(c, START, frames).items, HeardReplies(c, START, frames));
            && (i in items <==> GivenAs(events, |events|, i).Some?)
            && (i in items ==> Get(items[i], key) == ItemMember(events, |events|, i, key))
  {
    var events := HeardReplies(c, START, frames);
    RunIsItsReplies(c, START, frames);
    ItemsHeld(events, |events|, i, key);
  }
}
