/** The outgoing message stream: deltas are cut into bounded, character-aligned messages, and a
    consumer that concatenates per call index sees the whole calls again. */
module ToolStream {
  import opened Options
  import opened Seqs
  import opened Utf8
  import opened ToolProgress

  const MAX_CHUNK := 16 * 1024

  datatype Message = Message(text: Text, reasoning: Option<Text>, calls: seq<Delta>, done: bool, metadata: Option<string>)

  const EMPTY := Message([], None, [], false, None)

  // ----- cutting

  function Pieces(text: Text): seq<Text>
    decreases |text|
  {
    if text == [] then []
    else
      var end := Floor(text, MAX_CHUNK);
      FloorProgress(text, MAX_CHUNK);
      ValidCut(text, end);
      [text[..end]] + Pieces(text[end..])
  }

  function CallPieces(call: Delta): seq<Delta>
    decreases |call.arguments|
  {
    if Tail(call).arguments == [] then [Head(call)]
    else
      FloorProgress(call.arguments, MAX_CHUNK);
      [Head(call)] + CallPieces(Tail(call))
  }

  function PieceMessage(piece: Text, reasoning: bool): Message {
    if reasoning then EMPTY.(reasoning := Some(piece)) else EMPTY.(text := piece)
  }

  function PieceMessages(pieces: seq<Text>, reasoning: bool): seq<Message> {
    if pieces == [] then [] else [PieceMessage(pieces[0], reasoning)] + PieceMessages(pieces[1..], reasoning)
  }

  function CallMessages(pieces: seq<Delta>): seq<Message> {
    if pieces == [] then [] else [EMPTY.(calls := [pieces[0]])] + CallMessages(pieces[1..])
  }

  function AllCallMessages(calls: seq<Delta>): seq<Message> {
    if calls == [] then [] else CallMessages(CallPieces(calls[0])) + AllCallMessages(calls[1..])
  }

  function ReasoningText(m: Message): Text {
    if m.reasoning.Some? then m.reasoning.value else []
  }

  function LastMessage(m: Message): seq<Message> {
    if m.done || m.metadata.Some? then [EMPTY.(done := m.done, metadata := m.metadata)] else []
  }

  /** Everything that is sent for one delta, in order. */
  function Messages(m: Message): seq<Message> {
    PieceMessages(Pieces(m.text), false) + PieceMessages(Pieces(ReasoningText(m)), true) + AllCallMessages(m.calls) + LastMessage(m)
  }

  lemma PiecesStep(text: Text, reasoning: bool)
    requires text != []
    ensures var end := Floor(text, MAX_CHUNK);
            && 0 < end && Valid(text[..end]) && Valid(text[end..])
            && PieceMessages(Pieces(text), reasoning)
            == [PieceMessage(text[..end], reasoning)] + PieceMessages(Pieces(text[end..]), reasoning)
  {
    var end := Floor(text, MAX_CHUNK);
    FloorProgress(text, MAX_CHUNK);
    ValidCut(text, end);
    assert Pieces(text)[1..] == Pieces(text[end..]);
  }

  function Head(call: Delta): Delta {
    ValidCut(call.arguments, Floor(call.arguments, MAX_CHUNK));
    call.(arguments := call.arguments[..Floor(call.arguments, MAX_CHUNK)])
  }

  function Tail(call: Delta): Delta {
    ValidCut(call.arguments, Floor(call.arguments, MAX_CHUNK));
    Delta(call.index, None, None, call.arguments[Floor(call.arguments, MAX_CHUNK)..], None)
  }

  lemma CallStep(call: Delta)
    ensures CallMessages(CallPieces(call)) ==
              [EMPTY.(calls := [Head(call)])] + if Tail(call).arguments == [] then [] else CallMessages(CallPieces(Tail(call)))
    ensures |Head(call).arguments| <= MAX_CHUNK && call.arguments == Head(call).arguments + Tail(call).arguments
    ensures Tail(call).arguments != [] ==> |Tail(call).arguments| < |call.arguments|
  {
    CutArguments(call);
    if Tail(call).arguments == [] {
      OneCallMessage(Head(call));
    } else {
      ConsParts(Head(call), CallPieces(Tail(call)));
    }
  }

  lemma CutArguments(call: Delta)
    ensures |Head(call).arguments| <= MAX_CHUNK && call.arguments == Head(call).arguments + Tail(call).arguments
    ensures Tail(call).arguments != [] ==> |Tail(call).arguments| < |call.arguments|
  {
    Rejoin(call.arguments, Floor(call.arguments, MAX_CHUNK));
    if call.arguments != [] {
      FloorProgress(call.arguments, MAX_CHUNK);
    }
  }

  lemma OneCallMessage(piece: Delta)
    ensures CallMessages([piece]) == [EMPTY.(calls := [piece])]
  {
    assert [piece][1..] == [];
  }

  /** Whether a receiver that goes away after `room` messages (None: never) takes all of these. */
  predicate Fits(room: Option<nat>, all: seq<Message>) {
    room.None? || |all| <= room.value
  }

  function Delivered(room: Option<nat>, all: seq<Message>): seq<Message> {
    if Fits(room, all) then all else all[..room.value]
  }

  /** Nothing is delivered after the first message that was not. */
  lemma DeliveredEarly(room: Option<nat>, a: seq<Message>, b: seq<Message>)
    ensures !Fits(room, a) ==> !Fits(room, a + b) && Delivered(room, a + b) == Delivered(room, a)
  {
    if !Fits(room, a) {
      DropOfConcat(a, b, room.value);
    }
  }

  lemma DeliveredNow(room: Option<nat>, sent: seq<Message>, m: Message, rest: seq<Message>)
    requires Fits(room, sent)
    ensures !Fits(room, sent + [m]) ==> !Fits(room, sent + ([m] + rest)) && Delivered(room, sent + ([m] + rest)) == sent
  {
    DeliveredEarly(room, sent + [m], rest);
    Assoc(sent, [m], rest);
    DropOfConcat(sent, [m], |sent|);
  }

  class Outbox {
    const room: Option<nat>
    var sent: seq<Message>

    ghost predicate Valid()
      reads this
    {
      Fits(room, sent)
    }

    constructor (room: Option<nat>)
      ensures this.room == room && sent == [] && Valid()
    {
      this.room, sent := room, [];
    }

    /** One message; it fails once the receiver is gone. */
    method Send(m: Message) returns (ok: bool)
      requires Valid()
      modifies this
      ensures Valid() && (ok <==> Fits(room, old(sent) + [m]))
      ensures sent == if ok then old(sent) + [m] else old(sent)
    {
      ok := room.None? || |sent| < room.value;
      if ok {
        sent := sent + [m];
      }
    }

    method SendPieces(text: Text, reasoning: bool) returns (ok: bool)
      requires Valid()
      modifies this
      ensures var all := old(sent) + PieceMessages(Pieces(text), reasoning);
              Valid() && (ok <==> Fits(room, all)) && sent == Delivered(room, all)
    {
      var rest := text;
      while rest != []
        invariant old(sent) + PieceMessages(Pieces(text), reasoning) == sent + PieceMessages(Pieces(rest), reasoning)
        invariant Valid()
        decreases |rest|
      {
        PiecesStep(rest, reasoning);
        var end := FloorLoop(rest, MAX_CHUNK);
        var piece := PieceMessage(rest[..end], reasoning);
        DeliveredNow(room, sent, piece, PieceMessages(Pieces(rest[end..]), reasoning));
        Assoc(sent, [piece], PieceMessages(Pieces(rest[end..]), reasoning));
        ok := Send(piece);
        if !ok {
          return;
        }
        rest := rest[end..];
      }
      WithEmpty(sent);
      ok := true;
    }

    method SendCall(call: Delta) returns (ok: bool)
      requires Valid()
      modifies this
      ensures var all := old(sent) + CallMessages(CallPieces(call));
              Valid() && (ok <==> Fits(room, all)) && sent == Delivered(room, all)
    {
      var current := call;
      while true
        invariant old(sent) + CallMessages(CallPieces(call)) == sent + CallMessages(CallPieces(current))
        invariant Valid()
        decreases |current.arguments|
      {
        CallStep(current);
        var end := FloorLoop(current.arguments, MAX_CHUNK);
        ValidCut(current.arguments, end);
        var rest := current.arguments[end..];
        var piece := EMPTY.(calls := [current.(arguments := current.arguments[..end])]);
        ghost var more := if rest == [] then [] else CallMessages(CallPieces(Tail(current)));
        DeliveredNow(room, sent, piece, more);
        Assoc(sent, [piece], more);
        ok := Send(piece);
        if !ok {
          return;
        }
        if rest == [] {
          WithEmpty(sent);
          return true;
        }
        current := Delta(current.index, None, None, rest, None);
      }
    }

    method SendCalls(calls: seq<Delta>) returns (ok: bool)
      requires Valid()
      modifies this
      ensures var all := old(sent) + AllCallMessages(calls);
              Valid() && (ok <==> Fits(room, all)) && sent == Delivered(room, all)
    {
      for i := 0 to |calls|
        invariant old(sent) + AllCallMessages(calls) == sent + AllCallMessages(calls[i..])
        invariant Valid()
      {
        CallsStep(sent, calls, i);
        DeliveredEarly(room, sent + CallMessages(CallPieces(calls[i])), AllCallMessages(calls[i + 1..]));
        ok := SendCall(calls[i]);
        if !ok {
          return;
        }
      }
      WithEmpty(sent);
      ok := true;
    }

    method SendDelta(m: Message) returns (ok: bool)
      requires Valid()
      modifies this
      ensures Valid() && (ok <==> Fits(room, old(sent) + Messages(m)))
      ensures sent == Delivered(room, old(sent) + Messages(m))
    {
      ghost var a, b := PieceMessages(Pieces(m.text), false), PieceMessages(Pieces(ReasoningText(m)), true);
      ghost var c, d := AllCallMessages(m.calls), LastMessage(m);
      InFour(sent, a, b, c, d);
      DeliveredEarly(room, sent + a + b + c, d);
      DeliveredEarly(room, sent + a + b, c);
      DeliveredEarly(room, sent + a, b);
      ok := SendPieces(m.text, false);
      if !ok {
        return;
      }
      ok := SendPieces(ReasoningText(m), true);
      if !ok {
        return;
      }
      ok := SendCalls(m.calls);
      if !ok {
        return;
      }
      WithEmpty(sent);
      if m.done || m.metadata.Some? {
        DropOfConcat(sent, d, |sent|);
        ok := Send(EMPTY.(done := m.done, metadata := m.metadata));
      }
    }
  }

  lemma InFour(s: seq<Message>, a: seq<Message>, b: seq<Message>, c: seq<Message>, d: seq<Message>)
    ensures s + (a + b + c + d) == s + a + b + c + d
  {
  }

  lemma CallsStep(sent: seq<Message>, calls: seq<Delta>, i: nat)
    requires i < |calls|
    ensures sent + AllCallMessages(calls[i..]) == sent + CallMessages(CallPieces(calls[i])) + AllCallMessages(calls[i + 1..])
  {
    DropDrop(calls, i, 1);
    Assoc(sent, CallMessages(CallPieces(calls[i])), AllCallMessages(calls[i + 1..]));
  }

  // ----- the consumer

  /** What a consumer has collected for one call index. */
  datatype Piece = Piece(id: string, name: string, arguments: seq<byte>)

  datatype View = View(text: seq<byte>, reasoning: seq<byte>, calls: map<Index, Piece>, done: nat)

  function OrEmpty(s: Option<string>): string {
    if s.Some? then s.value else ""
  }

  function Feed(calls: map<Index, Piece>, d: Delta): map<Index, Piece> {
    var p := if d.index in calls then calls[d.index] else Piece("", "", []);
    calls[d.index := Piece(p.id + OrEmpty(d.id), p.name + OrEmpty(d.name), p.arguments + d.arguments)]
  }

  function FeedAll(calls: map<Index, Piece>, ds: seq<Delta>): map<Index, Piece>
    decreases |ds|
  {
    if ds == [] then calls else FeedAll(Feed(calls, ds[0]), ds[1..])
  }

  function Receive(v: View, m: Message): View {
    View(v.text + m.text, v.reasoning + ReasoningText(m), FeedAll(v.calls, m.calls), v.done + if m.done then 1 else 0)
  }

  function ReceiveAll(v: View, ms: seq<Message>): View
    decreases |ms|
  {
    if ms == [] then v else ReceiveAll(Receive(v, ms[0]), ms[1..])
  }

  lemma {:induction false} ReceiveAllConcat(v: View, a: seq<Message>, b: seq<Message>)
    ensures ReceiveAll(v, a + b) == ReceiveAll(ReceiveAll(v, a), b)
    decreases |a|
  {
    if a == [] {
      assert a + b == b;
    } else {
      assert (a + b)[1..] == a[1..] + b;
      ReceiveAllConcat(Receive(v, a[0]), a[1..], b);
    }
  }

  lemma ReceiveCons(v: View, m: Message, rest: seq<Message>)
    ensures ReceiveAll(v, [m] + rest) == ReceiveAll(Receive(v, m), rest)
  {
    assert ([m] + rest)[1..] == rest;
  }

  function Added(v: View, text: seq<byte>, reasoning: bool): View {
    if reasoning then v.(reasoning := v.reasoning + text) else v.(text := v.text + text)
  }

  lemma AddedTwice(v: View, a: seq<byte>, b: seq<byte>, reasoning: bool)
    ensures Added(Added(v, a, reasoning), b, reasoning) == Added(v, a + b, reasoning)
  {
    Assoc(v.text, a, b);
    Assoc(v.reasoning, a, b);
  }

  lemma ReceivePiece(v: View, piece: Text, reasoning: bool)
    ensures Receive(v, PieceMessage(piece, reasoning)) == Added(v, piece, reasoning)
  {
    assert v.text + [] == v.text && v.reasoning + [] == v.reasoning;
  }

  lemma {:induction false} ReceivePieces(v: View, text: Text, reasoning: bool)
    ensures ReceiveAll(v, PieceMessages(Pieces(text), reasoning)) == Added(v, text, reasoning)
    decreases |text|
  {
    if text == [] {
      assert Added(v, [], reasoning) == v;
    } else {
      PiecesStep(text, reasoning);
      var end := Floor(text, MAX_CHUNK);
      var head: Text, rest: Text := text[..end], text[end..];
      Rejoin(text, end);
      ReceiveCons(v, PieceMessage(head, reasoning), PieceMessages(Pieces(rest), reasoning));
      ReceivePiece(v, head, reasoning);
      ReceivePieces(Added(v, head, reasoning), rest, reasoning);
      AddedTwice(v, head, rest, reasoning);
    }
  }

  lemma ReceiveOneCall(v: View, d: Delta)
    ensures Receive(v, EMPTY.(calls := [d])) == v.(calls := Feed(v.calls, d))
  {
    assert v.text + [] == v.text && v.reasoning + [] == v.reasoning;
    assert [d][1..] == [];
    assert FeedAll(v.calls, [d]) == FeedAll(Feed(v.calls, d), []);
  }

  lemma {:induction false} ReceiveCall(v: View, call: Delta)
    ensures ReceiveAll(v, CallMessages(CallPieces(call))) == v.(calls := Feed(v.calls, call))
    decreases |call.arguments|
  {
    CallStep(call);
    var m := EMPTY.(calls := [Head(call)]);
    ReceiveOneCall(v, Head(call));
    if Tail(call).arguments == [] {
      assert Head(call) == call;
      ReceiveCons(v, m, []);
      assert [m] + [] == [m];
    } else {
      ReceiveCons(v, m, CallMessages(CallPieces(Tail(call))));
      ReceiveCall(Receive(v, m), Tail(call));
      FeedSplit(v.calls, call);
    }
  }

  lemma FeedSplit(calls: map<Index, Piece>, call: Delta)
    ensures Feed(Feed(calls, Head(call)), Tail(call)) == Feed(calls, call)
  {
    CallStep(call);
    var p := if call.index in calls then calls[call.index] else Piece("", "", []);
    Assoc(p.arguments, Head(call).arguments, Tail(call).arguments);
    var id, name := p.id + OrEmpty(call.id), p.name + OrEmpty(call.name);
    assert id + "" == id && name + "" == name;
  }

  lemma {:induction false} ReceiveCalls(v: View, calls: seq<Delta>)
    ensures ReceiveAll(v, AllCallMessages(calls)) == v.(calls := FeedAll(v.calls, calls))
    decreases |calls|
  {
    if calls != [] {
      ReceiveCall(v, calls[0]);
      ReceiveAllConcat(v, CallMessages(CallPieces(calls[0])), AllCallMessages(calls[1..]));
      ReceiveCalls(v.(calls := Feed(v.calls, calls[0])), calls[1..]);
    }
  }

  /** Cutting is invisible: a concatenating consumer ends where the uncut message would have left it. */
  lemma CuttingIsTransparent(v: View, m: Message)
    ensures ReceiveAll(v, Messages(m)) == Receive(v, m)
  {
    var a, b := PieceMessages(Pieces(m.text), false), PieceMessages(Pieces(ReasoningText(m)), true);
    var c, d := AllCallMessages(m.calls), LastMessage(m);
    ReceiveAllConcat(v, a + b + c, d);
    ReceiveAllConcat(v, a + b, c);
    ReceiveAllConcat(v, a, b);
    var v1 := v.(text := v.text + m.text);
    var v2 := v1.(reasoning := v1.reasoning + ReasoningText(m));
    var v3 := v2.(calls := FeedAll(v2.calls, m.calls));
    ReceivePieces(v, m.text, false);
    ReceivePieces(v1, ReasoningText(m), true);
    ReceiveCalls(v2, m.calls);
    ReceiveLast(v3, m);
  }

  lemma ReceiveLast(v: View, m: Message)
    ensures ReceiveAll(v, LastMessage(m)) == v.(done := v.done + if m.done then 1 else 0)
  {
    WithEmpty(v.text);
    WithEmpty(v.reasoning);
    if LastMessage(m) != [] {
      assert LastMessage(m)[1..] == [];
    }
  }

  // ----- bounds

  predicate Bounded(m: Message) {
    |m.text| <= MAX_CHUNK && |ReasoningText(m)| <= MAX_CHUNK && forall c | c in m.calls :: |c.arguments| <= MAX_CHUNK
  }

  lemma {:induction false} PiecesBounded(text: Text, reasoning: bool, m: Message)
    requires m in PieceMessages(Pieces(text), reasoning)
    ensures Bounded(m) && !m.done && (m.text != [] || ReasoningText(m) != [])
    decreases |text|
  {
    PiecesStep(text, reasoning);
    var end := Floor(text, MAX_CHUNK);
    if m != PieceMessage(text[..end], reasoning) {
      PiecesBounded(text[end..], reasoning, m);
    }
  }

  lemma {:induction false} CallBounded(call: Delta, m: Message)
    requires m in CallMessages(CallPieces(call))
    ensures Bounded(m) && !m.done
    decreases |call.arguments|
  {
    CallStep(call);
    if m != EMPTY.(calls := [Head(call)]) {
      CallBounded(Tail(call), m);
    }
  }

  lemma {:induction false} CallsBounded(calls: seq<Delta>, m: Message)
    requires m in AllCallMessages(calls)
    ensures Bounded(m) && !m.done
    decreases |calls|
  {
    if m in CallMessages(CallPieces(calls[0])) {
      CallBounded(calls[0], m);
    } else {
      CallsBounded(calls[1..], m);
    }
  }

  /** No message carries more than 16 KiB of any text, and only the last can say "done". */
  lemma MessagesBounded(m: Message, k: nat)
    requires k < |Messages(m)|
    ensures Bounded(Messages(m)[k])
    ensures Messages(m)[k].done ==> m.done && k == |Messages(m)| - 1
  {
    var out := Messages(m)[k];
    var a, b, c := PieceMessages(Pieces(m.text), false), PieceMessages(Pieces(ReasoningText(m)), true), AllCallMessages(m.calls);
    if k < |a| {
      PiecesBounded(m.text, false, out);
    } else if k < |a| + |b| {
      PiecesBounded(ReasoningText(m), true, out);
    } else if k < |a| + |b| + |c| {
      CallsBounded(m.calls, out);
    }
  }

  /** What a message is for: text, reasoning, a call, or the end. */
  function Rank(m: Message): nat {
    if m.text != [] then 0 else if m.reasoning.Some? then 1 else if m.calls != [] then 2 else 3
  }

  lemma {:induction false} PiecesRank(text: Text, reasoning: bool, x: Message)
    requires x in PieceMessages(Pieces(text), reasoning)
    ensures Rank(x) == if reasoning then 1 else 0
    decreases |text|
  {
    if text != [] {
      PiecesStep(text, reasoning);
      var end := Floor(text, MAX_CHUNK);
      if x != PieceMessage(text[..end], reasoning) {
        PiecesRank(text[end..], reasoning, x);
      }
    }
  }

  lemma {:induction false} CallPiecesRank(pieces: seq<Delta>, x: Message)
    requires x in CallMessages(pieces)
    ensures Rank(x) == 2
  {
    if pieces != [] && x != EMPTY.(calls := [pieces[0]]) {
      CallPiecesRank(pieces[1..], x);
    }
  }

  lemma {:induction false} CallsRank(calls: seq<Delta>, x: Message)
    requires x in AllCallMessages(calls)
    ensures Rank(x) == 2
  {
    if x in CallMessages(CallPieces(calls[0])) {
      CallPiecesRank(CallPieces(calls[0]), x);
    } else {
      CallsRank(calls[1..], x);
    }
  }

  lemma MessageRank(m: Message, k: nat)
    requires k < |Messages(m)|
    ensures var (a, b, c) := (|PieceMessages(Pieces(m.text), false)|, |PieceMessages(Pieces(ReasoningText(m)), true)|, |AllCallMessages(m.calls)|);
            Rank(Messages(m)[k]) == if k < a then 0 else if k < a + b then 1 else if k < a + b + c then 2 else 3
  {
    var out := Messages(m)[k];
    var a, b, c := PieceMessages(Pieces(m.text), false), PieceMessages(Pieces(ReasoningText(m)), true), AllCallMessages(m.calls);
    if k < |a| {
      PiecesRank(m.text, false, out);
    } else if k < |a| + |b| {
      PiecesRank(ReasoningText(m), true, out);
    } else if k < |a| + |b| + |c| {
      CallsRank(m.calls, out);
    }
  }

  /** The text of a delta is sent first, then its reasoning, then its calls, and the end last. */
  lemma MessagesInOrder(m: Message, j: nat, k: nat)
    requires j <= k < |Messages(m)|
    ensures Rank(Messages(m)[j]) <= Rank(Messages(m)[k])
  {
    MessageRank(m, j);
    MessageRank(m, k);
  }

  lemma {:induction false} NoneDone(v: View, ms: seq<Message>)
    requires forall m | m in ms :: !m.done
    ensures ReceiveAll(v, ms).done == v.done
    decreases |ms|
  {
    if ms != [] {
      NoneDone(Receive(v, ms[0]), ms[1..]);
    }
  }

  /** A receiver that goes away in the middle of a delta has not been told that the stream is done. */
  lemma CutIsNotDone(v: View, m: Message, n: nat)
    requires n <= |Messages(m)| && (m.done ==> n < |Messages(m)|)
    ensures ReceiveAll(v, Messages(m)[..n]).done == v.done
  {
    forall x | x in Messages(m)[..n] ensures !x.done {
      var k :| 0 <= k < n && Messages(m)[k] == x;
      MessagesBounded(m, k);
    }
    NoneDone(v, Messages(m)[..n]);
  }

  // ----- reconstruction

  /** The consumer holds every call of the table, under its slot, and nothing else. */
  ghost predicate Rebuilt(calls: Table, seen: map<Index, Piece>) {
    && (forall id | id in calls :: calls[id].slot in seen && seen[calls[id].slot] == Piece(id, calls[id].name, calls[id].arguments))
    && (forall slot | slot in seen :: exists id :: id in calls && calls[id].slot == slot)
  }

  lemma FedPiece(calls: Table, s: Snapshot, slot: Index, seen: map<Index, Piece>)
    requires Rebuilt(calls, seen) && Step(calls, s, slot).Ok?
    requires s.id !in calls ==> slot !in seen
    ensures var (calls', d) := Step(calls, s, slot).value;
            d.index == calls'[s.id].slot && Feed(seen, d)[d.index] == Piece(s.id, calls'[s.id].name, s.arguments)
  {
    var known := Existing(calls, s.id, slot);
    var d := Step(calls, s, slot).value.1;
    if s.id in calls {
      assert seen[known.slot] == Piece(s.id, known.name, known.arguments);
      FedKnown(seen, d, Piece(s.id, known.name, known.arguments));
    } else {
      FedNew(seen, d);
    }
    PrefixRejoins(known.arguments, s.arguments);
    WithEmpty(known.name);
    WithEmpty(s.id);
  }

  lemma PrefixRejoins<T>(prefix: seq<T>, whole: seq<T>)
    requires prefix <= whole
    ensures prefix + whole[|prefix|..] == whole
  {
  }

  lemma FedKnown(seen: map<Index, Piece>, d: Delta, p: Piece)
    requires d.index in seen && seen[d.index] == p
    ensures d.index in Feed(seen, d)
    ensures Feed(seen, d)[d.index] == Piece(p.id + OrEmpty(d.id), p.name + OrEmpty(d.name), p.arguments + d.arguments)
  {
  }

  lemma FedNew(seen: map<Index, Piece>, d: Delta)
    requires d.index !in seen
    ensures d.index in Feed(seen, d) && Feed(seen, d)[d.index] == Piece(OrEmpty(d.id), OrEmpty(d.name), d.arguments)
  {
    WithEmpty(OrEmpty(d.id));
    WithEmpty(OrEmpty(d.name));
    WithEmpty(d.arguments);
  }

  lemma FreshSlot(calls: Table, calls': Table, id: string, seen: map<Index, Piece>)
    requires Rebuilt(calls, seen) && DistinctSlots(calls') && id !in calls
    requires id in calls' && calls' == calls[id := calls'[id]]
    ensures calls'[id].slot !in seen
  {
    forall x | x in seen ensures x != calls'[id].slot {
      var other :| other in calls && calls[other].slot == x;
      assert calls'[other].slot == x;
    }
  }

  lemma StepRebuilds(calls: Table, s: Snapshot, slot: Index, seen: map<Index, Piece>)
    requires Rebuilt(calls, seen) && Step(calls, s, slot).Ok?
    requires DistinctSlots(Step(calls, s, slot).value.0)
    ensures var (calls', d) := Step(calls, s, slot).value; Rebuilt(calls', Feed(seen, d))
  {
    var (calls', d) := Step(calls, s, slot).value;
    if s.id !in calls {
      FreshSlot(calls, calls', s.id, seen);
    }
    FedPiece(calls, s, slot, seen);
    FeedRebuilds(calls, calls', s.id, seen, Feed(seen, d));
  }

  /** Changing one call and the piece under its slot keeps the rest in agreement. */
  lemma FeedRebuilds(calls: Table, calls': Table, id: string, seen: map<Index, Piece>, seen': map<Index, Piece>)
    requires Rebuilt(calls, seen) && DistinctSlots(calls')
    requires id in calls' && calls' == calls[id := calls'[id]] && (id in calls ==> calls[id].slot == calls'[id].slot)
    requires seen' == seen[calls'[id].slot := Piece(id, calls'[id].name, calls'[id].arguments)]
    ensures Rebuilt(calls', seen')
  {
    forall other | other in calls'
      ensures calls'[other].slot in seen' && seen'[calls'[other].slot] == Piece(other, calls'[other].name, calls'[other].arguments)
    {
      if other != id {
        assert other in calls && calls'[other] == calls[other];
      }
    }
    forall x | x in seen' ensures exists other :: other in calls' && calls'[other].slot == x {
      if x != calls'[id].slot {
        var other :| other in calls && calls[other].slot == x;
        assert other in calls' && calls'[other].slot == x;
      }
    }
  }

  ghost function DeltaOf(calls: Table, s: Snapshot, slot: Index): Delta
    requires Step(calls, s, slot).Ok?
  {
    Step(calls, s, slot).value.1
  }

  /** The stream sent for a run of updates. */
  ghost function Stream(tables: seq<Table>, snapshots: seq<Snapshot>, slots: seq<Index>, n: nat): seq<Message>
    requires IsRun(tables, snapshots, slots) && n < |tables|
  {
    if n == 0 then []
    else
      assert Updates(tables[n - 1], tables[n], snapshots[n - 1], slots[n - 1]);
      Stream(tables, snapshots, slots, n - 1) +
      Messages(EMPTY.(calls := [DeltaOf(tables[n - 1], snapshots[n - 1], slots[n - 1])]))
  }

  /** End to end: after every run of accepted updates, a consumer that concatenates per index holds exactly
      the id, name and full arguments of every call if and only if no two calls share a slot. */
  lemma StreamRebuilds(tables: seq<Table>, snapshots: seq<Snapshot>, slots: seq<Index>, n: nat)
    requires IsRun(tables, snapshots, slots) && n < |tables|
    ensures Rebuilt(tables[n], ReceiveAll(View([], [], map[], 0), Stream(tables, snapshots, slots, n)).calls) <==>
            DistinctSlots(tables[n])
  {
    if DistinctSlots(tables[n]) {
      DistinctRebuilds(tables, snapshots, slots, n);
    }
  }

  lemma {:induction false} DistinctRebuilds(tables: seq<Table>, snapshots: seq<Snapshot>, slots: seq<Index>, n: nat)
    requires IsRun(tables, snapshots, slots) && n < |tables| && DistinctSlots(tables[n])
    ensures Rebuilt(tables[n], ReceiveAll(View([], [], map[], 0), Stream(tables, snapshots, slots, n)).calls)
  {
    if n > 0 {
      assert Updates(tables[n - 1], tables[n], snapshots[n - 1], slots[n - 1]);
      StepSlots(tables[n - 1], snapshots[n - 1], slots[n - 1]);
      DistinctBefore(tables[n - 1], tables[n]);
      DistinctRebuilds(tables, snapshots, slots, n - 1);
      SentRebuilds(tables[n - 1], snapshots[n - 1], slots[n - 1], View([], [], map[], 0), Stream(tables, snapshots, slots, n - 1));
    }
  }

  lemma SentRebuilds(calls: Table, s: Snapshot, slot: Index, start: View, before: seq<Message>)
    requires Step(calls, s, slot).Ok? && DistinctSlots(Step(calls, s, slot).value.0)
    requires Rebuilt(calls, ReceiveAll(start, before).calls)
    ensures var (calls', d) := Step(calls, s, slot).value;
            Rebuilt(calls', ReceiveAll(start, before + Messages(EMPTY.(calls := [d]))).calls)
  {
    var d := DeltaOf(calls, s, slot);
    ReceiveAllConcat(start, before, Messages(EMPTY.(calls := [d])));
    CuttingIsTransparent(ReceiveAll(start, before), EMPTY.(calls := [d]));
    ReceiveOneCall(ReceiveAll(start, before), d);
    StepRebuilds(calls, s, slot, ReceiveAll(start, before).calls);
  }

  lemma DistinctBefore(calls: Table, calls': Table)
    requires Extends(calls, calls') && DistinctSlots(calls')
    ensures DistinctSlots(calls)
  {
    forall a, b | a in calls && b in calls && calls[a].slot == calls[b].slot ensures a == b {
      assert calls'[a].slot == calls'[b].slot;
    }
  }

  // ----- signatures and metadata

  /** What a message carries besides text, in order. */
  datatype Note = Signature(index: Index, text: string) | Metadata(text: string)

  function CallNotes(calls: seq<Delta>): seq<Note> {
    if calls == [] then []
    else (if calls[0].signature.Some? then [Signature(calls[0].index, calls[0].signature.value)] else []) + CallNotes(calls[1..])
  }

  function NotesOf(m: Message): seq<Note> {
    CallNotes(m.calls) + if m.metadata.Some? then [Metadata(m.metadata.value)] else []
  }

  function Notes(messages: seq<Message>): seq<Note> {
    if messages == [] then [] else NotesOf(messages[0]) + Notes(messages[1..])
  }

  lemma {:induction false} NotesConcat(a: seq<Message>, b: seq<Message>)
    ensures Notes(a + b) == Notes(a) + Notes(b)
  {
    if a == [] {
      WithEmpty(b);
      WithEmpty(Notes(b));
    } else {
      TailOfConcat(a, b);
      NotesConcat(a[1..], b);
      Assoc(NotesOf(a[0]), Notes(a[1..]), Notes(b));
    }
  }

  lemma {:induction false} PieceNotes(pieces: seq<Text>, reasoning: bool)
    ensures Notes(PieceMessages(pieces, reasoning)) == []
  {
    if pieces != [] {
      ConsParts(PieceMessage(pieces[0], reasoning), PieceMessages(pieces[1..], reasoning));
      PieceNotes(pieces[1..], reasoning);
    }
  }

  lemma OneCallNotes(call: Delta)
    ensures CallNotes([call]) == if call.signature.Some? then [Signature(call.index, call.signature.value)] else []
    ensures NotesOf(EMPTY.(calls := [call])) == CallNotes([call])
  {
    assert [call][1..] == [];
    WithEmpty(CallNotes([call]));
  }

  /** The signature goes with the first piece of a call, and only with that. */
  lemma {:induction false} CutCallNotes(call: Delta)
    ensures Notes(CallMessages(CallPieces(call))) == CallNotes([call])
    decreases |call.arguments|
  {
    var pieces := CallPieces(call);
    OneCallNotes(Head(call));
    OneCallNotes(call);
    if Tail(call).arguments == [] {
      assert pieces[1..] == [];
      ConsParts(EMPTY.(calls := [Head(call)]), []);
      WithEmpty(CallNotes([call]));
    } else {
      FloorProgress(call.arguments, MAX_CHUNK);
      CutCallNotes(Tail(call));
      OneCallNotes(Tail(call));
      ConsParts(Head(call), CallPieces(Tail(call)));
      ConsParts(EMPTY.(calls := [Head(call)]), CallMessages(CallPieces(Tail(call))));
      WithEmpty(CallNotes([call]));
    }
  }

  lemma {:induction false} AllCallsNotes(calls: seq<Delta>)
    ensures Notes(AllCallMessages(calls)) == CallNotes(calls)
  {
    if calls != [] {
      AllCallsNotes(calls[1..]);
      CutCallNotes(calls[0]);
      OneCallNotes(calls[0]);
      NotesConcat(CallMessages(CallPieces(calls[0])), AllCallMessages(calls[1..]));
    }
  }

  lemma LastNotes(m: Message)
    ensures Notes(LastMessage(m)) == if m.metadata.Some? then [Metadata(m.metadata.value)] else []
  {
    if LastMessage(m) != [] {
      assert LastMessage(m)[1..] == [];
      WithEmpty(NotesOf(LastMessage(m)[0]));
    }
  }

  /** Cutting keeps every signature and the metadata, once each and in order. */
  lemma NotesKept(m: Message)
    ensures Notes(Messages(m)) == NotesOf(m)
  {
    var a, b := PieceMessages(Pieces(m.text), false), PieceMessages(Pieces(ReasoningText(m)), true);
    var c, d := AllCallMessages(m.calls), LastMessage(m);
    NotesConcat(a + b + c, d);
    NotesConcat(a + b, c);
    NotesConcat(a, b);
    PieceNotes(Pieces(m.text), false);
    PieceNotes(Pieces(ReasoningText(m)), true);
    AllCallsNotes(m.calls);
    LastNotes(m);
    WithEmpty(CallNotes(m.calls));
  }

  function SignatureOf(calls: Table, s: Snapshot): seq<Note> {
    if s.signature.Some? && s.id in calls then [Signature(calls[s.id].slot, s.signature.value)] else []
  }

  /** Whatever was sent before, an accepted snapshot adds its signature, once, under the slot of its call, and
      no other note. */
  lemma SignatureSent(before: seq<Message>, calls: Table, calls': Table, s: Snapshot, slot: Index)
    requires Updates(calls, calls', s, slot)
    ensures Notes(before + Messages(EMPTY.(calls := [DeltaOf(calls, s, slot)]))) ==
            Notes(before) + SignatureOf(calls', s)
  {
    var d := DeltaOf(calls, s, slot);
    NotesConcat(before, Messages(EMPTY.(calls := [d])));
    NotesKept(EMPTY.(calls := [d]));
    OneCallNotes(d);
  }
}
