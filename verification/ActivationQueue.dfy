/** The bounded activation queue: an unbounded channel with a shared compare-exchange counter.
    Any number of senders and one receiver take atomic steps in any order. */
module ActivationQueue {

  /** Where a sender is inside `try_send`. */
  datatype Sender<Req> =
    | Idle
    | Entered(request: Req)               // about to read the closed flag
    | Open(request: Req)                  // about to read the counter
    | Trying(request: Req, seen: nat)     // in the compare-exchange loop with a value read earlier
    | Reserved(request: Req)              // counter raised, request not yet in the channel
    | Undoing                             // channel refused the request, counter not yet lowered

  datatype Receiver<Req> = Waiting | Holding(request: Req) | Dropped

  datatype Result = Accepted | Full | Closed

  datatype State<!Req> = State(
    capacity: nat,
    queued: nat,                          // the shared atomic counter
    closed: bool,                         // the shared flag
    rxClosed: bool,                       // the channel no longer takes messages
    channel: seq<Req>,
    discarded: seq<Req>,                  // messages thrown away when the receiver was dropped
    senders: map<nat, Sender<Req>>,
    receiver: Receiver<Req>,
    accepted: seq<Req>,                   // every request the channel took, in order
    taken: seq<Req>,                      // every request the receiver took out, in order
    delivered: seq<Req>)                  // every request `recv` has returned, in order

  datatype Step<Req> =
    | Call(sender: nat, request: Req)
    | LoadClosed(sender: nat)
    | LoadQueued(sender: nat)
    | CompareExchange(sender: nat, spurious: bool)
    | ChannelSend(sender: nat)
    | Undo(sender: nat)
    | SenderClose
    | Take
    | Release
    | ReceiverClose
    | ReceiverDrop

  function Init<Req>(capacity: nat): State<Req> {
    State(if capacity < 1 then 1 else capacity, 0, false, false, [], [], map[], Waiting, [], [], [])
  }

  /** `fetch_sub` on a machine word wraps below zero. */
  const WORD: nat := 0x1_0000_0000_0000_0000

  function FetchSub(n: nat): nat {
    if n == 0 then WORD - 1 else n - 1
  }

  function At<Req>(s: State<Req>, id: nat): Sender<Req> {
    if id in s.senders then s.senders[id] else Idle
  }

  function Move<Req>(s: State<Req>, id: nat, p: Sender<Req>): State<Req> {
    s.(senders := s.senders[id := p])
  }

  predicate Enabled<Req>(s: State<Req>, step: Step<Req>) {
    match step
    case Call(id, _) => At(s, id).Idle?
    case LoadClosed(id) => At(s, id).Entered?
    case LoadQueued(id) => At(s, id).Open?
    case CompareExchange(id, _) => At(s, id).Trying?
    case ChannelSend(id) => At(s, id).Reserved?
    case Undo(id) => At(s, id).Undoing?
    case SenderClose => true
    case Take => s.receiver.Waiting? && s.channel != []
    case Release => s.receiver.Holding?
    case ReceiverClose => s.receiver.Waiting?
    case ReceiverDrop => s.receiver.Waiting?
  }

  /** One atomic step, with the result it returns to a caller, if any. */
  function Next<Req>(s: State<Req>, step: Step<Req>): (r: (State<Req>, seq<Result>))
    requires Enabled(s, step)
  {
    match step
    case Call(id, request) => (Move(s, id, Entered(request)), [])
    case LoadClosed(id) =>
      if s.closed then (Move(s, id, Idle), [Closed]) else (Move(s, id, Open(At(s, id).request)), [])
    case LoadQueued(id) =>
      Loop(s, id, At(s, id).request, s.queued)
    case CompareExchange(id, spurious) =>
      var p := At(s, id);
      if s.queued == p.seen && !spurious then
        (Move(s, id, Reserved(p.request)).(queued := s.queued + 1), [])
      else Loop(s, id, p.request, s.queued)
    case ChannelSend(id) =>
      if s.rxClosed then (Move(s, id, Undoing), [])
      else
        var request := At(s, id).request;
        (Move(s, id, Idle).(channel := s.channel + [request], accepted := s.accepted + [request]), [Accepted])
    case Undo(id) => (Move(s, id, Idle).(queued := FetchSub(s.queued)), [Closed])
    case SenderClose => (s.(closed := true), [])
    case Take => (s.(receiver := Holding(s.channel[0]), channel := s.channel[1..], taken := s.taken + [s.channel[0]]), [])
    case Release =>
      (s.(receiver := Waiting, queued := FetchSub(s.queued), delivered := s.delivered + [s.receiver.request]), [])
    case ReceiverClose => (s.(closed := true, rxClosed := true), [])
    case ReceiverDrop =>
      (s.(closed := true, rxClosed := true, receiver := Dropped, discarded := s.channel, channel := []), [])
  }

  /** The head of the loop: a full counter ends the call, otherwise the exchange is attempted. */
  function Loop<Req>(s: State<Req>, id: nat, request: Req, seen: nat): (State<Req>, seq<Result>) {
    if seen >= s.capacity then (Move(s, id, Idle), [Full]) else (Move(s, id, Trying(request, seen)), [])
  }

  // ----- the invariant

  ghost function Reservations<Req>(s: State<Req>): set<nat> {
    set id | id in s.senders && (s.senders[id].Reserved? || s.senders[id].Undoing?)
  }

  ghost function InHand<Req>(s: State<Req>): nat {
    if s.receiver.Holding? then 1 else 0
  }

  ghost predicate Inv<Req>(s: State<Req>) {
    && s.capacity >= 1
    && s.queued == |s.channel| + |s.discarded| + |Reservations(s)| + InHand(s)
    && s.queued <= s.capacity
    && (forall id | id in s.senders && s.senders[id].Trying? :: s.senders[id].seen < s.capacity)
    && s.accepted == s.taken + s.channel + s.discarded
    && s.taken == s.delivered + (if s.receiver.Holding? then [s.receiver.request] else [])
    && (s.receiver.Dropped? ==> s.rxClosed && s.channel == [])
    && (!s.receiver.Dropped? ==> s.discarded == [])
    && (s.rxClosed ==> s.closed)
    && (forall id | id in s.senders && s.senders[id].Undoing? :: s.rxClosed)
  }

  lemma ReservationsAfterMove<Req>(s: State<Req>, id: nat, p: Sender<Req>)
    ensures Reservations(Move(s, id, p)) ==
              if p.Reserved? || p.Undoing? then Reservations(s) + {id} else Reservations(s) - {id}
  {
  }

  lemma InitInv<Req>(capacity: nat)
    ensures Inv(Init<Req>(capacity))
  {
    assert Reservations(Init<Req>(capacity)) == {};
  }

  /** A step that only moves a sender between states that hold no reservation. */
  lemma PlainMoveKeepsInv<Req>(s: State<Req>, id: nat, p: Sender<Req>)
    requires Inv(s) && !At(s, id).Reserved? && !At(s, id).Undoing? && !p.Reserved? && !p.Undoing?
    requires p.Trying? ==> p.seen < s.capacity
    ensures Inv(Move(s, id, p))
  {
    ReservationsAfterMove(s, id, p);
    assert Reservations(s) - {id} == Reservations(s);
  }

  lemma ReserveKeepsInv<Req>(s: State<Req>, id: nat)
    requires Inv(s) && At(s, id).Trying? && s.queued == At(s, id).seen
    ensures Inv(Next(s, CompareExchange(id, false)).0)
  {
    var m := Move(s, id, Reserved(At(s, id).request));
    var s' := Next(s, CompareExchange(id, false)).0;
    ReservationsAfterMove(s, id, Reserved(At(s, id).request));
    assert Reservations(s') == Reservations(m) && id !in Reservations(s);
  }

  lemma SendKeepsInv<Req>(s: State<Req>, id: nat)
    requires Inv(s) && At(s, id).Reserved?
    ensures Inv(Next(s, ChannelSend(id)).0)
  {
    var s' := Next(s, ChannelSend(id)).0;
    assert id in Reservations(s);
    ReservationsAfterMove(s, id, Idle);
    ReservationsAfterMove(s, id, Undoing);
    if s.rxClosed {
      assert Reservations(s) + {id} == Reservations(s);
    } else {
      assert Reservations(s') == Reservations(Move(s, id, Idle));
    }
  }

  lemma UndoKeepsInv<Req>(s: State<Req>, id: nat)
    requires Inv(s) && At(s, id).Undoing?
    ensures Inv(Next(s, Undo(id)).0) && Next(s, Undo(id)).0.queued == s.queued - 1
  {
    assert id in Reservations(s);
    ReservationsAfterMove(s, id, Idle);
    assert Reservations(Next(s, Undo(id)).0) == Reservations(Move(s, id, Idle));
  }

  lemma ReceiverKeepsInv<Req>(s: State<Req>, step: Step<Req>)
    requires Inv(s) && Enabled(s, step)
    requires step.Take? || step.Release? || step.ReceiverClose? || step.ReceiverDrop? || step.SenderClose?
    ensures Inv(Next(s, step).0)
  {
    var s' := Next(s, step).0;
    assert Reservations(s') == Reservations(s);
  }

  lemma StepKeepsInv<Req>(s: State<Req>, step: Step<Req>)
    requires Inv(s) && Enabled(s, step)
    ensures Inv(Next(s, step).0)
  {
    match step {
      case Call(id, request) => PlainMoveKeepsInv(s, id, Entered(request));
      case LoadClosed(id) => PlainMoveKeepsInv(s, id, if s.closed then Idle else Open(At(s, id).request));
      case LoadQueued(id) => LoopKeepsInv(s, id, At(s, id).request);
      case CompareExchange(id, spurious) =>
        if s.queued == At(s, id).seen && !spurious {
          ReserveKeepsInv(s, id);
        } else {
          LoopKeepsInv(s, id, At(s, id).request);
        }
      case ChannelSend(id) => SendKeepsInv(s, id);
      case Undo(id) => UndoKeepsInv(s, id);
      case _ => ReceiverKeepsInv(s, step);
    }
  }

  lemma LoopKeepsInv<Req>(s: State<Req>, id: nat, request: Req)
    requires Inv(s) && !At(s, id).Reserved? && !At(s, id).Undoing?
    ensures Inv(Loop(s, id, request, s.queued).0)
  {
    PlainMoveKeepsInv(s, id, if s.queued >= s.capacity then Idle else Trying(request, s.queued));
  }

  // ----- runs

  ghost predicate IsRun<Req>(states: seq<State<Req>>, steps: seq<Step<Req>>, capacity: nat) {
    && |states| == |steps| + 1 && states[0] == Init(capacity)
    && forall i | 0 <= i < |steps| :: Enabled(states[i], steps[i]) && states[i + 1] == Next(states[i], steps[i]).0
  }

  lemma {:induction false} RunInv<Req>(states: seq<State<Req>>, steps: seq<Step<Req>>, capacity: nat, n: nat)
    requires IsRun(states, steps, capacity) && n < |states|
    ensures Inv(states[n])
  {
    if n == 0 {
      InitInv<Req>(capacity);
    } else {
      RunInv(states, steps, capacity, n - 1);
      StepKeepsInv(states[n - 1], steps[n - 1]);
    }
  }

  lemma {:induction false} CapacityStays<Req>(states: seq<State<Req>>, steps: seq<Step<Req>>, capacity: nat, n: nat)
    requires IsRun(states, steps, capacity) && n < |states|
    ensures states[n].capacity == if capacity == 0 then 1 else capacity
  {
    if n > 0 {
      CapacityStays(states, steps, capacity, n - 1);
      CapacityStep(states[n - 1], steps[n - 1]);
    }
  }

  lemma CapacityStep<Req>(s: State<Req>, step: Step<Req>)
    requires Enabled(s, step)
    ensures Next(s, step).0.capacity == s.capacity
  {
  }

  /** In every state of every interleaving: the counter is exact and bounded, lowering it never
      underflows, and what `recv` has returned is a prefix of what was accepted. */
  lemma QueueSafety<Req>(states: seq<State<Req>>, steps: seq<Step<Req>>, capacity: nat, n: nat)
    requires IsRun(states, steps, capacity) && n < |states|
    ensures var s := states[n];
            && s.queued == |s.channel| + |s.discarded| + |Reservations(s)| + InHand(s)
            && s.capacity == (if capacity == 0 then 1 else capacity)
            && s.queued <= s.capacity && |s.channel| <= s.capacity
            && ((exists id :: At(s, id).Undoing?) || s.receiver.Holding? ==> s.queued >= 1)
            && s.delivered <= s.accepted
            && |s.accepted| == |s.delivered| + InHand(s) + |s.channel| + |s.discarded|
  {
    RunInv(states, steps, capacity, n);
    CapacityStays(states, steps, capacity, n);
    var s := states[n];
    if id :| At(s, id).Undoing? {
      assert id in Reservations(s);
    }
  }

  // ----- what a result means, and what closing does

  /** A caller is told "accepted" exactly when its request enters the channel, "full" only when the counter
      is at the capacity, and "closed" only when the queue has been closed. */
  lemma ResultMeaning<Req>(s: State<Req>, step: Step<Req>)
    requires Inv(s) && Enabled(s, step)
    ensures var (s', results) := Next(s, step);
            && (results == [Accepted] <==> s'.accepted != s.accepted)
            && (results == [Accepted] ==>
                  step.ChannelSend? && !s.rxClosed && s'.accepted == s.accepted + [At(s, step.sender).request]
                  && s'.channel == s.channel + [At(s, step.sender).request])
            && (results == [Full] ==> s.queued >= s.capacity)
            && (results == [Closed] ==> s.closed)
            && (results == [] || results == [Accepted] || results == [Full] || results == [Closed])
  {
    if step.ChannelSend? && !s.rxClosed {
      assert |Next(s, step).0.accepted| == |s.accepted| + 1;
    }
  }

  predicate ClosesChannel<Req>(step: Step<Req>) {
    step.ReceiverClose? || step.ReceiverDrop?
  }

  predicate Closes<Req>(step: Step<Req>) {
    step.SenderClose? || ClosesChannel(step)
  }

  lemma ClosedStep<Req>(s: State<Req>, step: Step<Req>)
    requires Enabled(s, step)
    ensures var s' := Next(s, step).0;
            && (s'.closed <==> s.closed || Closes(step))
            && (s'.rxClosed <==> s.rxClosed || ClosesChannel(step))
            && (s.rxClosed ==> s'.accepted == s.accepted)
  {
  }

  /** Once anybody has closed the queue it stays closed, and a call that looks at the flag after that is told
      "closed". Once the receiver has closed it or is gone, nothing is accepted any more, not even from a
      sender that already holds a place: its request is refused and its place given back. */
  lemma {:induction false} ClosedForGood<Req>(states: seq<State<Req>>, steps: seq<Step<Req>>, capacity: nat, i: nat, n: nat)
    requires IsRun(states, steps, capacity) && i < n < |states| && Closes(steps[i])
    ensures states[n].closed
    ensures n < |steps| && steps[n].LoadClosed? ==> Next(states[n], steps[n]).1 == [Closed]
    ensures ClosesChannel(steps[i]) ==> states[n].rxClosed && states[n].accepted == states[i + 1].accepted
    ensures ClosesChannel(steps[i]) && n < |steps| && steps[n].ChannelSend? ==>
              var (s, results) := Next(states[n], steps[n]);
              results == [] && At(s, steps[n].sender).Undoing? && Next(s, Undo(steps[n].sender)).1 == [Closed]
  {
    ClosedStep(states[n - 1], steps[n - 1]);
    if n - 1 > i {
      ClosedForGood(states, steps, capacity, i, n - 1);
    }
  }

  /** And nothing else closes it. */
  lemma {:induction false} OpenUntilClosed<Req>(states: seq<State<Req>>, steps: seq<Step<Req>>, capacity: nat, n: nat)
    requires IsRun(states, steps, capacity) && n < |states|
    ensures states[n].closed <==> SomeCloses(steps, n)
    ensures states[n].rxClosed <==> SomeClosesChannel(steps, n)
  {
    if n > 0 {
      OpenUntilClosed(states, steps, capacity, n - 1);
      ClosedStep(states[n - 1], steps[n - 1]);
      OneMoreStep(steps, n - 1);
    }
  }

  ghost predicate SomeCloses<Req>(steps: seq<Step<Req>>, n: nat)
    requires n <= |steps|
  {
    exists i :: 0 <= i < n && Closes(steps[i])
  }

  ghost predicate SomeClosesChannel<Req>(steps: seq<Step<Req>>, n: nat)
    requires n <= |steps|
  {
    exists i :: 0 <= i < n && ClosesChannel(steps[i])
  }

  lemma OneMoreStep<Req>(steps: seq<Step<Req>>, n: nat)
    requires n < |steps|
    ensures SomeCloses(steps, n + 1) <==> SomeCloses(steps, n) || Closes(steps[n])
    ensures SomeClosesChannel(steps, n + 1) <==> SomeClosesChannel(steps, n) || ClosesChannel(steps[n])
  {
  }

  // ----- a sender on its own

  /** The steps of one undisturbed `try_send` with `spurious` failed exchanges. */
  function Solo<Req>(id: nat, request: Req, spurious: nat): seq<Step<Req>> {
    [Call(id, request), LoadClosed(id), LoadQueued(id)] + Retries(id, spurious)
  }

  function Retries<Req>(id: nat, spurious: nat): seq<Step<Req>> {
    if spurious == 0 then [CompareExchange(id, false), ChannelSend(id)]
    else [CompareExchange(id, true)] + Retries(id, spurious - 1)
  }

  /** Run the steps until one returns a result to the caller. */
  function RunToResult<Req>(s: State<Req>, steps: seq<Step<Req>>): (State<Req>, seq<Result>)
    decreases |steps|
  {
    if steps == [] || !Enabled(s, steps[0]) then (s, [])
    else
      var (s', r) := Next(s, steps[0]);
      if r != [] then (s', r) else RunToResult(s', steps[1..])
  }

  lemma {:induction false} RetriesSend<Req>(s: State<Req>, id: nat, request: Req, spurious: nat)
    requires At(s, id) == Trying(request, s.queued) && s.queued < s.capacity && !s.rxClosed
    ensures var (s', r) := RunToResult(s, Retries(id, spurious));
            r == [Accepted] && s'.channel == s.channel + [request] && s'.queued == s.queued + 1
    decreases spurious
  {
    if spurious == 0 {
      var s1 := Next(s, CompareExchange(id, false)).0;
      assert Retries<Req>(id, 0)[1..] == [ChannelSend(id)];
      assert At(s1, id) == Reserved(request);
    } else {
      var s1 := Next(s, CompareExchange(id, true)).0;
      assert Retries<Req>(id, spurious)[1..] == Retries<Req>(id, spurious - 1);
      assert s1.senders[id] == Trying(request, s.queued);
      RetriesSend(s1, id, request, spurious - 1);
    }
  }

  /** With nobody else in the middle of an operation, a request is accepted exactly when the queue is
      open and holds fewer than `capacity` requests; a receive therefore reopens capacity. */
  lemma SoloSend<Req>(s: State<Req>, id: nat, request: Req, spurious: nat)
    requires Inv(s) && Reservations(s) == {} && s.receiver.Waiting? && At(s, id).Idle?
    ensures RunToResult(s, Solo(id, request, spurious)).1 ==
              [if s.closed then Closed else if |s.channel| < s.capacity then Accepted else Full]
    ensures !s.closed && |s.channel| < s.capacity ==>
              RunToResult(s, Solo(id, request, spurious)).0.channel == s.channel + [request]
  {
    var s1 := Next(s, Call(id, request)).0;
    var rest := [LoadQueued(id)] + Retries<Req>(id, spurious);
    SoloSteps(id, request, spurious);
    RunToResultCons(s, Call(id, request), [LoadClosed(id)] + rest);
    RunToResultCons(s1, LoadClosed(id), rest);
    if !s.closed {
      var s2 := Next(s1, LoadClosed(id)).0;
      assert s2.senders[id] == Open(request) && s.queued == |s.channel|;
      SoloFromOpen(s2, id, request, spurious);
    }
  }

  lemma SoloSteps<Req>(id: nat, request: Req, spurious: nat)
    ensures Solo(id, request, spurious) == [Call(id, request)] + ([LoadClosed(id)] + ([LoadQueued(id)] + Retries(id, spurious)))
  {
  }

  /** From the point where the queue was found open. */
  lemma SoloFromOpen<Req>(s: State<Req>, id: nat, request: Req, spurious: nat)
    requires At(s, id) == Open(request) && !s.rxClosed
    ensures var (s', r) := RunToResult(s, [LoadQueued(id)] + Retries(id, spurious));
            if s.queued < s.capacity then r == [Accepted] && s'.channel == s.channel + [request] else r == [Full]
  {
    var s1 := Next(s, LoadQueued(id)).0;
    RunToResultCons(s, LoadQueued(id), Retries(id, spurious));
    if s.queued < s.capacity {
      assert s1.senders[id] == Trying(request, s.queued);
      RetriesSend(s1, id, request, spurious);
    }
  }

  lemma RunToResultCons<Req>(s: State<Req>, step: Step<Req>, rest: seq<Step<Req>>)
    requires Enabled(s, step)
    ensures RunToResult(s, [step] + rest) ==
              if Next(s, step).1 != [] then Next(s, step) else RunToResult(Next(s, step).0, rest)
  {
    assert ([step] + rest)[1..] == rest;
  }
}
