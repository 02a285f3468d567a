/** The end of a chat stream: the emitted calls are checked against the completion, calls that were
    never streamed are emitted now, and one final message closes the stream. */
module StreamEnd {
  import opened Options
  import opened Seqs
  import opened Utf8
  import opened ToolProgress
  import opened ToolStream

  /** A tool call of the finished completion; `J` is the type of JSON values and `rendered` the text
      its arguments are written as. */
  datatype Completed<+J> = Completed(id: Option<string>, name: string, arguments: J, rendered: Text)

  /** The JSON value of every text that has one; the empty text has none. */
  type Parse<J> = m: map<Text, J> | [] !in m witness map[]

  function FindFrom<J>(calls: seq<Completed<J>>, from: nat, id: string): Option<Completed<J>>
    requires from <= |calls|
    decreases |calls| - from
  {
    if from == |calls| then None
    else if calls[from].id == Some(id) then Some(calls[from])
    else FindFrom(calls, from + 1, id)
  }

  function FindCall<J>(calls: seq<Completed<J>>, id: string): Option<Completed<J>> {
    FindFrom(calls, 0, id)
  }

  /** The ids among the first `n` calls. */
  ghost function IdsUpTo<J>(calls: seq<Completed<J>>, n: nat): set<string>
    requires n <= |calls|
  {
    if n == 0 then {}
    else if calls[n - 1].id.Some? then IdsUpTo(calls, n - 1) + {calls[n - 1].id.value}
    else IdsUpTo(calls, n - 1)
  }

  lemma {:induction false} IdsUpToIff<J>(calls: seq<Completed<J>>, n: nat, id: string)
    requires n <= |calls|
    ensures id in IdsUpTo(calls, n) <==> exists k :: 0 <= k < n && calls[k].id == Some(id)
  {
    if n > 0 {
      IdsUpToIff(calls, n - 1, id);
    }
  }

  lemma {:induction false} IdsUpToMonotone<J>(calls: seq<Completed<J>>, m: nat, n: nat)
    requires m <= n <= |calls|
    ensures IdsUpTo(calls, m) <= IdsUpTo(calls, n)
    decreases n
  {
    if m < n {
      IdsUpToMonotone(calls, m, n - 1);
    }
  }

  ghost function IdsOf<J>(calls: seq<Completed<J>>): set<string> {
    IdsUpTo(calls, |calls|)
  }

  ghost predicate NamedUpTo<J>(calls: seq<Completed<J>>, n: nat)
    requires n <= |calls|
  {
    forall k | 0 <= k < n :: calls[k].id.Some?
  }

  ghost predicate AllNamed<J>(calls: seq<Completed<J>>) {
    NamedUpTo(calls, |calls|)
  }

  lemma NamedStep<J>(calls: seq<Completed<J>>, n: nat)
    requires n < |calls| && NamedUpTo(calls, n)
    ensures calls[n].id.Some? ==> NamedUpTo(calls, n + 1)
    ensures calls[n].id.None? ==> !AllNamed(calls)
  {
  }

  lemma {:induction false} FindFromIff<J>(calls: seq<Completed<J>>, from: nat, id: string)
    requires from <= |calls|
    ensures FindFrom(calls, from, id).Some? <==> exists k :: from <= k < |calls| && calls[k].id == Some(id)
    decreases |calls| - from
  {
    if from < |calls| {
      FindFromIff(calls, from + 1, id);
    }
  }

  lemma FindCallIff<J>(calls: seq<Completed<J>>, id: string)
    ensures FindCall(calls, id).Some? <==> id in IdsOf(calls)
  {
    FindFromIff(calls, 0, id);
    IdsUpToIff(calls, |calls|, id);
  }

  lemma IdsUpToStep<J>(calls: seq<Completed<J>>, i: nat)
    requires i < |calls| && calls[i].id.Some?
    ensures IdsUpTo(calls, i + 1) == IdsUpTo(calls, i) + {calls[i].id.value} <= IdsOf(calls)
  {
    IdsUpToMonotone(calls, i + 1, |calls|);
  }

  lemma {:induction false} FirstIsFound<J>(calls: seq<Completed<J>>, from: nat, i: nat, id: string)
    requires from <= i < |calls| && calls[i].id == Some(id)
    requires forall k | from <= k < i :: calls[k].id != Some(id)
    ensures FindFrom(calls, from, id) == Some(calls[i])
    decreases i - from
  {
    if from < i {
      FirstIsFound(calls, from + 1, i, id);
    }
  }

  /** Fields that are still empty are not compared. */
  predicate Agrees<J(==)>(call: Call, c: Option<Completed<J>>, parse: Parse<J>) {
    && c.Some?
    && (call.name == "" || call.name == c.value.name)
    && (call.arguments == [] || (call.arguments in parse && parse[call.arguments] == c.value.arguments))
  }

  ghost predicate AllAgree<J>(table: Table, completion: seq<Completed<J>>, parse: Parse<J>) {
    forall id | id in table :: Agrees(table[id], FindCall(completion, id), parse)
  }

  method Validate<J(==)>(p: Progress, completion: seq<Completed<J>>, parse: Parse<J>) returns (ok: bool)
    ensures ok == AllAgree(p.calls, completion, parse)
  {
    var rest := p.calls.Keys;
    while rest != {}
      invariant rest <= p.calls.Keys
      invariant forall id | id in p.calls && id !in rest :: Agrees(p.calls[id], FindCall(completion, id), parse)
      decreases |rest|
    {
      var id :| id in rest;
      if !Agrees(p.calls[id], FindCall(completion, id), parse) {
        return false;
      }
      rest := rest - {id};
    }
    return true;
  }

  /** The entry of a call that was emitted from the completion. */
  ghost predicate Copies<J>(call: Call, c: Option<Completed<J>>) {
    c.Some? && call.name == c.value.name && call.arguments == c.value.rendered
  }

  /** Progress of the loop over the completion, on the table: streamed calls stay as they are, and the
      others are copied from the completion. */
  ghost predicate Filled<J>(was: Table, now: Table, completion: seq<Completed<J>>, i: nat, parse: Parse<J>)
    requires i <= |completion|
  {
    && AllAgree(was, completion, parse) && |now| <= MAX_CALLS
    && now.Keys == was.Keys + IdsUpTo(completion, i) && now.Keys <= IdsOf(completion)
    && (forall id | id in now :: if id in was then now[id] == was[id] else Copies(now[id], FindCall(completion, id)))
  }

  /** What a consumer that stood at `start`, when the table was `was`, has seen of the messages sent since. */
  ghost predicate Shown(was: Table, now: Table, start: View, more: seq<Message>) {
    && (Rebuilt(was, start.calls) && DistinctSlots(now) ==> Rebuilt(now, ReceiveAll(start, more).calls))
    && ReceiveAll(start, more).done == start.done
  }

  /** The receiver has gone away. */
  ghost predicate Gone(tx: Outbox)
    reads tx
  {
    tx.room.Some? && |tx.sent| == tx.room.value
  }

  /** The last message says "done" and brings the metadata. */
  ghost predicate Closed(more: seq<Message>, metadata: string) {
    more != [] && more[|more| - 1].done && more[|more| - 1].metadata == Some(metadata)
  }

  lemma FillStart<J>(was: Table, completion: seq<Completed<J>>, parse: Parse<J>)
    requires AllAgree(was, completion, parse) && |was| <= MAX_CALLS
    ensures Filled(was, was, completion, 0, parse)
  {
    forall id | id in was ensures id in IdsOf(completion) {
      FindCallIff(completion, id);
      assert Agrees(was[id], FindCall(completion, id), parse);
    }
  }

  lemma FillCall<J>(was: Table, now: Table, completion: seq<Completed<J>>, i: nat, parse: Parse<J>, slot: Index)
    requires i < |completion| && Filled(was, now, completion, i, parse)
    requires completion[i].id.Some? && completion[i].id.value !in now
    requires var s := NewCall(completion[i]); SlotFor(now, s, slot) && Step(now, s, slot).Ok?
    ensures Filled(was, Step(now, NewCall(completion[i]), slot).value.0, completion, i + 1, parse)
  {
    StepNew(now, NewCall(completion[i]), slot);
    FillAdd(was, now, completion, i, parse, slot);
  }

  lemma MapAdd<K, V>(m: map<K, V>, k: K, v: V)
    requires k !in m
    ensures m[k := v].Keys == m.Keys + {k} && |m[k := v]| == |m| + 1
  {
    assert m[k := v].Keys == m.Keys + {k};
  }

  lemma UnionAdd<T>(a: set<T>, b: set<T>, x: T)
    ensures a + b + {x} == a + (b + {x})
  {
  }

  lemma KeysAdd<J>(was: Table, now: Table, completion: seq<Completed<J>>, i: nat, call: Call)
    requires i < |completion| && completion[i].id.Some? && completion[i].id.value !in now
    requires now.Keys == was.Keys + IdsUpTo(completion, i) && now.Keys <= IdsOf(completion)
    ensures var now' := now[completion[i].id.value := call];
            now'.Keys == was.Keys + IdsUpTo(completion, i + 1) && now'.Keys <= IdsOf(completion) && |now'| == |now| + 1
  {
    IdsUpToStep(completion, i);
    MapAdd(now, completion[i].id.value, call);
    UnionAdd(was.Keys, IdsUpTo(completion, i), completion[i].id.value);
  }

  lemma FillAdd<J>(was: Table, now: Table, completion: seq<Completed<J>>, i: nat, parse: Parse<J>, slot: Index)
    requires i < |completion| && Filled(was, now, completion, i, parse) && |now| < MAX_CALLS
    requires completion[i].id.Some? && completion[i].id.value !in now
    ensures Filled(was, now[completion[i].id.value := Call(slot, completion[i].name, completion[i].rendered)],
                   completion, i + 1, parse)
  {
    var id := completion[i].id.value;
    var call := Call(slot, completion[i].name, completion[i].rendered);
    KeysAdd(was, now, completion, i, call);
    assert FindCall(completion, id) == Some(completion[i]) by {
      IdsUpToIff(completion, i, id);
      FirstIsFound(completion, 0, i, id);
    }
    assert Copies(call, FindCall(completion, id));
  }

  lemma FillSkip<J>(was: Table, now: Table, completion: seq<Completed<J>>, i: nat, parse: Parse<J>)
    requires i < |completion| && Filled(was, now, completion, i, parse)
    requires completion[i].id.Some? && completion[i].id.value in now
    ensures Filled(was, now, completion, i + 1, parse)
  {
    IdsUpToStep(completion, i);
  }

  lemma ShowCall(was: Table, now: Table, start: View, more: seq<Message>, s: Snapshot, slot: Index)
    requires Shown(was, now, start, more) && SlotFor(now, s, slot) && Step(now, s, slot).Ok?
    ensures var (now', d) := Step(now, s, slot).value;
            Shown(was, now', start, more + Messages(EMPTY.(calls := [d])))
  {
    var (now', d) := Step(now, s, slot).value;
    var m := EMPTY.(calls := [d]);
    ReceiveAllConcat(start, more, Messages(m));
    CuttingIsTransparent(ReceiveAll(start, more), m);
    ReceiveOneCall(ReceiveAll(start, more), d);
    StepSlots(now, s, slot);
    if Rebuilt(was, start.calls) && DistinctSlots(now') {
      DistinctBefore(now, now');
      SentRebuilds(now, s, slot, start, more);
    }
  }

  function NewCall<J>(c: Completed<J>): Snapshot
    requires c.id.Some?
  {
    Snapshot(c.id.value, c.name, c.rendered, None, None)
  }

  /** What a receiver that went away during a delta was sent of it. */
  lemma LostShown(room: Option<nat>, base: seq<Message>, more: seq<Message>, m: Message, start: View) returns (n: nat)
    requires Fits(room, base + more) && !Fits(room, base + more + Messages(m)) && !m.done
    requires ReceiveAll(start, more).done == start.done
    ensures n < |Messages(m)| && Delivered(room, base + more + Messages(m)) == base + (more + Messages(m)[..n])
    ensures ReceiveAll(start, more + Messages(m)[..n]).done == start.done
  {
    n := room.value - |base + more|;
    assert Delivered(room, base + more + Messages(m)) == base + more + Messages(m)[..n];
    Assoc(base, more, Messages(m)[..n]);
    ReceiveAllConcat(start, more, Messages(m)[..n]);
    CutIsNotDone(ReceiveAll(start, more), m, n);
  }

  /** Emit one completed call that has not been streamed. */
  method EmitOne(p: Progress, tx: Outbox, s: Snapshot, ghost start: View, ghost was: Table, ghost base: seq<Message>, ghost more: seq<Message>)
    returns (ok: bool, ghost slot: Index, ghost more': seq<Message>)
    requires tx.Valid() && tx.sent == base + more
    requires s.id !in p.calls && s.wire.None? && Shown(was, p.calls, start, more)
    modifies p`calls, tx
    ensures tx.Valid() && tx.sent == base + more' && ReceiveAll(start, more').done == start.done
    ensures SlotFor(old(p.calls), s, slot)
    ensures ok ==> Step(old(p.calls), s, slot).Ok? && p.calls == Step(old(p.calls), s, slot).value.0
    ensures ok ==> Shown(was, p.calls, start, more')
    ensures !ok ==> |old(p.calls)| >= MAX_CALLS || Gone(tx)
  {
    more' := more;
    ghost var now := p.calls;
    var delta;
    slot, delta := p.UpdateNormalized(s);
    if delta.ProtocolError? {
      return false, slot, more;
    }
    var m := EMPTY.(calls := [delta.value]);
    ShowCall(was, now, start, more, s, slot);
    Assoc(base, more, Messages(m));
    ok := tx.SendDelta(m);
    if ok {
      more' := more + Messages(m);
    } else {
      ghost var n := LostShown(tx.room, base, more, m, start);
      more' := more + Messages(m)[..n];
    }
  }

  /** One turn of the loop: an emitted call is skipped, any other is emitted under its own id. */
  method EmitCall<J(==)>(p: Progress, tx: Outbox, completion: seq<Completed<J>>, i: nat, ghost parse: Parse<J>, ghost start: View,
                         ghost was: Table, ghost base: seq<Message>, ghost more: seq<Message>) returns (ok: bool, ghost more': seq<Message>)
    requires i < |completion| && Filled(was, p.calls, completion, i, parse) && NamedUpTo(completion, i)
    requires tx.Valid() && tx.sent == base + more && Shown(was, p.calls, start, more)
    modifies p`calls, tx
    ensures tx.Valid() && tx.sent == base + more' && ReceiveAll(start, more').done == start.done
    ensures ok ==> Shown(was, p.calls, start, more')
    ensures ok ==> Filled(was, p.calls, completion, i + 1, parse) && NamedUpTo(completion, i + 1)
    ensures !ok ==> !Acceptable(completion) || Gone(tx)
  {
    var call := completion[i];
    more' := more;
    NamedStep(completion, i);
    if call.id.None? {
      return false, more;
    }
    ok := true;
    if call.id.value in p.calls {
      FillSkip(was, p.calls, completion, i, parse);
    } else {
      ghost var now := p.calls;
      ghost var slot;
      ok, slot, more' := EmitOne(p, tx, NewCall(call), start, was, base, more);
      if ok {
        FillCall(was, now, completion, i, parse, slot);
      } else if |now| >= MAX_CALLS {
        IdsUpToStep(completion, i);
        TooMany(now, call.id.value, IdsOf(completion));
      }
    }
  }

  /** Every completed call has an id, and there are at most 128 of them. */
  ghost predicate Acceptable<J>(completion: seq<Completed<J>>) {
    AllNamed(completion) && |IdsOf(completion)| <= MAX_CALLS
  }

  /** Every completed call that was not streamed is emitted once. */
  method EmitMissing<J(==)>(p: Progress, tx: Outbox, completion: seq<Completed<J>>, ghost parse: Parse<J>, ghost start: View)
    returns (ok: bool, ghost more: seq<Message>)
    requires tx.Valid() && Filled(p.calls, p.calls, completion, 0, parse)
    modifies p`calls, tx
    ensures tx.Valid() && tx.sent == old(tx.sent) + more && ReceiveAll(start, more).done == start.done
    ensures ok ==> Acceptable(completion) && Filled(old(p.calls), p.calls, completion, |completion|, parse)
    ensures ok ==> Shown(old(p.calls), p.calls, start, more)
    ensures !ok ==> !Acceptable(completion) || Gone(tx)
  {
    more := [];
    NothingShown(p.calls, start);
    WithEmpty(tx.sent);
    for i := 0 to |completion|
      invariant Filled(old(p.calls), p.calls, completion, i, parse)
      invariant tx.Valid() && tx.sent == old(tx.sent) + more && Shown(old(p.calls), p.calls, start, more)
      invariant NamedUpTo(completion, i)
    {
      ok, more := EmitCall(p, tx, completion, i, parse, start, old(p.calls), old(tx.sent), more);
      if !ok {
        return;
      }
    }
    FilledKeys(old(p.calls), p.calls, completion, parse);
    ok := true;
  }

  /** The last step of a stream. Unless the receiver goes away, it succeeds exactly when the emitted calls
      agree with the completion, every completed call has an id, and there are at most 128 of them. Then
      the streamed calls are as they were, every other completed call is added as completed, a consumer that
      held the emitted calls holds them all, and the one message that says "done" is the last. Without
      success no such message is sent. */
  method Finish<J(==)>(p: Progress, tx: Outbox, completion: seq<Completed<J>>, parse: Parse<J>, metadata: string, ghost start: View)
    returns (ok: bool, ghost more: seq<Message>)
    requires tx.Valid() && |p.calls| <= MAX_CALLS
    modifies p`calls, tx
    ensures ok ==> AllAgree(old(p.calls), completion, parse) && Acceptable(completion)
    ensures !ok ==> !(AllAgree(old(p.calls), completion, parse) && Acceptable(completion)) || Gone(tx)
    ensures tx.Valid() && tx.sent == old(tx.sent) + more
    ensures ok ==>
              && Filled(old(p.calls), p.calls, completion, |completion|, parse)
              && (Rebuilt(old(p.calls), start.calls) && DistinctSlots(p.calls) ==> Rebuilt(p.calls, ReceiveAll(start, more).calls))
    ensures ReceiveAll(start, more).done == start.done + if ok then 1 else 0
    ensures ok ==> Closed(more, metadata)
  {
    more := [];
    NothingShown(p.calls, start);
    ok := Validate(p, completion, parse);
    if !ok {
      WithEmpty(tx.sent);
      return;
    }
    FillStart(p.calls, completion, parse);
    ok, more := EmitAndClose(p, tx, completion, parse, metadata, start);
  }

  /** After validation: the missing calls, then the message that says "done". */
  method EmitAndClose<J(==)>(p: Progress, tx: Outbox, completion: seq<Completed<J>>, ghost parse: Parse<J>, metadata: string, ghost start: View)
    returns (ok: bool, ghost more: seq<Message>)
    requires tx.Valid() && Filled(p.calls, p.calls, completion, 0, parse)
    modifies p`calls, tx
    ensures tx.Valid() && tx.sent == old(tx.sent) + more
    ensures ok ==> Acceptable(completion) && Filled(old(p.calls), p.calls, completion, |completion|, parse)
    ensures ok && Rebuilt(old(p.calls), start.calls) && DistinctSlots(p.calls) ==> Rebuilt(p.calls, ReceiveAll(start, more).calls)
    ensures ok ==> Closed(more, metadata)
    ensures !ok ==> !Acceptable(completion) || Gone(tx)
    ensures ReceiveAll(start, more).done == start.done + if ok then 1 else 0
  {
    ok, more := EmitMissing(p, tx, completion, parse, start);
    if ok {
      ok, more := SendLast(tx, metadata, start, old(tx.sent), more);
    }
  }

  lemma NothingShown(now: Table, start: View)
    ensures Shown(now, now, start, [])
  {
  }

  method SendLast(tx: Outbox, metadata: string, ghost start: View, ghost base: seq<Message>, ghost more: seq<Message>)
    returns (ok: bool, ghost more': seq<Message>)
    requires tx.Valid() && tx.sent == base + more
    modifies tx
    ensures tx.Valid() && tx.sent == base + more'
    ensures ok ==> Closed(more', metadata) && ReceiveAll(start, more').calls == ReceiveAll(start, more).calls
    ensures ReceiveAll(start, more').done == ReceiveAll(start, more).done + if ok then 1 else 0
    ensures !ok ==> more' == more && Gone(tx)
  {
    var last := EMPTY.(done := true, metadata := Some(metadata));
    LastIsAlone(last);
    CloseShown(start, more, last);
    Assoc(base, more, [last]);
    DropOfConcat(tx.sent, [last], |tx.sent|);
    ok := tx.SendDelta(last);
    more' := if ok then more + [last] else more;
  }

  /** Once the loop is through, the emitted ids are exactly the completed ones. */
  lemma FilledKeys<J>(was: Table, now: Table, completion: seq<Completed<J>>, parse: Parse<J>)
    requires Filled(was, now, completion, |completion|, parse)
    ensures now.Keys == IdsOf(completion)
  {
  }

  /** A call is held with the name and the arguments of its completed form. */
  ghost predicate Whole<J>(call: Call, c: Completed<J>, parse: Parse<J>) {
    && call.name == c.name
    && (call.arguments == c.rendered || (call.arguments in parse && parse[call.arguments] == c.arguments))
  }

  /** A field was streamed as empty and is not empty in the completion. */
  ghost predicate Blank<J>(call: Call, c: Completed<J>) {
    (call.name == "" && c.name != "") || (call.arguments == [] && c.rendered != [])
  }

  lemma WholeIffNotBlank<J>(call: Call, c: Completed<J>, parse: Parse<J>)
    requires Agrees(call, Some(c), parse)
    ensures Whole(call, c, parse) <==> !Blank(call, c)
  {
  }

  ghost predicate AllWhole<J>(now: Table, completion: seq<Completed<J>>, parse: Parse<J>) {
    forall id | id in IdsOf(completion) ::
      id in now && FindCall(completion, id).Some? && Whole(now[id], FindCall(completion, id).value, parse)
  }

  ghost predicate NoneBlank<J>(was: Table, completion: seq<Completed<J>>) {
    forall id | id in was :: FindCall(completion, id).Some? && !Blank(was[id], FindCall(completion, id).value)
  }

  /** After a successful end every completed call is held whole if and only if no field had been streamed
      as empty that is not empty in the completion. */
  lemma WholeIff<J>(was: Table, now: Table, completion: seq<Completed<J>>, parse: Parse<J>)
    requires Filled(was, now, completion, |completion|, parse)
    ensures AllWhole(now, completion, parse) <==> NoneBlank(was, completion)
  {
    FilledKeys(was, now, completion, parse);
    forall id | id in now
      ensures FindCall(completion, id).Some?
      ensures Whole(now[id], FindCall(completion, id).value, parse) <==>
              (id in was ==> !Blank(was[id], FindCall(completion, id).value))
    {
      FindCallIff(completion, id);
      if id in was {
        assert Agrees(was[id], FindCall(completion, id), parse);
        WholeIffNotBlank(was[id], FindCall(completion, id).value, parse);
      }
    }
  }

  /** A call whose only snapshot had empty arguments passes the check and stays without them, for any
      arguments of the completed call. */
  lemma EmptyArgumentsStay<J>(id: string, name: string, value: J, rendered: Text, parse: Parse<J>)
    requires rendered != []
    ensures var (s, was) := (Snapshot(id, name, [], None, None), map[id := Call(0, name, [])]);
            var completion := [Completed(Some(id), name, value, rendered)];
            && Updates(map[], was, s, 0)
            && AllAgree(was, completion, parse) && Acceptable(completion)
            && Filled(was, was, completion, 1, parse) && !AllWhole(was, completion, parse)
  {
    var was := map[id := Call(0, name, [])];
    var c := Completed(Some(id), name, value, rendered);
    var completion := [c];
    StepNew(map[], Snapshot(id, name, [], None, None), 0);
    FirstIsFound(completion, 0, 0, id);
    assert Agrees(was[id], FindCall(completion, id), parse);
    assert IdsUpTo(completion, 1) == {id};
    FillStart(was, completion, parse);
    FillSkip(was, was, completion, 0, parse);
    assert Blank(was[id], c);
    assert !NoneBlank(was, completion);
    WholeIff(was, was, completion, parse);
  }

  lemma CloseShown(start: View, more: seq<Message>, last: Message)
    requires last.calls == [] && last.done
    ensures ReceiveAll(start, more + [last]).calls == ReceiveAll(start, more).calls
    ensures ReceiveAll(start, more + [last]).done == ReceiveAll(start, more).done + 1
  {
    ReceiveAllConcat(start, more, [last]);
    assert [last][1..] == [];
  }

  lemma LastIsAlone(m: Message)
    requires m.text == [] && m.reasoning.None? && m.calls == [] && m.done
    ensures Messages(m) == [m]
  {
  }

  lemma TooMany(table: Table, id: string, ids: set<string>)
    requires table.Keys <= ids && id in ids && id !in table && |table| >= MAX_CALLS
    ensures |ids| > MAX_CALLS
  {
    SubsetSize(table.Keys + {id}, ids);
  }

  lemma {:induction false} SubsetSize<T>(a: set<T>, b: set<T>)
    requires a <= b
    ensures |a| <= |b|
  {
    assert b == a + (b - a);
  }
}
