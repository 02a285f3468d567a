/** When a snapshot of a tool call is refused, told from the snapshots before it. */
module ToolRefusals {
  import opened Options
  import opened Seqs
  import opened Utf8
  import opened ToolProgress

  ghost function Ids(snapshots: seq<Snapshot>): set<string> {
    set i | 0 <= i < |snapshots| :: snapshots[i].id
  }

  /** The first snapshot of its call; the slot chosen there is the call's. */
  ghost predicate IsFirst(snapshots: seq<Snapshot>, k: int) {
    0 <= k < |snapshots| && forall j | 0 <= j < k :: snapshots[j].id != snapshots[k].id
  }

  /** Some earlier snapshot of the call has arguments that do not go on with these. */
  ghost predicate Rewrites(snapshots: seq<Snapshot>, s: Snapshot) {
    exists k :: 0 <= k < |snapshots| && snapshots[k].id == s.id && !(snapshots[k].arguments <= s.arguments)
  }

  /** Some earlier snapshot of the call has another name. */
  ghost predicate Renames(snapshots: seq<Snapshot>, s: Snapshot) {
    s.name != "" && exists k :: 0 <= k < |snapshots| && snapshots[k].id == s.id && snapshots[k].name !in {"", s.name}
  }

  /** The wire index is the slot of another call, or not the slot of this one. */
  ghost predicate Moves(snapshots: seq<Snapshot>, slots: seq<Index>, s: Snapshot)
    requires |slots| == |snapshots|
  {
    s.wire.Some? && exists k :: IsFirst(snapshots, k) && (snapshots[k].id == s.id <==> slots[k] != s.wire.value)
  }

  ghost predicate Overflows(snapshots: seq<Snapshot>, s: Snapshot) {
    s.id !in Ids(snapshots) && |Ids(snapshots)| >= MAX_CALLS
  }

  // ----- what the table holds of the history

  ghost predicate HoldsArguments(call: Call, id: string, snapshots: seq<Snapshot>) {
    exists k :: 0 <= k < |snapshots| && snapshots[k].id == id && snapshots[k].arguments == call.arguments
  }

  ghost predicate HoldsName(call: Call, id: string, snapshots: seq<Snapshot>) {
    call.name == "" || exists k :: 0 <= k < |snapshots| && snapshots[k].id == id && snapshots[k].name == call.name
  }

  ghost predicate HoldsSlot(call: Call, id: string, snapshots: seq<Snapshot>, slots: seq<Index>)
    requires |slots| == |snapshots|
  {
    forall k | IsFirst(snapshots, k) && snapshots[k].id == id :: slots[k] == call.slot
  }

  /** Every entry comes from the snapshots of its call. */
  ghost predicate Recorded(calls: Table, snapshots: seq<Snapshot>, slots: seq<Index>)
    requires |slots| == |snapshots|
  {
    && calls.Keys == Ids(snapshots)
    && forall id | id in calls ::
         HoldsArguments(calls[id], id, snapshots) && HoldsName(calls[id], id, snapshots) && HoldsSlot(calls[id], id, snapshots, slots)
  }

  lemma IdsSnoc(snapshots: seq<Snapshot>, s: Snapshot)
    ensures Ids(snapshots + [s]) == Ids(snapshots) + {s.id}
  {
    var all := snapshots + [s];
    forall id | id in Ids(snapshots) + {s.id} ensures id in Ids(all) {
      if id == s.id {
        assert all[|snapshots|].id == id;
      } else {
        var i :| 0 <= i < |snapshots| && snapshots[i].id == id;
        assert all[i].id == id;
      }
    }
  }

  lemma FirstSnoc(snapshots: seq<Snapshot>, s: Snapshot, k: nat)
    ensures k < |snapshots| ==> (IsFirst(snapshots + [s], k) <==> IsFirst(snapshots, k))
    ensures k == |snapshots| ==> (IsFirst(snapshots + [s], k) <==> s.id !in Ids(snapshots))
  {
    var all := snapshots + [s];
    assert forall j | 0 <= j < |snapshots| :: all[j] == snapshots[j];
    if k == |snapshots| && s.id in Ids(snapshots) {
      var j :| 0 <= j < |snapshots| && snapshots[j].id == s.id;
      assert all[j].id == all[k].id;
    }
  }

  /** An entry that a snapshot does not touch. */
  lemma OtherStays(call: Call, id: string, snapshots: seq<Snapshot>, slots: seq<Index>, s: Snapshot, slot: Index)
    requires |slots| == |snapshots| && id != s.id
    requires HoldsArguments(call, id, snapshots) && HoldsName(call, id, snapshots) && HoldsSlot(call, id, snapshots, slots)
    ensures HoldsArguments(call, id, snapshots + [s]) && HoldsName(call, id, snapshots + [s])
    ensures HoldsSlot(call, id, snapshots + [s], slots + [slot])
  {
    var all := snapshots + [s];
    assert forall j | 0 <= j < |snapshots| :: all[j] == snapshots[j];
    forall k | IsFirst(all, k) && all[k].id == id ensures (slots + [slot])[k] == call.slot {
      FirstSnoc(snapshots, s, k);
    }
  }

  /** The entry that a snapshot makes or changes. */
  lemma OwnRecorded(calls: Table, snapshots: seq<Snapshot>, slots: seq<Index>, s: Snapshot, slot: Index)
    requires |slots| == |snapshots| && Recorded(calls, snapshots, slots) && Step(calls, s, slot).Ok?
    ensures var call := Step(calls, s, slot).value.0[s.id];
            && HoldsArguments(call, s.id, snapshots + [s]) && HoldsName(call, s.id, snapshots + [s])
            && HoldsSlot(call, s.id, snapshots + [s], slots + [slot])
  {
    var all, call := snapshots + [s], Step(calls, s, slot).value.0[s.id];
    assert all[|snapshots|] == s && forall j | 0 <= j < |snapshots| :: all[j] == snapshots[j];
    forall k | IsFirst(all, k) && all[k].id == s.id ensures (slots + [slot])[k] == call.slot {
      FirstSnoc(snapshots, s, k);
    }
    if call.name != "" && call.name != s.name {
      assert s.id in calls && HoldsName(calls[s.id], s.id, snapshots);
    }
  }

  lemma StepRecords(calls: Table, snapshots: seq<Snapshot>, slots: seq<Index>, s: Snapshot, slot: Index)
    requires |slots| == |snapshots| && Recorded(calls, snapshots, slots) && Step(calls, s, slot).Ok?
    ensures Recorded(Step(calls, s, slot).value.0, snapshots + [s], slots + [slot])
  {
    var calls' := Step(calls, s, slot).value.0;
    IdsSnoc(snapshots, s);
    assert calls'.Keys == calls.Keys + {s.id};
    OwnRecorded(calls, snapshots, slots, s, slot);
    forall id | id in calls' && id != s.id
      ensures HoldsArguments(calls'[id], id, snapshots + [s]) && HoldsName(calls'[id], id, snapshots + [s])
      ensures HoldsSlot(calls'[id], id, snapshots + [s], slots + [slot])
    {
      OtherStays(calls[id], id, snapshots, slots, s, slot);
    }
  }

  lemma {:induction false} RunRecorded(tables: seq<Table>, snapshots: seq<Snapshot>, slots: seq<Index>, n: nat)
    requires IsRun(tables, snapshots, slots) && n < |tables|
    ensures Recorded(tables[n], snapshots[..n], slots[..n])
  {
    if n > 0 {
      RunRecorded(tables, snapshots, slots, n - 1);
      RunUpdates(tables, snapshots, slots, n - 1);
      StepRecords(tables[n - 1], snapshots[..n - 1], slots[..n - 1], snapshots[n - 1], slots[n - 1]);
      TakeSnoc(snapshots, n - 1);
      TakeSnoc(slots, n - 1);
    }
  }

  // ----- refusals

  /** No snapshot so far has been contradicted. */
  ghost predicate AllHonoured(calls: Table, snapshots: seq<Snapshot>) {
    forall k | 0 <= k < |snapshots| :: snapshots[k].id in calls && Honours(calls[snapshots[k].id], snapshots[k])
  }

  lemma {:induction false} FirstExists(snapshots: seq<Snapshot>, i: nat) returns (k: nat)
    requires i < |snapshots|
    ensures IsFirst(snapshots, k) && snapshots[k].id == snapshots[i].id
    decreases i
  {
    if j :| 0 <= j < i && snapshots[j].id == snapshots[i].id {
      k := FirstExists(snapshots, j);
    } else {
      k := i;
    }
  }

  lemma FirstOf(snapshots: seq<Snapshot>, id: string) returns (k: nat)
    requires id in Ids(snapshots)
    ensures IsFirst(snapshots, k) && snapshots[k].id == id
  {
    var i :| 0 <= i < |snapshots| && snapshots[i].id == id;
    k := FirstExists(snapshots, i);
  }

  lemma MovesIff(calls: Table, snapshots: seq<Snapshot>, slots: seq<Index>, s: Snapshot)
    requires |slots| == |snapshots| && Recorded(calls, snapshots, slots)
    ensures Moves(snapshots, slots, s) <==> s.wire.Some? && Conflicts(calls, s.id, s.wire.value)
  {
    if Moves(snapshots, slots, s) {
      var k :| IsFirst(snapshots, k) && (snapshots[k].id == s.id <==> slots[k] != s.wire.value);
      var other := snapshots[k].id;
      assert other in Ids(snapshots);
      assert HoldsSlot(calls[other], other, snapshots, slots);
    }
    if s.wire.Some? && Conflicts(calls, s.id, s.wire.value) {
      var other :| other in calls && ((other != s.id && calls[other].slot == s.wire.value) || (other == s.id && calls[other].slot != s.wire.value));
      var k := FirstOf(snapshots, other);
      assert HoldsSlot(calls[other], other, snapshots, slots);
      assert slots[k] == calls[other].slot;
    }
  }

  lemma RewritesIff(calls: Table, snapshots: seq<Snapshot>, slots: seq<Index>, s: Snapshot)
    requires |slots| == |snapshots| && Recorded(calls, snapshots, slots) && AllHonoured(calls, snapshots)
    ensures Rewrites(snapshots, s) <==> s.id in calls && !(calls[s.id].arguments <= s.arguments)
  {
    if Rewrites(snapshots, s) {
      var k :| 0 <= k < |snapshots| && snapshots[k].id == s.id && !(snapshots[k].arguments <= s.arguments);
      assert Honours(calls[snapshots[k].id], snapshots[k]);
    }
    if s.id in calls && !(calls[s.id].arguments <= s.arguments) {
      assert HoldsArguments(calls[s.id], s.id, snapshots);
    }
  }

  lemma RenamesIff(calls: Table, snapshots: seq<Snapshot>, slots: seq<Index>, s: Snapshot)
    requires |slots| == |snapshots| && Recorded(calls, snapshots, slots) && AllHonoured(calls, snapshots)
    ensures Renames(snapshots, s) <==> s.id in calls && calls[s.id].name != "" && s.name != "" && s.name != calls[s.id].name
  {
    if Renames(snapshots, s) {
      var k :| 0 <= k < |snapshots| && snapshots[k].id == s.id && snapshots[k].name !in {"", s.name};
      assert Honours(calls[snapshots[k].id], snapshots[k]);
    }
    if s.id in calls {
      assert HoldsName(calls[s.id], s.id, snapshots);
    }
  }

  lemma KeysCount(calls: Table, ids: set<string>)
    requires calls.Keys == ids
    ensures |calls| == |ids|
  {
  }

  lemma StepRefused(calls: Table, s: Snapshot, slot: Index)
    ensures Step(calls, s, slot).ProtocolError? <==>
              || (s.id !in calls && |calls| >= MAX_CALLS)
              || (s.wire.Some? && Conflicts(calls, s.id, s.wire.value))
              || (s.id in calls && !(calls[s.id].arguments <= s.arguments))
              || (s.id in calls && calls[s.id].name != "" && s.name != "" && s.name != calls[s.id].name)
  {
  }

  /** After every run: the next snapshot is refused if and only if its call is one too many, it does not go
      on with the arguments of an earlier one of its call, it has another name, or its index is taken or moved. */
  lemma RefusedIff(tables: seq<Table>, snapshots: seq<Snapshot>, slots: seq<Index>, s: Snapshot, slot: Index)
    requires IsRun(tables, snapshots, slots)
    ensures Step(tables[|snapshots|], s, slot).ProtocolError? <==>
              Overflows(snapshots, s) || Rewrites(snapshots, s) || Renames(snapshots, s) || Moves(snapshots, slots, s)
  {
    var n, calls := |snapshots|, tables[|snapshots|];
    RunRecorded(tables, snapshots, slots, n);
    assert snapshots[..n] == snapshots && slots[..n] == slots;
    forall k | 0 <= k < n ensures snapshots[k].id in calls && Honours(calls[snapshots[k].id], snapshots[k]) {
      RunHonours(tables, snapshots, slots, k, n);
    }
    KeysCount(calls, Ids(snapshots));
    MovesIff(calls, snapshots, slots, s);
    RewritesIff(calls, snapshots, slots, s);
    RenamesIff(calls, snapshots, slots, s);
    StepRefused(calls, s, slot);
  }

  // ----- providers that are never refused

  /** Snapshots of one call have growing arguments and one name. */
  ghost predicate Cumulative(snapshots: seq<Snapshot>) {
    forall i, j | 0 <= i < j < |snapshots| && snapshots[i].id == snapshots[j].id ::
      snapshots[i].arguments <= snapshots[j].arguments && (snapshots[i].name == "" || snapshots[j].name in {"", snapshots[i].name})
  }

  /** No snapshot has an index, or each call has one of its own throughout. */
  ghost predicate WellIndexed(snapshots: seq<Snapshot>) {
    || (forall i | 0 <= i < |snapshots| :: snapshots[i].wire.None?)
    || forall i, j | 0 <= i <= j < |snapshots| ::
         snapshots[i].wire.Some? && (snapshots[i].id == snapshots[j].id <==> snapshots[i].wire == snapshots[j].wire)
  }

  lemma CumulativeNext(snapshots: seq<Snapshot>, s: Snapshot)
    requires Cumulative(snapshots + [s])
    ensures !Rewrites(snapshots, s) && !Renames(snapshots, s)
  {
    var all, n := snapshots + [s], |snapshots|;
    forall k | 0 <= k < n && snapshots[k].id == s.id
      ensures snapshots[k].arguments <= s.arguments && (snapshots[k].name == "" || s.name in {"", snapshots[k].name})
    {
      assert all[k] == snapshots[k] && all[n] == s;
    }
  }

  lemma SlotIsWire(tables: seq<Table>, snapshots: seq<Snapshot>, slots: seq<Index>, k: nat)
    requires IsRun(tables, snapshots, slots) && k < |snapshots|
    ensures snapshots[k].wire.Some? ==> slots[k] == snapshots[k].wire.value
  {
    RunUpdates(tables, snapshots, slots, k);
  }

  lemma IndexedNext(tables: seq<Table>, snapshots: seq<Snapshot>, slots: seq<Index>, s: Snapshot)
    requires IsRun(tables, snapshots, slots) && WellIndexed(snapshots + [s])
    ensures !Moves(snapshots, slots, s)
  {
    var all, n := snapshots + [s], |snapshots|;
    assert all[n] == s;
    if s.wire.Some? {
      forall k | IsFirst(snapshots, k) ensures snapshots[k].id == s.id <==> slots[k] == s.wire.value {
        SlotIsWire(tables, snapshots, slots, k);
        assert all[k] == snapshots[k];
      }
    }
  }

  lemma RoomForNext(snapshots: seq<Snapshot>, s: Snapshot)
    requires |Ids(snapshots + [s])| <= MAX_CALLS
    ensures !Overflows(snapshots, s)
  {
    IdsSnoc(snapshots, s);
  }

  /** A provider whose snapshots are cumulative, with indices that stay and differ or none at all, and at
      most 128 calls, is never refused. */
  lemma NeverRefused(tables: seq<Table>, snapshots: seq<Snapshot>, slots: seq<Index>, s: Snapshot, slot: Index)
    requires IsRun(tables, snapshots, slots)
    requires Cumulative(snapshots + [s]) && WellIndexed(snapshots + [s]) && |Ids(snapshots + [s])| <= MAX_CALLS
    ensures Step(tables[|snapshots|], s, slot).Ok?
  {
    RefusedIff(tables, snapshots, slots, s, slot);
    CumulativeNext(snapshots, s);
    IndexedNext(tables, snapshots, slots, s);
    RoomForNext(snapshots, s);
  }
}
