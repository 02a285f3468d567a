/** Progress of streamed tool calls: cumulative snapshots from the provider become deltas, each call
    keeps one slot, and provider ids are mapped to ids that are unique in the process. */
module ToolProgress {
  import opened Options
  import opened Utf8

  const MAX_INDEX: nat := 0xFFFF_FFFF_FFFF_FFFF
  const MAX_CALLS := 128

  type Index = n: nat | n <= MAX_INDEX

  // ----- provider ids to domain ids

  predicate IsSynthetic(raw: string) {
    "call#" <= raw
  }

  lemma SyntheticIff(raw: string)
    ensures IsSynthetic(raw) <==> exists rest :: raw == "call#" + rest
  {
    if IsSynthetic(raw) {
      assert raw == "call#" + raw[5..];
    }
  }

  function LastHash(s: string): (i: nat)
    requires '#' in s
    ensures i < |s| && s[i] == '#' && '#' !in s[i + 1..]
  {
    if s[|s| - 1] == '#' then |s| - 1
    else
      assert s == s[..|s| - 1] + [s[|s| - 1]];
      var i := LastHash(s[..|s| - 1]);
      assert s[i + 1..] == s[..|s| - 1][i + 1..] + [s[|s| - 1]];
      i
  }

  function Decimal(n: nat): string {
    var digit := ['0' + (n % 10) as char];
    if n < 10 then digit else Decimal(n / 10) + digit
  }

  /** Synthetic ids keep their shape with a fresh number; any other id is used as it is. */
  function DomainId(raw: string, number: nat): string {
    if IsSynthetic(raw) then
      assert raw[4] == '#';
      raw[..LastHash(raw)] + "#" + Decimal(number)
    else raw
  }

  function Assign(ids: map<string, string>, raw: string, number: nat): map<string, string> {
    if raw in ids then ids else ids[raw := DomainId(raw, number)]
  }

  lemma {:induction false} DecimalDigits(n: nat)
    ensures |Decimal(n)| > 0 && '#' !in Decimal(n)
  {
    if n >= 10 {
      DecimalDigits(n / 10);
    }
  }

  lemma {:induction false} DecimalInjective(m: nat, n: nat)
    requires Decimal(m) == Decimal(n)
    ensures m == n
  {
    DecimalDigits(m / 10);
    DecimalDigits(n / 10);
    var dm, dn := Decimal(m), Decimal(n);
    assert dm[|dm| - 1] == '0' + (m % 10) as char && dn[|dn| - 1] == '0' + (n % 10) as char;
    assert m % 10 == n % 10;
    if m >= 10 && n >= 10 {
      assert dm[..|dm| - 1] == Decimal(m / 10) && dn[..|dn| - 1] == Decimal(n / 10);
      DecimalInjective(m / 10, n / 10);
    }
  }

  /** The number of a synthetic domain id can be read back. */
  lemma SuffixUnique(p: string, m: nat, q: string, n: nat)
    requires p + "#" + Decimal(m) == q + "#" + Decimal(n)
    ensures m == n
  {
    var s := p + "#" + Decimal(m);
    DecimalDigits(m);
    DecimalDigits(n);
    assert s[|p|] == '#' && s[|q|] == '#';
    assert forall i | |p| < i < |s| :: s[i] == Decimal(m)[i - |p| - 1];
    assert forall i | |q| < i < |s| :: s[i] == Decimal(n)[i - |q| - 1];
    assert |p| == |q|;
    assert s[|p| + 1..] == Decimal(m) && s[|q| + 1..] == Decimal(n);
    DecimalInjective(m, n);
  }

  lemma SyntheticShape(raw: string, number: nat)
    requires IsSynthetic(raw)
    ensures IsSynthetic(DomainId(raw, number))
  {
    assert raw[4] == '#';
    var i := LastHash(raw);
    assert forall k | i < k < |raw| :: raw[k] == raw[i + 1..][k - i - 1];
    assert i >= 4;
    var d := DomainId(raw, number);
    assert forall k | 0 <= k < 5 :: d[k] == raw[k];
  }

  ghost predicate Injective(ids: map<string, string>) {
    forall a, b | a in ids && b in ids && ids[a] == ids[b] :: a == b
  }

  /** One request for an id, with the number that the process-wide counter would hand out. */
  datatype IdRequest = IdRequest(raw: string, number: nat)

  /** The ids handed out by the first `n` requests. */
  ghost function AssignFirst(requests: seq<IdRequest>, n: nat): map<string, string>
    requires n <= |requests|
  {
    if n == 0 then map[] else Assign(AssignFirst(requests, n - 1), requests[n - 1].raw, requests[n - 1].number)
  }

  /** Request `i` takes a number from the counter: its id is synthetic and not yet known. */
  ghost predicate Draws(requests: seq<IdRequest>, i: nat)
    requires i < |requests|
  {
    IsSynthetic(requests[i].raw) && requests[i].raw !in AssignFirst(requests, i)
  }

  /** The counter hands out no number twice; requests that draw none may carry any number. */
  ghost predicate NeverRepeats(requests: seq<IdRequest>) {
    forall i, j | 0 <= i < j < |requests| && Draws(requests, i) && Draws(requests, j) :: requests[i].number != requests[j].number
  }

  /** The request that settled the domain id of `raw`. */
  lemma {:induction false} FirstRequest(requests: seq<IdRequest>, n: nat, raw: string) returns (i: nat)
    requires n <= |requests| && raw in AssignFirst(requests, n)
    ensures i < n && requests[i].raw == raw && raw !in AssignFirst(requests, i)
  {
    if raw in AssignFirst(requests, n - 1) {
      i := FirstRequest(requests, n - 1, raw);
    } else {
      i := n - 1;
    }
  }

  lemma SameNumber(a: string, m: nat, b: string, n: nat)
    requires IsSynthetic(a) && IsSynthetic(b) && DomainId(a, m) == DomainId(b, n)
    ensures m == n
  {
    assert a[4] == '#' && b[4] == '#';
    SuffixUnique(a[..LastHash(a)], m, b[..LastHash(b)], n);
  }

  /** Only synthetic ids made with one number can share a domain id. */
  lemma SameDomain(a: string, m: nat, b: string, n: nat)
    requires DomainId(a, m) == DomainId(b, n)
    ensures a == b || (IsSynthetic(a) && IsSynthetic(b) && m == n)
  {
    if IsSynthetic(a) {
      SyntheticShape(a, m);
    }
    if IsSynthetic(b) {
      SyntheticShape(b, n);
    }
    if IsSynthetic(a) && IsSynthetic(b) {
      SameNumber(a, m, b, n);
    }
  }

  /** For every run with a counter that never repeats the mapping is one-to-one, even when a raw id
      equals an id issued earlier. */
  lemma IdsInjective(requests: seq<IdRequest>, n: nat)
    requires NeverRepeats(requests) && n <= |requests|
    ensures Injective(AssignFirst(requests, n))
  {
    var ids := AssignFirst(requests, n);
    forall a, b | a in ids && b in ids && ids[a] == ids[b] ensures a == b {
      SharedId(requests, n, a, b);
    }
  }

  lemma SharedId(requests: seq<IdRequest>, n: nat, a: string, b: string)
    requires NeverRepeats(requests) && n <= |requests|
    requires a in AssignFirst(requests, n) && b in AssignFirst(requests, n)
    requires AssignFirst(requests, n)[a] == AssignFirst(requests, n)[b]
    ensures a == b
  {
    var i := FirstRequest(requests, n, a);
    var j := FirstRequest(requests, n, b);
    SettledBy(requests, n, i);
    SettledBy(requests, n, j);
    SameDomain(a, requests[i].number, b, requests[j].number);
    SameDraw(requests, i, j);
  }

  lemma SettledBy(requests: seq<IdRequest>, n: nat, i: nat)
    requires i < n <= |requests| && requests[i].raw !in AssignFirst(requests, i)
    ensures var raw := requests[i].raw;
            raw in AssignFirst(requests, n) && AssignFirst(requests, n)[raw] == DomainId(raw, requests[i].number)
  {
    IdsStable(requests, i + 1, n, requests[i].raw);
  }

  /** No two requests draw one number. */
  lemma SameDraw(requests: seq<IdRequest>, i: nat, j: nat)
    requires NeverRepeats(requests) && i < |requests| && j < |requests|
    ensures i == j || !Draws(requests, i) || !Draws(requests, j) || requests[i].number != requests[j].number
  {
  }

  /** An id once given is given again, however the run goes on. */
  lemma {:induction false} IdsStable(requests: seq<IdRequest>, i: nat, n: nat, raw: string)
    requires i <= n <= |requests| && raw in AssignFirst(requests, i)
    ensures raw in AssignFirst(requests, n) && AssignFirst(requests, n)[raw] == AssignFirst(requests, i)[raw]
    decreases n
  {
    if i < n {
      IdsStable(requests, i, n - 1, raw);
    }
  }

  // ----- the call table

  datatype Call = Call(slot: Index, name: string, arguments: Text)

  type Table = map<string, Call>

  /** One cumulative snapshot of a call, as reported by the provider. */
  datatype Snapshot = Snapshot(id: string, name: string, arguments: Text, wire: Option<Index>, signature: Option<string>)

  datatype Delta = Delta(index: Index, id: Option<string>, name: Option<string>, arguments: Text, signature: Option<string>)

  datatype Result<+T> = Ok(value: T) | ProtocolError

  function Saturated(slot: Index): Index {
    if slot == MAX_INDEX then slot else slot + 1
  }

  /** One past the greatest slot in use, without overflow. */
  ghost predicate IsNextSlot(calls: Table, slot: nat) {
    if calls == map[] then slot == 0
    else
      && (forall id | id in calls :: Saturated(calls[id].slot) <= slot)
      && (exists id :: id in calls && Saturated(calls[id].slot) == slot)
  }

  predicate Conflicts(calls: Table, id: string, slot: Index) {
    exists other | other in calls :: (other != id && calls[other].slot == slot) || (other == id && calls[other].slot != slot)
  }

  function Existing(calls: Table, id: string, slot: Index): Call {
    if id in calls then calls[id] else Call(slot, "", [])
  }

  /** The table and delta that a snapshot leads to when a new call would get slot `slot`. */
  function Step(calls: Table, s: Snapshot, slot: Index): Result<(Table, Delta)> {
    if s.id !in calls && |calls| >= MAX_CALLS then ProtocolError
    else if s.wire.Some? && Conflicts(calls, s.id, s.wire.value) then ProtocolError
    else
      match Advanced(Existing(calls, s.id, slot), s)
      case ProtocolError => ProtocolError
      case Ok((call, name, suffix)) =>
        Ok((calls[s.id := call], Delta(call.slot, if s.id in calls then None else Some(s.id), name, suffix, s.signature)))
  }

  /** What a snapshot makes of a call: its new entry, its name if this is the first one, and the new arguments. */
  function Advanced(known: Call, s: Snapshot): Result<(Call, Option<string>, Text)> {
    if !(known.arguments <= s.arguments) then ProtocolError
    else if known.name != "" && s.name != "" && s.name != known.name then ProtocolError
    else
      var named := known.name == "" && s.name != "";
      assert s.arguments[..|known.arguments|] == known.arguments;
      ValidRest(s.arguments, |known.arguments|);
      Ok((Call(known.slot, if named then s.name else known.name, s.arguments),
          if named then Some(s.name) else None, s.arguments[|known.arguments|..]))
  }

  /** Nothing contradicts the entry made for a new call. */
  lemma FirstAdvances(s: Snapshot, slot: Index)
    ensures Advanced(Call(slot, "", []), s).Ok?
  {
  }

  /** The first snapshot of a call is recorded whole. */
  lemma StepNew(calls: Table, s: Snapshot, slot: Index)
    requires s.id !in calls && Step(calls, s, slot).Ok?
    ensures Step(calls, s, slot).value.0 == calls[s.id := Call(slot, s.name, s.arguments)]
  {
  }

  ghost predicate SlotFor(calls: Table, s: Snapshot, slot: Index) {
    if s.wire.Some? then slot == s.wire.value else IsNextSlot(calls, slot)
  }

  class Progress {
    var calls: Table
    var ids: map<string, string>

    constructor ()
      ensures calls == map[] && ids == map[]
    {
      calls, ids := map[], map[];
    }

    method NextSlot() returns (slot: Index)
      ensures IsNextSlot(calls, slot)
    {
      slot := 0;
      var rest := calls.Keys;
      ghost var best := "";
      while rest != {}
        invariant rest <= calls.Keys
        invariant forall id | id in calls && id !in rest :: Saturated(calls[id].slot) <= slot
        invariant rest != calls.Keys ==> best in calls && Saturated(calls[best].slot) == slot
        invariant rest == calls.Keys ==> slot == 0
        decreases |rest|
      {
        var id :| id in rest;
        if Saturated(calls[id].slot) > slot || rest == calls.Keys {
          slot, best := Saturated(calls[id].slot), id;
        }
        rest := rest - {id};
      }
    }

    /** `ids.entry(raw).or_insert_with(..)`; `number` is the value the shared counter hands out. */
    method Id(raw: string, number: nat) returns (id: string)
      modifies this`ids
      ensures ids == Assign(old(ids), raw, number) && id == ids[raw]
    {
      if raw !in ids {
        ids := ids[raw := DomainId(raw, number)];
      }
      id := ids[raw];
    }

    method UpdateNormalized(s: Snapshot) returns (ghost slot: Index, r: Result<Delta>)
      modifies this`calls
      ensures SlotFor(old(calls), s, slot)
      ensures match Step(old(calls), s, slot)
              case ProtocolError => r == ProtocolError && calls == old(calls)
              case Ok((table, delta)) => r == Ok(delta) && calls == table
    {
      var nextIndex: Index;
      if s.wire.Some? {
        nextIndex := s.wire.value;
      } else {
        nextIndex := NextSlot();
      }
      slot := nextIndex;
      if s.id !in calls && |calls| >= MAX_CALLS {
        return slot, ProtocolError;
      }
      var first := s.id !in calls;
      if s.wire.Some? && Conflicts(calls, s.id, s.wire.value) {
        return slot, ProtocolError;
      }
      if first {
        calls := calls[s.id := Call(nextIndex, "", [])];
      }
      var advanced := Advance(calls[s.id], s);
      if advanced.ProtocolError? {
        FirstAdvances(s, nextIndex);
        return slot, ProtocolError;
      }
      var (existing, name, suffix) := advanced.value;
      calls := calls[s.id := existing];
      return slot, Ok(Delta(existing.slot, if first then Some(s.id) else None, name, suffix, s.signature));
    }

    /** The part of an update that concerns one entry. */
    static method Advance(known: Call, s: Snapshot) returns (r: Result<(Call, Option<string>, Text)>)
      ensures r == Advanced(known, s)
    {
      if !(known.arguments <= s.arguments) {
        return ProtocolError;
      }
      assert s.arguments[..|known.arguments|] == known.arguments;
      ValidRest(s.arguments, |known.arguments|);
      var suffix := s.arguments[|known.arguments|..];
      var existing, name: Option<string> := known, None;
      if existing.name == "" {
        if s.name != "" {
          name := Some(s.name);
        }
      } else if s.name != "" && s.name != existing.name {
        return ProtocolError;
      }
      if name.Some? {
        existing := existing.(name := name.value);
      }
      existing := existing.(arguments := s.arguments);
      return Ok((existing, name, suffix));
    }

    /** A snapshot under a provider id. Even when it is refused the id stays assigned; the table does not change. */
    method Update(s: Snapshot, number: nat) returns (ghost slot: Index, r: Result<Delta>)
      modifies this
      ensures ids == Assign(old(ids), s.id, number)
      ensures SlotFor(old(calls), s.(id := ids[s.id]), slot)
      ensures match Step(old(calls), s.(id := ids[s.id]), slot)
              case ProtocolError => r == ProtocolError && calls == old(calls)
              case Ok((table, delta)) => r == Ok(delta) && calls == table
    {
      var id := Id(s.id, number);
      slot, r := UpdateNormalized(s.(id := id));
    }
  }

  // ----- slots

  ghost predicate DistinctSlots(calls: Table) {
    forall a, b | a in calls && b in calls && calls[a].slot == calls[b].slot :: a == b
  }

  /** A new call without a wire index arrives while the greatest index is taken. */
  ghost predicate Saturates(calls: Table, s: Snapshot) {
    s.id !in calls && s.wire.None? && exists id :: id in calls && calls[id].slot == MAX_INDEX
  }

  /** A slot never moves and a call never disappears. */
  ghost predicate Extends(calls: Table, calls': Table) {
    forall id | id in calls :: id in calls' && calls'[id].slot == calls[id].slot
  }

  /** One update keeps slots distinct if and only if it does not saturate. */
  lemma StepSlots(calls: Table, s: Snapshot, slot: Index)
    requires SlotFor(calls, s, slot) && Step(calls, s, slot).Ok?
    ensures var calls' := Step(calls, s, slot).value.0;
            && Extends(calls, calls') && (|calls| <= MAX_CALLS ==> |calls'| <= MAX_CALLS)
            && (DistinctSlots(calls) ==> (DistinctSlots(calls') <==> !Saturates(calls, s)))
  {
    if s.id in calls {
      StepKnown(calls, s, slot);
    } else {
      StepNew(calls, s, slot);
      TableGrows(calls, s.id, Call(slot, s.name, s.arguments));
      SlotTaken(calls, s, slot);
      if DistinctSlots(calls) {
        NewSlotDistinct(calls, s.id, Call(slot, s.name, s.arguments));
      }
    }
  }

  /** A new call meets a slot in use exactly when it saturates. */
  lemma SlotTaken(calls: Table, s: Snapshot, slot: Index)
    requires s.id !in calls && SlotFor(calls, s, slot)
    requires s.wire.Some? ==> !Conflicts(calls, s.id, s.wire.value)
    ensures (exists id :: id in calls && calls[id].slot == slot) <==> Saturates(calls, s)
  {
    if s.wire.None? && calls != map[] {
      if id :| id in calls && calls[id].slot == MAX_INDEX {
        assert Saturated(calls[id].slot) == MAX_INDEX;
      } else {
        forall id | id in calls ensures calls[id].slot < slot {
          assert Saturated(calls[id].slot) <= slot;
        }
      }
    }
  }

  lemma NewSlotDistinct(calls: Table, id: string, call: Call)
    requires id !in calls && DistinctSlots(calls)
    ensures DistinctSlots(calls[id := call]) <==> !exists other :: other in calls && calls[other].slot == call.slot
  {
    var calls' := calls[id := call];
    if other :| other in calls && calls[other].slot == call.slot {
      assert calls'[other].slot == calls'[id].slot;
    }
  }

  /** A run of accepted snapshots: the tables between them and the slots chosen. */
  ghost predicate IsRun(tables: seq<Table>, snapshots: seq<Snapshot>, slots: seq<Index>) {
    && |tables| == |snapshots| + 1 == |slots| + 1 && tables[0] == map[]
    && forall i {:trigger slots[i]} | 0 <= i < |snapshots| :: Updates(tables[i], tables[i + 1], snapshots[i], slots[i])
  }

  ghost predicate Updates(calls: Table, calls': Table, s: Snapshot, slot: Index) {
    SlotFor(calls, s, slot) && Step(calls, s, slot).Ok? && calls' == Step(calls, s, slot).value.0
  }

  lemma {:induction false} RunExtends(tables: seq<Table>, snapshots: seq<Snapshot>, slots: seq<Index>, i: nat, j: nat)
    requires IsRun(tables, snapshots, slots) && i <= j < |tables|
    ensures Extends(tables[i], tables[j])
    decreases j - i
  {
    if i < j {
      assert Updates(tables[i], tables[i + 1], snapshots[i], slots[i]);
      StepSlots(tables[i], snapshots[i], slots[i]);
      RunExtends(tables, snapshots, slots, i + 1, j);
    }
  }

  /** Over every run: slots never move, at most 128 calls are tracked, and slots are pairwise distinct
      exactly when no update in the run saturated. */
  lemma {:induction false} RunSlots(tables: seq<Table>, snapshots: seq<Snapshot>, slots: seq<Index>, n: nat)
    requires IsRun(tables, snapshots, slots) && n < |tables|
    ensures |tables[n]| <= MAX_CALLS
    ensures forall i | 0 <= i <= n :: Extends(tables[i], tables[n])
    ensures DistinctSlots(tables[n]) <==> NoneSaturates(tables, snapshots, n)
  {
    forall i | 0 <= i <= n ensures Extends(tables[i], tables[n]) {
      RunExtends(tables, snapshots, slots, i, n);
    }
    RunDistinct(tables, snapshots, slots, n);
  }

  ghost predicate NoneSaturates(tables: seq<Table>, snapshots: seq<Snapshot>, n: nat)
    requires n <= |snapshots| && n <= |tables|
  {
    forall i | 0 <= i < n :: !Saturates(tables[i], snapshots[i])
  }

  lemma {:induction false} RunDistinct(tables: seq<Table>, snapshots: seq<Snapshot>, slots: seq<Index>, n: nat)
    requires IsRun(tables, snapshots, slots) && n < |tables|
    ensures |tables[n]| <= MAX_CALLS && (DistinctSlots(tables[n]) <==> NoneSaturates(tables, snapshots, n))
  {
    if n > 0 {
      RunDistinct(tables, snapshots, slots, n - 1);
      RunUpdates(tables, snapshots, slots, n - 1);
      StepDistinct(tables[n - 1], tables[n], snapshots[n - 1], slots[n - 1]);
      NoneSaturatesStep(tables, snapshots, n - 1);
    }
  }

  lemma RunUpdates(tables: seq<Table>, snapshots: seq<Snapshot>, slots: seq<Index>, i: nat)
    requires IsRun(tables, snapshots, slots) && i < |snapshots|
    ensures Updates(tables[i], tables[i + 1], snapshots[i], slots[i])
  {
  }

  lemma NoneSaturatesStep(tables: seq<Table>, snapshots: seq<Snapshot>, n: nat)
    requires n < |snapshots| && n < |tables|
    ensures NoneSaturates(tables, snapshots, n + 1) <==> NoneSaturates(tables, snapshots, n) && !Saturates(tables[n], snapshots[n])
  {
  }

  lemma StepDistinct(calls: Table, calls': Table, s: Snapshot, slot: Index)
    requires Updates(calls, calls', s, slot) && |calls| <= MAX_CALLS
    ensures |calls'| <= MAX_CALLS && (DistinctSlots(calls') <==> DistinctSlots(calls) && !Saturates(calls, s))
  {
    StepSlots(calls, s, slot);
    if !DistinctSlots(calls) {
      SharedStays(calls, calls');
    }
  }

  lemma SharedStays(calls: Table, calls': Table)
    requires Extends(calls, calls') && !DistinctSlots(calls)
    ensures !DistinctSlots(calls')
  {
    var a, b :| a in calls && b in calls && calls[a].slot == calls[b].slot && a != b;
    assert calls'[a].slot == calls'[b].slot;
  }

  /** What a snapshot says is still true of the call. */
  ghost predicate Honours(call: Call, s: Snapshot) {
    && s.arguments <= call.arguments && (s.name != "" ==> call.name == s.name)
    && (s.wire.Some? ==> call.slot == s.wire.value)
  }

  lemma StepHonours(calls: Table, s: Snapshot, slot: Index)
    requires SlotFor(calls, s, slot) && Step(calls, s, slot).Ok?
    ensures var calls' := Step(calls, s, slot).value.0;
            s.id in calls' && Honours(calls'[s.id], s) && calls'[s.id].arguments == s.arguments
  {
  }

  lemma StepStillHonours(calls: Table, s: Snapshot, slot: Index, past: Snapshot)
    requires Step(calls, s, slot).Ok? && past.id in calls && Honours(calls[past.id], past)
    ensures var calls' := Step(calls, s, slot).value.0;
            && past.id in calls' && Honours(calls'[past.id], past)
            && (past.id != s.id ==> calls'[past.id] == calls[past.id])
  {
  }

  /** No update of a run is ever contradicted: the call keeps its name and wire index, its arguments only
      grow, and they are exactly those of the last snapshot. */
  lemma {:induction false} RunHonours(tables: seq<Table>, snapshots: seq<Snapshot>, slots: seq<Index>, k: nat, n: nat)
    requires IsRun(tables, snapshots, slots) && k < n < |tables|
    ensures var s := snapshots[k];
            && s.id in tables[n] && Honours(tables[n][s.id], s)
            && ((forall j | k < j < n :: snapshots[j].id != s.id) ==> tables[n][s.id].arguments == s.arguments)
  {
    if k == n - 1 {
      assert Updates(tables[k], tables[k + 1], snapshots[k], slots[k]);
      StepHonours(tables[k], snapshots[k], slots[k]);
    } else {
      RunHonours(tables, snapshots, slots, k, n - 1);
      assert Updates(tables[n - 1], tables[n], snapshots[n - 1], slots[n - 1]);
      StepStillHonours(tables[n - 1], snapshots[n - 1], slots[n - 1], snapshots[k]);
    }
  }

  /** The greatest wire index that leaves room for 127 more calls. */
  const SAFE_INDEX: Index := MAX_INDEX - (MAX_CALLS - 1)

  ghost predicate WiresWithin(snapshots: seq<Snapshot>, bound: Index) {
    forall i | 0 <= i < |snapshots| && snapshots[i].wire.Some? :: snapshots[i].wire.value <= bound
  }

  /** Wire indices with room for 127 more calls never saturate. */
  lemma {:induction false} SmallIndicesDistinct(tables: seq<Table>, snapshots: seq<Snapshot>, slots: seq<Index>, n: nat)
    requires IsRun(tables, snapshots, slots) && n < |tables| && WiresWithin(snapshots, SAFE_INDEX)
    ensures DistinctSlots(tables[n]) && |tables[n]| <= MAX_CALLS
    ensures forall id | id in tables[n] :: tables[n][id].slot < SAFE_INDEX + |tables[n]|
  {
    if n > 0 {
      SmallIndicesDistinct(tables, snapshots, slots, n - 1);
      assert Updates(tables[n - 1], tables[n], snapshots[n - 1], slots[n - 1]);
      SmallStep(tables[n - 1], snapshots[n - 1], slots[n - 1]);
    }
  }

  lemma SmallStep(calls: Table, s: Snapshot, slot: Index)
    requires SlotFor(calls, s, slot) && Step(calls, s, slot).Ok? && DistinctSlots(calls) && |calls| <= MAX_CALLS
    requires s.wire.Some? ==> s.wire.value <= SAFE_INDEX
    requires forall id | id in calls :: calls[id].slot < SAFE_INDEX + |calls|
    ensures var calls' := Step(calls, s, slot).value.0;
            && DistinctSlots(calls') && |calls'| <= MAX_CALLS
            && forall id | id in calls' :: calls'[id].slot < SAFE_INDEX + |calls'|
  {
    StepSlots(calls, s, slot);
    if s.id !in calls {
      StepNew(calls, s, slot);
      TableGrows(calls, s.id, Call(slot, s.name, s.arguments));
      assert slot <= SAFE_INDEX + |calls|;
    } else {
      StepKnown(calls, s, slot);
    }
  }

  lemma TableGrows(calls: Table, id: string, call: Call)
    requires id !in calls
    ensures |calls[id := call]| == |calls| + 1
  {
    assert calls[id := call].Keys == calls.Keys + {id};
  }

  lemma StepKnown(calls: Table, s: Snapshot, slot: Index)
    requires s.id in calls && Step(calls, s, slot).Ok?
    ensures var calls' := Step(calls, s, slot).value.0;
            calls'.Keys == calls.Keys && |calls'| == |calls| && forall id | id in calls :: calls'[id].slot == calls[id].slot
  {
    var calls' := Step(calls, s, slot).value.0;
    assert calls'.Keys == calls.Keys;
  }

  /** A run goes on with the first, empty snapshot of a new call. */
  lemma NewCallRun(tables: seq<Table>, snapshots: seq<Snapshot>, slots: seq<Index>, id: string, wire: Option<Index>, slot: Index)
    requires IsRun(tables, snapshots, slots)
    requires var calls := tables[|snapshots|];
             && id !in calls && |calls| < MAX_CALLS
             && (if wire.Some? then slot == wire.value && forall other | other in calls :: calls[other].slot != slot
                 else IsNextSlot(calls, slot))
    ensures IsRun(tables + [tables[|snapshots|][id := Call(slot, "", [])]],
                  snapshots + [Snapshot(id, "", [], wire, None)], slots + [slot])
  {
    FirstSnapshot(tables[|snapshots|], id, wire, slot);
    ExtendRun(tables, snapshots, slots, Snapshot(id, "", [], wire, None), slot);
  }

  lemma FirstSnapshot(calls: Table, id: string, wire: Option<Index>, slot: Index)
    requires id !in calls && |calls| < MAX_CALLS
    requires wire.Some? ==> slot == wire.value && forall other | other in calls :: calls[other].slot != slot
    ensures var r := Step(calls, Snapshot(id, "", [], wire, None), slot);
            r.Ok? && r.value.0 == calls[id := Call(slot, "", [])]
  {
  }

  lemma ExtendRun(tables: seq<Table>, snapshots: seq<Snapshot>, slots: seq<Index>, s: Snapshot, slot: Index)
    requires IsRun(tables, snapshots, slots)
    requires SlotFor(tables[|snapshots|], s, slot) && Step(tables[|snapshots|], s, slot).Ok?
    ensures IsRun(tables + [Step(tables[|snapshots|], s, slot).value.0], snapshots + [s], slots + [slot])
  {
    var n, calls' := |snapshots|, Step(tables[|snapshots|], s, slot).value.0;
    forall i | 0 <= i < n + 1
      ensures Updates((tables + [calls'])[i], (tables + [calls'])[i + 1], (snapshots + [s])[i], (slots + [slot])[i])
    {
      if i < n {
        assert Updates(tables[i], tables[i + 1], snapshots[i], slots[i]);
      }
    }
  }

  /** Keeping every wire index below the maximum is not enough: two calls can end up in one slot. */
  lemma LargeIndexCollides(a: string, b: string, c: string)
    returns (tables: seq<Table>, snapshots: seq<Snapshot>, slots: seq<Index>)
    requires a != b && b != c && a != c
    ensures IsRun(tables, snapshots, slots) && |snapshots| == 3
    ensures forall i | 0 <= i < 3 && snapshots[i].wire.Some? :: snapshots[i].wire.value < MAX_INDEX
    ensures !DistinctSlots(tables[3])
  {
    var top: Index, below: Index := MAX_INDEX, MAX_INDEX - 1;
    var t0: Table := map[];
    var t1 := t0[a := Call(below, "", [])];
    var t2 := t1[b := Call(top, "", [])];
    var t3 := t2[c := Call(top, "", [])];
    var sa, sb, sc := Snapshot(a, "", [], Some(below), None), Snapshot(b, "", [], None, None), Snapshot(c, "", [], None, None);
    assert IsRun([t0], [], []);
    NewCallRun([t0], [], [], a, Some(below), below);
    assert IsNextSlot(t1, top) by { assert Saturated(t1[a].slot) == top; }
    NewCallRun([t0] + [t1], [] + [sa], [] + [below], b, None, top);
    assert IsNextSlot(t2, top) by { assert Saturated(t2[b].slot) == top; }
    NewCallRun([t0] + [t1] + [t2], [] + [sa] + [sb], [] + [below] + [top], c, None, top);
    tables, snapshots, slots := [t0] + [t1] + [t2] + [t3], [] + [sa] + [sb] + [sc], [] + [below] + [top] + [top];
    Collision(t3, b, c);
  }

  // ----- the bound on wire indices is exact

  /** A different id for every number. */
  function Name(k: nat): (s: string)
    ensures |s| == k
  {
    seq(k, _ => 'x')
  }

  /** After `k` calls named in order, each has the slot after the one before. */
  ghost predicate Counted(calls: Table, k: nat) {
    && |calls| == k && SAFE_INDEX + k <= MAX_INDEX
    && (forall j | 0 <= j < k :: Name(j) in calls && calls[Name(j)].slot == SAFE_INDEX + 1 + j)
    && (forall id | id in calls :: |id| < k && calls[id].slot <= SAFE_INDEX + k)
  }

  lemma CountedNext(calls: Table, k: nat)
    requires Counted(calls, k) && k > 0
    ensures Name(k) !in calls
    ensures IsNextSlot(calls, Saturated(SAFE_INDEX + k))
  {
    assert Name(k - 1) in calls && calls[Name(k - 1)].slot == SAFE_INDEX + k;
    assert Saturated(calls[Name(k - 1)].slot) == Saturated(SAFE_INDEX + k);
  }

  lemma CountedGrows(calls: Table, k: nat)
    requires Counted(calls, k) && k > 0 && SAFE_INDEX + k < MAX_INDEX
    ensures Counted(calls[Name(k) := Call(SAFE_INDEX + k + 1, "", [])], k + 1)
  {
    CountedNext(calls, k);
    var calls' := calls[Name(k) := Call(SAFE_INDEX + k + 1, "", [])];
    TableGrows(calls, Name(k), Call(SAFE_INDEX + k + 1, "", []));
    forall j | 0 <= j < k + 1 ensures Name(j) in calls' && calls'[Name(j)].slot == SAFE_INDEX + 1 + j {
      if j < k {
        assert Name(j) in calls;
      }
    }
  }

  /** A run whose first call has the index just above the bound and whose other calls have none. */
  lemma {:induction false} CountingRun(k: nat) returns (tables: seq<Table>, snapshots: seq<Snapshot>, slots: seq<Index>)
    requires 0 < k < MAX_CALLS
    ensures IsRun(tables, snapshots, slots) && |snapshots| == k && Counted(tables[k], k)
    ensures WiresWithin(snapshots, SAFE_INDEX + 1)
  {
    if k == 1 {
      tables, snapshots, slots := FirstRun(SAFE_INDEX + 1);
    } else {
      tables, snapshots, slots := CountingRun(k - 1);
      tables, snapshots, slots := CountOn(tables, snapshots, slots, k - 1);
    }
  }

  lemma FirstRun(first: Index) returns (tables: seq<Table>, snapshots: seq<Snapshot>, slots: seq<Index>)
    requires first == SAFE_INDEX + 1
    ensures IsRun(tables, snapshots, slots) && |snapshots| == 1 && Counted(tables[1], 1) && WiresWithin(snapshots, first)
  {
    var t0: Table := map[];
    assert IsRun([t0], [], []);
    NewCallRun([t0], [], [], Name(0), Some(first), first);
    FirstCounted(first);
    tables, snapshots, slots := [t0] + [t0[Name(0) := Call(first, "", [])]],
      [] + [Snapshot(Name(0), "", [], Some(first), None)], [] + [first];
  }

  lemma CountOn(tables: seq<Table>, snapshots: seq<Snapshot>, slots: seq<Index>, k: nat)
    returns (tables': seq<Table>, snapshots': seq<Snapshot>, slots': seq<Index>)
    requires 0 < k && k + 1 < MAX_CALLS && IsRun(tables, snapshots, slots) && |snapshots| == k && Counted(tables[k], k)
    requires WiresWithin(snapshots, SAFE_INDEX + 1)
    ensures IsRun(tables', snapshots', slots') && |snapshots'| == k + 1 && Counted(tables'[k + 1], k + 1)
    ensures WiresWithin(snapshots', SAFE_INDEX + 1)
  {
    var calls, slot: Index := tables[k], SAFE_INDEX + k + 1;
    CountedNext(calls, k);
    CountedGrows(calls, k);
    NewCallRun(tables, snapshots, slots, Name(k), None, slot);
    tables' := tables + [calls[Name(k) := Call(slot, "", [])]];
    snapshots', slots' := snapshots + [Snapshot(Name(k), "", [], None, None)], slots + [slot];
  }

  lemma FirstCounted(first: Index)
    requires first == SAFE_INDEX + 1
    ensures Counted(map[Name(0) := Call(first, "", [])], 1)
  {
    var calls := map[Name(0) := Call(first, "", [])];
    assert calls.Keys == {Name(0)};
    assert |calls| == |calls.Keys|;
  }

  /** One more than the bound is too much: after 127 calls the last index is taken, and call 128 shares it. */
  lemma BoundIsTight() returns (tables: seq<Table>, snapshots: seq<Snapshot>, slots: seq<Index>)
    ensures IsRun(tables, snapshots, slots) && |snapshots| == MAX_CALLS
    ensures WiresWithin(snapshots, SAFE_INDEX + 1) && !DistinctSlots(tables[MAX_CALLS])
  {
    var k := MAX_CALLS - 1;
    tables, snapshots, slots := CountingRun(k);
    var calls, top: Index := tables[k], MAX_INDEX;
    CountedNext(calls, k);
    NewCallRun(tables, snapshots, slots, Name(k), None, top);
    var last := calls[Name(k) := Call(top, "", [])];
    assert Name(k - 1) in calls && calls[Name(k - 1)].slot == top;
    Collision(last, Name(k - 1), Name(k));
    tables := tables + [last];
    snapshots := snapshots + [Snapshot(Name(k), "", [], None, None)];
    slots := slots + [top];
  }

  /** In every run with wire indices up to `bound` the slots are distinct. */
  ghost predicate NeverCollides(bound: Index) {
    forall tables, snapshots, slots | IsRun(tables, snapshots, slots) && WiresWithin(snapshots, bound) ::
      DistinctSlots(tables[|snapshots|])
  }

  /** The exact bound on wire indices. */
  lemma NeverCollidesIff(bound: Index)
    ensures NeverCollides(bound) <==> bound <= SAFE_INDEX
  {
    if bound <= SAFE_INDEX {
      forall tables, snapshots, slots | IsRun(tables, snapshots, slots) && WiresWithin(snapshots, bound)
        ensures DistinctSlots(tables[|snapshots|])
      {
        SmallIndicesDistinct(tables, snapshots, slots, |snapshots|);
      }
    } else {
      var tables, snapshots, slots := BoundIsTight();
      assert WiresWithin(snapshots, bound);
    }
  }

  lemma Collision(calls: Table, a: string, b: string)
    requires a in calls && b in calls && a != b && calls[a].slot == calls[b].slot
    ensures !DistinctSlots(calls)
  {
  }
}
