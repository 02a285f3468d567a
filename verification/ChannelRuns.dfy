/** Safety of every run of the promotion protocol, with crashes between any two writes. */
module ChannelRuns {
  import opened Options
  import opened SemVer
  import opened ReleaseChannel

  // ----- one promotion: commits and restores that may stop anywhere and be run again

  datatype Step = Commit(metadataOk: bool, outcome: Outcome) | Restore(outcome: Outcome)

  ghost predicate Next(w: World, w': World, s: Step, candidate: map<string, Blob>, version: Release) {
    match s
    case Commit(metadataOk, outcome) => CommitStep(w, w', candidate, version, metadataOk, outcome)
    case Restore(outcome) => RestoreStep(w, w', outcome)
  }

  /** What the journal promises about the store that was backed up. */
  ghost predicate Recorded(w: World, base: map<string, Blob>, candidate: map<string, Blob>, version: Release) {
    && w.journal.Some? && w.journal.value.version == version
    && var objects := w.journal.value.objects;
    && DistinctKeys(objects) && ValidCandidate(candidate, version, Names(objects))
    && forall e | e in objects :: e.backup == Fetch(base, e.key) && EntrySound(e, version)
         && (e.backup.Some? ==> Fetch(w.files, e.name) == e.backup) && SameIfEqual(e, candidate, version)
  }

  /** A manifest of the same precedence is the same manifest. */
  ghost predicate SameIfEqual(e: Entry, candidate: map<string, Blob>, version: Release) {
    e.backup.Some? && e.backup.value.version.Some? && Compare(version, e.backup.value.version.value) == 0 ==>
      e.name in candidate && e.backup.value == candidate[e.name]
  }

  ghost predicate EntrySound(e: Entry, version: Release) {
    e.backup.Some? ==> e.backup.value.version.Some? && Compare(version, e.backup.value.version.value) >= 0
  }

  /** Every channel object is either as it was or the candidate; everything else is untouched. */
  ghost predicate EitherOr(w: World, base: map<string, Blob>, candidate: map<string, Blob>)
    requires w.journal.Some? && Names(w.journal.value.objects) <= candidate.Keys
  {
    && (forall e | e in w.journal.value.objects ::
          Fetch(w.store, e.key) == e.backup || Fetch(w.store, e.key) == Some(candidate[e.name]))
    && (forall key | forall e | e in w.journal.value.objects :: e.key != key :: Fetch(w.store, key) == Fetch(base, key))
  }

  ghost predicate Safe(w: World, base: map<string, Blob>, candidate: map<string, Blob>, version: Release) {
    Recorded(w, base, candidate, version) && EitherOr(w, base, candidate)
  }

  /** After `n` of the writes, each object holds its new value or what it held before. */
  lemma PrefixFetch(store: map<string, Blob>, writes: seq<Write>, n: nat, i: nat)
    requires n <= |writes| && i < |writes|
    requires forall i, j | 0 <= i < j < |writes| :: writes[i].key != writes[j].key
    ensures Fetch(Written(store, writes[..n]), writes[i].key) == if i < n then writes[i].value else Fetch(store, writes[i].key)
  {
    WrittenAt(store, writes[..n], writes[i].key);
    assert i < n ==> writes[..n][i] == writes[i];
  }

  lemma PrefixFetchOther(store: map<string, Blob>, writes: seq<Write>, n: nat, key: string)
    requires n <= |writes|
    requires forall i, j | 0 <= i < j < |writes| :: writes[i].key != writes[j].key
    requires forall i | 0 <= i < |writes| :: writes[i].key != key
    ensures Fetch(Written(store, writes[..n]), key) == Fetch(store, key)
  {
    WrittenAt(store, writes[..n], key);
  }

  lemma WritesKeepSafe(w: World, w': World, base: map<string, Blob>, candidate: map<string, Blob>, version: Release, writes: seq<Write>, n: nat)
    requires Safe(w, base, candidate, version) && SameRecovery(w, w')
    requires writes == CommitWrites(w.journal.value.objects, candidate) || writes == RestoreWrites(w.journal.value.objects)
    requires n <= |writes| && w'.store == Written(w.store, writes[..n])
    ensures Safe(w', base, candidate, version)
  {
    var objects := w.journal.value.objects;
    forall e | e in objects
      ensures Fetch(w'.store, e.key) == e.backup || Fetch(w'.store, e.key) == Some(candidate[e.name])
    {
      var i :| 0 <= i < |objects| && objects[i] == e;
      PrefixFetch(w.store, writes, n, i);
    }
    OthersUntouched(w, base, candidate, version, writes, n);
  }

  lemma OthersUntouched(w: World, base: map<string, Blob>, candidate: map<string, Blob>, version: Release, writes: seq<Write>, n: nat)
    requires Safe(w, base, candidate, version)
    requires var objects := w.journal.value.objects;
             |writes| == |objects| && forall i | 0 <= i < |objects| :: writes[i].key == objects[i].key
    requires n <= |writes|
    ensures forall key | forall e | e in w.journal.value.objects :: e.key != key ::
              Fetch(Written(w.store, writes[..n]), key) == Fetch(base, key)
  {
    var objects := w.journal.value.objects;
    forall key | forall e | e in objects :: e.key != key
      ensures Fetch(Written(w.store, writes[..n]), key) == Fetch(base, key)
    {
      forall i | 0 <= i < |writes| ensures writes[i].key != key {
        assert objects[i] in objects;
      }
      PrefixFetchOther(w.store, writes, n, key);
    }
  }

  /** Writing the value an object already holds changes nothing. */
  lemma {:induction false} SameWrites(store: map<string, Blob>, writes: seq<Write>)
    requires forall i | 0 <= i < |writes| :: Fetch(store, writes[i].key) == writes[i].value
    ensures Written(store, writes) == store
    decreases |writes|
  {
    if writes != [] {
      SameWrites(store, writes[..|writes| - 1]);
    }
  }

  lemma StoreIsBase(w: World, base: map<string, Blob>, candidate: map<string, Blob>, version: Release)
    requires Safe(w, base, candidate, version)
    requires forall e | e in w.journal.value.objects :: Fetch(w.store, e.key) == e.backup
    ensures w.store == base
  {
    forall key ensures Fetch(w.store, key) == Fetch(base, key) {
      if e :| e in w.journal.value.objects && e.key == key {
        assert Fetch(w.store, e.key) == e.backup == Fetch(base, e.key);
      }
    }
    forall key | key in w.store || key in base
      ensures key in w.store && key in base && w.store[key] == base[key]
    {
      assert Fetch(w.store, key) == Fetch(base, key);
    }
  }

  lemma SelfCompare(v: Release)
    ensures Compare(v, v) == 0
  {
    CompareIsKeyOrder(v, v);
  }

  /** A restore is never refused: nothing in the channel is newer than the release being undone. */
  lemma RestoreNeverRefused(w: World, base: map<string, Blob>, candidate: map<string, Blob>, version: Release)
    requires Safe(w, base, candidate, version)
    ensures RestoreAllowed(w)
  {
    SelfCompare(version);
    forall e | e in w.journal.value.objects && Fetch(w.store, e.key).Some?
      ensures w.store[e.key].version.Some? && Compare(w.store[e.key].version.value, version) <= 0
    {
      assert e.name in Names(w.journal.value.objects);
      if Fetch(w.store, e.key) == e.backup {
        assert EntrySound(e, version);
        CompareIsTotalPreorder(version, e.backup.value.version.value, version);
      }
    }
  }

  lemma CommitSafe(w: World, w': World, base: map<string, Blob>, candidate: map<string, Blob>, version: Release, metadataOk: bool, outcome: Outcome)
    requires Safe(w, base, candidate, version) && CommitStep(w, w', candidate, version, metadataOk, outcome)
    ensures Safe(w', base, candidate, version)
    ensures outcome.Done? ==>
              !w'.draft && forall e | e in w'.journal.value.objects :: Fetch(w'.store, e.key) == Some(candidate[e.name])
    ensures metadataOk && w.draft ==> !outcome.Refused?
    ensures !w.draft ==> w'.store == w.store && !w'.draft
  {
    if CommitAllowed(w, candidate, version, metadataOk) {
      var writes := CommitWrites(w.journal.value.objects, candidate);
      var n :| 0 <= n <= |writes| && w'.store == Written(w.store, writes[..n]);
      WritesKeepSafe(w, w', base, candidate, version, writes, n);
      if outcome.Done? {
        CommitWritten(w.store, w.journal.value.objects, candidate);
      }
      if !w.draft {
        PublishedUntouched(w, candidate, version, metadataOk, n);
      }
    }
  }

  /** Without a draft every object already holds the candidate. */
  lemma PublishedUntouched(w: World, candidate: map<string, Blob>, version: Release, metadataOk: bool, n: nat)
    requires CommitAllowed(w, candidate, version, metadataOk) && !w.draft && n <= |w.journal.value.objects|
    ensures Written(w.store, CommitWrites(w.journal.value.objects, candidate)[..n]) == w.store
  {
    var objects := w.journal.value.objects;
    var writes := CommitWrites(objects, candidate);
    forall i | 0 <= i < n ensures Fetch(w.store, writes[..n][i].key) == writes[..n][i].value {
      assert objects[i] in objects;
    }
    SameWrites(w.store, writes[..n]);
  }

  lemma CommitWritten(store: map<string, Blob>, objects: seq<Entry>, candidate: map<string, Blob>)
    requires DistinctKeys(objects) && Names(objects) <= candidate.Keys
    ensures forall e | e in objects ::
              e.name in candidate && Fetch(Written(store, CommitWrites(objects, candidate)), e.key) == Some(candidate[e.name])
  {
    AllWritten(store, objects, CommitWrites(objects, candidate));
    forall e | e in objects ensures e.name in candidate {
      assert e.name in Names(objects);
    }
  }

  /** After all the writes every object holds what was written to it. */
  lemma AllWritten(store: map<string, Blob>, objects: seq<Entry>, writes: seq<Write>)
    requires DistinctKeys(objects) && |writes| == |objects| && forall i | 0 <= i < |objects| :: writes[i].key == objects[i].key
    ensures forall i | 0 <= i < |objects| :: Fetch(Written(store, writes), objects[i].key) == writes[i].value
  {
    assert writes[..|writes|] == writes;
    forall i | 0 <= i < |objects| ensures Fetch(Written(store, writes), objects[i].key) == writes[i].value {
      PrefixFetch(store, writes, |writes|, i);
    }
  }

  lemma RestoreSafe(w: World, w': World, base: map<string, Blob>, candidate: map<string, Blob>, version: Release, outcome: Outcome)
    requires Safe(w, base, candidate, version) && RestoreStep(w, w', outcome)
    ensures Safe(w', base, candidate, version) && !outcome.Refused? && w'.draft == w.draft
    ensures outcome.Done? ==> w'.store == base
  {
    var objects := w.journal.value.objects;
    RestoreNeverRefused(w, base, candidate, version);
    var writes := RestoreWrites(objects);
    var n :| 0 <= n <= |writes| && w'.store == Written(w.store, writes[..n]);
    WritesKeepSafe(w, w', base, candidate, version, writes, n);
    if outcome.Done? {
      AllWritten(w.store, objects, writes);
      StoreIsBase(w', base, candidate, version);
    }
  }

  /** What one step has done: a finished commit leaves every object at the candidate and the release
      public, a restore is never refused and when finished leaves exactly the backed-up store, a commit of a
      draft whose metadata is right is never refused, and a commit of a published release changes no object. */
  ghost predicate Achieved(w: World, w': World, s: Step, base: map<string, Blob>, candidate: map<string, Blob>) {
    match s
    case Commit(metadataOk, outcome) =>
      && (outcome.Done? ==> !w'.draft && w'.journal.Some? && forall e | e in w'.journal.value.objects ::
                              e.name in candidate && Fetch(w'.store, e.key) == Some(candidate[e.name]))
      && (metadataOk && w.draft ==> !outcome.Refused?)
      && (!w.draft ==> w'.store == w.store && !w'.draft)
    case Restore(outcome) =>
      !outcome.Refused? && w'.draft == w.draft && (outcome.Done? ==> w'.store == base)
  }

  lemma StepSafe(w: World, w': World, s: Step, base: map<string, Blob>, candidate: map<string, Blob>, version: Release)
    requires Safe(w, base, candidate, version) && Next(w, w', s, candidate, version)
    ensures Safe(w', base, candidate, version) && Achieved(w, w', s, base, candidate)
  {
    match s
    case Commit(metadataOk, outcome) =>
      CommitSafe(w, w', base, candidate, version, metadataOk, outcome);
      forall e | e in w'.journal.value.objects ensures e.name in candidate {
        assert e.name in Names(w'.journal.value.objects);
      }
    case Restore(outcome) => RestoreSafe(w, w', base, candidate, version, outcome);
  }

  ghost predicate IsRun(worlds: seq<World>, steps: seq<Step>, candidate: map<string, Blob>, version: Release) {
    && |worlds| == |steps| + 1
    && forall i | 0 <= i < |steps| :: Next(worlds[i], worlds[i + 1], steps[i], candidate, version)
  }

  lemma {:induction false} RunSafe(worlds: seq<World>, steps: seq<Step>, base: map<string, Blob>, candidate: map<string, Blob>, version: Release)
    requires IsRun(worlds, steps, candidate, version) && Safe(worlds[0], base, candidate, version)
    ensures forall i | 0 <= i < |worlds| :: Safe(worlds[i], base, candidate, version)
    decreases |steps|
  {
    if steps != [] {
      var n := |steps| - 1;
      RunSafe(worlds[..n + 1], steps[..n], base, candidate, version);
      assert worlds[n] == worlds[..n + 1][n];
      StepSafe(worlds[n], worlds[n + 1], steps[n], base, candidate, version);
      forall i | 0 <= i < |worlds| ensures Safe(worlds[i], base, candidate, version) {
        if i <= n {
          assert worlds[i] == worlds[..n + 1][i];
        }
      }
    }
  }

  predicate DistinctTargets(targets: seq<Target>) {
    forall i, j | 0 <= i < j < |targets| :: targets[i].key != targets[j].key && targets[i].name != targets[j].name
  }

  lemma BackupStartsSafe(w: World, w': World, candidate: map<string, Blob>, version: Release, targets: seq<Target>)
    requires DistinctTargets(targets) && BackupStep(w, w', candidate, version, targets, Done)
    ensures Safe(w', w.store, candidate, version)
  {
    var objects := EntriesOf(w.store, targets);
    assert w'.journal.value.objects == objects;
    forall e | e in objects
      ensures e.backup == Fetch(w.store, e.key) && EntrySound(e, version)
      ensures e.backup.Some? ==> Fetch(w'.files, e.name) == e.backup
      ensures SameIfEqual(e, candidate, version)
    {
      var i :| 0 <= i < |objects| && objects[i] == e;
      assert targets[i] in targets;
    }
    forall name | name in Names(objects) ensures name in candidate && candidate[name].version == Some(version) {
      var i :| 0 <= i < |objects| && objects[i].name == name;
      assert targets[i].name in (set t | t in targets :: t.name);
    }
  }

  /** Crash safety: from a successful backup, through any sequence of commits and restores that stop
      at any write and are run again, every object always holds its backup or the candidate, and each
      finished step has achieved what it is for. */
  lemma PromotionSafety(w: World, worlds: seq<World>, steps: seq<Step>, candidate: map<string, Blob>, version: Release, targets: seq<Target>)
    requires DistinctTargets(targets) && IsRun(worlds, steps, candidate, version)
    requires BackupStep(w, worlds[0], candidate, version, targets, Done)
    ensures forall i | 0 <= i < |worlds| :: Safe(worlds[i], w.store, candidate, version)
    ensures forall i | 0 <= i < |steps| :: Achieved(worlds[i], worlds[i + 1], steps[i], w.store, candidate)
  {
    BackupStartsSafe(w, worlds[0], candidate, version, targets);
    RunSafe(worlds, steps, w.store, candidate, version);
    forall i | 0 <= i < |steps| ensures Achieved(worlds[i], worlds[i + 1], steps[i], w.store, candidate) {
      StepSafe(worlds[i], worlds[i + 1], steps[i], w.store, candidate, version);
    }
  }

  /** At every point of a promotion, whatever is no longer as it was backed up has been replaced by the
      release, and was absent or strictly older. */
  lemma OnlyOlderReplaced(w: World, base: map<string, Blob>, candidate: map<string, Blob>, version: Release, key: string)
    requires Safe(w, base, candidate, version) && Fetch(w.store, key) != Fetch(base, key)
    ensures key in w.store && w.store[key].version == Some(version)
    ensures key in base ==> base[key].version.Some? && Compare(version, base[key].version.value) > 0
  {
    var e :| e in w.journal.value.objects && e.key == key;
    assert e.name in Names(w.journal.value.objects);
    assert EntrySound(e, version) && SameIfEqual(e, candidate, version);
  }

  // ----- many promotions, each with its own recovery directory

  datatype Recovery = Recovery(files: map<string, Blob>, journal: Option<Journal>)

  datatype System = System(store: map<string, Blob>, recoveries: map<nat, Recovery>)

  datatype Action = BackUp | CommitIt | RestoreIt

  /** One operation in recovery directory `id`; whether the release is a draft is up to its host. */
  datatype Promotion = Promotion(id: nat, draft: bool, candidate: map<string, Blob>, version: Release,
                                 targets: seq<Target>, action: Action, metadataOk: bool, outcome: Outcome)

  function RecoveryAt(sys: System, id: nat): Recovery {
    if id in sys.recoveries then sys.recoveries[id] else Recovery(map[], None)
  }

  ghost predicate Promotes(sys: System, sys': System, p: Promotion) {
    var r, r' := RecoveryAt(sys, p.id), RecoveryAt(sys', p.id);
    && sys'.recoveries == sys.recoveries[p.id := r']
    && DistinctTargets(p.targets)
    && exists draft' ::
         Operates(World(sys.store, r.files, r.journal, p.draft), World(sys'.store, r'.files, r'.journal, draft'), p)
  }

  ghost predicate Operates(w: World, w': World, p: Promotion) {
    match p.action
    case BackUp => BackupStep(w, w', p.candidate, p.version, p.targets, p.outcome)
    case CommitIt => CommitStep(w, w', p.candidate, p.version, p.metadataOk, p.outcome)
    case RestoreIt => RestoreStep(w, w', p.outcome)
  }

  ghost predicate JournalSound(j: Journal) {
    DistinctKeys(j.objects) && forall e | e in j.objects :: EntrySound(e, j.version)
  }

  ghost predicate AllJournalsSound(sys: System) {
    forall id | id in sys.recoveries && sys.recoveries[id].journal.Some? :: JournalSound(sys.recoveries[id].journal.value)
  }

  /** No manifest disappears and none goes back in precedence. */
  ghost predicate NotLower(before: map<string, Blob>, after: map<string, Blob>) {
    forall key | key in before && before[key].version.Some? ::
      key in after && after[key].version.Some? && Compare(after[key].version.value, before[key].version.value) >= 0
  }

  lemma CommitNotLower(w: World, w': World, candidate: map<string, Blob>, version: Release, metadataOk: bool, outcome: Outcome)
    requires CommitStep(w, w', candidate, version, metadataOk, outcome)
    requires w.journal.Some? ==> JournalSound(w.journal.value)
    ensures NotLower(w.store, w'.store)
    ensures w'.journal.Some? ==> w.journal.Some? && JournalSound(w'.journal.value)
  {
    forall key | key in w.store && w.store[key].version.Some?
      ensures key in w'.store && w'.store[key].version.Some?
           && Compare(w'.store[key].version.value, w.store[key].version.value) >= 0
    {
      SelfCompare(w.store[key].version.value);
      if CommitAllowed(w, candidate, version, metadataOk) {
        var objects := w.journal.value.objects;
        var writes := CommitWrites(objects, candidate);
        var n :| 0 <= n <= |writes| && w'.store == Written(w.store, writes[..n]);
        if i :| 0 <= i < |objects| && objects[i].key == key {
          var e := objects[i];
          PrefixFetch(w.store, writes, n, i);
          assert e.name in Names(objects);
          assert e in objects && EntrySound(e, version);
        } else {
          PrefixFetchOther(w.store, writes, n, key);
        }
      }
    }
  }

  lemma BackupJournalSound(w: World, w': World, candidate: map<string, Blob>, version: Release, targets: seq<Target>)
    requires DistinctTargets(targets) && BackupStep(w, w', candidate, version, targets, Done)
    ensures w'.journal.Some? && JournalSound(w'.journal.value)
  {
    BackupStartsSafe(w, w', candidate, version, targets);
  }

  /** The manifest is there, and at least this release. */
  ghost predicate AtLeast(store: map<string, Blob>, key: string, version: Release) {
    key in store && store[key].version.Some? && Compare(store[key].version.value, version) >= 0
  }

  lemma NotLowerKeeps(before: map<string, Blob>, after: map<string, Blob>, key: string, version: Release)
    requires NotLower(before, after) && AtLeast(before, key, version)
    ensures AtLeast(after, key, version)
  {
    CompareIsTotalPreorder(version, before[key].version.value, after[key].version.value);
    CompareIsTotalPreorder(after[key].version.value, before[key].version.value, version);
    CompareIsTotalPreorder(after[key].version.value, version, version);
  }

  lemma Newer(a: Release, b: Release, c: Release)
    requires Compare(a, b) >= 0 && Compare(b, c) > 0
    ensures Compare(a, c) > 0
  {
    CompareIsTotalPreorder(a, b, c);
    CompareIsTotalPreorder(b, a, c);
    CompareIsTotalPreorder(b, c, a);
    CompareIsTotalPreorder(c, a, b);
  }

  /** Restoring an older release leaves a newer manifest alone, however stale its journal is. */
  lemma RestoreSparesNewer(w: World, w': World, outcome: Outcome, key: string, version: Release)
    requires RestoreStep(w, w', outcome) && AtLeast(w.store, key, version)
    requires w.journal.Some? ==> JournalSound(w.journal.value) && Compare(version, w.journal.value.version) > 0
    ensures Fetch(w'.store, key) == Fetch(w.store, key)
    ensures w'.journal.Some? ==> w.journal.Some? && JournalSound(w'.journal.value)
  {
    if RestoreAllowed(w) {
      var objects := w.journal.value.objects;
      var writes := RestoreWrites(objects);
      var n :| 0 <= n <= |writes| && w'.store == Written(w.store, writes[..n]);
      Newer(w.store[key].version.value, version, w.journal.value.version);
      forall i | 0 <= i < |objects| ensures writes[i].key != key {
        assert objects[i] in objects;
      }
      PrefixFetchOther(w.store, writes, n, key);
    }
  }

  /** The operation restores a release that is not older than this one. */
  ghost predicate Undoes(sys: System, p: Promotion, version: Release) {
    var j := RecoveryAt(sys, p.id).journal;
    p.action.RestoreIt? && j.Some? && Compare(version, j.value.version) <= 0
  }

  lemma OperationKeeps(w: World, w': World, p: Promotion, key: string, version: Release)
    requires Operates(w, w', p) && DistinctTargets(p.targets) && (w.journal.Some? ==> JournalSound(w.journal.value))
    requires p.action.RestoreIt? && w.journal.Some? ==> Compare(version, w.journal.value.version) > 0
    requires AtLeast(w.store, key, version)
    ensures AtLeast(w'.store, key, version) && (w'.journal.Some? ==> JournalSound(w'.journal.value))
  {
    match p.action
    case BackUp =>
      if p.outcome.Done? {
        BackupJournalSound(w, w', p.candidate, p.version, p.targets);
      }
    case CommitIt =>
      CommitNotLower(w, w', p.candidate, p.version, p.metadataOk, p.outcome);
      NotLowerKeeps(w.store, w'.store, key, version);
    case RestoreIt => RestoreSparesNewer(w, w', p.outcome, key, version);
  }

  lemma PromotionKeeps(sys: System, sys': System, p: Promotion, key: string, version: Release)
    requires AllJournalsSound(sys) && Promotes(sys, sys', p) && !Undoes(sys, p, version) && AtLeast(sys.store, key, version)
    ensures AllJournalsSound(sys') && AtLeast(sys'.store, key, version)
  {
    var r, r' := RecoveryAt(sys, p.id), RecoveryAt(sys', p.id);
    var draft' :| Operates(World(sys.store, r.files, r.journal, p.draft), World(sys'.store, r'.files, r'.journal, draft'), p);
    OperationKeeps(World(sys.store, r.files, r.journal, p.draft), World(sys'.store, r'.files, r'.journal, draft'), p, key, version);
  }

  /** Over every sequence of backups, commits and restores in any recovery directories, each stopping
      anywhere: a manifest never falls below a release unless that release or a later one is restored from. */
  lemma {:induction false} ChannelNeverDowngrades(systems: seq<System>, steps: seq<Promotion>, key: string, version: Release)
    requires |systems| == |steps| + 1 && AllJournalsSound(systems[0]) && AtLeast(systems[0].store, key, version)
    requires forall i | 0 <= i < |steps| :: Promotes(systems[i], systems[i + 1], steps[i]) && !Undoes(systems[i], steps[i], version)
    ensures AtLeast(systems[|steps|].store, key, version) && AllJournalsSound(systems[|steps|])
    decreases |steps|
  {
    if steps != [] {
      var n := |steps| - 1;
      ChannelNeverDowngrades(systems[..n + 1], steps[..n], key, version);
      assert systems[..n + 1][n] == systems[n];
      PromotionKeeps(systems[n], systems[n + 1], steps[n], key, version);
    }
  }
}
