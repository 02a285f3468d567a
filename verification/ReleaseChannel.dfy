/** Journaled promotion of a release channel: back up, commit, restore. Every persistent write is a
    point where the process may stop; the journal file itself is replaced atomically. */
module ReleaseChannel {
  import opened Options
  import opened SemVer

  /** A channel manifest: its bytes, and the version they parse to (None when they do not parse).
      Digests are modelled by the content they identify. */
  datatype Blob = Blob(bytes: string, version: Option<Release>)

  datatype Target = Target(name: string, key: string)

  /** Journal record of one object: where it lives and what was there (None records absence). */
  datatype Entry = Entry(name: string, key: string, backup: Option<Blob>)

  datatype Phase = BackedUp | ChannelWritten | PublicVerified | Published | RestoreOriginWritten | Restored

  datatype Journal = Journal(version: Release, phase: Phase, completed: seq<string>, objects: seq<Entry>)

  datatype World = World(store: map<string, Blob>, files: map<string, Blob>, journal: Option<Journal>, draft: bool)

  datatype Outcome = Done | Crashed | Refused

  function Fetch(store: map<string, Blob>, key: string): Option<Blob> {
    if key in store then Some(store[key]) else None
  }

  predicate ValidCandidate(candidate: map<string, Blob>, version: Release, names: set<string>) {
    forall name | name in names :: name in candidate && candidate[name].version == Some(version)
  }

  function Names(objects: seq<Entry>): set<string> {
    set e | e in objects :: e.name
  }

  predicate DistinctKeys(objects: seq<Entry>) {
    forall i, j | 0 <= i < j < |objects| :: objects[i].key != objects[j].key
  }

  // ----- writes

  datatype Write = Write(key: string, value: Option<Blob>)

  function Put(store: map<string, Blob>, w: Write): map<string, Blob> {
    if w.value.Some? then store[w.key := w.value.value] else store - {w.key}
  }

  function Written(store: map<string, Blob>, writes: seq<Write>): map<string, Blob> {
    if writes == [] then store else Put(Written(store, writes[..|writes| - 1]), writes[|writes| - 1])
  }

  function CommitWrites(objects: seq<Entry>, candidate: map<string, Blob>): (r: seq<Write>)
    requires Names(objects) <= candidate.Keys
    ensures |r| == |objects|
    ensures forall i | 0 <= i < |r| :: r[i] == Write(objects[i].key, Some(candidate[objects[i].name]))
  {
    seq(|objects|, i requires 0 <= i < |objects| => Write(objects[i].key, Some(candidate[objects[i].name])))
  }

  function RestoreWrites(objects: seq<Entry>): (r: seq<Write>)
    ensures |r| == |objects|
    ensures forall i | 0 <= i < |r| :: r[i] == Write(objects[i].key, objects[i].backup)
  {
    seq(|objects|, i requires 0 <= i < |objects| => Write(objects[i].key, objects[i].backup))
  }

  lemma {:induction false} WrittenAt(store: map<string, Blob>, writes: seq<Write>, key: string)
    requires forall i, j | 0 <= i < j < |writes| :: writes[i].key != writes[j].key
    ensures forall i | 0 <= i < |writes| && writes[i].key == key :: Fetch(Written(store, writes), key) == writes[i].value
    ensures (forall i | 0 <= i < |writes| :: writes[i].key != key) ==> Fetch(Written(store, writes), key) == Fetch(store, key)
    decreases |writes|
  {
    if writes != [] {
      WrittenAt(store, writes[..|writes| - 1], key);
    }
  }

  // ----- what each operation may do

  /** Everything `commit` verifies before its first write. */
  ghost predicate CommitAllowed(w: World, candidate: map<string, Blob>, version: Release, metadataOk: bool) {
    && w.journal.Some? && w.journal.value.version == version && metadataOk
    && ValidCandidate(candidate, version, Names(w.journal.value.objects))
    && forall e | e in w.journal.value.objects ::
         || Fetch(w.store, e.key) == Some(candidate[e.name])
         || (Fetch(w.store, e.key) == e.backup && w.draft)
  }

  ghost predicate SameRecovery(w: World, w': World) {
    && w.journal.Some? && w'.journal.Some? && w'.files == w.files
    && w'.journal.value.version == w.journal.value.version
    && w'.journal.value.objects == w.journal.value.objects
  }

  /** A commit is refused untouched, or writes a prefix of the manifests; publishing comes after all of them. */
  ghost predicate CommitStep(w: World, w': World, candidate: map<string, Blob>, version: Release, metadataOk: bool, outcome: Outcome) {
    if !CommitAllowed(w, candidate, version, metadataOk) then
      outcome.Refused? && w' == w
    else
      var writes := CommitWrites(w.journal.value.objects, candidate);
      && !outcome.Refused? && SameRecovery(w, w')
      && (exists n :: 0 <= n <= |writes| && w'.store == Written(w.store, writes[..n]))
      && (outcome.Done? || w'.draft != w.draft ==> w'.store == Written(w.store, writes) && !w'.draft)
      && (outcome.Done? ==> w'.journal.value.phase == Published)
  }

  /** No stored manifest is newer than the journal's release, and every backup file is intact. */
  ghost predicate RestoreAllowed(w: World) {
    && w.journal.Some?
    && forall e | e in w.journal.value.objects ::
         && (Fetch(w.store, e.key).Some? ==>
               && w.store[e.key].version.Some?
               && Compare(w.store[e.key].version.value, w.journal.value.version) <= 0)
         && (e.backup.Some? ==> Fetch(w.files, e.name) == e.backup)
  }

  ghost predicate RestoreStep(w: World, w': World, outcome: Outcome) {
    if !RestoreAllowed(w) then
      outcome.Refused? && w' == w
    else
      var writes := RestoreWrites(w.journal.value.objects);
      && !outcome.Refused? && SameRecovery(w, w') && w'.draft == w.draft
      && (exists n :: 0 <= n <= |writes| && w'.store == Written(w.store, writes[..n]))
      && (outcome.Done? ==> w'.store == Written(w.store, writes) && w'.journal.value.phase == Restored)
  }

  /** A backup that succeeds records the store as it is and refuses downgrades. */
  ghost predicate BackupAllowed(w: World, candidate: map<string, Blob>, version: Release, targets: seq<Target>) {
    && w.journal.None?
    && ValidCandidate(candidate, version, set t | t in targets :: t.name)
    && forall t | t in targets && t.key in w.store ::
         && w.store[t.key].version.Some?
         && Compare(version, w.store[t.key].version.value) >= 0
         && (Compare(version, w.store[t.key].version.value) == 0 ==> w.store[t.key] == candidate[t.name])
  }

  function EntriesOf(store: map<string, Blob>, targets: seq<Target>): (r: seq<Entry>)
    ensures |r| == |targets|
    ensures forall i | 0 <= i < |r| :: r[i] == Entry(targets[i].name, targets[i].key, Fetch(store, targets[i].key))
  {
    seq(|targets|, i requires 0 <= i < |targets| => Entry(targets[i].name, targets[i].key, Fetch(store, targets[i].key)))
  }

  ghost predicate BackupStep(w: World, w': World, candidate: map<string, Blob>, version: Release, targets: seq<Target>, outcome: Outcome) {
    && w'.store == w.store && w'.draft == w.draft
    && (outcome.Done? ==>
          && BackupAllowed(w, candidate, version, targets)
          && w'.journal == Some(Journal(version, BackedUp, [], EntriesOf(w.store, targets)))
          && forall t | t in targets && t.key in w.store :: Fetch(w'.files, t.name) == Some(w.store[t.key]))
    && (!outcome.Done? ==> w'.journal == w.journal)
    && (outcome.Refused? ==> !BackupAllowed(w, candidate, version, targets))
  }

  /** The first `n` objects are listed as completed, after what was listed before, and no other is new. */
  ghost predicate Progressed(before: seq<string>, j: Journal, n: nat)
    requires n <= |j.objects|
  {
    && before <= j.completed && (forall k | 0 <= k < n :: j.objects[k].name in j.completed)
    && forall name | name in j.completed :: name in before || name in Names(j.objects)
  }

  lemma ProgressStep(before: seq<string>, j: Journal, j': Journal, n: nat)
    requires n < |j.objects| && Progressed(before, j, n) && j'.objects == j.objects
    requires var name := j.objects[n].name; j'.completed == if name in j.completed then j.completed else j.completed + [name]
    ensures Progressed(before, j', n + 1)
  {
    assert j.objects[n] in j.objects;
  }

  // ----- the operations

  class Channel {
    var store: map<string, Blob>
    var files: map<string, Blob>
    var journal: Option<Journal>
    var draft: bool

    function Now(): World
      reads this
    {
      World(store, files, journal, draft)
    }

    method Backup(candidate: map<string, Blob>, version: Release, targets: seq<Target>, crashAfter: nat) returns (outcome: Outcome)
      requires forall i, j | 0 <= i < j < |targets| :: targets[i].name != targets[j].name
      modifies this
      ensures BackupStep(old(Now()), Now(), candidate, version, targets, outcome)
      ensures outcome.Crashed? ==> crashAfter <= |targets|
    {
      if !ValidCandidate(candidate, version, set t | t in targets :: t.name) || journal.Some? {
        return Refused;
      }
      var budget := crashAfter;
      for i := 0 to |targets|
        invariant store == old(store) && draft == old(draft) && journal == old(journal)
        invariant budget == crashAfter - i >= 0
        invariant forall k | 0 <= k < i && targets[k].key in store ::
                    && store[targets[k].key].version.Some?
                    && Compare(version, store[targets[k].key].version.value) >= 0
                    && (Compare(version, store[targets[k].key].version.value) == 0 ==> store[targets[k].key] == candidate[targets[k].name])
                    && Fetch(files, targets[k].name) == Some(store[targets[k].key])
      {
        var t := targets[i];
        if budget == 0 {
          return Crashed;
        }
        files := Put(files, Write(t.name, Fetch(store, t.key)));
        budget := budget - 1;
        if t.key in store {
          var current := store[t.key];
          if current.version.None? || Compare(version, current.version.value) < 0
             || (Compare(version, current.version.value) == 0 && current != candidate[t.name])
          {
            return Refused;
          }
        }
      }
      if budget == 0 {
        return Crashed;
      }
      journal := Some(Journal(version, BackedUp, [], EntriesOf(store, targets)));
      return Done;
    }

    /** The read-only pass: nothing is written unless every object is as expected. */
    method CheckCommit(candidate: map<string, Blob>, version: Release, metadataOk: bool) returns (ok: bool)
      ensures ok == CommitAllowed(Now(), candidate, version, metadataOk)
    {
      if journal.None? || journal.value.version != version || !metadataOk
         || !ValidCandidate(candidate, version, Names(journal.value.objects))
      {
        return false;
      }
      var objects := journal.value.objects;
      for i := 0 to |objects|
        invariant forall e | e in objects[..i] ::
                    || Fetch(store, e.key) == Some(candidate[e.name])
                    || (Fetch(store, e.key) == e.backup && draft)
      {
        var e := objects[i];
        if Fetch(store, e.key) == Some(candidate[e.name]) {
          continue;
        }
        if Fetch(store, e.key) != e.backup || !draft {
          return false;
        }
      }
      assert objects[..|objects|] == objects;
      return true;
    }

    /** The write pass: one manifest, then the journal, in turn. */
    method WriteManifests(candidate: map<string, Blob>, crashAfter: nat) returns (crashed: bool, budget: nat)
      requires journal.Some? && Names(journal.value.objects) <= candidate.Keys
      modifies this`store, this`journal
      ensures SameRecovery(old(Now()), Now())
      ensures var writes := CommitWrites(old(journal).value.objects, candidate);
              && (exists n :: 0 <= n <= |writes| && store == Written(old(store), writes[..n]))
              && (!crashed ==> store == Written(old(store), writes) && budget == crashAfter - 2 * |writes|)
              && (crashed ==> crashAfter < 2 * |writes|)
      ensures exists n :: 0 <= n <= |journal.value.objects| && Progressed(old(journal).value.completed, journal.value, n)
      ensures !crashed ==> Progressed(old(journal).value.completed, journal.value, |journal.value.objects|)
    {
      var state := journal.value;
      ghost var writes := CommitWrites(state.objects, candidate);
      budget := crashAfter;
      for i := 0 to |state.objects|
        invariant store == Written(old(store), writes[..i])
        invariant SameRecovery(old(Now()), Now())
        invariant state.version == old(journal).value.version && state.objects == old(journal).value.objects
        invariant journal == Some(state) && Progressed(old(journal).value.completed, state, i)
        invariant budget == crashAfter - 2 * i
      {
        var e := state.objects[i];
        if budget == 0 {
          return true, budget;
        }
        assert writes[..i + 1][..i] == writes[..i];
        store := Put(store, Write(e.key, Some(candidate[e.name])));
        budget := budget - 1;
        ghost var before := state;
        if e.name !in state.completed {
          state := state.(completed := state.completed + [e.name]);
        }
        state := state.(phase := ChannelWritten);
        ProgressStep(old(journal).value.completed, before, state, i);
        if budget == 0 {
          return true, budget;
        }
        journal := Some(state);
        budget := budget - 1;
      }
      assert writes[..|writes|] == writes;
      crashed := false;
    }

    method Commit(candidate: map<string, Blob>, version: Release, metadataOk: bool, crashAfter: nat) returns (outcome: Outcome)
      modifies this
      ensures CommitStep(old(Now()), Now(), candidate, version, metadataOk, outcome)
      ensures outcome.Crashed? ==> old(journal).Some? && crashAfter < 2 * |old(journal).value.objects| + 3
    {
      var ok := CheckCommit(candidate, version, metadataOk);
      if !ok {
        return Refused;
      }
      var crashed, budget := WriteManifests(candidate, crashAfter);
      if crashed || budget == 0 {
        return Crashed;
      }
      journal := Some(journal.value.(phase := PublicVerified));
      budget := budget - 1;
      if draft {
        if budget == 0 {
          return Crashed;
        }
        draft := false;
        budget := budget - 1;
      }
      if budget == 0 {
        return Crashed;
      }
      journal := Some(journal.value.(phase := Published));
      return Done;
    }

    /** The read-only pass: no stored manifest is newer, and every backup file is intact. */
    method CheckRestore() returns (ok: bool)
      requires journal.Some?
      ensures ok == RestoreAllowed(Now())
    {
      var state := journal.value;
      for i := 0 to |state.objects|
        invariant forall e | e in state.objects[..i] && Fetch(store, e.key).Some? ::
                    store[e.key].version.Some? && Compare(store[e.key].version.value, state.version) <= 0
      {
        var key := state.objects[i].key;
        if key in store && (store[key].version.None? || Compare(store[key].version.value, state.version) > 0) {
          return false;
        }
      }
      for i := 0 to |state.objects|
        invariant forall e | e in state.objects[..i] && e.backup.Some? :: Fetch(files, e.name) == e.backup
      {
        var e := state.objects[i];
        if e.backup.Some? && Fetch(files, e.name) != e.backup {
          return false;
        }
      }
      assert state.objects[..|state.objects|] == state.objects;
      return true;
    }

    method WriteBackups(objects: seq<Entry>, crashAfter: nat) returns (crashed: bool, budget: nat)
      requires forall e | e in objects && e.backup.Some? :: Fetch(files, e.name) == e.backup
      modifies this`store
      ensures var writes := RestoreWrites(objects);
              && (exists n :: 0 <= n <= |writes| && store == Written(old(store), writes[..n]))
              && (!crashed ==> store == Written(old(store), writes) && budget == crashAfter - |writes|)
              && (crashed ==> crashAfter < |writes|)
    {
      ghost var writes := RestoreWrites(objects);
      budget := crashAfter;
      for i := 0 to |objects|
        invariant store == Written(old(store), writes[..i])
        invariant budget == crashAfter - i
      {
        var e := objects[i];
        if budget == 0 {
          return true, budget;
        }
        assert writes[..i + 1][..i] == writes[..i];
        store := Put(store, Write(e.key, if e.backup.Some? then Some(files[e.name]) else None));
        budget := budget - 1;
      }
      assert writes[..|writes|] == writes;
      crashed := false;
    }

    /** The written objects are read back; with distinct keys the comparison cannot fail. */
    method VerifyBackups(objects: seq<Entry>) returns (same: bool)
      ensures same <==> forall i | 0 <= i < |objects| :: Fetch(store, objects[i].key) == objects[i].backup
    {
      for k := 0 to |objects|
        invariant forall i | 0 <= i < k :: Fetch(store, objects[i].key) == objects[i].backup
      {
        if Fetch(store, objects[k].key) != objects[k].backup {
          return false;
        }
      }
      return true;
    }

    method Restore(crashAfter: nat) returns (outcome: Outcome)
      requires journal.Some? ==> DistinctKeys(journal.value.objects)
      modifies this
      ensures RestoreStep(old(Now()), Now(), outcome)
      ensures outcome.Crashed? ==> old(journal).Some? && crashAfter < |old(journal).value.objects| + 2
    {
      if journal.None? {
        return Refused;
      }
      var state := journal.value;
      var ok := CheckRestore();
      if !ok {
        return Refused;
      }
      var crashed, budget := WriteBackups(state.objects, crashAfter);
      if crashed {
        return Crashed;
      }
      RestoredHoldsBackups(old(store), state.objects);
      var same := VerifyBackups(state.objects);
      if !same || budget == 0 {
        return Crashed;
      }
      journal := Some(state.(phase := RestoreOriginWritten));
      budget := budget - 1;
      if budget == 0 {
        return Crashed;
      }
      journal := Some(state.(phase := Restored));
      return Done;
    }
  }

  lemma RestoredHoldsBackups(store: map<string, Blob>, objects: seq<Entry>)
    requires DistinctKeys(objects)
    ensures forall i | 0 <= i < |objects| :: Fetch(Written(store, RestoreWrites(objects)), objects[i].key) == objects[i].backup
  {
    var writes := RestoreWrites(objects);
    forall i | 0 <= i < |objects| ensures Fetch(Written(store, writes), objects[i].key) == objects[i].backup {
      WrittenAt(store, writes, objects[i].key);
      assert writes[i].key == objects[i].key;
    }
  }
}
