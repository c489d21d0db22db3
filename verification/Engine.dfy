/** The engine (pkg/engine/engine.go) as it updates its fields and the object store, one call at a
    time.  Errors of the object store and crashes are parameters: a method that stops early leaves
    the store as a crash at that point would find it. */
module Engine {
  import opened Bytes
  import opened Pebble
  import opened Listing
  import opened Recovery

  /** The objects of one namespace, by kind. */
  class ObjectStore {
    var wals: map<nat, seq<Op>>
    var files: map<string, bytes>
    var manifest: Option<Manifest>

    constructor ()
      ensures wals == map[] && files == map[] && manifest == None
    {
      wals, files, manifest := map[], map[], None;
    }
  }

  /** A Put can report an error although the object was stored. */
  datatype PutOutcome = Done | Lost | StoredButErred

  class Engine {
    const store: ObjectStore
    var db: DB
    var maxWALSeq: nat
    var nextSeq: nat
    var uploadedFiles: set<string>
    var manifestVersion: nat
    ghost var snapshot: map<string, bytes>

    ghost function View(): Node
      reads this, store
    {
      Node(store.wals, store.files, store.manifest, snapshot, db, maxWALSeq, nextSeq, uploadedFiles, manifestVersion)
    }

    /** Before recovery: the manager has listed the log. */
    constructor (s: ObjectStore, ghost lastCheckpoint: map<string, bytes>)
      ensures store == s
      ensures View() == Node(s.wals, s.files, s.manifest, lastCheckpoint, map[], 0, NextSeqAfter(s.wals.Keys), {}, 0)
    {
      store, db, maxWALSeq, nextSeq := s, map[], 0, NextSeqAfter(s.wals.Keys);
      uploadedFiles, manifestVersion, snapshot := {}, 0, lastCheckpoint;
    }

    /** writeWALAndApply, strong path. */
    method Write(ops: seq<Op>, putSucceeds: bool, applySucceeds: bool) returns (ok: bool)
      modifies this, store
      ensures ok == (putSucceeds && applySucceeds)
      ensures View() == if ok then Wrote(old(View()), ops)
                        else if putSucceeds then Stranded(old(View()), ops) else WriteFailed(old(View()))
    {
      var number := nextSeq;
      nextSeq := nextSeq + 1;
      if !putSucceeds { return false; }
      store.wals := store.wals[number := ops];
      if !applySucceeds { return false; }
      db := ApplyOps(db, ops);
      if number > maxWALSeq { maxWALSeq := number; }
      return true;
    }

    /** replayWALs: stops with an error when the object numbered failAt cannot be read. */
    method ReplayWALs(failAt: Option<nat>) returns (ok: bool)
      modifies this
      ensures ok ==> View() == Pass(old(View()))
      ensures !ok ==> failAt.Some? && Stopped(old(View()), failAt.value, View())
      ensures !ok <==> failAt.Some? && failAt.value in store.wals && failAt.value > old(maxWALSeq)
    {
      hide Replay, Listed, Reach, ApplyOps;
      var entries := Listed(store.wals.Keys);
      ghost var s := View();
      ReachStarts(entries);
      NothingYet(db, store.wals, maxWALSeq, 0);
      for i := 0 to |entries|
        invariant View() == s.(db := Replay(s.db, s.wals, s.max, Reach(entries, i)), max := maxWALSeq)
        invariant maxWALSeq == if Reach(entries, i) == 0 then s.max else Max(s.max, Reach(entries, i) - 1)
        invariant failAt.Some? && failAt.value in s.wals && failAt.value > s.max ==> failAt.value >= Reach(entries, i)
      {
        var number := entries[i];
        ListedNext(s.wals.Keys, i);
        ReplayEntry(s.db, s.wals, s.max, Reach(entries, i), number);
        ReachNext(entries, i);
        if number <= maxWALSeq { continue; }
        if failAt == Some(number) { return false; }
        db := ApplyOps(db, store.wals[number]);
        if number > maxWALSeq { maxWALSeq := number; }
      }
      ReachesEnd(s.wals.Keys);
      NothingYet(s.db, s.wals, s.max, 1);
      return true;
    }

    /** The upload loop of Sync; the file at failAt cannot be read or stored. */
    method UploadFiles(entries: seq<File>, prev: set<string>, failAt: nat) returns (ok: bool)
      requires uploadedFiles == {}
      modifies this`uploadedFiles, store`files
      ensures ok <==> failAt >= |entries|
      ensures var n := if ok then |entries| else failAt;
        Shelf(store.files, uploadedFiles) == Uploads(Shelf(old(store.files), {}), prev, entries[..n])
    {
      for i := 0 to |entries|
        invariant i <= failAt
        invariant Shelf(store.files, uploadedFiles) == Uploads(Shelf(old(store.files), {}), prev, entries[..i])
      {
        if i == failAt { return false; }
        assert entries[..i + 1][..i] == entries[..i];
        var f := entries[i];
        if f.name in prev && !Mutable(f.name) {
          uploadedFiles := uploadedFiles + {f.name};
          continue;
        }
        store.files := store.files[f.name := f.data];
        uploadedFiles := uploadedFiles + {f.name};
      }
      return true;
    }

    /** Deletes the files of the previous Sync that left the checkpoint, in no particular order;
        the deletions in keep fail and are only logged. */
    method DeleteStale(prev: set<string>, names: set<string>, keep: set<string>)
      modifies store`files
      ensures store.files == old(store.files) - (prev - names - keep)
    {
      var rest := prev;
      while rest != {}
        invariant rest <= prev
        invariant store.files == old(store.files) - (prev - rest - names - keep)
        decreases |rest|
      {
        var f :| f in rest;
        rest := rest - {f};
        if f !in names && f !in keep { store.files := store.files - {f}; }
      }
    }

    /** GC; a deletion fails, or the process dies, at entry stopAt. */
    method CollectGarbage(max: nat, orphans: set<nat>, stopAt: nat) returns (ok: bool, deleted: nat, ghost cut: nat)
      modifies store`wals
      ensures store.wals == Collected(old(store.wals), max, orphans, cut)
      ensures ok ==> store.wals == map n | n in old(store.wals) && n > max && n !in orphans :: old(store.wals)[n]
      ensures deleted == |old(store.wals)| - |store.wals|
    {
      hide Listed, Reach, Collected, Last;
      var entries := Listed(store.wals.Keys);
      ghost var wals := store.wals;
      ReachStarts(entries);
      NothingCollected(wals, max, orphans);
      deleted, cut := 0, 0;
      for i := 0 to |entries|
        invariant cut == Reach(entries, i)
        invariant store.wals == Collected(wals, max, orphans, cut)
        invariant deleted == |wals| - |store.wals|
      {
        if i == stopAt { return false, deleted, cut; }
        var number := entries[i];
        ListedNext(wals.Keys, i);
        ReachNext(entries, i);
        CollectNext(wals, max, orphans, cut, number);
        OneFewer(store.wals, number);
        if number <= max || number in orphans {
          store.wals := store.wals - {number};
          deleted := deleted + 1;
        }
        cut := number + 1;
      }
      ReachesEnd(wals.Keys);
      CollectedAll(wals, max, orphans, cut);
      return true, deleted, cut;
    }

    /** The data files of a Sync: uploads, then stale deletions. */
    method ReplaceFiles(entries: seq<File>, uploadFailsAt: nat,
                        keep: set<string>) returns (ok: bool, ghost gone: set<string>)
      modifies this, store`files
      ensures ok <==> uploadFailsAt >= |entries|
      ensures gone == if ok then old(uploadedFiles) - Names(entries) - keep else {}
      ensures View() == FilesChanged(old(View()), entries, if ok then |entries| else uploadFailsAt, gone)
    {
      hide Only, ManifestNames, Uploads, Names;
      ghost var s := View();
      var prevFiles := uploadedFiles;
      uploadedFiles := {};
      gone := {};
      ok := UploadFiles(entries, prevFiles, uploadFailsAt);
      if ok {
        assert entries[..|entries|] == entries;
        gone := prevFiles - Names(entries) - keep;
        DeleteStale(prevFiles, Names(entries), keep);
      } else {
        assert store.files - {} == store.files;
      }
    }

    /** Sync.  entries is Pebble's checkpoint; the parameters say what fails and where GC stops. */
    method Sync(entries: seq<File>, flushes: bool, uploadFailsAt: nat, keep: set<string>, manifestPut: PutOutcome,
                orphans: set<nat>, stopAt: nat)
      returns (ok: bool, ghost gone: set<string>, ghost cut: nat)
      modifies this, store
      ensures flushes ==> gone == if uploadFailsAt < |entries| then {} else old(uploadedFiles) - Names(entries) - keep
      ensures !flushes ==> !ok && View() == old(View())
      ensures flushes && (uploadFailsAt < |entries| || manifestPut.Lost?) ==>
        !ok && View() == FilesChanged(old(View()), entries, if uploadFailsAt < |entries| then uploadFailsAt else |entries|, gone)
      ensures flushes && uploadFailsAt >= |entries| && manifestPut.StoredButErred? ==>
        !ok && View() == SyncErred(old(View()), entries, gone)
      ensures flushes && uploadFailsAt >= |entries| && manifestPut.Done? ==> View() == Synced(old(View()), entries, gone, orphans, cut)
      ensures ok ==> forall n :: n in store.wals ==> n > maxWALSeq
    {
      hide Only, Uploads, Names, Collected, FilesChanged, ManifestNames;
      cut, gone := 0, {};
      if !flushes { return false, gone, cut; }
      var currentSeq := maxWALSeq;
      ok, gone := ReplaceFiles(entries, uploadFailsAt, keep);
      FilesOnly(old(View()), entries, if ok then |entries| else uploadFailsAt, gone);
      if !ok || manifestPut.Lost? { return false, gone, cut; }
      store.manifest := Some(Manifest(manifestVersion + 1, currentSeq, ListNames(entries)));
      snapshot := AsMap(entries);
      if manifestPut.StoredButErred? {
        NothingCollected(store.wals, maxWALSeq, {});
        return false, gone, cut;
      }
      manifestVersion := manifestVersion + 1;
      var deleted;
      ok, deleted, cut := CollectGarbage(currentSeq, orphans, stopAt);
    }

    /** The download loop of recover. */
    method DownloadFiles(names: seq<string>) returns (ok: bool, localFiles: map<string, bytes>)
      requires uploadedFiles == {}
      modifies this`uploadedFiles
      ensures ok <==> (set f | f in names) <= store.files.Keys
      ensures ok ==> uploadedFiles == (set f | f in names) && localFiles == Only(store.files, uploadedFiles)
    {
      localFiles := map[];
      for i := 0 to |names|
        invariant uploadedFiles == set f | f in names[..i]
        invariant localFiles == Only(store.files, uploadedFiles) && uploadedFiles <= store.files.Keys
      {
        if names[i] !in store.files { return false, localFiles; }
        assert names[..i + 1] == names[..i] + [names[i]];
        localFiles := localFiles[names[i] := store.files[names[i]]];
        uploadedFiles := uploadedFiles + {names[i]};
      }
      assert names[..|names|] == names;
      return true, localFiles;
    }

    /** recover, on an empty directory: the manifest's files, then Pebble, then the log in strong mode. */
    method Recover(open: Opener, strong: bool, failAt: Option<nat>) returns (ok: bool)
      requires nextSeq == NextSeqAfter(store.wals.Keys) && db == map[] && maxWALSeq == 0 && manifestVersion == 0
      modifies this
      ensures ok ==> View() == if strong then Reopened(open, old(View())) else Loaded(open, old(View()))
      ensures var s := old(View());
        ok <==> ManifestNames(s) <= s.files.Keys && !(strong && failAt.Some? && failAt.value in s.wals && failAt.value > ManifestMax(s))
    {
      hide Pass, Stopped, Only, NextSeqAfter;
      uploadedFiles := {};
      if store.manifest.Some? {
        var m := store.manifest.value;
        manifestVersion := m.version;
        var found, localFiles := DownloadFiles(m.names);
        if !found { return false; }
        maxWALSeq := m.max;
        db := open(localFiles);
      }
      if strong {
        ok := ReplayWALs(failAt);
        return;
      }
      return true;
    }
  }

  /** The data files are all that changes before the manifest. */
  lemma FilesOnly(s: Node, entries: seq<File>, k: nat, gone: set<string>)
    requires k <= |entries|
    ensures var t := FilesChanged(s, entries, k, gone); t == s.(files := t.files, uploaded := t.uploaded)
  {
  }

  lemma ReachStarts(entries: seq<nat>)
    ensures Reach(entries, 0) == 0
  {
  }

  lemma ReachNext(entries: seq<nat>, i: nat)
    requires i < |entries|
    ensures Reach(entries, i + 1) == entries[i] + 1
  {
  }

  lemma NothingYet(db: DB, wals: map<nat, seq<Op>>, lo: nat, hi: nat)
    requires hi <= lo + 1
    ensures Replay(db, wals, lo, hi) == db
  {
  }

  /** GC of one more entry. */
  lemma CollectNext(wals: map<nat, seq<Op>>, max: nat, orphans: set<nat>, before: nat, n: nat)
    requires n in wals && before <= n && forall m :: m in wals && before <= m ==> n <= m
    ensures n in Collected(wals, max, orphans, before)
    ensures Collected(wals, max, orphans, n + 1)
         == if n <= max || n in orphans then Collected(wals, max, orphans, before) - {n} else Collected(wals, max, orphans, before)
  {
  }

  lemma CollectedAll(wals: map<nat, seq<Op>>, max: nat, orphans: set<nat>, cut: nat)
    requires forall n :: n in wals ==> n < cut
    ensures Collected(wals, max, orphans, cut) == map n | n in wals && n > max && n !in orphans :: wals[n]
  {
  }

  lemma NothingCollected(wals: map<nat, seq<Op>>, max: nat, orphans: set<nat>)
    ensures Collected(wals, max, orphans, 0) == wals
  {
  }

  lemma OneFewer(wals: map<nat, seq<Op>>, n: nat)
    requires n in wals
    ensures |wals - {n}| == |wals| - 1
  {
    assert (wals - {n}).Keys == wals.Keys - {n};
  }
}
