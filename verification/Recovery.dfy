/** Checkpoint, manifest and log as the engine leaves them in object storage, and what recovery
    makes of them (pkg/engine/engine.go), for writes and Syncs that run one at a time. */
module Recovery {
  import opened Bytes
  import opened Pebble
  import opened Listing

  /** A file of a Pebble checkpoint. */
  datatype File = File(name: string, data: bytes)

  datatype Manifest = Manifest(version: nat, max: nat, names: seq<string>)

  /** The object store and the memory of the engine that owns it.  snapshot is the checkpoint
      directory that the manifest was written for. */
  datatype Node = Node(
    wals: map<nat, seq<Op>>,
    files: map<string, bytes>,
    manifest: Option<Manifest>,
    snapshot: map<string, bytes>,
    db: DB,
    max: nat,
    nextSeq: nat,
    uploaded: set<string>,
    version: nat)

  /* ---- Replay ---- */

  /** Applies the objects with lo < number < hi in ascending order. */
  function Replay(db: DB, wals: map<nat, seq<Op>>, lo: nat, hi: nat): DB {
    if hi == 0 || hi - 1 <= lo then db
    else
      var before := Replay(db, wals, lo, hi - 1);
      if hi - 1 in wals then ApplyOps(before, wals[hi - 1]) else before
  }

  /** Past the last object there is nothing to replay. */
  lemma {:induction false} ReplayEnds(db: DB, wals: map<nat, seq<Op>>, lo: nat, hi: nat, end: nat)
    requires hi <= end && forall n :: n in wals && hi <= n < end ==> n <= lo
    ensures Replay(db, wals, lo, end) == Replay(db, wals, lo, hi)
    decreases end
  {
    if hi < end { ReplayEnds(db, wals, lo, hi, end - 1); }
  }

  /** Only the objects in range matter. */
  lemma {:induction false} ReplayAgrees(db: DB, a: map<nat, seq<Op>>, b: map<nat, seq<Op>>, lo: nat, hi: nat)
    requires forall n :: lo < n < hi ==> (n in a <==> n in b) && (n in a ==> a[n] == b[n])
    ensures Replay(db, a, lo, hi) == Replay(db, b, lo, hi)
  {
    if hi > 0 { ReplayAgrees(db, a, b, lo, hi - 1); }
  }

  /** Replay can stop and continue. */
  lemma {:induction false} ReplaySplits(db: DB, wals: map<nat, seq<Op>>, lo: nat, mid: nat, hi: nat)
    requires lo <= mid < hi
    ensures Replay(db, wals, lo, hi) == Replay(Replay(db, wals, lo, mid + 1), wals, mid, hi)
    decreases hi
  {
    if mid + 1 < hi { ReplaySplits(db, wals, lo, mid, hi - 1); }
  }

  /* ---- Checkpoint files ---- */

  /** Files that Pebble rewrites under the same name. */
  predicate Mutable(name: string) {
    || name == "CURRENT" || "MANIFEST-" <= name || "OPTIONS-" <= name
    || "marker.format-version" <= name || "marker.manifest" <= name
  }

  predicate IsDigit(c: char) { '0' <= c <= '9' }

  /** Tables, blobs and logs: Pebble never reuses such a name. */
  predicate Numbered(name: string) { name != "" && IsDigit(name[0]) }

  /** What Pebble puts into a checkpoint. */
  predicate IsCheckpointFile(name: string) {
    Numbered(name) || name == "CURRENT"
    || exists kind :: kind in ["MANIFEST-", "OPTIONS-", "marker.format-version", "marker.manifest"] && kind <= name
  }

  /** Among the files of a checkpoint, the numbered ones are those that need no second upload. */
  lemma MutableIsNotNumbered(name: string)
    requires IsCheckpointFile(name)
    ensures Mutable(name) <==> !Numbered(name)
  {
  }

  function Names(entries: seq<File>): set<string> { set i | 0 <= i < |entries| :: entries[i].name }

  predicate Distinct(entries: seq<File>) { forall i, j :: 0 <= i < j < |entries| ==> entries[i].name != entries[j].name }

  /** The stored files, and those this Sync has accounted for. */
  datatype Shelf = Shelf(files: map<string, bytes>, uploaded: set<string>)

  function Upload(s: Shelf, prev: set<string>, f: File): Shelf {
    Shelf(if f.name in prev && !Mutable(f.name) then s.files else s.files[f.name := f.data], s.uploaded + {f.name})
  }

  function Uploads(s: Shelf, prev: set<string>, entries: seq<File>): Shelf
    decreases |entries|
  {
    if entries == [] then s else Upload(Uploads(s, prev, entries[..|entries| - 1]), prev, entries[|entries| - 1])
  }

  /** What a numbered file always holds. */
  type Contents = string -> bytes

  predicate FitsIn(f: File, content: Contents) {
    IsCheckpointFile(f.name) && (Numbered(f.name) ==> f.data == content(f.name))
  }

  /** What is known of a checkpoint: Pebble's files, the numbered ones with the contents of their name. */
  predicate Respects(entries: seq<File>, content: Contents) {
    forall i :: 0 <= i < |entries| ==> FitsIn(entries[i], content)
  }

  /** The files named are stored, the numbered ones with their contents. */
  predicate Stored(files: map<string, bytes>, names: set<string>, content: Contents) {
    forall f :: f in names ==> f in files && (Numbered(f) ==> files[f] == content(f))
  }

  predicate StoredAs(files: map<string, bytes>, entries: seq<File>) {
    forall i :: 0 <= i < |entries| ==> entries[i].name in files && files[entries[i].name] == entries[i].data
  }

  /** The entries are accounted for and stored with their bytes; earlier uploads are still there. */
  predicate Uploaded(s: Shelf, prev: set<string>, entries: seq<File>, content: Contents) {
    && s.uploaded == Names(entries) && StoredAs(s.files, entries)
    && Stored(s.files, s.uploaded, content) && Stored(s.files, prev, content)
  }

  lemma UploadStores(s: Shelf, prev: set<string>, entries: seq<File>, f: File, content: Contents)
    requires Uploaded(s, prev, entries, content) && f.name !in s.uploaded && FitsIn(f, content)
    ensures Uploaded(Upload(s, prev, f), prev, entries + [f], content)
  {
    hide Mutable, Numbered, IsCheckpointFile;
    MutableIsNotNumbered(f.name);
    NamesSnoc(entries, f);
    assert forall i :: 0 <= i < |entries| ==> entries[i].name in s.uploaded;
  }

  lemma NamesSnoc(entries: seq<File>, f: File)
    ensures Names(entries + [f]) == Names(entries) + {f.name}
  {
    assert forall i :: 0 <= i < |entries| ==> (entries + [f])[i] == entries[i];
    assert (entries + [f])[|entries|] == f;
  }

  /** After the upload loop every file of the checkpoint is stored with the checkpoint's bytes. */
  lemma {:induction false} UploadsStore(files: map<string, bytes>, prev: set<string>, entries: seq<File>,
                                        content: Contents)
    requires Stored(files, prev, content) && Respects(entries, content) && Distinct(entries)
    ensures Uploaded(Uploads(Shelf(files, {}), prev, entries), prev, entries, content)
    decreases |entries|
  {
    hide Mutable, Numbered, IsCheckpointFile;
    if entries != [] {
      var k := |entries| - 1;
      UploadsStore(files, prev, entries[..k], content);
      assert entries == entries[..k] + [entries[k]];
      UploadStores(Uploads(Shelf(files, {}), prev, entries[..k]), prev, entries[..k], entries[k], content);
    }
  }

  /** The entries as a directory. */
  function AsMap(entries: seq<File>): map<string, bytes>
    decreases |entries|
  {
    if entries == [] then map[]
    else AsMap(entries[..|entries| - 1])[entries[|entries| - 1].name := entries[|entries| - 1].data]
  }

  function Only(files: map<string, bytes>, names: set<string>): map<string, bytes> {
    map f | f in files && f in names :: files[f]
  }

  /** Downloading the manifest's files gives the checkpoint back. */
  lemma {:induction false} DownloadIsCheckpoint(files: map<string, bytes>, entries: seq<File>)
    requires StoredAs(files, entries)
    ensures Only(files, Names(entries)) == AsMap(entries)
    decreases |entries|
  {
    if entries != [] {
      var k := |entries| - 1;
      assert entries == entries[..k] + [entries[k]];
      DownloadIsCheckpoint(files, entries[..k]);
      assert Names(entries) == Names(entries[..k]) + {entries[k].name};
    }
  }

  /* ---- Operations ---- */

  /** writeWALAndApply: the log object first, then the local apply. */
  function Wrote(s: Node, ops: seq<Op>): Node {
    s.(wals := s.wals[s.nextSeq := ops], db := ApplyOps(s.db, ops), max := Max(s.max, s.nextSeq), nextSeq := s.nextSeq + 1)
  }

  /** A failed Put uses up its number. */
  function WriteFailed(s: Node): Node { s.(nextSeq := s.nextSeq + 1) }

  /** The first k uploads of a Sync, then the deletion of some stale files. */
  function FilesChanged(s: Node, entries: seq<File>, k: nat, gone: set<string>): Node
    requires k <= |entries|
  {
    var u := Uploads(Shelf(s.files, {}), s.uploaded, entries[..k]);
    s.(files := u.files - gone, uploaded := u.uploaded)
  }

  predicate Stale(s: Node, entries: seq<File>, k: nat, gone: set<string>) {
    if k == |entries| then gone <= s.uploaded - Names(entries) else gone == {}
  }

  /** GC below cut: covered objects and orphans. */
  function Collected(wals: map<nat, seq<Op>>, max: nat, orphans: set<nat>, cut: nat): map<nat, seq<Op>> {
    map n | n in wals && !(n < cut && (n <= max || n in orphans)) :: wals[n]
  }

  function ListNames(entries: seq<File>): (r: seq<string>)
    ensures |r| == |entries|
  {
    seq(|entries|, i requires 0 <= i < |entries| => entries[i].name)
  }

  /** A Sync that wrote its manifest, and whose GC got as far as cut. */
  function Synced(s: Node, entries: seq<File>, gone: set<string>, orphans: set<nat>, cut: nat): Node {
    var t := FilesChanged(s, entries, |entries|, gone);
    t.(manifest := Some(Manifest(s.version + 1, s.max, ListNames(entries))), snapshot := AsMap(entries), version := s.version + 1,
       wals := Collected(s.wals, s.max, orphans, cut))
  }

  /** A Sync whose manifest Put reported an error although the manifest was stored. */
  function SyncErred(s: Node, entries: seq<File>, gone: set<string>): Node {
    Synced(s, entries, gone, {}, 0).(version := s.version)
  }

  /** A write whose local apply failed after its object was stored. */
  function Stranded(s: Node, ops: seq<Op>): Node { s.(wals := s.wals[s.nextSeq := ops], nextSeq := s.nextSeq + 1) }

  /** Opening Pebble on a directory. */
  type Opener = map<string, bytes> -> DB

  function ManifestMax(s: Node): nat { if s.manifest.Some? then s.manifest.value.max else 0 }

  function ManifestNames(s: Node): set<string> { if s.manifest.Some? then set f | f in s.manifest.value.names else {} }

  function Base(open: Opener, s: Node): DB {
    if s.manifest.Some? then open(Only(s.files, ManifestNames(s))) else map[]
  }

  /** Open in eventual mode: the checkpoint only. */
  function Loaded(open: Opener, s: Node): Node {
    s.(db := Base(open, s), max := ManifestMax(s), nextSeq := NextSeqAfter(s.wals.Keys), uploaded := ManifestNames(s),
       version := if s.manifest.Some? then s.manifest.value.version else 0)
  }

  /** An error-free replayWALs. */
  function Pass(s: Node): Node {
    s.(db := Replay(s.db, s.wals, s.max, Last(s.wals.Keys) + 1), max := Max(s.max, Last(s.wals.Keys)))
  }

  /** Open in strong mode. */
  function Reopened(open: Opener, s: Node): Node { Pass(Loaded(open, s)) }

  /** What a crash now and a strong open would read back. */
  function Recovered(open: Opener, s: Node): DB { Reopened(open, s).db }

  /* ---- Replay is exactly-once and idempotent ---- */

  /** A second pass changes nothing. */
  lemma SecondPassIsIdle(s: Node)
    ensures Pass(Pass(s)) == Pass(s)
  {
    var t := Pass(s);
    NothingAbove(t.db, s.wals, t.max);
  }

  lemma NothingAbove(db: DB, wals: map<nat, seq<Op>>, lo: nat)
    requires forall n :: n in wals ==> n <= lo
    ensures Replay(db, wals, lo, Last(wals.Keys) + 1) == db
  {
  }

  /** A pass that stopped with an error at object n: everything before it has been applied. */
  ghost predicate Stopped(s: Node, n: nat, t: Node) {
    && n in s.wals && s.max <= t.max < n && (forall m :: m in s.wals && t.max < m ==> n <= m)
    && t == s.(db := Replay(s.db, s.wals, s.max, n), max := t.max)
  }

  /** A pass that failed and a later full pass are one pass. */
  lemma RetriedPass(s: Node, n: nat, t: Node)
    requires Stopped(s, n, t)
    ensures Pass(t) == Pass(s)
  {
    ReplaySplits(s.db, s.wals, s.max, t.max, Last(s.wals.Keys) + 1);
    ReplayEnds(s.db, s.wals, s.max, t.max + 1, n);
  }

  /** Each entry above the threshold adds its own operations to what the entries before it did. */
  lemma ReplayEntry(db: DB, wals: map<nat, seq<Op>>, lo: nat, before: nat, n: nat)
    requires n in wals && before <= n && forall m :: m in wals && before <= m ==> n <= m
    ensures Replay(db, wals, lo, n) == Replay(db, wals, lo, before)
    ensures n > lo ==> Replay(db, wals, lo, n + 1) == ApplyOps(Replay(db, wals, lo, before), wals[n])
    ensures n <= lo ==> Replay(db, wals, lo, n + 1) == Replay(db, wals, lo, before)
  {
    ReplayEnds(db, wals, lo, before, n);
  }

  /** Writing before the first pass of an eventual-mode open makes every later pass skip the log. */
  lemma WriteHidesTheLog(s: Node, ops: seq<Op>)
    requires forall n :: n in s.wals ==> n < s.nextSeq
    ensures Pass(Wrote(s, ops)) == Wrote(s, ops)
  {
    var t := Wrote(s, ops);
    NothingAbove(t.db, t.wals, t.max);
    LastIs(s.nextSeq, t.wals.Keys);
  }

  /* ---- Recovery equality ---- */

  /** The files that the manifest names are not those of its checkpoint: a Sync failed after it changed
      or deleted one of them, and before it wrote a new manifest. */
  predicate Torn(s: Node) { Only(s.files, ManifestNames(s)) != s.snapshot }

  /** What recovery would make of the checkpoint itself and the log. */
  function FromSnapshot(open: Opener, s: Node): DB {
    Replay(if s.manifest.Some? then open(s.snapshot) else map[], s.wals, ManifestMax(s), Last(s.wals.Keys) + 1)
  }

  ghost predicate Inv(open: Opener, content: Contents, s: Node, acked: seq<Op>) {
    && s.db == ApplyOps(map[], acked)
    && (forall n :: n in s.wals ==> n <= s.max) && ManifestMax(s) <= s.max < s.nextSeq
    && Stored(s.files, s.uploaded, content)
    && s.snapshot.Keys == ManifestNames(s) && Stored(s.snapshot, ManifestNames(s), content)
    && FromSnapshot(open, s) == s.db
  }

  /** As long as it is not torn, recovery reads the checkpoint. */
  lemma NotTorn(open: Opener, content: Contents, s: Node, acked: seq<Op>)
    requires Inv(open, content, s, acked) && !Torn(s)
    ensures Recovered(open, s) == s.db && Stored(s.files, ManifestNames(s), content)
  {
    hide Mutable, Numbered, IsCheckpointFile, Replay;
    SameFilesStored(s.snapshot, s.files, ManifestNames(s), content) by {
      assert Only(s.snapshot, ManifestNames(s)) == s.snapshot;
    }
  }

  lemma WriteKeeps(open: Opener, content: Contents, s: Node, acked: seq<Op>, ops: seq<Op>)
    requires Inv(open, content, s, acked)
    ensures Inv(open, content, Wrote(s, ops), acked + ops)
  {
    var t, m, n := Wrote(s, ops), ManifestMax(s), s.nextSeq;
    var base := if s.manifest.Some? then open(s.snapshot) else map[];
    ApplyOpsConcat(map[], acked, ops);
    LastIs(n, t.wals.Keys);
    ReplayAgrees(base, t.wals, s.wals, m, n);
    ReplayEnds(base, s.wals, m, Last(s.wals.Keys) + 1, n);
  }

  lemma SyncKeeps(open: Opener, content: Contents, s: Node, acked: seq<Op>, entries: seq<File>, gone: set<string>,
                  orphans: set<nat>, cut: nat)
    requires Inv(open, content, s, acked) && Distinct(entries) && Respects(entries, content) &&
             open(AsMap(entries)) == s.db
    requires Stale(s, entries, |entries|, gone)
    ensures Inv(open, content, Synced(s, entries, gone, orphans, cut), acked)
    ensures StoredAs(Synced(s, entries, gone, orphans, cut).files, entries)
  {
    var t := Synced(s, entries, gone, orphans, cut);
    hide Mutable, Numbered, IsCheckpointFile, Synced, AsMap, Replay, ApplyOps, Stored, StoredAs, Respects, Stale, Names,
         ManifestNames, Only;
    SyncStores(content, s, entries, gone, orphans, cut);
    CheckpointIsStored(t.files, entries, content);
    NothingAbove(t.db, t.wals, t.max);
  }

  lemma CheckpointIsStored(files: map<string, bytes>, entries: seq<File>, content: Contents)
    requires StoredAs(files, entries) && Stored(files, Names(entries), content)
    ensures AsMap(entries).Keys == Names(entries) && Stored(AsMap(entries), Names(entries), content)
  {
    hide Mutable, Numbered, IsCheckpointFile, AsMap, StoredAs;
    DownloadIsCheckpoint(files, entries);
  }

  /** What a Sync that wrote its manifest leaves behind. */
  lemma SyncStores(content: Contents, s: Node, entries: seq<File>, gone: set<string>, orphans: set<nat>, cut: nat)
    requires Distinct(entries) && Respects(entries, content) && Stored(s.files, s.uploaded, content) &&
             Stale(s, entries, |entries|, gone)
    ensures var t := Synced(s, entries, gone, orphans, cut);
      && StoredAs(t.files, entries) && Stored(t.files, t.uploaded, content) && t.uploaded == Names(entries) == ManifestNames(t)
      && t.manifest.Some? && t.manifest.value.max == t.max == s.max && t.db == s.db && t.nextSeq == s.nextSeq && t.snapshot == AsMap(entries)
      && (forall n :: n in t.wals ==> n in s.wals)
  {
    hide Mutable, Numbered, IsCheckpointFile, Uploads, AsMap, Respects, Distinct;
    assert entries[..|entries|] == entries;
    UploadsStore(s.files, s.uploaded, entries, content);
    var u := Uploads(Shelf(s.files, {}), s.uploaded, entries);
    assert forall i :: 0 <= i < |entries| ==> entries[i].name in Names(entries) && ListNames(entries)[i] == entries[i].name;
  }

  lemma FailedSyncKeeps(open: Opener, content: Contents, s: Node, acked: seq<Op>, entries: seq<File>, k: nat,
                        gone: set<string>)
    requires Inv(open, content, s, acked) && Distinct(entries) && Respects(entries, content)
    requires k <= |entries| && Stale(s, entries, k, gone)
    ensures Inv(open, content, FilesChanged(s, entries, k, gone), acked)
  {
    UploadsStillStored(content, s, entries, k, gone);
    hide Stored, Only, Uploads, Stale, Names, Distinct, Respects, Replay, ApplyOps, ManifestNames;
    SameManifest(s, FilesChanged(s, entries, k, gone));
  }

  lemma SameManifest(s: Node, t: Node)
    requires s.manifest == t.manifest
    ensures ManifestNames(s) == ManifestNames(t)
  {
  }

  lemma SameFilesStored(a: map<string, bytes>, b: map<string, bytes>, names: set<string>, content: Contents)
    requires Stored(a, names, content) && Only(a, names) == Only(b, names)
    ensures Stored(b, names, content)
  {
    hide Mutable, Numbered, IsCheckpointFile;
    forall f | f in names ensures f in b && b[f] == a[f] { assert f in Only(a, names); assert f in Only(b, names); }
  }

  lemma UploadsStillStored(content: Contents, s: Node, entries: seq<File>, k: nat, gone: set<string>)
    requires Distinct(entries) && Respects(entries, content) && Stored(s.files, s.uploaded, content)
    requires k <= |entries| && Stale(s, entries, k, gone)
    ensures Stored(FilesChanged(s, entries, k, gone).files, FilesChanged(s, entries, k, gone).uploaded, content)
  {
    hide Mutable, Numbered, IsCheckpointFile, Only;
    UploadsStore(s.files, s.uploaded, entries[..k], content);
    assert entries[..|entries|] == entries;
  }

  lemma ErredSyncKeeps(open: Opener, content: Contents, s: Node, acked: seq<Op>, entries: seq<File>, gone: set<string>)
    requires Inv(open, content, s, acked) && Distinct(entries) && Respects(entries, content) &&
             open(AsMap(entries)) == s.db
    requires Stale(s, entries, |entries|, gone)
    ensures Inv(open, content, SyncErred(s, entries, gone), acked)
  {
    hide Inv, Synced, AsMap, Respects, Stale, Distinct;
    SyncKeeps(open, content, s, acked, entries, gone, {}, 0);
    VersionIsFree(open, content, Synced(s, entries, gone, {}, 0), s.version, acked);
  }

  lemma VersionIsFree(open: Opener, content: Contents, s: Node, version: nat, acked: seq<Op>)
    requires Inv(open, content, s, acked)
    ensures Inv(open, content, s.(version := version), acked)
  {
    hide Replay, Stored, ApplyOps;
  }

  /** An unacknowledged write whose object was stored is back after a crash. */
  lemma StrandedWriteReturns(open: Opener, content: Contents, s: Node, acked: seq<Op>, ops: seq<Op>)
    requires Inv(open, content, s, acked) && !Torn(s)
    ensures Stranded(s, ops).db == s.db && Recovered(open, Stranded(s, ops)) == ApplyOps(s.db, ops)
  {
    WriteKeeps(open, content, s, acked, ops);
    NotTorn(open, content, Wrote(s, ops), acked + ops);
    assert Stranded(s, ops).wals == Wrote(s, ops).wals;
  }

  lemma ReopenKeeps(open: Opener, content: Contents, s: Node, acked: seq<Op>)
    requires Inv(open, content, s, acked) && !Torn(s) && NextSeqAfter(s.wals.Keys) > ManifestMax(s)
    ensures Inv(open, content, Reopened(open, s), acked)
  {
    NotTorn(open, content, s, acked);
  }

  /** An eventual-mode open, a write and a pass reach what a strong-mode open and the write reach. */
  ghost predicate HealsAfterWrites(open: Opener, s: Node) {
    forall ops :: Pass(Wrote(Loaded(open, s), ops)).db == Wrote(Reopened(open, s), ops).db
  }

  /** Writing before the first pass of an eventual-mode open costs exactly what the log would have
      changed: later passes reach the strong-mode state iff the log changes nothing. */
  lemma EarlyWriteIsHarmlessIff(open: Opener, s: Node)
    ensures HealsAfterWrites(open, s) <==> Reopened(open, s).db == Loaded(open, s).db
  {
    hide Replay;
    forall ops
      ensures Pass(Wrote(Loaded(open, s), ops)) == Wrote(Loaded(open, s), ops)
    {
      WriteHidesTheLog(Loaded(open, s), ops);
    }
    assert Wrote(Reopened(open, s), []).db == Reopened(open, s).db && Wrote(Loaded(open, s), []).db == Loaded(open, s).db;
    if HealsAfterWrites(open, s) {
      assert Pass(Wrote(Loaded(open, s), [])).db == Wrote(Reopened(open, s), []).db;
    }
  }

  /** The same state, with other operations in its log. */
  ghost predicate SameNumbers(s: Node, t: Node) { t == s.(wals := t.wals) && t.wals.Keys == s.wals.Keys }

  /** Whatever the objects hold, an eventual-mode node that writes before its first pass still
      heals exactly when no object is numbered above MaxWALSeq. */
  lemma HealsIffNothingAbove(open: Opener, s: Node)
    ensures (forall t :: SameNumbers(s, t) ==> HealsAfterWrites(open, t)) <==> forall n :: n in s.wals ==> n <= ManifestMax(s)
  {
    if forall n :: n in s.wals ==> n <= ManifestMax(s) {
      forall t | SameNumbers(s, t) ensures HealsAfterWrites(open, t) {
        EarlyWriteIsHarmlessIff(open, t);
        NothingAbove(Base(open, t), t.wals, ManifestMax(t));
      }
    } else {
      var last := Last(s.wals.Keys);
      var t := s.(wals := LastOnly(s.wals.Keys, last, Visible(Base(open, s))));
      assert SameNumbers(s, t);
      EmptyObjects(Base(open, s), t.wals, ManifestMax(s), last);
      VisibleChanges(Base(open, s));
      EarlyWriteIsHarmlessIff(open, t);
    }
  }

  /** A log in which only the last object holds operations. */
  function LastOnly(keys: set<nat>, last: nat, ops: seq<Op>): map<nat, seq<Op>> {
    map n | n in keys :: if n == last then ops else []
  }

  lemma {:induction false} EmptyObjects(db: DB, wals: map<nat, seq<Op>>, lo: nat, hi: nat)
    requires forall n :: n in wals && n < hi ==> wals[n] == []
    ensures Replay(db, wals, lo, hi) == db
  {
    if hi > 0 { EmptyObjects(db, wals, lo, hi - 1); }
  }

  /** After a Sync that leaves no object above MaxWALSeq, recovery reads its checkpoint. */
  lemma SyncedIsCheckpoint(open: Opener, content: Contents, w: Node, entries: seq<File>, gone: set<string>,
                           orphans: set<nat>, cut: nat)
    requires Stored(w.files, w.uploaded, content) && Distinct(entries) && Respects(entries, content)
    requires Stale(w, entries, |entries|, gone)
    requires forall n :: n in Synced(w, entries, gone, orphans, cut).wals ==> n <= w.max
    ensures Recovered(open, Synced(w, entries, gone, orphans, cut)) == open(AsMap(entries))
  {
    var t := Synced(w, entries, gone, orphans, cut);
    hide Mutable, Numbered, IsCheckpointFile, Synced, AsMap, Replay, Stored, StoredAs, Respects, Names, ManifestNames, Only;
    SyncStores(content, w, entries, gone, orphans, cut);
    DownloadIsCheckpoint(t.files, entries);
    NothingAbove(Base(open, t), t.wals, t.max);
  }

  /** An eventual-mode open that writes before its first pass, and then syncs, has dropped the log:
      what is left is the old checkpoint and the new write. */
  lemma EventualWriteForgetsTheLog(open: Opener, content: Contents, s: Node, ops: seq<Op>, entries: seq<File>,
                                   gone: set<string>, orphans: set<nat>, cut: nat)
    requires Stored(s.files, ManifestNames(s), content) && NextSeqAfter(s.wals.Keys) > ManifestMax(s)
    requires Distinct(entries) && Respects(entries, content) && Stale(Loaded(open, s), entries, |entries|, gone)
    requires open(AsMap(entries)) == ApplyOps(Base(open, s), ops)
    ensures Recovered(open, Synced(Wrote(Loaded(open, s), ops), entries, gone, orphans, cut)) == ApplyOps(Base(open, s), ops)
  {
    var w := Wrote(Loaded(open, s), ops);
    hide Synced, AsMap, Replay, ApplyOps, Stored, Respects, Recovered, ManifestNames, Only, Distinct;
    assert forall n :: n in Synced(w, entries, gone, orphans, cut).wals ==> n <= w.max by {
      SyncStores(content, w, entries, gone, orphans, cut);
    }
    SyncedIsCheckpoint(open, content, w, entries, gone, orphans, cut);
  }

  /** No write is needed: a Sync before the first pass lets GC take the log as orphans. */
  lemma EventualSyncForgetsTheLog(open: Opener, content: Contents, s: Node, entries: seq<File>, gone: set<string>,
                                  orphans: set<nat>, cut: nat)
    requires Stored(s.files, ManifestNames(s), content) && TakesAll(s, orphans, cut)
    requires Distinct(entries) && Respects(entries, content) && Stale(Loaded(open, s), entries, |entries|, gone)
    requires open(AsMap(entries)) == Base(open, s)
    ensures Recovered(open, Synced(Loaded(open, s), entries, gone, orphans, cut)) == Base(open, s)
  {
    var w := Loaded(open, s);
    hide Synced, AsMap, Replay, Stored, Respects, Stale, Recovered, ManifestNames, Only, Distinct;
    OnlyCoveredLeft(w, entries, gone, orphans, cut);
    SyncedIsCheckpoint(open, content, w, entries, gone, orphans, cut);
  }

  /** Every object above MaxWALSeq is old enough for GC, and GC gets to it. */
  ghost predicate TakesAll(s: Node, orphans: set<nat>, cut: nat) {
    forall n :: n in s.wals && n > ManifestMax(s) ==> n in orphans && n < cut
  }

  lemma OnlyCoveredLeft(w: Node, entries: seq<File>, gone: set<string>, orphans: set<nat>, cut: nat)
    requires forall n :: n in w.wals && n > w.max ==> n in orphans && n < cut
    ensures forall n :: n in Synced(w, entries, gone, orphans, cut).wals ==> n <= w.max
  {
  }

  /** Whatever the objects hold, such a Sync loses nothing exactly when no object is numbered above
      MaxWALSeq. */
  lemma {:induction false} EarlySyncIsHarmlessIff(open: Opener, content: Contents, s: Node, entries: seq<File>,
                                                  gone: set<string>, orphans: set<nat>, cut: nat)
    requires Stored(s.files, ManifestNames(s), content) && TakesAll(s, orphans, cut)
    requires Distinct(entries) && Respects(entries, content) && Stale(Loaded(open, s), entries, |entries|, gone)
    requires open(AsMap(entries)) == Base(open, s)
    ensures (forall t :: SameNumbers(s, t) ==>
               Recovered(open, Synced(Loaded(open, t), entries, gone, orphans, cut)) == Recovered(open, t))
        <==> forall n :: n in s.wals ==> n <= ManifestMax(s)
  {
    if forall n :: n in s.wals ==> n <= ManifestMax(s) {
      forall t | SameNumbers(s, t)
        ensures Recovered(open, Synced(Loaded(open, t), entries, gone, orphans, cut)) == Recovered(open, t)
      {
        RecoversBase(open, t);
        EventualSyncForgetsTheLog(open, content, t, entries, gone, orphans, cut);
      }
    } else {
      var t := s.(wals := LastOnly(s.wals.Keys, Last(s.wals.Keys), Visible(Base(open, s))));
      RecoversVisible(open, s, t);
      EventualSyncForgetsTheLog(open, content, t, entries, gone, orphans, cut);
      assert SameNumbers(s, t);
    }
  }

  lemma RecoversBase(open: Opener, s: Node)
    requires forall n :: n in s.wals ==> n <= ManifestMax(s)
    ensures Recovered(open, s) == Base(open, s)
  {
    NothingAbove(Base(open, s), s.wals, ManifestMax(s));
  }

  lemma RecoversVisible(open: Opener, s: Node, t: Node)
    requires t == s.(wals := LastOnly(s.wals.Keys, Last(s.wals.Keys), Visible(Base(open, s))))
    requires exists n :: n in s.wals && n > ManifestMax(s)
    ensures Recovered(open, t) != Base(open, s)
  {
    EmptyObjects(Base(open, s), t.wals, ManifestMax(s), Last(s.wals.Keys));
    VisibleChanges(Base(open, s));
    assert t.wals.Keys == s.wals.Keys;
  }

  /* ---- All runs ---- */

  datatype Event =
    | Write(ops: seq<Op>)
    | FailWrite                                                                              // leaves no object
    | Sync(entries: seq<File>, gone: set<string>, orphans: set<nat>, cut: nat)               // GC stopped at cut
    | FailSync(entries: seq<File>, k: nat, gone: set<string>)                                // before the manifest
    | ErrSync(entries: seq<File>, gone: set<string>)                                         // at the manifest, stored
    | Reopen                                                                                 // crash, strong open

  /** Pebble's checkpoints open as the database they were taken of, and reuse no file name with new
      contents; no crash between the first change to a data file and the manifest; the new manager
      starts above MaxWALSeq. */
  ghost predicate Possible(open: Opener, content: Contents, s: Node, e: Event) {
    match e
    case Write(_) => true
    case FailWrite => true
    case Sync(entries, gone, _, _) =>
      && Distinct(entries) && Respects(entries, content) && open(AsMap(entries)) == s.db
      && Stale(s, entries, |entries|, gone)
    case FailSync(entries, k, gone) =>
      Distinct(entries) && Respects(entries, content) && k <= |entries| && Stale(s, entries, k, gone)
    case ErrSync(entries, gone) =>
      && Distinct(entries) && Respects(entries, content) && open(AsMap(entries)) == s.db
      && Stale(s, entries, |entries|, gone)
    case Reopen => !Torn(s) && NextSeqAfter(s.wals.Keys) > ManifestMax(s)
  }

  function After(open: Opener, s: Node, e: Event): Node
    requires e.FailSync? ==> e.k <= |e.entries|
  {
    match e
    case Write(ops) => Wrote(s, ops)
    case FailWrite => WriteFailed(s)
    case Sync(entries, gone, orphans, cut) => Synced(s, entries, gone, orphans, cut)
    case FailSync(entries, k, gone) => FilesChanged(s, entries, k, gone)
    case ErrSync(entries, gone) => SyncErred(s, entries, gone)
    case Reopen => Reopened(open, s)
  }

  /** The operations of the acknowledged writes, in order. */
  function Acked(events: seq<Event>): seq<Op>
    decreases |events|
  {
    if events == [] then []
    else
      var e := events[|events| - 1];
      Acked(events[..|events| - 1]) + if e.Write? then e.ops else []
  }

  /** An engine opened on an empty namespace. */
  const EMPTY: Node := Node(map[], map[], None, map[], map[], 0, 1, {}, 0)

  ghost predicate Runs(open: Opener, content: Contents, events: seq<Event>, s: Node)
    decreases |events|
  {
    if events == [] then s == EMPTY
    else
      var e := events[|events| - 1];
      exists before :: Runs(open, content, events[..|events| - 1], before)
        && Possible(open, content, before, e) && s == After(open, before, e)
  }

  lemma {:induction false} RunInv(open: Opener, content: Contents, events: seq<Event>, s: Node)
    requires Runs(open, content, events, s)
    ensures Inv(open, content, s, Acked(events))
    decreases |events|
  {
    hide Inv, Wrote, Synced, SyncErred, FilesChanged, Reopened, Distinct, Respects, Stale, AsMap;
    if events == [] {
      EmptyInv(open, content);
    } else {
      var init, e := events[..|events| - 1], events[|events| - 1];
      var before :| Runs(open, content, init, before) && Possible(open, content, before, e) && s == After(open, before, e);
      RunInv(open, content, init, before);
      assert Acked(events) == Acked(init) + if e.Write? then e.ops else [];
      assert !e.Write? ==> Acked(events) == Acked(init);
      match e
      case Write(ops) => WriteKeeps(open, content, before, Acked(init), ops);
      case FailWrite => FailedWriteKeeps(open, content, before, Acked(init));
      case Sync(entries, gone, orphans, cut) => SyncKeeps(open, content, before, Acked(init), entries, gone, orphans, cut);
      case FailSync(entries, k, gone) => FailedSyncKeeps(open, content, before, Acked(init), entries, k, gone);
      case ErrSync(entries, gone) => ErredSyncKeeps(open, content, before, Acked(init), entries, gone);
      case Reopen => ReopenKeeps(open, content, before, Acked(init));
    }
  }

  lemma EmptyInv(open: Opener, content: Contents)
    ensures Inv(open, content, EMPTY, [])
  {
  }

  lemma FailedWriteKeeps(open: Opener, content: Contents, s: Node, acked: seq<Op>)
    requires Inv(open, content, s, acked)
    ensures Inv(open, content, WriteFailed(s), acked)
  {
  }

  /* ---- When the stored files are the checkpoint ---- */

  /** A Sync that wrote its manifest leaves the checkpoint whole, whatever was torn before. */
  lemma SyncIsWhole(content: Contents, s: Node, entries: seq<File>, gone: set<string>, orphans: set<nat>, cut: nat)
    requires Distinct(entries) && Respects(entries, content) && Stored(s.files, s.uploaded, content)
    requires Stale(s, entries, |entries|, gone)
    ensures !Torn(Synced(s, entries, gone, orphans, cut))
  {
    hide Mutable, Numbered, IsCheckpointFile, Synced, AsMap, Stored, StoredAs, Respects, Stale, Names, ManifestNames, Only;
    SyncStores(content, s, entries, gone, orphans, cut);
    DownloadIsCheckpoint(Synced(s, entries, gone, orphans, cut).files, entries);
  }

  /** This file of the new checkpoint has the name of one of the old checkpoint, and other bytes. */
  predicate Overwrites(s: Node, f: File) { f.name in s.snapshot && f.data != s.snapshot[f.name] }

  predicate Changes(s: Node, entries: seq<File>) { exists i :: 0 <= i < |entries| && Overwrites(s, entries[i]) }

  /** A Sync that failed before its manifest tears the checkpoint exactly when it deleted a file that
      the manifest names, or had uploaded one with other bytes. */
  lemma FailedSyncTearsIff(content: Contents, s: Node, entries: seq<File>, k: nat, gone: set<string>)
    requires !Torn(s) && s.snapshot.Keys == ManifestNames(s) && Stored(s.snapshot, ManifestNames(s), content)
    requires Distinct(entries) && Respects(entries, content) && k <= |entries|
    ensures Torn(FilesChanged(s, entries, k, gone)) <==> !(gone !! s.snapshot.Keys) || Changes(s, entries[..k])
  {
    hide Mutable, Numbered, IsCheckpointFile, Uploads, Overwrites, ManifestNames;
    var t, prev := FilesChanged(s, entries, k, gone), s.uploaded;
    var files := Uploads(Shelf(s.files, {}), prev, entries[..k]).files;
    SameManifest(s, t);
    forall f | f in s.snapshot ensures f in s.files && s.files[f] == s.snapshot[f] { assert f in Only(s.files, ManifestNames(s)); }
    if f :| f in gone && f in s.snapshot {
      assert f !in Only(t.files, ManifestNames(t));
    } else if i :| 0 <= i < k && Overwrites(s, entries[..k][i]) {
      var f := entries[i].name;
      UploadedBytes(s.files, prev, entries[..k], f);
      OverwrittenBytes(content, s, entries, k, i);
      assert f in t.files ==> Only(t.files, ManifestNames(t))[f] == files[f];
    } else {
      forall f | f in s.snapshot ensures f in t.files && t.files[f] == s.snapshot[f] {
        UploadedBytes(s.files, prev, entries[..k], f);
        UnchangedBytes(s, entries[..k], f);
      }
      assert Only(t.files, ManifestNames(t)) == s.snapshot;
    }
  }

  /** The file under a name after some uploads. */
  predicate UploadsAt(prev: set<string>, entries: seq<File>, i: int, f: string) {
    0 <= i < |entries| && entries[i].name == f && !(f in prev && !Mutable(f))
  }

  lemma {:induction false} UploadedBytes(files: map<string, bytes>, prev: set<string>, entries: seq<File>, f: string)
    requires Distinct(entries)
    ensures var after := Uploads(Shelf(files, {}), prev, entries).files;
      && (forall i :: UploadsAt(prev, entries, i, f) ==> f in after && after[f] == entries[i].data)
      && ((forall i :: !UploadsAt(prev, entries, i, f)) ==> (f in after <==> f in files) && (f in files ==> after[f] == files[f]))
    decreases |entries|
  {
    hide Mutable, Numbered, IsCheckpointFile;
    if entries != [] {
      var n := |entries| - 1;
      UploadedBytes(files, prev, entries[..n], f);
      assert forall i :: 0 <= i < n ==> (UploadsAt(prev, entries[..n], i, f) <==> UploadsAt(prev, entries, i, f));
      assert entries[n].name == f && !(f in prev && !Mutable(f)) ==> UploadsAt(prev, entries, n, f);
    }
  }

  /** Exactly the numbered files that are already stored are skipped: they keep what is stored, the
      other files of the checkpoint get its bytes, and nothing else changes. */
  lemma IncrementalUpload(files: map<string, bytes>, prev: set<string>, entries: seq<File>, f: string)
    requires Distinct(entries) && (forall e :: e in entries ==> IsCheckpointFile(e.name)) && prev <= files.Keys
    ensures var after := Uploads(Shelf(files, {}), prev, entries).files;
      && (forall e :: e in entries && e.name == f && !(Numbered(f) && f in prev) ==> f in after && after[f] == e.data)
      && (f !in Names(entries) || (Numbered(f) && f in prev) ==>
            (f in after <==> f in files) && (f in files ==> after[f] == files[f]))
  {
    hide Mutable, Numbered, IsCheckpointFile, Uploads;
    UploadedBytes(files, prev, entries, f);
    if f in Names(entries) { MutableIsNotNumbered(f); }
    forall e | e in entries && e.name == f && !(Numbered(f) && f in prev)
      ensures exists i :: 0 <= i < |entries| && entries[i] == e && UploadsAt(prev, entries, i, f)
    {
      var i :| 0 <= i < |entries| && entries[i] == e;
      assert UploadsAt(prev, entries, i, f);
    }
  }

  lemma OverwrittenBytes(content: Contents, s: Node, entries: seq<File>, k: nat, i: nat)
    requires Stored(s.snapshot, s.snapshot.Keys, content) && Respects(entries, content)
    requires k <= |entries| && i < k && Overwrites(s, entries[..k][i])
    ensures entries[i].name in s.snapshot && entries[i].data != s.snapshot[entries[i].name]
    ensures UploadsAt(s.uploaded, entries[..k], i, entries[i].name)
  {
    hide Mutable, Numbered, IsCheckpointFile;
    assert FitsIn(entries[i], content);
    MutableIsNotNumbered(entries[i].name);
  }

  lemma UnchangedBytes(s: Node, entries: seq<File>, f: string)
    requires f in s.snapshot && !Changes(s, entries)
    ensures forall i :: UploadsAt(s.uploaded, entries, i, f) ==> entries[i].data == s.snapshot[f]
  {
    hide Mutable, Numbered, IsCheckpointFile;
    forall i | UploadsAt(s.uploaded, entries, i, f) ensures entries[i].data == s.snapshot[f] {
      assert !Overwrites(s, entries[i]);
    }
  }

  /** Writes and reopening leave the files, the manifest and the checkpoint alone. */
  lemma OthersDoNotTear(open: Opener, s: Node, e: Event)
    requires e.Write? || e.FailWrite? || e.Reopen?
    ensures Torn(After(open, s, e)) <==> Torn(s)
  {
    hide Only;
    SameManifest(s, After(open, s, e));
  }

  /** No Sync has failed since the last one that wrote its manifest. */
  predicate NoFailedSync(events: seq<Event>)
    decreases |events|
  {
    events == [] || events[|events| - 1].Sync? || events[|events| - 1].ErrSync?
    || (!events[|events| - 1].FailSync? && NoFailedSync(events[..|events| - 1]))
  }

  lemma {:induction false} NeverTorn(open: Opener, content: Contents, events: seq<Event>, s: Node)
    requires Runs(open, content, events, s) && NoFailedSync(events)
    ensures !Torn(s)
    decreases |events|
  {
    hide Inv, Torn, Synced, FilesChanged, Distinct, Respects, Stale, AsMap, Stored;
    if events == [] {
      EmptyIsWhole();
    } else {
      var init, e := events[..|events| - 1], events[|events| - 1];
      var before :| Runs(open, content, init, before) && Possible(open, content, before, e) && s == After(open, before, e);
      RunInv(open, content, init, before);
      InvStored(open, content, before, Acked(init));
      if e.Sync? {
        SyncIsWhole(content, before, e.entries, e.gone, e.orphans, e.cut);
      } else if e.ErrSync? {
        SyncIsWhole(content, before, e.entries, e.gone, {}, 0);
        VersionDoesNotTear(Synced(before, e.entries, e.gone, {}, 0), before.version);
      } else {
        NeverTorn(open, content, init, before);
        OthersDoNotTear(open, before, e);
      }
    }
  }

  lemma EmptyIsWhole()
    ensures !Torn(EMPTY)
  {
  }

  lemma VersionDoesNotTear(s: Node, version: nat)
    ensures Torn(s.(version := version)) == Torn(s)
  {
  }

  /** In every run the live database is the acknowledged batches applied in order.  As long as no Sync
      has failed since the last one that wrote its manifest, wherever GC stopped, so is what recovery
      would read back from the object store; after a failed one, as long as it did not tear the
      checkpoint. */
  lemma RecoveryEquality(open: Opener, content: Contents, events: seq<Event>, s: Node)
    requires Runs(open, content, events, s)
    ensures s.db == ApplyOps(map[], Acked(events))
    ensures NoFailedSync(events) || !Torn(s) ==> Recovered(open, s) == ApplyOps(map[], Acked(events))
  {
    RunInv(open, content, events, s);
    if NoFailedSync(events) { NeverTorn(open, content, events, s); }
    if !Torn(s) { NotTorn(open, content, s, Acked(events)); }
  }

  /** In every run uploadedFiles names only stored objects, and the files of a completed manifest
      are all stored. */
  lemma UploadedFilesExist(open: Opener, content: Contents, events: seq<Event>, s: Node)
    requires Runs(open, content, events, s)
    ensures s.uploaded <= s.files.Keys && (!Torn(s) ==> ManifestNames(s) <= s.files.Keys)
  {
    RunInv(open, content, events, s);
    hide Mutable, Numbered, IsCheckpointFile, Runs;
  }

  /** Directly after a Sync that wrote its manifest, each file of the manifest has the checkpoint's
      bytes. */
  lemma ManifestFilesAreCheckpoint(open: Opener, content: Contents, events: seq<Event>, s: Node, i: nat)
    requires events != [] && events[|events| - 1].Sync? && Runs(open, content, events, s)
    requires i < |events[|events| - 1].entries|
    ensures var f := events[|events| - 1].entries[i];
      && s.manifest.Some? && f.name in s.manifest.value.names && f.name in s.files && s.files[f.name] == f.data
  {
    var init, e := events[..|events| - 1], events[|events| - 1];
    var before :| Runs(open, content, init, before) && Possible(open, content, before, e) && s == After(open, before, e);
    hide Mutable, Numbered, IsCheckpointFile, Runs, AsMap, Inv;
    RunInv(open, content, init, before);
    assert Stored(before.files, before.uploaded, content) by { hide Stored; InvStored(open, content, before, Acked(init)); }
    SyncStores(content, before, e.entries, e.gone, e.orphans, e.cut);
    assert ListNames(e.entries)[i] == e.entries[i].name;
  }

  lemma InvStored(open: Opener, content: Contents, s: Node, acked: seq<Op>)
    requires Inv(open, content, s, acked)
    ensures Stored(s.files, s.uploaded, content)
  {
  }

  /** A reopened engine keeps what it acknowledges next, whatever that is, exactly when the log
      still reaches the manifest's MaxWALSeq. */
  lemma ReopenIsSafeIff(open: Opener, s: Node)
    ensures (forall ops :: Recovered(open, Wrote(Reopened(open, s), ops)) == Wrote(Reopened(open, s), ops).db)
        <==> ManifestMax(s) == 0 || exists n :: n in s.wals && n >= ManifestMax(s)
  {
    RestartsAboveIff(s.wals.Keys, ManifestMax(s));
    var r := Reopened(open, s);
    if NextSeqAfter(s.wals.Keys) > ManifestMax(s) {
      forall ops ensures Recovered(open, Wrote(r, ops)) == Wrote(r, ops).db { NextWriteIsRecovered(open, s, ops); }
    } else {
      var ops := Visible(r.db);
      NextWriteIsLost(open, s, ops);
      VisibleChanges(r.db);
      assert Recovered(open, Wrote(r, ops)) != Wrote(r, ops).db;
    }
  }

  /** A batch that changes the database. */
  function Visible(db: DB): seq<Op> { [Set([], if [] in db then db[[]] + [0] else [])] }

  lemma VisibleChanges(db: DB)
    ensures ApplyOps(db, Visible(db)) != db
  {
    ApplyOpsSnoc(db, [], Visible(db)[0]);
    assert [] + [Visible(db)[0]] == Visible(db);
    assert [] in db ==> ApplyOps(db, Visible(db))[[]] != db[[]];
  }

  lemma NextWriteIsRecovered(open: Opener, s: Node, ops: seq<Op>)
    requires NextSeqAfter(s.wals.Keys) > ManifestMax(s)
    ensures Recovered(open, Wrote(Reopened(open, s), ops)) == Wrote(Reopened(open, s), ops).db
  {
    var r := Reopened(open, s);
    var t, base, m, n := Wrote(r, ops), Base(open, s), ManifestMax(s), r.nextSeq;
    LastIs(n, t.wals.Keys);
    ReplayAgrees(base, t.wals, s.wals, m, n);
    ReplayEnds(base, s.wals, m, Last(s.wals.Keys) + 1, n);
  }

  lemma NextWriteIsLost(open: Opener, s: Node, ops: seq<Op>)
    requires NextSeqAfter(s.wals.Keys) <= ManifestMax(s)
    ensures Recovered(open, Wrote(Reopened(open, s), ops)) == Reopened(open, s).db
  {
    var r := Reopened(open, s);
    NothingAbove(Base(open, s), s.wals, ManifestMax(s));
    NothingAbove(Base(open, s), Wrote(r, ops).wals, ManifestMax(s));
  }
}
