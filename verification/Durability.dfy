/** The durability protocol of the engine (pkg/engine/engine.go) on top of the WAL manager's: strong,
    non-async writers, Sync (checkpoint, manifest, GC), crashes and reopening.  A batch is named by
    the incarnation and the record that carried it, so the local database, a checkpoint and a WAL
    object are each described by the set of batches they hold. */
module Durability {
  import opened Bytes
  import Log = WalProtocol
  import opened Wal
  import opened Listing

  datatype Id = Id(epoch: nat, index: nat)

  /** A checkpoint and the MaxWALSeq recorded with it; no manifest reads as (0, {}). */
  datatype Manifest = Manifest(max: nat, ids: set<Id>)

  datatype SyncPhase =
    | Idle
    | Flushed(ids: set<Id>)                  // the memtable has been flushed
    | Captured(ids: set<Id>, max: nat)       // checkpoint taken, maxWALSeq read
    | Collecting                             // manifest written, GC running

  datatype State = State(
    epoch: nat,
    wal: Log.State,
    objects: map<nat, seq<Id>>,   // what each WAL object holds, in order
    data: map<Id, bytes>,         // every batch ever handed to WriteRecord
    db: set<Id>,
    maxSeq: nat,
    applied: set<nat>,            // records whose writer has applied them
    ended: set<nat>,              // records whose writer has returned
    acked: set<Id>,               // batches whose writer returned without error
    manifest: Manifest,
    sync: SyncPhase)

  datatype Event =
    | LogStep(e: Log.Event)       // anything the WAL manager does, except GC
    | Applies(i: nat)             // the writer of record i was told success and applies locally
    | Returns(i: nat)             // ... raises maxWALSeq and acknowledges
    | Fails(i: nat)               // ... or returns an error: failed Put, cancelled, failed apply
    | FlushDb
    | Capture(ids: set<Id>)       // the checkpoint holds what was flushed, perhaps more of the db
    | PutManifest
    | Delete(n: nat)              // GC: covered, or an orphan above MaxWALSeq
    | EndSync                     // success, or an error in any phase
    | Reopen                      // crash, then Open in strong mode

  /* ---- Steps ---- */

  predicate InFlight(s: State, i: nat) { i < |s.wal.records| && i !in s.ended }

  ghost predicate Enabled(s: State, e: Event) {
    match e
    case LogStep(l) => !l.Collect? && Log.Enabled(s.wal, l)
    case Applies(i) => InFlight(s, i) && i !in s.applied && (i, true) in s.wal.acks
    case Returns(i) => InFlight(s, i) && i in s.applied
    case Fails(i) => InFlight(s, i) && i !in s.applied
    case FlushDb => s.sync.Idle?
    case Capture(ids) => s.sync.Flushed? && s.sync.ids <= ids <= s.db
    case PutManifest => s.sync.Captured?
    case Delete(n) => s.sync.Collecting? && n in s.wal.store
    case EndSync => !s.sync.Idle?
    case Reopen => true
  }

  function Ids(epoch: nat, indices: seq<nat>): (ids: seq<Id>)
    ensures |ids| == |indices| && forall k :: 0 <= k < |ids| ==> ids[k] == Id(epoch, indices[k])
  {
    seq(|indices|, k requires 0 <= k < |indices| => Id(epoch, indices[k]))
  }

  ghost function Step(s: State, e: Event): State
    requires Enabled(s, e)
  {
    match e
    case LogStep(l) => AfterLog(s, l)
    case Applies(i) => s.(db := s.db + {Id(s.epoch, i)}, applied := s.applied + {i})
    case Returns(i) =>
      s.(maxSeq := Max(s.maxSeq, s.wal.records[i].number), ended := s.ended + {i}, acked := s.acked + {Id(s.epoch, i)})
    case Fails(i) => s.(ended := s.ended + {i})
    case FlushDb => s.(sync := Flushed(s.db))
    case Capture(ids) => s.(sync := Captured(ids, s.maxSeq))
    case PutManifest => s.(manifest := Manifest(s.sync.max, s.sync.ids), sync := Collecting)
    case Delete(n) => s.(wal := Log.Step(s.wal, Log.Collect(n)), objects := s.objects - {n})
    case EndSync => s.(sync := Idle)
    case Reopen => Reopened(s)
  }

  function AfterLog(s: State, l: Log.Event): State
    requires Log.Enabled(s.wal, l)
  {
    s.(wal := Log.Step(s.wal, l),
       objects := if l.PutEnds? && l.reached
                  then s.objects[l.number := Ids(s.epoch, s.wal.flights[l.number].batch.waiters)] else s.objects,
       data := if l.Take? then s.data[Id(s.epoch, |s.wal.records|) := l.data] else s.data)
  }

  /** A new manager over the objects that are left. */
  ghost function Restarted(w: Log.State): Log.State {
    Log.State(w.direct, Mgr(NextSeqAfter(w.store.Keys), None, false), [], map[], map[], w.store, map[], [], [], Log.Idle)
  }

  /** Checkpoint, then replay of every object above MaxWALSeq; only the store survives. */
  ghost function Reopened(s: State): State {
    State(s.epoch + 1, Restarted(s.wal), s.objects, s.data,
          s.manifest.ids + set n, id | n in s.objects && n > s.manifest.max && id in s.objects[n] :: id,
          Max(s.manifest.max, Last(s.wal.store.Keys)), {}, {}, s.acked, s.manifest, Idle)
  }

  /** A writer that may still acknowledge its batch. */
  predicate Running(s: State, i: nat) { InFlight(s, i) && !Log.Refused(s.wal, i) }

  /** What a run must respect.  A checkpoint holds every batch numbered up to the captured maximum
      that is acknowledged or may still be; GC takes no orphan that holds such a batch, unless the
      manifest's checkpoint has it too; a reopened manager starts above MaxWALSeq. */
  ghost predicate Calm(s: State, e: Event) {
    && (e.Capture? ==> s.acked <= e.ids && CapturesRunning(s, e.ids))
    && (e.Delete? && e.n > s.manifest.max ==> IsOrphan(s, e.n))
    && (e.Reopen? ==> NextSeqAfter(s.wal.store.Keys) > s.manifest.max)
  }

  ghost predicate CapturesRunning(s: State, ids: set<Id>) {
    forall i: nat :: Running(s, i) && s.wal.records[i].number <= s.maxSeq ==> Id(s.epoch, i) in ids
  }

  ghost predicate IsOrphan(s: State, n: nat) {
    && (forall i: nat :: Running(s, i) && s.wal.records[i].number == n ==> Id(s.epoch, i) in s.manifest.ids)
    && (n in s.objects ==> forall id :: id in s.objects[n] && id in s.acked ==> id in s.manifest.ids)
  }

  /** A simple way to respect that: Sync runs with no write in flight. */
  ghost predicate Quiet(s: State, e: Event) {
    && (e.LogStep? && e.e.Take? ==> s.sync.Idle?)
    && (e.FlushDb? ==> forall i :: 0 <= i < |s.wal.records| ==> i in s.ended)
    && (e.Reopen? ==> NextSeqAfter(s.wal.store.Keys) > s.manifest.max)
  }

  ghost predicate Start(s: State) {
    && Log.Start(s.wal) && s.wal.store == map[] && s.objects == map[] && s.data == map[] && s.db == {}
    && s.maxSeq == 0 && s.wal.mgr.nextSeq == 1 && s.applied == {} && s.ended == {} && s.acked == {}
    && s.manifest == Manifest(0, {}) && s.sync.Idle?
  }

  ghost predicate Next(s: State, t: State) { exists e :: Enabled(s, e) && Calm(s, e) && t == Step(s, e) }

  ghost predicate IsRun(run: seq<State>) {
    && run != [] && Start(run[0])
    && forall k :: 0 <= k < |run| - 1 ==> Next(run[k], run[k + 1])
  }

  /* ---- Invariants ---- */

  /** The batch is in the checkpoint of the manifest, or recovery will replay it from the log. */
  ghost predicate Covered(s: State, id: Id) {
    id in s.manifest.ids || exists n :: n in s.objects && n > s.manifest.max && id in s.objects[n]
  }

  ghost predicate Coverage(s: State) { forall id :: id in s.acked ==> Covered(s, id) }

  /** The batches with these names, in order. */
  ghost function DataOf(data: map<Id, bytes>, ids: seq<Id>): (segments: seq<bytes>)
    requires forall id :: id in ids ==> id in data
    ensures |segments| == |ids| && forall k :: 0 <= k < |ids| ==> segments[k] == data[ids[k]]
  {
    seq(|ids|, k requires 0 <= k < |ids| => data[ids[k]])
  }

  /** The object is the merge of the batches it is said to hold. */
  ghost predicate Holds(stored: bytes, data: map<Id, bytes>, ids: seq<Id>) {
    (forall id :: id in ids ==> id in data) && stored == Merged(DataOf(data, ids))
  }

  ghost predicate Faithful(s: State) {
    && s.objects.Keys == s.wal.store.Keys
    && (forall i :: 0 <= i < |s.wal.records| ==> Id(s.epoch, i) in s.data && s.data[Id(s.epoch, i)] == s.wal.records[i].data)
    && (forall n :: n in s.objects ==> Holds(s.wal.store[n], s.data, s.objects[n]))
    && (forall n, i: nat :: n in s.objects && Id(s.epoch, i) in s.objects[n] ==> i < |s.wal.records| && s.wal.records[i].number == n)
    && (forall n, m, id :: n in s.objects && m in s.objects && id in s.objects[n] && id in s.objects[m] ==> n == m)
  }

  /** Nothing knows of a later incarnation, or of a record that was not taken. */
  ghost predicate Known(s: State) {
    && (forall id :: id in s.data ==> id.epoch < s.epoch || (id.epoch == s.epoch && id.index < |s.wal.records|))
    && (forall i :: i in s.applied || i in s.ended ==> i < |s.wal.records|)
    && s.db <= s.data.Keys && s.manifest.ids <= s.data.Keys && s.acked <= s.db
    && s.manifest.ids <= s.db
    && (s.sync.Flushed? || s.sync.Captured? ==> s.manifest.ids <= s.sync.ids <= s.db)
  }

  ghost predicate Numbers(s: State) {
    && s.manifest.max <= s.maxSeq < s.wal.mgr.nextSeq
    && (s.wal.mgr.window.Some? ==> s.maxSeq < s.wal.mgr.window.value.number)
    && (s.sync.Captured? ==> s.manifest.max <= s.sync.max <= s.maxSeq)
  }

  /** The manifest covers the batch of record i as soon as its object is written. */
  ghost predicate Secured(s: State, m: Manifest, i: nat)
    requires i < |s.wal.records|
  {
    var n := s.wal.records[i].number;
    Id(s.epoch, i) in m.ids || (n > m.max && (n in s.wal.landed ==> n in s.objects && Id(s.epoch, i) in s.objects[n]))
  }

  ghost predicate Pending(s: State) {
    && (forall i: nat :: Running(s, i) ==> Secured(s, s.manifest, i))
    && (forall i: nat :: InFlight(s, i) && i in s.applied ==>
          Id(s.epoch, i) in s.db && s.wal.records[i].number in s.wal.landed && (i, true) in s.wal.acks)
  }

  /** Acknowledged batches are written, and numbered up to maxWALSeq. */
  ghost predicate AckedBelow(s: State) {
    && (forall n, id :: n in s.objects && id in s.objects[n] && id in s.acked ==> n <= s.maxSeq)
    && (forall i: nat :: Id(s.epoch, i) in s.acked ==>
          i < |s.wal.records| && s.wal.records[i].number in s.wal.landed && s.wal.records[i].number <= s.maxSeq)
  }

  /** The manifest that is about to be written covers what it has to. */
  ghost predicate Captures(s: State) {
    s.sync.Captured? ==>
      var m := Manifest(s.sync.max, s.sync.ids);
      && (forall id :: id in s.acked ==> Covered(s.(manifest := m), id))
      && (forall i: nat :: Running(s, i) ==> Secured(s, m, i))
  }

  ghost predicate Inv(s: State) {
    && Log.Inv(s.wal) && Log.Fresh(s.wal) && Log.Heard(s.wal)
    && Faithful(s) && Known(s) && Numbers(s) && Pending(s) && AckedBelow(s) && Captures(s) && Coverage(s)
  }

  lemma StartInv(s: State)
    requires Start(s)
    ensures Inv(s)
  {
    Log.StartInv(s.wal);
  }

  /* ---- What the WAL manager's steps do ---- */

  lemma TakeAppends(w: Log.State, l: Log.Event)
    requires Log.Inv(w) && Log.Enabled(w, l) && l.Take?
    ensures var t, n := Log.Step(w, l), if w.mgr.window.Some? then w.mgr.window.value.number else w.mgr.nextSeq;
      && t.records == w.records + [Log.Record(l.data, n)] && n !in w.landed
      && t.landed == w.landed && t.store == w.store
      && t.mgr.nextSeq >= w.mgr.nextSeq && t.mgr.nextSeq > n && (t.mgr.window.Some? ==> t.mgr.window.value.number == n)
  {
    hide Log.HonestAcks, Log.PutOnce, Log.Barrier, Log.Located, Log.GoodBatch, Log.Ordered, Merged;
  }

  lemma OthersKeepRecords(w: Log.State, l: Log.Event)
    requires Log.Enabled(w, l) && !l.Take? && !l.Collect?
    ensures var t := Log.Step(w, l);
      && t.records == w.records && t.mgr.nextSeq == w.mgr.nextSeq && (t.mgr.window.Some? ==> t.mgr.window == w.mgr.window)
      && w.store.Keys <= t.store.Keys
  {
    hide Merged, Accepted;
    OthersKeepObjects(w, l);
  }

  lemma OthersKeepObjects(w: Log.State, l: Log.Event)
    requires Log.Enabled(w, l) && !l.Collect?
    ensures w.store.Keys <= Log.Step(w, l).store.Keys
  {
    hide Merged, Accepted;
  }

  /** A landed object's number lies below the open window's. */
  lemma LandedIsBelow(w: Log.State, n: nat)
    requires Log.Inv(w) && n in w.landed
    ensures n < w.mgr.nextSeq && (w.mgr.window.Some? ==> n < w.mgr.window.value.number)
  {
    hide Log.PutOnce, Log.Barrier, Log.Located, Log.GoodBatch, Log.Ordered, Merged, Log.HonestAcks;
  }

  /** The object a Put writes holds exactly the records with its number. */
  lemma PutHolds(s: State, n: nat, i: nat)
    requires Inv(s) && n in s.wal.flights && i < |s.wal.records|
    ensures s.wal.records[i].number == n <==> Id(s.epoch, i) in Ids(s.epoch, s.wal.flights[n].batch.waiters)
  {
    hide Faithful, Known, Numbers, Pending, Captures, Coverage;
    var b := s.wal.flights[n].batch;
    var ids := Ids(s.epoch, b.waiters);
    Log.WaitersAreAll(s.wal, n, b, i);
    if i in b.waiters {
      var k :| 0 <= k < |b.waiters| && b.waiters[k] == i;
      assert ids[k] == Id(s.epoch, i);
    }
  }

  lemma FlightIsGood(w: Log.State, n: nat)
    requires Log.Inv(w) && n in w.flights
    ensures Log.GoodBatch(w.records, w.flights[n].batch)
  {
    hide Log.PutOnce, Log.Barrier, Log.Located, Log.GoodBatch, Log.Ordered, Merged, Log.HonestAcks, Log.Written,
         Log.Apart;
  }

  /* ---- Steps of the WAL manager ---- */

  /** What a step of the manager other than GC can do to the rest: records and objects are added; a
      new object holds the records with its number, none of them acknowledged yet. */
  ghost predicate Grows(s: State, t: State) {
    && t.epoch == s.epoch && t.manifest == s.manifest && t.sync == s.sync && t.acked == s.acked && t.maxSeq == s.maxSeq
    && t.db == s.db && t.applied == s.applied && t.ended == s.ended
    && s.wal.records <= t.wal.records && s.wal.acks <= t.wal.acks && s.wal.landed.Keys <= t.wal.landed.Keys
    && (forall n :: n in s.objects ==> n in t.objects && t.objects[n] == s.objects[n])
    && (forall n, id :: n in t.objects && n !in s.objects && id in t.objects[n] ==> id !in s.acked)
    && (forall i: nat :: i < |s.wal.records| ==> OldRecord(s, t, i))
    && (forall i: nat :: |s.wal.records| <= i < |t.wal.records| ==>
          t.wal.records[i].number > s.maxSeq && t.wal.records[i].number !in t.wal.landed)
  }

  ghost predicate OldRecord(s: State, t: State, i: nat)
    requires i < |s.wal.records| && s.wal.records <= t.wal.records
  {
    var n := s.wal.records[i].number;
    && (n in t.wal.landed && n !in s.wal.landed ==> n in t.objects && Id(t.epoch, i) in t.objects[n])
    && (Log.Refused(s.wal, i) ==> Log.Refused(t.wal, i))
  }

  lemma StaysSecured(s: State, t: State, m: Manifest, i: nat)
    requires Grows(s, t) && i < |s.wal.records| && Secured(s, m, i)
    ensures Secured(t, m, i)
  {
    assert OldRecord(s, t, i);
  }

  lemma GrowsKeepsPending(s: State, t: State)
    requires Grows(s, t) && Pending(s) && Numbers(s) && Known(s)
    ensures Pending(t)
  {
    hide OldRecord, Secured;
    forall i: nat | Running(t, i) ensures Secured(t, t.manifest, i) { SecuredIfRunning(s, t, t.manifest, i); }
  }

  lemma RunsBefore(s: State, t: State, i: nat)
    requires Grows(s, t) && Running(t, i) && i < |s.wal.records|
    ensures Running(s, i)
  {
    assert OldRecord(s, t, i);
  }

  lemma SecuredIfRunning(s: State, t: State, m: Manifest, i: nat)
    requires Grows(s, t) && Running(t, i) && m.max <= s.maxSeq && (Running(s, i) ==> Secured(s, m, i))
    ensures Secured(t, m, i)
  {
    if i < |s.wal.records| {
      RunsBefore(s, t, i);
      StaysSecured(s, t, m, i);
    }
  }

  lemma GrowsKeepsAcked(s: State, t: State)
    requires Grows(s, t) && AckedBelow(s) && Coverage(s)
    ensures AckedBelow(t) && Coverage(t)
  {
    forall id | id in t.acked ensures Covered(t, id) { assert Covered(s, id); }
  }

  lemma GrowsKeepsCaptures(s: State, t: State)
    requires Grows(s, t) && Captures(s) && Numbers(s)
    ensures Captures(t)
  {
    hide OldRecord, Secured;
    if t.sync.Captured? {
      var m := Manifest(t.sync.max, t.sync.ids);
      forall id | id in t.acked ensures Covered(t.(manifest := m), id) { assert Covered(s.(manifest := m), id); }
      forall i: nat | Running(t, i) ensures Secured(t, m, i) { SecuredIfRunning(s, t, m, i); }
    }
  }

  lemma RefusalsStay(s: State, l: Log.Event)
    requires Inv(s) && Enabled(s, LogStep(l))
    ensures forall i: nat :: i < |s.wal.records| && Log.Refused(s.wal, i) ==>
      i < |Log.Step(s.wal, l).records| && Log.Refused(Log.Step(s.wal, l), i)
    ensures s.wal.records <= Log.Step(s.wal, l).records && s.wal.acks <= Log.Step(s.wal, l).acks
  {
    hide Log.Inv, Log.Step, Log.Enabled;
    Log.RecordsGrow(s.wal, l);
    Log.AcksGrow(s.wal, l);
    forall i: nat | i < |s.wal.records| && Log.Refused(s.wal, i) ensures Log.Refused(Log.Step(s.wal, l), i) {
      Log.RefusedStays(s.wal, l, i);
    }
  }

  lemma TakeGrows(s: State, l: Log.Event)
    requires Inv(s) && Enabled(s, LogStep(l)) && l.Take?
    ensures Grows(s, Step(s, LogStep(l)))
  {
    hide Log.Inv, Log.Fresh, Log.Heard, Log.Step, Log.Enabled, Log.Refused, Holds, Ids, Pending, Captures, Coverage,
         Faithful, AckedBelow;
    TakeAppends(s.wal, l);
    RefusalsStay(s, l);
  }

  lemma PutGrows(s: State, l: Log.Event)
    requires Inv(s) && Enabled(s, LogStep(l)) && l.PutEnds? && l.reached
    ensures Grows(s, Step(s, LogStep(l)))
  {
    hide Log.Inv, Log.Fresh, Log.Heard, Log.Step, Log.Enabled, Log.Refused, Holds, Ids, Pending, Captures, Coverage,
         Numbers, Known;
    OthersKeepRecords(s.wal, l);
    PutWrites(s.wal, l);
    RefusalsStay(s, l);
    var t, n := Step(s, LogStep(l)), l.number;
    NotYetLanded(s.wal, l);
    forall id | id in t.objects[n] ensures id !in s.acked {
      PutNames(s, n, id);
      PutHolds(s, n, id.index);
    }
    forall i: nat | i < |s.wal.records| && s.wal.records[i].number == n
      ensures Id(s.epoch, i) in t.objects[n]
    {
      PutHolds(s, n, i);
    }
    FaithfulKeys(s);
  }

  lemma NotYetLanded(w: Log.State, l: Log.Event)
    requires Log.Heard(w) && Log.Enabled(w, l) && l.PutEnds?
    ensures l.number !in w.landed
  {
  }

  /** The batch in a flight belongs to this incarnation. */
  lemma PutNames(s: State, n: nat, id: Id)
    requires Inv(s) && n in s.wal.flights && id in Ids(s.epoch, s.wal.flights[n].batch.waiters)
    ensures id.epoch == s.epoch && id.index < |s.wal.records|
  {
    hide Log.Inv, Faithful, Known, Numbers, Pending, Captures, Coverage, AckedBelow;
    FlightIsGood(s.wal, n);
  }

  lemma OtherLogGrows(s: State, l: Log.Event)
    requires Inv(s) && Enabled(s, LogStep(l)) && !l.Take? && !(l.PutEnds? && l.reached)
    ensures Grows(s, Step(s, LogStep(l)))
  {
    hide Log.Inv, Log.Fresh, Log.Heard, Log.Step, Log.Enabled, Log.Refused, Holds, Pending, Captures, Coverage,
         Faithful, AckedBelow;
    OthersKeepRecords(s.wal, l);
    Log.OnlyPutsWrite(s.wal, l);
    RefusalsStay(s, l);
  }

  lemma LogKeeps(s: State, l: Log.Event)
    requires Inv(s) && Enabled(s, LogStep(l))
    ensures Inv(Step(s, LogStep(l)))
  {
    hide Log.Inv, Log.Fresh, Log.Heard, Log.Step, Log.Enabled, Pending, Captures, Coverage, Faithful, AckedBelow,
         Numbers, Known, Grows;
    var t := Step(s, LogStep(l));
    Log.StepKeepsInv(s.wal, l);
    Log.StepFresh(s.wal, l);
    Log.StepHeard(s.wal, l);
    if l.Take? {
      TakeGrows(s, l);
      TakeIsKnown(s, l);
    } else if l.PutEnds? && l.reached {
      PutGrows(s, l);
      PutIsFaithful(s, l);
      OtherIsKnown(s, l);
    } else {
      OtherLogGrows(s, l);
      OtherIsFaithful(s, l);
      OtherIsKnown(s, l);
    }
    GrowsKeepsPending(s, t);
    GrowsKeepsAcked(s, t);
    GrowsKeepsCaptures(s, t);
  }

  lemma TakeIsKnown(s: State, l: Log.Event)
    requires Inv(s) && Enabled(s, LogStep(l)) && l.Take?
    ensures Faithful(Step(s, LogStep(l))) && Known(Step(s, LogStep(l))) && Numbers(Step(s, LogStep(l)))
  {
    hide Log.Inv, Log.Fresh, Log.Heard, Log.Step, Log.Enabled, Ids, Pending, Coverage, Captures, Holds, AckedBelow;
    TakeAppends(s.wal, l);
    var t, id := Step(s, LogStep(l)), Id(s.epoch, |s.wal.records|);
    assert id !in s.data;
    forall n | n in t.objects ensures Holds(t.wal.store[n], t.data, t.objects[n]) {
      MoreData(s.wal.store[n], s.data, s.objects[n], id, l.data);
    }
    forall n, i: nat | n in t.objects && Id(s.epoch, i) in t.objects[n] ensures i < |s.wal.records| {}
  }

  lemma MoreData(stored: bytes, data: map<Id, bytes>, ids: seq<Id>, id: Id, d: bytes)
    requires Holds(stored, data, ids) && id !in data
    ensures Holds(stored, data[id := d], ids)
  {
    assert DataOf(data[id := d], ids) == DataOf(data, ids);
  }

  lemma OtherIsKnown(s: State, l: Log.Event)
    requires Inv(s) && Enabled(s, LogStep(l)) && !l.Take?
    ensures Known(Step(s, LogStep(l))) && Numbers(Step(s, LogStep(l)))
  {
    hide Log.Inv, Log.Fresh, Log.Heard, Log.Step, Log.Enabled, Ids, Pending, Coverage, Captures, Holds, AckedBelow,
         Faithful;
    OthersKeepRecords(s.wal, l);
  }

  lemma OtherIsFaithful(s: State, l: Log.Event)
    requires Inv(s) && Enabled(s, LogStep(l)) && !l.Take? && !(l.PutEnds? && l.reached)
    ensures Faithful(Step(s, LogStep(l)))
  {
    hide Log.Inv, Log.Fresh, Log.Heard, Log.Step, Log.Enabled, Pending, Coverage, Captures, Holds, AckedBelow, Known,
         Numbers;
    OthersKeepRecords(s.wal, l);
    Log.OnlyPutsWrite(s.wal, l);
  }

  lemma FaithfulKeys(s: State)
    requires Faithful(s)
    ensures s.objects.Keys == s.wal.store.Keys
  {
  }

  lemma PutWrites(w: Log.State, l: Log.Event)
    requires Log.Inv(w) && Log.Fresh(w) && Log.Enabled(w, l) && l.PutEnds? && l.reached
    ensures var t, d := Log.Step(w, l), Merged(w.flights[l.number].batch.segments);
      && l.number in w.flights && l.number !in w.store && t.store == w.store[l.number := d] && t.landed == w.landed[l.number := d]
  {
    hide Merged, Log.Inv;
  }

  /** The waiters of a batch name the data of its segments. */
  lemma WaitersHold(s: State, n: nat)
    requires Inv(s) && n in s.wal.flights
    ensures Holds(Merged(s.wal.flights[n].batch.segments), s.data, Ids(s.epoch, s.wal.flights[n].batch.waiters))
  {
    hide Log.Inv, Log.Fresh, Log.Heard, Known, Numbers, Pending, Captures, Coverage, Merged, AckedBelow;
    FlightIsGood(s.wal, n);
    var b := s.wal.flights[n].batch;
    var ids := Ids(s.epoch, b.waiters);
    forall k | 0 <= k < |ids| ensures ids[k] in s.data && s.data[ids[k]] == b.segments[k] {
      assert s.wal.records[b.waiters[k]].data == b.segments[k];
    }
    assert DataOf(s.data, ids) == b.segments;
  }

  lemma PutIsFaithful(s: State, l: Log.Event)
    requires Inv(s) && Enabled(s, LogStep(l)) && l.PutEnds? && l.reached
    ensures Faithful(Step(s, LogStep(l)))
  {
    hide Log.Inv, Log.Fresh, Log.Heard, Log.Step, Log.Enabled, Holds, Numbers, Pending, Coverage, Known, Captures,
         Merged, Ids, AckedBelow;
    OthersKeepRecords(s.wal, l);
    PutWrites(s.wal, l);
    WaitersHold(s, l.number);
    var t, n := Step(s, LogStep(l)), l.number;
    forall id | id in t.objects[n] ensures id.epoch == s.epoch && id.index < |s.wal.records| && s.wal.records[id.index].number == n {
      PutNames(s, n, id);
      PutHolds(s, n, id.index);
    }
  }

  lemma HeldIsKnown(stored: bytes, data: map<Id, bytes>, ids: seq<Id>, id: Id)
    requires Holds(stored, data, ids) && id in ids
    ensures id in data
  {
  }

  /* ---- Writers, Sync, GC and reopening ---- */

  lemma WriterKeeps(s: State, e: Event)
    requires Inv(s) && Enabled(s, e) && (e.Applies? || e.Returns? || e.Fails?)
    ensures Inv(Step(s, e))
  {
    hide Log.Inv, Log.Fresh, Log.Heard, Log.Step, Log.Enabled, Log.Refused, Holds, Covered, Captures, Coverage,
         AckedBelow, Secured;
    if e.Applies? { Log.AckedIsLanded(s.wal, e.i); }
    if e.Returns? { LandedIsBelow(s.wal, s.wal.records[e.i].number); }
    WriterCovers(s, e);
    WriterCaptures(s, e);
    WriterSecures(s, e);
  }

  lemma WriterSecures(s: State, e: Event)
    requires Inv(s) && Enabled(s, e) && (e.Applies? || e.Returns? || e.Fails?)
    ensures forall i: nat :: Running(Step(s, e), i) ==> Secured(Step(s, e), s.manifest, i)
  {
    hide Log.Inv, Log.Fresh, Log.Heard, Log.Refused, Holds, Captures, Coverage, AckedBelow, Known, Faithful, Numbers;
    forall i: nat | Running(Step(s, e), i) ensures Secured(Step(s, e), s.manifest, i) { assert Running(s, i); }
  }

  lemma ReturnsSecured(s: State, i: nat)
    requires Inv(s) && Enabled(s, Returns(i))
    ensures Running(s, i) && s.wal.records[i].number in s.wal.landed
  {
    hide Log.Inv, Log.Fresh, Log.Heard, Log.Refused, Holds, Captures, Coverage, AckedBelow, Known, Faithful, Numbers,
         Secured;
    Log.ToldIsNotRefused(s.wal, i);
  }

  lemma WriterCovers(s: State, e: Event)
    requires Inv(s) && Enabled(s, e) && (e.Applies? || e.Returns? || e.Fails?)
    ensures Coverage(Step(s, e)) && AckedBelow(Step(s, e))
  {
    hide Log.Inv, Log.Fresh, Log.Heard, Log.Step, Log.Enabled, Log.Refused, Holds, Known, Numbers, Captures;
    var t := Step(s, e);
    if e.Returns? { ReturnsSecured(s, e.i); }
    forall id | id in t.acked ensures Covered(t, id) { if id in s.acked { assert Covered(s, id); } }
  }

  lemma WriterCaptures(s: State, e: Event)
    requires Inv(s) && Enabled(s, e) && (e.Applies? || e.Returns? || e.Fails?)
    ensures Captures(Step(s, e))
  {
    hide Log.Inv, Log.Fresh, Log.Heard, Log.Step, Log.Enabled, Log.Refused, Holds, Known, Coverage, Faithful,
         AckedBelow;
    var t := Step(s, e);
    if e.Returns? { ReturnsSecured(s, e.i); }
    if s.sync.Captured? {
      var m := Manifest(s.sync.max, s.sync.ids);
      forall id | id in t.acked ensures Covered(t.(manifest := m), id) {
        if id in s.acked { assert Covered(s.(manifest := m), id); }
      }
      forall i: nat | Running(t, i) ensures Secured(t, m, i) { assert Running(s, i) && Secured(s, m, i); }
    }
  }

  lemma SyncKeeps(s: State, e: Event)
    requires Inv(s) && Enabled(s, e) && Calm(s, e) && (e.FlushDb? || e.Capture? || e.PutManifest? || e.EndSync?)
    ensures Inv(Step(s, e))
  {
    hide Log.Inv, Log.Fresh, Log.Heard, Log.Step, Log.Enabled, Log.Refused, Holds, Captures, Coverage, Secured;
    SyncCovers(s, e);
    SyncCaptures(s, e);
  }

  lemma SyncCovers(s: State, e: Event)
    requires Inv(s) && Enabled(s, e) && (e.FlushDb? || e.Capture? || e.PutManifest? || e.EndSync?)
    ensures Coverage(Step(s, e))
    ensures forall i: nat :: Running(Step(s, e), i) ==> Secured(Step(s, e), Step(s, e).manifest, i)
  {
    hide Log.Inv, Log.Fresh, Log.Heard, Log.Step, Log.Enabled, Log.Refused, Holds, Known, Numbers, AckedBelow, Faithful;
    var t := Step(s, e);
    forall id | id in t.acked ensures Covered(t, id) {
      assert Covered(s, id);
      if e.PutManifest? { assert Covered(s.(manifest := t.manifest), id); }
    }
    forall i: nat | Running(t, i) ensures Secured(t, t.manifest, i) { assert Running(s, i); }
  }

  lemma SyncCaptures(s: State, e: Event)
    requires Inv(s) && Enabled(s, e) && Calm(s, e) && (e.FlushDb? || e.Capture? || e.PutManifest? || e.EndSync?)
    ensures Captures(Step(s, e))
  {
    hide Log.Inv, Log.Fresh, Log.Heard, Log.Step, Log.Enabled, Log.Refused, Holds, Numbers, AckedBelow, Faithful,
         Coverage;
    var t := Step(s, e);
    if e.Capture? {
      var m := Manifest(t.sync.max, t.sync.ids);
      forall id | id in t.acked ensures Covered(t.(manifest := m), id) {}
      forall i: nat | Running(t, i) ensures Secured(t, m, i) { assert Running(s, i) && Secured(s, s.manifest, i); }
    }
  }

  lemma DeleteKeeps(s: State, e: Event)
    requires Inv(s) && Enabled(s, e) && Calm(s, e) && e.Delete?
    ensures Inv(Step(s, e))
  {
    hide Log.Inv, Log.Fresh, Log.Heard, Log.Step, Log.Enabled, Log.Refused, Holds, Captures, Secured, Coverage;
    CollectOnlyDeletes(s.wal, e.n);
    Log.StepKeepsInv(s.wal, Log.Collect(e.n));
    Log.StepFresh(s.wal, Log.Collect(e.n));
    Log.StepHeard(s.wal, Log.Collect(e.n));
    DeleteCovers(s, e);
  }

  lemma DeleteCovers(s: State, e: Event)
    requires Inv(s) && Enabled(s, e) && Calm(s, e) && e.Delete?
    ensures Coverage(Step(s, e)) && Captures(Step(s, e))
    ensures forall i: nat :: Running(Step(s, e), i) ==> Secured(Step(s, e), s.manifest, i)
  {
    hide Log.Inv, Log.Fresh, Log.Heard, Log.Step, Log.Enabled, Holds, Known, Numbers, AckedBelow, Faithful;
    CollectOnlyDeletes(s.wal, e.n);
    var t := Step(s, e);
    forall id | id in t.acked ensures Covered(t, id) {
      assert Covered(s, id);
      if id !in s.manifest.ids {
        var n :| n in s.objects && n > s.manifest.max && id in s.objects[n];
        assert n in t.objects && id in t.objects[n];
      }
    }
    forall i: nat | Running(t, i) ensures Secured(t, s.manifest, i) { assert Running(s, i); }
  }

  lemma CollectOnlyDeletes(w: Log.State, n: nat)
    requires n in w.store
    ensures Log.Enabled(w, Log.Collect(n)) && Log.Step(w, Log.Collect(n)) == w.(store := w.store - {n})
  {
  }

  lemma RestartIsFresh(w: Log.State)
    ensures Log.Inv(Restarted(w)) && Log.Fresh(Restarted(w)) && Log.Heard(Restarted(w))
  {
    hide Log.Inv;
    Log.StartInv(Restarted(w));
  }

  lemma ReopenKeeps(s: State)
    requires Inv(s) && Calm(s, Reopen)
    ensures Inv(Reopened(s))
  {
    hide Log.Inv, Log.Fresh, Log.Heard, Log.Step, Holds, Log.Enabled;
    RestartIsFresh(s.wal);
    var t := Reopened(s);
    forall id | id in t.acked ensures Covered(t, id) && id in t.db { assert Covered(s, id); }
    forall n, id | n in s.objects && id in s.objects[n]
      ensures id in s.data
    {
      HeldIsKnown(s.wal.store[n], s.data, s.objects[n], id);
    }
  }

  lemma StepKeepsInv(s: State, e: Event)
    requires Inv(s) && Enabled(s, e) && Calm(s, e)
    ensures Inv(Step(s, e))
  {
    hide Inv;
    match e
    case LogStep(l) => LogKeeps(s, l);
    case Applies(_) => WriterKeeps(s, e);
    case Returns(_) => WriterKeeps(s, e);
    case Fails(_) => WriterKeeps(s, e);
    case Delete(_) => DeleteKeeps(s, e);
    case Reopen => ReopenKeeps(s);
    case _ => SyncKeeps(s, e);
  }

  lemma {:induction false} RunInv(run: seq<State>, k: nat)
    requires IsRun(run) && k < |run|
    ensures Inv(run[k])
  {
    hide Inv, Start, Step, Enabled, Calm;
    if k == 0 {
      StartInv(run[0]);
    } else {
      RunInv(run, k - 1);
      assert Next(run[k - 1], run[k - 1 + 1]);
      var e :| Enabled(run[k - 1], e) && Calm(run[k - 1], e) && run[k] == Step(run[k - 1], e);
      StepKeepsInv(run[k - 1], e);
    }
  }

  /* ---- Quiet runs ---- */

  /** What a Sync with no write in flight has secured so far. */
  ghost predicate Syncing(s: State) {
    && (!s.sync.Idle? ==> forall i :: 0 <= i < |s.wal.records| ==> i in s.ended)
    && (s.sync.Flushed? || s.sync.Captured? ==> s.acked <= s.sync.ids)
    && (s.sync.Collecting? ==> s.acked <= s.manifest.ids)
  }

  lemma QuietIsCalm(s: State, e: Event)
    requires Inv(s) && Syncing(s) && Enabled(s, e) && Quiet(s, e)
    ensures Calm(s, e)
  {
    hide Log.Inv, Log.Fresh, Log.Heard, Log.Step, Log.Enabled, Holds, Pending, Coverage, Captures, Faithful;
  }

  lemma QuietKeepsSyncing(s: State, e: Event)
    requires Inv(s) && Syncing(s) && Enabled(s, e) && Quiet(s, e)
    ensures Syncing(Step(s, e))
  {
    hide Log.Inv, Log.Fresh, Log.Heard, Log.Step, Log.Enabled, Holds, Pending, Coverage, Captures, Faithful;
    if e.LogStep? && !e.e.Take? { OthersKeepRecords(s.wal, e.e); }
    if e.Delete? { CollectOnlyDeletes(s.wal, e.n); }
  }

  ghost predicate QuietNext(s: State, t: State) { exists e :: Enabled(s, e) && Quiet(s, e) && t == Step(s, e) }

  ghost predicate IsQuietRun(run: seq<State>) {
    && run != [] && Start(run[0])
    && forall k :: 0 <= k < |run| - 1 ==> QuietNext(run[k], run[k + 1])
  }

  lemma {:induction false} QuietRunInv(run: seq<State>, k: nat)
    requires IsQuietRun(run) && k < |run|
    ensures Inv(run[k]) && Syncing(run[k]) && (k > 0 ==> Next(run[k - 1], run[k]))
  {
    hide Inv, Step, Enabled, Calm, Quiet, Syncing;
    if k == 0 {
      StartInv(run[0]);
      StartSyncing(run[0]);
    } else {
      QuietRunInv(run, k - 1);
      assert QuietNext(run[k - 1], run[k - 1 + 1]);
      var e :| Enabled(run[k - 1], e) && Quiet(run[k - 1], e) && run[k] == Step(run[k - 1], e);
      QuietIsCalm(run[k - 1], e);
      QuietKeepsSyncing(run[k - 1], e);
      StepKeepsInv(run[k - 1], e);
    }
  }

  lemma StartSyncing(s: State)
    requires Start(s)
    ensures Syncing(s)
  {
  }

  /** Runs whose Syncs meet no write in flight respect everything that coverage needs. */
  lemma QuietRunsAreRuns(run: seq<State>)
    requires IsQuietRun(run)
    ensures IsRun(run)
  {
    hide Start, QuietNext, Next;
    forall k | 0 <= k < |run| - 1 ensures Next(run[k], run[k + 1]) { QuietRunInv(run, k + 1); }
  }

  /* ---- What every run guarantees ---- */

  /** An acknowledged batch is in the manifest's checkpoint, or its bytes are in a stored WAL object
      above MaxWALSeq; and it is readable locally. */
  lemma AckedIsDurable(run: seq<State>, k: nat, id: Id)
    requires IsRun(run) && k < |run| && id in run[k].acked
    ensures var s := run[k];
      && id in s.db && id in s.data
      && (|| id in s.manifest.ids
          || exists n :: n in s.wal.store && n > s.manifest.max && n in s.objects && id in s.objects[n]
                         && Holds(s.wal.store[n], s.data, s.objects[n]))
  {
    hide IsRun, Holds, Log.Inv, Log.Fresh, Numbers, Pending, Captures;
    RunInv(run, k);
    assert Covered(run[k], id);
  }

  /** Whatever happens before it, reopening brings every acknowledged batch back. */
  lemma ReopenRestores(run: seq<State>, k: nat)
    requires IsRun(run) && k < |run|
    ensures run[k].acked <= Reopened(run[k]).db
  {
    hide IsRun, Holds, Log.Inv, Log.Fresh, Numbers, Pending, Captures, Faithful, Known;
    RunInv(run, k);
    forall id | id in run[k].acked ensures id in Reopened(run[k]).db { assert Covered(run[k], id); }
  }

  /* ---- Every condition is needed ---- */

  /** Steps of the code alone, without the assumption. */
  ghost predicate CodeNext(s: State, t: State) { exists e :: Enabled(s, e) && t == Step(s, e) }

  ghost predicate CodePath(path: seq<State>) { path != [] && forall k :: 0 <= k < |path| - 1 ==> CodeNext(path[k], path[k + 1]) }

  ghost predicate CalmPath(path: seq<State>) { path != [] && forall k :: 0 <= k < |path| - 1 ==> Next(path[k], path[k + 1]) }

  /** An open manager with an empty window, and nothing known of the record to come. */
  ghost predicate Open(s: State) {
    && !s.wal.mgr.closed && s.wal.mgr.window.None?
    && |s.wal.records| !in s.applied && |s.wal.records| !in s.ended
  }

  /** The stages of one write that succeeds: taken, put, notified, applied, returned. */
  ghost function Taken(s: State, data: bytes): State {
    var i, n, w := |s.wal.records|, s.wal.mgr.nextSeq, s.wal;
    var f := Log.Flight(Batch(n, [data], [i]), if w.direct then Log.Writer else Log.Timer, Log.Putting);
    s.(wal := w.(mgr := w.mgr.(nextSeq := n + 1), records := w.records + [Log.Record(data, n)],
                 flights := w.flights[n := f], puts := w.puts + [n]),
       data := s.data[Id(s.epoch, i) := data])
  }

  lemma TakeRuns(s: State, data: bytes) returns (path: seq<State>)
    requires Open(s)
    ensures CalmPath(path) && path[0] == s && path[|path| - 1] == Taken(s, data)
  {
    var e := LogStep(Log.Take(data));
    var t := Step(s, e);
    assert Enabled(s, e) && Calm(s, e);
    if s.wal.direct {
      assert t == Taken(s, data);
      path := [s, t];
    } else {
      var f := LogStep(Log.TimerFires);
      assert Enabled(t, f) && Calm(t, f);
      assert [] + [data] == [data] && [] + [|s.wal.records|] == [|s.wal.records|];
      assert Step(t, f) == Taken(s, data);
      path := [s, t, Taken(s, data)];
    }
  }

  ghost function Finished(s: State, data: bytes): State {
    var i, n, t := |s.wal.records|, s.wal.mgr.nextSeq, Taken(s, data);
    var w, id := t.wal, Id(s.epoch, i);
    t.(wal := w.(flights := w.flights[n := w.flights[n].(phase := Log.Notifying(true, 1))],
                 store := w.store[n := data], landed := w.landed[n := data], acks := w.acks + [(i, true)]),
       objects := s.objects[n := [id]], db := s.db + {id}, maxSeq := Max(s.maxSeq, n),
       applied := s.applied + {i}, ended := s.ended + {i}, acked := s.acked + {id})
  }

  /** Put, notification, apply, return. */
  lemma PutRuns(s: State, data: bytes) returns (path: seq<State>)
    requires Open(s)
    ensures CalmPath(path) && path[0] == Taken(s, data) && path[|path| - 1] == Finished(s, data)
  {
    var t := Taken(s, data);
    var e := LogStep(Log.PutEnds(s.wal.mgr.nextSeq, true, true));
    assert Calm(t, e) && Step(t, e) == Put(s, data) by { assert Ids(s.epoch, [|s.wal.records|]) == [Id(s.epoch, |s.wal.records|)]; }
    path := TellRuns(s, data);
    path := JoinCalm([t, Put(s, data)], path);
  }

  ghost function Put(s: State, data: bytes): State {
    var n, t := s.wal.mgr.nextSeq, Taken(s, data);
    var w := t.wal;
    t.(wal := w.(flights := w.flights[n := w.flights[n].(phase := Log.Notifying(true, 0))],
                 store := w.store[n := data], landed := w.landed[n := data]),
       objects := s.objects[n := [Id(s.epoch, |s.wal.records|)]])
  }

  lemma TellRuns(s: State, data: bytes) returns (path: seq<State>)
    requires Open(s)
    ensures CalmPath(path) && path[0] == Put(s, data) && path[|path| - 1] == Finished(s, data)
  {
    var p, q := Put(s, data), Told(s, data);
    NotifyRuns(s, data);
    path := ReturnRuns(s, data);
    path := JoinCalm([p, q], path);
  }

  ghost function Told(s: State, data: bytes): State {
    var n, p := s.wal.mgr.nextSeq, Put(s, data);
    var w := p.wal;
    p.(wal := w.(flights := w.flights[n := w.flights[n].(phase := Log.Notifying(true, 1))],
                 acks := w.acks + [(|s.wal.records|, true)]))
  }

  lemma NotifyRuns(s: State, data: bytes)
    ensures Next(Put(s, data), Told(s, data))
  {
    var p, f := Put(s, data), LogStep(Log.Notify(s.wal.mgr.nextSeq));
    assert Enabled(p, f) && Calm(p, f);
    assert Step(p, f) == Told(s, data);
  }

  lemma ReturnRuns(s: State, data: bytes) returns (path: seq<State>)
    requires Open(s)
    ensures CalmPath(path) && path[0] == Told(s, data) && path[|path| - 1] == Finished(s, data)
  {
    var i, q := |s.wal.records|, Told(s, data);
    assert q.wal.acks[|s.wal.acks|] == (i, true);
    var a, b := Step(q, Applies(i)), Step(Step(q, Applies(i)), Returns(i));
    assert Calm(q, Applies(i)) && Calm(a, Returns(i));
    path := [q, a, b];
    assert b.wal.flights == Finished(s, data).wal.flights;
  }

  lemma JoinCalm(p: seq<State>, q: seq<State>) returns (r: seq<State>)
    requires CalmPath(p) && CalmPath(q) && p[|p| - 1] == q[0]
    ensures CalmPath(r) && r[0] == p[0] && r[|r| - 1] == q[|q| - 1]
  {
    r := p + q[1..];
    forall k | 0 <= k < |r| - 1 ensures Next(r[k], r[k + 1]) {
      if k < |p| - 1 { assert Next(p[k], p[k + 1]); } else { assert Next(q[k - |p| + 1], q[k - |p| + 1 + 1]); }
    }
  }

  lemma JoinCode(p: seq<State>, q: seq<State>) returns (r: seq<State>)
    requires CodePath(p) && CodePath(q) && p[|p| - 1] == q[0]
    ensures CodePath(r) && r[0] == p[0] && r[|r| - 1] == q[|q| - 1]
  {
    r := p + q[1..];
    forall k | 0 <= k < |r| - 1 ensures CodeNext(r[k], r[k + 1]) {
      if k < |p| - 1 { assert CodeNext(p[k], p[k + 1]); } else { assert CodeNext(q[k - |p| + 1], q[k - |p| + 1 + 1]); }
    }
  }

  lemma CalmIsCode(p: seq<State>)
    requires CalmPath(p)
    ensures CodePath(p)
  {
    forall k | 0 <= k < |p| - 1 ensures CodeNext(p[k], p[k + 1]) { assert Next(p[k], p[k + 1]); }
  }

  /** Nothing that can happen after s breaks coverage. */
  ghost predicate Safe(s: State) { forall path :: path != [] && CalmPath(path) && path[0] == s ==> Coverage(path[|path| - 1]) }

  lemma {:induction false} CalmPathInv(path: seq<State>, k: nat)
    requires CalmPath(path) && Inv(path[0]) && k < |path|
    ensures Inv(path[k])
  {
    hide Inv, Step, Enabled, Calm;
    if k > 0 {
      CalmPathInv(path, k - 1);
      assert Next(path[k - 1], path[k - 1 + 1]);
      var e :| Enabled(path[k - 1], e) && Calm(path[k - 1], e) && path[k] == Step(path[k - 1], e);
      StepKeepsInv(path[k - 1], e);
    }
  }

  /** Reopening is safe exactly when the log still reaches the manifest's MaxWALSeq: a manager that
      starts over at or below it loses the first write it acknowledges. */
  lemma ReopenIsSafeIff(s: State)
    requires Inv(s)
    ensures Safe(Reopened(s)) <==> s.manifest.max == 0 || exists n :: n in s.wal.store && n >= s.manifest.max
  {
    hide Inv, CalmPath, Coverage;
    RestartsAboveIff(s.wal.store.Keys, s.manifest.max);
    if NextSeqAfter(s.wal.store.Keys) > s.manifest.max {
      ReopenKeeps(s);
      forall path | path != [] && CalmPath(path) && path[0] == Reopened(s) ensures Coverage(path[|path| - 1]) {
        PathIsCovered(path);
      }
    } else {
      var path := LowRestartLoses(s);
    }
  }

  lemma PathIsCovered(path: seq<State>)
    requires CalmPath(path) && Inv(path[0])
    ensures path != [] && Coverage(path[|path| - 1])
  {
    CalmPathInv(path, |path| - 1);
  }

  lemma LowRestartLoses(s: State) returns (path: seq<State>)
    requires Inv(s) && NextSeqAfter(s.wal.store.Keys) <= s.manifest.max
    ensures path != [] && CalmPath(path) && path[0] == Reopened(s) && !Coverage(path[|path| - 1])
  {
    var r := Reopened(s);
    var p := TakeRuns(r, []);
    var q := PutRuns(r, []);
    path := JoinCalm(p, q);
    hide Log.Inv, Log.Fresh, CalmPath;
    var t, id := Finished(r, []), Id(r.epoch, 0);
    assert id !in s.data;
    assert !Covered(t, id);
    assert id in t.acked;
  }

  lemma NotCovered(s: State, id: Id)
    requires id in s.acked && !Covered(s, id)
    ensures !Coverage(s)
  {
  }

  /** A write that runs inside a Sync, after the memtable flush, is acknowledged and lost. */
  lemma RacingSyncLoses(s: State) returns (path: seq<State>)
    requires Inv(s) && s.sync.Idle? && !s.wal.mgr.closed && s.wal.mgr.window.None?
    ensures CodePath(path) && path[0] == s && !Coverage(path[|path| - 1])
  {
    var f := Step(s, FlushDb);
    var p := TakeRuns(f, []);
    var q := PutRuns(f, []);
    var t, id := Finished(f, []), Id(s.epoch, |s.wal.records|);
    var c := Step(t, Capture(s.db));
    var m := Step(c, PutManifest);
    assert CodeNext(s, f) && CodeNext(t, c) && CodeNext(c, m);
    CalmIsCode(p);
    CalmIsCode(q);
    path := JoinCode([s, f], p);
    path := JoinCode(path, q);
    path := JoinCode(path, [t, c, m]);
    hide CodePath, Log.Inv, Log.Fresh;
    assert !Covered(m, id);
    assert id in m.acked;
  }

  /* ---- The conditions are exact ---- */

  /** A running writer whose batch neither the manifest nor any object above MaxWALSeq will hold. */
  ghost predicate Doomed(s: State, i: nat) {
    && Log.Inv(s.wal) && Log.Heard(s.wal) && Running(s, i) && !Log.InWindow(s.wal, i)
    && (i in s.applied ==> (i, true) in s.wal.acks)
    && Id(s.epoch, i) !in s.manifest.ids
    && (forall n :: n in s.objects && Id(s.epoch, i) in s.objects[n] ==> n <= s.manifest.max)
    && (s.wal.records[i].number <= s.manifest.max || s.wal.records[i].number in s.wal.landed)
  }

  /** It can still acknowledge the batch, and then the batch is not covered. */
  lemma DoomedIsLost(s: State, i: nat) returns (path: seq<State>)
    requires Doomed(s, i)
    ensures path != [] && CalmPath(path) && path[0] == s && !Coverage(path[|path| - 1])
  {
    hide Log.Inv, Log.Heard, CalmPath, Coverage;
    var n := s.wal.records[i].number;
    if n in s.wal.flights && s.wal.flights[n].phase.Putting? {
      var t := DoomedPut(s, i);
      OneStep(s, t);
      path := DoomedHears(t, i);
      path := JoinCalm([s, t], path);
    } else {
      path := DoomedHears(s, i);
    }
  }

  lemma DoomedPut(s: State, i: nat) returns (t: State)
    requires Doomed(s, i) && s.wal.records[i].number in s.wal.flights &&
             s.wal.flights[s.wal.records[i].number].phase.Putting?
    ensures Next(s, t) && Doomed(t, i)
    ensures var n := s.wal.records[i].number; t.wal.records[i].number == n && (n in t.wal.flights ==> !t.wal.flights[n].phase.Putting?)
  {
    hide Log.Inv, Log.Heard, Merged, Ids;
    var n := s.wal.records[i].number;
    var l := Log.PutEnds(n, true, true);
    assert Enabled(s, LogStep(l)) && Calm(s, LogStep(l));
    t := Step(s, LogStep(l));
    Log.StepKeepsInv(s.wal, l);
    Log.StepHeard(s.wal, l);
    NotYetLanded(s.wal, l);
    assert n <= s.manifest.max;
  }

  lemma {:induction false} DoomedHears(s: State, i: nat) returns (path: seq<State>)
    requires Doomed(s, i)
    requires var n := s.wal.records[i].number; n in s.wal.flights ==> !s.wal.flights[n].phase.Putting?
    ensures path != [] && CalmPath(path) && path[0] == s && !Coverage(path[|path| - 1])
    decreases Untold(s, i)
  {
    hide Doomed, CalmPath, Coverage, Next;
    DoomedRuns(s, i);
    if (i, true) in s.wal.acks {
      path := DoomedReturns(s, i);
    } else {
      var t := DoomedNotified(s, i);
      OneStep(s, t);
      path := DoomedHears(t, i);
      path := JoinCalm([s, t], path);
    }
  }

  lemma OneStep(s: State, t: State)
    requires Next(s, t)
    ensures CalmPath([s, t])
  {
  }

  lemma DoomedRuns(s: State, i: nat)
    requires Doomed(s, i)
    ensures i < |s.wal.records|
  {
  }

  /** The notifications that the record's batch still has to send. */
  ghost function Untold(s: State, i: nat): int {
    if i < |s.wal.records| && s.wal.records[i].number in s.wal.flights && s.wal.flights[s.wal.records[i].number].phase.Notifying? then
      var f := s.wal.flights[s.wal.records[i].number];
      if f.phase.told <= |f.batch.waiters| then |f.batch.waiters| - f.phase.told else 0
    else 0
  }

  /** A batch past its Put that has not failed: its writer has heard, or is among those to come. */
  lemma StillToHear(w: Log.State, i: nat)
    requires Log.Inv(w) && Log.Heard(w) && i < |w.records| && !Log.Refused(w, i) && !Log.InWindow(w, i) &&
             (i, true) !in w.acks
    requires var n := w.records[i].number; n in w.flights ==> !w.flights[n].phase.Putting?
    ensures var n := w.records[i].number;
      n in w.flights && w.flights[n].phase == Log.Notifying(true, w.flights[n].phase.told)
      && w.flights[n].phase.told < |w.flights[n].batch.waiters|
  {
    hide Log.HonestAcks, Log.Written, Log.PutOnce, Log.Barrier, Log.Ordered, Log.GoodBatch, Log.Apart;
    assert Log.InFlight(w, i);
  }

  lemma DoomedNotified(s: State, i: nat) returns (t: State)
    requires Doomed(s, i) && (i, true) !in s.wal.acks
    requires var n := s.wal.records[i].number; n in s.wal.flights ==> !s.wal.flights[n].phase.Putting?
    ensures Next(s, t) && Doomed(t, i) && Untold(t, i) < Untold(s, i)
    ensures var n := t.wal.records[i].number; n in t.wal.flights ==> !t.wal.flights[n].phase.Putting?
  {
    hide Log.Inv, Log.Heard, Merged, Ids, Log.InWindow, Untold;
    StillToHear(s.wal, i);
    var l := Log.Notify(s.wal.records[i].number);
    assert Enabled(s, LogStep(l)) && Calm(s, LogStep(l));
    t := Step(s, LogStep(l));
    Log.StepKeepsInv(s.wal, l);
    Log.StepHeard(s.wal, l);
    NotifyOnlyTells(s.wal, l.number);
    FewerUntold(s, t, i);
    hide Log.Step;
  }

  lemma NotifyOnlyTells(w: Log.State, n: nat)
    requires Log.Enabled(w, Log.Notify(n))
    ensures var t, f := Log.Step(w, Log.Notify(n)), w.flights[n];
      && t == w.(acks := t.acks, flights := w.flights[n := f.(phase := Log.Notifying(f.phase.ok, f.phase.told + 1))])
      && w.acks <= t.acks
    ensures forall i: nat :: i < |w.records| ==>
      && Log.Refused(Log.Step(w, Log.Notify(n)), i) == Log.Refused(w, i)
      && Log.InWindow(Log.Step(w, Log.Notify(n)), i) == Log.InWindow(w, i)
  {
  }

  lemma FewerUntold(s: State, t: State, i: nat)
    requires i < |s.wal.records| && t.wal.records == s.wal.records
    requires var n := s.wal.records[i].number;
      && n in s.wal.flights && s.wal.flights[n].phase.Notifying? && s.wal.flights[n].phase.told < |s.wal.flights[n].batch.waiters|
      && n in t.wal.flights && t.wal.flights[n].batch == s.wal.flights[n].batch
      && t.wal.flights[n].phase == Log.Notifying(s.wal.flights[n].phase.ok, s.wal.flights[n].phase.told + 1)
    ensures 0 <= Untold(t, i) < Untold(s, i)
  {
  }

  lemma DoomedReturns(s: State, i: nat) returns (path: seq<State>)
    requires Doomed(s, i) && (i, true) in s.wal.acks
    ensures path != [] && CalmPath(path) && path[0] == s && !Coverage(path[|path| - 1])
  {
    hide Log.Inv, Log.Heard, Log.Refused, Log.InWindow, Coverage;
    var id := Id(s.epoch, i);
    var a := s;
    path := [s];
    if i !in s.applied {
      a := Step(s, Applies(i));
      assert Enabled(s, Applies(i)) && Calm(s, Applies(i));
      path := [s, a];
    }
    var t := Step(a, Returns(i));
    assert Enabled(a, Returns(i)) && Calm(a, Returns(i));
    assert Next(a, t);
    path := path + [t];
    assert !Covered(t, id);
    NotCovered(t, id);
  }

  /** A checkpoint is safe exactly when it holds every batch numbered up to the captured maximum that
      is acknowledged or not yet refused. */
  lemma CaptureIsSafeIff(s: State, ids: set<Id>)
    requires Inv(s) && Enabled(s, Capture(ids))
    ensures Safe(Step(s, Capture(ids))) <==> Calm(s, Capture(ids))
  {
    hide Inv, Doomed, Coverage, Covered;
    var c := Step(s, Capture(ids));
    var m := Step(c, PutManifest);
    assert Enabled(c, PutManifest) && Calm(c, PutManifest) && Next(c, m);
    if Calm(s, Capture(ids)) {
      StepIsSafe(s, Capture(ids));
    } else if id :| id in s.acked && id !in ids {
      AckedOutside(s, m, id);
      NotCovered(m, id);
      assert CalmPath([c, m]) && !Safe(c);
    } else {
      var i: nat :| Running(s, i) && s.wal.records[i].number <= s.maxSeq && Id(s.epoch, i) !in ids;
      CapturedIsDoomed(s, m, i);
      var path := DoomedIsLost(m, i);
      path := JoinCalm([c, m], path);
      assert !Safe(c);
    }
  }

  lemma StepIsSafe(s: State, e: Event)
    requires Inv(s) && Enabled(s, e) && Calm(s, e)
    ensures Safe(Step(s, e))
  {
    StepKeepsInv(s, e);
    hide Inv, CalmPath, Coverage, Step, Calm, Enabled;
    forall path | path != [] && CalmPath(path) && path[0] == Step(s, e)
      ensures Coverage(path[|path| - 1])
    {
      PathIsCovered(path);
    }
  }

  lemma AckedOutside(s: State, m: State, id: Id)
    requires Inv(s) && id in s.acked && s.sync.Flushed? && m.objects == s.objects && m.manifest.max == s.maxSeq &&
             id !in m.manifest.ids
    ensures !Covered(m, id)
  {
    hide Log.Inv, Log.Fresh, Log.Heard, Pending, Captures, Coverage, Faithful, Known, Numbers;
  }

  lemma CapturedIsDoomed(s: State, m: State, i: nat)
    requires Inv(s) && Running(s, i) && s.wal.records[i].number <= s.maxSeq
    requires m == s.(manifest := m.manifest, sync := m.sync) && m.manifest.max == s.maxSeq &&
             Id(s.epoch, i) !in m.manifest.ids
    ensures Doomed(m, i)
  {
    NotInWindow(s, i);
    hide Log.Inv, Log.Fresh, Log.Heard, Captures, Coverage, Known, Holds, Log.Refused, Log.InWindow, AckedBelow,
         Secured;
  }

  lemma NotInWindow(s: State, i: nat)
    requires Inv(s) && i < |s.wal.records| &&
             (s.wal.records[i].number <= s.maxSeq || s.wal.records[i].number in s.wal.store)
    ensures !Log.InWindow(s.wal, i)
  {
    hide Captures, Coverage, Known, Faithful, Pending, AckedBelow, Log.HonestAcks, Log.Written, Log.PutOnce,
         Log.Barrier, Log.Ordered, Log.Apart;
  }

  /** A deletion is safe exactly when the object is numbered up to MaxWALSeq, or holds no batch that
      is acknowledged or not yet refused and that the manifest's checkpoint lacks. */
  lemma DeleteIsSafeIff(s: State, n: nat)
    requires Inv(s) && Enabled(s, Delete(n))
    ensures Safe(Step(s, Delete(n))) <==> Calm(s, Delete(n))
  {
    hide Inv, Doomed, Coverage, Covered;
    var t := Step(s, Delete(n));
    if Calm(s, Delete(n)) {
      StepIsSafe(s, Delete(n));
    } else if i: nat :| Running(s, i) && s.wal.records[i].number == n && Id(s.epoch, i) !in s.manifest.ids {
      DeletedIsDoomed(s, n, i);
      var path := DoomedIsLost(t, i);
      assert !Safe(t);
    } else {
      var id :| id in s.objects[n] && id in s.acked && id !in s.manifest.ids;
      DeletedIsUncovered(s, n, id);
      NotCovered(t, id);
      assert CalmPath([t]) && !Safe(t);
    }
  }

  lemma DeletedIsDoomed(s: State, n: nat, i: nat)
    requires Inv(s) && Enabled(s, Delete(n)) && Running(s, i) && s.wal.records[i].number == n &&
             Id(s.epoch, i) !in s.manifest.ids
    ensures Doomed(Step(s, Delete(n)), i)
  {
    hide Log.Inv, Log.Fresh, Log.Heard, Log.Step, Captures, Coverage, Known, Holds, AckedBelow, Secured, Numbers;
    CollectOnlyDeletes(s.wal, n);
    Log.StepKeepsInv(s.wal, Log.Collect(n));
    Log.StepHeard(s.wal, Log.Collect(n));
    NotInWindow(s, i);
    StoredIsLanded(s, n, i);
  }

  /** An object with a running record's number is the one its batch wrote. */
  lemma StoredIsLanded(s: State, n: nat, i: nat)
    requires Inv(s) && Running(s, i) && s.wal.records[i].number == n && n in s.wal.store
    ensures n in s.wal.landed
  {
    hide Captures, Coverage, Known, Faithful, Pending, AckedBelow, Numbers, Log.HonestAcks, Log.PutOnce, Log.Barrier,
         Log.Ordered, Log.Heard;
    NotInWindow(s, i);
    assert Log.InWindow(s.wal, i) || Log.InFlight(s.wal, i) || Log.IsSettled(s.wal, i);
  }

  lemma DeletedIsUncovered(s: State, n: nat, id: Id)
    requires Inv(s) && Enabled(s, Delete(n)) && n in s.objects && id in s.objects[n] && id !in s.manifest.ids
    ensures !Covered(Step(s, Delete(n)), id)
  {
    hide Log.Inv, Log.Fresh, Log.Heard, Log.Step, Pending, Captures, Coverage, Known, AckedBelow, Numbers, Holds;
  }

  lemma ReopenStep(s: State)
    ensures Enabled(s, Reopen) && Step(s, Reopen) == Reopened(s)
  {
  }

  /** In every state that a run can reach, a step keeps coverage safe, whatever follows it under the
      same conditions, exactly when it meets its condition. */
  lemma CalmIsExact(s: State, e: Event)
    requires Inv(s) && Enabled(s, e)
    ensures Safe(Step(s, e)) <==> Calm(s, e)
  {
    hide Inv, Safe, Step, Enabled;
    match e
    case Capture(ids) => CaptureIsSafeIff(s, ids);
    case Delete(n) => DeleteIsSafeIff(s, n);
    case Reopen =>
      ReopenIsSafeIff(s);
      RestartsAboveIff(s.wal.store.Keys, s.manifest.max);
      ReopenStep(s);
    case _ => StepIsSafe(s, e);
  }

  /* ---- The order of local application ---- */

  /** These writers have been told success and have not applied yet. */
  ghost predicate ReadyToApply(s: State, order: seq<nat>) {
    forall j :: 0 <= j < |order| ==> InFlight(s, order[j]) && order[j] !in s.applied && (order[j], true) in s.wal.acks
  }

  ghost predicate NoRepeats(order: seq<nat>) { forall i, j :: 0 <= i < j < |order| ==> order[i] != order[j] }

  /** The path applies the records in this order, one after the other. */
  ghost predicate AppliesInOrder(path: seq<State>, order: seq<nat>) {
    && |path| == |order| + 1
    && forall j :: 0 <= j < |order| ==> Enabled(path[j], Applies(order[j])) && path[j + 1] == Step(path[j], Applies(order[j]))
  }

  lemma {:induction false} ReadyApplies(s: State, order: seq<nat>) returns (path: seq<State>)
    requires ReadyToApply(s, order) && NoRepeats(order)
    ensures CalmPath(path) && path[0] == s && AppliesInOrder(path, order)
    decreases |order|
  {
    path := [s];
    if order != [] {
      var e := Applies(order[0]);
      assert Enabled(s, e) && Calm(s, e);
      var t := Step(s, e);
      assert forall j :: 0 <= j < |order[1..]| ==> order[1..][j] == order[j + 1];
      var rest := ReadyApplies(t, order[1..]);
      path := [s] + rest;
      assert Next(s, t);
      assert forall j :: 0 <= j < |rest| ==> path[j + 1] == rest[j];
      forall j | 0 <= j < |path| - 1 ensures Next(path[j], path[j + 1]) { if j > 0 { assert Next(rest[j - 1], rest[j - 1 + 1]); } }
    }
  }

  /** The writers of a stored window can apply in every order. */
  lemma WindowAppliesInAnyOrder(s: State, n: nat, order: seq<nat>) returns (path: seq<State>)
    requires Inv(s) && n in s.wal.settled && s.wal.settled[n].ok && NoRepeats(order)
    requires forall i :: i in order ==> i in s.wal.settled[n].batch.waiters && InFlight(s, i) && i !in s.applied
    ensures CalmPath(path) && path[0] == s && AppliesInOrder(path, order)
  {
    hide CalmPath, AppliesInOrder, NoRepeats;
    var b := s.wal.settled[n].batch;
    assert Log.HasHeard(s.wal, b, true, |b.waiters|) by { hide Log.Inv, Log.Fresh, Faithful, Known, Captures, Coverage; }
    forall j | 0 <= j < |order| ensures (order[j], true) in s.wal.acks {
      assert order[j] in order;
      var k :| 0 <= k < |b.waiters| && b.waiters[k] == order[j];
    }
    path := ReadyApplies(s, order);
  }
}
