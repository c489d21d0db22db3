/** The WAL manager as a concurrent protocol (pkg/walcloud/manager.go).  An event is one critical
    section or one completed object-store call, so every interleaving of WriteRecord, timer
    flushes, Flush, Close and GC deletions is a sequence of events. */
module WalProtocol {
  import opened Bytes
  import opened Wal

  /** A record that WriteRecord took, and the sequence number it returned. */
  datatype Record = Record(data: bytes, number: nat)

  /** Who runs the Put: the timer's goroutine, Flush itself, or a direct writer. */
  datatype Owner = Timer | Flusher | Writer

  datatype Phase = Putting | Notifying(ok: bool, told: nat)

  datatype Flight = Flight(batch: Batch, owner: Owner, phase: Phase)

  datatype Outcome = Outcome(batch: Batch, ok: bool)

  /** Flush holds flushMu: in its own Put, or waiting for the timer's goroutines.  mark is the
      number of records taken before it cut the window. */
  datatype FlushCall = Idle | InPut(mark: nat, number: nat) | InWait(mark: nat)

  datatype State = State(
    direct: bool,                    // batching disabled
    mgr: Mgr,
    records: seq<Record>,            // in the order they were taken
    flights: map<nat, Flight>,       // by sequence number
    settled: map<nat, Outcome>,
    store: map<nat, bytes>,          // the WAL objects that exist
    landed: map<nat, bytes>,         // the WAL objects that were ever written by this manager
    puts: seq<nat>,                  // the Puts that were started
    acks: seq<(nat, bool)>,          // notifications: record, success
    flush: FlushCall)

  datatype Event =
    | Take(data: bytes)                               // WriteRecord
    | TimerFires                                      // flushPending, also of a stopped timer
    | FlushCalled
    | PutEnds(number: nat, ok: bool, reached: bool)   // a failed Put may or may not have reached the store
    | Notify(number: nat)
    | Finish(number: nat)
    | FlushReturns
    | CloseCalled
    | Collect(number: nat)                            // GC deletes an object

  /* ---- Steps ---- */

  predicate Enabled(s: State, e: Event) {
    match e
    case Take(_) => !s.mgr.closed
    case TimerFires => !s.direct
    case FlushCalled => s.flush.Idle?
    case PutEnds(n, ok, reached) => n in s.flights && s.flights[n].phase.Putting? && (ok ==> reached)
    case Notify(n) =>
      n in s.flights && s.flights[n].phase.Notifying? && s.flights[n].phase.told < |s.flights[n].batch.waiters|
    case Finish(n) =>
      n in s.flights && s.flights[n].phase.Notifying? && s.flights[n].phase.told == |s.flights[n].batch.waiters|
    case FlushReturns => s.flush.InWait? && forall n :: n in s.flights ==> !s.flights[n].owner.Timer?
    case CloseCalled => true
    case Collect(n) => n in s.store
  }

  /** A cut window becomes a flight, and its Put starts. */
  function Launch(s: State, b: Batch, owner: Owner): State {
    s.(flights := s.flights[b.number := Flight(b, owner, Putting)], puts := s.puts + [b.number])
  }

  function Step(s: State, e: Event): State
    requires Enabled(s, e)
  {
    match e
    case Take(data) =>
      var i := |s.records|;
      if s.direct then
        var n := s.mgr.nextSeq;
        Launch(s.(mgr := s.mgr.(nextSeq := n + 1), records := s.records + [Record(data, n)]), Batch(n, [data], [i]), Writer)
      else
        s.(mgr := Accepted(s.mgr, data, i), records := s.records + [Record(data, SequenceFor(s.mgr))])
    case TimerFires =>
      if s.mgr.window.None? then s
      else Launch(s.(mgr := WithoutWindow(s.mgr)), s.mgr.window.value, Timer)
    case FlushCalled =>
      if s.mgr.window.None? then s.(flush := InWait(|s.records|))
      else Launch(s.(mgr := WithoutWindow(s.mgr), flush := InPut(|s.records|, s.mgr.window.value.number)), s.mgr.window.value, Flusher)
    case PutEnds(n, ok, reached) =>
      var f := s.flights[n];
      var data := Merged(f.batch.segments);
      var t := s.(flights := s.flights[n := f.(phase := Notifying(ok, 0))]);
      if reached then t.(store := t.store[n := data], landed := t.landed[n := data]) else t
    case Notify(n) =>
      var f := s.flights[n];
      s.(acks := s.acks + [(f.batch.waiters[f.phase.told], f.phase.ok)],
         flights := s.flights[n := f.(phase := Notifying(f.phase.ok, f.phase.told + 1))])
    case Finish(n) =>
      var f := s.flights[n];
      s.(flights := s.flights - {n}, settled := s.settled[n := Outcome(f.batch, f.phase.ok)],
         flush := if f.owner.Flusher? && s.flush.InPut? then InWait(s.flush.mark) else s.flush)
    case FlushReturns => s.(flush := Idle)
    case CloseCalled => s.(mgr := s.mgr.(closed := true))
    case Collect(n) => s.(store := s.store - {n})
  }

  /** NewManager over the objects that already exist. */
  ghost predicate Start(s: State) {
    && s.mgr.window.None? && !s.mgr.closed && s.records == [] && s.flights == map[] && s.settled == map[]
    && s.landed == map[] && s.puts == [] && s.acks == [] && s.flush.Idle?
    && forall n :: n in s.store ==> n < s.mgr.nextSeq
  }

  ghost predicate Next(s: State, t: State) { exists e :: Enabled(s, e) && t == Step(s, e) }

  /** A run of the manager, from its creation on. */
  ghost predicate IsRun(run: seq<State>) {
    && run != [] && Start(run[0])
    && forall i :: 0 <= i < |run| - 1 ==> Next(run[i], run[i + 1])
  }

  /* ---- Invariants ---- */

  /** Waiters are records of this batch, in order, next to their segments. */
  ghost predicate GoodBatch(records: seq<Record>, b: Batch) {
    && |b.segments| == |b.waiters| > 0
    && (forall k :: 0 <= k < |b.waiters| ==>
          b.waiters[k] < |records| && records[b.waiters[k]] == Record(b.segments[k], b.number))
    && (forall j, k :: 0 <= j < k < |b.waiters| ==> b.waiters[j] < b.waiters[k])
  }

  ghost predicate GoodBatches(s: State) {
    && (s.mgr.window.Some? ==>
          GoodBatch(s.records, s.mgr.window.value) && s.mgr.window.value.number + 1 == s.mgr.nextSeq && !s.direct)
    && (forall n :: n in s.flights ==>
          GoodBatch(s.records, s.flights[n].batch) && s.flights[n].batch.number == n < s.mgr.nextSeq)
    && (forall n :: n in s.settled ==>
          GoodBatch(s.records, s.settled[n].batch) && s.settled[n].batch.number == n < s.mgr.nextSeq)
  }

  /** A sequence number names at most one batch. */
  ghost predicate Apart(s: State) {
    && (s.mgr.window.Some? ==> s.mgr.window.value.number !in s.flights && s.mgr.window.value.number !in s.settled)
    && (forall n :: n in s.flights ==> n !in s.settled)
  }

  predicate InWindow(s: State, i: nat) { s.mgr.window.Some? && i in s.mgr.window.value.waiters }
  predicate InFlight(s: State, i: nat)
    requires i < |s.records|
  {
    s.records[i].number in s.flights && i in s.flights[s.records[i].number].batch.waiters
  }
  predicate IsSettled(s: State, i: nat)
    requires i < |s.records|
  {
    s.records[i].number in s.settled && i in s.settled[s.records[i].number].batch.waiters
  }

  ghost predicate Located(s: State) {
    forall i :: 0 <= i < |s.records| ==> InWindow(s, i) || InFlight(s, i) || IsSettled(s, i)
  }

  /** Sequence numbers follow the order in which records are taken. */
  ghost predicate Ordered(s: State) {
    && (forall i :: 0 <= i < |s.records| ==> s.records[i].number < s.mgr.nextSeq)
    && (forall i, j :: 0 <= i < j < |s.records| ==> s.records[i].number <= s.records[j].number)
  }

  /** A notification agrees with the fate of its batch. */
  ghost predicate Told(s: State, a: (nat, bool)) {
    && a.0 < |s.records|
    && var n := s.records[a.0].number;
       || (n in s.settled && s.settled[n].ok == a.1)
       || (n in s.flights && s.flights[n].phase.Notifying? && s.flights[n].phase.ok == a.1
           && exists k :: 0 <= k < s.flights[n].phase.told && k < |s.flights[n].batch.waiters| && s.flights[n].batch.waiters[k] == a.0)
  }

  ghost predicate HonestAcks(s: State) {
    && (forall k :: 0 <= k < |s.acks| ==> Told(s, s.acks[k]))
    && (forall j, k :: 0 <= j < k < |s.acks| ==> s.acks[j].0 != s.acks[k].0)
  }

  /** A successful Put has left the batch's merged data; what exists was written or was there. */
  ghost predicate Written(s: State) {
    && (forall n :: n in s.settled && s.settled[n].ok ==> n in s.landed)
    && (forall n :: n in s.flights && s.flights[n].phase.Notifying? && s.flights[n].phase.ok ==> n in s.landed)
    && (forall n :: n in s.landed ==>
          || (n in s.settled && s.landed[n] == Merged(s.settled[n].batch.segments))
          || (n in s.flights && s.landed[n] == Merged(s.flights[n].batch.segments)))
  }

  ghost predicate PutOnce(s: State) {
    && (forall k :: 0 <= k < |s.puts| ==> s.puts[k] in s.flights || s.puts[k] in s.settled)
    && (forall j, k :: 0 <= j < k < |s.puts| ==> s.puts[j] != s.puts[k])
  }

  /** What a running Flush still has to wait for. */
  ghost predicate Barrier(s: State) {
    && (!s.direct ==> forall n :: n in s.flights ==> !s.flights[n].owner.Writer?)
    && (forall n :: n in s.flights && s.flights[n].owner.Flusher? ==> s.flush.InPut? && s.flush.number == n)
    && (!s.flush.Idle? && !s.direct ==> s.flush.mark <= |s.records| && forall i :: 0 <= i < s.flush.mark ==> !InWindow(s, i))
  }

  ghost predicate Inv(s: State) {
    GoodBatches(s) && Apart(s) && Located(s) && Ordered(s) && HonestAcks(s) && Written(s) && PutOnce(s) && Barrier(s)
  }

  lemma StartInv(s: State)
    requires Start(s)
    ensures Inv(s)
  {
  }

  /* ---- Each event keeps the invariants ---- */

  lemma MoreRecords(records: seq<Record>, r: Record, b: Batch)
    requires GoodBatch(records, b)
    ensures GoodBatch(records + [r], b)
  {
  }

  lemma OneMoreWaiter(records: seq<Record>, data: bytes, b: Batch)
    requires GoodBatch(records, b) || b == Batch(b.number, [], [])
    ensures GoodBatch(records + [Record(data, b.number)], Batch(b.number, b.segments + [data], b.waiters + [|records|]))
  {
  }

  lemma TakeKeepsBatches(s: State, e: Event)
    requires Inv(s) && e.Take? && Enabled(s, e)
    ensures GoodBatches(Step(s, e)) && Apart(Step(s, e)) && Ordered(Step(s, e))
  {
    hide Merged, HonestAcks, Located, Barrier, GoodBatch, PutOnce, Written;
    var r := Record(e.data, if s.direct then s.mgr.nextSeq else SequenceFor(s.mgr));
    forall b | GoodBatch(s.records, b) ensures GoodBatch(s.records + [r], b) { MoreRecords(s.records, r, b); }
    var empty := Batch(s.mgr.nextSeq, [], []);
    OneMoreWaiter(s.records, e.data, if s.mgr.window.Some? then s.mgr.window.value else empty);
    assert [] + [e.data] == [e.data] && [] + [|s.records|] == [|s.records|];
  }

  lemma TakeKeepsPuts(s: State, e: Event)
    requires Inv(s) && e.Take? && Enabled(s, e)
    ensures PutOnce(Step(s, e)) && Written(Step(s, e))
  {
    hide Merged, HonestAcks, Located, Barrier, GoodBatch, Ordered;
  }

  lemma TakeKeepsAcks(s: State, e: Event)
    requires Inv(s) && e.Take? && Enabled(s, e)
    ensures HonestAcks(Step(s, e))
  {
    hide Merged, Written, Located, Barrier, Ordered, PutOnce, GoodBatch;
    forall k | 0 <= k < |s.acks| ensures Told(Step(s, e), s.acks[k]) { assert Told(s, s.acks[k]); }
  }

  lemma TakeKeepsPlaces(s: State, e: Event)
    requires Inv(s) && e.Take? && Enabled(s, e)
    ensures Located(Step(s, e)) && Barrier(Step(s, e))
  {
    hide Merged, HonestAcks, Written, PutOnce;
    var t := Step(s, e);
    forall i | 0 <= i < |t.records| ensures InWindow(t, i) || InFlight(t, i) || IsSettled(t, i) {
      if i < |s.records| { assert InWindow(s, i) || InFlight(s, i) || IsSettled(s, i); }
    }
    if !t.flush.Idle? && !t.direct {
      forall i | 0 <= i < t.flush.mark
        ensures !InWindow(t, i)
      {
        assert InWindow(s, i) || InFlight(s, i) || IsSettled(s, i);
      }
    }
  }

  lemma CutKeepsBatches(s: State, e: Event)
    requires Inv(s) && (e.TimerFires? || e.FlushCalled?) && Enabled(s, e)
    ensures GoodBatches(Step(s, e)) && Apart(Step(s, e)) && Ordered(Step(s, e))
  {
    hide Merged, HonestAcks, Located, Barrier, GoodBatch, Written, PutOnce;
  }

  lemma CutKeepsPuts(s: State, e: Event)
    requires Inv(s) && (e.TimerFires? || e.FlushCalled?) && Enabled(s, e)
    ensures PutOnce(Step(s, e))
  {
    hide Merged, HonestAcks, Located, Barrier, GoodBatch, Written, Ordered;
  }

  lemma CutKeepsWritten(s: State, e: Event)
    requires Inv(s) && (e.TimerFires? || e.FlushCalled?) && Enabled(s, e)
    ensures Written(Step(s, e))
  {
    hide Merged, HonestAcks, Located, Barrier, GoodBatch, PutOnce, Ordered;
  }

  lemma CutKeepsAcks(s: State, e: Event)
    requires Inv(s) && (e.TimerFires? || e.FlushCalled?) && Enabled(s, e)
    ensures HonestAcks(Step(s, e))
  {
    hide Merged, Written, Located, Barrier, Ordered, PutOnce, GoodBatch;
    forall k | 0 <= k < |s.acks| ensures Told(Step(s, e), s.acks[k]) { assert Told(s, s.acks[k]); }
  }

  lemma CutKeepsPlaces(s: State, e: Event)
    requires Inv(s) && (e.TimerFires? || e.FlushCalled?) && Enabled(s, e)
    ensures Located(Step(s, e))
  {
    hide Merged, HonestAcks, Written, PutOnce, Barrier;
    var t := Step(s, e);
    forall i | 0 <= i < |t.records| ensures InWindow(t, i) || InFlight(t, i) || IsSettled(t, i) {
      assert InWindow(s, i) || InFlight(s, i) || IsSettled(s, i);
    }
  }

  lemma CutKeepsBarrier(s: State, e: Event)
    requires Inv(s) && (e.TimerFires? || e.FlushCalled?) && Enabled(s, e)
    ensures Barrier(Step(s, e))
  {
    hide Merged, HonestAcks, Written, PutOnce, Located, GoodBatch, Ordered;
  }

  lemma PutKeepsBatches(s: State, e: Event)
    requires Inv(s) && e.PutEnds? && Enabled(s, e)
    ensures GoodBatches(Step(s, e)) && Apart(Step(s, e)) && Ordered(Step(s, e))
  {
    hide Merged, HonestAcks, Located, Barrier, GoodBatch, Written, PutOnce;
  }

  lemma PutKeepsPuts(s: State, e: Event)
    requires Inv(s) && e.PutEnds? && Enabled(s, e)
    ensures PutOnce(Step(s, e))
  {
    hide Merged, HonestAcks, Located, Barrier, GoodBatch, Written, Ordered;
  }

  lemma PutKeepsWritten(s: State, e: Event)
    requires Inv(s) && e.PutEnds? && Enabled(s, e)
    ensures Written(Step(s, e))
  {
    hide Merged, HonestAcks, Located, Barrier, GoodBatch, PutOnce, Ordered;
  }

  lemma PutKeepsAcks(s: State, e: Event)
    requires Inv(s) && e.PutEnds? && Enabled(s, e)
    ensures HonestAcks(Step(s, e))
  {
    hide Merged, Written, Located, Barrier, Ordered, PutOnce, GoodBatch;
    forall k | 0 <= k < |s.acks| ensures Told(Step(s, e), s.acks[k]) { assert Told(s, s.acks[k]); }
  }

  lemma PutKeepsPlaces(s: State, e: Event)
    requires Inv(s) && e.PutEnds? && Enabled(s, e)
    ensures Located(Step(s, e)) && Barrier(Step(s, e))
  {
    hide Merged, HonestAcks, Written, PutOnce, GoodBatch;
    var t := Step(s, e);
    forall i | 0 <= i < |t.records| ensures InWindow(t, i) || InFlight(t, i) || IsSettled(t, i) {
      if i < |s.records| { assert InWindow(s, i) || InFlight(s, i) || IsSettled(s, i); }
    }
    if !t.flush.Idle? && !t.direct {
      forall i | 0 <= i < t.flush.mark
        ensures !InWindow(t, i)
      {
        assert InWindow(s, i) || InFlight(s, i) || IsSettled(s, i);
      }
    }
  }

  lemma NotifyKeepsBatches(s: State, e: Event)
    requires Inv(s) && e.Notify? && Enabled(s, e)
    ensures GoodBatches(Step(s, e)) && Apart(Step(s, e)) && Ordered(Step(s, e)) && PutOnce(Step(s, e)) &&
            Written(Step(s, e))
  {
    hide Merged, HonestAcks, Located, Barrier, GoodBatch;
  }

  lemma NotifyKeepsAcks(s: State, e: Event)
    requires Inv(s) && e.Notify? && Enabled(s, e)
    ensures HonestAcks(Step(s, e))
  {
    hide Merged, Written, Located, Barrier, Ordered, PutOnce;
    var t, f := Step(s, e), s.flights[e.number];
    var i := f.batch.waiters[f.phase.told];
    forall k | 0 <= k < |s.acks| ensures Told(t, s.acks[k]) && s.acks[k].0 != i { assert Told(s, s.acks[k]); }
    assert t.flights[e.number].batch.waiters[f.phase.told] == i;
    assert Told(t, (i, f.phase.ok));
  }

  lemma NotifyKeepsPlaces(s: State, e: Event)
    requires Inv(s) && e.Notify? && Enabled(s, e)
    ensures Located(Step(s, e)) && Barrier(Step(s, e))
  {
    hide Merged, HonestAcks, Written, PutOnce, GoodBatch;
    var t := Step(s, e);
    forall i | 0 <= i < |t.records| ensures InWindow(t, i) || InFlight(t, i) || IsSettled(t, i) {
      if i < |s.records| { assert InWindow(s, i) || InFlight(s, i) || IsSettled(s, i); }
    }
    if !t.flush.Idle? && !t.direct {
      forall i | 0 <= i < t.flush.mark
        ensures !InWindow(t, i)
      {
        assert InWindow(s, i) || InFlight(s, i) || IsSettled(s, i);
      }
    }
  }

  lemma FinishKeepsBatches(s: State, e: Event)
    requires Inv(s) && e.Finish? && Enabled(s, e)
    ensures GoodBatches(Step(s, e)) && Apart(Step(s, e)) && Ordered(Step(s, e))
  {
    hide Merged, HonestAcks, Located, Barrier, GoodBatch, PutOnce, Written;
  }

  lemma FinishKeepsPuts(s: State, e: Event)
    requires Inv(s) && e.Finish? && Enabled(s, e)
    ensures PutOnce(Step(s, e)) && Written(Step(s, e))
  {
    hide Merged, HonestAcks, Located, Barrier, GoodBatch, Ordered;
  }

  lemma FinishKeepsAcks(s: State, e: Event)
    requires Inv(s) && e.Finish? && Enabled(s, e)
    ensures HonestAcks(Step(s, e))
  {
    hide Merged, Written, Located, Barrier, Ordered, PutOnce, GoodBatch;
    forall k | 0 <= k < |s.acks| ensures Told(Step(s, e), s.acks[k]) { assert Told(s, s.acks[k]); }
  }

  lemma FinishKeepsPlaces(s: State, e: Event)
    requires Inv(s) && e.Finish? && Enabled(s, e)
    ensures Located(Step(s, e)) && Barrier(Step(s, e))
  {
    hide Merged, HonestAcks, Written, PutOnce, GoodBatch;
    var t := Step(s, e);
    forall i | 0 <= i < |t.records| ensures InWindow(t, i) || InFlight(t, i) || IsSettled(t, i) {
      if i < |s.records| { assert InWindow(s, i) || InFlight(s, i) || IsSettled(s, i); }
    }
    if !t.flush.Idle? && !t.direct {
      forall i | 0 <= i < t.flush.mark
        ensures !InWindow(t, i)
      {
        assert InWindow(s, i) || InFlight(s, i) || IsSettled(s, i);
      }
    }
  }

  lemma OtherKeepsBatches(s: State, e: Event)
    requires Inv(s) && (e.FlushReturns? || e.CloseCalled? || e.Collect?) && Enabled(s, e)
    ensures GoodBatches(Step(s, e)) && Apart(Step(s, e)) && Ordered(Step(s, e)) && PutOnce(Step(s, e)) &&
            Written(Step(s, e))
  {
    hide Merged, HonestAcks, Located, Barrier, GoodBatch;
  }

  lemma OtherKeepsAcks(s: State, e: Event)
    requires Inv(s) && (e.FlushReturns? || e.CloseCalled? || e.Collect?) && Enabled(s, e)
    ensures HonestAcks(Step(s, e))
  {
    hide Merged, Written, Located, Barrier, Ordered, PutOnce, GoodBatch;
    forall k | 0 <= k < |s.acks| ensures Told(Step(s, e), s.acks[k]) { assert Told(s, s.acks[k]); }
  }

  lemma OtherKeepsPlaces(s: State, e: Event)
    requires Inv(s) && (e.FlushReturns? || e.CloseCalled? || e.Collect?) && Enabled(s, e)
    ensures Located(Step(s, e)) && Barrier(Step(s, e))
  {
    hide Merged, HonestAcks, Written, PutOnce, GoodBatch;
    var t := Step(s, e);
    forall i | 0 <= i < |t.records| ensures InWindow(t, i) || InFlight(t, i) || IsSettled(t, i) {
      if i < |s.records| { assert InWindow(s, i) || InFlight(s, i) || IsSettled(s, i); }
    }
    if !t.flush.Idle? && !t.direct {
      forall i | 0 <= i < t.flush.mark
        ensures !InWindow(t, i)
      {
        assert InWindow(s, i) || InFlight(s, i) || IsSettled(s, i);
      }
    }
  }

  lemma StepKeepsInv(s: State, e: Event)
    requires Inv(s) && Enabled(s, e)
    ensures Inv(Step(s, e))
  {
    hide GoodBatches, Apart, Located, Ordered, HonestAcks, Written, PutOnce, Barrier, Enabled, Step;
    match e
    case Take(_) => TakeKeepsBatches(s, e); TakeKeepsPuts(s, e); TakeKeepsAcks(s, e); TakeKeepsPlaces(s, e);
    case TimerFires =>
      CutKeepsBatches(s, e);
      CutKeepsPuts(s, e);
      CutKeepsWritten(s, e);
      CutKeepsAcks(s, e);
      CutKeepsPlaces(s, e);
      CutKeepsBarrier(s, e);
    case FlushCalled =>
      CutKeepsBatches(s, e);
      CutKeepsPuts(s, e);
      CutKeepsWritten(s, e);
      CutKeepsAcks(s, e);
      CutKeepsPlaces(s, e);
      CutKeepsBarrier(s, e);
    case PutEnds(_, _, _) =>
      PutKeepsBatches(s, e);
      PutKeepsPuts(s, e);
      PutKeepsWritten(s, e);
      PutKeepsAcks(s, e);
      PutKeepsPlaces(s, e);
    case Notify(_) => NotifyKeepsBatches(s, e); NotifyKeepsAcks(s, e); NotifyKeepsPlaces(s, e);
    case Finish(_) =>
      FinishKeepsBatches(s, e);
      FinishKeepsPuts(s, e);
      FinishKeepsAcks(s, e);
      FinishKeepsPlaces(s, e);
    case FlushReturns => OtherKeepsBatches(s, e); OtherKeepsAcks(s, e); OtherKeepsPlaces(s, e);
    case CloseCalled => OtherKeepsBatches(s, e); OtherKeepsAcks(s, e); OtherKeepsPlaces(s, e);
    case Collect(_) => OtherKeepsBatches(s, e); OtherKeepsAcks(s, e); OtherKeepsPlaces(s, e);
  }

  lemma {:induction false} RunInv(run: seq<State>, k: nat)
    requires IsRun(run) && k < |run|
    ensures Inv(run[k])
  {
    hide Inv, Start, Step, Enabled;
    if k == 0 {
      StartInv(run[0]);
    } else {
      RunInv(run, k - 1);
      assert Next(run[k - 1], run[k - 1 + 1]);
      var e :| Enabled(run[k - 1], e) && run[k] == Step(run[k - 1], e);
      StepKeepsInv(run[k - 1], e);
    }
  }

  /* ---- What every run guarantees ---- */

  /** Each record is in exactly one place, and waits there once. */
  lemma Conservation(run: seq<State>, k: nat, i: nat)
    requires IsRun(run) && k < |run| && i < |run[k].records|
    ensures var s := run[k];
      && (InWindow(s, i) || InFlight(s, i) || IsSettled(s, i))
      && !(InWindow(s, i) && InFlight(s, i)) && !(InWindow(s, i) && IsSettled(s, i)) && !(InFlight(s, i) && IsSettled(s, i))
    ensures forall n :: n in run[k].flights && i in run[k].flights[n].batch.waiters ==> n == run[k].records[i].number
    ensures forall n :: n in run[k].settled && i in run[k].settled[n].batch.waiters ==> n == run[k].records[i].number
  {
    hide IsRun, HonestAcks, Written, PutOnce, Barrier, Ordered;
    RunInv(run, k);
  }

  /** Every sequence number is put at most once, and never over an object that was there before. */
  lemma NoPathIsPutTwice(run: seq<State>, k: nat)
    requires IsRun(run) && k < |run|
    ensures forall i, j :: 0 <= i < j < |run[k].puts| ==> run[k].puts[i] != run[k].puts[j]
    ensures forall i :: 0 <= i < |run[k].puts| ==> run[k].puts[i] !in run[0].store
  {
    RunInv(run, k);
    RunAbove(run, k);
  }

  ghost predicate Above(s: State, base: nat) {
    && base <= s.mgr.nextSeq
    && (s.mgr.window.Some? ==> s.mgr.window.value.number >= base)
    && (forall n :: n in s.flights ==> n >= base)
    && (forall n :: n in s.settled ==> n >= base)
    && (forall n :: n in s.landed ==> n >= base)
    && (forall i :: 0 <= i < |s.records| ==> s.records[i].number >= base)
  }

  lemma StepAbove(s: State, e: Event, base: nat)
    requires Above(s, base) && GoodBatches(s) && Enabled(s, e)
    ensures Above(Step(s, e), base)
  {
    hide GoodBatch, Merged;
  }

  lemma {:induction false} RunAbove(run: seq<State>, k: nat)
    requires IsRun(run) && k < |run|
    ensures Above(run[k], run[0].mgr.nextSeq)
  {
    hide Inv, Step, Enabled;
    if k > 0 {
      RunAbove(run, k - 1);
      assert Next(run[k - 1], run[k - 1 + 1]);
      var e :| Enabled(run[k - 1], e) && run[k] == Step(run[k - 1], e);
      HasGoodBatches(run, k - 1);
      StepAbove(run[k - 1], e, run[0].mgr.nextSeq);
    }
  }

  lemma HasGoodBatches(run: seq<State>, k: nat)
    requires IsRun(run) && k < |run|
    ensures GoodBatches(run[k])
  {
    RunInv(run, k);
  }

  /** A Put that is running, or still to come, writes where no object is. */
  ghost predicate Fresh(s: State) {
    forall n :: n in s.store ==>
      && n < s.mgr.nextSeq
      && (s.mgr.window.Some? ==> n != s.mgr.window.value.number)
      && (n in s.flights ==> !s.flights[n].phase.Putting?)
  }

  lemma StepFresh(s: State, e: Event)
    requires Fresh(s) && Inv(s) && Enabled(s, e)
    ensures Fresh(Step(s, e))
  {
    hide GoodBatch, Merged, HonestAcks, PutOnce, Barrier, Located, Written, Ordered;
  }

  /* ---- What a writer can still hear ---- */

  /** Every waiter that was passed has heard; a written batch is past its Put. */
  ghost predicate Heard(s: State) { HeardInFlight(s) && HeardSettled(s) && PastPut(s) }

  ghost predicate HeardInFlight(s: State) {
    forall n :: n in s.flights && s.flights[n].phase.Notifying? ==>
      HasHeard(s, s.flights[n].batch, s.flights[n].phase.ok, s.flights[n].phase.told)
  }

  ghost predicate HeardSettled(s: State) {
    forall n :: n in s.settled ==> HasHeard(s, s.settled[n].batch, s.settled[n].ok, |s.settled[n].batch.waiters|)
  }

  ghost predicate PastPut(s: State) { forall n :: n in s.landed && n in s.flights ==> s.flights[n].phase.Notifying? }

  ghost predicate HasHeard(s: State, b: Batch, ok: bool, told: nat) {
    told <= |b.waiters| && forall k :: 0 <= k < told ==> (b.waiters[k], ok) in s.acks
  }

  lemma MoreAcks(s: State, t: State, b: Batch, ok: bool, told: nat)
    requires HasHeard(s, b, ok, told) && s.acks <= t.acks
    ensures HasHeard(t, b, ok, told)
  {
  }

  lemma StepHeard(s: State, e: Event)
    requires Heard(s) && Inv(s) && Enabled(s, e)
    ensures Heard(Step(s, e))
  {
    hide Inv, HeardInFlight, HeardSettled, PastPut, Step;
    FlightsHear(s, e);
    SettledHeard(s, e);
    BatchesAreApart(s);
    StaysPastPut(s, e);
  }

  lemma AcksGrow(s: State, e: Event)
    requires Enabled(s, e)
    ensures s.acks <= Step(s, e).acks
  {
    hide Merged, Accepted;
  }

  lemma FlightsHear(s: State, e: Event)
    requires HeardInFlight(s) && Enabled(s, e)
    ensures HeardInFlight(Step(s, e))
  {
    hide Merged, HasHeard, Accepted;
    var t := Step(s, e);
    AllStillHeard(s, e);
    if e.Notify? {
      OneMoreHeard(s, t, s.flights[e.number]);
    } else if e.PutEnds? {
      NoneHeard(t, s.flights[e.number].batch, e.ok);
    }
  }

  lemma AllStillHeard(s: State, e: Event)
    requires Enabled(s, e)
    ensures forall b, ok, told :: HasHeard(s, b, ok, told) ==> HasHeard(Step(s, e), b, ok, told)
  {
    hide Step, HasHeard, Enabled;
    AcksGrow(s, e);
    forall b, ok, told | HasHeard(s, b, ok, told) ensures HasHeard(Step(s, e), b, ok, told) {
      MoreAcks(s, Step(s, e), b, ok, told);
    }
  }

  lemma SettledHeard(s: State, e: Event)
    requires HeardInFlight(s) && HeardSettled(s) && Enabled(s, e)
    ensures HeardSettled(Step(s, e))
  {
    hide Merged, HasHeard, Accepted;
    AllStillHeard(s, e);
  }

  lemma BatchesAreApart(s: State)
    requires Inv(s)
    ensures GoodBatches(s) && Apart(s) && Written(s)
  {
  }

  lemma StaysPastPut(s: State, e: Event)
    requires PastPut(s) && GoodBatches(s) && Apart(s) && Written(s) && Enabled(s, e)
    ensures PastPut(Step(s, e))
  {
    hide Merged, GoodBatch;
  }

  lemma OneMoreHeard(s: State, t: State, f: Flight)
    requires f.phase.Notifying? && f.phase.told < |f.batch.waiters| && HasHeard(s, f.batch, f.phase.ok, f.phase.told)
    requires t.acks == s.acks + [(f.batch.waiters[f.phase.told], f.phase.ok)]
    ensures HasHeard(t, f.batch, f.phase.ok, f.phase.told + 1)
  {
    assert t.acks[|s.acks|] == (f.batch.waiters[f.phase.told], f.phase.ok);
  }

  lemma NoneHeard(s: State, b: Batch, ok: bool)
    ensures HasHeard(s, b, ok, 0)
  {
  }

  /** The record's batch has failed, whether its writer knows or not. */
  predicate Refused(s: State, i: nat)
    requires i < |s.records|
  {
    Failed(s, s.records[i].number)
  }

  lemma RefusedStays(s: State, e: Event, i: nat)
    requires Inv(s) && Enabled(s, e) && i < |s.records|
    ensures i < |Step(s, e).records| && Step(s, e).records[i] == s.records[i]
    ensures Refused(s, i) ==> Refused(Step(s, e), i)
  {
    RecordsGrow(s, e);
    if Refused(s, i) {
      BatchesAreApart(s);
      hide Inv;
      FailureStays(s, e, s.records[i].number);
    }
  }

  lemma RecordsGrow(s: State, e: Event)
    requires Enabled(s, e)
    ensures s.records <= Step(s, e).records
  {
    hide Merged, Accepted;
  }

  predicate Failed(s: State, n: nat) {
    || (n in s.settled && !s.settled[n].ok)
    || (n in s.flights && s.flights[n].phase.Notifying? && !s.flights[n].phase.ok)
  }

  lemma FailureStays(s: State, e: Event, n: nat)
    requires GoodBatches(s) && Apart(s) && Enabled(s, e) && Failed(s, n)
    ensures Failed(Step(s, e), n)
  {
    hide Merged, GoodBatch, Accepted;
  }

  /** A writer that was told success is not refused. */
  lemma ToldIsNotRefused(s: State, i: nat)
    requires Inv(s) && i < |s.records| && (i, true) in s.acks
    ensures !Refused(s, i)
  {
    hide PutOnce, Barrier, Located, GoodBatch, Ordered, Merged, GoodBatches, Written;
    var k :| 0 <= k < |s.acks| && s.acks[k] == (i, true);
    assert Told(s, s.acks[k]);
  }

  /* ---- The flush barrier ---- */

  /** One call of Flush: it starts at step a and its wait is over in state b. */
  ghost predicate IsFlush(run: seq<State>, a: nat, b: nat) {
    && a < b < |run| && Enabled(run[a], FlushCalled) && run[a + 1] == Step(run[a], FlushCalled)
    && (forall m :: a < m <= b ==> !run[m].flush.Idle?)
    && Enabled(run[b], FlushReturns)
  }

  lemma StepKeepsMark(s: State, e: Event)
    requires Enabled(s, e) && !s.flush.Idle? && !Step(s, e).flush.Idle?
    ensures Step(s, e).flush.mark == s.flush.mark && Step(s, e).direct == s.direct
  {
    hide Merged;
  }

  lemma FlushMarks(s: State)
    requires Enabled(s, FlushCalled)
    ensures !Step(s, FlushCalled).flush.Idle? && Step(s, FlushCalled).flush.mark == |s.records|
  {
  }

  lemma {:induction false} MarkStays(run: seq<State>, a: nat, m: nat, b: nat)
    requires IsRun(run) && IsFlush(run, a, b) && a < m <= b
    ensures run[m].flush.mark == |run[a].records|
  {
    hide Step, Enabled, Start;
    if m == a + 1 {
      FlushMarks(run[a]);
    } else {
      MarkStays(run, a, m - 1, b);
      assert Next(run[m - 1], run[m - 1 + 1]);
      var e :| Enabled(run[m - 1], e) && run[m] == Step(run[m - 1], e);
      StepKeepsMark(run[m - 1], e);
    }
  }

  /** When Flush returns, every record taken before it cut the window is settled, whatever the
      timers did in between. */
  lemma FlushBarrier(run: seq<State>, a: nat, b: nat, i: nat)
    requires IsRun(run) && IsFlush(run, a, b) && !run[b].direct && i < |run[a].records|
    ensures i < |run[b].records| && IsSettled(run[b], i)
  {
    hide HonestAcks, Written, PutOnce, Ordered, Apart, GoodBatches;
    MarkStays(run, a, b, b);
    RunInv(run, b);
    assert !InWindow(run[b], i);
  }

  /* ---- Batching is invisible to replay ---- */

  /** The operations of the objects with from <= number < n, in ascending order. */
  function Replayed(objects: map<nat, bytes>, from: nat, n: nat): bytes {
    if n <= from then [] else Replayed(objects, from, n - 1) + if n - 1 in objects then Body(objects[n - 1]) else []
  }

  /** The operations of the durable ones of the first k records, in the order they were taken. */
  function Durable(records: seq<Record>, objects: map<nat, bytes>, k: nat): bytes
    requires k <= |records|
  {
    if k == 0 then []
    else Durable(records, objects, k - 1) + if records[k - 1].number in objects then Body(records[k - 1].data) else []
  }

  /** The number of leading records with a sequence number below n. */
  function Below(records: seq<Record>, n: nat): (k: nat)
    ensures k <= |records|
    decreases |records|
  {
    if records == [] || records[|records| - 1].number < n then |records| else Below(records[..|records| - 1], n)
  }

  lemma {:induction false} BelowSplits(records: seq<Record>, n: nat, i: nat)
    requires i < |records| && forall i, j :: 0 <= i < j < |records| ==> records[i].number <= records[j].number
    ensures i < Below(records, n) <==> records[i].number < n
    decreases |records|
  {
    var m := |records| - 1;
    if records[m].number >= n && i < m { BelowSplits(records[..m], n, i); }
  }

  /** A strictly increasing sequence that covers an interval lists it. */
  lemma {:induction false} IncreasingCover(w: seq<nat>, lo: nat, hi: nat)
    requires forall j, k :: 0 <= j < k < |w| ==> w[j] < w[k]
    requires lo <= hi && forall i: nat :: i in w <==> lo <= i < hi
    ensures |w| == hi - lo && forall k :: 0 <= k < |w| ==> w[k] == lo + k
    decreases |w|
  {
    if w == [] {
      assert lo < hi ==> lo in w;
    } else {
      var m := |w| - 1;
      assert w[m] in w;
      assert hi - 1 in w;
      var p :| 0 <= p < |w| && w[p] == hi - 1;
      assert p == m;
      var v := w[..m];
      forall i: nat ensures i in v <==> lo <= i < hi - 1 {
        if i in v {
          assert i in w;
        }
        if lo <= i < hi - 1 {
          assert i in w;
          var q :| 0 <= q < |w| && w[q] == i;
          assert v[q] == i;
        }
      }
      IncreasingCover(v, lo, hi - 1);
    }
  }

  /** The batch of a written object waits for exactly the records with its number. */
  lemma WaitersAreAll(s: State, n: nat, b: Batch, i: nat)
    requires Inv(s) && i < |s.records|
    requires (n in s.settled && b == s.settled[n].batch) || (n in s.flights && b == s.flights[n].batch)
    ensures i in b.waiters <==> s.records[i].number == n
  {
    hide HonestAcks, Written, PutOnce, Barrier, Ordered;
    assert InWindow(s, i) || InFlight(s, i) || IsSettled(s, i);
  }

  lemma IsGood(s: State, n: nat, b: Batch)
    requires Inv(s)
    requires (n in s.settled && b == s.settled[n].batch) || (n in s.flights && b == s.flights[n].batch)
    ensures GoodBatch(s.records, b) && b.number == n
  {
    hide GoodBatch, HonestAcks, Written, PutOnce, Barrier, Ordered, Located, Apart;
  }

  lemma AreOrdered(s: State)
    requires Inv(s)
    ensures Ordered(s)
  {
  }

  lemma WaitersAreAnInterval(s: State, n: nat, b: Batch)
    requires Inv(s)
    requires (n in s.settled && b == s.settled[n].batch) || (n in s.flights && b == s.flights[n].batch)
    ensures Below(s.records, n + 1) == Below(s.records, n) + |b.segments| && GoodBatch(s.records, b)
    ensures Run(s.records, Below(s.records, n), b.segments, n)
  {
    hide Inv, Below;
    var lo, hi := Below(s.records, n), Below(s.records, n + 1);
    IsGood(s, n, b);
    AreOrdered(s);
    forall i: nat ensures i in b.waiters <==> lo <= i < hi {
      if i in b.waiters || lo <= i < hi {
        assert 0 <= i < |s.records|;
        WaitersAreAll(s, n, b, i);
        BelowSplits(s.records, n, i);
        BelowSplits(s.records, n + 1, i);
      }
    }
    BelowGrows(s.records, n);
    IncreasingCover(b.waiters, lo, hi);
  }

  lemma {:induction false} BelowGrows(records: seq<Record>, n: nat)
    ensures Below(records, n) <= Below(records, n + 1)
    decreases |records|
  {
    if records != [] { BelowGrows(records[..|records| - 1], n); }
  }

  lemma {:induction false} DurableBatch(records: seq<Record>, objects: map<nat, bytes>, lo: nat, segments: seq<bytes>,
                                        n: nat, k: nat)
    requires n in objects && Run(records, lo, segments, n) && k <= |segments|
    ensures Durable(records, objects, lo + k) == Durable(records, objects, lo) + Bodies(segments[..k])
  {
    hide Bodies, Body, Durable, Run;
    RunAt(records, lo, segments, n, k);
    if k == 0 {
      assert segments[..0] == [];
      NoBodies([]);
    } else {
      DurableBatch(records, objects, lo, segments, n, k - 1);
      Snoc(segments, k - 1);
      RunAt(records, lo, segments, n, k - 1);
      DurableStep(records, objects, lo + k - 1);
    }
  }

  /** The records from lo on are these segments, all under number n. */
  ghost predicate Run(records: seq<Record>, lo: nat, segments: seq<bytes>, n: nat) {
    && lo + |segments| <= |records|
    && forall k :: 0 <= k < |segments| ==> records[lo + k] == Record(segments[k], n)
  }

  lemma RunAt(records: seq<Record>, lo: nat, segments: seq<bytes>, n: nat, k: nat)
    requires Run(records, lo, segments, n)
    ensures lo + |segments| <= |records| && (k < |segments| ==> records[lo + k] == Record(segments[k], n))
  {
  }

  lemma NoBodies(segments: seq<bytes>)
    requires segments == []
    ensures Bodies(segments) == []
  {
  }

  lemma DurableStep(records: seq<Record>, objects: map<nat, bytes>, i: nat)
    requires i < |records| && records[i].number in objects
    ensures Durable(records, objects, i + 1) == Durable(records, objects, i) + Body(records[i].data)
  {
  }

  lemma {:induction false} NotDurable(records: seq<Record>, objects: map<nat, bytes>, lo: nat, hi: nat)
    requires lo <= hi <= |records| && forall i :: lo <= i < hi ==> records[i].number !in objects
    ensures Durable(records, objects, hi) == Durable(records, objects, lo)
  {
    if lo < hi { NotDurable(records, objects, lo, hi - 1); }
  }

  lemma {:induction false} ReplayedIsDurable(s: State, n: nat)
    requires Inv(s) && forall i :: 0 <= i < |s.records| ==> |s.records[i].data| >= HEADER
    ensures Replayed(s.landed, 0, n) == Durable(s.records, s.landed, Below(s.records, n))
  {
    if n == 0 {
      if Below(s.records, 0) > 0 { BelowSplits(s.records, 0, 0); }
    } else {
      ReplayedIsDurable(s, n - 1);
      OneMoreObject(s, n - 1);
    }
  }

  /** The batch behind a written object. */
  ghost function BatchOf(s: State, n: nat): (b: Batch)
    requires Inv(s) && n in s.landed
    ensures (n in s.settled && b == s.settled[n].batch) || (n in s.flights && b == s.flights[n].batch)
    ensures s.landed[n] == Merged(b.segments)
  {
    hide HonestAcks, PutOnce, Barrier, Located, Apart, Merged, Ordered, GoodBatches;
    if n in s.settled then s.settled[n].batch else s.flights[n].batch
  }

  lemma OneMoreObject(s: State, n: nat)
    requires Inv(s) && forall i :: 0 <= i < |s.records| ==> |s.records[i].data| >= HEADER
    ensures Durable(s.records, s.landed, Below(s.records, n + 1))
         == Durable(s.records, s.landed, Below(s.records, n)) + if n in s.landed then Body(s.landed[n]) else []
  {
    hide Inv, Merged, Bodies, Body, Durable, Below;
    var lo, hi := Below(s.records, n), Below(s.records, n + 1);
    AreOrdered(s);
    if n in s.landed {
      var b := BatchOf(s, n);
      WaitersAreAnInterval(s, n, b);
      forall k | 0 <= k < |b.segments| ensures |b.segments[k]| >= HEADER { RunAt(s.records, lo, b.segments, n, k); }
      MergedIsOneBatch(b.segments);
      DurableBatch(s.records, s.landed, lo, b.segments, n, |b.segments|);
      assert b.segments[..|b.segments|] == b.segments;
    } else {
      BelowGrows(s.records, n);
      forall i | lo <= i < hi ensures s.records[i].number !in s.landed {
        BelowSplits(s.records, n, i);
        BelowSplits(s.records, n + 1, i);
      }
      NotDurable(s.records, s.landed, lo, hi);
    }
  }

  /** No object is deleted anywhere in the run. */
  ghost predicate NothingCollected(run: seq<State>) {
    forall i :: 0 <= i < |run| - 1 ==> run[i].store.Keys <= run[i + 1].store.Keys
  }

  lemma StoreTracksLanded(s: State, e: Event, start: map<nat, bytes>)
    requires Enabled(s, e) && s.store == start + s.landed && s.store.Keys <= Step(s, e).store.Keys
    ensures Step(s, e).store == start + Step(s, e).landed
  {
    var t := Step(s, e);
    OnlyPutsWrite(s, e);
    hide Step;
    if e.PutEnds? && e.reached { LaterWins(start, s.landed, e.number, t.landed[e.number]); }
  }

  lemma OnlyPutsWrite(s: State, e: Event)
    requires Enabled(s, e) && s.store.Keys <= Step(s, e).store.Keys
    ensures !(e.PutEnds? && e.reached) ==> Step(s, e).store == s.store && Step(s, e).landed == s.landed
    ensures e.PutEnds? && e.reached ==> e.number in Step(s, e).landed
    ensures e.PutEnds? && e.reached ==> Step(s, e).store == s.store[e.number := Step(s, e).landed[e.number]]
    ensures e.PutEnds? && e.reached ==> Step(s, e).landed == s.landed[e.number := Step(s, e).landed[e.number]]
  {
    hide Step;
    if e.PutEnds? { PutsWriteBoth(s, e); } else { OthersKeepStore(s, e); }
  }

  lemma PutsWriteBoth(s: State, e: Event)
    requires Enabled(s, e) && e.PutEnds?
    ensures var t := Step(s, e);
      if e.reached then
        e.number in t.landed && t.store == s.store[e.number := t.landed[e.number]] && t.landed == s.landed[e.number := t.landed[e.number]]
      else t.store == s.store && t.landed == s.landed
  {
    hide Merged;
  }

  lemma OthersKeepStore(s: State, e: Event)
    requires Enabled(s, e) && !e.PutEnds? && s.store.Keys <= Step(s, e).store.Keys
    ensures Step(s, e).store == s.store && Step(s, e).landed == s.landed
  {
    hide Merged, Accepted;
  }

  lemma LaterWins(a: map<nat, bytes>, b: map<nat, bytes>, n: nat, d: bytes)
    ensures (a + b)[n := d] == a + b[n := d]
  {
  }

  lemma {:induction false} NothingIsLost(run: seq<State>, k: nat)
    requires IsRun(run) && NothingCollected(run) && k < |run|
    ensures run[k].store == run[0].store + run[k].landed
  {
    hide Merged;
    if k > 0 {
      NothingIsLost(run, k - 1);
      assert Next(run[k - 1], run[k - 1 + 1]);
      var e :| Enabled(run[k - 1], e) && run[k] == Step(run[k - 1], e);
      StoreTracksLanded(run[k - 1], e, run[0].store);
    }
  }

  /** Objects that agree from some number on, one of them with none below it. */
  lemma {:induction false} ReplayedAgrees(a: map<nat, bytes>, b: map<nat, bytes>, from: nat, n: nat)
    requires forall k :: k in b ==> k >= from
    requires forall k :: k >= from ==> (k in a <==> k in b) && (k in a ==> a[k] == b[k])
    ensures Replayed(a, from, n) == Replayed(b, 0, n)
  {
    if n > 0 { ReplayedAgrees(a, b, from, n - 1); }
  }

  lemma {:induction false} DurableAgrees(records: seq<Record>, a: map<nat, bytes>, b: map<nat, bytes>, k: nat)
    requires k <= |records| && forall i :: 0 <= i < |records| ==> (records[i].number in a <==> records[i].number in b)
    ensures Durable(records, a, k) == Durable(records, b, k)
  {
    if k > 0 { DurableAgrees(records, a, b, k - 1); }
  }

  /** Reading the objects from the manager's first number on, in ascending order and before any GC,
      yields the operations of the durable records, each once, in the order they were taken; older
      objects are as the manager found them. */
  lemma BatchingIsInvisible(run: seq<State>, k: nat)
    requires IsRun(run) && NothingCollected(run) && k < |run|
    requires forall i :: 0 <= i < |run[k].records| ==> |run[k].records[i].data| >= HEADER
    ensures forall n :: n in run[k].store ==> n < run[k].mgr.nextSeq
    ensures forall n :: n < run[0].mgr.nextSeq ==>
      (n in run[k].store <==> n in run[0].store) && (n in run[0].store ==> run[k].store[n] == run[0].store[n])
    ensures Replayed(run[k].store, run[0].mgr.nextSeq, run[k].mgr.nextSeq)
         == Durable(run[k].records, run[k].store, |run[k].records|)
  {
    var s, base := run[k], run[0].mgr.nextSeq;
    assert forall n :: n in run[0].store ==> n < base;
    hide IsRun, HonestAcks, PutOnce, Barrier, Located, Apart, Merged, Durable, Replayed;
    NothingIsLost(run, k);
    RunAbove(run, k);
    RunInv(run, k);
    ReplayedIsDurable(s, s.mgr.nextSeq);
    ReplayedAgrees(s.store, s.landed, base, s.mgr.nextSeq);
    DurableAgrees(s.records, s.store, s.landed, |s.records|);
    if |s.records| > 0 { BelowSplits(s.records, s.mgr.nextSeq, |s.records| - 1); }
  }

  /* ---- Honest acknowledgements ---- */

  /** The data of the records with number n, in the order they were taken. */
  function Numbered(records: seq<Record>, n: nat): seq<bytes>
    decreases |records|
  {
    if records == [] then []
    else Numbered(records[..|records| - 1], n) + if records[|records| - 1].number == n then [records[|records| - 1].data] else []
  }

  lemma {:induction false} NumberedRun(records: seq<Record>, lo: nat, segments: seq<bytes>, n: nat, k: nat)
    requires Run(records, lo, segments, n) && k <= |records|
    requires forall i :: 0 <= i < |records| ==> (records[i].number == n <==> lo <= i < lo + |segments|)
    ensures Numbered(records[..k], n) == segments[..if k < lo then 0 else if k < lo + |segments| then k - lo else |segments|]
    decreases k
  {
    if k > 0 {
      NumberedRun(records, lo, segments, n, k - 1);
      assert records[..k][..k - 1] == records[..k - 1];
      if lo < k <= lo + |segments| {
        RunAt(records, lo, segments, n, k - 1 - lo);
        assert segments[..k - lo] == segments[..k - 1 - lo] + [segments[k - 1 - lo]];
      }
    }
  }

  /** The batch of a number holds exactly the records with that number. */
  lemma BatchIsNumbered(s: State, n: nat, b: Batch)
    requires Inv(s)
    requires (n in s.settled && b == s.settled[n].batch) || (n in s.flights && b == s.flights[n].batch)
    ensures Numbered(s.records, n) == b.segments
  {
    hide Inv, Run, Below, GoodBatch, Numbered;
    WaitersAreAnInterval(s, n, b);
    AreOrdered(s);
    var lo := Below(s.records, n);
    forall i | 0 <= i < |s.records| ensures s.records[i].number == n <==> lo <= i < lo + |b.segments| {
      BelowSplits(s.records, n, i);
      BelowSplits(s.records, n + 1, i);
    }
    NumberedRun(s.records, lo, b.segments, n, |s.records|);
    assert s.records[..|s.records|] == s.records && b.segments[..|b.segments|] == b.segments;
    RunAt(s.records, lo, b.segments, n, 0);
  }

  /** The object at the record's own sequence number was written and merges exactly the records with
      that number; this one at its place among them. */
  ghost predicate Stored(s: State, i: nat)
    requires i < |s.records|
  {
    var n := s.records[i].number;
    var segments, k := Numbered(s.records, n), i - Below(s.records, n);
    && n in s.landed && s.landed[n] == Merged(segments)
    && 0 <= k < |segments| && segments[k] == s.records[i].data
  }

  lemma LandedIsStored(s: State, i: nat)
    requires Inv(s) && i < |s.records| && s.records[i].number in s.landed
    ensures Stored(s, i)
  {
    hide Inv, Merged, Run, Below, GoodBatch, Numbered;
    var n := s.records[i].number;
    var b := BatchOf(s, n);
    BatchIsNumbered(s, n, b);
    WaitersAreAnInterval(s, n, b);
    AreOrdered(s);
    BelowSplits(s.records, n, i);
    BelowSplits(s.records, n + 1, i);
    RunAt(s.records, Below(s.records, n), b.segments, n, i - Below(s.records, n));
  }

  lemma AckedIsLanded(s: State, i: nat)
    requires Inv(s) && i < |s.records| && (i, true) in s.acks
    ensures s.records[i].number in s.landed
  {
    hide PutOnce, Barrier, Located, GoodBatch, Ordered, Merged, GoodBatches;
    var k :| 0 <= k < |s.acks| && s.acks[k] == (i, true);
    assert Told(s, s.acks[k]);
  }

  /** A caller hears at most once, and hears success only when the object of its sequence number
      was stored with its record in it. */
  lemma AcksAreHonest(run: seq<State>, k: nat, j: nat)
    requires IsRun(run) && k < |run| && j < |run[k].acks|
    ensures forall m :: 0 <= m < |run[k].acks| && m != j ==> run[k].acks[m].0 != run[k].acks[j].0
    ensures run[k].acks[j].0 < |run[k].records|
    ensures run[k].acks[j].1 ==> Stored(run[k], run[k].acks[j].0)
  {
    hide IsRun, PutOnce, Barrier, Ordered, Merged, Stored, GoodBatches, Located, Written;
    RunInv(run, k);
    var s := run[k];
    assert Told(s, s.acks[j]);
    if s.acks[j].1 {
      assert s.acks[j] == (s.acks[j].0, true);
      AckedIsLanded(s, s.acks[j].0);
      LandedIsStored(s, s.acks[j].0);
    }
  }

  /* ---- Close ---- */

  /** Close waits until no flush goroutine runs and no Flush is in its Put. */
  predicate CloseMayReturn(s: State) {
    s.mgr.closed && forall n :: n in s.flights ==>
      !s.flights[n].owner.Timer? && !(s.flights[n].owner.Flusher? && s.flights[n].phase.Putting?)
  }

  /** When Close returns in batching mode, no Put is running; a record whose Put has not ended is
      still in the window, which Close does not flush. */
  lemma CloseBarrier(run: seq<State>, k: nat, i: nat)
    requires IsRun(run) && k < |run| && CloseMayReturn(run[k]) && !run[k].direct && i < |run[k].records|
    ensures forall n :: n in run[k].flights ==> run[k].flights[n].phase.Notifying?
    ensures InWindow(run[k], i) || IsSettled(run[k], i)
         || (InFlight(run[k], i) && run[k].flights[run[k].records[i].number].owner.Flusher?)
  {
    hide IsRun, HonestAcks, Written, PutOnce, Ordered, GoodBatches, Apart;
    RunInv(run, k);
  }

  /** After Close no record is taken any more. */
  lemma CloseIsFinal(run: seq<State>, k: nat, l: nat)
    requires IsRun(run) && k < l < |run| && run[k + 1] == Step(run[k], CloseCalled)
    ensures run[l].mgr.closed && run[l].records == run[k].records
  {
    hide IsRun;
    assert run[k + 1].mgr.closed && run[k + 1].records == run[k].records;
    ClosedFrom(run, k + 1, l);
  }

  lemma {:induction false} ClosedFrom(run: seq<State>, k: nat, l: nat)
    requires IsRun(run) && k <= l < |run| && run[k].mgr.closed
    ensures run[l].mgr.closed && run[l].records == run[k].records
    decreases l
  {
    hide IsRun, Next;
    if k < l {
      ClosedFrom(run, k, l - 1);
      RunSteps(run, l - 1);
      StaysClosed(run[l - 1], run[l]);
    }
  }

  lemma RunSteps(run: seq<State>, i: nat)
    requires IsRun(run) && i + 1 < |run|
    ensures Next(run[i], run[i + 1])
  {
    hide Next, Start;
    assert Next(run[i], run[i + 1]);
  }

  lemma StaysClosed(s: State, t: State)
    requires Next(s, t) && s.mgr.closed
    ensures t.mgr.closed && t.records == s.records
  {
    hide Step, Enabled;
    var e :| Enabled(s, e) && t == Step(s, e);
    StepStaysClosed(s, e);
  }

  lemma StepStaysClosed(s: State, e: Event)
    requires Enabled(s, e) && s.mgr.closed
    ensures Step(s, e).mgr.closed && Step(s, e).records == s.records
  {
    hide Merged, Accepted;
  }
}
