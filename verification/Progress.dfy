/** Nothing gets stuck: from every state that the WAL manager or the engine can reach, steps that are
    already on their way lead to a state in which every waiter has been told, every writer has
    returned, and Flush and Sync are over (pkg/walcloud/manager.go, pkg/engine/engine.go). */
module Progress {
  import opened Bytes
  import opened Wal
  import Log = WalProtocol
  import opened Durability

  /* ---- The WAL manager ---- */

  /** Whether the Put of a sequence number succeeds. */
  type Fate = nat -> bool

  /** What finishes something that was begun; a Put ends as it is fated to. */
  predicate Finishes(fate: Fate, e: Log.Event) {
    e.TimerFires? || (e.PutEnds? && e.ok == fate(e.number)) || e.Notify? || e.Finish? || e.FlushReturns?
  }

  ghost predicate LogRuns(fate: Fate, s: Log.State, es: seq<Log.Event>, t: Log.State)
    decreases |es|
  {
    if es == [] then s == t
    else
      var n := |es| - 1;
      exists mid :: LogRuns(fate, s, es[..n], mid)
        && Finishes(fate, es[n]) && Log.Enabled(mid, es[n]) && t == Log.Step(mid, es[n])
  }

  lemma LogRunsOn(fate: Fate, s: Log.State, es: seq<Log.Event>, t: Log.State, e: Log.Event)
    requires LogRuns(fate, s, es, t) && Finishes(fate, e) && Log.Enabled(t, e)
    ensures LogRuns(fate, s, es + [e], Log.Step(t, e))
  {
    hide Log.Enabled, Log.Step;
    assert (es + [e])[..|es|] == es;
  }

  /** A Flush that runs its own Put has a flight. */
  predicate PutIsKnown(s: Log.State) {
    s.flush.InPut? ==> s.flush.number in s.flights && s.flights[s.flush.number].owner.Flusher?
  }

  ghost predicate Sound(s: Log.State) { Log.Inv(s) && Log.Heard(s) && PutIsKnown(s) }

  lemma StepPutIsKnown(s: Log.State, e: Log.Event)
    requires Log.Inv(s) && PutIsKnown(s) && Log.Enabled(s, e)
    ensures PutIsKnown(Log.Step(s, e))
  {
    hide Merged, Accepted, Log.HonestAcks, Log.Located, Log.GoodBatch, Log.Ordered, Log.Written, Log.PutOnce;
  }

  lemma StepIsSound(s: Log.State, e: Log.Event)
    requires Sound(s) && Log.Enabled(s, e)
    ensures Sound(Log.Step(s, e))
  {
    hide Log.Inv, Log.Heard, Log.Step, Log.Enabled, PutIsKnown;
    Log.StepKeepsInv(s, e);
    Log.StepHeard(s, e);
    StepPutIsKnown(s, e);
  }

  /** Reached from s by finishing what was begun; nothing else was touched. */
  ghost predicate Reached(fate: Fate, s: Log.State, es: seq<Log.Event>, t: Log.State) {
    LogRuns(fate, s, es, t) && Sound(t) && t.records == s.records
  }

  lemma ReachedOn(fate: Fate, s: Log.State, es: seq<Log.Event>, t: Log.State, e: Log.Event)
    requires Reached(fate, s, es, t) && Finishes(fate, e) && Log.Enabled(t, e)
    ensures Reached(fate, s, es + [e], Log.Step(t, e))
  {
    hide Log.Step, Log.Enabled, Sound, LogRuns;
    LogRunsOn(fate, s, es, t, e);
    StepIsSound(t, e);
    KeepsRecords(fate, t, e);
  }

  lemma KeepsRecords(fate: Fate, s: Log.State, e: Log.Event)
    requires Finishes(fate, e) && Log.Enabled(s, e)
    ensures Log.Step(s, e).records == s.records
  {
    hide Merged, Accepted;
  }

  /** The waiters of a written batch are told, one by one, and then it is settled. */
  lemma {:induction false} TellAll(fate: Fate, s: Log.State, es: seq<Log.Event>, t: Log.State, n: nat)
    returns (more: seq<Log.Event>, u: Log.State)
    requires Reached(fate, s, es, t) && n in t.flights && t.flights[n].phase.Notifying?
    ensures Reached(fate, s, more, u) && u.flights.Keys == t.flights.Keys - {n} && u.mgr == t.mgr
    decreases ToldYet(t, n)
  {
    hide Reached, Log.Step, Log.Enabled;
    ToldInTime(fate, s, es, t, n);
    if t.flights[n].phase.told < |t.flights[n].batch.waiters| {
      NotifyTells(t, n);
      ReachedOn(fate, s, es, t, Log.Notify(n));
      more, u := TellAll(fate, s, es + [Log.Notify(n)], Log.Step(t, Log.Notify(n)), n);
    } else {
      FinishSettles(t, n);
      ReachedOn(fate, s, es, t, Log.Finish(n));
      more, u := es + [Log.Finish(n)], Log.Step(t, Log.Finish(n));
    }
  }

  /** How many waiters of a flight are still to be told. */
  ghost function ToldYet(s: Log.State, n: nat): nat
    requires n in s.flights && s.flights[n].phase.Notifying?
  {
    var f := s.flights[n];
    if f.phase.told < |f.batch.waiters| then |f.batch.waiters| - f.phase.told else 0
  }

  lemma ToldInTime(fate: Fate, s: Log.State, es: seq<Log.Event>, t: Log.State, n: nat)
    requires Reached(fate, s, es, t) && n in t.flights && t.flights[n].phase.Notifying?
    ensures t.flights[n].phase.told <= |t.flights[n].batch.waiters|
  {
    hide LogRuns, Log.Inv;
  }

  lemma NotifyTells(s: Log.State, n: nat)
    requires n in s.flights && s.flights[n].phase.Notifying? && s.flights[n].phase.told < |s.flights[n].batch.waiters|
    ensures Log.Enabled(s, Log.Notify(n))
    ensures var t := Log.Step(s, Log.Notify(n));
      && t.flights.Keys == s.flights.Keys && t.mgr == s.mgr && t.flights[n].phase.Notifying?
      && t.flights[n].batch == s.flights[n].batch && t.flights[n].phase.told == s.flights[n].phase.told + 1
  {
  }

  lemma FinishSettles(s: Log.State, n: nat)
    requires n in s.flights && s.flights[n].phase.Notifying? && s.flights[n].phase.told == |s.flights[n].batch.waiters|
    ensures Log.Enabled(s, Log.Finish(n))
    ensures Log.Step(s, Log.Finish(n)).flights.Keys == s.flights.Keys - {n} && Log.Step(s, Log.Finish(n)).mgr == s.mgr
  {
  }

  lemma PutCanEnd(s: Log.State, n: nat, ok: bool)
    requires n in s.flights && s.flights[n].phase.Putting?
    ensures Log.Enabled(s, Log.PutEnds(n, ok, ok))
    ensures var t := Log.Step(s, Log.PutEnds(n, ok, ok));
      t.flights.Keys == s.flights.Keys && t.mgr == s.mgr && t.flights[n].phase.Notifying?
  {
    hide Merged;
  }

  lemma {:induction false} DrainFlights(fate: Fate, s: Log.State, es: seq<Log.Event>, t: Log.State)
    returns (more: seq<Log.Event>, u: Log.State)
    requires Reached(fate, s, es, t)
    ensures Reached(fate, s, more, u) && u.flights == map[] && u.mgr == t.mgr
    decreases |t.flights.Keys|
  {
    hide Reached, Log.Step, Log.Enabled;
    if t.flights == map[] {
      more, u := es, t;
    } else {
      var n :| n in t.flights;
      var es', t' := es, t;
      if t.flights[n].phase.Putting? {
        var ends := Log.PutEnds(n, fate(n), fate(n));
        PutCanEnd(t, n, fate(n));
        ReachedOn(fate, s, es, t, ends);
        es', t' := es + [ends], Log.Step(t, ends);
      }
      es', t' := TellAll(fate, s, es', t', n);
      more, u := DrainFlights(fate, s, es', t');
    }
  }

  /** No window, no Put and no notification is left, and Flush has returned. */
  ghost predicate Quiescent(s: Log.State) { s.mgr.window.None? && s.flights == map[] && s.flush.Idle? }

  /** Every record's waiter has been told. */
  ghost predicate AllTold(s: Log.State) {
    forall i :: 0 <= i < |s.records| ==> (i, true) in s.acks || (i, false) in s.acks
  }

  /** From every state, and whichever Puts fail, the flights that are under way, the open window and a
      running Flush can be finished, and then every waiter has been told. */
  lemma LogCanFinish(fate: Fate, s: Log.State) returns (es: seq<Log.Event>, t: Log.State)
    requires Sound(s)
    ensures Reached(fate, s, es, t) && Quiescent(t) && AllTold(t)
  {
    hide Log.Inv, Log.Heard, Log.Step, Log.Enabled, PutIsKnown, AllTold;
    es, t := [], s;
    assert LogRuns(fate, s, [], s);
    hide LogRuns;
    if s.mgr.window.Some? {
      TimerCuts(s);
      ReachedOn(fate, s, es, t, Log.TimerFires);
      es, t := es + [Log.TimerFires], Log.Step(t, Log.TimerFires);
    }
    es, t := DrainFlights(fate, s, es, t);
    if !t.flush.Idle? {
      FlushCanReturn(t);
      ReachedOn(fate, s, es, t, Log.FlushReturns);
      es, t := es + [Log.FlushReturns], Log.Step(t, Log.FlushReturns);
    }
    SettledIsTold(t);
  }

  lemma TimerCuts(s: Log.State)
    requires Sound(s) && s.mgr.window.Some?
    ensures Log.Enabled(s, Log.TimerFires) && Log.Step(s, Log.TimerFires).mgr.window.None?
  {
    hide Log.Heard, Log.GoodBatch, Log.Located, Log.HonestAcks, Log.Written, Log.PutOnce, Log.Barrier, Log.Ordered;
  }

  lemma FlushCanReturn(s: Log.State)
    requires PutIsKnown(s) && s.flights == map[] && !s.flush.Idle?
    ensures Log.Enabled(s, Log.FlushReturns)
    ensures var t := Log.Step(s, Log.FlushReturns); t.mgr == s.mgr && t.flights == s.flights && t.flush.Idle?
  {
  }

  lemma SettledIsTold(s: Log.State)
    requires Sound(s) && Quiescent(s)
    ensures AllTold(s)
  {
    hide Log.GoodBatch, Log.HonestAcks, Log.Written, Log.PutOnce, Log.Barrier, Log.Ordered, Log.Apart;
    forall i | 0 <= i < |s.records| ensures (i, true) in s.acks || (i, false) in s.acks {
      assert Log.IsSettled(s, i);
      var o := s.settled[s.records[i].number];
      assert Log.HasHeard(s, o.batch, o.ok, |o.batch.waiters|);
    }
  }

  lemma {:induction false} RunIsSound(run: seq<Log.State>, k: nat)
    requires Log.IsRun(run) && k < |run|
    ensures Sound(run[k])
  {
    hide Log.Inv, Log.Heard, Log.Step, Log.Enabled, PutIsKnown, Log.IsRun;
    if k == 0 {
      StartIsSound(run);
    } else {
      RunIsSound(run, k - 1);
      Log.RunSteps(run, k - 1);
      var e :| Log.Enabled(run[k - 1], e) && run[k] == Log.Step(run[k - 1], e);
      StepIsSound(run[k - 1], e);
    }
  }

  lemma StartIsSound(run: seq<Log.State>)
    requires Log.IsRun(run)
    ensures Sound(run[0])
  {
    Log.StartInv(run[0]);
  }

  /** In every run of the manager, at any point: what was begun can be finished. */
  lemma EveryWaiterCanHear(fate: Fate, run: seq<Log.State>, k: nat) returns (es: seq<Log.Event>, t: Log.State)
    requires Log.IsRun(run) && k < |run|
    ensures LogRuns(fate, run[k], es, t) && Quiescent(t) && AllTold(t) && t.records == run[k].records
  {
    hide Sound, LogRuns, Quiescent, AllTold, Log.IsRun;
    RunIsSound(run, k);
    es, t := LogCanFinish(fate, run[k]);
  }

  /* ---- The engine ---- */

  predicate Helps(fate: Fate, e: Event) {
    (e.LogStep? && Finishes(fate, e.e)) || e.Applies? || e.Returns? || e.Fails? || e.EndSync?
  }

  ghost predicate Runs(fate: Fate, s: State, es: seq<Event>, t: State)
    decreases |es|
  {
    if es == [] then s == t
    else
      var n := |es| - 1;
      exists mid :: Runs(fate, s, es[..n], mid) && Helps(fate, es[n]) && Enabled(mid, es[n]) && t == Step(mid, es[n])
  }

  lemma RunsOn(fate: Fate, s: State, es: seq<Event>, t: State, e: Event)
    requires Runs(fate, s, es, t) && Helps(fate, e) && Enabled(t, e)
    ensures Runs(fate, s, es + [e], Step(t, e))
  {
    hide Enabled, Step;
    assert (es + [e])[..|es|] == es;
  }

  /** Reached from s by finishing what was begun: no batch is new, none is taken back. */
  ghost predicate Came(fate: Fate, s: State, es: seq<Event>, t: State) {
    && Runs(fate, s, es, t) && Inv(t) && PutIsKnown(t.wal)
    && t.epoch == s.epoch && t.wal.records == s.wal.records && s.acked <= t.acked && s.ended <= t.ended
  }

  lemma CameOn(fate: Fate, s: State, es: seq<Event>, t: State, e: Event)
    requires Came(fate, s, es, t) && Helps(fate, e) && Enabled(t, e)
    ensures Came(fate, s, es + [e], Step(t, e))
  {
    hide Inv, Runs, Step, Enabled, PutIsKnown;
    RunsOn(fate, s, es, t, e);
    StepKeepsInv(t, e) by { assert Calm(t, e); }
    StepKeepsPuts(t, e);
    HelpAdds(fate, t, e);
  }

  lemma HelpAdds(fate: Fate, s: State, e: Event)
    requires Helps(fate, e) && Enabled(s, e)
    ensures var t := Step(s, e);
      t.epoch == s.epoch && t.wal.records == s.wal.records && s.acked <= t.acked && s.ended <= t.ended
  {
    hide Log.Step, Log.Enabled;
    if e.LogStep? { KeepsRecords(fate, s.wal, e.e); }
  }

  /** What the manager can finish, it can finish under the engine. */
  lemma {:induction false} LogFinishes(fate: Fate, s: State, ls: seq<Log.Event>, w: Log.State)
    returns (es: seq<Event>, t: State)
    requires Inv(s) && PutIsKnown(s.wal) && LogRuns(fate, s.wal, ls, w)
    ensures Came(fate, s, es, t) && t.wal == w && t.ended == s.ended
    decreases |ls|
  {
    hide Inv, Log.Step, Log.Enabled, PutIsKnown, Came;
    if ls == [] {
      es, t := [], s;
      Stays(fate, s);
    } else {
      var n := |ls| - 1;
      var mid :| LogRuns(fate, s.wal, ls[..n], mid)
        && Finishes(fate, ls[n]) && Log.Enabled(mid, ls[n]) && w == Log.Step(mid, ls[n]);
      es, t := LogFinishes(fate, s, ls[..n], mid);
      CameOn(fate, s, es, t, LogStep(ls[n]));
      es, t := es + [LogStep(ls[n])], Step(t, LogStep(ls[n]));
    }
  }

  lemma Stays(fate: Fate, s: State)
    requires Inv(s) && PutIsKnown(s.wal)
    ensures Came(fate, s, [], s)
  {
    hide Inv, PutIsKnown;
  }

  /** The writer of a record returns: with success if it was told so, else with an error. */
  lemma WriterReturns(fate: Fate, s: State, es: seq<Event>, t: State, i: nat) returns (more: seq<Event>, u: State)
    requires Came(fate, s, es, t) && i < |t.wal.records| && i !in t.ended
    ensures Came(fate, s, more, u) && u.wal == t.wal && u.epoch == t.epoch
    ensures u.ended == t.ended + {i} && t.acked <= u.acked
    ensures (i, true) in t.wal.acks ==> Id(t.epoch, i) in u.acked
    ensures u.sync == t.sync
  {
    hide Came, Inv;
    if (i, true) in t.wal.acks {
      more, u := es, t;
      if i !in t.applied {
        CameOn(fate, s, more, u, Applies(i));
        more, u := more + [Applies(i)], Step(u, Applies(i));
      }
      CameOn(fate, s, more, u, Returns(i));
      more, u := more + [Returns(i)], Step(u, Returns(i));
    } else {
      NotApplied(fate, s, es, t, i);
      CameOn(fate, s, es, t, Fails(i));
      more, u := es + [Fails(i)], Step(t, Fails(i));
    }
  }

  lemma NotApplied(fate: Fate, s: State, es: seq<Event>, t: State, i: nat)
    requires Came(fate, s, es, t) && Durability.InFlight(t, i) && (i, true) !in t.wal.acks
    ensures i !in t.applied
  {
    hide Log.Inv, Log.Fresh, Log.Heard, Faithful, Known, Numbers, AckedBelow, Captures, Coverage, Runs, PutIsKnown, Running,
         Secured;
  }

  /** The writers of the first k records have returned. */
  ghost predicate Ended(s: State, t: State, k: nat) {
    forall i :: 0 <= i < k && i < |t.wal.records| ==>
      i in t.ended && (i !in s.ended && (i, true) in t.wal.acks ==> Id(t.epoch, i) in t.acked)
  }

  lemma {:induction false} WritersReturn(fate: Fate, s: State, es: seq<Event>, t: State, k: nat)
    returns (more: seq<Event>, u: State)
    requires Came(fate, s, es, t) && k <= |t.wal.records| && t.ended == s.ended
    ensures Came(fate, s, more, u) && u.wal == t.wal && u.sync == t.sync && Ended(s, u, k)
    ensures forall i :: i in u.ended && i >= k ==> i in s.ended
    decreases k
  {
    hide Inv, Step, Enabled, PutIsKnown, Runs;
    if k == 0 {
      more, u := es, t;
    } else {
      more, u := WritersReturn(fate, s, es, t, k - 1);
      if k - 1 !in u.ended {
        ghost var before := u;
        more, u := WriterReturns(fate, s, more, u, k - 1);
      }
    }
  }

  /** At any point of a run of the engine, and whichever Puts fail: without another write, flush or GC,
      every Put can end, every waiter be told, every writer return, and Flush and Sync be over; each
      batch whose writer is told of success is acknowledged. */
  lemma EveryWriterCanReturn(fate: Fate, run: seq<State>, k: nat) returns (es: seq<Event>, t: State)
    requires IsRun(run) && k < |run|
    ensures Runs(fate, run[k], es, t) && Quiescent(t.wal) && AllTold(t.wal) && t.sync.Idle?
    ensures t.wal.records == run[k].wal.records && Ended(run[k], t, |t.wal.records|) && Coverage(t)
  {
    hide Inv, Step, Enabled, PutIsKnown, IsRun, Runs, Ended, Quiescent, AllTold, LogRuns, Coverage;
    RunInv(run, k);
    PutsAreKnown(run, k);
    EngineIsSound(run[k]);
    var ls, w := LogCanFinish(fate, run[k].wal);
    es, t := LogFinishes(fate, run[k], ls, w);
    if !t.sync.Idle? {
      SyncCanEnd(t);
      CameOn(fate, run[k], es, t, EndSync);
      es, t := es + [EndSync], Step(t, EndSync);
    }
    es, t := WritersReturn(fate, run[k], es, t, |t.wal.records|);
    IsCovered(t);
  }

  lemma EngineIsSound(s: State)
    requires Inv(s) && PutIsKnown(s.wal)
    ensures Sound(s.wal)
  {
    hide Log.Inv, Log.Heard, PutIsKnown;
  }

  lemma IsCovered(s: State)
    requires Inv(s)
    ensures Coverage(s)
  {
  }

  lemma SyncCanEnd(s: State)
    requires !s.sync.Idle?
    ensures Enabled(s, EndSync)
    ensures var t := Step(s, EndSync); t.sync.Idle? && t.wal == s.wal && t.ended == s.ended
  {
  }

  lemma {:induction false} PutsAreKnown(run: seq<State>, k: nat)
    requires IsRun(run) && k < |run|
    ensures PutIsKnown(run[k].wal)
  {
    hide Inv, Start, Step, Enabled, Calm, PutIsKnown;
    if k == 0 {
      StartsKnown(run[0]);
    } else {
      PutsAreKnown(run, k - 1);
      RunInv(run, k - 1);
      assert Next(run[k - 1], run[k - 1 + 1]);
      var e :| Enabled(run[k - 1], e) && Calm(run[k - 1], e) && run[k] == Step(run[k - 1], e);
      StepKeepsPuts(run[k - 1], e);
    }
  }

  lemma StartsKnown(s: State)
    requires Start(s)
    ensures PutIsKnown(s.wal)
  {
  }

  lemma StepKeepsPuts(s: State, e: Event)
    requires Inv(s) && PutIsKnown(s.wal) && Enabled(s, e)
    ensures PutIsKnown(Step(s, e).wal)
  {
    hide Log.Inv, Faithful, Known, Numbers, Pending, AckedBelow, Captures, Coverage;
    hide Log.Step, Log.Enabled;
    if e.LogStep? { StepPutIsKnown(s.wal, e.e); }
    if e.Delete? { DeleteKeepsPuts(s, e.n); }
  }

  lemma DeleteKeepsPuts(s: State, n: nat)
    requires Log.Inv(s.wal) && PutIsKnown(s.wal) && n in s.wal.store
    ensures Log.Enabled(s.wal, Log.Collect(n)) && PutIsKnown(Log.Step(s.wal, Log.Collect(n)))
  {
    hide Log.Inv;
  }
}
