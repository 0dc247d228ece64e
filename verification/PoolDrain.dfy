/** Shutdown of the thread pool: it never gets stuck, and it ends whatever the scheduler does. */
module PoolDrain {
  import opened WorkQueue
  import opened ThreadPool
  import opened PoolSafety

  /** Steps that come from outside, or that no thread may count on. */
  predicate Environment(e: Event) {
    match e
    case Work(_, op) => op.Wake?
    case Submit(op) => op.Wake? || op.Begin?
    case Destroy(op) => op.Begin?
  }

  /** Nothing to do: no work queued, no call in progress, every worker asleep, or gone after shutdown. */
  predicate Quiet(s: State) {
    && s.ring.Empty() && s.submitter.Idle? && s.mutex.Nobody?
    && if s.destroyer.Done? then forall i :: 0 <= i < |s.workers| ==> s.workers[i].Gone?
       else s.destroyer.NotYet? && forall i :: 0 <= i < |s.workers| ==> s.workers[i].Asleep?
  }

  // ----- Never stuck -----

  lemma HolderCanStep(s: State) returns (e: Event)
    requires Inv(s) && !s.mutex.Nobody?
    ensures Enabled(s, e) && !Environment(e)
  {
    hide NoLostWakeup, Accounted, Ring.Contents;
    match s.mutex
    case ByWorker(i) =>
      var w := s.workers[i];
      e := Work(i, if w.Checking? then
                     (if !s.ring.Empty() then Pop else if s.shutdown then GiveUp else WorkerOp.Wait)
                   else if w.Popped? then Signal
                   else if w.Signalled? then WorkerOp.Unlock
                   else Exit);
    case BySubmitter =>
      var p := s.submitter;
      if p.Pushed? && !NoneAsleep(s.workers) {
        var j :| 0 <= j < |s.workers| && s.workers[j].Asleep?;
        e := Submit(SignalOne(j));
      } else {
        e := Submit(if p.Checking? then
                      (if s.shutdown then Refuse else if s.ring.Full() then SubmitOp.Wait else Push)
                    else if p.Pushed? then SignalNone
                    else if p.Signalled? then SubmitOp.Unlock
                    else UnlockToClose);
      }
    case ByDestroyer =>
      var d := s.destroyer;
      e := Destroy(if d.Setting? then SetFlag
                   else if d.WakingWorkers? then WakeWorkers
                   else if d.WakingSubmitter? then WakeSubmit
                   else DestroyOp.Unlock);
    case Nobody =>
      assert false;
      e := Destroy(End);
  }

  /** In every reachable state some thread can go on by itself, unless there is nothing to do: no
      interleaving leaves work queued, or a submission or a shutdown waiting, with every thread blocked. */
  lemma NeverStuck(s: State) returns (e: Event)
    requires Inv(s)
    ensures (Enabled(s, e) && !Environment(e)) || Quiet(s)
  {
    hide Accounted, InHand;
    if !s.mutex.Nobody? {
      e := HolderCanStep(s);
      return;
    }
    if i :| 0 <= i < |s.workers| && !s.workers[i].Asleep? && !s.workers[i].Gone? {
      e := Work(i, if s.workers[i].Serving? then Finish else WorkerOp.Lock);
    } else if s.submitter.Locking? || s.submitter.Woken? {
      e := Submit(SubmitOp.Lock);
    } else if s.submitter.Closing? {
      e := Submit(Close);
    } else if s.destroyer.Locking? {
      e := Destroy(DestroyOp.Lock);
    } else if s.destroyer.Joining? {
      e := Destroy(if s.destroyer.next < |s.workers| then Join else End);
    } else {
      e := Destroy(DestroyOp.Begin);
      TotalZero(s.workers, Rechecks);
      assert s.workers[0].Asleep? || s.workers[0].Gone?;
    }
  }

  // ----- Bounded, whatever the schedule -----

  /** How many more steps a worker can take before it tests the queue again, and after. */
  function WorkerRank(w: Worker): nat {
    match w
    case Popped(_) => 8
    case Signalled(_) => 7
    case Serving(_) => 6
    case Asleep => 6
    case Locking => 5
    case Woken => 5
    case Checking => 4
    case Leaving => 1
    case Gone => 0
  }

  function SubmitterRank(p: Submitter): nat {
    match p
    case Asleep => 5
    case Locking => 4
    case Woken => 4
    case Checking => 3
    case Refusing => 2
    case Closing => 1
    case _ => 0
  }

  function DestroyerRank(d: Destroyer, n: nat): int {
    match d
    case WakingWorkers => n + 5
    case WakingSubmitter => n + 4
    case Unlocking => n + 3
    case Joining(k) => n + 1 - k
    case _ => 0
  }

  function Measure(s: State): int {
    5 * s.ring.count + Total(s.workers, WorkerRank)
    + 6 * (s.arrivals - s.begun) + SubmitterRank(s.submitter) + DestroyerRank(s.destroyer, |s.workers|)
  }

  lemma {:induction false} TotalRank(workers: seq<Worker>)
    ensures Total(workers, WorkerRank) <= 8 * |workers|
  {
    if workers == [] {
    } else {
      TotalRank(workers[1..]);
    }
  }

  lemma MeasureBound(s: State)
    requires Inv(s)
    ensures Measure(s) <= 5 * s.ring.count + 9 * |s.workers| + 6 * (s.arrivals - s.begun) + 10
  {
    hide NoLostWakeup, Accounted, Fifo, Exclusive;
    TotalRank(s.workers);
  }

  lemma MeasureIsNatural(s: State)
    requires Inv(s)
    ensures Measure(s) >= 0
  {
    hide NoLostWakeup, Accounted, Fifo, Exclusive;
  }

  lemma {:induction false} WakingLowersRank(workers: seq<Worker>)
    ensures Total(WakeAll(workers), WorkerRank) <= Total(workers, WorkerRank)
  {
    if workers == [] {
    } else {
      assert WakeAll(workers)[1..] == WakeAll(workers[1..]);
      WakingLowersRank(workers[1..]);
    }
  }

  lemma WorkerStepLowers(s: State, i: nat, op: WorkerOp)
    requires s.shutdown && WorkerCan(s, i, op)
    ensures WorkerStep(s, i, op).shutdown && Measure(WorkerStep(s, i, op)) < Measure(s)
  {
    hide Ring.Item, Ring.Valid, Total;
    TotalUpdate(s.workers, WorkerRank, i, WorkerNext(s, i, op));
  }

  /** Once shutdown is set, every step of any thread, spurious wakeups included, lowers the measure. */
  lemma StepLowers(s: State, e: Event)
    requires Inv(s) && s.shutdown && Enabled(s, e)
    ensures Step(s, e).shutdown && Measure(Step(s, e)) < Measure(s)
  {
    hide Ring.Item, Ring.Valid, Total, WorkerStep, NoLostWakeup, Accounted, Fifo, InOrder, Exclusive;
    match e
    case Work(i, op) => WorkerStepLowers(s, i, op);
    case Submit(_) =>
    case Destroy(_) => WakingLowersRank(s.workers);
  }

  lemma {:induction false} RunLowers(s: State, events: seq<Event>, t: State)
    requires Inv(s) && s.shutdown && Run(s, events, t)
    ensures Inv(t) && t.shutdown && |events| <= Measure(s) - Measure(t)
    decreases |events|
  {
    hide Inv, Enabled, Step, Measure;
    if events == [] {
    } else {
      InvStep(s, events[0]);
      StepLowers(s, events[0]);
      RunLowers(Step(s, events[0]), events[1..], t);
    }
  }

  lemma NoBeginningLeft(t: State)
    requires Inv(t) && t.shutdown && Quiet(t)
    ensures t.destroyer.Done?
  {
    hide NoLostWakeup, Accounted, Fifo, InOrder, Exclusive;
  }

  /** Shutdown terminates, without any fairness: from a reachable state with shutdown set, no run is
      longer than the measure, and a run that cannot be continued has drained the pool: all workers
      joined, the queue empty, every connection served or refused and closed exactly once. */
  lemma DrainTerminates(s: State, events: seq<Event>, t: State)
    requires Inv(s) && s.shutdown && Run(s, events, t)
    ensures |events| <= Measure(s) <= 5 * s.ring.count + 9 * |s.workers| + 6 * (s.arrivals - s.begun) + 10
    ensures (forall e :: !Enabled(t, e)) ==>
              && t.destroyer.Done? && t.ring.Empty() && multiset(t.log.finished) == multiset(t.log.accepted)
              && (forall i :: 0 <= i < |t.workers| ==> t.workers[i].Gone?)
              && (forall k: nat :: multiset(t.log.closed)[k] == if k < t.begun then 1 else 0)
  {
    hide Inv, Run, Measure, Enabled;
    RunLowers(s, events, t);
    MeasureIsNatural(t);
    MeasureBound(s);
    var e := NeverStuck(t);
    if !Enabled(t, e) {
      NoBeginningLeft(t);
      ExactlyOnce(t);
    }
  }
}
