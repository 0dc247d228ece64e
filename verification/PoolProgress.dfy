/** The running pool: what has been submitted gets served, shutdown or not, whatever the scheduler does. */
module PoolProgress {
  import opened WorkQueue
  import opened ThreadPool
  import opened PoolSafety
  import opened PoolDrain

  // ----- What is left to do -----

  /** Steps a worker can take before it is asleep or gone, the wakeup it may pass on included. */
  function WorkerCost(w: Worker): nat {
    match w
    case Popped(_) => 8
    case Signalled(_) => 5
    case Serving(_) => 4
    case Locking => 3
    case Woken => 3
    case Checking => 2
    case Leaving => 1
    case _ => 0
  }

  function SubmitterCost(p: Submitter): nat {
    match p
    case Locking => 14
    case Woken => 14
    case Checking => 13
    case Asleep => 12
    case Pushed => 5
    case Refusing => 2
    case Closing => 1
    case Signalled => 1
    case Idle => 0
  }

  function DestroyerCost(d: Destroyer, n: nat): int {
    match d
    case Locking => 4 * n + 8
    case Setting => 4 * n + 7
    case WakingWorkers => 4 * n + 6
    case WakingSubmitter => n + 5
    case Unlocking => n + 2
    case Joining(k) => n + 1 - k
    case _ => 0
  }

  function Remaining(s: State): int {
    7 * s.ring.count + Total(s.workers, WorkerCost) + SubmitterCost(s.submitter) + DestroyerCost(s.destroyer, |s.workers|)
  }

  lemma {:induction false} TotalCost(workers: seq<Worker>)
    ensures Total(workers, WorkerCost) <= 8 * |workers|
  {
    if workers == [] {
    } else {
      TotalCost(workers[1..]);
    }
  }

  lemma RemainingBound(s: State)
    requires Inv(s)
    ensures 0 <= Remaining(s) <= 7 * s.ring.count + 12 * |s.workers| + 22
  {
    hide NoLostWakeup, Accounted, Fifo, InOrder, Exclusive;
    TotalCost(s.workers);
  }

  // ----- What each step does to it -----

  lemma {:induction false} WakingCosts(workers: seq<Worker>)
    ensures Total(WakeAll(workers), WorkerCost) <= Total(workers, WorkerCost) + 3 * |workers|
  {
    if workers == [] {
    } else {
      assert WakeAll(workers)[1..] == WakeAll(workers[1..]);
      WakingCosts(workers[1..]);
    }
  }

  /** A spurious wakeup, an arrival or the call of shutdown adds this much at most. */
  function Surcharge(s: State): nat {
    4 * |s.workers| + 14
  }

  lemma WorkerStepPays(s: State, i: nat, op: WorkerOp)
    requires WorkerCan(s, i, op)
    ensures var t := WorkerStep(s, i, op);
            && |t.workers| == |s.workers|
            && Remaining(t) <= if op.Wake? then Remaining(s) + 3 else Remaining(s) - 1
  {
    hide Ring.Item, Ring.Valid, Total;
    TotalUpdate(s.workers, WorkerCost, i, WorkerNext(s, i, op));
  }

  lemma SubmitStepPays(s: State, op: SubmitOp)
    requires SubmitCan(s, op)
    ensures var t := SubmitStep(s, op);
            && |t.workers| == |s.workers|
            && Remaining(t) <= if op.Wake? || op.Begin? then Remaining(s) + 14 else Remaining(s) - 1
  {
    hide Ring.Item, Ring.Valid, Total;
    if op.SignalOne? {
      TotalUpdate(s.workers, WorkerCost, op.sleeper, Worker.Woken);
    }
  }

  /** Every step a thread takes by itself leaves less to do; what comes from outside adds little. */
  lemma StepPays(s: State, e: Event)
    requires Enabled(s, e)
    ensures |Step(s, e).workers| == |s.workers|
    ensures Remaining(Step(s, e)) <= if Environment(e) then Remaining(s) + Surcharge(s) else Remaining(s) - 1
  {
    hide Ring.Item, Ring.Valid, Total, WorkerStep, SubmitStep;
    match e
    case Work(i, op) => WorkerStepPays(s, i, op);
    case Submit(op) => SubmitStepPays(s, op);
    case Destroy(_) => WakingCosts(s.workers);
  }

  // ----- Whole runs -----

  /** How many of the events come from outside. */
  function Outside(events: seq<Event>): nat {
    if events == [] then 0 else (if Environment(events[0]) then 1 else 0) + Outside(events[1..])
  }

  /** No livelock: the steps threads take by themselves are paid for by what there was to do at first,
      and by what came from outside since. */
  lemma {:induction false} RunPays(s: State, events: seq<Event>, t: State)
    requires Run(s, events, t)
    ensures |events| - Outside(events) + Remaining(t) <= Remaining(s) + Surcharge(s) * Outside(events)
    decreases |events|
  {
    hide Enabled, Step, Remaining, Environment;
    if events == [] {
    } else {
      var u := Step(s, events[0]);
      StepPays(s, events[0]);
      RunPays(u, events[1..], t);
      assert Surcharge(u) == Surcharge(s);
      assert Environment(events[0]) ==> Outside(events) == 1 + Outside(events[1..]);
      assert Environment(events[0]) ==> Surcharge(s) * Outside(events) == Surcharge(s) + Surcharge(s) * Outside(events[1..]);
    }
  }

  lemma QuietIsDone(t: State)
    requires Inv(t) && Quiet(t)
    ensures t.log.popped == t.log.accepted && multiset(t.log.finished) == multiset(t.log.accepted)
    ensures forall k: nat :: multiset(t.log.closed)[k] == if k < t.begun then 1 else 0
  {
    hide NoLostWakeup, Exclusive, Draining, Accounted, InOrder, Fifo, Ring.Contents;
    AllServed(t);
  }

  /** Left to themselves, the threads do all there is to do and stop: the run is bounded, and one that
      cannot go on has served every accepted connection and closed every submitted one exactly once. No
      fairness, no shutdown and no luck with wakeups is needed. */
  lemma WorkGetsDone(s: State, events: seq<Event>, t: State)
    requires Inv(s) && Run(s, events, t) && Outside(events) == 0
    ensures |events| <= Remaining(s) <= 7 * s.ring.count + 12 * |s.workers| + 22
    ensures (forall e :: Enabled(t, e) ==> Environment(e)) ==>
              && Quiet(t) && t.log.popped == t.log.accepted
              && multiset(t.log.finished) == multiset(t.log.accepted)
              && (forall k: nat :: multiset(t.log.closed)[k] == if k < t.begun then 1 else 0)
  {
    hide Inv, Run, Remaining, Enabled, Environment, Quiet;
    InvRun(s, events, t);
    RunPays(s, events, t);
    RemainingBound(s);
    RemainingBound(t);
    var e := NeverStuck(t);
    if Quiet(t) {
      QuietIsDone(t);
    }
  }
}
