/** What every interleaving of the thread pool keeps. */
module PoolSafety {
  import opened WorkQueue
  import opened ThreadPool

  // ----- The invariant -----

  predicate WorkerHolds(w: Worker) {
    w.Checking? || w.Popped? || w.Signalled? || w.Leaving?
  }

  predicate SubmitterHolds(p: Submitter) {
    p.Checking? || p.Pushed? || p.Signalled? || p.Refusing?
  }

  predicate DestroyerHolds(d: Destroyer) {
    d.Setting? || d.WakingWorkers? || d.WakingSubmitter? || d.Unlocking?
  }

  /** The mutex is held by exactly the thread that is between its lock and its unlock. */
  predicate Exclusive(s: State) {
    && (forall i :: 0 <= i < |s.workers| ==> (WorkerHolds(s.workers[i]) <==> s.mutex == ByWorker(i)))
    && (s.mutex.ByWorker? ==> s.mutex.i < |s.workers|)
    && (SubmitterHolds(s.submitter) <==> s.mutex == BySubmitter)
    && (DestroyerHolds(s.destroyer) <==> s.mutex == ByDestroyer)
  }

  /** Once shutdown is set: nothing is queued any more, nobody goes back to sleep, and a worker leaves
      only when the queue is drained. */
  predicate Draining(s: State) {
    && (s.shutdown <==> !s.destroyer.NotYet? && !s.destroyer.Locking? && !s.destroyer.Setting?)
    && (forall i :: 0 <= i < |s.workers| && (s.workers[i].Leaving? || s.workers[i].Gone?) ==> s.shutdown && s.ring.Empty())
    && (s.shutdown ==> !s.submitter.Pushed? && !s.submitter.Signalled?)
    && (s.submitter.Refusing? || s.submitter.Closing? ==> s.shutdown)
    && (s.shutdown && !s.destroyer.WakingWorkers? ==> NoneAsleep(s.workers))
    && (s.shutdown && !s.destroyer.WakingWorkers? && !s.destroyer.WakingSubmitter? ==> !s.submitter.Asleep?)
    && (s.destroyer.Joining? ==> s.destroyer.next <= |s.workers| && forall i :: 0 <= i < s.destroyer.next ==> s.workers[i].Gone?)
    && (s.destroyer.Done? ==> s.submitter.Idle? && forall i :: 0 <= i < |s.workers| ==> s.workers[i].Gone?)
  }

  /** A worker that will test the queue again before it sleeps. */
  function Rechecks(w: Worker): nat {
    if w.Woken? || w.Checking? then 1 else 0
  }

  /** No lost wakeup. While a worker sleeps, every queued connection is matched by a worker awake and yet
      to test the queue, or by the submitter about to signal; while the submitter sleeps, the queue is
      full or a worker is about to signal. */
  predicate NoLostWakeup(s: State) {
    && (!NoneAsleep(s.workers) ==> s.ring.count <= Total(s.workers, Rechecks) + if s.submitter.Pushed? then 1 else 0)
    && (s.submitter.Asleep? ==> s.ring.Full() || exists i :: 0 <= i < |s.workers| && s.workers[i].Popped?)
  }

  /** The queue is first in, first out. */
  predicate Fifo(s: State) {
    s.ring.Valid() && s.log.accepted == s.log.popped + s.ring.Contents()
  }

  function InProgress(p: Submitter): nat {
    if p.Idle? || p.Pushed? || p.Signalled? then 0 else 1
  }

  /** Submissions are accepted in order, none left out, until shutdown; from then on all are refused. */
  predicate InOrder(s: State) {
    && (forall k :: 0 <= k < |s.log.accepted| ==> s.log.accepted[k] == k)
    && (forall k :: 0 <= k < |s.log.refused| ==> s.log.refused[k] == |s.log.accepted| + k)
    && s.begun == |s.log.accepted| + |s.log.refused| + InProgress(s.submitter) <= s.arrivals
    && (s.log.refused != [] ==> s.shutdown)
  }

  /** Every popped connection is finished or in the hands of one worker, and what was closed is what
      was finished or refused. */
  predicate Accounted(s: State) {
    && multiset(s.log.popped) == multiset(s.log.finished) + AllInHand(s.workers)
    && multiset(s.log.closed) == multiset(s.log.finished) + multiset(s.log.refused)
  }

  predicate Inv(s: State) {
    |s.workers| > 0 && Exclusive(s) && Draining(s) && NoLostWakeup(s) && Fifo(s) && InOrder(s) && Accounted(s)
  }

  // ----- Preservation, one part at a time -----

  lemma InitInv(n: nat, capacity: nat, arrivals: nat)
    requires n > 0 && capacity > 0
    ensures Inv(Init(n, capacity, arrivals))
  {
    NothingInHand(Init(n, capacity, arrivals).workers);
  }

  /** A worker's step moves that worker alone. */
  lemma OthersStay(s: State, i: nat, op: WorkerOp)
    requires WorkerCan(s, i, op)
    ensures var t := WorkerStep(s, i, op);
            && |t.workers| == |s.workers| && t.workers[i] == WorkerNext(s, i, op)
            && forall k :: 0 <= k < |s.workers| && k != i ==> t.workers[k] == s.workers[k]
    ensures WorkerStep(s, i, op).shutdown == s.shutdown && WorkerStep(s, i, op).destroyer == s.destroyer
  {
    hide Ring.Pop, Ring.Item, Ring.Valid;
  }

  lemma ExclusiveWork(s: State, i: nat, op: WorkerOp)
    requires Exclusive(s) && WorkerCan(s, i, op)
    ensures Exclusive(WorkerStep(s, i, op))
  {
    hide Ring.Pop, Ring.Item, Ring.Valid, Ring.Empty;
    OthersStay(s, i, op);
  }

  lemma ExclusiveSubmit(s: State, op: SubmitOp)
    requires Exclusive(s) && SubmitCan(s, op)
    ensures Exclusive(SubmitStep(s, op))
  {
    hide Ring.Push, Ring.Valid, Ring.Full, NoneAsleep;
    assert forall k :: 0 <= k < |s.workers| ==> SubmitStep(s, op).workers[k] == s.workers[k] || s.workers[k].Asleep?;
  }

  lemma ExclusiveStep(s: State, e: Event)
    requires Exclusive(s) && Enabled(s, e)
    ensures Exclusive(Step(s, e))
  {
    hide Ring.Push, Ring.Valid, WorkerStep, SubmitStep;
    match e
    case Work(i, op) => ExclusiveWork(s, i, op);
    case Submit(op) => ExclusiveSubmit(s, op);
    case Destroy(op) =>
  }

  lemma DrainingWork(s: State, i: nat, op: WorkerOp)
    requires Exclusive(s) && Draining(s) && WorkerCan(s, i, op)
    ensures Draining(WorkerStep(s, i, op))
  {
    hide Ring.Item, Ring.Valid;
    OthersStay(s, i, op);
  }

  lemma DrainingSubmit(s: State, op: SubmitOp)
    requires Exclusive(s) && Draining(s) && SubmitCan(s, op)
    ensures Draining(SubmitStep(s, op))
  {
    hide Ring.Item, Ring.Valid;
  }

  lemma DrainingStep(s: State, e: Event)
    requires Exclusive(s) && Draining(s) && Enabled(s, e)
    ensures Draining(Step(s, e))
  {
    hide Ring.Item, Ring.Valid, WorkerStep, SubmitStep;
    match e
    case Work(i, op) => DrainingWork(s, i, op);
    case Submit(op) => DrainingSubmit(s, op);
    case Destroy(op) =>
  }

  lemma NoLostWakeupWork(s: State, i: nat, op: WorkerOp)
    requires Exclusive(s) && Draining(s) && NoLostWakeup(s) && WorkerCan(s, i, op)
    ensures NoLostWakeup(WorkerStep(s, i, op))
  {
    hide Ring.Item, Ring.Valid;
    OthersStay(s, i, op);
    TotalUpdate(s.workers, Rechecks, i, WorkerNext(s, i, op));
    assert op.Wake? ==> !NoneAsleep(s.workers);
  }

  lemma NoLostWakeupStep(s: State, e: Event)
    requires Exclusive(s) && Draining(s) && NoLostWakeup(s) && Enabled(s, e)
    ensures NoLostWakeup(Step(s, e))
  {
    hide Ring.Item, Ring.Valid, WorkerStep;
    match e
    case Work(i, op) => NoLostWakeupWork(s, i, op);
    case Submit(SignalOne(j)) => TotalUpdate(s.workers, Rechecks, j, Worker.Woken);
    case Submit(_) =>
    case Destroy(_) =>
  }

  lemma FifoStep(s: State, e: Event)
    requires Fifo(s) && Enabled(s, e)
    ensures Fifo(Step(s, e))
  {
    hide Ring.Contents, Ring.Item;
    match e
    case Work(i, Pop) => PopRemoves(s.ring);
    case Submit(Push) => PushAppends(s.ring, s.begun - 1);
    case _ =>
  }

  lemma InOrderWork(s: State, i: nat, op: WorkerOp)
    requires InOrder(s) && WorkerCan(s, i, op)
    ensures InOrder(WorkerStep(s, i, op))
  {
    hide Ring.Item, Ring.Valid, Ring.Empty;
  }

  lemma InOrderSubmit(s: State, op: SubmitOp)
    requires Draining(s) && InOrder(s) && SubmitCan(s, op)
    ensures InOrder(SubmitStep(s, op))
  {
    hide Ring.Push, Ring.Valid, Ring.Full, NoneAsleep;
  }

  lemma InOrderStep(s: State, e: Event)
    requires Draining(s) && InOrder(s) && Enabled(s, e)
    ensures InOrder(Step(s, e))
  {
    hide Ring.Push, Ring.Valid, NoneAsleep, WorkerStep, SubmitStep, WakeAll;
    match e
    case Work(i, op) => InOrderWork(s, i, op);
    case Submit(op) => InOrderSubmit(s, op);
    case Destroy(op) =>
  }

  lemma MoveOne(all: multiset<nat>, a: multiset<nat>, b: multiset<nat>, x: nat)
    requires all == a + b
    ensures all + multiset{x} == a + multiset{x} + b
    ensures all + multiset{x} == a + (b + multiset{x})
    ensures b[x] > 0 ==> all == a + multiset{x} + (b - multiset{x})
  {
  }

  lemma TakeOne(a: multiset<nat>, b: multiset<nat>, x: nat)
    requires a + multiset{x} == b + multiset{}
    ensures a == b - multiset{x} && b[x] > 0
  {
    assert b == a + multiset{x};
  }

  lemma AccountedPop(s: State, i: nat)
    requires Accounted(s) && WorkerCan(s, i, Pop)
    ensures Accounted(WorkerStep(s, i, Pop))
  {
    hide Ring.Pop, Ring.Item, AllInHand;
    var t, x := WorkerStep(s, i, Pop), s.ring.Item(0);
    InHandUpdate(s.workers, i, t.workers[i]);
    assert AllInHand(t.workers) == AllInHand(s.workers) + multiset{x};
    MoveOne(multiset(s.log.popped), multiset(s.log.finished), AllInHand(s.workers), x);
    assert multiset(s.log.popped + [x]) == multiset(s.log.popped) + multiset{x};
  }

  lemma AccountedFinish(s: State, i: nat)
    requires Accounted(s) && WorkerCan(s, i, Finish)
    ensures Accounted(WorkerStep(s, i, Finish))
  {
    hide AllInHand;
    var t, x := WorkerStep(s, i, Finish), s.workers[i].item;
    InHandUpdate(s.workers, i, t.workers[i]);
    TakeOne(AllInHand(t.workers), AllInHand(s.workers), x);
    MoveOne(multiset(s.log.popped), multiset(s.log.finished), AllInHand(s.workers), x);
    MoveOne(multiset(s.log.closed), multiset(s.log.finished), multiset(s.log.refused), x);
    assert multiset(s.log.closed + [x]) == multiset(s.log.closed) + multiset{x};
    assert multiset(s.log.finished + [x]) == multiset(s.log.finished) + multiset{x};
  }

  lemma AccountedClose(s: State)
    requires Accounted(s) && SubmitCan(s, Close)
    ensures Accounted(SubmitStep(s, Close))
  {
    hide AllInHand;
    var x: nat := s.begun - 1;
    MoveOne(multiset(s.log.closed), multiset(s.log.finished), multiset(s.log.refused), x);
    assert multiset(s.log.closed + [x]) == multiset(s.log.closed) + multiset{x};
    assert multiset(s.log.refused + [x]) == multiset(s.log.refused) + multiset{x};
  }

  lemma AccountedUnchanged(s: State, t: State)
    requires Accounted(s) && AllInHand(t.workers) == AllInHand(s.workers)
    requires t.log == s.log || t.log == s.log.(accepted := t.log.accepted)
    ensures Accounted(t)
  {
  }

  lemma AccountedWork(s: State, i: nat, op: WorkerOp)
    requires Accounted(s) && WorkerCan(s, i, op)
    ensures Accounted(WorkerStep(s, i, op))
  {
    hide AllInHand, Accounted, Ring.Item, Ring.Pop, Ring.Valid;
    if op.Pop? {
      AccountedPop(s, i);
    } else if op.Finish? {
      AccountedFinish(s, i);
    } else {
      SameInHand(s.workers, i, WorkerNext(s, i, op));
      AccountedUnchanged(s, WorkerStep(s, i, op));
    }
  }

  lemma AccountedStep(s: State, e: Event)
    requires Accounted(s) && Enabled(s, e)
    ensures Accounted(Step(s, e))
  {
    hide Ring.Push, Ring.Valid, NoneAsleep, AllInHand, Accounted, WakeAll, WorkerStep;
    match e
    case Work(i, op) => AccountedWork(s, i, op);
    case Submit(op) =>
      if op.Close? {
        AccountedClose(s);
      } else {
        if op.SignalOne? {
          SameInHand(s.workers, op.sleeper, Worker.Woken);
        }
        AccountedUnchanged(s, SubmitStep(s, op));
      }
    case Destroy(op) =>
      InHandWakeAll(s.workers);
      AccountedUnchanged(s, DestroyStep(s, op));
  }

  lemma InvStep(s: State, e: Event)
    requires Inv(s) && Enabled(s, e)
    ensures Inv(Step(s, e))
  {
    hide NoLostWakeup, Fifo, InOrder, Exclusive, Draining, Accounted;
    ExclusiveStep(s, e);
    DrainingStep(s, e);
    NoLostWakeupStep(s, e);
    FifoStep(s, e);
    InOrderStep(s, e);
    AccountedStep(s, e);
  }

  lemma {:induction false} InvRun(s: State, events: seq<Event>, t: State)
    requires Inv(s) && Run(s, events, t)
    ensures Inv(t)
    decreases |events|
  {
    hide Inv, Enabled, Step;
    if events == [] {
    } else {
      InvStep(s, events[0]);
      InvRun(Step(s, events[0]), events[1..], t);
    }
  }

  // ----- What it means -----

  /** Safety over whole runs: every state any interleaving reaches satisfies the invariant. */
  lemma Safety(n: nat, capacity: nat, arrivals: nat, events: seq<Event>, s: State)
    requires n > 0 && capacity > 0 && Run(Init(n, capacity, arrivals), events, s)
    ensures Inv(s)
  {
    hide Inv, Run;
    InitInv(n, capacity, arrivals);
    InvRun(Init(n, capacity, arrivals), events, s);
  }

  /** Queued work never coexists with all live workers asleep. */
  lemma WorkIsNotStranded(s: State)
    requires Inv(s) && s.ring.count > 0
    ensures s.submitter.Pushed? || exists i :: 0 <= i < |s.workers| && !s.workers[i].Asleep? && !s.workers[i].Gone?
  {
    hide Fifo, InOrder, Accounted, Exclusive;
    if forall i :: 0 <= i < |s.workers| ==> s.workers[i].Asleep? || s.workers[i].Gone? {
      TotalZero(s.workers, Rechecks);
      assert s.workers[0].Asleep?;
    }
  }

  function Numbers(n: nat): (r: seq<nat>)
    ensures |r| == n && forall k :: 0 <= k < n ==> r[k] == k
  {
    seq(n, k => k)
  }

  lemma {:induction false} EachNumberOnce(n: nat, k: nat)
    ensures multiset(Numbers(n))[k] == if k < n then 1 else 0
  {
    if n == 0 {
    } else {
      EachNumberOnce(n - 1, k);
      assert Numbers(n) == Numbers(n - 1) + [n - 1];
    }
  }

  /** The submissions decided so far, accepted ones first, are the first ones, in order. */
  lemma DecidedInOrder(s: State)
    requires InOrder(s)
    ensures s.log.accepted + s.log.refused == Numbers(|s.log.accepted| + |s.log.refused|)
    ensures multiset(s.log.accepted) + multiset(s.log.refused) == multiset(Numbers(|s.log.accepted| + |s.log.refused|))
  {
    assert multiset(s.log.accepted + s.log.refused) == multiset(s.log.accepted) + multiset(s.log.refused);
  }

  /** No connection is ever closed twice; none is popped before the ones accepted earlier. */
  lemma ClosedAtMostOnce(s: State, k: nat)
    requires Inv(s)
    ensures multiset(s.log.closed)[k] <= 1 && s.log.popped <= s.log.accepted
  {
    hide NoLostWakeup, Exclusive, Draining, AllInHand, Ring.Contents;
    DecidedInOrder(s);
    EachNumberOnce(|s.log.accepted| + |s.log.refused|, k);
    assert multiset(s.log.accepted) == multiset(s.log.popped) + multiset(s.ring.Contents());
  }

  /** With nothing queued, nothing in hand and no submission under way: every accepted connection was
      served exactly once, and every submitted one was closed exactly once, accepted or not. */
  lemma AllServed(s: State)
    requires Inv(s) && s.ring.Empty() && s.submitter.Idle?
    requires forall i :: 0 <= i < |s.workers| ==> HandOf(s.workers[i]).Empty?
    ensures multiset(s.log.finished) == multiset(s.log.accepted) && s.log.popped == s.log.accepted
    ensures s.begun == |s.log.accepted| + |s.log.refused|
    ensures forall k: nat :: multiset(s.log.closed)[k] == if k < s.begun then 1 else 0
  {
    hide NoLostWakeup, Exclusive, Draining;
    NothingInHand(s.workers);
    assert s.ring.Contents() == [];
    assert multiset(s.log.finished) == multiset(s.log.popped);
    DecidedInOrder(s);
    forall k: nat ensures multiset(s.log.closed)[k] == if k < s.begun then 1 else 0 {
      EachNumberOnce(s.begun, k);
    }
  }

  /** After the last join every worker is gone and the queue is empty, so everything was served and closed. */
  lemma ExactlyOnce(s: State)
    requires Inv(s) && s.destroyer.Done?
    ensures s.ring.Empty() && forall i :: 0 <= i < |s.workers| ==> s.workers[i].Gone?
    ensures multiset(s.log.finished) == multiset(s.log.accepted) && s.log.popped == s.log.accepted
    ensures s.begun == |s.log.accepted| + |s.log.refused|
    ensures forall k: nat :: multiset(s.log.closed)[k] == if k < s.begun then 1 else 0
  {
    hide NoLostWakeup, Exclusive, Accounted, InOrder, Fifo;
    assert s.workers[0].Gone?;
    AllServed(s);
  }
}
