/** The ThreadPool struct and the code of its three functions, cut where another thread may run. A turn of
    a thread runs its code from where it is to the next such point, on the fields in place, and decides
    there what the code decides: what it does is the one event the state machine allows it. */
module Pool {
  import opened Bytes
  import opened WorkQueue
  import opened ThreadPool
  import opened PoolSafety

  const THREAD_POOL_SIZE := 4
  const QUEUE_CAPACITY := 128

  /** Whose turn it is. A sleeper given a turn wakes for no reason; `sleeper` is the worker the system
      would like to wake if the submitter signals. */
  datatype Turn = OfWorker(i: nat) | OfSubmitter(sleeper: nat) | OfDestroyer

  /** The turn in which an event happens. */
  function TurnOf(e: Event): Turn {
    match e
    case Work(i, _) => OfWorker(i)
    case Submit(SignalOne(j)) => OfSubmitter(j)
    case Submit(_) => OfSubmitter(0)
    case Destroy(_) => OfDestroyer
  }

  /** The events of the thread whose turn it is. */
  predicate OfThread(e: Event, turn: Turn) {
    match turn
    case OfWorker(i) => e.Work? && e.i == i
    case OfSubmitter(_) => e.Submit?
    case OfDestroyer => e.Destroy?
  }

  /** What a turn makes of a state: an event of its thread, the preferred sleeper woken if there is such an
      event; or nothing, but only where the thread has none. */
  ghost predicate Moves(s: State, turn: Turn, done: Option<Event>) {
    match done
    case Some(e) => Enabled(s, e) && OfThread(e, turn) && forall f :: Enabled(s, f) && TurnOf(f) == turn ==> e == f
    case None => forall e :: OfThread(e, turn) ==> !Enabled(s, e)
  }

  function After(s: State, done: Option<Event>): State
    requires done.Some? ==> Enabled(s, done.value)
  {
    if done.Some? then Step(s, done.value) else s
  }

  /** The turns of a schedule one after the other, and what each came to. */
  ghost predicate Plays(s: State, schedule: seq<Turn>, done: seq<Option<Event>>, t: State)
    decreases |schedule|
  {
    && |done| == |schedule|
    && if schedule == [] then s == t
       else Moves(s, schedule[0], done[0]) && Plays(After(s, done[0]), schedule[1..], done[1..], t)
  }

  function Taken(done: seq<Option<Event>>): seq<Event> {
    if done == [] then [] else (if done[0].Some? then [done[0].value] else []) + Taken(done[1..])
  }

  /** A schedule goes through an interleaving of the state machine. */
  lemma {:induction false} PlaysIsRun(s: State, schedule: seq<Turn>, done: seq<Option<Event>>, t: State)
    requires Plays(s, schedule, done, t)
    ensures Run(s, Taken(done), t)
    decreases |schedule|
  {
    hide Enabled, Step, OfThread;
    if schedule == [] {
    } else {
      PlaysIsRun(After(s, done[0]), schedule[1..], done[1..], t);
      if done[0].Some? {
        assert Taken(done)[0] == done[0].value && Taken(done)[1..] == Taken(done[1..]);
      } else {
        assert Taken(done) == Taken(done[1..]);
      }
    }
  }

  lemma {:induction false} PlaysOn(s: State, schedule: seq<Turn>, done: seq<Option<Event>>, t: State, turn: Turn, last: Option<Event>)
    requires Plays(s, schedule, done, t) && Moves(t, turn, last)
    ensures Plays(s, schedule + [turn], done + [last], After(t, last))
    decreases |schedule|
  {
    hide Enabled, Step, OfThread, TurnOf;
    if schedule == [] {
      assert [turn][1..] == [] && [last][1..] == [];
    } else {
      assert (schedule + [turn])[1..] == schedule[1..] + [turn] && (done + [last])[1..] == done[1..] + [last];
      PlaysOn(After(s, done[0]), schedule[1..], done[1..], t, turn, last);
    }
  }

  /** What the code may rely on without a test of its own. */
  lemma Relied(s: State)
    requires Inv(s)
    ensures s.ring.Valid() && (s.submitter.Checking? || s.submitter.Closing? ==> s.begun > 0)
    ensures s.destroyer.Joining? ==> s.destroyer.next <= |s.workers|
  {
    hide NoLostWakeup, Accounted, Exclusive, Ring.Contents;
  }

  lemma SameCrew(s: State, e: Event)
    requires Enabled(s, e)
    ensures |Step(s, e).workers| == |s.workers|
  {
    hide Ring.Contents, Ring.Item, Ring.Push, Ring.Pop;
  }

  lemma WorkersOwnTurn(s: State, e: Event)
    requires Enabled(s, e)
    ensures TurnOf(e).OfWorker? ==> TurnOf(e).i < |s.workers|
  {
  }

  class Pool {
    const queue: WorkQueue<nat>
    var mutex: Owner
    var shutdown: bool
    // Where each thread is in its code.
    var workers: seq<Worker>
    var submitter: Submitter
    var destroyer: Destroyer
    const arrivals: nat
    var begun: nat
    var log: Log

    ghost function View(): State
      reads this, queue, queue.items
    {
      State(queue.View(), mutex, shutdown, workers, submitter, destroyer, arrivals, begun, log)
    }

    /** `thread_pool_init`: everything zeroed, 4 workers about to take the mutex, room for 128 connections.
        It is where the runs of the state machine start. */
    constructor (arrivals: nat)
      ensures View() == Init(4, 128, arrivals) && Inv(View())
      ensures fresh(queue) && fresh(queue.items)
    {
      queue := new WorkQueue<nat>(QUEUE_CAPACITY, 0);
      mutex, shutdown, submitter, destroyer := Nobody, false, Idle, NotYet;
      workers := seq(THREAD_POOL_SIZE, _ => Worker.Locking);
      this.arrivals, begun, log := arrivals, 0, Log([], [], [], [], []);
      new;
      InitInv(THREAD_POOL_SIZE, QUEUE_CAPACITY, arrivals);
    }

    /** `worker_thread`, in worker `i`: what it does is all it could do, and it does nothing only where it
        has to wait for the mutex, or is gone. */
    method WorkerTurn(i: nat) returns (ghost done: Option<WorkerOp>)
      requires i < |workers| && Inv(View())
      modifies this`mutex, this`workers, this`submitter, this`log, queue`head, queue`count
      ensures forall op :: WorkerCan(old(View()), i, op) ==> done == Some(op)
      ensures match done
              case Some(op) => WorkerCan(old(View()), i, op) && View() == WorkerStep(old(View()), i, op)
              case None => View() == old(View())
      ensures Inv(View())
    {
      hide Inv, Ring.Contents, Ring.Item, Ring.Push;
      ghost var was := View();
      Relied(was);
      match workers[i] {
        case Locking | Woken =>
          if mutex != Nobody {
            return None;
          }
          mutex, workers, done := ByWorker(i), workers[i := Worker.Checking], Some(WorkerOp.Lock);
        case Checking =>
          if queue.count == 0 && !shutdown {
            mutex, workers, done := Nobody, workers[i := Worker.Asleep], Some(WorkerOp.Wait);
          } else if shutdown && queue.count == 0 {
            workers, done := workers[i := Leaving], Some(GiveUp);
          } else {
            var item := queue.Pop();
            workers, log, done := workers[i := Popped(item)], log.(popped := log.popped + [item]), Some(Pop);
          }
        case Asleep =>
          workers, done := workers[i := Worker.Woken], Some(WorkerOp.Wake);
        case Popped(item) =>
          submitter, workers, done := WakeSubmitter(submitter), workers[i := Worker.Signalled(item)], Some(Signal);
        case Signalled(item) =>
          mutex, workers, done := Nobody, workers[i := Serving(item)], Some(WorkerOp.Unlock);
        case Serving(item) =>
          log := log.(finished := log.finished + [item], closed := log.closed + [item]);
          workers, done := workers[i := Worker.Locking], Some(Finish);
        case Leaving =>
          mutex, workers, done := Nobody, workers[i := Gone], Some(Exit);
        case Gone =>
          return None;
      }
      InvStep(was, Work(i, done.value));
    }

    /** `pthread_cond_signal(&not_empty)`: wakes one worker that sleeps, the preferred one if it does; none
        if none does. */
    method SignalNotEmpty(preferred: nat) returns (ghost woken: Option<nat>)
      modifies this`workers
      ensures match woken
              case Some(j) => j < |old(workers)| && old(workers)[j].Asleep? && workers == old(workers)[j := Worker.Woken]
              case None => NoneAsleep(old(workers)) && workers == old(workers)
      ensures preferred < |old(workers)| && old(workers)[preferred].Asleep? ==> woken == Some(preferred)
    {
      if preferred < |workers| && workers[preferred].Asleep? {
        workers := workers[preferred := Worker.Woken];
        return Some(preferred);
      }
      for k := 0 to |workers|
        invariant workers == old(workers) && forall l :: 0 <= l < k ==> !workers[l].Asleep?
      {
        if workers[k].Asleep? {
          workers := workers[k := Worker.Woken];
          return Some(k);
        }
      }
      return None;
    }

    method SubmitterSignals(sleeper: nat) returns (ghost op: SubmitOp)
      requires submitter.Pushed?
      modifies this`workers, this`submitter
      ensures SubmitCan(old(View()), op) && View() == SubmitStep(old(View()), op)
      ensures forall p :: SubmitCan(old(View()), p) && (p.SignalOne? ==> p.sleeper == sleeper) ==> op == p
    {
      hide Ring.Contents, Ring.Item, Ring.Push, Ring.Valid;
      ghost var woken := SignalNotEmpty(sleeper);
      submitter, op := Submitter.Signalled, if woken.Some? then SignalOne(woken.value) else SignalNone;
    }

    /** `thread_pool_submit`, and between two calls of it the next arrival. */
    method SubmitterTurn(sleeper: nat) returns (ghost done: Option<SubmitOp>)
      requires Inv(View())
      modifies this`mutex, this`workers, this`submitter, this`begun, this`log, queue`tail, queue`count, queue.items
      ensures forall op :: SubmitCan(old(View()), op) && (op.SignalOne? ==> op.sleeper == sleeper) ==> done == Some(op)
      ensures match done
              case Some(op) => SubmitCan(old(View()), op) && View() == SubmitStep(old(View()), op)
              case None => View() == old(View()) && forall op :: !SubmitCan(old(View()), op)
      ensures Inv(View())
    {
      hide Inv, Ring.Contents, Ring.Item, Ring.Pop, Ring.Push, WakeAll;
      ghost var was := View();
      Relied(was);
      match submitter {
        case Idle =>
          if begun >= arrivals || destroyer.Done? {
            return None;
          }
          submitter, begun, done := Submitter.Locking, begun + 1, Some(SubmitOp.Begin);
        case Locking | Woken =>
          if mutex != Nobody {
            return None;
          }
          submitter, mutex, done := Submitter.Checking, BySubmitter, Some(SubmitOp.Lock);
        case Checking =>
          if queue.count == queue.items.Length && !shutdown {
            submitter, mutex, done := Submitter.Asleep, Nobody, Some(SubmitOp.Wait);
          } else if shutdown {
            submitter, done := Refusing, Some(Refuse);
          } else {
            queue.Push(begun - 1);
            submitter, log, done := Pushed, log.(accepted := log.accepted + [begun - 1]), Some(Push);
          }
        case Asleep =>
          submitter, done := Submitter.Woken, Some(SubmitOp.Wake);
        case Pushed =>
          ghost var op := SubmitterSignals(sleeper);
          done := Some(op);
        case Signalled =>
          submitter, mutex, done := Idle, Nobody, Some(SubmitOp.Unlock);
        case Refusing =>
          submitter, mutex, done := Closing, Nobody, Some(UnlockToClose);
        case Closing =>
          log := log.(refused := log.refused + [begun - 1], closed := log.closed + [begun - 1]);
          submitter, done := Idle, Some(Close);
      }
      InvStep(was, Submit(done.value));
    }

    /** `pthread_cond_broadcast(&not_empty)`. */
    method BroadcastNotEmpty()
      modifies this`workers
      ensures workers == WakeAll(old(workers))
    {
      var i := 0;
      while i < |workers|
        invariant i <= |workers| == |old(workers)|
        invariant workers == WakeAll(old(workers))[..i] + old(workers)[i..]
      {
        if workers[i].Asleep? {
          workers := workers[i := Worker.Woken];
        }
        i := i + 1;
      }
    }

    /** `thread_pool_destroy`. */
    method DestroyerTurn() returns (ghost done: Option<DestroyOp>)
      requires Inv(View())
      modifies this`mutex, this`shutdown, this`workers, this`submitter, this`destroyer
      ensures forall op :: DestroyCan(old(View()), op) ==> done == Some(op)
      ensures match done
              case Some(op) => DestroyCan(old(View()), op) && View() == DestroyStep(old(View()), op)
              case None => View() == old(View())
      ensures Inv(View())
    {
      hide Inv, Ring.Contents, Ring.Item;
      ghost var was := View();
      Relied(was);
      match destroyer {
        case NotYet =>
          destroyer, done := Destroyer.Locking, Some(DestroyOp.Begin);
        case Locking =>
          if mutex != Nobody {
            return None;
          }
          destroyer, mutex, done := Setting, ByDestroyer, Some(DestroyOp.Lock);
        case Setting =>
          destroyer, shutdown, done := WakingWorkers, true, Some(SetFlag);
        case WakingWorkers =>
          BroadcastNotEmpty();
          destroyer, done := WakingSubmitter, Some(WakeWorkers);
        case WakingSubmitter =>
          submitter := WakeSubmitter(submitter);
          destroyer, done := Unlocking, Some(WakeSubmit);
        case Unlocking =>
          destroyer, mutex, done := Joining(0), Nobody, Some(DestroyOp.Unlock);
        case Joining(i) =>
          if i < |workers| {
            if !workers[i].Gone? {
              return None;
            }
            destroyer, done := Joining(i + 1), Some(Join);
          } else {
            if !submitter.Idle? {
              return None;
            }
            destroyer, done := Done, Some(End);
          }
        case Done =>
          return None;
      }
      InvStep(was, Destroy(done.value));
    }

    /** Any turn: an event, or nothing where the thread has to wait. */
    method Take(turn: Turn) returns (ghost done: Option<Event>)
      requires turn.OfWorker? ==> turn.i < |workers|
      requires Inv(View())
      modifies this, queue, queue.items
      ensures Moves(old(View()), turn, done) && View() == After(old(View()), done)
      ensures Inv(View()) && |workers| == |old(workers)|
    {
      hide Inv, WorkerCan, SubmitCan, DestroyCan, WorkerStep, SubmitStep, DestroyStep, Ring.Contents, Ring.Item;
      ghost var was := View();
      done := None;
      match turn {
        case OfWorker(i) =>
          ghost var op := WorkerTurn(i);
          if op.Some? {
            done := Some(Work(i, op.value));
          }
        case OfSubmitter(sleeper) =>
          ghost var op := SubmitterTurn(sleeper);
          if op.Some? {
            done := Some(Submit(op.value));
          }
        case OfDestroyer =>
          ghost var op := DestroyerTurn();
          if op.Some? {
            done := Some(Destroy(op.value));
          }
      }
      if done.Some? {
        SameCrew(was, done.value);
      }
    }

    /** Whatever order the scheduler gives turns in, each of them does what its thread can do. */
    method RunSchedule(schedule: seq<Turn>) returns (ghost done: seq<Option<Event>>)
      requires Inv(View()) && forall k :: 0 <= k < |schedule| && schedule[k].OfWorker? ==> schedule[k].i < |workers|
      modifies this, queue, queue.items
      ensures Plays(old(View()), schedule, done, View()) && Inv(View())
    {
      hide Inv, Moves, Enabled, Step, TurnOf;
      done := [];
      for k := 0 to |schedule|
        invariant Inv(View()) && |workers| == |old(workers)|
        invariant Plays(old(View()), schedule[..k], done, View())
      {
        ghost var was := View();
        ghost var last := Take(schedule[k]);
        PlaysOn(old(View()), schedule[..k], done, was, schedule[k], last);
        assert schedule[..k + 1] == schedule[..k] + [schedule[k]];
        done := done + [last];
      }
      assert schedule[..|schedule|] == schedule;
    }

    /** And every interleaving of the state machine is one the scheduler can bring about. */
    method Replay(events: seq<Event>, ghost t: State)
      requires Inv(View()) && Run(View(), events, t)
      modifies this, queue, queue.items
      ensures View() == t
    {
      hide Inv, Step, WorkerCan, SubmitCan, DestroyCan;
      for k := 0 to |events|
        invariant Inv(View()) && Run(View(), events[k..], t)
      {
        assert events[k..][0] == events[k] && events[k..][1..] == events[k + 1..];
        WorkersOwnTurn(View(), events[k]);
        ghost var done := Take(TurnOf(events[k]));
      }
    }
  }
}
