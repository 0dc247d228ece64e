/** thread_pool.c as an interleaving of threads: any number of workers, one thread that submits, one
    that shuts the pool down. Each event is one step of one thread between two points where another
    thread may run. `pthread_cond_wait` gives up the mutex and sleeps in one event; a signal wakes one
    sleeper if there is any; any sleeper may also wake for no reason. */
module ThreadPool {
  import opened WorkQueue

  /** A worker: at the lock, at the `while` test, in `cond_wait` (asleep, or awake and after the mutex
      again), between pop and signal, before the unlock, serving a client, leaving, gone. */
  datatype Worker = Locking | Checking | Asleep | Woken | Popped(item: nat) | Signalled(item: nat) | Serving(item: nat) | Leaving | Gone

  datatype Submitter = Idle | Locking | Checking | Asleep | Woken | Pushed | Signalled | Refusing | Closing

  datatype Destroyer = NotYet | Locking | Setting | WakingWorkers | WakingSubmitter | Unlocking | Joining(next: nat) | Done

  datatype Owner = Nobody | ByWorker(i: nat) | BySubmitter | ByDestroyer

  /** What has happened so far. Connections are named by the number of their submission, since
      descriptors are reused. */
  datatype Log = Log(accepted: seq<nat>, popped: seq<nat>, finished: seq<nat>, refused: seq<nat>, closed: seq<nat>)

  /** The pool and every thread's position; `arrivals` connections will come, `begun` have been submitted. */
  datatype State = State(
    ring: Ring<nat>, mutex: Owner, shutdown: bool,
    workers: seq<Worker>, submitter: Submitter, destroyer: Destroyer,
    arrivals: nat, begun: nat, log: Log)

  datatype WorkerOp = Lock | Wait | Wake | Pop | Signal | Unlock | Finish | GiveUp | Exit

  datatype SubmitOp = Begin | Lock | Wait | Wake | Push | SignalOne(sleeper: nat) | SignalNone | Unlock | Refuse | UnlockToClose | Close

  datatype DestroyOp = Begin | Lock | SetFlag | WakeWorkers | WakeSubmit | Unlock | Join | End

  datatype Event = Work(i: nat, w: WorkerOp) | Submit(p: SubmitOp) | Destroy(d: DestroyOp)

  predicate NoneAsleep(workers: seq<Worker>) {
    forall i :: 0 <= i < |workers| ==> !workers[i].Asleep?
  }

  // ----- worker_thread -----

  predicate WorkerCan(s: State, i: nat, op: WorkerOp) {
    i < |s.workers| &&
    var w := s.workers[i];
    match op
    case Lock => (w.Locking? || w.Woken?) && s.mutex.Nobody?
    case Wait => w.Checking? && s.ring.Empty() && !s.shutdown
    case Wake => w.Asleep?
    case Pop => w.Checking? && s.ring.Valid() && !s.ring.Empty()
    case Signal => w.Popped?
    case Unlock => w.Signalled?
    case Finish => w.Serving?
    case GiveUp => w.Checking? && s.shutdown && s.ring.Empty()
    case Exit => w.Leaving?
  }

  /** Where the worker goes next. */
  function WorkerNext(s: State, i: nat, op: WorkerOp): Worker
    requires WorkerCan(s, i, op)
  {
    match op
    case Lock => Worker.Checking
    case Wait => Worker.Asleep
    case Wake => Worker.Woken
    case Pop => Popped(s.ring.Item(0))
    case Signal => Worker.Signalled(s.workers[i].item)
    case Unlock => Serving(s.workers[i].item)
    case Finish => Worker.Locking
    case GiveUp => Leaving
    case Exit => Gone
  }

  /** A signal or broadcast on `not_full`. */
  function WakeSubmitter(p: Submitter): Submitter {
    if p.Asleep? then Submitter.Woken else p
  }

  function WorkerStep(s: State, i: nat, op: WorkerOp): State
    requires WorkerCan(s, i, op)
  {
    var t := s.(workers := s.workers[i := WorkerNext(s, i, op)]);
    match op
    case Lock => t.(mutex := ByWorker(i))
    case Wait => t.(mutex := Nobody)
    case Pop => t.(ring := s.ring.Pop(), log := s.log.(popped := s.log.popped + [s.ring.Item(0)]))
    case Signal => t.(submitter := WakeSubmitter(s.submitter))
    case Unlock => t.(mutex := Nobody)
    case Finish =>
      var item := s.workers[i].item;
      t.(log := s.log.(finished := s.log.finished + [item], closed := s.log.closed + [item]))
    case Exit => t.(mutex := Nobody)
    case _ => t
  }

  // ----- thread_pool_submit -----

  predicate SubmitCan(s: State, op: SubmitOp) {
    var p := s.submitter;
    match op
    case Begin => p.Idle? && s.begun < s.arrivals && !s.destroyer.Done?
    case Lock => (p.Locking? || p.Woken?) && s.mutex.Nobody?
    case Wait => p.Checking? && s.ring.Full() && !s.shutdown
    case Wake => p.Asleep?
    case Push => p.Checking? && s.begun > 0 && s.ring.Valid() && !s.ring.Full() && !s.shutdown
    case SignalOne(j) => p.Pushed? && j < |s.workers| && s.workers[j].Asleep?
    case SignalNone => p.Pushed? && NoneAsleep(s.workers)
    case Unlock => p.Signalled?
    case Refuse => p.Checking? && s.shutdown
    case UnlockToClose => p.Refusing?
    case Close => p.Closing? && s.begun > 0
  }

  function SubmitStep(s: State, op: SubmitOp): State
    requires SubmitCan(s, op)
  {
    match op
    case Begin => s.(submitter := Submitter.Locking, begun := s.begun + 1)
    case Lock => s.(submitter := Submitter.Checking, mutex := BySubmitter)
    case Wait => s.(submitter := Submitter.Asleep, mutex := Nobody)
    case Wake => s.(submitter := Submitter.Woken)
    case Push => s.(submitter := Pushed, ring := s.ring.Push(s.begun - 1), log := s.log.(accepted := s.log.accepted + [s.begun - 1]))
    case SignalOne(j) => s.(submitter := Submitter.Signalled, workers := s.workers[j := Worker.Woken])
    case SignalNone => s.(submitter := Submitter.Signalled)
    case Unlock => s.(submitter := Idle, mutex := Nobody)
    case Refuse => s.(submitter := Refusing)
    case UnlockToClose => s.(submitter := Closing, mutex := Nobody)
    case Close => s.(submitter := Idle, log := s.log.(refused := s.log.refused + [s.begun - 1], closed := s.log.closed + [s.begun - 1]))
  }

  // ----- thread_pool_destroy -----

  predicate DestroyCan(s: State, op: DestroyOp) {
    var d := s.destroyer;
    match op
    case Begin => d.NotYet?
    case Lock => d.Locking? && s.mutex.Nobody?
    case SetFlag => d.Setting?
    case WakeWorkers => d.WakingWorkers?
    case WakeSubmit => d.WakingSubmitter?
    case Unlock => d.Unlocking?
    case Join => d.Joining? && d.next < |s.workers| && s.workers[d.next].Gone?
    case End => d == Joining(|s.workers|) && s.submitter.Idle?
  }

  /** `pthread_cond_broadcast(&not_empty)`. */
  function WakeAll(workers: seq<Worker>): (r: seq<Worker>)
    ensures |r| == |workers|
  {
    seq(|workers|, i requires 0 <= i < |workers| => if workers[i].Asleep? then Worker.Woken else workers[i])
  }

  function DestroyStep(s: State, op: DestroyOp): State
    requires DestroyCan(s, op)
  {
    match op
    case Begin => s.(destroyer := Destroyer.Locking)
    case Lock => s.(destroyer := Setting, mutex := ByDestroyer)
    case SetFlag => s.(destroyer := WakingWorkers, shutdown := true)
    case WakeWorkers => s.(destroyer := WakingSubmitter, workers := WakeAll(s.workers))
    case WakeSubmit => s.(destroyer := Unlocking, submitter := WakeSubmitter(s.submitter))
    case Unlock => s.(destroyer := Joining(0), mutex := Nobody)
    case Join => s.(destroyer := Joining(s.destroyer.next + 1))
    case End => s.(destroyer := Done)
  }

  // ----- Runs -----

  predicate Enabled(s: State, e: Event) {
    match e
    case Work(i, op) => WorkerCan(s, i, op)
    case Submit(op) => SubmitCan(s, op)
    case Destroy(op) => DestroyCan(s, op)
  }

  function Step(s: State, e: Event): State
    requires Enabled(s, e)
  {
    match e
    case Work(i, op) => WorkerStep(s, i, op)
    case Submit(op) => SubmitStep(s, op)
    case Destroy(op) => DestroyStep(s, op)
  }

  /** A pool just started with `n` workers and room for `capacity` connections; `arrivals` will come. */
  function Init(n: nat, capacity: nat, arrivals: nat): State {
    State(Ring(seq(capacity, _ => 0), 0, 0, 0), Nobody, false, seq(n, _ => Worker.Locking), Idle, NotYet,
          arrivals, 0, Log([], [], [], [], []))
  }

  /** `t` is reached from `s` by these events in this order. */
  predicate Run(s: State, events: seq<Event>, t: State)
    decreases |events|
  {
    if events == [] then s == t
    else Enabled(s, events[0]) && Run(Step(s, events[0]), events[1..], t)
  }

  // ----- Counting over the workers -----

  function Total(workers: seq<Worker>, weight: Worker -> nat): nat {
    if workers == [] then 0 else weight(workers[0]) + Total(workers[1..], weight)
  }

  lemma {:induction false} TotalUpdate(workers: seq<Worker>, weight: Worker -> nat, i: nat, w: Worker)
    requires i < |workers|
    ensures Total(workers[i := w], weight) + weight(workers[i]) == Total(workers, weight) + weight(w)
  {
    var after := workers[i := w];
    if i == 0 {
      assert after[1..] == workers[1..];
    } else {
      assert after[1..] == workers[1..][i - 1 := w];
      TotalUpdate(workers[1..], weight, i - 1, w);
    }
  }

  lemma {:induction false} TotalZero(workers: seq<Worker>, weight: Worker -> nat)
    requires forall i :: 0 <= i < |workers| ==> weight(workers[i]) == 0
    ensures Total(workers, weight) == 0
  {
    if workers == [] {
    } else {
      TotalZero(workers[1..], weight);
    }
  }

  datatype Hand = Empty | One(item: nat)

  /** The connection a worker has in hand. */
  function HandOf(w: Worker): Hand {
    match w
    case Popped(item) => One(item)
    case Signalled(item) => One(item)
    case Serving(item) => One(item)
    case _ => Empty
  }

  function InHand(w: Worker): multiset<nat> {
    match HandOf(w)
    case Empty => multiset{}
    case One(item) => multiset{item}
  }

  function AllInHand(workers: seq<Worker>): multiset<nat> {
    if workers == [] then multiset{} else InHand(workers[0]) + AllInHand(workers[1..])
  }

  lemma SameSums(x: multiset<nat>, a: multiset<nat>, b: multiset<nat>, c: multiset<nat>, d: multiset<nat>)
    requires a + b == c + d
    ensures x + a + b == x + c + d
  {
    assert x + a + b == x + (a + b);
  }

  lemma {:induction false} InHandUpdate(workers: seq<Worker>, i: nat, w: Worker)
    requires i < |workers|
    ensures AllInHand(workers[i := w]) + InHand(workers[i]) == AllInHand(workers) + InHand(w)
  {
    var after := workers[i := w];
    if i == 0 {
      assert after[1..] == workers[1..];
    } else {
      hide InHand;
      assert after[1..] == workers[1..][i - 1 := w];
      InHandUpdate(workers[1..], i - 1, w);
      SameSums(InHand(workers[0]), AllInHand(after[1..]), InHand(workers[i]), AllInHand(workers[1..]), InHand(w));
    }
  }

  lemma Cancel(a: multiset<nat>, b: multiset<nat>, x: multiset<nat>)
    requires a + x == b + x
    ensures a == b
  {
    assert a == a + x - x && b == b + x - x;
  }

  lemma SameInHand(workers: seq<Worker>, i: nat, w: Worker)
    requires i < |workers| && HandOf(w) == HandOf(workers[i])
    ensures AllInHand(workers[i := w]) == AllInHand(workers)
  {
    InHandUpdate(workers, i, w);
    Cancel(AllInHand(workers[i := w]), AllInHand(workers), InHand(w));
  }

  lemma {:induction false} InHandWakeAll(workers: seq<Worker>)
    ensures AllInHand(WakeAll(workers)) == AllInHand(workers)
  {
    if workers == [] {
    } else {
      assert WakeAll(workers)[1..] == WakeAll(workers[1..]);
      InHandWakeAll(workers[1..]);
    }
  }

  lemma {:induction false} NothingInHand(workers: seq<Worker>)
    requires forall i :: 0 <= i < |workers| ==> HandOf(workers[i]).Empty?
    ensures AllInHand(workers) == multiset{}
  {
    if workers == [] {
    } else {
      NothingInHand(workers[1..]);
    }
  }
}
