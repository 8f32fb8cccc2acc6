/** The monitor of tcp_socket/Thread_Pool.hpp as an interleaved transition system: one mutex,
    one condition variable, a FIFO queue of tasks, N workers in `_start_func` and one thread
    that calls `push`.  Every atomic step of a thread is an `Action`; a run is any sequence of
    enabled actions. */
module Monitor {

  /** A `Task` is `socketIO` bound to a socket, so the socket identifies it. */
  type Task = int

  /** Where a worker stands in the body of `_start_func`. */
  datatype WorkerPc =
    | WantLock              // about to construct the lock_guard
    | Checking              // owns the mutex, about to evaluate isEmpty()
    | AtWait                // owns the mutex, isEmpty() was true, about to call thread_wait()
    | Asleep                // inside pthread_cond_wait, mutex released
    | Woken                 // inside pthread_cond_wait, must take the mutex again
    | AtPop                 // owns the mutex, isEmpty() was false, about to call pop()
    | Unlocking(task: Task) // owns the mutex, has popped, about to destroy the lock_guard
    | Running(task: Task)   // executing t()

  /** Where the accepting thread stands in `push`. */
  datatype ProducerPc =
    | Outside
    | Entering(task: Task)  // about to construct the lock_guard
    | Pushing(task: Task)   // owns the mutex, about to push
    | Signalling            // owns the mutex, has pushed, about to signal
    | Leaving               // owns the mutex, about to destroy the lock_guard

  datatype Owner = Nobody | Worker(id: nat) | Producer

  /** `pushed`, `popped` and `finished` record the history of the run. */
  datatype State = State(
    workers: seq<WorkerPc>,
    producer: ProducerPc,
    owner: Owner,
    queue: seq<Task>,
    pushed: seq<Task>,
    popped: seq<Task>,
    finished: seq<Task>)

  datatype Action =
    | Lock(w: nat)                // first acquisition, or re-acquisition inside cond_wait
    | Check(w: nat)
    | Wait(w: nat)
    | Spurious(w: nat)
    | Pop(w: nat)
    | Unlock(w: nat)
    | Finish(w: nat)
    | CallPush(task: Task)
    | PushLock
    | PushTask
    | Signal(woken: set<nat>)     // pthread_cond_signal wakes at least one waiter, if any waits
    | PushUnlock

  function Init(n: nat): State {
    State(seq(n, _ => WantLock), Outside, Nobody, [], [], [], [])
  }

  predicate IsAsleep(workers: seq<WorkerPc>, w: nat) {
    w < |workers| && workers[w].Asleep?
  }

  predicate SomeoneAsleep(workers: seq<WorkerPc>) {
    exists w: nat :: w < |workers| && IsAsleep(workers, w)
  }

  predicate Enabled(s: State, a: Action) {
    match a
    case Lock(w) => w < |s.workers| && (s.workers[w].WantLock? || s.workers[w].Woken?) && s.owner.Nobody?
    case Check(w) => w < |s.workers| && s.workers[w].Checking?
    case Wait(w) => w < |s.workers| && s.workers[w].AtWait?
    case Spurious(w) => IsAsleep(s.workers, w)
    case Pop(w) => w < |s.workers| && s.workers[w].AtPop? && s.queue != []
    case Unlock(w) => w < |s.workers| && s.workers[w].Unlocking?
    case Finish(w) => w < |s.workers| && s.workers[w].Running?
    case CallPush(_) => s.producer.Outside?
    case PushLock => s.producer.Entering? && s.owner.Nobody?
    case PushTask => s.producer.Pushing?
    case Signal(woken) =>
      && s.producer.Signalling?
      && (forall w :: w in woken ==> IsAsleep(s.workers, w))
      && (SomeoneAsleep(s.workers) ==> woken != {})
    case PushUnlock => s.producer.Leaving?
  }

  function Wake(workers: seq<WorkerPc>, woken: set<nat>): (r: seq<WorkerPc>)
    ensures |r| == |workers|
  {
    seq(|workers|, i requires 0 <= i < |workers| => if i in woken then Woken else workers[i])
  }

  function Next(s: State, a: Action): State
    requires Enabled(s, a)
  {
    match a
    case Lock(w) => s.(workers := s.workers[w := Checking], owner := Worker(w))
    case Check(w) => s.(workers := s.workers[w := if s.queue == [] then AtWait else AtPop])
    case Wait(w) => s.(workers := s.workers[w := Asleep], owner := Nobody)
    case Spurious(w) => s.(workers := s.workers[w := Woken])
    case Pop(w) =>
      s.(workers := s.workers[w := Unlocking(s.queue[0])], queue := s.queue[1..], popped := s.popped + [s.queue[0]])
    case Unlock(w) => s.(workers := s.workers[w := Running(s.workers[w].task)], owner := Nobody)
    case Finish(w) => s.(workers := s.workers[w := WantLock], finished := s.finished + [s.workers[w].task])
    case CallPush(t) => s.(producer := Entering(t))
    case PushLock => s.(producer := Pushing(s.producer.task), owner := Producer)
    case PushTask =>
      s.(producer := Signalling, queue := s.queue + [s.producer.task], pushed := s.pushed + [s.producer.task])
    case Signal(woken) => s.(producer := Leaving, workers := Wake(s.workers, woken))
    case PushUnlock => s.(producer := Outside, owner := Nobody)
  }

  predicate CanRun(s: State, run: seq<Action>)
    decreases |run|
  {
    run == [] || (Enabled(s, run[0]) && CanRun(Next(s, run[0]), run[1..]))
  }

  function After(s: State, run: seq<Action>): State
    requires CanRun(s, run)
    decreases |run|
  {
    if run == [] then s else After(Next(s, run[0]), run[1..])
  }

  /** s is a state of some run of a pool of n workers. */
  ghost predicate Reachable(n: nat, s: State) {
    exists run :: CanRun(Init(n), run) && After(Init(n), run) == s
  }

  // ---------- Folds over the workers ----------

  function Sum(workers: seq<WorkerPc>, f: WorkerPc -> int): int {
    if workers == [] then 0 else Sum(workers[..|workers| - 1], f) + f(workers[|workers| - 1])
  }

  lemma {:induction false} SumUpdate(workers: seq<WorkerPc>, w: nat, pc: WorkerPc, f: WorkerPc -> int)
    requires w < |workers|
    ensures Sum(workers[w := pc], f) == Sum(workers, f) - f(workers[w]) + f(pc)
  {
    var n := |workers| - 1;
    if w == n {
      assert workers[w := pc][..n] == workers[..n];
    } else {
      assert workers[w := pc][..n] == workers[..n][w := pc];
      SumUpdate(workers[..n], w, pc, f);
    }
  }

  lemma {:induction false} SumWake(workers: seq<WorkerPc>, woken: set<nat>, f: WorkerPc -> int, d: nat)
    requires f(Woken) == f(Asleep) + d
    requires forall w :: w in woken && w < |workers| ==> workers[w].Asleep?
    ensures Sum(workers, f) <= Sum(Wake(workers, woken), f) <= Sum(workers, f) + d * |workers|
    ensures (exists w :: w in woken && w < |workers|) ==> Sum(Wake(workers, woken), f) >= Sum(workers, f) + d
  {
    if workers == [] {
    } else {
      var n := |workers| - 1;
      assert Wake(workers, woken)[..n] == Wake(workers[..n], woken);
      SumWake(workers[..n], woken, f, d);
      assert d * |workers| == d * n + d;
    }
  }

  lemma {:induction false} SumConst(n: nat, pc: WorkerPc, f: WorkerPc -> int)
    ensures Sum(seq(n, _ => pc), f) == n * f(pc)
  {
    if n > 0 {
      assert seq(n, _ => pc)[..n - 1] == seq(n - 1, _ => pc);
      SumConst(n - 1, pc, f);
    }
  }

  lemma {:induction false} SumNonNegative(workers: seq<WorkerPc>, f: WorkerPc -> int)
    requires forall pc :: f(pc) >= 0
    ensures Sum(workers, f) >= 0
    ensures (forall w :: 0 <= w < |workers| ==> f(workers[w]) == 0) ==> Sum(workers, f) == 0
  {
    if workers == [] {
    } else {
      SumNonNegative(workers[..|workers| - 1], f);
    }
  }

  function Carries(t: Task): WorkerPc -> int {
    (pc: WorkerPc) => if (pc.Unlocking? || pc.Running?) && pc.task == t then 1 else 0
  }

  /** How many workers have popped t and not finished it. */
  function Held(workers: seq<WorkerPc>, t: Task): int {
    Sum(workers, Carries(t))
  }

  // ---------- The invariant ----------

  predicate OwnsMutex(pc: WorkerPc) {
    pc.Checking? || pc.AtWait? || pc.AtPop? || pc.Unlocking?
  }

  predicate ProducerOwnsMutex(pc: ProducerPc) {
    pc.Pushing? || pc.Signalling? || pc.Leaving?
  }

  /** 1 for an awake worker that will look at the queue, or pop, before it can sleep or run a task. */
  function Heading(pc: WorkerPc): int {
    if pc.WantLock? || pc.Woken? || pc.Checking? || pc.AtPop? then 1 else 0
  }

  predicate MutexInv(s: State) {
    && (forall w: nat :: w < |s.workers| ==> (OwnsMutex(s.workers[w]) <==> s.owner == Worker(w)))
    && (ProducerOwnsMutex(s.producer) <==> s.owner == Producer)
    && (s.owner.Worker? ==> s.owner.id < |s.workers|)
  }

  predicate CheckedInv(s: State) {
    forall w: nat :: w < |s.workers| ==>
      (s.workers[w].AtPop? ==> s.queue != []) && (s.workers[w].AtWait? ==> s.queue == [])
  }

  function Unsignalled(s: State): nat {
    if s.producer.Signalling? then 1 else 0
  }

  /** No wake-up is lost: while anyone sleeps, every queued task is matched by an awake worker
      on its way to the queue, or by the signal that is about to be sent. */
  predicate WakeupInv(s: State) {
    SomeoneAsleep(s.workers) ==> |s.queue| <= Sum(s.workers, Heading) + Unsignalled(s)
  }

  /** Every popped task is finished or in the hands of a worker, as many times as it was popped. */
  ghost predicate BalanceInv(s: State) {
    forall t :: multiset(s.popped)[t] == multiset(s.finished)[t] + Held(s.workers, t)
  }

  ghost predicate HandOffInv(s: State) {
    && s.pushed == s.popped + s.queue
    && BalanceInv(s)
  }

  ghost predicate Inv(s: State) {
    MutexInv(s) && CheckedInv(s) && WakeupInv(s) && HandOffInv(s)
  }

  lemma InitInv(n: nat)
    ensures Inv(Init(n))
  {
    forall t ensures Held(Init(n).workers, t) == 0 {
      SumConst(n, WantLock, Carries(t));
    }
  }

  lemma StepMutex(s: State, a: Action)
    requires Inv(s) && Enabled(s, a)
    ensures MutexInv(Next(s, a)) && CheckedInv(Next(s, a))
  {
  }

  /** The actions of one worker. */
  predicate ByWorker(a: Action) {
    a.Lock? || a.Check? || a.Wait? || a.Spurious? || a.Pop? || a.Unlock? || a.Finish?
  }

  lemma StepFifo(s: State, a: Action)
    requires Enabled(s, a) && s.pushed == s.popped + s.queue
    ensures Next(s, a).pushed == Next(s, a).popped + Next(s, a).queue
  {
    if a.Pop? {
      assert s.popped + s.queue == s.popped + [s.queue[0]] + s.queue[1..];
    } else if a.PushTask? {
      assert s.pushed + [s.producer.task] == s.popped + (s.queue + [s.producer.task]);
    }
  }

  lemma StepBalance(s: State, a: Action, t: Task)
    requires Enabled(s, a)
    requires multiset(s.popped)[t] == multiset(s.finished)[t] + Held(s.workers, t)
    ensures multiset(Next(s, a).popped)[t] == multiset(Next(s, a).finished)[t] + Held(Next(s, a).workers, t)
  {
    if ByWorker(a) {
      SumUpdate(s.workers, a.w, Next(s, a).workers[a.w], Carries(t));
    } else if a.Signal? {
      SumWake(s.workers, a.woken, Carries(t), 0);
    }
  }

  lemma StepHandOff(s: State, a: Action)
    requires Inv(s) && Enabled(s, a)
    ensures HandOffInv(Next(s, a))
  {
    StepFifo(s, a);
    forall t ensures multiset(Next(s, a).popped)[t] == multiset(Next(s, a).finished)[t] + Held(Next(s, a).workers, t) {
      StepBalance(s, a, t);
    }
  }

  lemma StepWakeup(s: State, a: Action)
    requires Inv(s) && Enabled(s, a)
    ensures WakeupInv(Next(s, a))
  {
    var s' := Next(s, a);
    if ByWorker(a) {
      SumUpdate(s.workers, a.w, s'.workers[a.w], Heading);
      SumNonNegative(s'.workers, Heading);
      if SomeoneAsleep(s'.workers) && s'.queue != [] {
        var v: nat :| v < |s'.workers| && IsAsleep(s'.workers, v);
        assert IsAsleep(s.workers, v);
      }
    } else if a.Signal? {
      SumWake(s.workers, a.woken, Heading, 1);
      if SomeoneAsleep(s'.workers) {
        var v: nat :| v < |s'.workers| && IsAsleep(s'.workers, v);
        assert IsAsleep(s.workers, v);
        var w :| w in a.woken;
        assert IsAsleep(s.workers, w);
      }
    }
  }

  lemma StepInv(s: State, a: Action)
    requires Inv(s) && Enabled(s, a)
    ensures Inv(Next(s, a))
  {
    StepMutex(s, a);
    StepHandOff(s, a);
    StepWakeup(s, a);
  }
}
