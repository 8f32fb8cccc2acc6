/** What holds of every run of the pool, over all interleavings, spurious wake-ups and
    choices of the woken waiters. */
module PoolRuns {
  import opened Monitor

  // ---------- Safety ----------

  lemma {:induction false} InvAfter(s: State, run: seq<Action>)
    requires Inv(s) && CanRun(s, run)
    ensures Inv(After(s, run)) && |After(s, run).workers| == |s.workers|
    decreases |run|
  {
    if run == [] {
    } else {
      StepInv(s, run[0]);
      InvAfter(Next(s, run[0]), run[1..]);
    }
  }

  lemma ReachableInv(n: nat, s: State)
    requires Reachable(n, s)
    ensures Inv(s) && |s.workers| == n
  {
    var run :| CanRun(Init(n), run) && After(Init(n), run) == s;
    InitInv(n);
    InvAfter(Init(n), run);
  }

  /** No lost wake-up: while a worker sleeps, each queued task is matched by an awake worker
      heading for the queue or by a signal about to be sent.  So if a worker sleeps and nobody
      is heading for the queue or about to signal, no task is waiting. */
  lemma NoLostWakeup(n: nat, s: State)
    requires Reachable(n, s) && SomeoneAsleep(s.workers)
    ensures |s.queue| <= Sum(s.workers, Heading) + Unsignalled(s)
    ensures (forall w :: 0 <= w < n ==> w < |s.workers| && Heading(s.workers[w]) == 0) && !s.producer.Signalling?
            ==> s.queue == []
  {
    ReachableInv(n, s);
    SumNonNegative(s.workers, Heading);
  }

  /** At most one thread is inside a critical section, `pop` never meets an empty queue, a worker
      never goes to sleep on a non-empty queue, and no running task holds the mutex. */
  lemma MutualExclusion(n: nat, s: State, v: nat, w: nat)
    requires Reachable(n, s) && v < n && w < n
    ensures |s.workers| == n
    ensures OwnsMutex(s.workers[v]) && OwnsMutex(s.workers[w]) ==> v == w
    ensures OwnsMutex(s.workers[v]) ==> !ProducerOwnsMutex(s.producer)
    ensures s.workers[v].AtPop? ==> s.queue != []
    ensures s.workers[v].AtWait? ==> s.queue == []
    ensures s.workers[v].Running? ==> s.owner != Worker(v)
  {
    ReachableInv(n, s);
  }

  /** Tasks leave the queue in the order they entered it, and every pushed task is, exactly once,
      finished, in the hands of one worker, or queued. */
  lemma ExactlyOnceInOrder(n: nat, s: State, t: Task)
    requires Reachable(n, s)
    ensures s.pushed == s.popped + s.queue
    ensures multiset(s.pushed)[t] == multiset(s.finished)[t] + Held(s.workers, t) + multiset(s.queue)[t]
    ensures Held(s.workers, t) >= 0
  {
    ReachableInv(n, s);
    SumNonNegative(s.workers, Carries(t));
  }

  // ---------- Progress ----------

  /** The steps the pool takes by itself; pushing a new task and waking spuriously are up to
      the environment. */
  predicate BySystem(a: Action) {
    !a.CallPush? && !a.Spurious?
  }

  ghost predicate Stuck(s: State) {
    forall a :: Enabled(s, a) ==> !BySystem(a)
  }

  predicate Settled(s: State) {
    && s.queue == []
    && s.producer.Outside?
    && (forall w :: 0 <= w < |s.workers| ==> s.workers[w].Asleep?)
  }

  ghost function SignalStep(s: State): (a: Action)
    requires s.producer.Signalling?
    ensures Enabled(s, a) && BySystem(a)
  {
    if SomeoneAsleep(s.workers) then
      var w: nat :| w < |s.workers| && IsAsleep(s.workers, w);
      Signal({w})
    else
      Signal({})
  }

  lemma AwakeExists(s: State)
    requires Inv(s) && |s.workers| > 0 && !Settled(s) && s.owner.Nobody? && !s.producer.Entering?
    ensures exists w: nat :: w < |s.workers| && !s.workers[w].Asleep?
  {
    if forall w: nat :: w < |s.workers| ==> s.workers[w].Asleep? {
      SumNonNegative(s.workers, Heading);
      assert IsAsleep(s.workers, 0);
      assert false;
    }
  }

  /** The system step some thread can take in a state that is not settled. */
  ghost function NextStep(s: State): (a: Action)
    requires Inv(s) && |s.workers| > 0 && !Settled(s)
    ensures Enabled(s, a) && BySystem(a)
  {
    match s.owner
    case Worker(w) =>
      (match s.workers[w]
       case Checking => Check(w)
       case AtWait => Wait(w)
       case AtPop => Pop(w)
       case _ => Unlock(w))
    case Producer =>
      (match s.producer
       case Pushing(_) => PushTask
       case Signalling => SignalStep(s)
       case _ => PushUnlock)
    case Nobody =>
      if s.producer.Entering? then PushLock
      else AwakeExists(s); var w: nat :| w < |s.workers| && !s.workers[w].Asleep?;
        if s.workers[w].Running? then Finish(w) else Lock(w)
  }

  /** Deadlock freedom: the pool is stuck exactly when the queue is empty, nobody is pushing and
      every worker sleeps. */
  lemma StuckOnlyWhenSettled(n: nat, s: State)
    requires Reachable(n, s) && n > 0
    ensures Stuck(s) <==> Settled(s)
  {
    ReachableInv(n, s);
    if Stuck(s) && !Settled(s) {
      var a := NextStep(s);
      assert false;
    }
  }

  // ---------- Draining ----------

  function Rank(pc: WorkerPc): int {
    match pc
    case Asleep => 0
    case AtWait => 1
    case AtPop => 1
    case Checking => 2
    case WantLock => 3
    case Woken => 3
    case Running(_) => 4
    case Unlocking(_) => 5
  }

  function ProducerRank(pc: ProducerPc, n: nat): int {
    match pc
    case Outside => 0
    case Leaving => 1
    case Signalling => 3 * n + 2
    case Pushing(_) => 3 * n + 8
    case Entering(_) => 3 * n + 9
  }

  /** An upper bound on the number of system steps the pool can still take. */
  function Potential(s: State): int {
    Sum(s.workers, Rank) + 5 * |s.queue| + ProducerRank(s.producer, |s.workers|)
  }

  /** The steps an environment action can cause. */
  function Credit(a: Action, n: nat): nat {
    if a.Spurious? then 4 else if a.CallPush? then 3 * n + 10 else 0
  }

  function Credits(run: seq<Action>, n: nat): nat {
    if run == [] then 0 else Credit(run[0], n) + Credits(run[1..], n)
  }

  lemma StepPotential(s: State, a: Action)
    requires Enabled(s, a)
    ensures Potential(Next(s, a)) + 1 <= Potential(s) + Credit(a, |s.workers|)
  {
    if ByWorker(a) {
      SumUpdate(s.workers, a.w, Next(s, a).workers[a.w], Rank);
    } else if a.Signal? {
      SumWake(s.workers, a.woken, Rank, 3);
    }
  }

  /** Every run is bounded by what it started with and what the environment added to it. */
  lemma {:induction false} RunBound(s: State, run: seq<Action>)
    requires CanRun(s, run)
    ensures |run| + Potential(After(s, run)) <= Potential(s) + Credits(run, |s.workers|)
    ensures Potential(s) >= 0
    decreases |run|
  {
    SumNonNegative(s.workers, Rank);
    if run != [] {
      StepPotential(s, run[0]);
      RunBound(Next(s, run[0]), run[1..]);
    }
  }

  lemma {:induction false} NoCredits(run: seq<Action>, n: nat)
    requires forall a :: a in run ==> BySystem(a)
    ensures Credits(run, n) == 0
  {
    if run == [] {
    } else {
      assert BySystem(run[0]);
      NoCredits(run[1..], n);
    }
  }

  lemma SettledMeansDone(s: State)
    requires Inv(s) && Settled(s)
    ensures multiset(s.finished) == multiset(s.pushed)
  {
    assert s.pushed == s.popped;
    forall t ensures Held(s.workers, t) == 0 {
      SumNonNegative(s.workers, Carries(t));
    }
    assert forall t :: multiset(s.popped)[t] == multiset(s.finished)[t];
  }

  /** Every maximal run drains: with no further pushes and spurious wake-ups it has at most
      Potential(s) steps, and when no system step is left every pushed task has been finished
      exactly once and all workers sleep. */
  lemma MaximalRunsDrain(n: nat, s: State, run: seq<Action>)
    requires Reachable(n, s) && n > 0
    requires CanRun(s, run) && Stuck(After(s, run))
    ensures Settled(After(s, run))
    ensures multiset(After(s, run).finished) == multiset(After(s, run).pushed)
    ensures |run| <= Potential(s) + Credits(run, n)
    ensures (forall a :: a in run ==> BySystem(a)) ==> |run| <= Potential(s)
  {
    ReachableInv(n, s);
    InvAfter(s, run);
    var s' := After(s, run);
    if !Settled(s') {
      var a := NextStep(s');
      assert false;
    }
    SettledMeansDone(s');
    RunBound(s, run);
    RunBound(s', []);
    if forall a :: a in run ==> BySystem(a) {
      NoCredits(run, n);
    }
  }

  /** From every reachable state the pool can drain without help from the environment. */
  lemma {:induction false} CanDrain(s: State) returns (run: seq<Action>)
    requires Inv(s) && |s.workers| > 0
    ensures CanRun(s, run) && Settled(After(s, run))
    ensures forall a :: a in run ==> BySystem(a)
    ensures |run| <= Potential(s)
    decreases Potential(s)
  {
    RunBound(s, []);
    if Settled(s) {
      run := [];
    } else {
      var a := NextStep(s);
      StepInv(s, a);
      StepPotential(s, a);
      RunBound(Next(s, a), []);
      var rest := CanDrain(Next(s, a));
      run := [a] + rest;
      assert run[1..] == rest;
    }
  }
}
