/** The pool as the object it is in the program: fields updated in place, one atomic step at a
    time, proved against the transition system of `Monitor`. */
module ThreadPool {
  import opened Monitor

  class Pool {
    var taskQueue: seq<Task>
    var mtx: Owner
    var workers: seq<WorkerPc>
    var producer: ProducerPc
    ghost var pushed: seq<Task>
    ghost var popped: seq<Task>
    ghost var finished: seq<Task>

    ghost function View(): State
      reads this
    {
      State(workers, producer, mtx, taskQueue, pushed, popped, finished)
    }

    /** The constructor followed by `run`: n workers about to enter their loop. */
    constructor (n: nat)
      ensures View() == Init(n)
    {
      workers := seq(n, _ => WantLock);
      producer := Outside;
      mtx := Nobody;
      taskQueue := [];
      pushed, popped, finished := [], [], [];
    }

    predicate IsEmpty()
      reads this
    {
      taskQueue == []
    }

    method LockMutex(me: Owner)
      requires mtx.Nobody?
      modifies this`mtx
      ensures mtx == me
    {
      mtx := me;
    }

    method UnlockMutex()
      modifies this`mtx
      ensures mtx == Nobody
    {
      mtx := Nobody;
    }

    method PopTask() returns (t: Task)
      requires !IsEmpty()
      modifies this`taskQueue, this`popped
      ensures [t] + taskQueue == old(taskQueue) && popped == old(popped) + [t]
    {
      t := taskQueue[0];
      taskQueue := taskQueue[1..];
      popped := popped + [t];
    }

    /** The statement worker w executes next in `_start_func`. */
    method WorkerStep(w: nat, a: Action)
      requires Enabled(View(), a) && ByWorker(a) && a.w == w
      modifies this
      ensures View() == Next(old(View()), a)
    {
      match workers[w] {
        case WantLock =>
          LockMutex(Worker(w));
          workers := workers[w := Checking];
        case Checking =>
          workers := workers[w := if IsEmpty() then AtWait else AtPop];
        case AtWait =>
          UnlockMutex();
          workers := workers[w := Asleep];
        case Asleep =>
          workers := workers[w := Woken];
        case Woken =>
          LockMutex(Worker(w));
          workers := workers[w := Checking];
        case AtPop =>
          var t := PopTask();
          workers := workers[w := Unlocking(t)];
        case Unlocking(t) =>
          UnlockMutex();
          workers := workers[w := Running(t)];
        case Running(t) =>
          finished := finished + [t];
          workers := workers[w := WantLock];
      }
    }

    /** The statement the accepting thread executes next in `push`. */
    method PusherStep(a: Action)
      requires Enabled(View(), a) && !ByWorker(a)
      modifies this
      ensures View() == Next(old(View()), a)
    {
      match producer {
        case Outside =>
          producer := Entering(a.task);
        case Entering(t) =>
          LockMutex(Producer);
          producer := Pushing(t);
        case Pushing(t) =>
          taskQueue := taskQueue + [t];
          pushed := pushed + [t];
          producer := Signalling;
        case Signalling =>
          workers := Wake(workers, a.woken);
          producer := Leaving;
        case Leaving =>
          UnlockMutex();
          producer := Outside;
      }
    }

    /** Any schedule of enabled steps leaves the object in the state the transition system
        reaches by the same run; with `PoolRuns` this carries every theorem over to the object. */
    method Run(schedule: seq<Action>)
      requires CanRun(View(), schedule)
      modifies this
      ensures View() == After(old(View()), schedule)
    {
      ghost var start := View();
      for i := 0 to |schedule|
        invariant CanRun(View(), schedule[i..])
        invariant After(View(), schedule[i..]) == After(start, schedule)
      {
        var a := schedule[i];
        assert schedule[i..][1..] == schedule[i + 1..];
        if ByWorker(a) {
          WorkerStep(a.w, a);
        } else {
          PusherStep(a);
        }
      }
    }
  }
}
