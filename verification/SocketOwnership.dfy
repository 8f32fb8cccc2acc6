/** The accepting loop of tcp_socket/server_tcp.hpp over the pool: every accepted socket is
    pushed as a task, and the worker that runs the task closes the socket when it ends. */
module SocketOwnership {
  import opened Basics
  import opened Monitor
  import opened PoolRuns

  /** The pool, the client sockets that are open, and the history of accepts and closes. */
  datatype Server = Server(pool: State, open: set<int>, accepted: seq<int>, closed: seq<int>)

  function Start(n: nat): Server {
    Server(Init(n), {}, [], [])
  }

  /** `accept` returns a socket that is not open; every other step is a step of the pool. */
  predicate CanStep(v: Server, a: Action) {
    Enabled(v.pool, a) && (a.CallPush? ==> a.task !in v.open)
  }

  /** `run` accepts a socket and calls `push`; the task's last act is `close`. */
  function Step(v: Server, a: Action): Server
    requires CanStep(v, a)
  {
    var v' := v.(pool := Next(v.pool, a));
    match a
    case CallPush(fd) => v'.(open := v.open + {fd}, accepted := v.accepted + [fd])
    case Finish(w) =>
      var fd := v.pool.workers[w].task;
      v'.(open := v.open - {fd}, closed := v.closed + [fd])
    case _ => v'
  }

  predicate CanServe(v: Server, run: seq<Action>)
    decreases |run|
  {
    run == [] || (CanStep(v, run[0]) && CanServe(Step(v, run[0]), run[1..]))
  }

  function Served(v: Server, run: seq<Action>): Server
    requires CanServe(v, run)
    decreases |run|
  {
    if run == [] then v else Served(Step(v, run[0]), run[1..])
  }

  function Handing(pc: ProducerPc, fd: int): nat {
    if (pc.Entering? || pc.Pushing?) && pc.task == fd then 1 else 0
  }

  /** How many tasks for fd exist: about to be pushed, queued, or in the hands of a worker. */
  function InFlight(s: State, fd: int): int {
    Handing(s.producer, fd) + multiset(s.queue)[fd] + Held(s.workers, fd)
  }

  predicate Owned(v: Server, fd: int) {
    && InFlight(v.pool, fd) == Bit(fd in v.open)
    && multiset(v.accepted)[fd] == multiset(v.closed)[fd] + Bit(fd in v.open)
  }

  ghost predicate OwnershipInv(v: Server) {
    Inv(v.pool) && forall fd :: Owned(v, fd)
  }

  lemma PopCount(q: seq<Task>, fd: int)
    requires q != []
    ensures multiset(q)[fd] == Bit(q[0] == fd) + multiset(q[1..])[fd]
  {
    assert q == [q[0]] + q[1..];
  }

  /** What a step adds to the number of tasks for fd. */
  function Change(v: Server, a: Action, fd: int): int
    requires CanStep(v, a)
  {
    if a == CallPush(fd) then 1
    else if a.Finish? && v.pool.workers[a.w].task == fd then -1
    else 0
  }

  lemma StepHeld(s: State, a: Action, fd: int)
    requires Enabled(s, a)
    ensures Held(Next(s, a).workers, fd) == Held(s.workers, fd) +
            if a.Pop? then Bit(s.queue[0] == fd) else if a.Finish? then -(Bit(s.workers[a.w].task == fd) as int) else 0
  {
    if ByWorker(a) {
      SumUpdate(s.workers, a.w, Next(s, a).workers[a.w], Carries(fd));
    } else if a.Signal? {
      SumWake(s.workers, a.woken, Carries(fd), 0);
    }
  }

  lemma StepQueued(s: State, a: Action, fd: int)
    requires Enabled(s, a)
    ensures multiset(Next(s, a).queue)[fd] == multiset(s.queue)[fd] +
            if a.Pop? then -(Bit(s.queue[0] == fd) as int) else if a.PushTask? then Bit(s.producer.task == fd) else 0
  {
    if a.Pop? {
      PopCount(s.queue, fd);
    }
  }

  lemma StepInFlight(v: Server, a: Action, fd: int)
    requires CanStep(v, a)
    ensures InFlight(Next(v.pool, a), fd) == InFlight(v.pool, fd) + Change(v, a, fd)
  {
    StepHeld(v.pool, a, fd);
    StepQueued(v.pool, a, fd);
  }

  lemma {:induction false} OneHolder(workers: seq<WorkerPc>, v: nat, t: Task)
    requires v < |workers| && Carries(t)(workers[v]) == 1
    ensures Held(workers, t) >= 1
  {
    SumNonNegative(workers[..|workers| - 1], Carries(t));
    if v < |workers| - 1 {
      OneHolder(workers[..|workers| - 1], v, t);
    }
  }

  lemma FinishedSocketWasOpen(v: Server, w: nat)
    requires OwnershipInv(v) && CanStep(v, Finish(w))
    ensures v.pool.workers[w].task in v.open
  {
    var fd := v.pool.workers[w].task;
    OneHolder(v.pool.workers, w, fd);
    assert Owned(v, fd);
  }

  lemma StepOwned(v: Server, a: Action, fd: int)
    requires CanStep(v, a) && Owned(v, fd)
    requires a.Finish? ==> v.pool.workers[a.w].task in v.open
    ensures Owned(Step(v, a), fd)
  {
    StepInFlight(v, a, fd);
  }

  lemma StepOwnership(v: Server, a: Action)
    requires OwnershipInv(v) && CanStep(v, a)
    ensures OwnershipInv(Step(v, a))
  {
    StepInv(v.pool, a);
    if a.Finish? {
      FinishedSocketWasOpen(v, a.w);
    }
    forall fd ensures Owned(Step(v, a), fd) {
      StepOwned(v, a, fd);
    }
  }

  lemma {:induction false} RunOwnership(v: Server, run: seq<Action>)
    requires OwnershipInv(v) && CanServe(v, run)
    ensures OwnershipInv(Served(v, run))
    ensures CanRun(v.pool, run) && Served(v, run).pool == After(v.pool, run)
    decreases |run|
  {
    if run == [] {
    } else {
      StepOwnership(v, run[0]);
      RunOwnership(Step(v, run[0]), run[1..]);
    }
  }

  /** The server state v is reached by some run of a server with n workers. */
  ghost predicate ServerReachable(n: nat, v: Server) {
    exists run :: CanServe(Start(n), run) && Served(Start(n), run) == v
  }

  lemma ReachableOwnership(n: nat, v: Server)
    requires ServerReachable(n, v)
    ensures OwnershipInv(v) && Reachable(n, v.pool)
  {
    InitInv(n);
    forall fd ensures Held(Init(n).workers, fd) == 0 {
      SumConst(n, WantLock, Carries(fd));
    }
    var run :| CanServe(Start(n), run) && Served(Start(n), run) == v;
    RunOwnership(Start(n), run);
  }

  lemma {:induction false} TwoHolders(workers: seq<WorkerPc>, v: nat, w: nat, t: Task)
    requires v < w < |workers| && Carries(t)(workers[v]) == 1 && Carries(t)(workers[w]) == 1
    ensures Held(workers, t) >= 2
  {
    var n := |workers| - 1;
    SumNonNegative(workers[..n], Carries(t));
    if w == n {
      OneHolder(workers[..n], v, t);
    } else {
      TwoHolders(workers[..n], v, w, t);
    }
  }

  /** No two workers ever serve the same socket, and a socket being served is open and neither
      queued again nor about to be pushed. */
  lemma NoSharedSocket(n: nat, s: Server, v: nat, w: nat)
    requires ServerReachable(n, s) && v < |s.pool.workers| && w < |s.pool.workers|
    requires s.pool.workers[v].Running?
    ensures s.pool.workers[v].task in s.open
    ensures s.pool.workers[v].task !in s.pool.queue
    ensures s.pool.workers[w].Running? && v != w ==> s.pool.workers[v].task != s.pool.workers[w].task
  {
    ReachableOwnership(n, s);
    var fd := s.pool.workers[v].task;
    OneHolder(s.pool.workers, v, fd);
    assert Owned(s, fd);
    if s.pool.workers[w].Running? && v != w && s.pool.workers[w].task == fd {
      TwoHolders(s.pool.workers, if v < w then v else w, if v < w then w else v, fd);
    }
  }

  /** The open client sockets are exactly those with a task, each with exactly one; every accept
      is matched by at most one close, and by exactly one when the socket is no longer open. */
  lemma SocketsAreOwned(n: nat, s: Server, fd: int)
    requires ServerReachable(n, s)
    ensures fd in s.open <==> InFlight(s.pool, fd) == 1
    ensures fd !in s.open <==> InFlight(s.pool, fd) == 0
    ensures multiset(s.accepted)[fd] == multiset(s.closed)[fd] + Bit(fd in s.open)
  {
    ReachableOwnership(n, s);
    assert Owned(s, fd);
  }

  /** When the server has nothing left to do, every accepted socket has been closed. */
  lemma SettledServerHasClosedAll(n: nat, s: Server)
    requires ServerReachable(n, s) && n > 0 && Stuck(s.pool)
    ensures s.open == {} && multiset(s.accepted) == multiset(s.closed)
  {
    ReachableOwnership(n, s);
    StuckOnlyWhenSettled(n, s.pool);
    forall fd ensures fd !in s.open {
      SumNonNegative(s.pool.workers, Carries(fd));
      assert Owned(s, fd);
    }
    forall fd ensures multiset(s.accepted)[fd] == multiset(s.closed)[fd] {
      assert Owned(s, fd);
    }
  }
}
