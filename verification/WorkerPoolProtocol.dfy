/**
  The worker pool of kernel/vds_core/mt_service.cpp as a transition system, outside shutdown.
  Every action is one critical section: a call of do_async, one turn of a worker at the head
  of its loop, or one return from the wait on the condition variable.
 */
module WorkerPoolProtocol {
  import opened Wrappers

  type Handler = nat

  datatype Worker =
    /** Executing a handler, or on its way to the head of the loop. */
    | Running
    /** Asleep on the condition variable. */
    | Parked(notified: bool)
    /** Has left the loop; it stays in work_threads_. */
    | Gone

  /** The fields of the pool, with the history of handlers begun. */
  datatype State = State(
    queue: seq<Handler>,
    workers: seq<Worker>,
    freeThreads: nat,
    begun: seq<Handler>)

  datatype Action =
    /** The worker woken by notify_one, if any sleeps. */
    | DoAsync(handler: Handler, woken: Option<nat>)
    | Turn(worker: nat)
    | Resume(worker: nat)

  /** At most this many workers are parked; another one that finds no work leaves. */
  const SPARE: nat := 8

  const Init := State([], [], 0, [])

  /** The limit on the number of threads, from the number of processors reported. */
  function Cap(processors: nat): (r: nat)
    ensures r >= 16
  {
    16 * (if processors < 1 then 1 else processors)
  }

  /** notify_one; it is lost when nobody sleeps unnotified. */
  ghost function NotifyOne(workers: seq<Worker>, woken: Option<nat>): Option<seq<Worker>> {
    match woken
    case Some(i) => if i < |workers| && workers[i] == Parked(false) then Some(workers[i := Parked(true)]) else None
    case None => if Parked(false) in workers then None else Some(workers)
  }

  /** A worker takes the first handler of the queue. */
  function Take(s: State, i: nat): State
    requires i < |s.workers| && |s.queue| > 0
  {
    s.(queue := s.queue[1..], begun := s.begun + [s.queue[0]], workers := s.workers[i := Running])
  }

  ghost function Next(cap: nat, s: State, a: Action): Option<State> {
    match a
    case DoAsync(h, woken) =>
      var s1 := s.(queue := s.queue + [h]);
      if s1.freeThreads == 0 && |s1.workers| < cap then
        if woken.None? then Some(s1.(workers := s1.workers + [Running])) else None
      else
        var workers := NotifyOne(s1.workers, woken);
        if workers.None? then None else Some(s1.(workers := workers.value))
    case Turn(i) =>
      if i >= |s.workers| || !s.workers[i].Running? then None
      else if |s.queue| > 0 then Some(Take(s, i))
      else if SPARE < s.freeThreads + 1 then Some(s.(workers := s.workers[i := Gone]))
      else Some(s.(freeThreads := s.freeThreads + 1, workers := s.workers[i := Parked(false)]))
    case Resume(i) =>
      if i >= |s.workers| || !s.workers[i].Parked? then None
      else if |s.queue| == 0 then Some(s.(workers := s.workers[i := Parked(false)]))
      else if s.freeThreads == 0 then None
      else Some(Take(s.(freeThreads := s.freeThreads - 1), i))
  }

  /** The handlers passed to do_async, in order. */
  function Submitted(actions: seq<Action>): seq<Handler> {
    if |actions| == 0 then []
    else
      var a := actions[|actions| - 1];
      Submitted(actions[..|actions| - 1]) + if a.DoAsync? then [a.handler] else []
  }

  ghost function Run(cap: nat, actions: seq<Action>): Option<State> {
    if |actions| == 0 then Some(Init)
    else
      var before := Run(cap, actions[..|actions| - 1]);
      if before.None? then None else Next(cap, before.value, actions[|actions| - 1])
  }

  // ----- Counting -----

  function IsParked(x: Worker): nat {
    if x.Parked? then 1 else 0
  }

  function IsLive(x: Worker): nat {
    if x.Gone? then 0 else 1
  }

  function ParkedCount(workers: seq<Worker>): nat {
    if |workers| == 0 then 0 else ParkedCount(workers[1..]) + IsParked(workers[0])
  }

  function LiveCount(workers: seq<Worker>): nat {
    if |workers| == 0 then 0 else LiveCount(workers[1..]) + IsLive(workers[0])
  }

  lemma {:induction false} CountsPut(workers: seq<Worker>, i: nat, x: Worker)
    requires i < |workers|
    ensures ParkedCount(workers[i := x]) == ParkedCount(workers) - IsParked(workers[i]) + IsParked(x)
    ensures LiveCount(workers[i := x]) == LiveCount(workers) - IsLive(workers[i]) + IsLive(x)
  {
    if i == 0 {
      assert workers[i := x][1..] == workers[1..];
    } else {
      assert workers[i := x][1..] == workers[1..][i - 1 := x];
      CountsPut(workers[1..], i - 1, x);
    }
  }

  lemma {:induction false} CountsSnoc(workers: seq<Worker>, x: Worker)
    ensures ParkedCount(workers + [x]) == ParkedCount(workers) + IsParked(x)
    ensures LiveCount(workers + [x]) == LiveCount(workers) + IsLive(x)
  {
    if |workers| != 0 {
      assert (workers + [x])[1..] == workers[1..] + [x];
      CountsSnoc(workers[1..], x);
    }
  }

  /** Among live workers that are not all parked, one runs. */
  lemma {:induction false} SomeRunning(workers: seq<Worker>)
    requires ParkedCount(workers) < LiveCount(workers)
    ensures Running in workers
  {
    if workers[0] != Running {
      SomeRunning(workers[1..]);
      assert Running in workers[1..];
    }
  }

  lemma {:induction false} SomeParked(workers: seq<Worker>)
    requires ParkedCount(workers) > 0
    ensures Parked(true) in workers || Parked(false) in workers
  {
    if !workers[0].Parked? {
      SomeParked(workers[1..]);
    } else {
      assert workers[0] == Parked(true) || workers[0] == Parked(false);
    }
  }

  lemma {:induction false} ParkedAtMostLive(workers: seq<Worker>)
    ensures ParkedCount(workers) <= LiveCount(workers) <= |workers|
    ensures LiveCount(workers) < |workers| <==> Gone in workers
  {
    if |workers| != 0 {
      ParkedAtMostLive(workers[1..]);
    }
  }

  // ----- The invariant -----

  /** Some worker is awake, or has been notified: the queue will be looked at. */
  ghost predicate Attended(workers: seq<Worker>) {
    Running in workers || Parked(true) in workers
  }

  ghost predicate Inv(cap: nat, s: State) {
    && s.freeThreads == ParkedCount(s.workers) <= SPARE
    && |s.workers| <= cap
    // a worker leaves only when enough others stay
    && (LiveCount(s.workers) < |s.workers| ==> LiveCount(s.workers) >= SPARE)
    // no work is stranded
    && (|s.queue| > 0 ==> Attended(s.workers))
  }

  lemma AttendedPut(workers: seq<Worker>, i: nat, x: Worker)
    requires i < |workers| && (x == Running || x == Parked(true))
    ensures Attended(workers[i := x])
  {
    assert workers[i := x][i] == x;
  }

  lemma InvDoAsync(cap: nat, s: State, h: Handler, woken: Option<nat>)
    requires cap >= 1 && Inv(cap, s) && Next(cap, s, DoAsync(h, woken)).Some?
    ensures Inv(cap, Next(cap, s, DoAsync(h, woken)).value)
  {
    ParkedAtMostLive(s.workers);
    if s.freeThreads == 0 && |s.workers| < cap {
      CountsSnoc(s.workers, Running);
      assert (s.workers + [Running])[|s.workers|] == Running;
    } else if woken.Some? {
      CountsPut(s.workers, woken.value, Parked(true));
      AttendedPut(s.workers, woken.value, Parked(true));
    } else if s.freeThreads == 0 {
      SomeRunning(s.workers);
    } else {
      SomeParked(s.workers);
    }
  }

  lemma InvTurn(cap: nat, s: State, i: nat)
    requires Inv(cap, s) && Next(cap, s, Turn(i)).Some?
    ensures Inv(cap, Next(cap, s, Turn(i)).value)
  {
    var s' := Next(cap, s, Turn(i)).value;
    CountsPut(s.workers, i, s'.workers[i]);
    if |s.queue| > 0 {
      AttendedPut(s.workers, i, Running);
    } else {
      ParkedAtMostLive(s.workers);
      ParkedAtMostLive(s'.workers);
    }
  }

  lemma InvResume(cap: nat, s: State, i: nat)
    requires Inv(cap, s) && Next(cap, s, Resume(i)).Some?
    ensures Inv(cap, Next(cap, s, Resume(i)).value)
  {
    var s' := Next(cap, s, Resume(i)).value;
    CountsPut(s.workers, i, s'.workers[i]);
    if |s.queue| > 0 {
      AttendedPut(s.workers, i, Running);
    }
  }

  lemma InvNext(cap: nat, s: State, a: Action)
    requires cap >= 1 && Inv(cap, s) && Next(cap, s, a).Some?
    ensures Inv(cap, Next(cap, s, a).value)
  {
    match a
    case DoAsync(h, woken) => InvDoAsync(cap, s, h, woken);
    case Turn(i) => InvTurn(cap, s, i);
    case Resume(i) => InvResume(cap, s, i);
  }

  /** A step adds the handler it is given to those begun and queued, and none gets lost. */
  lemma HandlersKept(cap: nat, s: State, a: Action)
    requires Next(cap, s, a).Some?
    ensures var s' := Next(cap, s, a).value;
            s'.begun + s'.queue == s.begun + s.queue + if a.DoAsync? then [a.handler] else []
  {
    if !a.DoAsync? && |s.queue| > 0 {
      assert s.queue == [s.queue[0]] + s.queue[1..];
    }
  }

  /**
    Over every interleaving: freeThreads counts the parked workers, the number of threads
    stays within its limit, the handlers begun and queued are those passed to do_async, in
    order, and a non-empty queue always has a worker that is awake or being woken.
   */
  lemma {:induction false} RunInv(cap: nat, actions: seq<Action>)
    requires cap >= 1 && Run(cap, actions).Some?
    ensures Inv(cap, Run(cap, actions).value)
    ensures Run(cap, actions).value.begun + Run(cap, actions).value.queue == Submitted(actions)
    decreases |actions|
  {
    if |actions| != 0 {
      var n := |actions| - 1;
      RunInv(cap, actions[..n]);
      InvNext(cap, Run(cap, actions[..n]).value, actions[n]);
      HandlersKept(cap, Run(cap, actions[..n]).value, actions[n]);
      hide Next, Inv;
    }
  }

  /** do_async can always be called: some thread, or nobody, is there to be woken. */
  lemma DoAsyncEnabled(cap: nat, s: State, h: Handler) returns (woken: Option<nat>)
    ensures Next(cap, s, DoAsync(h, woken)).Some?
  {
    woken := None;
    if !(s.freeThreads == 0 && |s.workers| < cap) && Parked(false) in s.workers {
      var i: nat :| i < |s.workers| && s.workers[i] == Parked(false);
      woken := Some(i);
    }
  }

  /** A thread is started exactly when a handler comes and none is parked, up to 16 for every processor. */
  lemma PoolGrows(processors: nat, s: State, a: Action)
    requires Inv(Cap(processors), s) && Next(Cap(processors), s, a).Some?
    ensures |Next(Cap(processors), s, a).value.workers| == |s.workers| +
            if a.DoAsync? && ParkedCount(s.workers) == 0
               && |s.workers| < (if processors == 0 then 16 else 16 * processors) then 1 else 0
  {
    hide ParkedCount, LiveCount;
  }

  /** A worker leaves the pool exactly when it finds no handler and eight others are parked; otherwise it parks. */
  lemma WorkerLeavesIff(cap: nat, s: State, i: nat)
    requires Inv(cap, s) && Next(cap, s, Turn(i)).Some?
    ensures i < |s.workers| <= |Next(cap, s, Turn(i)).value.workers|
    ensures Next(cap, s, Turn(i)).value.workers[i] ==
            if |s.queue| > 0 then Running else if ParkedCount(s.workers) >= 8 then Gone else Parked(false)
  {
    hide ParkedCount, LiveCount;
  }

  /** The step needs no further notification: the worker runs, or has been notified. */
  predicate AwakeStep(s: State, a: Action) {
    a.Turn? || (a.Resume? && a.worker < |s.workers| && s.workers[a.worker] == Parked(true))
  }

  lemma CanBegin(cap: nat, s: State) returns (a: Action)
    requires cap >= 1 && Inv(cap, s) && |s.queue| > 0
    ensures AwakeStep(s, a) && Next(cap, s, a).Some?
    ensures Next(cap, s, a).value.begun == s.begun + [s.queue[0]]
  {
    if Running in s.workers {
      var i: nat :| i < |s.workers| && s.workers[i] == Running;
      a := Turn(i);
    } else {
      var i: nat :| i < |s.workers| && s.workers[i] == Parked(true);
      ParkedAt(s.workers, i);
      a := Resume(i);
    }
  }

  /** The first handler of the queue can always be begun next, by a worker that needs no further notification. */
  lemma NotStranded(cap: nat, actions: seq<Action>) returns (a: Action)
    requires cap >= 1 && Run(cap, actions).Some? && |Run(cap, actions).value.queue| > 0
    ensures var s := Run(cap, actions).value;
      && AwakeStep(s, a)
      && Next(cap, s, a).Some? && Next(cap, s, a).value.begun == s.begun + [s.queue[0]]
  {
    RunInv(cap, actions);
    a := CanBegin(cap, Run(cap, actions).value);
  }

  // ----- Without further scheduling -----

  /** The state after further steps. */
  ghost function After(cap: nat, s: State, actions: seq<Action>): Option<State>
    decreases |actions|
  {
    if |actions| == 0 then Some(s)
    else if Next(cap, s, actions[0]).None? then None
    else After(cap, Next(cap, s, actions[0]).value, actions[1..])
  }

  /** Every step of a worker takes the first handler, if there is one. */
  lemma WorkerStep(cap: nat, s: State, a: Action)
    requires cap >= 1 && Inv(cap, s) && !a.DoAsync? && Next(cap, s, a).Some?
    ensures var s1 := Next(cap, s, a).value;
      && Inv(cap, s1) && s1.begun + s1.queue == s.begun + s.queue
      && s1.queue == (if |s.queue| > 0 then s.queue[1..] else [])
  {
    InvNext(cap, s, a);
    HandlersKept(cap, s, a);
  }

  lemma {:induction false} QueueShrinks(cap: nat, s: State, actions: seq<Action>)
    requires cap >= 1 && Inv(cap, s) && (forall a :: a in actions ==> !a.DoAsync?) && After(cap, s, actions).Some?
    ensures var end, n := After(cap, s, actions).value, |actions|;
      && Inv(cap, end) && end.begun + end.queue == s.begun + s.queue
      && end.queue == (if n <= |s.queue| then s.queue[n..] else [])
    decreases |actions|
  {
    hide Next;
    if |actions| > 0 {
      assert actions[0] in actions;
      WorkerStep(cap, s, actions[0]);
      QueueShrinks(cap, Next(cap, s, actions[0]).value, actions[1..]);
    }
  }

  /**
    Under every schedule of the workers, with spurious wake-ups too: n steps begin the first n
    handlers of the queue, so as many steps as it is long begin every handler passed to do_async.
   */
  lemma EveryScheduleDrains(cap: nat, actions: seq<Action>, steps: seq<Action>)
    requires cap >= 1 && Run(cap, actions).Some? && forall a :: a in steps ==> !a.DoAsync?
    requires After(cap, Run(cap, actions).value, steps).Some?
    ensures var before, end, n := Run(cap, actions).value, After(cap, Run(cap, actions).value, steps).value, |steps|;
      && end.begun + end.queue == Submitted(actions)
      && end.queue == (if n <= |before.queue| then before.queue[n..] else [])
      && (n >= |before.queue| ==> end.begun == Submitted(actions))
  {
    RunInv(cap, actions);
    QueueShrinks(cap, Run(cap, actions).value, steps);
    hide Run, After, Inv;
    var end := After(cap, Run(cap, actions).value, steps).value;
    assert end.begun + [] == end.begun;
  }

  /** Such a schedule exists, of exactly that length, and none of its steps needs a further notification. */
  lemma Drains(cap: nat, actions: seq<Action>) returns (steps: seq<Action>)
    requires cap >= 1 && Run(cap, actions).Some?
    ensures var s := Run(cap, actions).value;
      && |steps| == |s.queue| && (forall a :: a in steps ==> !a.DoAsync?)
      && After(cap, s, steps).Some? && After(cap, s, steps).value.begun == Submitted(actions)
      && forall i :: 0 <= i < |steps| ==>
           After(cap, s, steps[..i]).Some? && AwakeStep(After(cap, s, steps[..i]).value, steps[i])
  {
    RunInv(cap, actions);
    steps := AwakeSchedule(cap, Run(cap, actions).value);
    EveryScheduleDrains(cap, actions, steps);
  }

  lemma {:induction false} AwakeSchedule(cap: nat, s: State) returns (actions: seq<Action>)
    requires cap >= 1 && Inv(cap, s)
    ensures |actions| == |s.queue| && forall a :: a in actions ==> !a.DoAsync?
    ensures After(cap, s, actions).Some?
    ensures forall i :: 0 <= i < |actions| ==>
      After(cap, s, actions[..i]).Some? && AwakeStep(After(cap, s, actions[..i]).value, actions[i])
    decreases |s.queue|
  {
    if |s.queue| == 0 {
      actions := [];
    } else {
      var a := CanBegin(cap, s);
      hide Next, Inv;
      WorkerStep(cap, s, a);
      var s1 := Next(cap, s, a).value;
      var more := AwakeSchedule(cap, s1);
      actions := [a] + more;
      assert actions[1..] == more;
      forall i | 0 <= i < |actions|
        ensures After(cap, s, actions[..i]).Some? && AwakeStep(After(cap, s, actions[..i]).value, actions[i])
      {
        if i > 0 {
          assert actions[..i][0] == a && actions[..i][1..] == more[..i - 1];
        }
      }
    }
  }

  lemma {:induction false} ParkedAt(workers: seq<Worker>, i: nat)
    requires i < |workers| && workers[i].Parked?
    ensures ParkedCount(workers) > 0
  {
    if i != 0 {
      ParkedAt(workers[1..], i - 1);
    }
  }
}
