/**
  The serial executor of kernel/vds_core/thread_apartment.h as a transition system. schedule
  pushes a callback and starts a drain job when the queue was empty; the drain job runs the
  front callback, pops it, and goes on until the queue is empty; prepare_to_stop asks for a
  promise to be kept when that happens.
 */
module SerialExecutorProtocol {
  import opened Wrappers

  type Callback = nat

  /** Where a drain job is. */
  datatype Job =
    /** schedule has released the mutex and is about to hand the job to the worker pool. */
    | Starting
    | Queued
    /** At the head of the loop, about to read the front of the queue. */
    | Fetching
    | Executing(callback: Callback)

  datatype Promise = NotAsked | Waiting | Kept

  datatype State = State(
    queue: seq<Callback>,
    stopping: bool,
    promise: Promise,
    jobs: seq<Job>,
    /** How often the promise has been kept. */
    keptCount: nat,
    /** Histories: callbacks started, callbacks finished. */
    started: seq<Callback>,
    finished: seq<Callback>)

  datatype Action =
    | Schedule(callback: Callback)
    | HandOver(job: nat)
    | Begin(job: nat)
    | Fetch(job: nat)
    | Finish(job: nat)
    | PrepareToStop

  const Init := State([], false, NotAsked, [], 0, [], [])

  datatype Outcome =
    | Step(state: State)
    /** A vds_assert of the source fails; nothing changes. */
    | Refused
    /** The front of an empty queue would be read, or an empty queue popped. */
    | Crash
    | Disabled

  function RemoveJob(jobs: seq<Job>, i: nat): seq<Job>
    requires i < |jobs|
  {
    jobs[..i] + jobs[i + 1..]
  }

  function Next(s: State, a: Action): Outcome {
    match a
    case Schedule(c) =>
      if s.stopping then Refused
      else
        var needStart := |s.queue| == 0;
        var s1 := s.(queue := s.queue + [c]);
        Step(if needStart then s1.(jobs := s1.jobs + [Starting]) else s1)
    case HandOver(i) =>
      if i < |s.jobs| && s.jobs[i].Starting? then Step(s.(jobs := s.jobs[i := Queued])) else Disabled
    case Begin(i) =>
      if i < |s.jobs| && s.jobs[i].Queued? then Step(s.(jobs := s.jobs[i := Fetching])) else Disabled
    case Fetch(i) =>
      if !(i < |s.jobs| && s.jobs[i].Fetching?) then Disabled
      else if |s.queue| == 0 then Crash
      else Step(s.(jobs := s.jobs[i := Executing(s.queue[0])], started := s.started + [s.queue[0]]))
    case Finish(i) =>
      if !(i < |s.jobs| && s.jobs[i].Executing?) then Disabled
      else if |s.queue| == 0 then Crash
      else
        var s1 := s.(queue := s.queue[1..], finished := s.finished + [s.jobs[i].callback]);
        if |s1.queue| != 0 then Step(s1.(jobs := s1.jobs[i := Fetching]))
        else
          var s2 := s1.(jobs := RemoveJob(s1.jobs, i));
          Step(if s2.promise.Waiting? then s2.(promise := Kept, keptCount := s2.keptCount + 1) else s2)
    case PrepareToStop =>
      if s.stopping then Refused
      else if |s.queue| == 0 then Step(s.(stopping := true, promise := Kept, keptCount := s.keptCount + 1))
      else Step(s.(stopping := true, promise := Waiting))
  }

  /** The state after a sequence of steps; refused calls leave it unchanged. */
  function Run(actions: seq<Action>): Option<State> {
    if |actions| == 0 then Some(Init)
    else
      var before := Run(actions[..|actions| - 1]);
      if before.None? then None
      else
        match Next(before.value, actions[|actions| - 1])
        case Step(s) => Some(s)
        case Refused => before
        case Crash => None
        case Disabled => None
  }

  /** Whether prepare_to_stop has been called. */
  predicate Stopped(actions: seq<Action>) {
    PrepareToStop in actions
  }

  /** The callbacks passed to schedule before prepare_to_stop was called, in order. */
  function Scheduled(actions: seq<Action>): seq<Callback> {
    if |actions| == 0 then []
    else
      var before, a := actions[..|actions| - 1], actions[|actions| - 1];
      Scheduled(before) + if a.Schedule? && !Stopped(before) then [a.callback] else []
  }

  ghost predicate Inv(s: State) {
    // a drain job exists exactly when the queue is not empty, and never more than one
    && |s.jobs| == (if |s.queue| == 0 then 0 else 1)
    // a callback is executed while it is at the front
    && (|s.jobs| == 1 && s.jobs[0].Executing? ==> s.jobs[0].callback == s.queue[0])
    // the callbacks started are the finished ones and, while it runs, the front one
    && s.started == s.finished + (if |s.jobs| == 1 && s.jobs[0].Executing? then [s.queue[0]] else [])
    // the promise is kept once, not before the queue is empty, and the queue stays empty
    && (s.stopping <==> s.promise != NotAsked)
    && s.keptCount == (if s.promise.Kept? then 1 else 0)
    && (s.promise.Kept? ==> |s.queue| == 0)
    && (s.promise.Waiting? ==> |s.queue| != 0)
  }

  /** No step of the code reads or pops an empty queue, and every step keeps the invariant. */
  lemma InvNext(s: State, a: Action)
    requires Inv(s)
    ensures !Next(s, a).Crash?
    ensures Next(s, a).Step? ==> Inv(Next(s, a).state)
  {
  }

  /** A step adds the callback it is given to those finished and queued, and none gets lost. */
  lemma CallbacksKept(s: State, a: Action)
    requires Inv(s) && Next(s, a).Step?
    ensures var s' := Next(s, a).state;
            s'.finished + s'.queue == s.finished + s.queue + if a.Schedule? then [a.callback] else []
  {
    if a.Finish? {
      assert s.queue == [s.queue[0]] + s.queue[1..];
    }
  }

  /** schedule and prepare_to_stop are refused exactly when a stop has been asked for. */
  lemma RefusedIff(s: State, a: Action)
    ensures Next(s, a).Refused? <==> (a.Schedule? || a.PrepareToStop?) && s.stopping
    ensures (a.Schedule? || a.PrepareToStop?) && !s.stopping ==> Next(s, a).Step?
  {
  }

  /**
    After every interleaving the callbacks finished and queued are those scheduled before the stop,
    in order; refused calls change nothing.
   */
  lemma {:induction false} RunInv(actions: seq<Action>)
    ensures Run(actions).Some? ==>
              var s := Run(actions).value;
              Inv(s) && s.finished + s.queue == Scheduled(actions) && (s.stopping <==> Stopped(actions))
    decreases |actions|
  {
    if |actions| != 0 {
      var n := |actions| - 1;
      var before, a := actions[..n], actions[n];
      RunInv(before);
      assert actions == before + [a];
      if Run(before).Some? {
        var s := Run(before).value;
        InvNext(s, a);
        RefusedIff(s, a);
        if Next(s, a).Step? {
          StopAsked(s, a);
          CallbacksKept(s, a);
        }
        hide Next, Inv;
      }
    }
  }

  lemma StopAsked(s: State, a: Action)
    requires Next(s, a).Step?
    ensures Next(s, a).state.stopping <==> s.stopping || a.PrepareToStop?
  {
  }

  /** Callbacks start in the order in which they were scheduled, each once, one at a time. */
  lemma InOrder(actions: seq<Action>)
    requires Run(actions).Some?
    ensures var s := Run(actions).value;
            && s.finished <= s.started <= Scheduled(actions)
            && |s.started| <= |s.finished| + 1
  {
    RunInv(actions);
    var s := Run(actions).value;
    if |s.queue| > 0 {
      assert s.queue == [s.queue[0]] + s.queue[1..];
    }
  }

  /** The promise asked for has been kept once, exactly when everything scheduled is finished. */
  lemma PromiseKeptIff(actions: seq<Action>)
    requires Run(actions).Some?
    ensures var s := Run(actions).value;
            s.keptCount == if Stopped(actions) && s.finished == Scheduled(actions) then 1 else 0
  {
    RunInv(actions);
    var s := Run(actions).value;
    assert s.finished + [] == s.finished;
    assert s.finished == Scheduled(actions) ==> |s.queue| == 0;
  }

  /** A non-empty queue is never left alone: its drain job has a next step. */
  lemma Progress(actions: seq<Action>) returns (a: Action)
    requires Run(actions).Some? && |Run(actions).value.queue| > 0
    ensures !a.Schedule? && !a.PrepareToStop? && Next(Run(actions).value, a).Step?
  {
    RunInv(actions);
    a := match Run(actions).value.jobs[0]
      case Starting => HandOver(0)
      case Queued => Begin(0)
      case Fetching => Fetch(0)
      case Executing(_) => Finish(0);
  }

  // ----- A stop request is answered -----

  /** How many steps the drain job still has to take. */
  function Remaining(s: State): nat {
    if |s.queue| == 0 || |s.jobs| != 1 then 0
    else
      2 * (|s.queue| - 1) +
      (match s.jobs[0] case Starting => 4 case Queued => 3 case Fetching => 2 case Executing(_) => 1)
  }

  /** Without further scheduling the job finishes everything scheduled, and a stop asked for is answered. */
  lemma Drains(actions: seq<Action>) returns (steps: seq<Action>, end: State)
    requires Run(actions).Some?
    ensures var s := Run(actions).value;
      && Follows(s, steps, end) && |steps| == Remaining(s)
      && end.finished == Scheduled(actions) && |end.queue| == 0
      && end.keptCount == if Stopped(actions) then 1 else 0
  {
    RunInv(actions);
    steps, end := JobDrains(Run(actions).value);
    assert end.finished + [] == end.finished;
  }

  lemma {:induction false} JobDrains(s: State) returns (actions: seq<Action>, end: State)
    requires Inv(s)
    ensures Inv(end) && |end.queue| == 0 && end.finished + end.queue == s.finished + s.queue
    ensures end.stopping == s.stopping
    ensures |actions| == Remaining(s)
    ensures Follows(s, actions, end)
    decreases Remaining(s)
  {
    if |s.queue| == 0 {
      actions, end := [], s;
    } else {
      var a := match s.jobs[0]
        case Starting => HandOver(0)
        case Queued => Begin(0)
        case Fetching => Fetch(0)
        case Executing(_) => Finish(0);
      InvNext(s, a);
      CallbacksKept(s, a);
      var s' := Next(s, a).state;
      var rest, e := JobDrains(s');
      actions, end := [a] + rest, e;
      assert actions[1..] == rest;
    }
  }

  /** The drain job's own steps lead from s to end. */
  predicate Follows(s: State, actions: seq<Action>, end: State)
    decreases |actions|
  {
    if |actions| == 0 then s == end
    else
      && !actions[0].Schedule? && !actions[0].PrepareToStop?
      && Next(s, actions[0]).Step? && Follows(Next(s, actions[0]).state, actions[1..], end)
  }
}
