/**
  The class thread_apartment of kernel/vds_core/thread_apartment.h, one method for each
  critical section. The drain job and the histories are ghost state; the sections are the
  actions of SerialExecutorProtocol.
 */
module ThreadApartment {
  import opened SerialExecutorProtocol

  class ThreadApartmentObject {
    var taskQueue: seq<Callback>
    var isStopping: bool
    /** Whether empty_query_ holds a promise that has not been kept. */
    var emptyQuery: bool
    ghost var rest: State

    ghost function Abs(): State
      reads this
    {
      rest.(queue := taskQueue, stopping := isStopping)
    }

    ghost predicate Valid()
      reads this
    {
      Inv(Abs()) && emptyQuery == rest.promise.Waiting?
    }

    constructor ()
      ensures Valid() && Abs() == Init
    {
      taskQueue, isStopping, emptyQuery := [], false, false;
      rest := Init;
    }

    /** schedule, up to releasing the mutex; `ok` is false when the source's assertion fails. */
    method Schedule(callback: Callback) returns (ok: bool, needStart: bool)
      requires Valid()
      modifies this
      ensures Valid()
      ensures Next(old(Abs()), Action.Schedule(callback)) == if ok then Step(Abs()) else Refused
      ensures !ok ==> Abs() == old(Abs())
      ensures ok <==> !old(isStopping)
      ensures taskQueue == old(taskQueue) + if ok then [callback] else []
      ensures needStart <==> ok && |old(taskQueue)| == 0
    {
      InvNext(Abs(), Action.Schedule(callback));
      if isStopping {
        return false, false;
      }
      needStart := |taskQueue| == 0;
      taskQueue := taskQueue + [callback];
      rest := rest.(jobs := if needStart then rest.jobs + [Starting] else rest.jobs);
      ok := true;
    }

    /** The drain job reads the front of the queue; it is there. */
    method Fetch() returns (callback: Callback)
      requires Valid() && |rest.jobs| == 1 && rest.jobs[0].Fetching?
      modifies this`rest
      ensures Valid() && Next(old(Abs()), Action.Fetch(0)) == Step(Abs())
      ensures |taskQueue| > 0 && callback == taskQueue[0]
    {
      InvNext(Abs(), Action.Fetch(0));
      callback := taskQueue[0];
      rest := rest.(jobs := rest.jobs[0 := Executing(callback)], started := rest.started + [callback]);
    }

    /** The drain job pops the callback it has run; it ends when the queue is empty. */
    method Finish() returns (stop: bool)
      requires Valid() && |rest.jobs| == 1 && rest.jobs[0].Executing?
      modifies this
      ensures Valid() && Next(old(Abs()), Action.Finish(0)) == Step(Abs())
      ensures stop <==> |taskQueue| == 0
      ensures old(emptyQuery) && stop ==> rest.promise.Kept?
    {
      InvNext(Abs(), Action.Finish(0));
      rest := rest.(finished := rest.finished + [rest.jobs[0].callback]);
      taskQueue := taskQueue[1..];
      if |taskQueue| == 0 {
        rest := rest.(jobs := RemoveJob(rest.jobs, 0));
        if emptyQuery {
          emptyQuery := false;
          rest := rest.(promise := Kept, keptCount := rest.keptCount + 1);
        }
        return true;
      }
      rest := rest.(jobs := rest.jobs[0 := Fetching]);
      stop := false;
    }

    /** prepare_to_stop; `kept` tells whether the promise is kept at once. */
    method PrepareToStop() returns (ok: bool, kept: bool)
      requires Valid()
      modifies this
      ensures Valid()
      ensures Next(old(Abs()), Action.PrepareToStop) == if ok then Step(Abs()) else Refused
      ensures !ok ==> Abs() == old(Abs())
      ensures kept <==> ok && rest.promise.Kept?
    {
      InvNext(Abs(), Action.PrepareToStop);
      if isStopping {
        return false, false;
      }
      isStopping := true;
      if |taskQueue| == 0 {
        rest := rest.(promise := Kept, keptCount := rest.keptCount + 1);
        return true, true;
      }
      emptyQuery := true;
      rest := rest.(promise := Waiting);
      ok, kept := true, false;
    }
  }
}
