/**
  The class _mt_service of kernel/vds_core/mt_service.cpp, one method for each critical
  section. The worker threads, which the code does not look at, are ghost state; the sections
  are the actions of WorkerPoolProtocol.
 */
module MtService {
  import opened Wrappers
  import opened WorkerPoolProtocol

  class MtServiceObject {
    const processors: nat
    var queue: seq<Handler>
    /** work_threads_.size(). */
    var workThreads: nat
    var freeThreads: nat
    ghost var workers: seq<Worker>
    ghost var begun: seq<Handler>

    ghost function Abs(): State
      reads this
    {
      State(queue, workers, freeThreads, begun)
    }

    ghost predicate Valid()
      reads this
    {
      Inv(Cap(processors), Abs()) && workThreads == |workers|
    }

    constructor (processors: nat)
      ensures Valid() && Abs() == Init && this.processors == processors
    {
      this.processors := processors;
      queue, workThreads, freeThreads := [], 0, 0;
      workers, begun := [], [];
    }

    /** do_async: queue the handler, then start a thread or wake one. */
    method DoAsync(handler: Handler, ghost woken: Option<nat>)
      requires Valid() && Next(Cap(processors), Abs(), Action.DoAsync(handler, woken)).Some?
      modifies this
      ensures Valid() && Next(Cap(processors), old(Abs()), Action.DoAsync(handler, woken)) == Some(Abs())
      ensures queue == old(queue) + [handler] && begun == old(begun)
    {
      InvDoAsync(Cap(processors), Abs(), handler, woken);
      queue := queue + [handler];
      if 0 == freeThreads {
        var count := processors;
        if count < 1 {
          count := 1;
        }
        if workThreads < 16 * count {
          workThreads := workThreads + 1;
          workers := workers + [Running];
          return;
        }
      }
      if woken.Some? {
        workers := workers[woken.value := Parked(true)];
      }
    }

    /** The head of work_thread's loop: take a handler, leave the loop, or wait. */
    method Turn(ghost i: nat) returns (handler: Option<Handler>, leave: bool)
      requires Valid() && i < |workers| && workers[i].Running?
      modifies this
      ensures Valid() && Next(Cap(processors), old(Abs()), Action.Turn(i)) == Some(Abs())
      ensures handler == if |old(queue)| > 0 then Some(old(queue)[0]) else None
      ensures leave <==> workers[i].Gone?
    {
      InvTurn(Cap(processors), Abs(), i);
      if |queue| == 0 {
        freeThreads := freeThreads + 1;
        if 8 < freeThreads {
          freeThreads := freeThreads - 1;
          workers := workers[i := Gone];
          return None, true;
        }
        workers := workers[i := Parked(false)];
        return None, false;
      }
      handler, leave := Some(queue[0]), false;
      begun := begun + [queue[0]];
      queue := queue[1..];
      workers := workers[i := Running];
    }

    /** The return from the wait: take a handler, or wait again when somebody else was faster. */
    method Resume(ghost i: nat) returns (handler: Option<Handler>)
      requires Valid() && i < |workers| && workers[i].Parked?
      modifies this
      ensures Valid() && Next(Cap(processors), old(Abs()), Action.Resume(i)) == Some(Abs())
      ensures handler == if |old(queue)| > 0 then Some(old(queue)[0]) else None
    {
      ParkedAt(workers, i);
      InvResume(Cap(processors), Abs(), i);
      if |queue| == 0 {
        workers := workers[i := Parked(false)];
        return None;
      }
      freeThreads := freeThreads - 1;
      handler := Some(queue[0]);
      begun := begun + [queue[0]];
      queue := queue[1..];
      workers := workers[i := Running];
    }
  }
}
