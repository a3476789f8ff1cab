/**
  The class shared_mutex of kernel/vds_core/legacy.h. Each method is one critical section of
  the code, from acquiring the internal mutex to releasing it or sleeping on a gate; the ghost
  field tells where every thread is. The sections are the actions of SharedMutexProtocol.
 */
module SharedMutex {
  import opened Wrappers
  import opened SharedMutexProtocol

  class SharedMutexObject {
    /** state_: the write bit and the number of readers in one word. */
    var state: nat
    ghost var threads: map<Thread, ThreadState>

    ghost function Abs(): State
      reads this
    {
      State(state, threads)
    }

    ghost predicate Valid()
      reads this
    {
      Inv(Abs())
    }

    constructor (ghost n: nat)
      ensures Valid() && Abs() == Init(n)
    {
      state := 0;
      threads := Init(n).threads;
      new;
      InitInv(n);
    }

    /** lock, up to the first wait or to its end; true when the thread is inside. */
    method LockSection(ghost t: Thread) returns (entered: bool)
      requires Valid() && t in threads && (threads[t].Idle? || threads[t].WaitWrite?)
      modifies this
      ensures Valid() && Next(old(Abs()), Lock(t)) == Some(Abs())
      ensures entered <==> threads[t].Writing?
      ensures entered <==> !Owned(old(threads)) && |ReadersIn(old(threads))| == 0
    {
      ghost var before := Abs();
      Enabled(before, t);
      EntersIff(before, Lock(t));
      WordFacts(before);
      InvNext(before, Lock(t));
      if state >= WRITE_ENTERED {
        threads := threads[t := WaitWrite(false)];
        return false;
      }
      state := state + WRITE_ENTERED;
      entered := state % WRITE_ENTERED == 0;
      threads := threads[t := if entered then Writing else WaitReaders(false)];
    }

    /** lock, after waking on gate2. */
    method DrainSection(ghost t: Thread) returns (entered: bool)
      requires Valid() && t in threads && threads[t].WaitReaders?
      modifies this
      ensures Valid() && Next(old(Abs()), LockDrained(t)) == Some(Abs())
      ensures entered <==> threads[t].Writing?
      ensures entered <==> |ReadersIn(old(threads))| == 0
    {
      Enabled(Abs(), t);
      EntersIff(Abs(), LockDrained(t));
      InvNext(Abs(), LockDrained(t));
      entered := state % WRITE_ENTERED == 0;
      threads := threads[t := if entered then Writing else WaitReaders(false)];
    }

    /** try_lock with the internal mutex acquired. */
    method TryLockSection(ghost t: Thread) returns (entered: bool)
      requires Valid() && t in threads && threads[t].Idle?
      modifies this
      ensures Valid() && Next(old(Abs()), TryLock(t)) == Some(Abs())
      ensures entered <==> threads[t].Writing?
      ensures entered <==> !Owned(old(threads)) && |ReadersIn(old(threads))| == 0
    {
      Enabled(Abs(), t);
      EntersIff(Abs(), TryLock(t));
      InvNext(Abs(), TryLock(t));
      if state == 0 {
        state := WRITE_ENTERED;
        threads := threads[t := Writing];
        return true;
      }
      entered := false;
    }

    /** unlock: the word is cleared whole, which is safe because no reader is inside. */
    method UnlockSection(ghost t: Thread)
      requires Valid() && t in threads && threads[t].Writing?
      modifies this
      ensures Valid() && Next(old(Abs()), Unlock(t)) == Some(Abs())
      ensures old(Abs()).Readers() == 0
    {
      InvNext(Abs(), Unlock(t));
      state := 0;
      threads := threads[t := Unlocking];
    }

    /** unlock, after the internal mutex has been released. */
    ghost method NotifySection(t: Thread)
      requires Valid() && t in threads && threads[t].Unlocking?
      modifies this`threads
      ensures Valid() && Next(old(Abs()), NotifyAll(t)) == Some(Abs())
    {
      InvNext(Abs(), NotifyAll(t));
      threads := map u | u in threads ::
        if u == t then Idle else if AsleepAtGate1(threads[u]) then SharedMutexProtocol.Wake(threads[u]) else threads[u];
    }

    /** lock_shared, up to a wait or to its end. */
    method LockSharedSection(ghost t: Thread) returns (entered: bool)
      requires Valid() && t in threads && (threads[t].Idle? || threads[t].WaitRead?)
      modifies this
      ensures Valid() && Next(old(Abs()), LockShared(t)) == Some(Abs())
      ensures entered <==> threads[t].Reading?
      ensures entered <==> !Owned(old(threads)) && |ReadersIn(old(threads))| < N_READERS
    {
      Enabled(Abs(), t);
      EntersIff(Abs(), LockShared(t));
      WordFacts(Abs());
      InvNext(Abs(), LockShared(t));
      if state >= WRITE_ENTERED || state % WRITE_ENTERED == N_READERS {
        threads := threads[t := WaitRead(false)];
        return false;
      }
      var numReaders := state % WRITE_ENTERED + 1;
      state := state - state % WRITE_ENTERED;
      state := state + numReaders;
      threads := threads[t := Reading];
      entered := true;
    }

    /** try_lock_shared with the internal mutex acquired. */
    method TryLockSharedSection(ghost t: Thread) returns (entered: bool)
      requires Valid() && t in threads && threads[t].Idle?
      modifies this
      ensures Valid() && Next(old(Abs()), TryLockShared(t)) == Some(Abs())
      ensures entered <==> threads[t].Reading?
      ensures entered <==> !Owned(old(threads)) && |ReadersIn(old(threads))| < N_READERS
    {
      Enabled(Abs(), t);
      EntersIff(Abs(), TryLockShared(t));
      WordFacts(Abs());
      InvNext(Abs(), TryLockShared(t));
      var numReaders := state % WRITE_ENTERED;
      if state < WRITE_ENTERED && numReaders != N_READERS {
        numReaders := numReaders + 1;
        state := state - state % WRITE_ENTERED;
        state := state + numReaders;
        threads := threads[t := Reading];
        return true;
      }
      entered := false;
    }

    /** unlock_shared; `woken` is the thread the gate picks, if it is notified and has a sleeper. */
    method UnlockSharedSection(ghost t: Thread, ghost woken: Option<Thread>)
      requires Valid() && t in threads && threads[t].Reading?
      requires Next(Abs(), UnlockShared(t, woken)).Some?
      modifies this
      ensures Valid() && Next(old(Abs()), UnlockShared(t, woken)) == Some(Abs())
    {
      ghost var before := Abs();
      WordFacts(before);
      InvNext(before, UnlockShared(t, woken));
      var numReaders := state % WRITE_ENTERED - 1;
      state := state - state % WRITE_ENTERED;
      state := state + numReaders;
      threads := threads[t := Idle];
      if state >= WRITE_ENTERED {
        if numReaders == 0 {
          Signal(woken);
        }
      } else if numReaders == N_READERS - 1 {
        Signal(woken);
      }
    }

    /** notify_one. */
    ghost method Signal(woken: Option<Thread>)
      requires woken.Some? ==> woken.value in threads
      modifies this`threads
      ensures threads == if woken.None? then old(threads)
                         else old(threads)[woken.value := SharedMutexProtocol.Wake(old(threads)[woken.value])]
    {
      if woken.Some? {
        threads := threads[woken.value := SharedMutexProtocol.Wake(threads[woken.value])];
      }
    }
  }
}
